/**
 What a compaction may assume about its input files, and why the way the files are chosen
 establishes it.
 */
module InputSets {
  import opened Wrappers
  import opened DbFormat
  import opened Versions
  import opened Inputs

  ghost predicate AllBefore(g: File, files: Files) {
    forall f :: f in files ==> Before(g.largest, f.smallest)
  }

  ghost predicate AllAfter(g: File, files: Files) {
    forall f :: f in files ==> Before(f.largest, g.smallest)
  }

  /** Every file left behind lies entirely before or entirely after the inputs. */
  ghost predicate Block(levelFiles: Files, inputs: Files) {
    forall g :: g in levelFiles && g !in inputs ==> AllBefore(g, inputs) || AllAfter(g, inputs)
  }

  ghost predicate Subset(inputs: Files, levelFiles: Files) {
    forall f :: f in inputs ==> f in levelFiles
  }

  /** The guarantee of SetupOtherInputs: files left behind at the input level hold newer data, and
      files left behind at the output level lie entirely on one side of all inputs. */
  ghost predicate InputsValid(v: Version, level: nat, in0: Files, in1: Files) {
    && level + 1 < NUM_LEVELS
    && in0 != []
    && Subset(in0, v[level]) && Subset(in1, v[level + 1])
    && SortedBySmallest(in0) && SortedDisjoint(in1)
    && (level > 0 ==> SortedDisjoint(in0))
    && LeavesNewer(v[level], in0)
    && LeavesApart(v[level + 1], in0, in1)
  }

  ghost predicate LeavesNewer(levelFiles: Files, in0: Files) {
    forall g, f {:trigger FileNewer(g, f)} :: g in levelFiles && g !in in0 && f in in0 ==> FileNewer(g, f)
  }

  ghost predicate LeavesApart(parents: Files, in0: Files, in1: Files) {
    forall g :: g in parents && g !in in1 ==> AllBefore(g, in0 + in1) || AllAfter(g, in0 + in1)
  }

  /** What the first choice of inputs must satisfy before SetupOtherInputs completes it. */
  ghost predicate Seed(v: Version, level: nat, in0: Files) {
    && level + 1 < NUM_LEVELS
    && in0 != []
    && Subset(in0, v[level])
    && (level == 0 ==> exists lo, hi :: in0 == OverlappingFiles(v[0], lo, hi) && ClosedRange(v[0], lo, hi))
    && (level > 0 ==> SortedDisjoint(in0) && Block(v[level], in0))
  }

  lemma {:induction false} OverlappingUpToKeepsOrder(files: Files, n: nat, lo: Option<UserKey>, hi: Option<UserKey>)
    requires n <= |files|
    ensures SortedBySmallest(files) ==> SortedBySmallest(OverlappingUpTo(files, n, lo, hi))
    ensures SortedDisjoint(files) ==> SortedDisjoint(OverlappingUpTo(files, n, lo, hi))
    ensures forall f :: f in OverlappingUpTo(files, n, lo, hi) ==> f in files[..n]
  {
    if n > 0 {
      OverlappingUpToKeepsOrder(files, n - 1, lo, hi);
      forall f | f in OverlappingUpTo(files, n - 1, lo, hi)
        ensures SortedBySmallest(files) ==> BySmallest(f, files[n - 1])
        ensures SortedDisjoint(files) ==> Before(f.largest, files[n - 1].smallest)
        ensures f in files[..n]
      {
        var j :| 0 <= j < n - 1 && files[j] == f;
      }
    }
  }

  lemma OverlappingKeepsOrder(files: Files, lo: Option<UserKey>, hi: Option<UserKey>)
    ensures SortedBySmallest(files) ==> SortedBySmallest(OverlappingFiles(files, lo, hi))
    ensures SortedDisjoint(files) ==> SortedDisjoint(OverlappingFiles(files, lo, hi))
  {
    OverlappingUpToKeepsOrder(files, |files|, lo, hi);
  }

  /** On a sorted level the files overlapping a range of user keys form a block. */
  lemma OverlappingIsBlock(files: Files, lo: Option<UserKey>, hi: Option<UserKey>)
    requires ValidFiles(files)
    ensures Block(files, OverlappingFiles(files, lo, hi)) || !SortedDisjoint(files)
  {
    var inputs := OverlappingFiles(files, lo, hi);
    if SortedDisjoint(files) {
      forall g | g in files && g !in inputs ensures AllBefore(g, inputs) || AllAfter(g, inputs) {
        if AfterFile(lo, g) {
          forall f | f in inputs ensures Before(g.largest, f.smallest) {
            OneComesFirst(files, g, f);
            FileEnds(g);
            FileEnds(f);
          }
        } else {
          forall f | f in inputs ensures Before(f.largest, g.smallest) {
            OneComesFirst(files, g, f);
            FileEnds(g);
            FileEnds(f);
          }
        }
      }
    }
  }

  lemma OneComesFirst(files: Files, f: File, g: File)
    requires SortedDisjoint(files) && f in files && g in files && f != g
    ensures Before(f.largest, g.smallest) || Before(g.largest, f.smallest)
  {
    var i :| 0 <= i < |files| && files[i] == f;
    var j :| 0 <= j < |files| && files[j] == g;
  }

  lemma PrefixIsBlock(files: Files, inputs: Files, n: nat)
    requires ValidFiles(files) && SortedDisjoint(files)
    requires Subset(inputs, files) && SortedDisjoint(inputs) && Block(files, inputs) && n <= |inputs|
    ensures Block(files, inputs[..n])
  {
    forall g | g in files && g !in inputs[..n] ensures AllBefore(g, inputs[..n]) || AllAfter(g, inputs[..n]) {
      if g in inputs {
        var j :| 0 <= j < |inputs| && inputs[j] == g;
        assert n <= j;
      }
    }
  }

  lemma SingletonIsBlock(files: Files, f: File)
    requires SortedDisjoint(files) && f in files
    ensures Block(files, [f]) && SortedDisjoint([f])
  {
    forall g | g in files && g !in [f] ensures AllBefore(g, [f]) || AllAfter(g, [f]) {
      OneComesFirst(files, f, g);
    }
  }

  // ---------------------------------------------------------------- boundary files

  ghost predicate SortedBlock(files: Files, inputs: Files) {
    inputs != [] && Subset(inputs, files) && SortedDisjoint(inputs) && Block(files, inputs)
  }

  /** Adding the smallest boundary file extends a block of a sorted level. */
  lemma BoundaryExtendsBlock(files: Files, inputs: Files, key: InternalKey, b: File)
    requires ValidFiles(files) && SortedDisjoint(files)
    requires SortedBlock(files, inputs)
    requires IsLargest(inputs, key) && IsSmallestBoundary(files, key, b)
    ensures SortedBlock(files, inputs + [b])
    ensures IsLargest(inputs + [b], b.largest)
  {
    forall f | f in inputs ensures Before(f.largest, b.smallest) && Before(f.largest, b.largest) {
      CompareIsTotalOrder(f.largest, key, b.smallest);
      CompareIsTotalOrder(key, f.largest, b.smallest);
      FileEnds(b);
      CompareIsTotalOrder(f.largest, b.smallest, b.largest);
      CompareIsTotalOrder(b.smallest, b.largest, b.smallest);
    }
    forall g | g in files && g !in inputs + [b] ensures AllBefore(g, inputs + [b]) || AllAfter(g, inputs + [b]) {
      OneComesFirst(files, g, b);
      FileEnds(g);
      FileEnds(b);
      if AllBefore(g, inputs) {
        var f := inputs[0];
        FileEnds(f);
        CompareIsTotalOrder(g.largest, f.smallest, f.largest);
        CompareIsTotalOrder(f.smallest, f.largest, f.smallest);
        CompareIsTotalOrder(g.largest, f.largest, b.smallest);
      } else if Before(g.largest, b.smallest) {
        var f :| f in inputs && f.largest == key;
        assert Boundary(g, key);
        CompareIsTotalOrder(g.smallest, g.largest, b.smallest);
        CompareIsTotalOrder(g.largest, g.smallest, b.smallest);
        assert false;
      }
    }
    FileEnds(b);
    BoundaryBecomesLargest(inputs, key, b);
  }

  lemma AppendHead<T>(a: seq<T>, b: seq<T>)
    requires b != []
    ensures a + b == a + [b[0]] + b[1..]
  {
  }

  lemma {:induction false} ChainExtendsBlock(files: Files, inputs: Files, key: InternalKey, added: Files)
    requires ValidFiles(files) && SortedDisjoint(files)
    requires SortedBlock(files, inputs)
    requires IsLargest(inputs, key) && BoundaryChain(files, key, added)
    ensures SortedBlock(files, inputs + added)
    decreases |added|
  {
    if added == [] {
      assert inputs + added == inputs;
    } else {
      BoundaryExtendsBlock(files, inputs, key, added[0]);
      var longer := inputs + [added[0]];
      ChainExtendsBlock(files, longer, added[0].largest, added[1..]);
      AppendHead(inputs, added);
    }
  }

  lemma SameLargest(files: Files, a: InternalKey, b: InternalKey)
    requires IsLargest(files, a) && IsLargest(files, b)
    ensures a == b
  {
    CompareIsTotalOrder(a, b, a);
  }

  /** A closed range of level 0 has no boundary files. */
  lemma ClosedRangeHasNoBoundary(files: Files, lo: Option<UserKey>, hi: Option<UserKey>, key: InternalKey)
    requires ValidFiles(files) && ClosedRange(files, lo, hi)
    requires IsLargest(OverlappingFiles(files, lo, hi), key)
    ensures NoBoundary(files, key)
  {
    var inputs := OverlappingFiles(files, lo, hi);
    var top :| top in inputs && top.largest == key;
    forall g | g in files ensures !Boundary(g, key) {
      if Boundary(g, key) {
        FileEnds(g);
        FileEnds(top);
        assert Overlaps(g, lo, hi);
        CompareIsTotalOrder(key, g.smallest, g.largest);
        CompareIsTotalOrder(g.smallest, g.largest, g.smallest);
        assert false;
      }
    }
  }

  // ---------------------------------------------------------------- the guarantee

  /** On a sorted level, files before a block hold newer data of a shared user key; a file after
      it shares a user key only if it is a boundary file. */
  lemma BlockLeavesNewer(v: Version, level: nat, in0: Files, last: InternalKey, g: File, f: File)
    requires Valid(v) && 0 < level < NUM_LEVELS
    requires Subset(in0, v[level]) && Block(v[level], in0) && IsLargest(in0, last) && NoBoundary(v[level], last)
    requires g in v[level] && g !in in0 && f in in0
    ensures FileNewer(g, f)
  {
    forall x, y | x in g.entries && y in f.entries && x.key.user == y.key.user ensures x.key.seqno > y.key.seqno {
      FileBounds(g, x);
      FileBounds(f, y);
      if AllBefore(g, in0) {
        CompareIsTotalOrder(x.key, g.largest, f.smallest);
        CompareIsTotalOrder(g.largest, x.key, f.smallest);
        CompareIsTotalOrder(x.key, f.smallest, y.key);
        CompareIsTotalOrder(f.smallest, y.key, x.key);
        InVersion(v, level, g, x);
        InVersion(v, level, f, y);
      } else {
        assert false;
      }
    }
  }

  lemma ClosedRangeLeavesNewer(files: Files, lo: Option<UserKey>, hi: Option<UserKey>, g: File, f: File)
    requires ValidFiles(files) && ClosedRange(files, lo, hi)
    requires g in files && g !in OverlappingFiles(files, lo, hi) && f in OverlappingFiles(files, lo, hi)
    ensures FileNewer(g, f)
  {
    forall x, y | x in g.entries && y in f.entries ensures x.key.user != y.key.user {
      FileBounds(g, x);
      FileBounds(f, y);
      assert Within(f, lo, hi);
    }
  }

  ghost predicate SpanUsers(in0: Files, smallest: InternalKey, largest: InternalKey) {
    forall f :: f in in0 ==> smallest.user <= f.smallest.user <= f.largest.user <= largest.user
  }

  lemma RangeSpansUsers(in0: Files, smallest: InternalKey, largest: InternalKey)
    requires ValidFiles(in0) && IsSmallest(in0, smallest) && IsLargest(in0, largest)
    ensures SpanUsers(in0, smallest, largest)
  {
    forall f | f in in0 ensures smallest.user <= f.smallest.user <= f.largest.user <= largest.user {
      FileEnds(f);
    }
  }

  /** The parents that overlap the inputs leave no parent straddling the whole compaction. */
  lemma ParentsLeaveApart(parents: Files, in0: Files, smallest: InternalKey, largest: InternalKey, g: File)
    requires ValidFiles(parents) && SortedDisjoint(parents) && ValidFiles(in0)
    requires SpanUsers(in0, smallest, largest)
    requires g in parents && g !in OverlappingFiles(parents, Some(smallest.user), Some(largest.user))
    ensures AllBefore(g, in0 + OverlappingFiles(parents, Some(smallest.user), Some(largest.user)))
            || AllAfter(g, in0 + OverlappingFiles(parents, Some(smallest.user), Some(largest.user)))
  {
    var in1 := OverlappingFiles(parents, Some(smallest.user), Some(largest.user));
    OverlappingIsBlock(parents, Some(smallest.user), Some(largest.user));
    FileEnds(g);
    if g.largest.user < smallest.user {
      forall f | f in in1 ensures Before(g.largest, f.smallest) {
        assert f in parents;
        FileEnds(f);
        OneComesFirst(parents, f, g);
      }
    } else {
      forall f | f in in1 ensures Before(f.largest, g.smallest) {
        assert f in parents;
        FileEnds(f);
        OneComesFirst(parents, f, g);
      }
    }
  }

  /** Seed inputs completed with their boundary files. */
  ghost predicate Completed(v: Version, level: nat, in0: Files) {
    && level + 1 < NUM_LEVELS
    && in0 != []
    && Subset(in0, v[level])
    && SortedBySmallest(in0)
    && (level > 0 ==> SortedDisjoint(in0))
    && LeavesNewer(v[level], in0)
  }

  lemma SubsetIsValid(inputs: Files, levelFiles: Files)
    requires ValidFiles(levelFiles) && Subset(inputs, levelFiles)
    ensures ValidFiles(inputs)
  {
  }

  lemma BoundaryFilesComplete(v: Version, level: nat, in0: Files, first: InternalKey, added: Files, last: InternalKey)
    requires Valid(v) && Seed(v, level, in0)
    requires IsLargest(in0, first) && BoundaryChain(v[level], first, added)
    requires IsLargest(in0 + added, last) && NoBoundary(v[level], last)
    ensures Completed(v, level, in0 + added)
  {
    if level == 0 {
      var lo, hi :| in0 == OverlappingFiles(v[0], lo, hi) && ClosedRange(v[0], lo, hi);
      ClosedRangeHasNoBoundary(v[0], lo, hi, first);
      assert in0 + added == in0;
      OverlappingKeepsOrder(v[0], lo, hi);
      forall g, f | g in v[0] && g !in in0 && f in in0 ensures FileNewer(g, f) {
        ClosedRangeLeavesNewer(v[0], lo, hi, g, f);
      }
    } else {
      ChainExtendsBlock(v[level], in0, first, added);
      var r := in0 + added;
      SubsetIsValid(r, v[level]);
      DisjointFilesAreSorted(r);
      forall g, f | g in v[level] && g !in r && f in r ensures FileNewer(g, f) {
        BlockLeavesNewer(v, level, r, last, g, f);
      }
    }
  }

  lemma ParentsComplete(v: Version, level: nat, in0: Files, in1: Files, smallest: InternalKey, largest: InternalKey)
    requires Valid(v) && Completed(v, level, in0)
    requires IsSmallest(in0, smallest) && IsLargest(in0, largest)
    requires in1 == OverlappingFiles(v[level + 1], Some(smallest.user), Some(largest.user))
    ensures InputsValid(v, level, in0, in1)
  {
    SubsetIsValid(in0, v[level]);
    RangeSpansUsers(in0, smallest, largest);
    OverlappingKeepsOrder(v[level + 1], Some(smallest.user), Some(largest.user));
    forall g | g in v[level + 1] && g !in in1 ensures AllBefore(g, in0 + in1) || AllAfter(g, in0 + in1) {
      ParentsLeaveApart(v[level + 1], in0, smallest, largest, g);
    }
  }
}

/**
 The compaction loop: walk the merged inputs, drop what no live snapshot can see, and cut the
 rest into output files (DBImpl::DoCompactionWork in db/db_impl.cc).
 */
module CompactionWork {
  import opened Wrappers
  import opened DbFormat
  import opened Visibility
  import opened Tables
  import opened Versions
  import opened InputSets
  import opened Iterators
  import opened Triggers
  import opened Compactions
  import opened Replacement
  import opened DropRules

  // ---------------------------------------------------------------- merged inputs

  /** The runs MakeInputIterator merges. */
  function RunsOf(files: Files): (runs: Runs)
    ensures |runs| == |files| && forall i {:trigger runs[i]} :: 0 <= i < |files| ==> runs[i] == files[i].entries
  {
    seq(|files|, i requires 0 <= i < |files| => files[i].entries)
  }

  ghost predicate Mergeable(files: Files) {
    SortedRuns(RunsOf(files)) && DistinctRuns(RunsOf(files))
  }

  lemma UnionOfRuns(files: Files)
    ensures Union(RunsOf(files)) == FilesEntries(files)
  {
    forall e | e in FilesEntries(files) ensures e in Union(RunsOf(files)) {
      var f :| f in files && e in f.entries;
      var i :| 0 <= i < |files| && files[i] == f;
      assert e in RunsOf(files)[i];
    }
  }

  /** What the merging iterator over the input files yields. */
  function MergeFiles(files: Files): (r: seq<Entry>)
    requires Mergeable(files)
    ensures Sorted(r) && Elements(r) == FilesEntries(files)
  {
    UnionOfRuns(files);
    MergeRuns(RunsOf(files))
  }

  lemma SplitLastFile(files: Files)
    requires files != []
    ensures FilesEntries(files) == FilesEntries(files[..|files| - 1]) + Elements(files[|files| - 1].entries)
  {
    var prefix, last := files[..|files| - 1], files[|files| - 1];
    assert forall f :: f in files <==> f in prefix || f == last;
  }

  lemma EntryIsInOneFile(v: Version, k: nat, l: nat, f: File, g: File, x: Entry, y: Entry)
    requires Valid(v) && k < NUM_LEVELS && l < NUM_LEVELS && f in v[k] && g in v[l]
    requires x in f.entries && y in g.entries && x.key == y.key
    ensures k == l && f == g
  {
    assert At(v, k, x) && At(v, l, y);
    if k < l {
      NewerAcrossLevels(v, k, l, x, y);
    } else if l < k {
      NewerAcrossLevels(v, l, k, y, x);
    } else if k > 0 {
      if f != g {
        OneComesFirst(v[k], f, g);
        FileBounds(f, x);
        FileBounds(g, y);
        CompareIsTotalOrder(f.largest, g.smallest, x.key);
        CompareIsTotalOrder(g.largest, f.smallest, x.key);
        CompareIsTotalOrder(x.key, f.largest, g.smallest);
        CompareIsTotalOrder(x.key, g.largest, f.smallest);
        assert false;
      }
    } else {
      assert x in Elements(f.entries) && y in Elements(g.entries);
      assert f.number > g.number ==> FileNewer(f, g);
      assert g.number > f.number ==> FileNewer(g, f);
      assert SameNumber(f, g);
    }
  }

  lemma SortedFilesAreDistinct(files: Files, i: nat, j: nat)
    requires SortedBySmallest(files) && i < j < |files|
    ensures files[i] != files[j]
  {
    assert BySmallest(files[i], files[j]);
    CompareIsTotalOrder(files[i].smallest, files[j].smallest, files[i].smallest);
  }

  lemma InputsAreDistinct(v: Version, level: nat, in0: Files, in1: Files)
    requires Valid(v) && InputsValid(v, level, in0, in1)
    ensures Mergeable(in0 + in1)
  {
    SubsetIsValid(in0, v[level]);
    SubsetIsValid(in1, v[level + 1]);
    DisjointFilesAreSorted(in1);
    var files := in0 + in1;
    forall i | 0 <= i < |files| ensures Sorted(files[i].entries) {
      assert ValidFile(files[i]) by { assert files[i] in if i < |in0| then in0 else in1; }
    }
    forall i, j | 0 <= i < j < |files| ensures DistinctKeys(files[i].entries, files[j].entries) {
      var f, g := files[i], files[j];
      var k := if i < |in0| then level else level + 1;
      var l := if j < |in0| then level else level + 1;
      assert f in (if i < |in0| then in0 else in1) && g in (if j < |in0| then in0 else in1);
      forall x, y | x in f.entries && y in g.entries ensures x.key != y.key {
        if x.key == y.key {
          EntryIsInOneFile(v, k, l, f, g, x, y);
          if k == level {
            SortedFilesAreDistinct(in0, i, j);
          } else {
            SortedFilesAreDistinct(in1, i - |in0|, j - |in0|);
          }
          assert false;
        }
      }
    }
  }

  // ---------------------------------------------------------------- survivors

  /** Entry `j` of the merged inputs is written to the output. */
  ghost predicate Survives(v: Version, level: nat, snapshot: nat, input: seq<Entry>, j: nat)
    requires j < |input|
  {
    && !(j > 0 && input[j - 1].key.user == input[j].key.user && input[j - 1].key.seqno <= snapshot)
    && !Obsolete(v, level, snapshot, input[j])
  }

  ghost function Survivors(v: Version, level: nat, snapshot: nat, input: seq<Entry>, n: nat): seq<Entry>
    requires n <= |input|
  {
    if n == 0 then []
    else
      var r := Survivors(v, level, snapshot, input, n - 1);
      if Survives(v, level, snapshot, input, n - 1) then r + [input[n - 1]] else r
  }

  lemma {:induction false} SurvivorsElements(v: Version, level: nat, snapshot: nat, input: seq<Entry>, n: nat)
    requires n <= |input|
    ensures forall e :: e in Survivors(v, level, snapshot, input, n) <==>
      exists j :: 0 <= j < n && input[j] == e && Survives(v, level, snapshot, input, j)
    ensures Sorted(input) ==> Sorted(Survivors(v, level, snapshot, input, n))
  {
    if n > 0 {
      SurvivorsElements(v, level, snapshot, input, n - 1);
      assert Sorted(input) ==> forall e :: e in Survivors(v, level, snapshot, input, n - 1) ==> Before(e.key, input[n - 1].key);
    }
  }

  /** Comparing with the previous entry only is enough to see whether a newer one hides it. */
  lemma SurvivorsAreKept(v: Version, level: nat, snapshot: nat, input: seq<Entry>)
    requires Sorted(input) && UniqueSeqnos(Elements(input))
    ensures KeepsExactly(v, level, Elements(input), snapshot, Elements(Survivors(v, level, snapshot, input, |input|)))
  {
    SurvivorsElements(v, level, snapshot, input, |input|);
    forall e ensures e in Survivors(v, level, snapshot, input, |input|) <==> Kept(v, level, Elements(input), snapshot, e) {
      if e in input {
        var j :| 0 <= j < |input| && input[j] == e;
        HiddenByPrevious(input, snapshot, j);
        forall k | 0 <= k < |input| && input[k] == e ensures k == j {
          assert k < j ==> Before(input[k].key, input[j].key);
          assert j < k ==> Before(input[j].key, input[k].key);
        }
      }
    }
  }

  lemma HiddenByPrevious(input: seq<Entry>, snapshot: nat, j: nat)
    requires Sorted(input) && UniqueSeqnos(Elements(input)) && j < |input|
    ensures Hidden(Elements(input), snapshot, input[j])
            <==> j > 0 && input[j - 1].key.user == input[j].key.user && input[j - 1].key.seqno <= snapshot
  {
    var e := input[j];
    if p :| p in Elements(input) && p.key.user == e.key.user && p.key.seqno > e.key.seqno && p.key.seqno <= snapshot {
      var i :| 0 <= i < |input| && input[i] == p;
      assert j < i ==> Before(input[j].key, input[i].key);
      assert i < j - 1 ==> Before(input[i].key, input[j - 1].key) && Before(input[j - 1].key, input[j].key);
    }
    if j > 0 && input[j - 1].key.user == e.key.user {
      assert Before(input[j - 1].key, e.key);
      assert input[j - 1] in Elements(input) && e in Elements(input);
    }
  }

  // ---------------------------------------------------------------- output files

  function Flatten(files: Files): seq<Entry> {
    if files == [] then [] else Flatten(files[..|files| - 1]) + files[|files| - 1].entries
  }

  predicate Labelled(f: File) {
    f.entries != [] && f.smallest == f.entries[0].key && f.largest == f.entries[|f.entries| - 1].key
  }

  lemma {:induction false} FlattenElements(files: Files)
    ensures forall e :: e in Flatten(files) <==> e in FilesEntries(files)
  {
    if files != [] {
      var prefix, last := files[..|files| - 1], files[|files| - 1];
      FlattenElements(prefix);
      SplitLastFile(files);
    }
  }

  /** Cutting a sorted list into labelled pieces gives valid, sorted, disjoint files. */
  lemma {:induction false} PiecesAreSortedFiles(files: Files)
    requires Sorted(Flatten(files))
    requires forall f :: f in files ==> Labelled(f)
    requires forall e :: e in Flatten(files) ==> e.key.seqno <= MAX_SEQUENCE
    ensures ValidFiles(files) && SortedDisjoint(files)
  {
    if files != [] {
      var prefix, last := files[..|files| - 1], files[|files| - 1];
      var front := Flatten(prefix);
      assert front + last.entries == Flatten(files);
      forall i, j | 0 <= i < j < |front| ensures Before(front[i].key, front[j].key) {
        assert Flatten(files)[i] == front[i] && Flatten(files)[j] == front[j];
      }
      forall i, j | 0 <= i < j < |last.entries| ensures Before(last.entries[i].key, last.entries[j].key) {
        assert Flatten(files)[|front| + i] == last.entries[i] && Flatten(files)[|front| + j] == last.entries[j];
      }
      PiecesAreSortedFiles(prefix);
      FlattenElements(prefix);
      assert Labelled(last) && ValidFile(last);
      forall i | 0 <= i < |files| - 1 ensures ValidFile(files[i]) && Before(files[i].largest, last.smallest) {
        assert files[i] == prefix[i] && prefix[i] in prefix && ValidFile(prefix[i]);
        var e := files[i].entries[|files[i].entries| - 1];
        assert e in files[i].entries && e in front;
        var k :| 0 <= k < |front| && front[k] == e;
        assert Flatten(files)[k] == e && Flatten(files)[|front|] == last.entries[0];
      }
      forall i, j | 0 <= i < j < |files| ensures Before(files[i].largest, files[j].smallest) {
        if j < |files| - 1 { assert Before(prefix[i].largest, prefix[j].smallest); }
      }
      forall f | f in files ensures ValidFile(f) {
        var i :| 0 <= i < |files| && files[i] == f;
      }
    }
  }

  // ---------------------------------------------------------------- where the outputs are cut

  /** What TableBuilder::FileSize says about a table of some entries, before and after Finish. */
  datatype Sizes = Sizes(soFar: seq<Entry> -> nat, finished: seq<Entry> -> nat)

  /** So many of the files, and no more, end before the key. */
  ghost predicate IsPassed(files: Files, key: InternalKey, n: nat) {
    && n <= |files|
    && (forall i :: 0 <= i < n ==> Before(files[i].largest, key))
    && (n < |files| ==> !Before(files[n].largest, key))
  }

  lemma {:induction false} SomeArePassed(files: Files, key: InternalKey) returns (n: nat)
    ensures IsPassed(files, key, n)
    decreases |files|
  {
    n := 0;
    if files != [] && Before(files[0].largest, key) {
      var rest := SomeArePassed(files[1..], key);
      n := rest + 1;
      forall i | 0 <= i < n ensures Before(files[i].largest, key) {
        assert i > 0 ==> files[1..][i - 1] == files[i];
      }
      assert n < |files| ==> files[1..][rest] == files[n];
    }
  }

  /** How many files a key has left behind. */
  ghost function FilesPassed(files: Files, key: InternalKey): (n: nat)
    ensures IsPassed(files, key, n)
  {
    assert exists n: nat :: IsPassed(files, key, n) by { var n := SomeArePassed(files, key); }
    var n: nat :| IsPassed(files, key, n);
    n
  }

  lemma LaterKeysPassMore(files: Files, a: InternalKey, b: InternalKey)
    requires !Before(b, a)
    ensures FilesPassed(files, a) <= FilesPassed(files, b)
  {
    var m, n := FilesPassed(files, a), FilesPassed(files, b);
    if n < m {
      CompareIsTotalOrder(files[n].largest, a, b);
      CompareIsTotalOrder(a, b, a);
      assert false;
    }
  }

  lemma {:induction false} SizesAddUp(files: Files, a: nat, b: nat, c: nat)
    requires a <= b <= c
    ensures SizeBetween(files, a, b) + SizeBetween(files, b, c) == SizeBetween(files, a, c)
    decreases c
  {
    if b < c { SizesAddUp(files, a, b, c - 1); }
  }

  /** How the merged inputs of a compaction are to be cut: an output is finished once it is full,
      and before a key by which too many grandparent bytes have gone by since the last such key. */
  datatype Cutting = Cutting(grandparents: Files, maxFileSize: nat, ghost sizes: Sizes, input: seq<Entry>, ghost stops: set<nat>)
  {
    /** The last stop before position `n`, or else the beginning. */
    ghost function LastStop(n: nat): (s: nat)
      ensures s <= n && (n > 0 ==> s < n)
    {
      if n == 0 then 0 else if n - 1 in stops then n - 1 else LastStop(n - 1)
    }

    /** The bytes of the grandparents passed from the last stop before `n` up to position `j`. */
    ghost function BytesSince(n: nat, j: nat): nat
      requires n <= |input| && j < |input|
    {
      SizeBetween(grandparents, Passed(LastStop(n)), Passed(j))
    }

    /** Too many grandparent bytes have gone by since the last stop. */
    ghost predicate TooMuch(j: nat)
      requires j < |input|
    {
      BytesSince(j, j) > 10 * maxFileSize
    }

    ghost predicate StopsRight() {
      forall j {:trigger TooMuch(j)} :: 0 <= j < |input| ==> (j in stops <==> TooMuch(j))
    }

    ghost function Passed(j: nat): nat
      requires j <= |input|
    {
      if j < |input| then FilesPassed(grandparents, input[j].key) else 0
    }

    ghost predicate Full(es: seq<Entry>) { sizes.soFar(es) >= maxFileSize }

    ghost predicate Finished(f: File) {
      Labelled(f) && f.size == sizes.finished(f.entries)
    }

    /** The entries were not full before the last one came. */
    ghost predicate InTime(es: seq<Entry>) {
      forall k {:trigger es[..k]} :: 0 < k < |es| ==> !Full(es[..k])
    }

    /** No stop up to `n` separates the entries. */
    ghost predicate Whole(es: seq<Entry>, n: nat)
      requires es != [] && n <= |input|
    {
      forall q :: 0 <= q < n && q in stops ==> !Before(es[0].key, input[q].key) || Before(es[|es| - 1].key, input[q].key)
    }

    /** The entries can still grow: they are not full, and no stop up to `n` comes after the first. */
    ghost predicate Open(es: seq<Entry>, n: nat)
      requires n <= |input|
    {
      es != [] ==> !Full(es) && forall q :: 0 <= q < n && q in stops ==> !Before(es[0].key, input[q].key)
    }

    /** The entries were finished because they were full, or at a stop between them and the next key. */
    ghost predicate Justified(es: seq<Entry>, next: Option<InternalKey>, n: nat)
      requires es != [] && n <= |input|
    {
      || Full(es)
      || exists q :: 0 <= q < n && q in stops && Before(es[|es| - 1].key, input[q].key) && (next.Some? ==> !Before(next.value, input[q].key))
    }

    ghost predicate UpTo(es: seq<Entry>, m: nat)
      requires es != [] && m <= |input|
    {
      m > 0 && !Before(input[m - 1].key, es[|es| - 1].key)
    }

    /** The stops up to `n` and the entries up to `m` have been dealt with. */
    ghost predicate CutSoFar(n: nat, m: nat, outputs: Files, builder: seq<Entry>)
      requires m <= n <= |input|
    {
      && (forall f {:trigger Labelled(f)} :: f in outputs ==> Finished(f) && InTime(f.entries) && Whole(f.entries, n) && UpTo(f.entries, m))
      && (forall k :: 0 <= k < |outputs| - 1 ==> Labelled(outputs[k]) && Justified(outputs[k].entries, Some(outputs[k + 1].smallest), n))
      && (outputs != [] ==> Labelled(outputs[|outputs| - 1]))
      && (outputs != [] ==> Justified(outputs[|outputs| - 1].entries, if builder == [] then None else Some(builder[0].key), n))
      && (builder != [] ==> InTime(builder) && Whole(builder, n) && UpTo(builder, m))
    }

    /** Each output is as long as it may be, and no longer. */
    ghost predicate WellCut(outputs: Files) {
      && (forall f {:trigger Labelled(f)} :: f in outputs ==> Finished(f) && InTime(f.entries) && Whole(f.entries, |input|))
      && (forall k :: 0 <= k < |outputs| - 1 ==> Labelled(outputs[k]) && Justified(outputs[k].entries, Some(outputs[k + 1].smallest), |input|))
    }
  }

  /** The cutting with the stops among its first `n` positions. */
  ghost function StopsUpTo(k: Cutting, n: nat): (l: Cutting)
    requires n <= |k.input|
    ensures l == k.(stops := l.stops)
  {
    if n == 0 then k.(stops := {}) else WithStop(StopsUpTo(k, n - 1), n - 1)
  }

  ghost function WithStop(k: Cutting, n: nat): (l: Cutting)
    requires n < |k.input|
    ensures l == k.(stops := l.stops)
  {
    if k.TooMuch(n) then k.(stops := k.stops + {n}) else k
  }

  lemma {:induction false} LastStopLooksBack(k: Cutting, l: Cutting, n: nat)
    requires forall q :: 0 <= q < n ==> (q in k.stops <==> q in l.stops)
    ensures k.LastStop(n) == l.LastStop(n)
  {
    if n > 0 { LastStopLooksBack(k, l, n - 1); }
  }

  ghost predicate StopsRightUpTo(k: Cutting, n: nat)
    requires n <= |k.input|
  {
    && (forall j :: j in k.stops ==> j < n)
    && forall j {:trigger k.TooMuch(j)} :: 0 <= j < n ==> (j in k.stops <==> k.TooMuch(j))
  }

  /** Whether a position is a stop depends on earlier positions only. */
  lemma StopsLookBack(k: Cutting, n: nat, l: Cutting, m: nat)
    requires n < |k.input| && StopsRightUpTo(k, n)
    requires l == WithStop(k, n) && m == n + 1
    ensures StopsRightUpTo(l, m)
  {
    forall j | 0 <= j < m ensures j in l.stops <==> l.TooMuch(j) {
      TooMuchLooksBack(k, l, j);
    }
  }

  lemma TooMuchLooksBack(k: Cutting, l: Cutting, j: nat)
    requires j < |k.input| && l == k.(stops := l.stops)
    requires forall q :: 0 <= q < j ==> (q in k.stops <==> q in l.stops)
    ensures k.TooMuch(j) <==> l.TooMuch(j)
  {
    LastStopLooksBack(k, l, j);
  }

  lemma {:induction false} StopsUpToAreRight(k: Cutting, n: nat)
    requires n <= |k.input|
    ensures StopsRightUpTo(StopsUpTo(k, n), n)
  {
    if n > 0 {
      StopsUpToAreRight(k, n - 1);
      StopsLookBack(StopsUpTo(k, n - 1), n - 1, StopsUpTo(k, n), n);
    }
  }

  /** The way to cut the merged inputs: the stops follow from the grandparents and the keys. */
  ghost function CuttingOf(grandparents: Files, maxFileSize: nat, sizes: Sizes, input: seq<Entry>): (k: Cutting)
    ensures k.StopsRight()
  {
    var start := Cutting(grandparents, maxFileSize, sizes, input, {});
    StopsUpToAreRight(start, |input|);
    StopsUpTo(start, |input|)
  }

  lemma UpToIsBefore(k: Cutting, es: seq<Entry>, i: nat)
    requires Sorted(k.input) && i < |k.input| && es != [] && k.UpTo(es, i)
    ensures Before(es[|es| - 1].key, k.input[i].key) && k.UpTo(es, i + 1)
    ensures forall n {:trigger k.Whole(es, n)} :: n == i && k.Whole(es, n) ==> k.Whole(es, n + 1)
  {
    var last := es[|es| - 1].key;
    CompareIsTotalOrder(last, k.input[i - 1].key, k.input[i].key);
    CompareIsTotalOrder(k.input[i - 1].key, last, k.input[i].key);
    CompareIsTotalOrder(k.input[i].key, last, k.input[i].key);
  }

  /** A further stop lies beyond all that has been written. */
  lemma NextStop(k: Cutting, i: nat, outputs: Files, builder: seq<Entry>)
    requires Sorted(k.input) && i < |k.input| && k.CutSoFar(i, i, outputs, builder)
    ensures k.CutSoFar(i + 1, i, outputs, builder)
  {
    forall f | f in outputs ensures k.Whole(f.entries, i + 1) {
      assert Labelled(f);
      UpToIsBefore(k, f.entries, i);
    }
    if builder != [] { UpToIsBefore(k, builder, i); }
    forall n | 0 <= n < |outputs| - 1 ensures k.Justified(outputs[n].entries, Some(outputs[n + 1].smallest), i + 1) {
      assert k.Justified(outputs[n].entries, Some(outputs[n + 1].smallest), i);
    }
  }

  /** A finished output needs a reason. */
  lemma FinishCuts(k: Cutting, n: nat, m: nat, outputs: Files, builder: seq<Entry>, f: File)
    requires m <= n <= |k.input| && k.CutSoFar(n, m, outputs, builder)
    requires builder != [] && k.Finished(f) && f.entries == builder && k.Justified(builder, None, n)
    ensures k.CutSoFar(n, m, outputs + [f], [])
  {
    var outputs' := outputs + [f];
    forall j | 0 <= j < |outputs'| - 1
      ensures Labelled(outputs'[j]) && k.Justified(outputs'[j].entries, Some(outputs'[j + 1].smallest), n)
    {
      if j < |outputs| - 1 {
        assert k.Justified(outputs[j].entries, Some(outputs[j + 1].smallest), n);
      } else {
        assert outputs'[j] == outputs[|outputs| - 1];
      }
    }
  }

  lemma LongerInTime(k: Cutting, es: seq<Entry>, e: Entry)
    requires k.InTime(es) && (es != [] ==> !k.Full(es))
    ensures k.InTime(es + [e])
  {
    forall n | 0 < n < |es + [e]| ensures !k.Full((es + [e])[..n]) {
      assert (es + [e])[..n] == es[..n];
      if n == |es| { assert es[..n] == es; }
    }
  }

  /** No stop so far lies beyond the next entry, nor beyond the first entry of an open output. */
  lemma LongerUnstopped(k: Cutting, i: nat, es: seq<Entry>, q: nat)
    requires Sorted(k.input) && q <= i < |k.input| && k.Open(es, i + 1) && q in k.stops
    ensures !Before((es + [k.input[i]])[0].key, k.input[q].key)
  {
    if es == [] { CompareIsTotalOrder(k.input[q].key, k.input[i].key, k.input[q].key); }
  }

  lemma LastJustified(k: Cutting, i: nat, es: seq<Entry>)
    requires Sorted(k.input) && i < |k.input| && es != [] && k.Justified(es, None, i + 1)
    ensures k.Justified(es, Some(k.input[i].key), i + 1)
  {
    if !k.Full(es) {
      var q :| 0 <= q < i + 1 && q in k.stops && Before(es[|es| - 1].key, k.input[q].key);
      LongerUnstopped(k, i, [], q);
    }
  }

  lemma AddCuts(k: Cutting, i: nat, outputs: Files, builder: seq<Entry>)
    requires Sorted(k.input) && i < |k.input| && k.CutSoFar(i + 1, i, outputs, builder) && k.Open(builder, i + 1)
    ensures k.CutSoFar(i + 1, i + 1, outputs, builder + [k.input[i]])
    ensures !k.Full(builder + [k.input[i]]) ==> k.Open(builder + [k.input[i]], i + 1)
  {
    var e, longer := k.input[i], builder + [k.input[i]];
    SkipCuts(k, i, outputs, builder);
    CompareIsTotalOrder(e.key, e.key, e.key);
    assert k.UpTo(longer, i + 1);
    LongerInTime(k, builder, e);
    forall q | 0 <= q < i + 1 && q in k.stops ensures !Before(longer[0].key, k.input[q].key) {
      LongerUnstopped(k, i, builder, q);
    }
    if outputs != [] && builder == [] {
      LastJustified(k, i, outputs[|outputs| - 1].entries);
    }
  }

  lemma SkipCuts(k: Cutting, i: nat, outputs: Files, builder: seq<Entry>)
    requires Sorted(k.input) && i < |k.input| && k.CutSoFar(i + 1, i, outputs, builder)
    ensures k.CutSoFar(i + 1, i + 1, outputs, builder)
  {
    forall f | f in outputs ensures k.UpTo(f.entries, i + 1) {
      assert Labelled(f);
      UpToIsBefore(k, f.entries, i);
    }
    if builder != [] { UpToIsBefore(k, builder, i); }
  }

  /** The grandparents that end between the first and the last key of the file are few. */
  ghost predicate PassesFew(grandparents: Files, maxFileSize: nat, f: File) {
    SizeBetween(grandparents, FilesPassed(grandparents, f.smallest), FilesPassed(grandparents, f.largest)) <= 10 * maxFileSize
  }

  lemma OutputsPassFewGrandparents(k: Cutting, outputs: Files, f: File)
    requires Sorted(k.input) && k.StopsRight() && k.WellCut(outputs) && f in outputs && forall e :: e in f.entries ==> e in k.input
    ensures PassesFew(k.grandparents, k.maxFileSize, f)
  {
    var es := f.entries;
    assert Labelled(f) && k.Whole(es, |k.input|);
    var a := PositionOf(es[0], k.input);
    var b := PositionOf(es[|es| - 1], k.input);
    forall q | a < q <= b ensures q !in k.stops {
      NoStopInside(k, es, a, b, q);
    }
    FewPassedBetweenStops(k, a, b);
  }

  lemma PositionOf(e: Entry, input: seq<Entry>) returns (j: nat)
    requires e in input
    ensures j < |input| && input[j] == e
  {
    j :| 0 <= j < |input| && input[j] == e;
  }

  lemma NoStopInside(k: Cutting, es: seq<Entry>, a: nat, b: nat, q: nat)
    requires Sorted(k.input) && a < q <= b < |k.input|
    requires es != [] && es[0] == k.input[a] && es[|es| - 1] == k.input[b] && k.Whole(es, |k.input|)
    ensures q !in k.stops
  {
    CompareIsTotalOrder(k.input[b].key, k.input[q].key, k.input[b].key);
  }

  lemma FewPassedBetweenStops(k: Cutting, a: nat, b: nat)
    requires Sorted(k.input) && k.StopsRight() && a < |k.input| && b < |k.input|
    requires forall q :: a < q <= b ==> q !in k.stops
    ensures SizeBetween(k.grandparents, k.Passed(a), k.Passed(b)) <= 10 * k.maxFileSize
  {
    if a < b {
      StopsBefore(k, a, b);
      assert !k.TooMuch(b);
      LaterPositionsPassMore(k, k.LastStop(b), a);
      LaterPositionsPassMore(k, a, b);
      SizesAddUp(k.grandparents, k.Passed(k.LastStop(b)), k.Passed(a), k.Passed(b));
    } else {
      LaterPositionsPassMore(k, b, a);
    }
  }

  lemma LaterPositionsPassMore(k: Cutting, a: nat, b: nat)
    requires Sorted(k.input) && a <= b < |k.input|
    ensures k.Passed(a) <= k.Passed(b)
  {
    CompareIsTotalOrder(k.input[b].key, k.input[a].key, k.input[b].key);
    if a < b { LaterKeysPassMore(k.grandparents, k.input[a].key, k.input[b].key); }
  }

  lemma {:induction false} StopsBefore(k: Cutting, a: nat, b: nat)
    requires a < b < |k.input| && forall q :: a < q < b ==> q !in k.stops
    ensures k.LastStop(b) <= a
    decreases b
  {
    if a < b - 1 { StopsBefore(k, a, b - 1); }
  }

  /** The compaction's counters say how far the keys before position `n` have come. */
  ghost predicate Tracks(c: Compaction, k: Cutting, n: nat)
    requires n <= |k.input|
    reads c`grandparents, c`grandparentIndex, c`seenKey, c`overlappedBytes
  {
    && c.grandparents == k.grandparents && c.maxFileSize == k.maxFileSize && c.seenKey == (n > 0)
    && (n == 0 ==> c.grandparentIndex == 0 && c.overlappedBytes == 0)
    && (n > 0 ==> c.grandparentIndex == k.Passed(n - 1))
    && (n > 0 ==> c.overlappedBytes == k.BytesSince(n, n - 1))
  }

  lemma BytesGrow(k: Cutting, i: nat)
    requires Sorted(k.input) && 0 < i < |k.input|
    ensures k.Passed(i - 1) <= k.Passed(i)
    ensures k.BytesSince(i, i) == k.BytesSince(i, i - 1) + SizeBetween(k.grandparents, k.Passed(i - 1), k.Passed(i))
  {
    LaterPositionsPassMore(k, i - 1, i);
    LaterPositionsPassMore(k, k.LastStop(i), i - 1);
    SizesAddUp(k.grandparents, k.Passed(k.LastStop(i)), k.Passed(i - 1), k.Passed(i));
  }

  lemma StopsResetBytes(k: Cutting, i: nat)
    requires k.StopsRight() && i < |k.input|
    ensures i == 0 ==> k.BytesSince(0, 0) == 0
    ensures i in k.stops <==> k.BytesSince(i, i) > 10 * k.maxFileSize
    ensures k.BytesSince(i + 1, i) == if i in k.stops then 0 else k.BytesSince(i, i)
  {
    assert i in k.stops <==> k.TooMuch(i);
  }

  /** The files passed before an earlier key are passed before a later one. */
  lemma StillPassed(k: Cutting, i: nat, j: nat)
    requires Sorted(k.input) && 0 < i < |k.input| && j < k.Passed(i - 1)
    ensures j < |k.grandparents| && Before(k.grandparents[j].largest, k.input[i].key)
  {
    CompareIsTotalOrder(k.grandparents[j].largest, k.input[i - 1].key, k.input[i].key);
  }

  lemma PassedIs(files: Files, key: InternalKey, n: nat)
    requires IsPassed(files, key, n)
    ensures FilesPassed(files, key) == n
  {
  }

  method AskToStop(c: Compaction, ghost k: Cutting, ghost i: nat, key: InternalKey) returns (stop: bool)
    requires Sorted(k.input) && k.StopsRight() && i < |k.input| && key == k.input[i].key && Tracks(c, k, i)
    modifies c`grandparentIndex, c`seenKey, c`overlappedBytes
    ensures Tracks(c, k, i + 1) && (stop <==> i in k.stops)
  {
    ghost var start := c.grandparentIndex;
    stop := c.ShouldStopBefore(key);
    forall j | 0 <= j < start ensures Before(k.grandparents[j].largest, key) {
      StillPassed(k, i, j);
    }
    PassedIs(k.grandparents, key, c.grandparentIndex);
    if i > 0 { BytesGrow(k, i); }
    StopsResetBytes(k, i);
  }

  // ---------------------------------------------------------------- the loop

  /** Files numbered one after the other. */
  ghost predicate Numbered(files: Files, first: nat) {
    forall i :: 0 <= i < |files| ==> files[i].number == first + i
  }

  /** FinishCompactionOutputFile: the file size is what the table builder reports in the end. */
  function FinishFile(number: nat, builder: seq<Entry>, sizes: Sizes): (f: File)
    requires builder != []
    ensures Labelled(f) && f.entries == builder && f.number == number
  {
    File(number, sizes.finished(builder), builder[0].key, builder[|builder| - 1].key, builder)
  }

  lemma FlattenSnoc(files: Files, f: File)
    ensures Flatten(files + [f]) == Flatten(files) + f.entries
  {
    assert (files + [f])[..|files|] == files;
  }

  /** The finished files and the open one hold `written`, in order. */
  ghost predicate Writing(outputs: Files, builder: seq<Entry>, first: nat, written: seq<Entry>) {
    && Flatten(outputs) + builder == written
    && (forall f {:trigger Labelled(f)} :: f in outputs ==> Labelled(f))
    && Numbered(outputs, first)
  }

  method FinishCompactionOutputFile(outputs: Files, builder: seq<Entry>, sizes: Sizes, first: nat, ghost written: seq<Entry>)
    returns (outputs': Files)
    requires builder != [] && Writing(outputs, builder, first, written)
    ensures Writing(outputs', [], first, written)
    ensures outputs' == outputs + [FinishFile(first + |outputs|, builder, sizes)]
  {
    var f := FinishFile(first + |outputs|, builder, sizes);
    FlattenSnoc(outputs, f);
    outputs' := outputs + [f];
  }

  /** The last output needs no reason to end. */
  lemma LastCut(k: Cutting, outputs: Files, builder: seq<Entry>, outputs': Files)
    requires k.CutSoFar(|k.input|, |k.input|, outputs, builder)
    requires if builder == [] then outputs' == outputs
             else |outputs'| == |outputs| + 1 && outputs'[..|outputs|] == outputs && k.Finished(outputs'[|outputs|]) && outputs'[|outputs|].entries == builder
    ensures k.WellCut(outputs')
  {
    forall f | f in outputs' ensures k.Finished(f) && k.InTime(f.entries) && k.Whole(f.entries, |k.input|) {
      var i :| 0 <= i < |outputs'| && outputs'[i] == f;
      assert i < |outputs| ==> outputs[i] == f && Labelled(outputs[i]);
    }
    forall i | 0 <= i < |outputs'| - 1
      ensures Labelled(outputs'[i]) && k.Justified(outputs'[i].entries, Some(outputs'[i + 1].smallest), |k.input|)
    {
      assert outputs'[i] == outputs[i];
      assert i < |outputs| - 1 ==> outputs'[i + 1] == outputs[i + 1];
    }
  }

  /** The finished files and the open one are what the first `i` merged entries give. */
  ghost predicate Underway(c: Compaction, k: Cutting, snapshot: nat, first: nat, i: nat, outputs: Files, builder: seq<Entry>)
    requires i <= |k.input|
  {
    && k.CutSoFar(i, i, outputs, builder) && k.Open(builder, i)
    && Writing(outputs, builder, first, Survivors(c.inputVersion, c.level, snapshot, k.input, i))
  }

  /** The previous user key and sequence number, as the drop rules see them. */
  ghost predicate Remembers(input: seq<Entry>, i: nat, currentUserKey: Option<UserKey>, lastSequenceForKey: nat)
    requires i <= |input|
  {
    && currentUserKey == (if i == 0 then None else Some(input[i - 1].key.user))
    && (i > 0 ==> lastSequenceForKey == input[i - 1].key.seqno)
  }

  ghost predicate Asked(c: Compaction, input: seq<Entry>, i: nat, last: Option<UserKey>)
    requires i <= |input|
    reads c`levelPtrs
  {
    c.PointersPassed(last) && (last.Some? ==> i > 0 && last.value <= input[i - 1].key.user)
  }

  /** DBImpl::DoCompactionWork.  `sizes` stands for what the table builder reports. */
  method DoCompactionWork(c: Compaction, input: seq<Entry>, smallestSnapshot: nat, sizes: Sizes, nextFileNumber: nat)
    returns (outputs: Files)
    requires WellFormed(c.inputVersion) && c.Untouched()
    requires Sorted(input)
    requires smallestSnapshot < MAX_SEQUENCE
    modifies c`levelPtrs, c`grandparentIndex, c`seenKey, c`overlappedBytes
    ensures Writing(outputs, [], nextFileNumber, Survivors(c.inputVersion, c.level, smallestSnapshot, input, |input|))
    ensures CuttingOf(c.grandparents, c.maxFileSize, sizes, input).WellCut(outputs)
  {
    ghost var k := CuttingOf(c.grandparents, c.maxFileSize, sizes, input);
    outputs := [];
    var builder: seq<Entry> := [];
    var currentUserKey: Option<UserKey> := None;
    var lastSequenceForKey := MAX_SEQUENCE;
    ghost var lastAsked: Option<UserKey> := None;
    var i := 0;
    while i < |input|
      invariant i <= |input|
      invariant Remembers(input, i, currentUserKey, lastSequenceForKey)
      invariant Asked(c, input, i, lastAsked) && Tracks(c, k, i)
      invariant Underway(c, k, smallestSnapshot, nextFileNumber, i, outputs, builder)
    {
      outputs, builder, lastAsked := CompactEntry(c, k, i, input[i], smallestSnapshot, sizes, nextFileNumber,
                                                  outputs, builder, currentUserKey, lastSequenceForKey, lastAsked);
      currentUserKey, lastSequenceForKey := Some(input[i].key.user), input[i].key.seqno;
      i := i + 1;
    }
    ghost var before, open := outputs, builder;
    if builder != [] {
      outputs := FinishCompactionOutputFile(outputs, builder, sizes, nextFileNumber,
                   Survivors(c.inputVersion, c.level, smallestSnapshot, input, |input|));
    }
    LastCut(k, before, open, outputs);
  }

  /** One round of the loop. */
  method CompactEntry(c: Compaction, ghost k: Cutting, ghost i: nat, e: Entry, smallestSnapshot: nat, sizes: Sizes, first: nat,
                      outputs: Files, builder: seq<Entry>, currentUserKey: Option<UserKey>, lastSequenceForKey: nat, ghost lastAsked: Option<UserKey>)
    returns (outputs': Files, builder': seq<Entry>, ghost asked: Option<UserKey>)
    requires WellFormed(c.inputVersion) && smallestSnapshot < MAX_SEQUENCE
    requires Sorted(k.input) && k.StopsRight() && k.sizes == sizes && i < |k.input| && e == k.input[i]
    requires Remembers(k.input, i, currentUserKey, lastSequenceForKey)
    requires Asked(c, k.input, i, lastAsked) && Tracks(c, k, i)
    requires Underway(c, k, smallestSnapshot, first, i, outputs, builder)
    modifies c`levelPtrs, c`grandparentIndex, c`seenKey, c`overlappedBytes
    ensures Asked(c, k.input, i + 1, asked) && Tracks(c, k, i + 1)
    ensures Underway(c, k, smallestSnapshot, first, i + 1, outputs', builder')
  {
    ghost var written := Survivors(c.inputVersion, c.level, smallestSnapshot, k.input, i);
    var stop := AskToStop(c, k, i, e.key);
    outputs', builder' := StopOutput(k, i, stop, outputs, builder, sizes, first, written);
    var drop;
    drop, asked := DropEntry(c, e, smallestSnapshot, currentUserKey, lastSequenceForKey, lastAsked, k.input, i);
    if drop {
      SkipCuts(k, i, outputs', builder');
    } else {
      outputs', builder' := WriteEntry(k, i, e, outputs', builder', c.maxFileSize, sizes, first, written);
    }
  }

  /** The drop rules, given the previous entry's user key and sequence number. */
  method DropEntry(c: Compaction, e: Entry, smallestSnapshot: nat, currentUserKey: Option<UserKey>, lastSequenceForKey: nat,
                   ghost lastAsked: Option<UserKey>, ghost input: seq<Entry>, ghost i: nat)
    returns (drop: bool, ghost asked: Option<UserKey>)
    requires WellFormed(c.inputVersion) && smallestSnapshot < MAX_SEQUENCE
    requires Sorted(input) && i < |input| && e == input[i]
    requires Remembers(input, i, currentUserKey, lastSequenceForKey) && Asked(c, input, i, lastAsked)
    modifies c`levelPtrs
    ensures Asked(c, input, i + 1, asked)
    ensures drop <==> !Survives(c.inputVersion, c.level, smallestSnapshot, input, i)
  {
    assert i > 0 ==> Before(input[i - 1].key, e.key);
    drop, asked := false, lastAsked;
    var lastSequence := lastSequenceForKey;
    if currentUserKey != Some(e.key.user) {
      lastSequence := MAX_SEQUENCE;
    }
    if lastSequence <= smallestSnapshot {
      drop := true;
    } else if e.key.kind.TypeDeletion? && e.key.seqno <= smallestSnapshot {
      drop := c.IsBaseLevelForKey(e.key.user, lastAsked);
      asked := Some(e.key.user);
    }
  }

  /** A stop finishes the open output, if there is one. */
  method StopOutput(ghost k: Cutting, ghost i: nat, stop: bool, outputs: Files, builder: seq<Entry>,
                    sizes: Sizes, first: nat, ghost written: seq<Entry>)
    returns (outputs': Files, builder': seq<Entry>)
    requires Sorted(k.input) && k.sizes == sizes && i < |k.input| && (stop <==> i in k.stops)
    requires k.CutSoFar(i, i, outputs, builder) && k.Open(builder, i) && Writing(outputs, builder, first, written)
    ensures k.CutSoFar(i + 1, i, outputs', builder') && k.Open(builder', i + 1) && Writing(outputs', builder', first, written)
  {
    NextStop(k, i, outputs, builder);
    outputs', builder' := outputs, builder;
    if stop && builder != [] {
      UpToIsBefore(k, builder, i);
      assert k.Justified(builder, None, i + 1);
      FinishCuts(k, i + 1, i, outputs, builder, FinishFile(first + |outputs|, builder, sizes));
      outputs' := FinishCompactionOutputFile(outputs, builder, sizes, first, written);
      builder' := [];
    }
  }

  /** An entry that survives is added to the open output, which is finished once it is full. */
  method WriteEntry(ghost k: Cutting, ghost i: nat, e: Entry, outputs: Files, builder: seq<Entry>, maxFileSize: nat,
                    sizes: Sizes, first: nat, ghost written: seq<Entry>)
    returns (outputs': Files, builder': seq<Entry>)
    requires Sorted(k.input) && i < |k.input| && e == k.input[i] && k.sizes == sizes && k.maxFileSize == maxFileSize
    requires k.CutSoFar(i + 1, i, outputs, builder) && k.Open(builder, i + 1) && Writing(outputs, builder, first, written)
    ensures k.CutSoFar(i + 1, i + 1, outputs', builder') && k.Open(builder', i + 1)
    ensures Writing(outputs', builder', first, written + [e])
  {
    AddCuts(k, i, outputs, builder);
    outputs', builder' := outputs, builder + [e];
    assert Flatten(outputs) + builder' == written + [e];
    if sizes.soFar(builder') >= maxFileSize {
      FinishCuts(k, i + 1, i + 1, outputs, builder', FinishFile(first + |outputs|, builder', sizes));
      outputs' := FinishCompactionOutputFile(outputs, builder', sizes, first, written + [e]);
      builder' := [];
    }
  }

  // ---------------------------------------------------------------- what the loop produces

  lemma InputSeqnosAreBounded(v: Version, level: nat, in0: Files, in1: Files, e: Entry)
    requires WellFormed(v) && level + 1 < NUM_LEVELS && Subset(in0, v[level]) && Subset(in1, v[level + 1])
    requires e in InputEntries(in0, in1)
    ensures e.key.seqno <= MAX_SEQUENCE
  {
    var h := SourceFile(in0, in1, e);
    assert h in v[level] || h in v[level + 1];
    assert ValidFile(h);
  }

  /** The outputs are sorted, disjoint files made of the input entries, holding exactly the
      entries the drop rules keep. */
  lemma OutputsKeepExactly(v: Version, level: nat, in0: Files, in1: Files, snapshot: nat, input: seq<Entry>, outputs: Files, first: nat)
    requires Valid(v) && InputsValid(v, level, in0, in1)
    requires Sorted(input) && Elements(input) == InputEntries(in0, in1)
    requires Writing(outputs, [], first, Survivors(v, level, snapshot, input, |input|))
    ensures MadeFrom(in0, in1, outputs)
    ensures KeepsExactly(v, level, InputEntries(in0, in1), snapshot, FilesEntries(outputs))
    ensures Condensed(v, level, InputEntries(in0, in1), FilesEntries(outputs), snapshot)
  {
    var I, survivors := InputEntries(in0, in1), Survivors(v, level, snapshot, input, |input|);
    VersionSplits(v, level, in0, in1);
    SurvivorsAreKept(v, level, snapshot, input);
    SurvivorsElements(v, level, snapshot, input, |input|);
    assert Flatten(outputs) == survivors;
    FlattenElements(outputs);
    assert Elements(survivors) == FilesEntries(outputs);
    forall e | e in survivors ensures e in I && e.key.seqno <= MAX_SEQUENCE {
      assert Kept(v, level, I, snapshot, e);
      InputSeqnosAreBounded(v, level, in0, in1, e);
    }
    PiecesAreSortedFiles(outputs);
    forall f, e | f in outputs && e in f.entries ensures e in FilesEntries(in0) || e in FilesEntries(in1) {
      assert e in FilesEntries(outputs);
    }
    DropsEnough(v, level, I, snapshot, FilesEntries(outputs));
  }

  lemma MergedInputs(v: Version, level: nat, in0: Files, in1: Files)
    requires Valid(v) && InputsValid(v, level, in0, in1)
    ensures Mergeable(in0 + in1)
    ensures Sorted(MergeFiles(in0 + in1)) && Elements(MergeFiles(in0 + in1)) == InputEntries(in0, in1)
  {
    InputsAreDistinct(v, level, in0, in1);
    assert FilesEntries(in0 + in1) == InputEntries(in0, in1) by {
      assert forall f :: f in in0 + in1 <==> f in in0 || f in in1;
    }
  }
}

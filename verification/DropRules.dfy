/**
 Which entries a compaction drops, and what that does to reads (DBImpl::DoCompactionWork in
 db/db_impl.cc).
 */
module DropRules {
  import opened Wrappers
  import opened DbFormat
  import opened Visibility
  import opened Tables
  import opened Versions
  import opened Inputs
  import opened InputSets
  import opened Compactions
  import opened Replacement

  ghost function InputEntries(in0: Files, in1: Files): set<Entry> {
    FilesEntries(in0) + FilesEntries(in1)
  }

  /** Rule (A): a newer input entry of the same user key is visible to every live snapshot. */
  ghost predicate Hidden(I: set<Entry>, snapshot: nat, e: Entry) {
    exists p :: p in I && p.key.user == e.key.user && p.key.seqno > e.key.seqno && p.key.seqno <= snapshot
  }

  /** The other rule: a tombstone every live snapshot sees, with no file below that could hold
      its user key. */
  ghost predicate Obsolete(v: Version, level: nat, snapshot: nat, e: Entry) {
    e.key.kind.TypeDeletion? && e.key.seqno <= snapshot && !CoveredFrom(v, level + 2, e.key.user)
  }

  ghost predicate Kept(v: Version, level: nat, I: set<Entry>, snapshot: nat, e: Entry) {
    e in I && !Hidden(I, snapshot, e) && !Obsolete(v, level, snapshot, e)
  }

  ghost predicate KeepsExactly(v: Version, level: nat, I: set<Entry>, snapshot: nat, K: set<Entry>) {
    forall e :: e in K <==> Kept(v, level, I, snapshot, e)
  }

  /** Everything the compaction does not touch. */
  ghost function Untouched(v: Version, level: nat, in0: Files, in1: Files): set<Entry>
    requires level + 1 < NUM_LEVELS
  {
    set l, f, e | 0 <= l < NUM_LEVELS && f in v[l] && !(l == level && f in in0) && !(l == level + 1 && f in in1) && e in f.entries :: e
  }

  lemma VersionSplits(v: Version, level: nat, in0: Files, in1: Files)
    requires level + 1 < NUM_LEVELS && Subset(in0, v[level]) && Subset(in1, v[level + 1])
    ensures VersionEntries(v) == InputEntries(in0, in1) + Untouched(v, level, in0, in1)
  {
    var I, R := InputEntries(in0, in1), Untouched(v, level, in0, in1);
    forall e | e in VersionEntries(v) ensures e in I + R {
      var l, f :| 0 <= l < NUM_LEVELS && f in v[l] && e in f.entries;
      if l == level && f in in0 {
        assert e in FilesEntries(in0);
      } else if l == level + 1 && f in in1 {
        assert e in FilesEntries(in1);
      }
    }
  }

  lemma NewVersionSplits(v: Version, level: nat, in0: Files, in1: Files, outputs: Files, v': Version)
    requires level + 1 < NUM_LEVELS && Replaced(v, level, in0, in1, outputs, v')
    ensures VersionEntries(v') == FilesEntries(outputs) + Untouched(v, level, in0, in1)
  {
    var K, R := FilesEntries(outputs), Untouched(v, level, in0, in1);
    forall e | e in VersionEntries(v') ensures e in K + R {
      var l, f :| 0 <= l < NUM_LEVELS && f in v'[l] && e in f.entries;
    }
    forall e | e in K ensures e in VersionEntries(v') {
      var f :| f in outputs && e in f.entries;
      assert f in v'[level + 1];
    }
    forall e | e in R ensures e in VersionEntries(v') {
      var l, f :| 0 <= l < NUM_LEVELS && f in v[l] && !(l == level && f in in0) && !(l == level + 1 && f in in1) && e in f.entries;
      assert f in v'[l];
    }
  }

  // ---------------------------------------------------------------- what a compaction leaves

  /** Of the entries of a user key that every live snapshot can see, none is left but the newest. */
  ghost predicate OnlyNewestIsLeft(I: set<Entry>, K: set<Entry>, snapshot: nat) {
    forall x, y {:trigger x in K, y in I} ::
      x in K && y in I && x.key.user == y.key.user && x.key.seqno <= snapshot && y.key.seqno <= snapshot ==> y.key.seqno <= x.key.seqno
  }

  /** A tombstone that every live snapshot sees is left only for a file further down. */
  ghost predicate TombstonesHaveWork(v: Version, level: nat, K: set<Entry>, snapshot: nat) {
    forall x {:trigger x in K} :: x in K && x.key.kind.TypeDeletion? && x.key.seqno <= snapshot ==>
      exists l, f {:trigger f in v[l]} :: level + 2 <= l < NUM_LEVELS && f in v[l] && f.smallest.user <= x.key.user <= f.largest.user
  }

  /** What is newer than some live snapshot is left. */
  ghost predicate RecentIsKept(I: set<Entry>, K: set<Entry>, snapshot: nat) {
    forall x :: x in I && x.key.seqno > snapshot ==> x in K
  }

  /** Of each user key, the newest entry that every live snapshot sees is left, unless it is a
      tombstone that no file further down covers. */
  ghost predicate NewestIsKept(v: Version, level: nat, I: set<Entry>, K: set<Entry>, snapshot: nat) {
    forall x {:trigger x in I} :: x in I && x.key.seqno <= snapshot
      && (forall y {:trigger y in I} :: y in I && y.key.user == x.key.user && y.key.seqno <= snapshot ==> y.key.seqno <= x.key.seqno)
      && (x.key.kind.TypeDeletion? ==>
            exists l, f {:trigger f in v[l]} :: level + 2 <= l < NUM_LEVELS && f in v[l] && f.smallest.user <= x.key.user <= f.largest.user)
      ==> x in K
  }

  /** What is left of the inputs of a compaction. */
  ghost predicate Condensed(v: Version, level: nat, I: set<Entry>, K: set<Entry>, snapshot: nat) {
    && K <= I && RecentIsKept(I, K, snapshot) && NewestIsKept(v, level, I, K, snapshot)
    && OnlyNewestIsLeft(I, K, snapshot) && TombstonesHaveWork(v, level, K, snapshot)
  }

  /** Two entries of a user key that every live snapshot can see are never both left; and what is left
      is determined. */
  lemma CondensedIsOne(v: Version, level: nat, I: set<Entry>, K: set<Entry>, L: set<Entry>, snapshot: nat)
    requires UniqueSeqnos(I) && Condensed(v, level, I, K, snapshot) && Condensed(v, level, I, L, snapshot)
    ensures forall x, y :: x in K && y in K && x.key.user == y.key.user && x.key.seqno <= snapshot && y.key.seqno <= snapshot ==> x == y
    ensures K == L
  {
    forall x | x in K ensures x in L {
      LeftInBoth(v, level, I, K, L, snapshot, x);
    }
    forall x | x in L ensures x in K {
      LeftInBoth(v, level, I, L, K, snapshot, x);
    }
  }

  lemma LeftInBoth(v: Version, level: nat, I: set<Entry>, K: set<Entry>, L: set<Entry>, snapshot: nat, x: Entry)
    requires Condensed(v, level, I, K, snapshot) && Condensed(v, level, I, L, snapshot) && x in K
    ensures x in L
  {
    assert x in I;
  }

  /** The drop rules drop as much as may be dropped, and no more. */
  lemma DropsEnough(v: Version, level: nat, I: set<Entry>, snapshot: nat, K: set<Entry>)
    requires KeepsExactly(v, level, I, snapshot, K)
    ensures Condensed(v, level, I, K, snapshot)
  {
    forall x, y | x in K && y in I && x.key.user == y.key.user && x.key.seqno <= snapshot && y.key.seqno <= snapshot
      ensures y.key.seqno <= x.key.seqno
    {
      assert x.key.seqno < y.key.seqno ==> Hidden(I, snapshot, x);
    }
    forall x | x in K && x.key.kind.TypeDeletion? && x.key.seqno <= snapshot
      ensures exists l, f {:trigger f in v[l]} :: level + 2 <= l < NUM_LEVELS && f in v[l] && f.smallest.user <= x.key.user <= f.largest.user
    {
      assert !Obsolete(v, level, snapshot, x) && CoveredFrom(v, level + 2, x.key.user);
    }
  }

  // ---------------------------------------------------------------- dropping, on sets of entries

  /** A dropped tombstone `t` used to decide the reads of its user key, and a value it covered
      would show instead. */
  ghost predicate Uncovers(I: set<Entry>, K: set<Entry>, R: set<Entry>, snapshot: nat, t: Entry, r: Entry) {
    && t in I && t !in K && t.key.kind.TypeDeletion?
    && IsNewest(I + R, t.key.user, snapshot, t)
    && IsNewest(R, t.key.user, snapshot, r) && r.key.kind.TypeValue?
  }

  ghost predicate SameReads(S: set<Entry>, T: set<Entry>, snapshot: nat) {
    forall user, s {:trigger Visible(S, user, s)} :: s >= snapshot ==> Visible(S, user, s) == Visible(T, user, s)
  }

  /** The newest entry a read may see survives unless it is an obsolete tombstone. */
  lemma DroppedNewestIsObsolete(v: Version, level: nat, I: set<Entry>, R: set<Entry>, K: set<Entry>, snapshot: nat,
                                user: UserKey, s: nat, e: Entry)
    requires KeepsExactly(v, level, I, snapshot, K)
    requires s >= snapshot && IsNewest(I + R, user, s, e) && e !in K + R
    ensures Obsolete(v, level, snapshot, e) && e in I
  {
    assert e in I && !Kept(v, level, I, snapshot, e);
    forall p | p in I && p.key.user == e.key.user && p.key.seqno <= snapshot ensures p.key.seqno <= e.key.seqno {
      assert p in I + R && Matches(p, user, s);
    }
  }

  /** Once an obsolete tombstone goes, every older input entry of its user key has gone too. */
  lemma OlderInputsAreGone(v: Version, level: nat, I: set<Entry>, R: set<Entry>, K: set<Entry>, snapshot: nat,
                           user: UserKey, s: nat, t: Entry, x: Entry)
    requires KeepsExactly(v, level, I, snapshot, K)
    requires UniqueSeqnos(I + R)
    requires s >= snapshot && IsNewest(I + R, user, s, t) && t !in K + R && t in I && t.key.seqno <= snapshot
    requires x in K + R && Matches(x, user, s)
    ensures x in R && Matches(x, user, snapshot)
  {
    assert x in K ==> Kept(v, level, I, snapshot, x);
    assert x in I + R && t in I + R;
    assert x.key.seqno < t.key.seqno ==> Hidden(I, snapshot, x);
    if x in K { assert false; }
  }

  /** Dropping keeps every read at or above the oldest snapshot, unless it uncovers a value. */
  lemma ReadSurvives(v: Version, level: nat, I: set<Entry>, R: set<Entry>, K: set<Entry>, snapshot: nat, user: UserKey, s: nat)
    requires KeepsExactly(v, level, I, snapshot, K) && UniqueSeqnos(I + R) && UniqueSeqnos(K + R) && s >= snapshot
    requires forall t, r :: !Uncovers(I, K, R, snapshot, t, r)
    ensures Visible(I + R, user, s) == Visible(K + R, user, s)
  {
    assert K + R <= I + R by {
      forall e | e in K ensures e in I { assert Kept(v, level, I, snapshot, e); }
    }
    match Newest(I + R, user, s)
    case None =>
      VisibleNone(K + R, user, s);
    case Some(e) =>
      if e in K + R {
        assert IsNewest(K + R, user, s, e);
        VisibleIs(K + R, user, s, e);
      } else {
        DroppedNewestIsObsolete(v, level, I, R, K, snapshot, user, s, e);
        match Newest(K + R, user, s)
        case None =>
        case Some(x) =>
          OlderInputsAreGone(v, level, I, R, K, snapshot, user, s, e, x);
          forall y | y in R && Matches(y, user, snapshot) ensures y.key.seqno <= x.key.seqno {
            assert y in K + R && Matches(y, user, s);
          }
          assert IsNewest(R, user, snapshot, x);
          forall y | y in I + R && Matches(y, user, snapshot) ensures y.key.seqno <= e.key.seqno {
            assert Matches(y, user, s);
          }
          assert IsNewest(I + R, user, snapshot, e);
          assert !Uncovers(I, K, R, snapshot, e, x);
      }
  }

  /** An uncovered value is read where there was none. */
  lemma UncoveredValueShows(v: Version, level: nat, I: set<Entry>, R: set<Entry>, K: set<Entry>, snapshot: nat, t: Entry, r: Entry)
    requires KeepsExactly(v, level, I, snapshot, K) && UniqueSeqnos(I + R) && UniqueSeqnos(K + R)
    requires Uncovers(I, K, R, snapshot, t, r)
    ensures Visible(I + R, t.key.user, snapshot) == None
    ensures Visible(K + R, t.key.user, snapshot) == Some(r.value)
  {
    var user := t.key.user;
    VisibleIs(I + R, user, snapshot, t);
    assert r in I + R && t in I + R;
    assert t in R ==> t.key.seqno == r.key.seqno;
    forall x | x in K + R && Matches(x, user, snapshot) ensures x.key.seqno <= r.key.seqno {
      OlderInputsAreGone(v, level, I, R, K, snapshot, user, snapshot, t, x);
    }
    assert IsNewest(K + R, user, snapshot, r);
    VisibleIs(K + R, user, snapshot, r);
  }

  // ---------------------------------------------------------------- when reads survive

  /** The entries of the files of the output level that are not inputs. */
  ghost function LeftParents(v: Version, level: nat, in1: Files): set<Entry>
    requires level + 1 < NUM_LEVELS
  {
    set g, e | g in v[level + 1] && g !in in1 && e in g.entries :: e
  }

  /** An obsolete tombstone hides a value in a file of the output level that is not an input. */
  ghost predicate Resurrects(v: Version, level: nat, in0: Files, in1: Files, snapshot: nat, t: Entry, r: Entry)
    requires level + 1 < NUM_LEVELS
  {
    && t in InputEntries(in0, in1) && Obsolete(v, level, snapshot, t)
    && IsNewest(VersionEntries(v), t.key.user, snapshot, t)
    && IsNewest(LeftParents(v, level, in1), t.key.user, snapshot, r) && r.key.kind.TypeValue?
  }

  /** Untouched entries older than an obsolete input tombstone sit in left-behind files of the
      output level. */
  lemma OlderUntouchedAreParents(v: Version, level: nat, in0: Files, in1: Files, snapshot: nat, t: Entry, x: Entry)
    requires Valid(v) && InputsValid(v, level, in0, in1)
    requires t in InputEntries(in0, in1) && Obsolete(v, level, snapshot, t)
    requires x in Untouched(v, level, in0, in1) && x.key.user == t.key.user && x.key.seqno < t.key.seqno
    ensures x in LeftParents(v, level, in1)
  {
    var l, f :| 0 <= l < NUM_LEVELS && f in v[l] && !(l == level && f in in0) && !(l == level + 1 && f in in1) && x in f.entries;
    assert At(v, l, x);
    var k := if t in FilesEntries(in0) then level else level + 1;
    assert At(v, k, t);
    if l < k && !(l == level && k == level) {
      NewerAcrossLevels(v, l, k, x, t);
      assert false;
    } else if l == level {
      LeftBehindIsNewer(v, level, in0, x, t);
      assert false;
    } else if l > level + 1 {
      FileBounds(f, x);
      assert false;
    }
  }

  /** No entry is both an input and untouched. */
  lemma InputsAreNotUntouched(v: Version, level: nat, in0: Files, in1: Files, e: Entry)
    requires Valid(v) && InputsValid(v, level, in0, in1)
    requires e in InputEntries(in0, in1)
    ensures e !in Untouched(v, level, in0, in1)
  {
    forall l, f | 0 <= l < NUM_LEVELS && f in v[l] && !(l == level && f in in0) && !(l == level + 1 && f in in1) && e in f.entries
      ensures false
    {
      assert At(v, l, e);
      var k := if e in FilesEntries(in0) then level else level + 1;
      assert At(v, k, e);
      if l < k {
        NewerAcrossLevels(v, l, k, e, e);
      } else if k < l {
        NewerAcrossLevels(v, k, l, e, e);
      } else if k == level {
        LeftBehindIsNewer(v, level, in0, e, e);
      } else {
        var h :| h in in1 && e in h.entries;
        OneComesFirst(v[level + 1], f, h);
        FileBounds(f, e);
        FileBounds(h, e);
        CompareIsTotalOrder(f.largest, h.smallest, e.key);
        CompareIsTotalOrder(h.largest, f.smallest, e.key);
        CompareIsTotalOrder(e.key, f.largest, h.smallest);
        CompareIsTotalOrder(e.key, h.largest, f.smallest);
      }
    }
  }

  lemma UncoveredResurrects(v: Version, level: nat, in0: Files, in1: Files, snapshot: nat, K: set<Entry>, t: Entry, r: Entry)
    requires Valid(v) && InputsValid(v, level, in0, in1)
    requires KeepsExactly(v, level, InputEntries(in0, in1), snapshot, K)
    requires Uncovers(InputEntries(in0, in1), K, Untouched(v, level, in0, in1), snapshot, t, r)
    ensures Resurrects(v, level, in0, in1, snapshot, t, r)
  {
    var I, R, P := InputEntries(in0, in1), Untouched(v, level, in0, in1), LeftParents(v, level, in1);
    VersionSplits(v, level, in0, in1);
    InputsAreNotUntouched(v, level, in0, in1, t);
    DroppedNewestIsObsolete(v, level, I, R, K, snapshot, t.key.user, snapshot, t);
    assert r in I + R && t in I + R;
    OlderUntouchedAreParents(v, level, in0, in1, snapshot, t, r);
    assert P <= R;
  }

  lemma ResurrectedIsUncovered(v: Version, level: nat, in0: Files, in1: Files, snapshot: nat, K: set<Entry>, t: Entry, r: Entry)
    requires Valid(v) && InputsValid(v, level, in0, in1)
    requires KeepsExactly(v, level, InputEntries(in0, in1), snapshot, K)
    requires Resurrects(v, level, in0, in1, snapshot, t, r)
    ensures Uncovers(InputEntries(in0, in1), K, Untouched(v, level, in0, in1), snapshot, t, r)
  {
    var I, R, P := InputEntries(in0, in1), Untouched(v, level, in0, in1), LeftParents(v, level, in1);
    VersionSplits(v, level, in0, in1);
    InputsAreNotUntouched(v, level, in0, in1, t);
    assert t !in K by { assert !Kept(v, level, I, snapshot, t); }
    assert P <= R;
    forall x | x in R && Matches(x, t.key.user, snapshot) ensures x.key.seqno <= r.key.seqno {
      assert x in I + R && t in I + R;
      OlderUntouchedAreParents(v, level, in0, in1, snapshot, t, x);
      assert x in P;
    }
  }

  /** The main result on compactions: reads at and above the oldest snapshot are the same before
      and after if and only if no obsolete tombstone hides a value left behind at the output
      level. */
  lemma CompactionPreservesReads(v: Version, level: nat, in0: Files, in1: Files, outputs: Files, v': Version, snapshot: nat)
    requires Valid(v) && InputsValid(v, level, in0, in1)
    requires Replaced(v, level, in0, in1, outputs, v')
    requires KeepsExactly(v, level, InputEntries(in0, in1), snapshot, FilesEntries(outputs))
    ensures SameReads(VersionEntries(v), VersionEntries(v'), snapshot)
            <==> forall t, r :: !Resurrects(v, level, in0, in1, snapshot, t, r)
  {
    var I, R, K := InputEntries(in0, in1), Untouched(v, level, in0, in1), FilesEntries(outputs);
    VersionSplits(v, level, in0, in1);
    NewVersionSplits(v, level, in0, in1, outputs, v');
    assert K + R <= I + R by {
      forall e | e in K ensures e in I { assert Kept(v, level, I, snapshot, e); }
    }
    assert UniqueSeqnos(K + R);
    if t, r :| Resurrects(v, level, in0, in1, snapshot, t, r) {
      ResurrectedIsUncovered(v, level, in0, in1, snapshot, K, t, r);
      UncoveredValueShows(v, level, I, R, K, snapshot, t, r);
      assert Visible(VersionEntries(v), t.key.user, snapshot) != Visible(VersionEntries(v'), t.key.user, snapshot);
    } else {
      forall t, r ensures !Uncovers(I, K, R, snapshot, t, r) {
        if Uncovers(I, K, R, snapshot, t, r) {
          UncoveredResurrects(v, level, in0, in1, snapshot, K, t, r);
        }
      }
      forall user, s | s >= snapshot ensures Visible(VersionEntries(v), user, s) == Visible(VersionEntries(v'), user, s) {
        ReadSurvives(v, level, I, R, K, snapshot, user, s);
      }
    }
  }

  // ---------------------------------------------------------------- parents with their boundary files

  /** The files that overlap the inputs at the next level, completed with their boundary files the
      way the inputs themselves are. */
  ghost predicate CompletedParents(v: Version, level: nat, in0: Files, base1: Files, added: Files)
    requires level + 1 < NUM_LEVELS
  {
    && (forall smallest, largest {:trigger IsSmallest(in0, smallest), IsLargest(in0, largest)} ::
          IsSmallest(in0, smallest) && IsLargest(in0, largest) ==>
            base1 == OverlappingFiles(v[level + 1], Some(smallest.user), Some(largest.user)))
    && (base1 == [] ==> added == [])
    && (forall first :: IsLargest(base1, first) ==> BoundaryChain(v[level + 1], first, added))
    && (forall last :: IsLargest(base1 + added, last) ==> NoBoundary(v[level + 1], last))
  }

  /** A parent outside the completed set shares no user key with the inputs. */
  lemma OtherParentsAreApart(v: Version, level: nat, in0: Files, base1: Files, added: Files, g: File, f: File)
    requires Valid(v) && Completed(v, level, in0) && CompletedParents(v, level, in0, base1, added)
    requires g in v[level + 1] && g !in base1 && f in in0
    ensures g.largest.user < f.smallest.user || f.largest.user < g.smallest.user
  {
    SubsetIsValid(in0, v[level]);
    var smallest := SmallestKey(in0);
    var largest := LargestKey(in0);
    RangeSpansUsers(in0, smallest, largest);
    assert ValidFile(g);
    FileEnds(g);
    FileEnds(f);
  }

  lemma CompletedParentsAreBlock(v: Version, level: nat, in0: Files, base1: Files, added: Files)
    requires Valid(v) && Completed(v, level, in0) && CompletedParents(v, level, in0, base1, added) && base1 != []
    ensures SortedBlock(v[level + 1], base1 + added)
  {
    var smallest := SmallestKey(in0);
    var largest := LargestKey(in0);
    var first := LargestKey(base1);
    OverlappingKeepsOrder(v[level + 1], Some(smallest.user), Some(largest.user));
    OverlappingIsBlock(v[level + 1], Some(smallest.user), Some(largest.user));
    ChainExtendsBlock(v[level + 1], base1, first, added);
  }

  lemma CompletedParentsLeaveApart(v: Version, level: nat, in0: Files, base1: Files, added: Files, g: File)
    requires Valid(v) && Completed(v, level, in0) && CompletedParents(v, level, in0, base1, added) && base1 != []
    requires g in v[level + 1] && g !in base1 + added
    ensures AllBefore(g, in0 + (base1 + added)) || AllAfter(g, in0 + (base1 + added))
  {
    var smallest := SmallestKey(in0);
    var largest := LargestKey(in0);
    SubsetIsValid(in0, v[level]);
    RangeSpansUsers(in0, smallest, largest);
    ParentsLeaveApart(v[level + 1], in0, smallest, largest, g);
    CompletedParentsAreBlock(v, level, in0, base1, added);
    var f := base1[0];
    assert f in in0 + base1 && f in base1 + added && ValidFile(g) && ValidFile(f);
    FileEnds(g);
    FileEnds(f);
    CompareIsTotalOrder(g.largest, f.smallest, f.largest);
    CompareIsTotalOrder(g.largest, f.largest, g.smallest);
    CompareIsTotalOrder(g.largest, g.smallest, g.largest);
  }

  /** Completed parents meet the guarantee compactions rely on. */
  lemma CompletedParentsAreValid(v: Version, level: nat, in0: Files, base1: Files, added: Files)
    requires Valid(v) && Completed(v, level, in0) && CompletedParents(v, level, in0, base1, added)
    ensures InputsValid(v, level, in0, base1 + added)
  {
    var smallest := SmallestKey(in0);
    var largest := LargestKey(in0);
    ParentsComplete(v, level, in0, base1, smallest, largest);
    if base1 != [] {
      CompletedParentsAreBlock(v, level, in0, base1, added);
      forall g | g in v[level + 1] && g !in base1 + added
        ensures AllBefore(g, in0 + (base1 + added)) || AllAfter(g, in0 + (base1 + added))
      {
        CompletedParentsLeaveApart(v, level, in0, base1, added, g);
      }
    } else {
      assert base1 + added == base1;
    }
  }

  lemma CompletedParentsLeaveNewer(v: Version, level: nat, in0: Files, base1: Files, added: Files, g: File, f: File)
    requires Valid(v) && Completed(v, level, in0) && CompletedParents(v, level, in0, base1, added)
    requires g in v[level + 1] && g !in base1 + added && f in in0 + (base1 + added)
    ensures FileNewer(g, f)
  {
    if f in in0 {
      OtherParentsAreApart(v, level, in0, base1, added, g, f);
      assert ValidFile(g) && ValidFile(f);
      forall x, y | x in g.entries && y in f.entries ensures x.key.user != y.key.user {
        FileBounds(g, x);
        FileBounds(f, y);
      }
    } else {
      CompletedParentsAreBlock(v, level, in0, base1, added);
      var last := LargestKey(base1 + added);
      BlockLeavesNewer(v, level + 1, base1 + added, last, g, f);
    }
  }

  /** Had the parents been completed with their boundary files, as the inputs are, no value could
      come back. */
  lemma BoundaryClosedParentsAreSafe(v: Version, level: nat, in0: Files, base1: Files, added: Files, snapshot: nat)
    requires Valid(v) && Completed(v, level, in0) && CompletedParents(v, level, in0, base1, added)
    ensures InputsValid(v, level, in0, base1 + added)
    ensures forall t, r :: !Resurrects(v, level, in0, base1 + added, snapshot, t, r)
  {
    var in1 := base1 + added;
    CompletedParentsAreValid(v, level, in0, base1, added);
    forall t, r | t in InputEntries(in0, in1) && r in LeftParents(v, level, in1) && t.key.user == r.key.user
      ensures r.key.seqno > t.key.seqno
    {
      var g :| g in v[level + 1] && g !in in1 && r in g.entries;
      var f := SourceFile(in0, in1, t);
      CompletedParentsLeaveNewer(v, level, in0, base1, added, g, f);
      assert r in Elements(g.entries) && t in Elements(f.entries);
    }
    VersionSplits(v, level, in0, in1);
    assert LeftParents(v, level, in1) <= VersionEntries(v);
  }
}

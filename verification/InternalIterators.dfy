/**
 The iterator over everything the store holds (DBImpl::NewInternalIterator in db/db_impl.cc,
 Version::AddIterators in db/version_set.cc).
 */
module InternalIterators {
  import opened Wrappers
  import opened DbFormat
  import opened Visibility
  import opened Tables
  import opened Versions
  import opened Iterators
  import opened CompactionWork
  import opened History
  import opened Store
  import opened DbIterator

  // ---------------------------------------------------------------- the runs

  /** Above level 0 a level is one run: its files, one after the other. */
  function LevelRuns(v: Version, from: nat): Runs
    decreases NUM_LEVELS - from
  {
    if from >= NUM_LEVELS then []
    else (if v[from] == [] then [] else [Flatten(v[from])]) + LevelRuns(v, from + 1)
  }

  function AllRuns(mem: seq<Entry>, imm: Option<seq<Entry>>, v: Version): Runs {
    [mem] + (if imm.Some? then [imm.value] else []) + (RunsOf(v[0]) + LevelRuns(v, 1))
  }

  ghost predicate Apart(S: set<Entry>, T: set<Entry>) {
    forall x, y {:trigger x in S, y in T} :: x in S && y in T ==> x.key != y.key
  }

  ghost predicate GoodRuns(runs: Runs, S: set<Entry>) {
    SortedRuns(runs) && DistinctRuns(runs) && Union(runs) == S
  }

  lemma JoinRuns(a: Runs, b: Runs, S: set<Entry>, T: set<Entry>)
    requires GoodRuns(a, S) && GoodRuns(b, T) && Apart(S, T)
    ensures GoodRuns(a + b, S + T)
  {
    var r := a + b;
    forall i | 0 <= i < |r| ensures Sorted(r[i]) {
      assert i < |a| ==> Sorted(a[i]);
      assert i >= |a| ==> Sorted(b[i - |a|]);
    }
    forall i, j | 0 <= i < j < |r| ensures DistinctKeys(r[i], r[j]) {
      if j < |a| {
        assert DistinctKeys(a[i], a[j]);
      } else if i >= |a| {
        assert DistinctKeys(b[i - |a|], b[j - |a|]);
      } else {
        forall x: Entry, y: Entry | x in r[i] && y in r[j] ensures x.key != y.key {
          assert x in Union(a) && y in Union(b) by { assert x in a[i] && y in b[j - |a|]; }
        }
      }
    }
    forall e | e in S + T ensures e in Union(r) {
      if e in S {
        var i :| 0 <= i < |a| && e in a[i];
        assert e in r[i];
      } else {
        var i :| 0 <= i < |b| && e in b[i];
        assert e in r[|a| + i];
      }
    }
    forall e | e in Union(r) ensures e in S + T {
      var i :| 0 <= i < |r| && e in r[i];
      if i < |a| { assert e in a[i]; } else { assert e in b[i - |a|]; }
    }
  }

  lemma OneRun(es: seq<Entry>)
    requires Sorted(es)
    ensures GoodRuns([es], Elements(es))
  {
    assert [es][0] == es;
    forall e | e in Elements(es) ensures e in Union([es]) { assert e in [es][0]; }
  }

  lemma NoRuns()
    ensures GoodRuns([], {})
  {
  }

  lemma Level0Runs(v: Version)
    requires Valid(v)
    ensures GoodRuns(RunsOf(v[0]), FilesEntries(v[0]))
  {
    var files := v[0];
    UnionOfRuns(files);
    forall i | 0 <= i < |files| ensures Sorted(files[i].entries) {
      assert files[i] in files && ValidFile(files[i]);
    }
    forall i, j | 0 <= i < j < |files| ensures DistinctKeys(files[i].entries, files[j].entries) {
      forall x, y | x in files[i].entries && y in files[j].entries ensures x.key != y.key {
        if x.key == y.key {
          EntryIsInOneFile(v, 0, 0, files[i], files[j], x, y);
          SortedFilesAreDistinct(files, i, j);
          assert false;
        }
      }
    }
  }

  lemma {:induction false} FlattenIsSorted(files: Files)
    requires ValidFiles(files) && SortedDisjoint(files)
    ensures Sorted(Flatten(files)) && Elements(Flatten(files)) == FilesEntries(files)
  {
    if files != [] {
      var prefix, last := files[..|files| - 1], files[|files| - 1];
      assert ValidFile(last) by { assert last in files; }
      forall i, j | 0 <= i < j < |prefix| ensures Before(prefix[i].largest, prefix[j].smallest) {
        assert Before(files[i].largest, files[j].smallest);
      }
      FlattenIsSorted(prefix);
      SplitLastFile(files);
      var front := Flatten(prefix);
      forall i, j | 0 <= i < j < |front| + |last.entries| ensures Before((front + last.entries)[i].key, (front + last.entries)[j].key) {
        if j < |front| {
          assert Before(front[i].key, front[j].key);
        } else if i >= |front| {
          assert Before(last.entries[i - |front|].key, last.entries[j - |front|].key);
        } else {
          assert front[i] in Elements(front);
          var f :| f in prefix && front[i] in f.entries;
          var k :| 0 <= k < |prefix| && prefix[k] == f;
          LaterFilesComeAfter(files, k, |files| - 1, front[i], last.entries[j - |front|]);
        }
      }
    }
  }

  ghost function EntriesFrom(v: Version, from: nat): set<Entry> {
    set l, f, e | from <= l < NUM_LEVELS && f in v[l] && e in f.entries :: e
  }

  lemma LevelsApart(v: Version, l: nat)
    requires Valid(v) && l < NUM_LEVELS
    ensures Apart(FilesEntries(v[l]), EntriesFrom(v, l + 1))
    ensures EntriesFrom(v, l) == FilesEntries(v[l]) + EntriesFrom(v, l + 1)
  {
    forall x, y | x in FilesEntries(v[l]) && y in EntriesFrom(v, l + 1) ensures x.key != y.key {
      var f :| f in v[l] && x in f.entries;
      var k, g :| l + 1 <= k < NUM_LEVELS && g in v[k] && y in g.entries;
      if x.key == y.key { EntryIsInOneFile(v, l, k, f, g, x, y); }
    }
    forall e | e in EntriesFrom(v, l) ensures e in FilesEntries(v[l]) + EntriesFrom(v, l + 1) {
      var k, f :| l <= k < NUM_LEVELS && f in v[k] && e in f.entries;
      assert k == l ==> e in FilesEntries(v[l]);
    }
  }

  lemma {:induction false} LevelRunsAreGood(v: Version, from: nat)
    requires Valid(v) && 1 <= from <= NUM_LEVELS
    ensures GoodRuns(LevelRuns(v, from), EntriesFrom(v, from))
    decreases NUM_LEVELS - from
  {
    if from == NUM_LEVELS {
      NoRuns();
      assert EntriesFrom(v, from) == {};
    } else {
      LevelRunsAreGood(v, from + 1);
      LevelsApart(v, from);
      var files := v[from];
      assert ValidFiles(files) && SortedDisjoint(files);
      FlattenIsSorted(files);
      if files == [] {
        assert FilesEntries(files) == {};
        assert LevelRuns(v, from) == LevelRuns(v, from + 1);
      } else {
        OneRun(Flatten(files));
        JoinRuns([Flatten(files)], LevelRuns(v, from + 1), FilesEntries(files), EntriesFrom(v, from + 1));
      }
    }
  }

  lemma VersionRunsAreGood(v: Version)
    requires Valid(v)
    ensures GoodRuns(RunsOf(v[0]) + LevelRuns(v, 1), VersionEntries(v))
  {
    Level0Runs(v);
    LevelRunsAreGood(v, 1);
    LevelsApart(v, 0);
    JoinRuns(RunsOf(v[0]), LevelRuns(v, 1), FilesEntries(v[0]), EntriesFrom(v, 1));
    assert EntriesFrom(v, 0) == VersionEntries(v);
  }

  lemma AllRunsAreGood(db: Db, ops: seq<Op>)
    requires Structured(db, ops)
    ensures GoodRuns(AllRuns(db.mem, db.imm, db.version), AllEntries(db))
  {
    var M, I, V := Elements(db.mem), ImmEntries(db), VersionEntries(db.version);
    VersionRunsAreGood(db.version);
    var older := if db.imm.Some? then [db.imm.value] else [];
    OneRun(db.mem);
    if db.imm.Some? { OneRun(db.imm.value); } else { NoRuns(); }
    assert GoodRuns(older, I);
    forall x, y | x in M && y in I ensures x.key != y.key { assert y in I + V; }
    JoinRuns([db.mem], older, M, I);
    forall x, y | x in M + I && y in V ensures x.key != y.key { assert y in I + V; }
    JoinRuns([db.mem] + older, RunsOf(db.version[0]) + LevelRuns(db.version, 1), M + I, V);
  }

  // ---------------------------------------------------------------- the iterator

  method NewInternalIterator(runs: Runs) returns (it: MergingIterator)
    requires SortedRuns(runs) && DistinctRuns(runs)
    ensures fresh(it) && fresh(it.children) && it.Ready()
    ensures Elements(it.merged) == Union(runs)
  {
    var list: seq<Cursor> := [];
    for i := 0 to |runs|
      invariant |list| == i && fresh(list)
      invariant forall j :: 0 <= j < i ==> list[j].Ready() && list[j].entries == runs[j]
      invariant forall j, k {:trigger list[j], list[k]} :: 0 <= j < k < i ==> list[j] != list[k]
    {
      assert Sorted(runs[i]);
      var c := new Cursor(runs[i]);
      list := list + [c];
    }
    assert seq(|list|, i requires 0 <= i < |list| => list[i].entries) == runs;
    it := new MergingIterator(list);
    forall e ensures e in Elements(it.merged) <==> e in Union(runs) {
      if i :| 0 <= i < |list| && e in list[i].entries { assert e in runs[i]; }
      if e in Union(runs) {
        var i :| 0 <= i < |runs| && e in runs[i];
        assert e in list[i].entries;
      }
    }
  }

  // ---------------------------------------------------------------- what a scan yields

  /** `r` is the smallest key of the map within the bound. */
  ghost predicate LeastKey(m: map<UserKey, Value>, b: Bound, r: Option<UserKey>) {
    && (r.Some? ==> r.value in m && Admits(b, r.value))
    && forall user :: user in m && Admits(b, user) ==> r.Some? && r.value <= user
  }

  ghost predicate GreatestKey(m: map<UserKey, Value>, b: Bound, r: Option<UserKey>) {
    && (r.Some? ==> r.value in m && Admits(b, r.value))
    && forall user :: user in m && Admits(b, user) ==> r.Some? && r.value >= user
  }

  /** A scan at a sequence number moves over the map that replaying the operations up to it
      gives. */
  lemma ScanFollowsHistory(db: Db, ops: seq<Op>, s: nat, b: Bound, r: Option<UserKey>)
    requires Inv(db, ops) && SmallestSnapshot(db) <= s <= |ops|
    ensures Leftmost(AllEntries(db), s, b, r) <==> LeastKey(Replay(ops[..s]), b, r)
    ensures Rightmost(AllEntries(db), s, b, r) <==> GreatestKey(Replay(ops[..s]), b, r)
    ensures forall user :: user in Replay(ops[..s]) ==> Visible(AllEntries(db), user, s) == Some(Replay(ops[..s])[user])
  {
    var S, m := AllEntries(db), Replay(ops[..s]);
    forall user
      ensures IsVisible(S, user, s) <==> user in m
      ensures user in m ==> Visible(S, user, s) == Some(m[user])
    {
      assert Visible(S, user, s) == ReadAt(ops, user, s);
    }
  }
}

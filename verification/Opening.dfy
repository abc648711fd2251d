/**
 Opening a store: the manifest is read back, the logs it still needs are replayed into tables, and a
 new manifest and a new log begin (DBImpl::Recover and DB::Open in db/db_impl.cc).
 */
module Opening {
  import opened Wrappers
  import opened DbFormat
  import opened Versions
  import opened Coding
  import opened LogFormat
  import opened VersionEdits
  import opened CompactionWork
  import opened History
  import opened Store
  import opened CrashRecovery
  import opened LogRecovery
  import opened Disk
  import Manifest
  import StoreManifest
  import DbImpl

  // ---------------------------------------------------------------- which logs

  predicate Needed(n: nat, minLog: nat, prevLog: nat) {
    n >= minLog || n == prevLog
  }

  ghost predicate Increasing(numbers: seq<nat>) {
    forall i, j :: 0 <= i < j < |numbers| ==> numbers[i] < numbers[j]
  }

  lemma {:induction false} SmallestExists(numbers: set<nat>) returns (n: nat)
    requires numbers != {}
    ensures n in numbers && forall m :: m in numbers ==> n <= m
    decreases |numbers|
  {
    var some: nat :| some in numbers;
    var rest := numbers - {some};
    n := some;
    assert forall m :: m in numbers ==> m == some || m in rest;
    if rest != {} {
      var m := SmallestExists(rest);
      if m < n { n := m; }
    }
  }

  /** The log files that the descriptor does not know to be obsolete, in the order of their numbers. */
  method LogsInOrder(left: map<nat, Bytes>, minLog: nat, prevLog: nat) returns (numbers: seq<nat>)
    ensures Increasing(numbers) && forall n :: n in numbers <==> n in left && Needed(n, minLog, prevLog)
  {
    var rest := set n | n in left && Needed(n, minLog, prevLog);
    numbers := [];
    while rest != {}
      invariant Increasing(numbers) && forall n, m :: n in numbers && m in rest ==> n < m
      invariant forall n :: n in numbers || n in rest <==> n in left && Needed(n, minLog, prevLog)
      decreases |rest|
    {
      ghost var smallest := SmallestExists(rest);
      var n :| n in rest && forall m :: m in rest ==> n <= m;
      forall i | 0 <= i < |numbers| ensures numbers[i] < n {
        assert numbers[i] in numbers;
      }
      numbers := numbers + [n];
      rest := rest - {n};
    }
  }

  lemma {:induction false} IncreasingIsUnique(a: seq<nat>, b: seq<nat>)
    requires Increasing(a) && Increasing(b) && forall n :: n in a <==> n in b
    ensures a == b
    decreases |a|
  {
    assert b == [] || b[0] in a;
    if a != [] {
      var k := |a| - 1;
      var x := a[k];
      assert x in b;
      var l := |b| - 1;
      assert b[l] in a;
      assert b[l] == x;
      forall n ensures n in a[..k] <==> n in b[..l] {
        InFront(a, n);
        InFront(b, n);
      }
      IncreasingIsUnique(a[..k], b[..l]);
      assert a == a[..k] + [x] && b == b[..l] + [x];
    }
  }

  lemma InFront(a: seq<nat>, n: nat)
    requires Increasing(a) && a != []
    ensures n in a[..|a| - 1] <==> n in a && n != a[|a| - 1]
  {
    if n in a && n != a[|a| - 1] {
      var i :| 0 <= i < |a| && a[i] == n;
      assert a[..|a| - 1][i] == n;
    }
  }

  /** The logs needed are those that hold what the version does not serve. */
  lemma NeededLogs(w: World, c: Setting, left: map<nat, Bytes>, numbers: seq<nat>)
    requires Recoverable(w, c) && LeavesLogs(w.disk, left)
    requires Increasing(numbers) && forall n :: n in numbers <==> n in left && Needed(n, MinLog(w.disk), 0)
    ensures numbers == if w.s.db.imm.Some? then [w.disk.older, w.disk.logNumber] else [w.disk.logNumber]
    ensures EndsMatch(PartsLeft(w, left)) && |numbers| == |PartsLeft(w, left)|
    ensures forall i :: 0 <= i < |numbers| ==> numbers[i] in left && left[numbers[i]] == PartsLeft(w, left)[i].left
  {
    PartsLeftChain(w, left, c);
    assert forall n :: n in left <==> n in w.disk.logs;
    IncreasingIsUnique(numbers, if w.s.db.imm.Some? then [w.disk.older, w.disk.logNumber] else [w.disk.logNumber]);
  }

  // ---------------------------------------------------------------- the manifest

  /** VersionSet::Recover gives back the version the store had reached, and its counters. */
  method RecoverVersion(manifest: seq<VersionEdit>, ghost w: World, ghost c: Setting) returns (ok: bool, vs: Manifest.VersionSet)
    requires Recoverable(w, c) && manifest == w.disk.manifest
    ensures fresh(vs) && ok && vs.Ready() && !vs.logOpen && vs.current == w.s.db.version
    ensures vs.logNumber == MinLog(w.disk) && vs.prevLogNumber == 0 && vs.lastSequence == SavedLast(w.disk)
    ensures vs.nextFileNumber == SavedNext(w.disk) + 1 && vs.logNumber < SavedNext(w.disk)
  {
    vs := new Manifest.VersionSet();
    ManifestRestores(w, c, w.s.db.version);
    var status := vs.Recover(manifest);
    ManifestRestores(w, c, vs.current);
    ok := status == Manifest.Ok;
  }

  /** The files of the version have smaller numbers than recovery hands out. */
  lemma NumbersAreFree(w: World, c: Setting)
    requires Recoverable(w, c)
    ensures NumbersBelow(w.s.db.version, SavedNext(w.disk) + 1)
  {
    forall l, f | 0 <= l < NUM_LEVELS && f in w.s.db.version[l] ensures f.number < SavedNext(w.disk) + 1 {
      StoreManifest.FileOfVersionIsNew(w.disk.manifest, w.s.db, l, f);
    }
  }

  /** The version after the edit is the one with the tables. */
  lemma EditAddsTables(v: Version, files: Files, edit: VersionEdit, first: nat, next: nat, v': Version)
    requires Valid(v) && NumbersBelow(v, first) && NumbersAscend(files, first, next)
    requires edit.newFiles == AtLevel(0, files) && edit.deletedFiles == {}
    requires forall l :: 0 <= l < NUM_LEVELS ==> SortedBySmallest(v'[l])
    requires forall l, f {:trigger f in v'[l]} :: 0 <= l < NUM_LEVELS ==> (f in v'[l] <==> AfterEdit(v, edit, l, f))
    requires forall g :: g in WithTables(v, files)[0] <==> g in v[0] || g in files
    ensures v' == WithTables(v, files)
  {
    var w := WithTables(v, files);
    TablesAreNew(edit, v, files, first, next);
    DbImpl.LevelsAreSorted(v);
    forall l | 0 <= l < NUM_LEVELS ensures v'[l] == w[l] {
      forall f ensures f in v'[l] <==> f in w[l] {
        assert f in v'[l] <==> AfterEdit(v, edit, l, f);
        NewNumbersReplace(v, edit, l, f);
      }
      SortedFilesAreEqual(v'[l], w[l]);
    }
  }

  // ---------------------------------------------------------------- putting it together

  /** What replaying the logs has made of them, for the world the disk belongs to. */
  ghost predicate LogsReplayed(w: World, left: map<nat, Bytes>, files: Files, marks: seq<nat>, first: nat, next: nat, last: nat)
    requires CanCrash(w, left)
  {
    && Tabled(files, marks, w.s.flushed, KeptOps(w, left)) && NumbersAscend(files, first, next)
    && |KeptOps(w, left)| == last
  }

  /** The part of DBImpl::Recover that goes through the logs. */
  method RecoverLogs(left: map<nat, Bytes>, minLog: nat, first: nat, saved: nat, paranoidChecks: bool, sizes: Sizes, extend: Extend, reading: Reading,
                     ghost w: World)
    returns (ok: bool, files: Files, next: nat, last: nat, ghost marks: seq<nat>)
    requires Recoverable(w, Setting(extend, reading)) && LeavesLogs(w.disk, left)
    requires minLog == MinLog(w.disk) && saved == SavedLast(w.disk)
    ensures ok && CanCrash(w, left) && LogsReplayed(w, left, files, marks, first, next, last)
  {
    ghost var c := Setting(extend, reading);
    var numbers := LogsInOrder(left, minLog, 0);
    NeededLogs(w, c, left, numbers);
    PartsLeftChain(w, left, c);
    ghost var parts := PartsLeft(w, left);
    var logs := seq(|numbers|, i requires 0 <= i < |numbers| && numbers[i] in left => left[numbers[i]]);
    var maxSequence;
    ok, files, next, maxSequence, marks := ReplayLogs(numbers, logs, extend, paranoidChecks, reading, sizes, first, w.s.ops, w.s.flushed, parts);
    last := Larger(saved, maxSequence);
    PaddingIsTabled(files, marks, w.s.flushed, BroughtBack(w.s.ops, w.s.flushed, parts), SavedLast(w.disk));
    LogsComeBack(parts, extend, reading, w.s.ops, w.s.flushed);
  }

  /** Numbers that stay in use without an operation need no table. */
  lemma PaddingIsTabled(files: Files, marks: seq<nat>, flushed: nat, ops: seq<Op>, last: nat)
    requires Tabled(files, marks, flushed, ops)
    ensures Tabled(files, marks, flushed, Padded(ops, last))
  {
    var longer := Padded(ops, last);
    forall e ensures e !in Written(longer, |ops|, |longer|) {
      WrittenIs(longer, |ops|, |longer|, e);
    }
    assert Written(longer, |ops|, |longer|) == {};
    MoreIsTabled(files, marks, flushed, ops, longer);
  }

  /** DB::Open on what a crash has left: it succeeds, and the world goes on as after that crash. */
  method Open(manifest: seq<VersionEdit>, left: map<nat, Bytes>, paranoidChecks: bool, sizes: Sizes, extend: Extend, reading: Reading, ghost w: World)
    returns (ok: bool, vs: Manifest.VersionSet, logNumber: nat, ghost event: DiskEvent, ghost w': World)
    requires Recoverable(w, Setting(extend, reading)) && manifest == w.disk.manifest && LeavesLogs(w.disk, left)
    ensures ok && event.Crash? && event.left == left && DiskHappens(w, event, w', Setting(extend, reading))
    ensures vs.current == w'.s.db.version && vs.lastSequence == w'.s.db.lastSequence && vs.nextFileNumber == w'.s.db.nextFileNumber
    ensures vs.manifest == w'.disk.manifest && logNumber == w'.disk.logNumber
  {
    ghost var c := Setting(extend, reading);
    ok, vs := RecoverVersion(manifest, w, c);
    NumbersAreFree(w, c);
    var first := vs.nextFileNumber;
    var replayed, files, next, last;
    ghost var marks;
    replayed, files, next, last, marks := RecoverLogs(left, vs.logNumber, first, vs.lastSequence, paranoidChecks, sizes, extend, reading, w);
    ok := ok && replayed;
    logNumber := next;
    TablesServeKept(w, c, left, files, marks, first, next, last);
    vs.nextFileNumber, vs.lastSequence := next + 1, last;
    Install(vs, files, logNumber, first);
    Installed(w, c, left, files, marks, first, logNumber, last, vs.manifest);
    event := Crash(left, first, files, marks);
    w' := Reopened(vs.manifest, vs.current, KeptOps(w, left), logNumber);
  }

  /** The world after a crash, open again. */
  ghost function Reopened(manifest: seq<VersionEdit>, v: Version, kept: seq<Op>, logNumber: nat): World {
    World(Situation(Db([], None, v, |kept|, [], logNumber + 1), kept, |kept|, |kept|),
          Disk(manifest, map[logNumber := EMPTY_LOG], logNumber, 0))
  }

  lemma TablesServeKept(w: World, c: Setting, left: map<nat, Bytes>, files: Files, marks: seq<nat>, first: nat, next: nat, last: nat)
    requires Recoverable(w, c) && CanCrash(w, left) && LogsReplayed(w, left, files, marks, first, next, last)
    requires NumbersBelow(w.s.db.version, first)
    ensures ComesBack(w.s.ops, w.s.flushed, KeptOps(w, left))
    ensures Valid(w.s.db.version) && forall g :: g in WithTables(w.s.db.version, files)[0] <==> g in w.s.db.version[0] || g in files
  {
    var kept := KeptOps(w, left);
    KeptOpsComeBack(w, left, c);
    assert kept[..w.s.flushed] == w.s.ops[..w.s.flushed];
    TablesServe(w.s.db.version, files, marks, kept, first, next);
  }

  lemma Installed(w: World, c: Setting, left: map<nat, Bytes>, files: Files, marks: seq<nat>, first: nat, logNumber: nat, last: nat, manifest: seq<VersionEdit>)
    requires CanCrash(w, left) && LogsReplayed(w, left, files, marks, first, logNumber, last)
    requires ComesBack(w.s.ops, w.s.flushed, KeptOps(w, left)) && SortedBySmallest(w.s.db.version[0])
    requires NumbersBelow(w.s.db.version, first) && 0 < first
    requires NewManifest(manifest, w.s.db.version, files, logNumber, logNumber + 1, last)
    ensures DiskHappens(w, Crash(left, first, files, marks), Reopened(manifest, WithTables(w.s.db.version, files), KeptOps(w, left), logNumber), c)
  {
  }

  /** The tables are installed by an edit, in a new manifest, and a new log begins. */
  method Install(vs: Manifest.VersionSet, files: Files, logNumber: nat, first: nat)
    requires vs.Ready() && !vs.logOpen && Valid(vs.current) && NumbersBelow(vs.current, first) && NumbersAscend(files, first, logNumber)
    requires vs.logNumber < logNumber && vs.nextFileNumber == logNumber + 1
    requires forall g :: g in WithTables(vs.current, files)[0] <==> g in vs.current[0] || g in files
    modifies vs
    ensures vs.current == WithTables(old(vs.current), files)
    ensures vs.lastSequence == old(vs.lastSequence) && vs.nextFileNumber == old(vs.nextFileNumber)
    ensures NewManifest(vs.manifest, old(vs.current), files, logNumber, logNumber + 1, vs.lastSequence)
  {
    var edit := EMPTY_EDIT.(newFiles := AtLevel(0, files), logNumber := Some(logNumber), prevLogNumber := Some(0));
    ghost var v := vs.current;
    TablesAreNew(edit, v, files, first, logNumber);
    ghost var records := vs.LogAndApply(edit);
    EditAddsTables(v, files, edit, first, logNumber, vs.current);
  }
}

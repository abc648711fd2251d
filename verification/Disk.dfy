/**
 What is on disk at every moment: the manifest restores the version, and the logs that recovery would
 replay hold exactly the operations the version does not serve.  Write groups, log rotation, edits
 and crashes keep it so (db/db_impl.cc and db/version_set.cc).
 */
module Disk {
  import opened Wrappers
  import opened DbFormat
  import opened Versions
  import opened Coding
  import opened LogFormat
  import opened WriteBatches
  import opened GroupCommit
  import opened VersionEdits
  import opened History
  import opened Store
  import opened CrashRecovery
  import opened LogRecovery
  import Manifest
  import StoreManifest
  import DbImpl

  /** The manifest, the log files by their numbers, the number of the current log and, while there is
      an immutable memtable, of the log before it. */
  datatype Disk = Disk(manifest: seq<VersionEdit>, logs: map<nat, LogFile>, logNumber: nat, older: nat)

  /** What the checksum is and how bytes are read stays the same. */
  datatype Setting = Setting(extend: Extend, reading: Reading)

  /** DBImpl::NewDB. */
  const NEW_DB := EMPTY_EDIT.(logNumber := Some(0), nextFileNumber := Some(2), lastSequence := Some(0))

  /** The number of the first manifest stands for that of the first log as well. */
  const DISK_AT_FIRST := Disk([NEW_DB], map[1 := EMPTY_LOG], 1, 0)

  // ---------------------------------------------------------------- what the manifest tells

  /** The last values of the counters in the manifest. */
  ghost predicate Counts(records: seq<VersionEdit>, log: nat, next: nat, last: nat) {
    var n := |records|;
    && Manifest.LastLog(records, n) == Some(log) && Manifest.LastNextFile(records, n) == Some(next)
    && Manifest.LastSequence(records, n) == Some(last) && Manifest.LastPrevLog(records, n).GetOr(0) == 0
  }

  ghost predicate SetsCounts(edit: VersionEdit, log: nat, next: nat, last: nat) {
    edit.logNumber == Some(log) && edit.nextFileNumber == Some(next) && edit.lastSequence == Some(last) && edit.prevLogNumber == Some(0)
  }

  lemma EditSetsCounts(records: seq<VersionEdit>, edit: VersionEdit, log: nat, next: nat, last: nat)
    requires SetsCounts(edit, log, next, last)
    ensures Counts(records + [edit], log, next, last)
  {
    assert (records + [edit])[|records|] == edit;
  }

  /** The manifest gives the version, a sequence number no smaller than those of its entries, and a
      file number above those of its files. */
  ghost predicate ManifestTells(disk: Disk, s: Situation, min: nat, next: nat, last: nat) {
    && StoreManifest.Tells(disk.manifest, s.db) && Counts(disk.manifest, min, next, last)
    && StoreManifest.NewsBelow(Manifest.AllNew(disk.manifest, |disk.manifest|), next)
    && min < next <= s.db.nextFileNumber && s.flushed <= last <= |s.ops|
  }

  // ---------------------------------------------------------------- what the logs hold

  /** The logs to replay are the current one and, while there is an immutable memtable, the one
      before. */
  ghost predicate LogsToReplay(disk: Disk, s: Situation, min: nat) {
    && disk.logNumber in disk.logs && min <= disk.logNumber < s.db.nextFileNumber
    && (s.db.imm.Some? ==> disk.older in disk.logs && min <= disk.older < disk.logNumber)
    && forall n {:trigger n in disk.logs} :: n in disk.logs ==>
         0 < n <= disk.logNumber && (n >= min ==> n == disk.logNumber || (s.db.imm.Some? && n == disk.older))
  }

  /** They hold the operations that the version does not serve. */
  ghost predicate LogsTell(disk: Disk, s: Situation, c: Setting)
    requires disk.logNumber in disk.logs && (s.db.imm.Some? ==> disk.older in disk.logs)
  {
    && LogOf(disk.logs[disk.logNumber], c.extend, c.reading, s.ops, s.switched, |s.ops|)
    && if s.db.imm.Some? then LogOf(disk.logs[disk.older], c.extend, c.reading, s.ops, s.flushed, s.switched)
       else s.flushed == s.switched
  }

  ghost predicate OnDisk(disk: Disk, s: Situation, c: Setting, min: nat, next: nat, last: nat) {
    && ManifestTells(disk, s, min, next, last) && LogsToReplay(disk, s, min) && LogsTell(disk, s, c)
  }

  lemma FirstOnDisk(c: Setting)
    requires Continues(c.extend)
    ensures OnDisk(DISK_AT_FIRST, AT_FIRST, c, 0, 2, 0)
  {
    var records := [NEW_DB];
    assert Manifest.AllNew(records, 0) == [] && Manifest.AllNew(records, 1) == [];
    assert Manifest.Summary(records, 1, EMPTY_VERSION);
    assert Manifest.LastLog(records, 1) == Some(0);
    assert OpsOf(Committed([], 0), c.reading) == [];
  }

  // ---------------------------------------------------------------- steps

  /** AddRecord: a log with one more group. */
  ghost predicate GroupAppended(f: LogFile, c: Setting, first: nat, batch: seq<Write>, f': LogFile) {
    && |f'.records| == |f.records| + 1 && |f'.groups| == |f.groups| + 1
    && f.records <= f'.records && f.groups <= f'.groups && f.bytes <= f'.bytes && f'.ends == f.ends + [|f'.bytes|]
    && Laid(c.extend, f'.bytes, |f.bytes|, f'.records[|f.records|], true, |f'.bytes|)
    && Represents(f'.records[|f.records|], first, f'.groups[|f.groups|])
    && OpsOf(f'.groups[|f.groups|], c.reading) == batch
  }

  /** The log number an edit carries: after a flush only the current log is needed. */
  function FirstLogNeeded(disk: Disk, step: Step, min: nat): nat {
    if step.FlushStep? || step.FlushEmptyStep? then disk.logNumber else min
  }

  /** What a step leaves on disk: a write group is logged before it is applied, a switch of memtables
      begins a log, and a new version is preceded by its edit. */
  ghost predicate DiskStep(disk: Disk, db: Db, ops: seq<Op>, step: Step, db': Db, disk': Disk, c: Setting, min: nat) {
    match step
    case WriteStep(batch) =>
      && disk.logNumber in disk.logs && disk.logNumber in disk'.logs
      && disk' == disk.(logs := disk.logs[disk.logNumber := disk'.logs[disk.logNumber]])
      && GroupAppended(disk.logs[disk.logNumber], c, |ops| + 1, batch, disk'.logs[disk.logNumber])
    case SwitchStep =>
      disk' == disk.(logs := disk.logs[db.nextFileNumber := EMPTY_LOG], older := disk.logNumber, logNumber := db.nextFileNumber)
    case TakeSnapshotStep => disk' == disk
    case ReleaseSnapshotStep(_) => disk' == disk
    case _ =>
      && |disk'.manifest| == |disk.manifest| + 1 && disk.manifest <= disk'.manifest && disk' == disk.(manifest := disk'.manifest)
      && var edit := disk'.manifest[|disk.manifest|];
         && StoreManifest.LogsEdit(step, [edit])
         && SetsCounts(edit, FirstLogNeeded(disk, step, min), db'.nextFileNumber, |ops|)
  }

  lemma GroupExtendsLog(f: LogFile, c: Setting, ops: seq<Op>, base: nat, batch: seq<Write>, f': LogFile)
    requires LogOf(f, c.extend, c.reading, ops, base, |ops|) && GroupAppended(f, c, |ops| + 1, batch, f')
    requires |ops| + |batch| < TWO_64 - 1
    ensures LogOf(f', c.extend, c.reading, ops + batch, base, |ops| + |batch|)
  {
    var record, us := f'.records[|f.records|], f'.groups[|f.groups|];
    assert f'.records == f.records + [record] && f'.groups == f.groups + [us];
    RecordExtendsLog(f, c.extend, record, f');
    GroupsAreOperations(f, c.extend, c.reading, ops, base, |ops|, |f.groups|);
    LogsOneMore(f.records, base, f.groups, record, us);
    GroupExtendsOps(f.groups, us, c.reading, ops, base, batch);
  }

  /** What a commit of the write queue does to its log is such a step. */
  lemma CommitAppends(f: LogFile, c: Setting, base: nat, f': LogFile)
    requires Holds(c.extend, f.bytes, f.records, f.ends) && LogsGroups(f.records, base, f.groups)
    requires Holds(c.extend, f'.bytes, f'.records, f'.ends) && LogsGroups(f'.records, base, f'.groups)
    requires f.records <= f'.records && f.groups <= f'.groups && f.bytes <= f'.bytes
    requires |f'.groups| == |f.groups| + 1 && f'.ends == f.ends + [|f'.bytes|]
    ensures GroupAppended(f, c, FirstOf(base, f.groups, |f.groups|), OpsOf(f'.groups[|f.groups|], c.reading), f')
  {
    LastIsLaid(f, c.extend, f');
    LastIsNumbered(f, base, f');
  }

  lemma LastIsLaid(f: LogFile, extend: Extend, f': LogFile)
    requires Holds(extend, f.bytes, f.records, f.ends) && Holds(extend, f'.bytes, f'.records, f'.ends)
    requires |f'.records| == |f.records| + 1 && f'.ends == f.ends + [|f'.bytes|]
    ensures Laid(extend, f'.bytes, |f.bytes|, f'.records[|f.records|], true, |f'.bytes|)
  {
    assert RecordAt(extend, f'.bytes, f'.records, f'.ends, |f.records|);
  }

  lemma LastIsNumbered(f: LogFile, base: nat, f': LogFile)
    requires LogsGroups(f'.records, base, f'.groups) && f.groups <= f'.groups && |f'.groups| == |f.groups| + 1
    ensures Represents(f'.records[|f.groups|], FirstOf(base, f.groups, |f.groups|), f'.groups[|f.groups|])
  {
    var n := |f.groups|;
    assert GroupRecord(f'.records, base, f'.groups, n);
    assert f'.groups == f.groups + [f'.groups[n]];
    CommittedPrefix(f.groups, [f'.groups[n]], n);
  }

  lemma RecordExtendsLog(f: LogFile, extend: Extend, record: Bytes, f': LogFile)
    requires Holds(extend, f.bytes, f.records, f.ends) && f.bytes <= f'.bytes && f'.ends == f.ends + [|f'.bytes|]
    requires Laid(extend, f'.bytes, |f.bytes|, record, true, |f'.bytes|) && f'.records == f.records + [record]
    ensures Holds(extend, f'.bytes, f'.records, f'.ends)
  {
    var more := f'.bytes[|f.bytes|..];
    assert f'.bytes == f.bytes + more;
    HoldsExtends(extend, f.bytes, f.records, f.ends, more, record);
  }

  lemma GroupExtendsOps(groups: seq<seq<Update>>, us: seq<Update>, reading: Reading, ops: seq<Op>, base: nat, batch: seq<Write>)
    requires base <= |ops| && OpsOf(Committed(groups, |groups|), reading) == ops[base..] && OpsOf(us, reading) == batch
    ensures OpsOf(Committed(groups + [us], |groups| + 1), reading) == (ops + batch)[base..|ops| + |batch|]
  {
    CommittedSnoc(groups, us);
    OpsOfConcat(Committed(groups, |groups|), us, reading);
    SliceOfConcat(ops, batch, base);
  }

  lemma SliceOfConcat(a: seq<Op>, b: seq<Op>, base: nat)
    requires base <= |a|
    ensures (a + b)[base..|a| + |b|] == a[base..] + b
  {
  }

  lemma OpsOfConcat(us: seq<Update>, vs: seq<Update>, reading: Reading)
    ensures OpsOf(us + vs, reading) == OpsOf(us, reading) + OpsOf(vs, reading)
  {
  }

  lemma LogOfPrefix(f: LogFile, c: Setting, ops: seq<Op>, base: nat, end: nat, longer: seq<Op>)
    requires LogOf(f, c.extend, c.reading, ops, base, end) && ops <= longer && |longer| < TWO_64 - 1
    ensures LogOf(f, c.extend, c.reading, longer, base, end)
  {
    assert longer[base..end] == ops[base..end];
  }

  lemma EmptyLogOf(c: Setting, ops: seq<Op>, n: nat)
    requires Continues(c.extend) && n <= |ops| < TWO_64 - 1
    ensures LogOf(EMPTY_LOG, c.extend, c.reading, ops, n, n)
  {
    assert OpsOf(Committed([], 0), c.reading) == ops[n..n];
  }

  /** The disk goes on telling the manifest's part. */
  lemma SameManifestTells(disk: Disk, s: Situation, min: nat, next: nat, last: nat, disk': Disk, s': Situation)
    requires ManifestTells(disk, s, min, next, last) && disk'.manifest == disk.manifest
    requires s'.db.version == s.db.version && s.db.nextFileNumber <= s'.db.nextFileNumber
    requires s'.flushed == s.flushed && s.ops <= s'.ops
    ensures ManifestTells(disk', s', min, next, last)
  {
  }

  lemma WriteStaysOnDisk(disk: Disk, s: Situation, c: Setting, min: nat, next: nat, last: nat, batch: seq<Write>, disk': Disk, s': Situation)
    requires OnDisk(disk, s, c, min, next, last) && |s'.ops| < MAX_SEQUENCE
    requires Happens(s, Made(WriteStep(batch)), s') && DiskStep(disk, s.db, s.ops, WriteStep(batch), s'.db, disk', c, min)
    ensures OnDisk(disk', s', c, min, next, last)
  {
    SameManifestTells(disk, s, min, next, last, disk', s');
    GroupInLogs(disk, s, c, min, batch, disk', s');
  }

  lemma GroupInLogs(disk: Disk, s: Situation, c: Setting, min: nat, batch: seq<Write>, disk': Disk, s': Situation)
    requires LogsToReplay(disk, s, min) && LogsTell(disk, s, c)
    requires disk' == disk.(logs := disk'.logs) && disk.logNumber in disk'.logs
    requires disk'.logs == disk.logs[disk.logNumber := disk'.logs[disk.logNumber]]
    requires GroupAppended(disk.logs[disk.logNumber], c, |s.ops| + 1, batch, disk'.logs[disk.logNumber])
    requires s'.ops == s.ops + batch && |s'.ops| < MAX_SEQUENCE && (s'.flushed, s'.switched) == (s.flushed, s.switched)
    requires s'.db.imm == s.db.imm && s'.db.nextFileNumber == s.db.nextFileNumber
    ensures LogsToReplay(disk', s', min) && LogsTell(disk', s', c)
  {
    GroupExtendsLog(disk.logs[disk.logNumber], c, s.ops, s.switched, batch, disk'.logs[disk.logNumber]);
    if s.db.imm.Some? {
      LogOfPrefix(disk.logs[disk.older], c, s.ops, s.flushed, s.switched, s'.ops);
    }
  }

  lemma SwitchStaysOnDisk(disk: Disk, s: Situation, c: Setting, min: nat, next: nat, last: nat, disk': Disk, s': Situation)
    requires OnDisk(disk, s, c, min, next, last) && |s.ops| < MAX_SEQUENCE
    requires Happens(s, Made(SwitchStep), s') && DiskStep(disk, s.db, s.ops, SwitchStep, s'.db, disk', c, min)
    ensures OnDisk(disk', s', c, min, next, last)
  {
    SameManifestTells(disk, s, min, next, last, disk', s');
    EmptyLogOf(c, s.ops, |s.ops|);
  }

  predicate LogsItsEdit(step: Step) {
    step.FlushStep? || step.FlushEmptyStep? || step.MoveStep? || step.CompactStep?
  }

  /** A step that logs an edit keeps the manifest telling the version. */
  lemma EditTells(disk: Disk, s: Situation, c: Setting, min: nat, next: nat, last: nat, step: Step, disk': Disk, s': Situation)
    requires ManifestTells(disk, s, min, next, last) && FirstLogNeeded(disk, step, min) < s.db.nextFileNumber && LogsItsEdit(step)
    requires Next(s.db, s.ops, step, s'.db, s'.ops) && s'.ops == s.ops && DiskStep(disk, s.db, s.ops, step, s'.db, disk', c, min)
    requires Inv(s.db, s.ops) && Inv(s'.db, s'.ops) && s'.flushed <= |s.ops|
    ensures ManifestTells(disk', s', FirstLogNeeded(disk, step, min), s'.db.nextFileNumber, |s.ops|)
  {
    var edit := disk'.manifest[|disk.manifest|];
    assert disk'.manifest == disk.manifest + [edit];
    StoreManifest.StepIsTold(disk.manifest, s.db, s.ops, step, s'.db, s'.ops, [edit]);
    EditSetsCounts(disk.manifest, edit, FirstLogNeeded(disk, step, min), s'.db.nextFileNumber, |s.ops|);
    assert s.db.nextFileNumber <= s'.db.nextFileNumber;
  }

  lemma EditStaysOnDisk(disk: Disk, s: Situation, c: Setting, min: nat, next: nat, last: nat, step: Step, disk': Disk, s': Situation)
    requires OnDisk(disk, s, c, min, next, last) && LogsItsEdit(step) && Kept(s) && Kept(s')
    requires Happens(s, Made(step), s') && DiskStep(disk, s.db, s.ops, step, s'.db, disk', c, min)
    ensures OnDisk(disk', s', c, FirstLogNeeded(disk, step, min), s'.db.nextFileNumber, |s.ops|)
  {
    EditTells(disk, s, c, min, next, last, step, disk', s');
    LogsAfterEdit(disk, s, c, min, step, disk', s');
  }

  lemma LogsAfterEdit(disk: Disk, s: Situation, c: Setting, min: nat, step: Step, disk': Disk, s': Situation)
    requires LogsToReplay(disk, s, min) && LogsTell(disk, s, c) && LogsItsEdit(step)
    requires disk'.logs == disk.logs && disk'.logNumber == disk.logNumber && disk'.older == disk.older
    requires s'.ops == s.ops && s.db.nextFileNumber <= s'.db.nextFileNumber
    requires (s'.flushed, s'.switched) == NextEpochs(s.db, s.ops, step, s.flushed, s.switched)
    requires s'.db.imm == if step.FlushStep? || step.FlushEmptyStep? then None else s.db.imm
    ensures LogsToReplay(disk', s', FirstLogNeeded(disk, step, min)) && LogsTell(disk', s', c)
  {
  }

  /** Every step keeps on disk what is needed to open the store again. */
  lemma StepStaysOnDisk(disk: Disk, s: Situation, c: Setting, min: nat, next: nat, last: nat, step: Step, disk': Disk, s': Situation)
    returns (min': nat, next': nat, last': nat)
    requires OnDisk(disk, s, c, min, next, last) && Kept(s)
    requires Happens(s, Made(step), s') && DiskStep(disk, s.db, s.ops, step, s'.db, disk', c, min)
    ensures OnDisk(disk', s', c, min', next', last')
  {
    EventKeeps(s, Made(step), s');
    min', next', last' := min, next, last;
    if LogsItsEdit(step) {
      min', next', last' := FirstLogNeeded(disk, step, min), s'.db.nextFileNumber, |s.ops|;
      EditStaysOnDisk(disk, s, c, min, next, last, step, disk', s');
    } else if step.WriteStep? {
      WriteStaysOnDisk(disk, s, c, min, next, last, step.batch, disk', s');
    } else if step.SwitchStep? {
      SwitchStaysOnDisk(disk, s, c, min, next, last, disk', s');
    } else {
      SameManifestTells(disk, s, min, next, last, disk', s');
    }
  }

  // ---------------------------------------------------------------- crashes

  /** The store and the disk. */
  datatype World = World(s: Situation, disk: Disk)

  /** A crash leaves the manifest, and of each log a beginning. */
  ghost predicate LeavesLogs(disk: Disk, left: map<nat, Bytes>) {
    left.Keys == disk.logs.Keys && forall n {:trigger left[n]} :: n in left ==> left[n] <= disk.logs[n].bytes
  }

  ghost function MinLog(disk: Disk): nat { Manifest.LastLog(disk.manifest, |disk.manifest|).GetOr(0) }

  ghost function SavedNext(disk: Disk): nat { Manifest.LastNextFile(disk.manifest, |disk.manifest|).GetOr(0) }

  ghost function SavedLast(disk: Disk): nat { Manifest.LastSequence(disk.manifest, |disk.manifest|).GetOr(0) }

  /** At every moment the disk has what is needed to open the store again. */
  ghost predicate Recoverable(w: World, c: Setting) {
    Kept(w.s) && OnDisk(w.disk, w.s, c, MinLog(w.disk), SavedNext(w.disk), SavedLast(w.disk))
  }

  /** The logs that recovery replays. */
  ghost function PartsLeft(w: World, left: map<nat, Bytes>): seq<Part>
    requires w.disk.logNumber in w.disk.logs && (w.s.db.imm.Some? ==> w.disk.older in w.disk.logs) && LeavesLogs(w.disk, left)
  {
    var current := Part(w.disk.logs[w.disk.logNumber], w.s.switched, |w.s.ops|, left[w.disk.logNumber]);
    if w.s.db.imm.Some? then [Part(w.disk.logs[w.disk.older], w.s.flushed, w.s.switched, left[w.disk.older]), current] else [current]
  }

  lemma PartsLeftChain(w: World, left: map<nat, Bytes>, c: Setting)
    requires Recoverable(w, c) && LeavesLogs(w.disk, left)
    ensures Chain(PartsLeft(w, left), c.extend, c.reading, w.s.ops, w.s.flushed) && EndsMatch(PartsLeft(w, left))
  {
    var parts := PartsLeft(w, left);
    forall i | 0 <= i < |parts| ensures PartOf(parts[i], c.extend, c.reading, w.s.ops) {
    }
    ChainPrefix(parts, c.extend, c.reading, w.s.ops, w.s.flushed, |parts|);
  }

  /** The operations that are there after the crash; numbers up to the last saved one stay in use. */
  ghost function KeptOps(w: World, left: map<nat, Bytes>): seq<Op>
    requires w.disk.logNumber in w.disk.logs && (w.s.db.imm.Some? ==> w.disk.older in w.disk.logs) && LeavesLogs(w.disk, left)
    requires w.s.flushed <= |w.s.ops| && EndsMatch(PartsLeft(w, left))
  {
    Padded(BroughtBack(w.s.ops, w.s.flushed, PartsLeft(w, left)), SavedLast(w.disk))
  }

  /** Of the operations in the logs to replay, a crash loses exactly those whose group is not whole
      any more. */
  lemma CrashLosesBrokenGroups(w: World, left: map<nat, Bytes>, c: Setting, i: nat, q: nat)
    requires Recoverable(w, c) && LeavesLogs(w.disk, left)
    requires i < |PartsLeft(w, left)| && PartsLeft(w, left)[i].from <= q < PartsLeft(w, left)[i].upto
    ensures EndsMatch(PartsLeft(w, left)) && ComesBack(w.s.ops, w.s.flushed, KeptOps(w, left)) && q < |w.s.ops|
    ensures var p := PartsLeft(w, left)[i];
      There(KeptOps(w, left), w.s.ops, q) <==> q < ReachedIn(p.log, p.from, |p.left|)
  {
    PartsLeftChain(w, left, c);
    LogsComeBack(PartsLeft(w, left), c.extend, c.reading, w.s.ops, w.s.flushed);
    WholeGroupsComeBack(PartsLeft(w, left), c.extend, c.reading, w.s.ops, w.s.flushed, i, q);
  }

  lemma KeptOpsComeBack(w: World, left: map<nat, Bytes>, c: Setting)
    requires Recoverable(w, c) && LeavesLogs(w.disk, left)
    ensures EndsMatch(PartsLeft(w, left)) && ComesBack(w.s.ops, w.s.flushed, KeptOps(w, left))
  {
    PartsLeftChain(w, left, c);
    LogsComeBack(PartsLeft(w, left), c.extend, c.reading, w.s.ops, w.s.flushed);
  }

  /** DB::Open writes a new manifest: the version as it was, and an edit with the tables made of the
      logs. */
  ghost predicate NewManifest(manifest: seq<VersionEdit>, v: Version, files: Files, log: nat, next: nat, last: nat) {
    && |manifest| == 2 && Manifest.Snapshot(manifest[0], v)
    && manifest[1].newFiles == AtLevel(0, files) && manifest[1].deletedFiles == {}
    && SetsCounts(manifest[1], log, next, last)
  }

  /** A crash, and the store open again: the logs have become tables, and a new log has begun. */
  ghost predicate CrashHappens(w: World, left: map<nat, Bytes>, first: nat, files: Files, marks: seq<nat>, w': World)
    requires w.disk.logNumber in w.disk.logs && (w.s.db.imm.Some? ==> w.disk.older in w.disk.logs) && LeavesLogs(w.disk, left)
    requires w.s.flushed <= |w.s.ops| && EndsMatch(PartsLeft(w, left))
  {
    && Happens(w.s, Crashed(KeptOps(w, left), first, files, marks), w'.s)
    && w'.disk.logs == map[w'.disk.logNumber := EMPTY_LOG] && 0 < w'.disk.logNumber < w'.s.db.nextFileNumber
    && NewManifest(w'.disk.manifest, w.s.db.version, files, w'.disk.logNumber, w'.s.db.nextFileNumber, |w'.s.ops|)
  }

  lemma SnapshotTells(snapshot: VersionEdit, v: Version, next: nat, db: Db)
    requires Manifest.Snapshot(snapshot, v) && Valid(v) && NumbersBelow(v, next)
    requires db.version == v && db.nextFileNumber == next
    ensures StoreManifest.Tells([snapshot], db)
  {
    var news := snapshot.newFiles;
    DbImpl.LevelsAreSorted(v);
    Manifest.SnapshotSummary(snapshot, v);
    assert Manifest.AllNew([snapshot], 0) == [] && Manifest.AllNew([snapshot], 1) == news;
    forall k: nat, l: nat, f: File, g: File | (k, f) in news && (l, g) in news && f.number == g.number ensures f == g {
      assert f in v[k] && g in v[l] && SameNumber(f, g);
    }
    forall l: nat, f: File | (l, f) in news ensures f.number < next {
      assert f in v[l];
    }
  }

  lemma TablesTell(snapshot: VersionEdit, edit: VersionEdit, v: Version, files: Files, first: nat, db: Db)
    requires Manifest.Snapshot(snapshot, v) && Valid(v) && NumbersBelow(v, first) && NumbersAscend(files, first, db.nextFileNumber)
    requires edit.newFiles == AtLevel(0, files) && edit.deletedFiles == {}
    requires SortedBySmallest(v[0]) && db.version == WithTables(v, files) && Valid(db.version)
    requires forall g :: g in db.version[0] <==> g in v[0] || g in files
    ensures StoreManifest.Tells([snapshot, edit], db)
  {
    var before := db.(version := v, nextFileNumber := first);
    SnapshotTells(snapshot, v, first, before);
    DbImpl.LevelsAreSorted(db.version);
    TablesAreNew(edit, v, files, first, db.nextFileNumber);
    assert StoreManifest.NewOrKnown(Manifest.AllNew([snapshot], 1), edit, first, db.nextFileNumber);
    StoreManifest.OneMoreRecord([snapshot], edit, before, db, 0);
    assert [snapshot] + [edit] == [snapshot, edit];
  }

  lemma TablesAreNew(edit: VersionEdit, v: Version, files: Files, first: nat, next: nat)
    requires edit.newFiles == AtLevel(0, files) && edit.deletedFiles == {} && NumbersBelow(v, first) && NumbersAscend(files, first, next)
    ensures NewNumbers(v, edit) && OwnNumbers(edit.newFiles) && StoreManifest.AllAt(edit, 0)
    ensures forall l: nat, f: File :: (l, f) in edit.newFiles <==> l == 0 && f in files
    ensures forall l: nat, f: File :: (l, f) in edit.newFiles ==> first <= f.number < next
  {
    forall l: nat, f: File ensures (l, f) in edit.newFiles <==> l == 0 && f in files {
      if l == 0 && f in files {
        var i :| 0 <= i < |files| && files[i] == f;
        assert edit.newFiles[i] == (l, f);
      }
    }
    forall a | a in edit.newFiles ensures a.0 == 0 && first <= a.1.number < next {
      var i :| 0 <= i < |files| && edit.newFiles[i] == a;
    }
  }

  /** The disk is in order again after a crash, ready for the next one. */
  lemma CrashStaysOnDisk(w: World, left: map<nat, Bytes>, c: Setting, first: nat, files: Files, marks: seq<nat>, w': World)
    requires Recoverable(w, c) && LeavesLogs(w.disk, left) && EndsMatch(PartsLeft(w, left))
    requires CrashHappens(w, left, first, files, marks, w')
    ensures Recoverable(w', c)
  {
    var kept := KeptOps(w, left);
    EventKeeps(w.s, Crashed(kept, first, files, marks), w'.s);
    assert kept[..w.s.flushed] == w.s.ops[..w.s.flushed];
    TablesServe(w.s.db.version, files, marks, kept, first, w'.s.db.nextFileNumber);
    var manifest := w'.disk.manifest;
    assert manifest == [manifest[0], manifest[1]];
    TablesTell(manifest[0], manifest[1], w.s.db.version, files, first, w'.s.db);
    EditSetsCounts([manifest[0]], manifest[1], w'.disk.logNumber, w'.s.db.nextFileNumber, |kept|);
    assert [manifest[0]] + [manifest[1]] == manifest;
    EmptyLogOf(c, kept, |kept|);
  }

  // ---------------------------------------------------------------- lives

  datatype DiskEvent = Ran(step: Step) | Crash(left: map<nat, Bytes>, first: nat, files: Files, marks: seq<nat>)

  ghost predicate CanCrash(w: World, left: map<nat, Bytes>) {
    && w.disk.logNumber in w.disk.logs && (w.s.db.imm.Some? ==> w.disk.older in w.disk.logs) && LeavesLogs(w.disk, left)
    && w.s.flushed <= |w.s.ops| && EndsMatch(PartsLeft(w, left))
  }

  ghost predicate DiskHappens(w: World, event: DiskEvent, w': World, c: Setting) {
    match event
    case Ran(step) => Happens(w.s, Made(step), w'.s) && DiskStep(w.disk, w.s.db, w.s.ops, step, w'.s.db, w'.disk, c, MinLog(w.disk))
    case Crash(left, first, files, marks) => CanCrash(w, left) && CrashHappens(w, left, first, files, marks, w')
  }

  /** Any number of steps and crashes, with the disk. */
  ghost predicate DiskLife(trace: seq<World>, events: seq<DiskEvent>, c: Setting) {
    && Continues(c.extend) && |trace| == |events| + 1 && trace[0] == World(AT_FIRST, DISK_AT_FIRST)
    && forall i {:trigger events[i]} :: 0 <= i < |events| ==> DiskHappens(trace[i], events[i], trace[i + 1], c)
  }

  lemma DiskEventKeeps(w: World, event: DiskEvent, w': World, c: Setting)
    requires Recoverable(w, c) && DiskHappens(w, event, w', c)
    ensures Recoverable(w', c)
  {
    match event
    case Ran(step) =>
      EventKeeps(w.s, Made(step), w'.s);
      var min, next, last := StepStaysOnDisk(w.disk, w.s, c, MinLog(w.disk), SavedNext(w.disk), SavedLast(w.disk), step, w'.disk, w'.s);
    case Crash(left, first, files, marks) =>
      CrashStaysOnDisk(w, left, c, first, files, marks, w');
  }

  /** At every moment of every life the disk has what is needed to open the store again: the logs to
      replay hold exactly the operations that the version does not serve. */
  lemma {:induction false} LifeIsRecoverable(trace: seq<World>, events: seq<DiskEvent>, c: Setting, n: nat)
    requires DiskLife(trace, events, c) && n < |trace|
    ensures Recoverable(trace[n], c)
  {
    if n == 0 {
      FirstOnDisk(c);
      AtFirstKept();
    } else {
      LifeIsRecoverable(trace, events, c, n - 1);
      DiskEventKeeps(trace[n - 1], events[n - 1], trace[n], c);
    }
  }

  /** Whatever is read back from the manifest at some moment of a life is the version the store has
      reached. */
  lemma ManifestRestoresLife(trace: seq<World>, events: seq<DiskEvent>, c: Setting, n: nat, v: Version)
    requires DiskLife(trace, events, c) && n < |trace|
    requires var records := trace[n].disk.manifest; Manifest.Summary(records, |records|, v)
    ensures Manifest.InRange(trace[n].disk.manifest) && Manifest.AllNamed(trace[n].disk.manifest)
    ensures v == trace[n].s.db.version
  {
    LifeIsRecoverable(trace, events, c, n);
    ManifestRestores(trace[n], c, v);
  }

  lemma ManifestRestores(w: World, c: Setting, v: Version)
    requires Recoverable(w, c)
    ensures Manifest.InRange(w.disk.manifest) && Manifest.AllNamed(w.disk.manifest)
    ensures Manifest.Summary(w.disk.manifest, |w.disk.manifest|, v) ==> v == w.s.db.version
  {
    var records := w.disk.manifest;
    StoreManifest.NamedAnywhereIsNamed(Manifest.AllNew(records, |records|));
    if Manifest.Summary(records, |records|, v) {
      Manifest.SummaryIsUnique(records, |records|, v, w.s.db.version);
    }
  }

  ghost function EventOf(w: World, event: DiskEvent): Event {
    match event
    case Ran(step) => Made(step)
    case Crash(left, first, files, marks) => Crashed(if CanCrash(w, left) then KeptOps(w, left) else [], first, files, marks)
  }

  ghost function Situations(trace: seq<World>): (r: seq<Situation>)
    ensures |r| == |trace| && forall i :: 0 <= i < |trace| ==> r[i] == trace[i].s
  {
    seq(|trace|, i requires 0 <= i < |trace| => trace[i].s)
  }

  ghost function EventsOf(trace: seq<World>, events: seq<DiskEvent>): (r: seq<Event>)
    requires |events| <= |trace|
    ensures |r| == |events| && forall i :: 0 <= i < |events| ==> r[i] == EventOf(trace[i], events[i])
  {
    seq(|events|, i requires 0 <= i < |events| => EventOf(trace[i], events[i]))
  }

  /** With the disk in view the store lives a life as described before, so that its reads follow what
      is left of the history. */
  lemma DiskLifeIsLife(trace: seq<World>, events: seq<DiskEvent>, c: Setting)
    requires DiskLife(trace, events, c)
    ensures Life(Situations(trace), EventsOf(trace, events))
  {
    var situations, happenings := Situations(trace), EventsOf(trace, events);
    forall i {:trigger happenings[i]} | 0 <= i < |happenings| ensures Happens(situations[i], happenings[i], situations[i + 1]) {
      assert DiskHappens(trace[i], events[i], trace[i + 1], c);
    }
  }
}

/**
 The whole store as a state machine.  Write groups, memtable switches, flushes, trivial moves,
 compactions, and taking and releasing snapshots are atomic steps (db/db_impl.cc).
 */
module Store {
  import opened Wrappers
  import opened DbFormat
  import opened Visibility
  import opened Tables
  import opened Versions
  import opened InputSets
  import opened Replacement
  import opened DropRules
  import opened CompactionWork
  import opened History

  datatype Db = Db(
    mem: seq<Entry>,
    imm: Option<seq<Entry>>,
    version: Version,
    lastSequence: nat,
    snapshots: seq<nat>,
    nextFileNumber: nat)

  const EMPTY_DB := Db([], None, EMPTY_VERSION, 0, [], 2)

  ghost function ImmEntries(db: Db): set<Entry> {
    match db.imm
    case Some(es) => Elements(es)
    case None => {}
  }

  ghost function AllEntries(db: Db): set<Entry> {
    Elements(db.mem) + ImmEntries(db) + VersionEntries(db.version)
  }

  /** The oldest live snapshot, which bounds what a compaction may drop. */
  function SmallestSnapshot(db: Db): nat {
    if db.snapshots == [] then db.lastSequence else db.snapshots[0]
  }

  /** Every entry of `a` was written after every entry of `b`. */
  ghost predicate WrittenAfter(a: set<Entry>, b: set<Entry>) {
    forall x, y {:trigger x in a, y in b} :: x in a && y in b ==> x.key.seqno > y.key.seqno
  }

  ghost predicate NumbersBelow(v: Version, n: nat) {
    forall l, f {:trigger f in v[l]} :: 0 <= l < NUM_LEVELS && f in v[l] ==> f.number < n
  }

  ghost predicate SnapshotsInOrder(snapshots: seq<nat>, last: nat) {
    && (forall i, j :: 0 <= i < j < |snapshots| ==> snapshots[i] <= snapshots[j])
    && forall s :: s in snapshots ==> s <= last
  }

  /** What every step keeps, whatever the compactions choose. */
  ghost predicate Structured(db: Db, ops: seq<Op>) {
    && |ops| == db.lastSequence < MAX_SEQUENCE
    && Sorted(db.mem)
    && (db.imm.Some? ==> Sorted(db.imm.value))
    && Valid(db.version) && NumbersBelow(db.version, db.nextFileNumber)
    && FromHistory(AllEntries(db), ops)
    && WrittenAfter(Elements(db.mem), ImmEntries(db) + VersionEntries(db.version))
    && WrittenAfter(ImmEntries(db), VersionEntries(db.version))
    && SnapshotsInOrder(db.snapshots, db.lastSequence)
  }

  ghost predicate Inv(db: Db, ops: seq<Op>) {
    Structured(db, ops) && Faithful(AllEntries(db), ops, SmallestSnapshot(db))
  }

  // ---------------------------------------------------------------- writing

  ghost predicate SeqnosUpTo(mem: seq<Entry>, last: nat) {
    forall e :: e in Elements(mem) ==> e.key.seqno <= last
  }

  lemma NextKeyIsNew(mem: seq<Entry>, last: nat, op: Write)
    requires SeqnosUpTo(mem, last)
    ensures OpEntry(op, last + 1).key !in Keys(mem)
  {
    forall e | e in mem ensures e.key.seqno <= last {
      assert e in Elements(mem);
    }
  }

  lemma MemSeqnos(db: Db, ops: seq<Op>)
    requires Structured(db, ops)
    ensures SeqnosUpTo(db.mem, db.lastSequence)
  {
    forall e | e in Elements(db.mem) ensures e.key.seqno <= db.lastSequence {
      assert e in AllEntries(db);
    }
  }

  lemma FloorIsReached(db: Db)
    requires SnapshotsInOrder(db.snapshots, db.lastSequence)
    ensures SmallestSnapshot(db) <= db.lastSequence
    ensures forall s :: s in db.snapshots ==> SmallestSnapshot(db) <= s
  {
    assert db.snapshots != [] ==> db.snapshots[0] in db.snapshots;
  }

  lemma FaithfulAbove(S: set<Entry>, ops: seq<Op>, floor: nat, floor': nat)
    requires Faithful(S, ops, floor) && floor <= floor'
    ensures Faithful(S, ops, floor')
  {
  }

  // ---------------------------------------------------------------- flushing

  /** The version `v'` is `v` with one more file in level `level`. */
  ghost predicate FileAdded(v: Version, level: nat, f: File, v': Version)
    requires level < NUM_LEVELS
  {
    && (forall l {:trigger v'[l]} :: 0 <= l < NUM_LEVELS && l != level ==> v'[l] == v[l])
    && (forall g {:trigger g in v'[level]} :: g in v'[level] <==> g in v[level] || g == f)
    && SortedBySmallest(v'[level])
  }

  /** The guarantee of PickLevelForMemTableOutput: below level 0 the file only goes where no file
      at that level or above overlaps its user keys. */
  ghost predicate SafeLevel(v: Version, level: nat, f: File) {
    && level <= MAX_MEM_COMPACT_LEVEL
    && (level > 0 ==> forall l, g {:trigger g in v[l]} :: 0 <= l <= level && g in v[l] ==>
          !Overlaps(g, Some(f.smallest.user), Some(f.largest.user)))
  }

  lemma DisjointUsers(f: File, g: File, x: Entry, y: Entry)
    requires ValidFile(f) && ValidFile(g) && !Overlaps(g, Some(f.smallest.user), Some(f.largest.user))
    requires x in f.entries && y in g.entries
    ensures x.key.user != y.key.user
  {
    FileBounds(f, x);
    FileBounds(g, y);
  }

  lemma FlushedLevelIsSorted(v: Version, level: nat, f: File, v': Version)
    requires WellFormed(v) && ValidFile(f) && SafeLevel(v, level, f) && FileAdded(v, level, f, v')
    ensures WellFormed(v')
  {
    forall g | g in v'[level] ensures ValidFile(g) {
      if g != f { assert g in v[level]; }
    }
    if level > 0 {
      forall g, h | g in v'[level] && h in v'[level] && g != h ensures Before(g.largest, h.smallest) || Before(h.largest, g.smallest) {
        if g != f && h != f {
          OneComesFirst(v[level], g, h);
        } else {
          FileEnds(g);
          FileEnds(h);
        }
      }
      ApartFilesAreDisjoint(v'[level]);
    }
  }

  lemma FlushedNewest(v: Version, level: nat, f: File, v': Version)
    requires Valid(v) && ValidFile(f) && SafeLevel(v, level, f) && FileAdded(v, level, f, v')
    requires WrittenAfter(Elements(f.entries), VersionEntries(v))
    requires NumbersBelow(v, f.number)
    ensures NewestByLevel(v') && NewestByNumber(v'[0])
  {
    forall l, g | 0 <= l < NUM_LEVELS && g in v[l] ensures FileNewer(f, g) {
      forall x, y | x in f.entries && y in g.entries ensures x.key.seqno > y.key.seqno {
        InVersion(v, l, g, y);
        assert x in Elements(f.entries);
      }
    }
    forall k, l, g, h | 0 <= k < l < NUM_LEVELS && g in v'[k] && h in v'[l] ensures FileNewer(g, h) {
      if l == level && h == f && g in v[k] {
        assert ValidFile(g);
        forall x, y | x in g.entries && y in f.entries ensures x.key.user != y.key.user {
          DisjointUsers(f, g, y, x);
        }
      }
    }
    forall g, h | g in v'[0] && h in v'[0] && g.number > h.number ensures FileNewer(g, h) {
      assert g in v[0] ==> g.number < f.number;
    }
  }

  /** Adding a flushed memtable at a safe level keeps the version invariant. */
  lemma FlushKeepsValid(v: Version, level: nat, f: File, v': Version)
    requires Valid(v) && ValidFile(f) && SafeLevel(v, level, f) && FileAdded(v, level, f, v')
    requires WrittenAfter(Elements(f.entries), VersionEntries(v))
    requires UniqueSeqnos(VersionEntries(v) + Elements(f.entries))
    requires NumbersBelow(v, f.number)
    ensures Valid(v') && VersionEntries(v') == VersionEntries(v) + Elements(f.entries) && NumbersBelow(v', f.number + 1)
  {
    FlushedLevelIsSorted(v, level, f, v');
    FlushedNewest(v, level, f, v');
    forall e | e in VersionEntries(v') ensures e in VersionEntries(v) + Elements(f.entries) {
      var l, g :| 0 <= l < NUM_LEVELS && g in v'[l] && e in g.entries;
      assert (l == level && g == f) || g in v[l];
    }
    forall e | e in VersionEntries(v) ensures e in VersionEntries(v') {
      var l, g :| 0 <= l < NUM_LEVELS && g in v[l] && e in g.entries;
      assert g in v'[l];
    }
    assert f in v'[level];
    assert VersionEntries(v') == VersionEntries(v) + Elements(f.entries);
    assert DistinctNumbers(v') by {
      forall k, l, g, h | 0 <= k < NUM_LEVELS && 0 <= l < NUM_LEVELS && g in v'[k] && h in v'[l] && SameNumber(g, h) ensures k == l && g == h {
        assert (k == level && g == f) || g in v[k];
        assert (l == level && h == f) || h in v[l];
      }
    }
    forall l, g | 0 <= l < NUM_LEVELS && g in v'[l] ensures g.number < f.number + 1 {
      assert (l == level && g == f) || g in v[l];
    }
  }

  // ---------------------------------------------------------------- layers

  /** Entries written later decide a read; only when they do not match do the others matter. */
  lemma NewerLayerDecides(M: set<Entry>, V: set<Entry>, user: UserKey, s: nat)
    requires UniqueSeqnos(M + V) && WrittenAfter(M, V)
    ensures Visible(M + V, user, s) == if NoMatch(M, user, s) then Visible(V, user, s) else Visible(M, user, s)
  {
    match Newest(M, user, s)
    case Some(e) =>
      assert IsNewest(M + V, user, s, e);
      VisibleIs(M + V, user, s, e);
      VisibleIs(M, user, s, e);
    case None =>
      VisibleDependsOnMatches(M + V, V, user, s);
  }

  lemma SameReadsUnderLayer(M: set<Entry>, V: set<Entry>, V': set<Entry>, floor: nat)
    requires UniqueSeqnos(M + V) && WrittenAfter(M, V) && V' <= V
    requires SameReads(V, V', floor)
    ensures SameReads(M + V, M + V', floor)
  {
    forall user, s | s >= floor ensures Visible(M + V, user, s) == Visible(M + V', user, s) {
      NewerLayerDecides(M, V, user, s);
      NewerLayerDecides(M, V', user, s);
    }
  }

  // ---------------------------------------------------------------- steps

  datatype Step =
    | WriteStep(batch: seq<Write>)
    | SwitchStep
    | FlushStep(level: nat, file: File)
    | FlushEmptyStep
    | MoveStep(level: nat, file: File)
    | CompactStep(level: nat, in0: Files, in1: Files, outputs: Files)
    | TakeSnapshotStep
    | ReleaseSnapshotStep(index: nat)

  /** A write group: the operations enter the memtable with consecutive sequence numbers. */
  ghost predicate Writes(db: Db, ops: seq<Op>, batch: seq<Op>, db': Db, ops': seq<Op>) {
    && db.lastSequence + |batch| < MAX_SEQUENCE
    && Sorted(db'.mem) && Elements(db'.mem) == Elements(db.mem) + BatchEntries(batch, db.lastSequence, |batch|)
    && db' == db.(mem := db'.mem, lastSequence := db.lastSequence + |batch|) && ops' == ops + batch
  }

  ghost predicate Flushes(db: Db, level: nat, f: File, db': Db) {
    && db.imm == Some(f.entries) && Labelled(f) && f.number == db.nextFileNumber
    && SafeLevel(db.version, level, f) && FileAdded(db.version, level, f, db'.version)
    && db' == db.(imm := None, version := db'.version, nextFileNumber := db.nextFileNumber + 1)
  }

  ghost predicate Moves(db: Db, level: nat, f: File, db': Db) {
    && InputsValid(db.version, level, [f], []) && Replaced(db.version, level, [f], [], [f], db'.version)
    && db' == db.(version := db'.version)
  }

  ghost predicate Compacts(db: Db, level: nat, in0: Files, in1: Files, outputs: Files, db': Db) {
    && InputsValid(db.version, level, in0, in1) && Replaced(db.version, level, in0, in1, outputs, db'.version)
    && MadeFrom(in0, in1, outputs) && Numbered(outputs, db.nextFileNumber)
    && KeepsExactly(db.version, level, InputEntries(in0, in1), SmallestSnapshot(db), FilesEntries(outputs))
    && db' == db.(version := db'.version, nextFileNumber := db.nextFileNumber + |outputs|)
  }

  ghost predicate Next(db: Db, ops: seq<Op>, step: Step, db': Db, ops': seq<Op>) {
    match step
    case WriteStep(batch) => Writes(db, ops, batch, db', ops')
    case SwitchStep =>
      db.imm.None? && ops' == ops && db' == db.(imm := Some(db.mem), mem := [], nextFileNumber := db.nextFileNumber + 1)
    case FlushStep(level, f) => ops' == ops && Flushes(db, level, f, db')
    case FlushEmptyStep =>
      db.imm == Some([]) && ops' == ops && db' == db.(imm := None, nextFileNumber := db.nextFileNumber + 1)
    case MoveStep(level, f) => ops' == ops && Moves(db, level, f, db')
    case CompactStep(level, in0, in1, outputs) => ops' == ops && Compacts(db, level, in0, in1, outputs, db')
    case TakeSnapshotStep => ops' == ops && db' == db.(snapshots := db.snapshots + [db.lastSequence])
    case ReleaseSnapshotStep(i) =>
      i < |db.snapshots| && ops' == ops && db' == db.(snapshots := db.snapshots[..i] + db.snapshots[i + 1..])
  }

  /** The step does not drop a tombstone over a value that stays at the output level. */
  ghost predicate Harmless(db: Db, step: Step) {
    step.CompactStep? && step.level + 1 < NUM_LEVELS ==>
      forall t, r :: !Resurrects(db.version, step.level, step.in0, step.in1, SmallestSnapshot(db), t, r)
  }

  /** The entries of a write group come after everything else. */
  lemma BatchIsNewest(mem: set<Entry>, older: set<Entry>, batch: seq<Op>, last: nat)
    requires WrittenAfter(mem, older) && forall y :: y in older ==> y.key.seqno <= last
    ensures WrittenAfter(mem + BatchEntries(batch, last, |batch|), older)
  {
    forall x, y | x in mem + BatchEntries(batch, last, |batch|) && y in older ensures x.key.seqno > y.key.seqno {
      assert x in mem || x.key.seqno > last;
    }
  }

  lemma WritesKeepInv(db: Db, ops: seq<Op>, batch: seq<Op>, db': Db)
    requires Inv(db, ops) && Writes(db, ops, batch, db', ops + batch)
    ensures Inv(db', ops + batch)
  {
    var older := ImmEntries(db) + VersionEntries(db.version);
    FloorIsReached(db);
    GroupIsReplayed(AllEntries(db), ops, SmallestSnapshot(db), batch, |batch|);
    assert batch[..|batch|] == batch;
    assert AllEntries(db') == AllEntries(db) + BatchEntries(batch, |ops|, |batch|);
    forall y | y in older ensures y.key.seqno <= |ops| {
      assert y in AllEntries(db);
    }
    BatchIsNewest(Elements(db.mem), older, batch, |ops|);
    FaithfulAbove(AllEntries(db'), ops + batch, SmallestSnapshot(db), SmallestSnapshot(db'));
  }

  lemma SwitchKeepsInv(db: Db, ops: seq<Op>, db': Db)
    requires Structured(db, ops) && Next(db, ops, SwitchStep, db', ops)
    ensures Structured(db', ops) && (Inv(db, ops) ==> Inv(db', ops))
  {
    assert AllEntries(db') == AllEntries(db);
    NumbersBelowMore(db.version, db.nextFileNumber, db'.nextFileNumber);
  }

  lemma NumbersBelowMore(v: Version, n: nat, m: nat)
    requires NumbersBelow(v, n) && n <= m
    ensures NumbersBelow(v, m)
  {
  }

  lemma FlushKeepsStructure(db: Db, ops: seq<Op>, level: nat, f: File, db': Db)
    requires Structured(db, ops) && Flushes(db, level, f, db')
    ensures Structured(db', ops) && AllEntries(db') == AllEntries(db)
  {
    assert ImmEntries(db) == Elements(f.entries);
    HistoryIsUnique(AllEntries(db), ops);
    forall e | e in f.entries ensures e.key.seqno <= MAX_SEQUENCE {
      assert e in AllEntries(db);
    }
    assert ValidFile(f);
    FlushKeepsValid(db.version, level, f, db'.version);
    assert AllEntries(db') == AllEntries(db);
  }

  /** Taking inputs out of a version and putting differently numbered outputs in keeps the file
      numbers distinct. */
  lemma ReplacedNumbers(v: Version, level: nat, in0: Files, in1: Files, outputs: Files, v': Version, n: nat)
    requires level + 1 < NUM_LEVELS && DistinctNumbers(v) && NumbersBelow(v, n)
    requires Replaced(v, level, in0, in1, outputs, v') && Numbered(outputs, n)
    ensures DistinctNumbers(v') && NumbersBelow(v', n + |outputs|)
  {
    forall f | f in outputs ensures n <= f.number < n + |outputs| {
      var i :| 0 <= i < |outputs| && outputs[i] == f;
    }
    forall f, g | f in outputs && g in outputs && f.number == g.number ensures f == g {
      var i :| 0 <= i < |outputs| && outputs[i] == f;
      var j :| 0 <= j < |outputs| && outputs[j] == g;
      assert i == j;
    }
    forall l, f | 0 <= l < NUM_LEVELS && f in v'[l] ensures (l == level + 1 && f in outputs) || f in v[l] {
    }
  }

  lemma MovedNumbers(v: Version, level: nat, f: File, v': Version, n: nat)
    requires level + 1 < NUM_LEVELS && DistinctNumbers(v) && NumbersBelow(v, n) && f in v[level]
    requires Replaced(v, level, [f], [], [f], v')
    ensures DistinctNumbers(v') && NumbersBelow(v', n)
  {
    forall l, g | 0 <= l < NUM_LEVELS && g in v'[l] ensures (l == level + 1 && g == f) || (g in v[l] && !(l == level && g == f)) {
    }
    forall k, l, g, h | 0 <= k < NUM_LEVELS && 0 <= l < NUM_LEVELS && g in v'[k] && h in v'[l] && SameNumber(g, h)
      ensures k == l && g == h
    {
      var k' := if k == level + 1 && g == f then level else k;
      var l' := if l == level + 1 && h == f then level else l;
      assert g in v[k'] && h in v[l'];
    }
  }

  /** A trivial move keeps the version invariant and every entry. */
  lemma MoveKeepsVersion(v: Version, level: nat, f: File, v': Version, n: nat)
    requires Valid(v) && NumbersBelow(v, n) && InputsValid(v, level, [f], []) && Replaced(v, level, [f], [], [f], v')
    ensures Valid(v') && NumbersBelow(v', n) && VersionEntries(v') == VersionEntries(v)
  {
    assert f in [f] && f in v[level];
    assert ValidFile(f);
    assert MadeFrom([f], [], [f]);
    MovedNumbers(v, level, f, v', n);
    ReplacedIsValid(v, level, [f], [], [f], v');
    VersionSplits(v, level, [f], []);
    NewVersionSplits(v, level, [f], [], [f], v');
    assert FilesEntries([]) == {};
  }

  lemma MoveKeepsStructure(db: Db, ops: seq<Op>, level: nat, f: File, db': Db)
    requires Structured(db, ops) && Moves(db, level, f, db')
    ensures Structured(db', ops) && AllEntries(db') == AllEntries(db)
  {
    MoveKeepsVersion(db.version, level, f, db'.version, db.nextFileNumber);
    assert AllEntries(db') == AllEntries(db);
  }

  lemma CompactionKeepsStructure(db: Db, ops: seq<Op>, level: nat, in0: Files, in1: Files, outputs: Files, db': Db)
    requires Structured(db, ops) && Compacts(db, level, in0, in1, outputs, db')
    ensures Structured(db', ops) && VersionEntries(db'.version) <= VersionEntries(db.version)
  {
    ReplacedNumbers(db.version, level, in0, in1, outputs, db'.version, db.nextFileNumber);
    ReplacedIsValid(db.version, level, in0, in1, outputs, db'.version);
    ReplacedEntries(db.version, level, in0, in1, outputs, db'.version);
    assert AllEntries(db') <= AllEntries(db);
  }

  lemma CompactionKeepsInv(db: Db, ops: seq<Op>, level: nat, in0: Files, in1: Files, outputs: Files, db': Db)
    requires Inv(db, ops) && Compacts(db, level, in0, in1, outputs, db')
    requires Harmless(db, CompactStep(level, in0, in1, outputs))
    ensures Inv(db', ops)
  {
    var M := Elements(db.mem) + ImmEntries(db);
    var V, V' := VersionEntries(db.version), VersionEntries(db'.version);
    CompactionKeepsStructure(db, ops, level, in0, in1, outputs, db');
    CompactionPreservesReads(db.version, level, in0, in1, outputs, db'.version, SmallestSnapshot(db));
    HistoryIsUnique(AllEntries(db), ops);
    assert AllEntries(db) == M + V && AllEntries(db') == M + V';
    SameReadsUnderLayer(M, V, V', SmallestSnapshot(db));
    forall user, s | SmallestSnapshot(db) <= s <= |ops| ensures Visible(M + V', user, s) == ReadAt(ops, user, s) {
      assert Visible(M + V, user, s) == Visible(M + V', user, s);
    }
  }

  lemma CompactionKeeps(db: Db, ops: seq<Op>, level: nat, in0: Files, in1: Files, outputs: Files, db': Db)
    requires Structured(db, ops) && Compacts(db, level, in0, in1, outputs, db')
    ensures Structured(db', ops)
    ensures Inv(db, ops) && Harmless(db, CompactStep(level, in0, in1, outputs)) ==> Inv(db', ops)
  {
    CompactionKeepsStructure(db, ops, level, in0, in1, outputs, db');
    if Inv(db, ops) && Harmless(db, CompactStep(level, in0, in1, outputs)) {
      CompactionKeepsInv(db, ops, level, in0, in1, outputs, db');
    }
  }

  /** A step of background work keeps the structure, and what the store promises unless it is
      harmful. */
  ghost predicate Stepped(db: Db, ops: seq<Op>, step: Step, db': Db) {
    && Next(db, ops, step, db', ops)
    && Structured(db', ops)
    && (Inv(db, ops) && Harmless(db, step) ==> Inv(db', ops))
  }

  lemma BackgroundSteps(db: Db, ops: seq<Op>, step: Step, db': Db)
    requires Structured(db, ops) && Next(db, ops, step, db', ops)
    requires step.FlushStep? || step.FlushEmptyStep? || step.MoveStep? || step.CompactStep?
    ensures Stepped(db, ops, step, db')
  {
    match step
    case FlushStep(level, f) => FlushKeepsStructure(db, ops, level, f, db');
    case FlushEmptyStep =>
      assert AllEntries(db') == AllEntries(db);
      NumbersBelowMore(db.version, db.nextFileNumber, db'.nextFileNumber);
    case MoveStep(level, f) => MoveKeepsStructure(db, ops, level, f, db');
    case CompactStep(level, in0, in1, outputs) => CompactionKeeps(db, ops, level, in0, in1, outputs, db');
    case _ =>
  }

  /** Compactions whose parents are completed with their boundary files are never harmful, so that
      for a store that makes only such compactions every run is one of harmless steps. */
  lemma CompletedParentsAreHarmless(db: Db, ops: seq<Op>, level: nat, in0: Files, base1: Files, added: Files, outputs: Files, db': Db)
    requires Inv(db, ops) && Completed(db.version, level, in0) && CompletedParents(db.version, level, in0, base1, added)
    requires Compacts(db, level, in0, base1 + added, outputs, db')
    ensures Harmless(db, CompactStep(level, in0, base1 + added, outputs)) && Inv(db', ops)
  {
    BoundaryClosedParentsAreSafe(db.version, level, in0, base1, added, SmallestSnapshot(db));
    CompactionKeeps(db, ops, level, in0, base1 + added, outputs, db');
  }

  lemma ReleasedInOrder(snapshots: seq<nat>, i: nat, last: nat)
    requires SnapshotsInOrder(snapshots, last) && i < |snapshots|
    ensures SnapshotsInOrder(snapshots[..i] + snapshots[i + 1..], last)
    ensures forall s :: s in snapshots[..i] + snapshots[i + 1..] ==> s in snapshots
  {
    var r := snapshots[..i] + snapshots[i + 1..];
    forall s | s in r ensures s in snapshots {
      var k :| 0 <= k < |r| && r[k] == s;
      assert s == snapshots[if k < i then k else k + 1];
    }
    forall j, k | 0 <= j < k < |r| ensures r[j] <= r[k] {
      var j', k' := if j < i then j else j + 1, if k < i then k else k + 1;
      assert r[j] == snapshots[j'] && r[k] == snapshots[k'];
    }
  }

  lemma TakenInOrder(snapshots: seq<nat>, last: nat)
    requires SnapshotsInOrder(snapshots, last)
    ensures SnapshotsInOrder(snapshots + [last], last)
  {
    forall i, j | 0 <= i < j < |snapshots| + 1 ensures (snapshots + [last])[i] <= (snapshots + [last])[j] {
      assert snapshots[i] in snapshots;
    }
  }

  lemma SnapshotStepsKeepInv(db: Db, ops: seq<Op>, step: Step, db': Db)
    requires Inv(db, ops) && Next(db, ops, step, db', ops)
    requires step.TakeSnapshotStep? || step.ReleaseSnapshotStep?
    ensures Inv(db', ops)
  {
    FloorIsReached(db);
    if step.TakeSnapshotStep? {
      TakenInOrder(db.snapshots, db.lastSequence);
    } else {
      ReleasedInOrder(db.snapshots, step.index, db.lastSequence);
    }
    assert AllEntries(db') == AllEntries(db);
    assert db'.snapshots != [] ==> db'.snapshots[0] in db'.snapshots;
    FaithfulAbove(AllEntries(db), ops, SmallestSnapshot(db), SmallestSnapshot(db'));
  }

  /** Every harmless step keeps the invariant. */
  lemma StepKeepsInv(db: Db, ops: seq<Op>, step: Step, db': Db, ops': seq<Op>)
    requires Inv(db, ops) && Next(db, ops, step, db', ops') && Harmless(db, step)
    ensures Inv(db', ops') && ops <= ops'
  {
    match step
    case WriteStep(batch) =>
      WritesKeepInv(db, ops, batch, db');
    case SwitchStep => SwitchKeepsInv(db, ops, db');
    case FlushStep(level, f) => FlushKeepsStructure(db, ops, level, f, db');
    case FlushEmptyStep =>
      assert AllEntries(db') == AllEntries(db);
      NumbersBelowMore(db.version, db.nextFileNumber, db'.nextFileNumber);
    case MoveStep(level, f) => MoveKeepsStructure(db, ops, level, f, db');
    case CompactStep(level, in0, in1, outputs) => CompactionKeepsInv(db, ops, level, in0, in1, outputs, db');
    case TakeSnapshotStep => SnapshotStepsKeepInv(db, ops, step, db');
    case ReleaseSnapshotStep(_) => SnapshotStepsKeepInv(db, ops, step, db');
  }

  // ---------------------------------------------------------------- runs

  datatype Moment = Moment(db: Db, ops: seq<Op>)

  ghost predicate Run(trace: seq<Moment>, steps: seq<Step>) {
    && |trace| == |steps| + 1
    && trace[0] == Moment(EMPTY_DB, [])
    && forall i {:trigger steps[i]} :: 0 <= i < |steps| ==>
         Next(trace[i].db, trace[i].ops, steps[i], trace[i + 1].db, trace[i + 1].ops) && Harmless(trace[i].db, steps[i])
  }

  lemma EmptyRun()
    ensures Run([Moment(EMPTY_DB, [])], [])
  {
  }

  lemma EmptyDbInv()
    ensures Inv(EMPTY_DB, [])
  {
    assert VersionEntries(EMPTY_DB.version) == {};
    assert AllEntries(EMPTY_DB) == {};
    forall user, s | 0 <= s <= 0 ensures Visible({}, user, s) == ReadAt([], user, s) {
      VisibleNone({}, user, s);
    }
  }

  lemma {:induction false} RunKeepsInv(trace: seq<Moment>, steps: seq<Step>, i: nat, j: nat)
    requires Run(trace, steps) && i <= j < |trace|
    ensures Inv(trace[j].db, trace[j].ops) && trace[i].ops <= trace[j].ops
    decreases j
  {
    if j == 0 {
      EmptyDbInv();
    } else {
      RunKeepsInv(trace, steps, if i < j then i else j - 1, j - 1);
      StepKeepsInv(trace[j - 1].db, trace[j - 1].ops, steps[j - 1], trace[j].db, trace[j].ops);
    }
  }

  /** Over every run, a read at a live snapshot returns what replaying the operations up to it
      returns; and a snapshot reads the same at every moment of the run at which it is live. */
  lemma ReadsFollowHistory(trace: seq<Moment>, steps: seq<Step>, i: nat, j: nat, user: UserKey, s: nat)
    requires Run(trace, steps) && i <= j < |trace|
    requires s in trace[j].db.snapshots || s == trace[j].db.lastSequence
    ensures s <= |trace[j].ops| && Visible(AllEntries(trace[j].db), user, s) == ReadAt(trace[j].ops, user, s)
    ensures s in trace[i].db.snapshots || s == trace[i].db.lastSequence ==>
      Visible(AllEntries(trace[i].db), user, s) == Visible(AllEntries(trace[j].db), user, s)
  {
    RunKeepsInv(trace, steps, i, j);
    RunKeepsInv(trace, steps, i, i);
    FloorIsReached(trace[j].db);
    FloorIsReached(trace[i].db);
    if s <= |trace[i].ops| {
      var more := trace[j].ops[|trace[i].ops|..];
      assert trace[j].ops == trace[i].ops + more;
      ReadAtIsStable(trace[i].ops, more, user, s);
    }
  }
}

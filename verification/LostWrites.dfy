/**
 Why a crash may take operations from the middle of the history: recovery replays each log up to the
 first group that is broken, and goes on with the next log (DBImpl::Recover in db/db_impl.cc:349-361).
 */
module LostWrites {
  import opened Wrappers
  import opened DbFormat
  import opened Tables
  import opened Versions
  import opened Coding
  import opened LogFormat
  import opened WriteBatches
  import opened GroupCommit
  import opened History
  import opened Store
  import opened CrashRecovery
  import opened LogRecovery
  import opened Disk

  // ---------------------------------------------------------------- exactly when

  /** The older log has lost groups and the younger one has not lost all. */
  ghost predicate LosesFromTheMiddle(w: World, left: map<nat, Bytes>)
    requires CanCrash(w, left)
  {
    w.s.db.imm.Some? &&
      var older, current := PartsLeft(w, left)[0], PartsLeft(w, left)[1];
      && ReachedIn(older.log, older.from, |older.left|) < w.s.switched
      && WholeRecords(current.log, |current.left|, |current.log.groups|) > 0
  }

  /** What comes back is a beginning of the history, unless the older log is broken and something of
      the younger one is whole. */
  lemma LossIsATail(w: World, left: map<nat, Bytes>, c: Setting)
    requires Recoverable(w, c) && LeavesLogs(w.disk, left)
    ensures CanCrash(w, left)
    ensures BroughtBack(w.s.ops, w.s.flushed, PartsLeft(w, left)) <= w.s.ops <==> !LosesFromTheMiddle(w, left)
  {
    PartsLeftChain(w, left, c);
    var parts, ops, flushed := PartsLeft(w, left), w.s.ops, w.s.flushed;
    assert PartOf(parts[0], c.extend, c.reading, ops);
    FirstPartIsPrefix(parts[0], c, ops, flushed);
    if w.s.db.imm.Some? {
      assert PartOf(parts[1], c.extend, c.reading, ops);
      assert parts == [parts[0], parts[1]];
      BroughtBackOfTwo(ops, flushed, parts[0], parts[1]);
      SecondPartIsPrefix(parts[0], parts[1], c, ops, WithPart(ops[..flushed], ops, parts[0]));
    } else {
      assert parts == [parts[0]];
      BroughtBackOfOne(ops, flushed, parts[0]);
    }
  }

  lemma BroughtBackOfOne(ops: seq<Op>, flushed: nat, p: Part)
    requires flushed <= |ops| && |p.log.ends| == |p.log.groups| + 1
    ensures EndsMatch([p]) && BroughtBack(ops, flushed, [p]) == WithPart(ops[..flushed], ops, p)
  {
    assert [p][..0] == [];
  }

  lemma BroughtBackOfTwo(ops: seq<Op>, flushed: nat, p: Part, q: Part)
    requires flushed <= |ops| && |p.log.ends| == |p.log.groups| + 1 && |q.log.ends| == |q.log.groups| + 1
    ensures EndsMatch([p, q]) && BroughtBack(ops, flushed, [p, q]) == WithPart(WithPart(ops[..flushed], ops, p), ops, q)
  {
    BroughtBackOfOne(ops, flushed, p);
    assert [p, q][..1] == [p];
  }

  lemma FirstPartIsPrefix(p: Part, c: Setting, ops: seq<Op>, flushed: nat)
    requires PartOf(p, c.extend, c.reading, ops) && p.from == flushed
    ensures |p.log.ends| == |p.log.groups| + 1 && flushed <= ReachedIn(p.log, p.from, |p.left|) <= p.upto <= |ops|
    ensures WithPart(ops[..flushed], ops, p) == ops[..ReachedIn(p.log, p.from, |p.left|)]
  {
    PartReaches(p, c.extend, c.reading, ops);
  }

  lemma SecondPartIsPrefix(p: Part, q: Part, c: Setting, ops: seq<Op>, kept: seq<Op>)
    requires PartOf(p, c.extend, c.reading, ops) && PartOf(q, c.extend, c.reading, ops) && p.upto == q.from
    requires |p.log.ends| == |p.log.groups| + 1 && p.from <= ReachedIn(p.log, p.from, |p.left|) <= |ops|
    requires kept == ops[..ReachedIn(p.log, p.from, |p.left|)]
    ensures |q.log.ends| == |q.log.groups| + 1
    ensures WithPart(kept, ops, q) <= ops <==>
      ReachedIn(p.log, p.from, |p.left|) == p.upto || WholeRecords(q.log, |q.left|, |q.log.groups|) == 0
  {
    var a := ReachedIn(p.log, p.from, |p.left|);
    PartReaches(p, c.extend, c.reading, ops);
    PartReaches(q, c.extend, c.reading, ops);
    if a < p.upto {
      LoggedIsNotLost(p, c.extend, c.reading, ops, a);
      if WholeRecords(q.log, |q.left|, |q.log.groups|) > 0 {
        assert WithPart(kept, ops, q)[a] == Lost;
      }
    }
  }

  // ---------------------------------------------------------------- a life that comes to it

  /** Two puts in write groups of their own, with a switch of memtables in between. */
  const ONE: Update := WriteBatches.Put([], [])
  const TWO: Update := WriteBatches.Put([0], [])

  function RecordOf(first: nat, u: Update): Bytes
    requires first < TWO_64
  {
    EncodeFixed64(first) + EncodeFixed32(1) + UpdatesBytes([u])
  }

  function LogWith(extend: Extend, first: nat, u: Update): LogFile
    requires first < TWO_64 && |RecordOf(first, u)| < 0x1_0000
  {
    var record := RecordOf(first, u);
    LogFile(Physical(extend, FULL_TYPE, record), [record], [0, HEADER_SIZE + |record|], [[u]])
  }

  lemma SmallRecord(first: nat, u: Update)
    requires first < TWO_64 && u.Put? && |u.key| <= 1 && u.value == []
    ensures |RecordOf(first, u)| < 100 && Represents(RecordOf(first, u), first, [u])
  {
    assert Parts([u]) == [UpdateBytes(u)];
    ConcatAllOne(UpdateBytes(u));
    VarintRanges();
    assert Encodable(u);
  }

  lemma SmallLog(c: Setting, first: nat, u: Update)
    requires first < TWO_64 && u.Put? && |u.key| <= 1 && u.value == []
    ensures |RecordOf(first, u)| < 100
    ensures GroupAppended(EMPTY_LOG, c, first, [OpOf(u, c.reading)], LogWith(c.extend, first, u))
  {
    SmallRecord(first, u);
    var record := RecordOf(first, u);
    var bytes := Physical(c.extend, FULL_TYPE, record);
    assert FragmentSize(0, |record|) == |record| && record[..|record|] == record;
    assert Has(bytes, 0, Zeros(0)) && Has(bytes, 0, bytes);
    assert Laid(c.extend, bytes, 0, record, true, |bytes|);
    assert OpsOf([u], c.reading) == [OpOf(u, c.reading)];
  }

  function FirstOp(c: Setting): Write { OpOf(ONE, c.reading) }

  function SecondOp(c: Setting): Write { OpOf(TWO, c.reading) }

  function Entry1(c: Setting): Entry { OpEntry(FirstOp(c), 1) }

  function Entry2(c: Setting): Entry { OpEntry(SecondOp(c), 2) }

  ghost function World1(c: Setting): World
    requires |RecordOf(1, ONE)| < 100
  {
    World(Situation(Db([Entry1(c)], None, EMPTY_VERSION, 1, [], 2), [FirstOp(c)], 0, 0),
          DISK_AT_FIRST.(logs := map[1 := LogWith(c.extend, 1, ONE)]))
  }

  ghost function World2(c: Setting): World
    requires |RecordOf(1, ONE)| < 100
  {
    World(Situation(Db([], Some([Entry1(c)]), EMPTY_VERSION, 1, [], 3), [FirstOp(c)], 0, 1),
          Disk([NEW_DB], map[1 := LogWith(c.extend, 1, ONE), 2 := EMPTY_LOG], 2, 1))
  }

  ghost function World3(c: Setting): World
    requires |RecordOf(1, ONE)| < 100 && |RecordOf(2, TWO)| < 100
  {
    World(Situation(Db([Entry2(c)], Some([Entry1(c)]), EMPTY_VERSION, 2, [], 3), [FirstOp(c), SecondOp(c)], 0, 1),
          Disk([NEW_DB], map[1 := LogWith(c.extend, 1, ONE), 2 := LogWith(c.extend, 2, TWO)], 2, 1))
  }

  lemma OneEntry(op: Write, last: nat)
    ensures BatchEntries([op], last, 1) == {OpEntry(op, last + 1)} && Elements([OpEntry(op, last + 1)]) == {OpEntry(op, last + 1)}
  {
    BatchEntriesStep([op], last, 0);
    assert OpEntry(op, last + 1) in [OpEntry(op, last + 1)];
  }

  lemma FirstWrite(c: Setting)
    ensures |RecordOf(1, ONE)| < 100
    ensures DiskHappens(World(AT_FIRST, DISK_AT_FIRST), Ran(WriteStep([FirstOp(c)])), World1(c), c)
  {
    SmallLog(c, 1, ONE);
    OneEntry(FirstOp(c), 0);
    assert [] + [FirstOp(c)] == [FirstOp(c)];
  }

  lemma SwitchBetween(c: Setting)
    requires |RecordOf(1, ONE)| < 100
    ensures DiskHappens(World1(c), Ran(SwitchStep), World2(c), c)
  {
  }

  lemma SecondWrite(c: Setting)
    requires |RecordOf(1, ONE)| < 100
    ensures |RecordOf(2, TWO)| < 100
    ensures DiskHappens(World2(c), Ran(WriteStep([SecondOp(c)])), World3(c), c)
  {
    SmallLog(c, 2, TWO);
    OneEntry(SecondOp(c), 1);
    assert [FirstOp(c)] + [SecondOp(c)] == [FirstOp(c), SecondOp(c)];
  }

  lemma ThreeSteps(c: Setting) returns (trace: seq<World>, events: seq<DiskEvent>)
    requires Continues(c.extend)
    ensures |RecordOf(1, ONE)| < 100 && |RecordOf(2, TWO)| < 100
    ensures DiskLife(trace, events, c) && |events| == 3 && trace[3] == World3(c)
  {
    FirstWrite(c);
    SwitchBetween(c);
    SecondWrite(c);
    trace, events := [World(AT_FIRST, DISK_AT_FIRST)], [];
    trace, events := OneMoreEvent(trace, events, c, Ran(WriteStep([FirstOp(c)])), World1(c));
    trace, events := OneMoreEvent(trace, events, c, Ran(SwitchStep), World2(c));
    trace, events := OneMoreEvent(trace, events, c, Ran(WriteStep([SecondOp(c)])), World3(c));
  }

  lemma OneMoreEvent(trace: seq<World>, events: seq<DiskEvent>, c: Setting, event: DiskEvent, w: World)
    returns (trace': seq<World>, events': seq<DiskEvent>)
    requires DiskLife(trace, events, c) && DiskHappens(trace[|events|], event, w, c)
    ensures DiskLife(trace', events', c) && |events'| == |events| + 1 && trace'[|events'|] == w
  {
    trace', events' := trace + [w], events + [event];
  }

  lemma WholeOrNot(c: Setting, first: nat, u: Update)
    requires 0 < first < TWO_64 && |RecordOf(first, u)| < 100
    ensures var f := LogWith(c.extend, first, u);
      && WholeRecords(f, 0, 1) == 0 && ReachedIn(f, first - 1, 0) == first - 1
      && WholeRecords(f, |f.bytes|, 1) == 1 && ReachedIn(f, first - 1, |f.bytes|) == first
  {
    assert Committed([[u]], 0) == [] && Committed([[u]], 1) == [u];
  }

  /** In a life of three steps, a crash that leaves nothing of the older log and all of the younger
      one loses the first operation and keeps the second. */
  lemma LaterWriteOutlivesEarlier(c: Setting) returns (trace: seq<World>, events: seq<DiskEvent>, left: map<nat, Bytes>)
    requires Continues(c.extend)
    ensures DiskLife(trace, events, c) && |events| == 3
    ensures CanCrash(trace[3], left) && LosesFromTheMiddle(trace[3], left)
    ensures |trace[3].s.ops| == 2
    ensures !There(KeptOps(trace[3], left), trace[3].s.ops, 0) && There(KeptOps(trace[3], left), trace[3].s.ops, 1)
  {
    trace, events := ThreeSteps(c);
    LifeIsRecoverable(trace, events, c, 3);
    left := map[1 := [], 2 := LogWith(c.extend, 2, TWO).bytes];
    FirstIsLost(c, left);
  }

  lemma FirstIsLost(c: Setting, left: map<nat, Bytes>)
    requires |RecordOf(1, ONE)| < 100 && |RecordOf(2, TWO)| < 100 && Recoverable(World3(c), c)
    requires left == map[1 := [], 2 := LogWith(c.extend, 2, TWO).bytes]
    ensures CanCrash(World3(c), left) && LosesFromTheMiddle(World3(c), left)
    ensures !There(KeptOps(World3(c), left), World3(c).s.ops, 0) && There(KeptOps(World3(c), left), World3(c).s.ops, 1)
  {
    WholeOrNot(c, 1, ONE);
    WholeOrNot(c, 2, TWO);
    assert LeavesLogs(World3(c).disk, left);
    CrashLosesBrokenGroups(World3(c), left, c, 0, 0);
    CrashLosesBrokenGroups(World3(c), left, c, 1, 1);
  }
}

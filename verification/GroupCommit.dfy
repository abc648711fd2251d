/**
 Group commit and recovery: the front writer of the queue commits for those behind it, one log
 record a group, and the log brings back whole groups (DBImpl::Write, BuildBatchGroup and
 RecoverLogFile in db/db_impl.cc).
 */
module GroupCommit {
  import opened Wrappers
  import opened Coding
  import opened WriteBatches
  import opened LogFormat
  import LogWriter
  import LogReader

  /** A writer that waits in the queue; without a batch it only wants the memtable switched. */
  datatype Waiter = Waiter(batch: Option<Bytes>, sync: bool)

  const MAX_GROUP: nat := 0x10_0000
  const SMALL_GROUP: nat := 0x2_0000

  ghost predicate IsBatch(rep: Bytes, us: seq<Update>) {
    exists s {:trigger Represents(rep, s, us)} :: Represents(rep, s, us)
  }

  /** The updates a waiter wants written. */
  ghost predicate Wants(w: Waiter, us: seq<Update>) {
    match w.batch
    case Some(rep) => IsBatch(rep, us)
    case None => us == []
  }

  function ByteSize(w: Waiter): nat {
    match w.batch
    case Some(rep) => |rep|
    case None => 0
  }

  function GroupSize(writers: seq<Waiter>, n: nat): nat
    requires n <= |writers|
  {
    if n == 0 then 0 else GroupSize(writers, n - 1) + ByteSize(writers[n - 1])
  }

  function GroupLimit(first: Waiter): nat {
    if ByteSize(first) <= SMALL_GROUP then ByteSize(first) + SMALL_GROUP else MAX_GROUP
  }

  /** Writer `j` may join the group of those before it. */
  predicate MayJoin(writers: seq<Waiter>, j: nat)
    requires 0 < j < |writers|
  {
    && !(writers[j].sync && !writers[0].sync)
    && (writers[j].batch.Some? ==> GroupSize(writers, j + 1) <= GroupLimit(writers[0]))
  }

  /** The group is the longest run of writers from the front that may all join. */
  ghost predicate IsGroup(writers: seq<Waiter>, last: nat) {
    && last < |writers|
    && (forall j {:trigger MayJoin(writers, j)} :: 0 < j <= last ==> MayJoin(writers, j))
    && (last + 1 < |writers| ==> !MayJoin(writers, last + 1))
  }

  ghost predicate AllWant(writers: seq<Waiter>, wanted: seq<seq<Update>>) {
    |wanted| == |writers| && forall i {:trigger Wants(writers[i], wanted[i])} :: 0 <= i < |writers| ==> Wants(writers[i], wanted[i])
  }

  lemma RestWant(writers: seq<Waiter>, wanted: seq<seq<Update>>, n: nat)
    requires AllWant(writers, wanted) && n <= |writers|
    ensures AllWant(writers[n..], wanted[n..])
  {
    forall i | 0 <= i < |writers| - n ensures Wants(writers[n..][i], wanted[n..][i]) {
      assert Wants(writers[n + i], wanted[n + i]);
    }
  }

  lemma BatchCount(rep: Bytes, us: seq<Update>)
    requires IsBatch(rep, us)
    ensures |us| + HEADER <= |rep|
  {
    UpdatesTakeBytes(us);
  }

  /** The first batch that joins moves the group to the temporary batch, so as not to disturb the
      caller's. */
  method AppendToGroup(tmp: WriteBatch, group: Bytes, inTmp: bool, rep: Bytes, ghost us: seq<Update>, ghost vs: seq<Update>)
    returns (group': Bytes)
    requires IsBatch(group, us) && IsBatch(rep, vs) && |us| + |vs| <= MAX_COUNT
    requires if inTmp then tmp.rep == group else Represents(tmp.rep, 0, [])
    modifies tmp
    ensures tmp.rep == group' && IsBatch(group', us + vs) && |group'| == |group| + |rep| - HEADER
  {
    ghost var s :| Represents(group, s, us);
    ghost var t :| Represents(rep, t, vs);
    if !inTmp {
      tmp.Append(group, 0, [], s, us);
      assert [] + us == us;
      s := 0;
    }
    tmp.Append(rep, s, us, t, vs);
    group' := tmp.rep;
  }

  /** `group` holds the batches of the writers up to `last`. */
  ghost predicate GroupUpTo(writers: seq<Waiter>, wanted: seq<seq<Update>>, last: nat, group: Bytes, size: nat) {
    && last < |writers| && |wanted| == |writers|
    && (forall k {:trigger MayJoin(writers, k)} :: 0 < k <= last ==> MayJoin(writers, k))
    && |group| <= size == GroupSize(writers, last + 1)
    && IsBatch(group, ConcatAll(wanted[..last + 1]))
  }

  lemma FrontGroup(writers: seq<Waiter>, wanted: seq<seq<Update>>)
    requires writers != [] && writers[0].batch.Some? && AllWant(writers, wanted)
    ensures GroupUpTo(writers, wanted, 0, writers[0].batch.value, |writers[0].batch.value|)
  {
    assert Wants(writers[0], wanted[0]);
    assert wanted[..1] == [wanted[0]];
    ConcatAllOne(wanted[0]);
    assert GroupSize(writers, 0) == 0;
  }

  lemma NextConcat(wanted: seq<seq<Update>>, n: nat)
    requires n < |wanted|
    ensures ConcatAll(wanted[..n + 1]) == ConcatAll(wanted[..n]) + wanted[n]
  {
    assert wanted[..n + 1] == wanted[..n] + [wanted[n]];
    ConcatAllSnoc(wanted[..n], wanted[n]);
  }

  /** One round of BuildBatchGroup: the next writer joins, or the group is complete. */
  method Consider(writers: seq<Waiter>, ghost wanted: seq<seq<Update>>, last: nat, group: Bytes, size: nat, maxSize: nat, tmp: WriteBatch, inTmp: bool)
    returns (joined: bool, group': Bytes, size': nat, inTmp': bool)
    requires AllWant(writers, wanted) && GroupUpTo(writers, wanted, last, group, size) && last + 1 < |writers|
    requires maxSize == GroupLimit(writers[0])
    requires if inTmp then tmp.rep == group else Represents(tmp.rep, 0, [])
    modifies tmp
    ensures joined ==> GroupUpTo(writers, wanted, last + 1, group', size')
    ensures joined ==> if inTmp' then tmp.rep == group' else Represents(tmp.rep, 0, [])
    ensures !joined ==> !MayJoin(writers, last + 1) && group' == group
  {
    joined, group', size', inTmp' := false, group, size, inTmp;
    var w := writers[last + 1];
    ghost var us, vs := ConcatAll(wanted[..last + 1]), wanted[last + 1];
    assert Wants(w, vs);
    if w.sync && !writers[0].sync {
      return;
    }
    if w.batch.Some? {
      size' := size' + |w.batch.value|;
      if size' > maxSize {
        return;
      }
      BatchCount(group, us);
      BatchCount(w.batch.value, vs);
      group' := AppendToGroup(tmp, group, inTmp, w.batch.value, us, vs);
      inTmp' := true;
    }
    joined := true;
    Joins(writers, wanted, last, group, size, group');
  }

  /** A writer that may join, with its updates behind those of the group, joins it. */
  lemma Joins(writers: seq<Waiter>, wanted: seq<seq<Update>>, last: nat, group: Bytes, size: nat, group': Bytes)
    requires AllWant(writers, wanted) && GroupUpTo(writers, wanted, last, group, size) && last + 1 < |writers| && MayJoin(writers, last + 1)
    requires if writers[last + 1].batch.Some? then IsBatch(group', ConcatAll(wanted[..last + 1]) + wanted[last + 1]) else group' == group
    requires |group'| <= size + ByteSize(writers[last + 1])
    ensures GroupUpTo(writers, wanted, last + 1, group', size + ByteSize(writers[last + 1]))
  {
    NextConcat(wanted, last + 1);
    assert Wants(writers[last + 1], wanted[last + 1]);
    assert ConcatAll(wanted[..last + 1]) + [] == ConcatAll(wanted[..last + 1]);
  }

  /** DBImpl::BuildBatchGroup. */
  method BuildBatchGroup(writers: seq<Waiter>, ghost wanted: seq<seq<Update>>) returns (group: Bytes, last: nat)
    requires writers != [] && writers[0].batch.Some? && AllWant(writers, wanted)
    ensures IsGroup(writers, last)
    ensures IsBatch(group, ConcatAll(wanted[..last + 1]))
  {
    var size: nat := |writers[0].batch.value|;
    var maxSize := MAX_GROUP;
    if size <= SMALL_GROUP {
      maxSize := size + SMALL_GROUP;
    }
    group := writers[0].batch.value;
    last := 0;
    var tmp := new WriteBatch();
    var inTmp, joined := false, true;
    FrontGroup(writers, wanted);
    while joined && last + 1 < |writers|
      invariant fresh(tmp) && last < |writers|
      invariant joined ==> GroupUpTo(writers, wanted, last, group, size)
      invariant joined ==> if inTmp then tmp.rep == group else Represents(tmp.rep, 0, [])
      invariant !joined ==> IsGroup(writers, last) && IsBatch(group, ConcatAll(wanted[..last + 1]))
      decreases joined, |writers| - last
    {
      joined, group, size, inTmp := Consider(writers, wanted, last, group, size, maxSize, tmp, inTmp);
      if joined {
        last := last + 1;
      }
    }
  }

  // ---------------------------------------------------------------- the queue

  /** All updates of the groups, in order. */
  ghost function Committed(groups: seq<seq<Update>>, n: nat): seq<Update>
    requires n <= |groups|
  {
    if n == 0 then [] else Committed(groups, n - 1) + groups[n - 1]
  }

  /** The sequence number that group `i` starts with; the log was begun after sequence `base`. */
  ghost function FirstOf(base: nat, groups: seq<seq<Update>>, i: nat): nat
    requires i <= |groups|
  {
    base + 1 + |Committed(groups, i)|
  }

  /** Record `i` of the log is group `i`, numbered after all earlier updates. */
  ghost predicate GroupRecord(records: seq<Bytes>, base: nat, groups: seq<seq<Update>>, i: nat)
    requires i < |records| && i < |groups|
  {
    Represents(records[i], FirstOf(base, groups, i), groups[i])
  }

  ghost predicate LogsGroups(records: seq<Bytes>, base: nat, groups: seq<seq<Update>>) {
    && |records| == |groups|
    && forall i {:trigger GroupRecord(records, base, groups, i)} :: 0 <= i < |groups| ==> GroupRecord(records, base, groups, i)
  }

  lemma {:induction false} CommittedPrefix(groups: seq<seq<Update>>, more: seq<seq<Update>>, n: nat)
    requires n <= |groups|
    ensures Committed(groups + more, n) == Committed(groups, n)
  {
    if n > 0 { CommittedPrefix(groups, more, n - 1); }
  }

  lemma CommittedSnoc(groups: seq<seq<Update>>, g: seq<Update>)
    ensures Committed(groups + [g], |groups| + 1) == Committed(groups, |groups|) + g
  {
    CommittedPrefix(groups, [g], |groups|);
  }

  lemma LogsOneMore(records: seq<Bytes>, base: nat, groups: seq<seq<Update>>, record: Bytes, g: seq<Update>)
    requires LogsGroups(records, base, groups) && Represents(record, FirstOf(base, groups, |groups|), g)
    ensures LogsGroups(records + [record], base, groups + [g])
  {
    forall i | 0 <= i < |groups| + 1 ensures GroupRecord(records + [record], base, groups + [g], i) {
      CommittedPrefix(groups, [g], i);
      if i < |groups| { assert GroupRecord(records, base, groups, i); }
    }
  }

  lemma NumberedConcat(first: nat, us: seq<Update>, vs: seq<Update>)
    ensures Numbered(first, us + vs) == Numbered(first, us) + Numbered(first + |us|, vs)
  {
  }

  /** The log, the memtable and the last sequence number agree. */
  ghost predicate Consistent(records: seq<Bytes>, base: nat, groups: seq<seq<Update>>, lastSequence: nat, mem: seq<(nat, Update)>) {
    && LogsGroups(records, base, groups)
    && lastSequence + 1 == FirstOf(base, groups, |groups|)
    && mem == Numbered(base + 1, Committed(groups, |groups|))
  }

  class WriteQueue {
    const log: LogWriter.Writer
    /** The last sequence number before the log and the memtable were begun. */
    const base: nat
    var writers: seq<Waiter>
    /** Every update inserted since then, with its sequence number. */
    var mem: seq<(nat, Update)>
    var lastSequence: nat
    ghost var wanted: seq<seq<Update>>
    /** The groups committed so far. */
    ghost var groups: seq<seq<Update>>

    ghost predicate Valid()
      reads this, log
    {
      && AllWant(writers, wanted)
      && log.Valid() && Consistent(log.records, base, groups, lastSequence, mem)
    }

    constructor (log: LogWriter.Writer, base: nat)
      requires log.Valid() && log.records == []
      ensures Valid() && this.log == log && this.base == base && writers == [] && groups == []
    {
      this.log, this.base, writers, mem, lastSequence := log, base, [], [], base;
      wanted, groups := [], [];
    }

    /** A writer joins the end of the queue. */
    method Enqueue(w: Waiter, ghost us: seq<Update>)
      requires Valid() && Wants(w, us)
      modifies this`writers, this`wanted
      ensures Valid() && writers == old(writers) + [w] && wanted == old(wanted) + [us]
    {
      writers := writers + [w];
      wanted := wanted + [us];
    }

    /** The front writer's turn in DBImpl::Write: it commits a group and takes it off the queue. */
    method CommitFront() returns (ghost last: nat)
      requires Valid() && writers != [] && lastSequence + MAX_COUNT + 1 < TWO_64
      modifies this, log
      ensures Valid()
      ensures old(writers[0]).batch.None? ==>
        groups == old(groups) && writers == old(writers)[1..] && log.dest == old(log.dest)
      ensures old(writers[0]).batch.Some? ==> IsGroup(old(writers), last)
      ensures old(writers[0]).batch.Some? ==> groups == old(groups) + [ConcatAll(old(wanted)[..last + 1])]
      ensures old(writers[0]).batch.Some? ==> writers == old(writers)[last + 1..] && wanted == old(wanted)[last + 1..]
      ensures old(log.dest) <= log.dest && old(log.records) <= log.records
      ensures old(writers[0]).batch.Some? ==> log.ends == old(log.ends) + [|log.dest|]
    {
      if writers[0].batch.None? {
        Leave(1);
        return 0;
      }
      var group, lastWriter := BuildBatchGroup(writers, wanted);
      last := lastWriter;
      CommitGroup(group, ConcatAll(wanted[..last + 1]));
      Leave(lastWriter + 1);
    }

    /** The first writers leave the queue. */
    method Leave(n: nat)
      requires Valid() && n <= |writers|
      modifies this`writers, this`wanted
      ensures Valid() && writers == old(writers)[n..] && wanted == old(wanted)[n..]
    {
      RestWant(writers, wanted, n);
      writers, wanted := writers[n..], wanted[n..];
    }

    /** The group gets its sequence numbers, goes to the log, and then into the memtable. */
    method CommitGroup(group: Bytes, ghost us: seq<Update>)
      requires Valid() && IsBatch(group, us) && lastSequence + MAX_COUNT + 1 < TWO_64
      modifies this`mem, this`lastSequence, this`groups, log
      ensures Valid() && groups == old(groups) + [us] && old(log.dest) <= log.dest
      ensures old(log.records) <= log.records && log.ends == old(log.ends) + [|log.dest|]
    {
      var record, count := PrepareGroup(group, lastSequence, us, log.records, base, groups, mem);
      log.AddRecord(record);
      InsertGroup(record, count, us);
    }

    /** The memtable and the last sequence number follow the log. */
    method InsertGroup(record: Bytes, count: nat, ghost us: seq<Update>)
      requires log.Valid() && AllWant(writers, wanted)
      requires Inserted(record) == Numbered(lastSequence + 1, us) && count == |us|
      requires Consistent(log.records, base, groups + [us], lastSequence + |us|, mem + Numbered(lastSequence + 1, us))
      modifies this`mem, this`lastSequence, this`groups
      ensures Valid() && groups == old(groups) + [us]
    {
      var status;
      status, mem := InsertInto(record, mem);
      lastSequence := lastSequence + count;
      groups := groups + [us];
    }
  }

  /** The batch of the group gets its first sequence number. */
  method NumberGroup(group: Bytes, sequence: nat, ghost us: seq<Update>) returns (record: Bytes, count: nat)
    requires IsBatch(group, us) && sequence < TWO_64
    ensures Represents(record, sequence, us) && count == |us| && Inserted(record) == Numbered(sequence, us)
  {
    var updates := new WriteBatch();
    updates.rep := group;
    updates.SetSequence(sequence);
    record := updates.rep;
    RepresentsNumbers(record, sequence, us);
    BatchRoundTrip(record, sequence, us);
    count := updates.Count();
  }

  /** The record of a group and what it will do. */
  method PrepareGroup(group: Bytes, last: nat, ghost us: seq<Update>, ghost records: seq<Bytes>, ghost base: nat,
                      ghost groups: seq<seq<Update>>, ghost mem: seq<(nat, Update)>)
    returns (record: Bytes, count: nat)
    requires IsBatch(group, us) && last + 1 < TWO_64 && Consistent(records, base, groups, last, mem)
    ensures Consistent(records + [record], base, groups + [us], last + |us|, mem + Numbered(last + 1, us))
    ensures Inserted(record) == Numbered(last + 1, us) && count == |us|
  {
    record, count := NumberGroup(group, last + 1, us);
    OneMoreGroup(records, base, groups, record, us, last, mem);
  }

  lemma OneMoreGroup(records: seq<Bytes>, base: nat, groups: seq<seq<Update>>, record: Bytes, us: seq<Update>, last: nat, mem: seq<(nat, Update)>)
    requires Consistent(records, base, groups, last, mem) && Represents(record, last + 1, us)
    ensures Consistent(records + [record], base, groups + [us], last + |us|, mem + Numbered(last + 1, us))
  {
    LogsOneMore(records, base, groups, record, us);
    CommittedSnoc(groups, us);
    NumberedConcat(base + 1, Committed(groups, |groups|), us);
  }

  // ---------------------------------------------------------------- recovery

  /** The updates that the records of a log hand on, in order. */
  ghost function AllInserted(records: seq<Bytes>): seq<(nat, Update)> {
    if records == [] then [] else AllInserted(records[..|records| - 1]) + Inserted(records[|records| - 1])
  }

  /** The last of some sequence numbers, computed in 64 bits; the count is taken for signed. */
  function LastOf(sequence: nat, count: nat): nat {
    (sequence + (if count < 0x8000_0000 then count else count - TWO_32) - 1) % TWO_64
  }

  lemma LastOfFits(sequence: nat, count: nat)
    requires 0 < sequence && count <= MAX_COUNT && sequence + count <= TWO_64
    ensures LastOf(sequence, count) == sequence + count - 1
  {
  }

  /** The last sequence number a record takes. */
  function LastSequence(rep: Bytes): nat
    requires |rep| >= HEADER
  {
    LastOf(DecodeFixed64(rep[..8]), DecodeFixed32(rep[8..HEADER]))
  }

  ghost function MaxSequence(records: seq<Bytes>, start: nat): nat {
    if records == [] then start
    else
      var earlier, rep := MaxSequence(records[..|records| - 1], start), records[|records| - 1];
      if |rep| >= HEADER && LastSequence(rep) > earlier then LastSequence(rep) else earlier
  }

  /** A record that recovery accepts even with paranoid checks. */
  ghost predicate Acceptable(rep: Bytes) { Verdict(rep) == Ok }

  /** The recovered memtable holds the first `k` groups. */
  ghost predicate Recovered(base: nat, groups: seq<seq<Update>>, k: nat, mem: seq<(nat, Update)>, maxSequence: nat, maxSequence0: nat) {
    && k <= |groups| && mem == Numbered(base + 1, Committed(groups, k))
    && maxSequence == if k > 0 && FirstOf(base, groups, k) > maxSequence0 + 1 then FirstOf(base, groups, k) - 1 else maxSequence0
  }

  /** The file is what a crash left of a log of groups. */
  ghost predicate LeftOver(file: Bytes, extend: Extend, log: Bytes, records: seq<Bytes>, ends: seq<nat>, base: nat, groups: seq<seq<Update>>) {
    && Continues(extend) && file <= log && Holds(extend, log, records, ends) && LogsGroups(records, base, groups)
    && FirstOf(base, groups, |groups|) < TWO_64
  }

  /** DBImpl::RecoverLogFile.  On any file, the records handled are genuine, what they hold goes to
      the memtable in order, and with paranoid checks no report and no bad batch goes unnoticed.  On
      what a crash left of a log, the records handled are its first `k`, so that whole groups come
      back. */
  method RecoverLogFile(file: Bytes, extend: Extend, maxSequence0: nat, paranoidChecks: bool,
                        ghost log: Bytes, ghost records: seq<Bytes>, ghost ends: seq<nat>, ghost base: nat, ghost groups: seq<seq<Update>>)
    returns (status: Status, mem: seq<(nat, Update)>, maxSequence: nat,
             ghost handled: seq<Bytes>, ghost origins: seq<seq<LogReader.Piece>>, ghost reports: seq<(nat, string)>, ghost stop: nat)
    ensures LogReader.AllGenuine(file, extend, true, handled, origins) && mem == AllInserted(handled)
    ensures status == Ok ==> LogReader.Complete(file, extend, true, origins, stop)
    ensures !paranoidChecks ==> status == Ok
    ensures paranoidChecks ==> (status == Ok <==> reports == [] && AllAcceptable(handled))
    ensures status == Ok ==> maxSequence == MaxSequence(handled, maxSequence0)
    ensures LeftOver(file, extend, log, records, ends, base, groups) ==>
      status == Ok && reports == [] && BringsBack(|file|, ends, base, groups, |handled|, mem, maxSequence, maxSequence0)
  {
    var reader := new LogReader.Reader(file, extend, true);
    ghost var good := LeftOver(file, extend, log, records, ends, base, groups);
    mem, maxSequence, handled, origins := [], maxSequence0, [], [];
    var next;
    ghost var pieces;
    LogReader.CoveredFirst(file, extend, true);
    next, pieces := LogReader.ReadNext(reader, log, records, ends, handled, origins, good);
    status := Noted(Ok, reader.reports, paranoidChecks);
    while next.Some? && status == Ok
      invariant fresh(reader) && LogReader.Reads(reader, file, extend, true)
      invariant Come(file, extend, handled, origins, next, pieces, reader.Position())
      invariant status == Ok ==> LogReader.SoFar(file, extend, true, origins, next, pieces, reader.Position())
      invariant mem == AllInserted(handled) && (status == Ok ==> maxSequence == MaxSequence(handled, maxSequence0))
      invariant StatusTells(status, paranoidChecks, reader.reports, handled)
      invariant good ==> status == Ok && reader.reports == [] && LogReader.Follows(records, ends, handled, next, |file|, reader.Position())
      decreases next.Some?, |file| - reader.Position()
    {
      status, mem, maxSequence, handled, origins, next, pieces :=
        RecoverNext(reader, file, extend, mem, maxSequence, maxSequence0, paranoidChecks, handled, origins, next, pieces, log, records, ends, base, groups);
    }
    reports, stop := reader.reports, reader.Position();
    if good {
      PrefixIsBroughtBack(records, ends, base, groups, handled, |file|, reader.Position(), maxSequence0);
    }
  }

  /** The first `k` groups come back, which are those that the file holds whole. */
  ghost predicate BringsBack(size: nat, ends: seq<nat>, base: nat, groups: seq<seq<Update>>, k: nat,
                             mem: seq<(nat, Update)>, maxSequence: nat, maxSequence0: nat)
  {
    && Recovered(base, groups, k, mem, maxSequence, maxSequence0)
    && |ends| == |groups| + 1 && ends[k] <= size && (k < |groups| ==> size < ends[k + 1])
  }

  lemma PrefixIsBroughtBack(records: seq<Bytes>, ends: seq<nat>, base: nat, groups: seq<seq<Update>>, handled: seq<Bytes>,
                            size: nat, position: nat, maxSequence0: nat)
    requires LogsGroups(records, base, groups) && FirstOf(base, groups, |groups|) < TWO_64
    requires LogReader.Follows(records, ends, handled, None, size, position)
    ensures BringsBack(size, ends, base, groups, |handled|, AllInserted(handled), MaxSequence(handled, maxSequence0), maxSequence0)
  {
    PrefixRecovers(records, base, groups, |handled|, maxSequence0);
    assert handled == records[..|handled|];
  }

  /** The records handled and the next one are genuine. */
  ghost predicate Come(file: Bytes, extend: Extend, handled: seq<Bytes>, origins: seq<seq<LogReader.Piece>>,
                       next: Option<Bytes>, pieces: seq<LogReader.Piece>, at: nat)
  {
    && LogReader.AllGenuine(file, extend, true, handled, origins)
    && (next.Some? ==> LogReader.Found(file, extend, true, pieces, next.value, LogReader.EndOf(origins), at))
  }

  /** One round of the recovery loop, and reading the record of the next.  After a bad batch nothing
      more is read. */
  method RecoverNext(reader: LogReader.Reader, file: Bytes, extend: Extend, mem: seq<(nat, Update)>, maxSequence: nat, ghost maxSequence0: nat,
                     paranoidChecks: bool, ghost handled: seq<Bytes>, ghost origins: seq<seq<LogReader.Piece>>,
                     record: Option<Bytes>, ghost pieces: seq<LogReader.Piece>,
                     ghost log: Bytes, ghost records: seq<Bytes>, ghost ends: seq<nat>, ghost base: nat, ghost groups: seq<seq<Update>>)
    returns (status: Status, mem': seq<(nat, Update)>, maxSequence': nat, ghost handled': seq<Bytes>, ghost origins': seq<seq<LogReader.Piece>>,
             next: Option<Bytes>, ghost pieces': seq<LogReader.Piece>)
    requires LogReader.Reads(reader, file, extend, true) && record.Some?
    requires Come(file, extend, handled, origins, record, pieces, reader.Position())
    requires LogReader.SoFar(file, extend, true, origins, record, pieces, reader.Position())
    requires mem == AllInserted(handled) && maxSequence == MaxSequence(handled, maxSequence0)
    requires StatusTells(Ok, paranoidChecks, reader.reports, handled)
    requires LeftOver(file, extend, log, records, ends, base, groups) ==>
      reader.reports == [] && LogReader.Follows(records, ends, handled, record, |file|, reader.Position())
    modifies reader
    ensures LogReader.Reads(reader, file, extend, true) && (next.Some? ==> reader.Position() > old(reader.Position()))
    ensures Come(file, extend, handled', origins', next, pieces', reader.Position())
    ensures status == Ok ==> LogReader.SoFar(file, extend, true, origins', next, pieces', reader.Position())
    ensures mem' == AllInserted(handled') && (status == Ok ==> maxSequence' == MaxSequence(handled', maxSequence0))
    ensures StatusTells(status, paranoidChecks, reader.reports, handled')
    ensures LeftOver(file, extend, log, records, ends, base, groups) ==>
      status == Ok && reader.reports == [] && LogReader.Follows(records, ends, handled', next, |file|, reader.Position())
  {
    ghost var good := LeftOver(file, extend, log, records, ends, base, groups);
    var rep := record.value;
    if good {
      RecordIsAcceptable(records, base, groups, |handled|);
      LogReader.NextOfPrefix(records, handled);
    }
    LogReader.GenuineMore(file, extend, true, handled, origins, rep, pieces);
    InsertedSnoc(handled, rep, maxSequence0);
    handled', origins' := handled + [rep], origins + [pieces];
    status, mem', maxSequence' := RecoverRecord(reader, rep, mem, maxSequence, paranoidChecks);
    if status != Ok && |rep| >= HEADER {
      return status, mem', maxSequence', handled', origins', None, [];
    }
    next, pieces' := LogReader.ReadNext(reader, log, records, ends, handled', origins', good);
    status := Noted(status, reader.reports, paranoidChecks);
  }

  ghost predicate AllAcceptable(records: seq<Bytes>) {
    forall r :: r in records ==> Acceptable(r)
  }

  /** With paranoid checks the first report becomes the status. */
  function Noted(status: Status, reports: seq<(nat, string)>, paranoidChecks: bool): Status {
    if paranoidChecks && status == Ok && reports != [] then Corruption(reports[0].1) else status
  }

  /** An error is there exactly when something was reported or a batch was bad. */
  ghost predicate StatusTells(status: Status, paranoidChecks: bool, reports: seq<(nat, string)>, handled: seq<Bytes>) {
    if paranoidChecks then status == Ok <==> reports == [] && AllAcceptable(handled) else status == Ok
  }

  lemma InsertedSnoc(records: seq<Bytes>, rep: Bytes, start: nat)
    ensures AllInserted(records + [rep]) == AllInserted(records) + Inserted(rep)
    ensures MaxSequence(records + [rep], start) ==
      if |rep| >= HEADER && LastSequence(rep) > MaxSequence(records, start) then LastSequence(rep) else MaxSequence(records, start)
    ensures AllAcceptable(records + [rep]) <==> AllAcceptable(records) && Acceptable(rep)
  {
    assert (records + [rep])[..|records|] == records;
    assert rep in records + [rep];
  }

  /** One round of the recovery loop: what the record holds goes to the memtable.  Errors count only
      with paranoid checks. */
  method RecoverRecord(reader: LogReader.Reader, rep: Bytes, mem: seq<(nat, Update)>, maxSequence: nat, paranoidChecks: bool)
    returns (status: Status, mem': seq<(nat, Update)>, maxSequence': nat)
    requires reader.Ready()
    modifies reader`reports
    ensures reader.Ready() && old(reader.reports) <= reader.reports && (|rep| >= HEADER ==> reader.reports == old(reader.reports))
    ensures status == Ok <==> !paranoidChecks || Acceptable(rep)
    ensures mem' == mem + Inserted(rep)
    ensures status == Ok ==> maxSequence' == if |rep| >= HEADER && LastSequence(rep) > maxSequence then LastSequence(rep) else maxSequence
  {
    maxSequence' := maxSequence;
    if |rep| < HEADER {
      reader.ReportCorruption(|rep|, "log record too small");
      return if paranoidChecks then Corruption("log record too small") else Ok, mem, maxSequence';
    }
    status, mem' := InsertInto(rep, mem);
    if status != Ok && !paranoidChecks {
      status := Ok;
    }
    if status == Ok {
      var lastSequence := LastSequence(rep);
      if lastSequence > maxSequence { maxSequence' := lastSequence; }
    }
  }

  lemma RecordIsAcceptable(records: seq<Bytes>, base: nat, groups: seq<seq<Update>>, k: nat)
    requires LogsGroups(records, base, groups)
    ensures k < |records| ==> |records[k]| >= HEADER && Acceptable(records[k])
  {
    if k < |records| {
      assert GroupRecord(records, base, groups, k);
      BatchRoundTrip(records[k], FirstOf(base, groups, k), groups[k]);
    }
  }

  /** Replaying the first `k` records of a log brings back its first `k` groups. */
  lemma {:induction false} PrefixRecovers(records: seq<Bytes>, base: nat, groups: seq<seq<Update>>, k: nat, maxSequence0: nat)
    requires LogsGroups(records, base, groups) && k <= |groups| && FirstOf(base, groups, |groups|) < TWO_64
    ensures Recovered(base, groups, k, AllInserted(records[..k]), MaxSequence(records[..k], maxSequence0), maxSequence0)
  {
    if k == 0 {
      assert records[..0] == [] && groups[..0] == [];
    } else {
      PrefixRecovers(records, base, groups, k - 1, maxSequence0);
      assert records[..k] == records[..k - 1] + [records[k - 1]];
      InsertedSnoc(records[..k - 1], records[k - 1], maxSequence0);
      assert GroupRecord(records, base, groups, k - 1);
      LastOfGroup(records[k - 1], base, groups, k - 1);
      RecoveredStep(base, groups, k, Inserted(records[k - 1]), LastSequence(records[k - 1]),
                    AllInserted(records[..k - 1]), MaxSequence(records[..k - 1], maxSequence0), maxSequence0);
    }
  }

  lemma RecoveredStep(base: nat, groups: seq<seq<Update>>, k: nat, inserted: seq<(nat, Update)>, last: nat,
                      mem: seq<(nat, Update)>, maxSequence: nat, maxSequence0: nat)
    requires 0 < k <= |groups|
    requires inserted == Numbered(FirstOf(base, groups, k - 1), groups[k - 1]) && last == FirstOf(base, groups, k) - 1
    requires Recovered(base, groups, k - 1, mem, maxSequence, maxSequence0)
    ensures Recovered(base, groups, k, mem + inserted, if last > maxSequence then last else maxSequence, maxSequence0)
  {
    NumberedConcat(base + 1, Committed(groups, k - 1), groups[k - 1]);
  }

  lemma {:induction false} FirstsGrow(base: nat, groups: seq<seq<Update>>, i: nat, k: nat)
    requires i <= k <= |groups|
    ensures FirstOf(base, groups, i) <= FirstOf(base, groups, k)
    decreases k
  {
    if i < k { FirstsGrow(base, groups, i, k - 1); }
  }

  lemma LastOfGroup(rep: Bytes, base: nat, groups: seq<seq<Update>>, k: nat)
    requires k < |groups| && Represents(rep, FirstOf(base, groups, k), groups[k]) && FirstOf(base, groups, |groups|) < TWO_64
    ensures |rep| >= HEADER && LastSequence(rep) == FirstOf(base, groups, k + 1) - 1
    ensures Inserted(rep) == Numbered(FirstOf(base, groups, k), groups[k])
  {
    BatchRoundTrip(rep, FirstOf(base, groups, k), groups[k]);
    RepresentsNumbers(rep, FirstOf(base, groups, k), groups[k]);
    FirstsGrow(base, groups, k + 1, |groups|);
    LastOfFits(FirstOf(base, groups, k), |groups[k]|);
  }
}

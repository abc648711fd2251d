/**
 From the bytes of the logs to tables: what recovery reads back are whole write groups, and the
 tables it makes of them hold exactly the operations that came back (DBImpl::Recover and
 RecoverLogFile in db/db_impl.cc).
 */
module LogRecovery {
  import opened DbFormat
  import opened Tables
  import opened Versions
  import opened Coding
  import opened LogFormat
  import WriteBatches
  import opened GroupCommit
  import opened CompactionWork
  import opened History
  import opened Store
  import opened CrashRecovery

  /** How byte strings stand for user keys and values. */
  datatype Reading = Reading(user: Bytes -> UserKey, value: Bytes -> Value)

  function OpOf(u: WriteBatches.Update, reading: Reading): Write {
    match u
    case Put(key, value) => Put(reading.user(key), reading.value(value))
    case Delete(key) => Delete(reading.user(key))
  }

  function OpsOf(us: seq<WriteBatches.Update>, reading: Reading): (ops: seq<Write>)
    ensures |ops| == |us|
  {
    seq(|us|, i requires 0 <= i < |us| => OpOf(us[i], reading))
  }

  /** The entry that MemTableInserter adds for a numbered update. */
  function EntryOf(x: (nat, WriteBatches.Update), reading: Reading): Entry {
    OpEntry(OpOf(x.1, reading), x.0)
  }

  method AddEntry(mem: seq<Entry>, e: Entry, ghost ops: seq<Write>, ghost base: nat, ghost i: nat) returns (mem': seq<Entry>)
    requires i < |ops| && e == OpEntry(ops[i], base + i + 1)
    requires Sorted(mem) && SeqnosUpTo(mem, base + i) && Elements(mem) == BatchEntries(ops, base, i)
    ensures Sorted(mem') && SeqnosUpTo(mem', base + i + 1) && Elements(mem') == BatchEntries(ops, base, i + 1)
  {
    NextKeyIsNew(mem, base + i, ops[i]);
    BatchEntriesStep(ops, base, i);
    mem' := Tables.Insert(mem, e);
  }

  /** The recovered updates go into a memtable one by one. */
  method BuildMemTable(ghost base: nat, ghost us: seq<WriteBatches.Update>, updates: seq<(nat, WriteBatches.Update)>, reading: Reading)
    returns (mem: seq<Entry>)
    requires updates == WriteBatches.Numbered(base + 1, us)
    ensures Sorted(mem) && Elements(mem) == BatchEntries(OpsOf(us, reading), base, |us|)
  {
    ghost var ops := OpsOf(us, reading);
    mem := [];
    for i := 0 to |updates|
      invariant Sorted(mem) && SeqnosUpTo(mem, base + i) && Elements(mem) == BatchEntries(ops, base, i)
    {
      assert updates[i] == (base + 1 + i, us[i]) && ops[i] == OpOf(us[i], reading);
      mem := AddEntry(mem, EntryOf(updates[i], reading), ops, base, i);
    }
  }

  // ---------------------------------------------------------------- one log

  /** A log with the records in it and the write groups they stand for. */
  datatype LogFile = LogFile(bytes: Bytes, records: seq<Bytes>, ends: seq<nat>, groups: seq<seq<WriteBatches.Update>>)

  const EMPTY_LOG := LogFile([], [], [0], [])

  /** The log holds the operations from `base` up to `end`, group by group. */
  ghost predicate LogOf(f: LogFile, extend: Extend, reading: Reading, ops: seq<Op>, base: nat, end: nat) {
    && Continues(extend) && Holds(extend, f.bytes, f.records, f.ends) && LogsGroups(f.records, base, f.groups)
    && base <= end <= |ops| < TWO_64 - 1
    && OpsOf(Committed(f.groups, |f.groups|), reading) == ops[base..end]
  }

  /** Up to where the first `k` groups of a log go. */
  ghost function Reached(base: nat, groups: seq<seq<WriteBatches.Update>>, k: nat): nat
    requires k <= |groups|
  {
    base + |Committed(groups, k)|
  }

  lemma {:induction false} CommittedGrows(groups: seq<seq<WriteBatches.Update>>, k: nat, n: nat)
    requires k <= n <= |groups|
    ensures Committed(groups, k) <= Committed(groups, n)
    decreases n
  {
    if k < n { CommittedGrows(groups, k, n - 1); }
  }

  /** The first `k` groups of a log are the operations up to where they go. */
  lemma GroupsAreOperations(f: LogFile, extend: Extend, reading: Reading, ops: seq<Op>, base: nat, end: nat, k: nat)
    requires LogOf(f, extend, reading, ops, base, end) && k <= |f.groups|
    ensures Reached(base, f.groups, k) <= end && (k == |f.groups| ==> Reached(base, f.groups, k) == end)
    ensures OpsOf(Committed(f.groups, k), reading) == ops[base..Reached(base, f.groups, k)]
    ensures FirstOf(base, f.groups, |f.groups|) < TWO_64
  {
    var some, all := Committed(f.groups, k), Committed(f.groups, |f.groups|);
    CommittedGrows(f.groups, k, |f.groups|);
    assert |all| == |ops[base..end]|;
    forall i | 0 <= i < |some| ensures OpsOf(some, reading)[i] == ops[base..Reached(base, f.groups, k)][i] {
      assert OpsOf(all, reading)[i] == OpOf(all[i], reading) && some[i] == all[i];
    }
  }

  /** How many of its first `n` records a log of some size still has whole. */
  ghost function WholeRecords(f: LogFile, size: nat, n: nat): (k: nat)
    requires n < |f.ends|
    ensures k <= n
  {
    if n == 0 || f.ends[n] <= size then n else WholeRecords(f, size, n - 1)
  }

  lemma {:induction false} EndsGrow(f: LogFile, extend: Extend, i: nat, j: nat)
    requires Holds(extend, f.bytes, f.records, f.ends) && i <= j <= |f.records|
    ensures f.ends[i] <= f.ends[j] && (i < j ==> f.ends[i] < f.ends[j])
    decreases j
  {
    if i < j {
      EndsGrow(f, extend, i, j - 1);
      assert RecordAt(extend, f.bytes, f.records, f.ends, j - 1);
      LaidBounds(extend, f.bytes, f.ends[j - 1], f.records[j - 1], true, f.ends[j]);
    }
  }

  lemma {:induction false} WholeRecordsAre(f: LogFile, extend: Extend, size: nat, k: nat, n: nat)
    requires Holds(extend, f.bytes, f.records, f.ends) && k <= n <= |f.records|
    requires f.ends[k] <= size && (k < |f.records| ==> size < f.ends[k + 1])
    ensures WholeRecords(f, size, n) == k
    decreases n
  {
    if k < n {
      EndsGrow(f, extend, k + 1, n);
      WholeRecordsAre(f, extend, size, k, n - 1);
    }
  }

  /** Up to where the records go that a log of some size still has whole. */
  ghost function ReachedIn(f: LogFile, base: nat, size: nat): nat
    requires |f.ends| == |f.groups| + 1
  {
    Reached(base, f.groups, WholeRecords(f, size, |f.groups|))
  }

  /** What is left of a log after a crash brings back the operations of the groups it holds whole. */
  method RecoverLog(file: Bytes, extend: Extend, paranoidChecks: bool, maxSequence0: nat, reading: Reading,
                    ghost f: LogFile, ghost ops: seq<Op>, ghost base: nat, ghost end: nat)
    returns (ok: bool, mem: seq<Entry>, maxSequence: nat)
    requires LogOf(f, extend, reading, ops, base, end) && file <= f.bytes
    ensures ok && base <= ReachedIn(f, base, |file|) <= end
    ensures Sorted(mem) && Elements(mem) == Written(ops, base, ReachedIn(f, base, |file|))
    ensures maxSequence == Larger(maxSequence0, if WholeRecords(f, |file|, |f.groups|) > 0 then ReachedIn(f, base, |file|) else 0)
  {
    GroupsAreOperations(f, extend, reading, ops, base, end, |f.groups|);
    var status, updates;
    ghost var handled, origins, reports, stop;
    status, updates, maxSequence, handled, origins, reports, stop :=
      RecoverLogFile(file, extend, maxSequence0, paranoidChecks, f.bytes, f.records, f.ends, base, f.groups);
    ok := status == WriteBatches.Ok;
    ghost var k := |handled|;
    WholeRecordsAre(f, extend, |file|, k, |f.groups|);
    GroupsAreOperations(f, extend, reading, ops, base, end, k);
    mem := BuildMemTable(base, Committed(f.groups, k), updates, reading);
  }

  function Larger(x: nat, y: nat): nat {
    if x < y then y else x
  }

  /** The log that group commit writes is such a log of the operations committed. */
  lemma CommittedLog(q: WriteQueue, reading: Reading, before: seq<Op>)
    requires q.Valid() && Continues(q.log.extend) && |before| == q.base && q.lastSequence < TWO_64 - 1
    ensures var ops := before + OpsOf(Committed(q.groups, |q.groups|), reading);
      |ops| == q.lastSequence
      && LogOf(LogFile(q.log.dest, q.log.records, q.log.ends, q.groups), q.log.extend, reading, ops, q.base, |ops|)
  {
    var after := OpsOf(Committed(q.groups, |q.groups|), reading);
    assert (before + after)[|before|..] == after;
  }

  // ---------------------------------------------------------------- all the logs

  /** A log that recovery replays: the operations it was written for, and what is left of it. */
  datatype Part = Part(log: LogFile, from: nat, upto: nat, left: Bytes)

  ghost predicate PartOf(p: Part, extend: Extend, reading: Reading, ops: seq<Op>) {
    LogOf(p.log, extend, reading, ops, p.from, p.upto) && p.left <= p.log.bytes
  }

  /** The logs, in order, were written for the operations from `flushed` on. */
  ghost predicate Chain(parts: seq<Part>, extend: Extend, reading: Reading, ops: seq<Op>, flushed: nat) {
    && (forall i {:trigger PartOf(parts[i], extend, reading, ops)} :: 0 <= i < |parts| ==> PartOf(parts[i], extend, reading, ops))
    && flushed <= |ops| && (parts != [] ==> parts[0].from == flushed)
    && forall i {:trigger Joined(parts, i)} :: 0 <= i < |parts| - 1 ==> Joined(parts, i)
  }

  /** A log starts where the one before ends. */
  ghost predicate Joined(parts: seq<Part>, i: nat)
    requires i + 1 < |parts|
  {
    parts[i].upto == parts[i + 1].from
  }

  function Losses(n: nat): (r: seq<Op>)
    ensures |r| == n && forall i :: 0 <= i < n ==> r[i] == Lost
  {
    seq(n, _ => Lost)
  }

  /** The history with lost operations up to some length. */
  function Padded(ops: seq<Op>, n: nat): (r: seq<Op>)
    ensures ops <= r && |r| == Larger(|ops|, n) && forall i :: |ops| <= i < |r| ==> r[i] == Lost
  {
    if |ops| < n then ops + Losses(n - |ops|) else ops
  }

  /** What a log brings back goes behind what came before; numbers in between are lost. */
  ghost function WithPart(kept: seq<Op>, ops: seq<Op>, p: Part): seq<Op>
    requires |p.log.ends| == |p.log.groups| + 1
  {
    var r := ReachedIn(p.log, p.from, |p.left|);
    if WholeRecords(p.log, |p.left|, |p.log.groups|) == 0 || !(p.from <= r <= |ops|) then kept else Continued(kept, ops, p.from, r)
  }

  ghost function Continued(kept: seq<Op>, ops: seq<Op>, from: nat, upto: nat): seq<Op>
    requires from <= upto <= |ops|
  {
    Padded(kept, from) + ops[from..upto]
  }

  lemma ContinuedComesBack(kept: seq<Op>, ops: seq<Op>, flushed: nat, from: nat, upto: nat)
    requires ComesBack(ops, flushed, kept) && |kept| <= from <= upto <= |ops|
    ensures ComesBack(ops, flushed, Continued(kept, ops, from, upto)) && kept <= Continued(kept, ops, from, upto)
    ensures |Continued(kept, ops, from, upto)| == upto
  {
  }

  ghost predicate There(kept: seq<Op>, ops: seq<Op>, q: nat)
    requires q < |ops|
  {
    q < |kept| && kept[q] == ops[q]
  }

  lemma ContinuedThere(kept: seq<Op>, ops: seq<Op>, from: nat, upto: nat, q: nat)
    requires |kept| <= from <= upto <= |ops| && q < |ops| && !ops[q].Lost?
    ensures There(Continued(kept, ops, from, upto), ops, q) <==> There(kept, ops, q) || from <= q < upto
  {
  }

  ghost predicate EndsMatch(parts: seq<Part>) {
    forall i :: 0 <= i < |parts| ==> |parts[i].log.ends| == |parts[i].log.groups| + 1
  }

  ghost function BroughtBack(ops: seq<Op>, flushed: nat, parts: seq<Part>): seq<Op>
    requires flushed <= |ops| && EndsMatch(parts)
  {
    if parts == [] then ops[..flushed] else WithPart(BroughtBack(ops, flushed, parts[..|parts| - 1]), ops, parts[|parts| - 1])
  }

  lemma ChainPrefix(parts: seq<Part>, extend: Extend, reading: Reading, ops: seq<Op>, flushed: nat, n: nat)
    requires Chain(parts, extend, reading, ops, flushed) && n <= |parts|
    ensures Chain(parts[..n], extend, reading, ops, flushed)
    ensures EndsMatch(parts) && EndsMatch(parts[..n])
  {
    var some := parts[..n];
    forall i | 0 <= i < n ensures PartOf(some[i], extend, reading, ops) {
      assert PartOf(parts[i], extend, reading, ops);
    }
    forall i | 0 <= i < n - 1 ensures Joined(some, i) {
      assert Joined(parts, i);
    }
    forall i | 0 <= i < |parts| ensures |parts[i].log.ends| == |parts[i].log.groups| + 1 {
      assert PartOf(parts[i], extend, reading, ops);
    }
  }

  /** What comes back of a part is within it. */
  lemma PartReaches(p: Part, extend: Extend, reading: Reading, ops: seq<Op>)
    requires PartOf(p, extend, reading, ops)
    ensures p.from <= ReachedIn(p.log, p.from, |p.left|) <= p.upto <= |ops|
  {
    GroupsAreOperations(p.log, extend, reading, ops, p.from, p.upto, WholeRecords(p.log, |p.left|, |p.log.groups|));
  }

  /** What a part adds to what comes back. */
  lemma OneMorePart(kept: seq<Op>, p: Part, extend: Extend, reading: Reading, ops: seq<Op>, flushed: nat)
    requires PartOf(p, extend, reading, ops) && ComesBack(ops, flushed, kept) && |kept| <= p.from
    ensures |p.log.ends| == |p.log.groups| + 1
    ensures ComesBack(ops, flushed, WithPart(kept, ops, p)) && |WithPart(kept, ops, p)| <= p.upto
  {
    PartReaches(p, extend, reading, ops);
    if WholeRecords(p.log, |p.left|, |p.log.groups|) > 0 {
      ContinuedComesBack(kept, ops, flushed, p.from, ReachedIn(p.log, p.from, |p.left|));
    }
  }

  lemma PartThere(kept: seq<Op>, p: Part, extend: Extend, reading: Reading, ops: seq<Op>, q: nat)
    requires PartOf(p, extend, reading, ops) && |kept| <= p.from && q < |ops| && !ops[q].Lost?
    ensures |p.log.ends| == |p.log.groups| + 1
    ensures There(WithPart(kept, ops, p), ops, q) <==> There(kept, ops, q) || p.from <= q < ReachedIn(p.log, p.from, |p.left|)
  {
    PartReaches(p, extend, reading, ops);
    if WholeRecords(p.log, |p.left|, |p.log.groups|) > 0 {
      ContinuedThere(kept, ops, p.from, ReachedIn(p.log, p.from, |p.left|), q);
    }
  }

  /** Whatever is left of the logs, each operation is there or lost. */
  lemma {:induction false} LogsComeBack(parts: seq<Part>, extend: Extend, reading: Reading, ops: seq<Op>, flushed: nat)
    requires Chain(parts, extend, reading, ops, flushed)
    ensures EndsMatch(parts)
    ensures var kept := BroughtBack(ops, flushed, parts);
      ComesBack(ops, flushed, kept) && (parts != [] ==> |kept| <= parts[|parts| - 1].upto)
    decreases |parts|, 1
  {
    ChainPrefix(parts, extend, reading, ops, flushed, |parts|);
    if parts != [] {
      var n := |parts| - 1;
      StartOfPart(parts, extend, reading, ops, flushed);
      OneMorePart(BroughtBack(ops, flushed, parts[..n]), parts[n], extend, reading, ops, flushed);
    }
  }

  /** What came back before the last log ends before it starts. */
  lemma StartOfPart(parts: seq<Part>, extend: Extend, reading: Reading, ops: seq<Op>, flushed: nat)
    requires Chain(parts, extend, reading, ops, flushed) && parts != []
    ensures EndsMatch(parts) && PartOf(parts[|parts| - 1], extend, reading, ops)
    ensures var kept := BroughtBack(ops, flushed, parts[..|parts| - 1]);
      ComesBack(ops, flushed, kept) && |kept| <= parts[|parts| - 1].from
    decreases |parts|, 0
  {
    var n := |parts| - 1;
    ChainPrefix(parts, extend, reading, ops, flushed, n);
    LogsComeBack(parts[..n], extend, reading, ops, flushed);
    if n > 0 { assert Joined(parts, n - 1); }
  }

  /** The operations of a log are none that have been lost. */
  lemma LoggedIsNotLost(p: Part, extend: Extend, reading: Reading, ops: seq<Op>, q: nat)
    requires PartOf(p, extend, reading, ops) && p.from <= q < p.upto
    ensures !ops[q].Lost?
  {
    assert ops[q] == ops[p.from..p.upto][q - p.from];
  }

  /** Operation `q` has come back from the logs. */
  ghost predicate CameBack(parts: seq<Part>, ops: seq<Op>, flushed: nat, q: nat)
    requires flushed <= |ops| && q < |ops|
  {
    EndsMatch(parts) && There(BroughtBack(ops, flushed, parts), ops, q)
  }

  /** What the last log adds. */
  lemma LastPartThere(parts: seq<Part>, extend: Extend, reading: Reading, ops: seq<Op>, flushed: nat, q: nat)
    requires Chain(parts, extend, reading, ops, flushed) && parts != [] && q < |ops| && !ops[q].Lost?
    ensures EndsMatch(parts)
    ensures var p := parts[|parts| - 1];
      && (q < p.from ==> (CameBack(parts, ops, flushed, q) <==> CameBack(parts[..|parts| - 1], ops, flushed, q)))
      && (q >= p.from ==> (CameBack(parts, ops, flushed, q) <==> q < ReachedIn(p.log, p.from, |p.left|)))
  {
    var n := |parts| - 1;
    StartOfPart(parts, extend, reading, ops, flushed);
    PartThere(BroughtBack(ops, flushed, parts[..n]), parts[n], extend, reading, ops, q);
  }

  /** Of the operations in the logs exactly those come back whose group is whole. */
  lemma {:induction false} WholeGroupsComeBack(parts: seq<Part>, extend: Extend, reading: Reading, ops: seq<Op>, flushed: nat, i: nat, q: nat)
    requires Chain(parts, extend, reading, ops, flushed)
    requires i < |parts| && parts[i].from <= q < parts[i].upto
    ensures EndsMatch(parts) && q < |ops| && !ops[q].Lost?
    ensures CameBack(parts, ops, flushed, q) <==> q < ReachedIn(parts[i].log, parts[i].from, |parts[i].left|)
    decreases |parts|
  {
    LoggedInPart(parts, extend, reading, ops, flushed, i, q);
    LastPartThere(parts, extend, reading, ops, flushed, q);
    if i < |parts| - 1 {
      EarlierPart(parts, extend, reading, ops, flushed, i);
      WholeGroupsComeBack(parts[..|parts| - 1], extend, reading, ops, flushed, i, q);
    }
  }

  lemma LoggedInPart(parts: seq<Part>, extend: Extend, reading: Reading, ops: seq<Op>, flushed: nat, i: nat, q: nat)
    requires Chain(parts, extend, reading, ops, flushed)
    requires i < |parts| && parts[i].from <= q < parts[i].upto
    ensures q < |ops| && !ops[q].Lost?
  {
    assert PartOf(parts[i], extend, reading, ops);
    LoggedIsNotLost(parts[i], extend, reading, ops, q);
  }

  lemma EarlierPart(parts: seq<Part>, extend: Extend, reading: Reading, ops: seq<Op>, flushed: nat, i: nat)
    requires Chain(parts, extend, reading, ops, flushed) && i < |parts| - 1
    ensures Chain(parts[..|parts| - 1], extend, reading, ops, flushed) && parts[..|parts| - 1][i] == parts[i]
    ensures parts[i].upto <= parts[|parts| - 1].from
  {
    ChainPrefix(parts, extend, reading, ops, flushed, |parts| - 1);
    PartsInOrder(parts, extend, reading, ops, flushed, i, |parts| - 1);
  }

  /** Earlier logs end before later ones start. */
  lemma {:induction false} PartsInOrder(parts: seq<Part>, extend: Extend, reading: Reading, ops: seq<Op>, flushed: nat, i: nat, j: nat)
    requires Chain(parts, extend, reading, ops, flushed) && i < j < |parts|
    ensures parts[i].upto <= parts[j].from
    decreases j
  {
    assert PartOf(parts[j - 1], extend, reading, ops) && Joined(parts, j - 1);
    if i < j - 1 { PartsInOrder(parts, extend, reading, ops, flushed, i, j - 1); }
  }

  lemma ContinuedWrites(kept: seq<Op>, ops: seq<Op>, from: nat, upto: nat)
    requires |kept| <= from <= upto <= |ops|
    ensures Written(Continued(kept, ops, from, upto), |kept|, upto) == Written(ops, from, upto)
  {
    var longer := Continued(kept, ops, from, upto);
    forall e ensures e in Written(longer, |kept|, upto) <==> e in Written(ops, from, upto) {
      WrittenIs(longer, |kept|, upto, e);
      WrittenIs(ops, from, upto, e);
    }
  }

  /** What follows when a part comes behind what has come back. */
  ghost predicate Adds(kept: seq<Op>, p: Part, ops: seq<Op>, longer: seq<Op>)
    requires |p.log.ends| == |p.log.groups| + 1
  {
    var r := ReachedIn(p.log, p.from, |p.left|);
    && p.from <= r <= |ops| && kept <= longer
    && Written(longer, |kept|, |longer|) == Written(ops, p.from, r)
    && |longer| == if WholeRecords(p.log, |p.left|, |p.log.groups|) > 0 then r else |kept|
  }

  lemma PartFollows(kept: seq<Op>, p: Part, extend: Extend, reading: Reading, ops: seq<Op>)
    requires PartOf(p, extend, reading, ops) && |kept| <= p.from
    ensures |p.log.ends| == |p.log.groups| + 1 && Adds(kept, p, ops, WithPart(kept, ops, p))
  {
    PartReaches(p, extend, reading, ops);
    if WholeRecords(p.log, |p.left|, |p.log.groups|) > 0 {
      ContinuedWrites(kept, ops, p.from, ReachedIn(p.log, p.from, |p.left|));
    } else {
      NothingWritten(ops, p.from);
      NothingWritten(kept, |kept|);
    }
  }

  /** What has been made of the logs replayed so far. */
  ghost predicate Replayed(parts: seq<Part>, ops: seq<Op>, flushed: nat, tables: Files, marks: seq<nat>, first: nat, next: nat, maxSequence: nat)
    requires flushed <= |ops| && EndsMatch(parts)
  {
    var kept := BroughtBack(ops, flushed, parts);
    && Tabled(tables, marks, flushed, kept) && NumbersAscend(tables, first, next)
    && (maxSequence == |kept| || (maxSequence == 0 && |kept| == flushed))
  }

  /** A memtable that is not empty becomes a table. */
  method TableOf(mem: seq<Entry>, sizes: Sizes, next: nat, tables: Files, ghost marks: seq<nat>, ghost flushed: nat, ghost first: nat,
                 ghost ops: seq<Op>, ghost longer: seq<Op>)
    returns (tables': Files, next': nat, ghost marks': seq<nat>)
    requires Tabled(tables, marks, flushed, ops) && ops <= longer && NumbersAscend(tables, first, next)
    requires Sorted(mem) && Elements(mem) == Written(longer, |ops|, |longer|)
    ensures Tabled(tables', marks', flushed, longer) && NumbersAscend(tables', first, next') && next <= next'
  {
    MoreIsTabled(tables, marks, flushed, ops, longer);
    tables', next', marks' := tables, next, marks;
    if mem != [] {
      var f := FinishFile(next, mem, sizes);
      tables', next', marks' := tables + [f], next + 1, marks + [|longer|];
    } else {
      assert Elements(mem) == {};
    }
  }

  lemma PartComesNext(parts: seq<Part>, p: Part, extend: Extend, reading: Reading, ops: seq<Op>, flushed: nat)
    requires Chain(parts + [p], extend, reading, ops, flushed) && EndsMatch(parts)
    ensures PartOf(p, extend, reading, ops) && EndsMatch(parts + [p])
    ensures flushed <= |BroughtBack(ops, flushed, parts)| <= p.from
    ensures Adds(BroughtBack(ops, flushed, parts), p, ops, BroughtBack(ops, flushed, parts + [p]))
  {
    var all := parts + [p];
    assert all[..|all| - 1] == parts && all[|all| - 1] == p;
    StartOfPart(all, extend, reading, ops, flushed);
    PartFollows(BroughtBack(ops, flushed, parts), p, extend, reading, ops);
  }

  /** One round of the loop of DBImpl::Recover: a log is replayed into a table. */
  method ReplayLog(number: nat, file: Bytes, extend: Extend, paranoidChecks: bool, reading: Reading, sizes: Sizes,
                   tables: Files, next: nat, maxSequence: nat,
                   ghost marks: seq<nat>, ghost first: nat, ghost ops: seq<Op>, ghost flushed: nat, ghost parts: seq<Part>, ghost p: Part)
    returns (ok: bool, tables': Files, next': nat, maxSequence': nat, ghost marks': seq<nat>)
    requires Chain(parts + [p], extend, reading, ops, flushed) && EndsMatch(parts) && file == p.left
    requires Replayed(parts, ops, flushed, tables, marks, first, next, maxSequence)
    ensures ok && EndsMatch(parts + [p]) && next <= next' && number < next'
    ensures Replayed(parts + [p], ops, flushed, tables', marks', first, next', maxSequence')
  {
    ghost var kept := BroughtBack(ops, flushed, parts);
    PartComesNext(parts, p, extend, reading, ops, flushed);
    var mem;
    ok, mem, maxSequence' := RecoverLog(file, extend, paranoidChecks, maxSequence, reading, p.log, ops, p.from, p.upto);
    tables', next', marks' := TableOf(mem, sizes, next, tables, marks, flushed, first, kept, BroughtBack(ops, flushed, parts + [p]));
    next' := if next' <= number then number + 1 else next';
  }

  /** DBImpl::Recover, once the version is back: the logs are replayed in order, each up to the last
      group it holds whole. */
  method ReplayLogs(numbers: seq<nat>, files: seq<Bytes>, extend: Extend, paranoidChecks: bool, reading: Reading, sizes: Sizes, first: nat,
                    ghost ops: seq<Op>, ghost flushed: nat, ghost parts: seq<Part>)
    returns (ok: bool, tables: Files, next: nat, maxSequence: nat, ghost marks: seq<nat>)
    requires Chain(parts, extend, reading, ops, flushed) && |numbers| == |files| == |parts| && EndsMatch(parts)
    requires forall i :: 0 <= i < |parts| ==> files[i] == parts[i].left
    ensures ok && Replayed(parts, ops, flushed, tables, marks, first, next, maxSequence)
    ensures forall i :: 0 <= i < |numbers| ==> numbers[i] < next
  {
    ok, tables, next, maxSequence, marks := true, [], first, 0, [flushed];
    ghost var done: seq<Part> := [];
    NothingReplayed(ops, flushed, first);
    for i := 0 to |files|
      invariant ok && EndsMatch(done) && done == parts[..i]
      invariant Replayed(done, ops, flushed, tables, marks, first, next, maxSequence)
      invariant forall j :: 0 <= j < i ==> numbers[j] < next
    {
      NextPart(parts, done, extend, reading, ops, flushed);
      ok, tables, next, maxSequence, marks := ReplayLog(numbers[i], files[i], extend, paranoidChecks, reading, sizes, tables, next, maxSequence,
                                                        marks, first, ops, flushed, done, parts[i]);
      done := done + [parts[i]];
    }
    assert done == parts;
  }

  lemma NothingReplayed(ops: seq<Op>, flushed: nat, first: nat)
    requires flushed <= |ops|
    ensures Replayed([], ops, flushed, [], [flushed], first, first, 0)
  {
    NothingWritten(ops[..flushed], flushed);
  }

  lemma NextPart(parts: seq<Part>, done: seq<Part>, extend: Extend, reading: Reading, ops: seq<Op>, flushed: nat)
    requires Chain(parts, extend, reading, ops, flushed) && done <= parts && |done| < |parts|
    ensures done + [parts[|done|]] == parts[..|done| + 1]
    ensures Chain(done + [parts[|done|]], extend, reading, ops, flushed) && EndsMatch(done + [parts[|done|]])
  {
    assert done + [parts[|done|]] == parts[..|done| + 1];
    ChainPrefix(parts, extend, reading, ops, flushed, |done| + 1);
  }
}

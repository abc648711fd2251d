/**
 Crashes.  The version survives a crash, what comes back from the logs becomes tables of level 0, and
 the store goes on with a history in which some operations have been lost (DBImpl::Recover in
 db/db_impl.cc).
 */
module CrashRecovery {
  import opened Wrappers
  import opened DbFormat
  import opened Visibility
  import opened Tables
  import opened Versions
  import opened VersionEdits
  import opened CompactionWork
  import opened DropRules
  import opened History
  import opened Store

  // ---------------------------------------------------------------- what is where

  /** The entries of the operations from position `a` up to position `b`. */
  ghost function Written(ops: seq<Op>, a: nat, b: nat): set<Entry>
    requires a <= b <= |ops|
  {
    BatchEntries(ops[a..b], a, b - a)
  }

  /** The version serves the operations up to `flushed`, the immutable memtable those from there up
      to `switched`, and the memtable the rest. */
  ghost predicate InEpochs(db: Db, ops: seq<Op>, flushed: nat, switched: nat) {
    && flushed <= switched <= |ops|
    && FromHistory(VersionEntries(db.version), ops[..flushed]) && Faithful(VersionEntries(db.version), ops[..flushed], flushed)
    && ImmEntries(db) == Written(ops, flushed, switched) && (db.imm.None? ==> flushed == switched)
    && Elements(db.mem) == Written(ops, switched, |ops|)
  }

  lemma EmptyDbInEpochs()
    ensures InEpochs(EMPTY_DB, [], 0, 0)
  {
    EmptyDbInv();
    assert VersionEntries(EMPTY_DB.version) == {};
    assert AllEntries(EMPTY_DB) == {};
  }

  lemma WrittenIsStable(ops: seq<Op>, more: seq<Op>, a: nat, b: nat)
    requires a <= b <= |ops|
    ensures Written(ops + more, a, b) == Written(ops, a, b)
  {
    assert (ops + more)[a..b] == ops[a..b];
  }

  /** The entries of the operations numbered above `a`, up to `b`. */
  lemma WrittenIs(ops: seq<Op>, a: nat, b: nat, e: Entry)
    requires a <= b <= |ops|
    ensures e in Written(ops, a, b) <==> a < e.key.seqno <= b && Wrote(ops[e.key.seqno - 1], e.key.seqno, e)
  {
    var part := ops[a..b];
    if a < e.key.seqno <= b && Wrote(ops[e.key.seqno - 1], e.key.seqno, e) {
      assert part[e.key.seqno - 1 - a] == ops[e.key.seqno - 1];
    }
  }

  lemma WrittenAddsUp(ops: seq<Op>, a: nat, b: nat, c: nat)
    requires a <= b <= c <= |ops|
    ensures Written(ops, a, c) == Written(ops, a, b) + Written(ops, b, c)
  {
    forall e ensures e in Written(ops, a, c) <==> e in Written(ops, a, b) + Written(ops, b, c) {
      WrittenIs(ops, a, c, e);
      WrittenIs(ops, a, b, e);
      WrittenIs(ops, b, c, e);
    }
  }

  /** Later operations added to what serves the earlier ones serve all of them. */
  lemma LaterOperationsAdd(S: set<Entry>, ops: seq<Op>, a: nat, b: nat)
    requires a <= b <= |ops| && FromHistory(S, ops[..a]) && Faithful(S, ops[..a], a)
    ensures FromHistory(S + Written(ops, a, b), ops[..b]) && Faithful(S + Written(ops, a, b), ops[..b], a)
  {
    var part := ops[a..b];
    GroupIsReplayed(S, ops[..a], a, part, b - a);
    assert part[..b - a] == part;
    assert ops[..a] + part == ops[..b];
  }

  // ---------------------------------------------------------------- steps

  /** Above all its entries a store reads the same everywhere. */
  lemma ReadsAbove(S: set<Entry>, ops: seq<Op>, user: UserKey, s: nat)
    requires FromHistory(S, ops) && |ops| <= s
    ensures Visible(S, user, s) == Visible(S, user, |ops|)
  {
    HistoryIsUnique(S, ops);
    VisibleUnchanged(S, user, |ops|, s);
  }

  /** Dropping entries without changing reads above a floor keeps serving a history. */
  lemma SameReadsKeepHistory(V: set<Entry>, V': set<Entry>, ops: seq<Op>, floor: nat)
    requires V' <= V && SameReads(V, V', floor)
    requires FromHistory(V, ops) && Faithful(V, ops, |ops|)
    ensures FromHistory(V', ops) && Faithful(V', ops, |ops|)
  {
    var s := if |ops| < floor then floor else |ops|;
    forall user ensures Visible(V', user, |ops|) == ReadAt(ops, user, |ops|) {
      ReadsAbove(V, ops, user, s);
      ReadsAbove(V', ops, user, s);
      assert Visible(V, user, s) == Visible(V', user, s);
    }
  }

  lemma CompactionKeepsEpochs(db: Db, ops: seq<Op>, level: nat, in0: Files, in1: Files, outputs: Files, db': Db, flushed: nat, switched: nat)
    requires Inv(db, ops) && Compacts(db, level, in0, in1, outputs, db') && Harmless(db, CompactStep(level, in0, in1, outputs))
    requires InEpochs(db, ops, flushed, switched)
    ensures InEpochs(db', ops, flushed, switched)
  {
    CompactionKeepsStructure(db, ops, level, in0, in1, outputs, db');
    CompactionPreservesReads(db.version, level, in0, in1, outputs, db'.version, SmallestSnapshot(db));
    SameReadsKeepHistory(VersionEntries(db.version), VersionEntries(db'.version), ops[..flushed], SmallestSnapshot(db));
  }

  lemma FlushKeepsEpochs(db: Db, ops: seq<Op>, level: nat, f: File, db': Db, flushed: nat, switched: nat)
    requires Inv(db, ops) && Flushes(db, level, f, db') && InEpochs(db, ops, flushed, switched)
    ensures InEpochs(db', ops, switched, switched)
  {
    HistoryIsUnique(AllEntries(db), ops);
    assert ImmEntries(db) == Elements(f.entries);
    forall e | e in f.entries ensures e.key.seqno <= MAX_SEQUENCE {
      assert e in AllEntries(db);
    }
    assert ValidFile(f);
    FlushKeepsValid(db.version, level, f, db'.version);
    LaterOperationsAdd(VersionEntries(db.version), ops, flushed, switched);
    NothingWritten(ops, switched);
  }

  lemma NothingWritten(ops: seq<Op>, a: nat)
    requires a <= |ops|
    ensures Written(ops, a, a) == {}
  {
  }

  /** Where a step leaves the two marks. */
  ghost function NextEpochs(db: Db, ops: seq<Op>, step: Step, flushed: nat, switched: nat): (nat, nat) {
    match step
    case SwitchStep => (flushed, |ops|)
    case FlushStep(_, _) => (switched, switched)
    case FlushEmptyStep => (switched, switched)
    case _ => (flushed, switched)
  }

  lemma WriteKeepsEpochs(db: Db, ops: seq<Op>, batch: seq<Op>, db': Db, flushed: nat, switched: nat)
    requires Inv(db, ops) && Writes(db, ops, batch, db', ops + batch) && InEpochs(db, ops, flushed, switched)
    ensures InEpochs(db', ops + batch, flushed, switched)
  {
    var longer := ops + batch;
    assert longer[..flushed] == ops[..flushed];
    WrittenIsStable(ops, batch, flushed, switched);
    WrittenIsStable(ops, batch, switched, |ops|);
    WrittenAddsUp(longer, switched, |ops|, |longer|);
    assert longer[|ops|..|longer|] == batch;
  }

  lemma StepKeepsEpochs(db: Db, ops: seq<Op>, step: Step, db': Db, ops': seq<Op>, flushed: nat, switched: nat)
    requires Inv(db, ops) && Next(db, ops, step, db', ops') && Harmless(db, step) && InEpochs(db, ops, flushed, switched)
    ensures var (f, s) := NextEpochs(db, ops, step, flushed, switched); InEpochs(db', ops', f, s)
  {
    match step
    case WriteStep(batch) => WriteKeepsEpochs(db, ops, batch, db', flushed, switched);
    case SwitchStep => NothingWritten(ops, |ops|);
    case FlushStep(level, f) => FlushKeepsEpochs(db, ops, level, f, db', flushed, switched);
    case FlushEmptyStep =>
      LaterOperationsAdd(VersionEntries(db.version), ops, flushed, switched);
      assert VersionEntries(db.version) + {} == VersionEntries(db.version);
      NothingWritten(ops, switched);
    case MoveStep(level, f) => MoveKeepsVersion(db.version, level, f, db'.version, db.nextFileNumber);
    case CompactStep(level, in0, in1, outputs) => CompactionKeepsEpochs(db, ops, level, in0, in1, outputs, db', flushed, switched);
    case _ =>
  }

  // ---------------------------------------------------------------- tables from the logs

  /** The version with one more table at level 0. */
  function WithTable(v: Version, f: File): (w: Version)
    requires SortedBySmallest(v[0])
    ensures SortedBySmallest(w[0]) && forall l :: 1 <= l < NUM_LEVELS ==> w[l] == v[l]
  {
    v[0 := InsertFile(v[0], f)]
  }

  function WithTables(v: Version, files: Files): (w: Version)
    requires SortedBySmallest(v[0])
    ensures SortedBySmallest(w[0]) && forall l :: 1 <= l < NUM_LEVELS ==> w[l] == v[l]
  {
    if files == [] then v else WithTable(WithTables(v, files[..|files| - 1]), files[|files| - 1])
  }

  /** Table `i` holds the operations between two marks. */
  ghost predicate TableAt(files: Files, marks: seq<nat>, ops: seq<Op>, i: nat)
    requires i < |files| && |marks| == |files| + 1
  {
    && marks[i] <= marks[i + 1] <= |ops|
    && Labelled(files[i]) && Sorted(files[i].entries) && Elements(files[i].entries) == Written(ops, marks[i], marks[i + 1])
  }

  ghost predicate TablesAt(files: Files, marks: seq<nat>, ops: seq<Op>) {
    && |marks| == |files| + 1
    && forall i {:trigger TableAt(files, marks, ops, i)} :: 0 <= i < |files| ==> TableAt(files, marks, ops, i)
  }

  /** The tables hold the operations from `flushed` on; behind the last mark all are lost. */
  ghost predicate Tabled(files: Files, marks: seq<nat>, flushed: nat, ops: seq<Op>) {
    && TablesAt(files, marks, ops) && marks[0] == flushed
    && marks[|files|] <= |ops| && Written(ops, marks[|files|], |ops|) == {}
  }

  lemma WrittenInPrefix(ops: seq<Op>, longer: seq<Op>, a: nat, b: nat)
    requires a <= b <= |ops| && ops <= longer
    ensures Written(longer, a, b) == Written(ops, a, b)
  {
    assert longer[a..b] == ops[a..b];
  }

  /** Further operations go into one more table, unless they are all lost. */
  lemma MoreIsTabled(files: Files, marks: seq<nat>, flushed: nat, ops: seq<Op>, longer: seq<Op>)
    requires Tabled(files, marks, flushed, ops) && ops <= longer
    ensures Written(longer, |ops|, |longer|) == {} ==> Tabled(files, marks, flushed, longer)
    ensures forall f {:trigger Labelled(f)} :: Labelled(f) && Sorted(f.entries) && Elements(f.entries) == Written(longer, |ops|, |longer|) ==>
      Tabled(files + [f], marks + [|longer|], flushed, longer)
  {
    var last := marks[|files|];
    WrittenInPrefix(ops, longer, last, |ops|);
    WrittenAddsUp(longer, last, |ops|, |longer|);
    forall i | 0 <= i < |files| ensures TableAt(files, marks, longer, i) {
      assert TableAt(files, marks, ops, i);
      WrittenInPrefix(ops, longer, marks[i], marks[i + 1]);
    }
    forall f {:trigger Labelled(f)} | Labelled(f) && Sorted(f.entries) && Elements(f.entries) == Written(longer, |ops|, |longer|)
      ensures Tabled(files + [f], marks + [|longer|], flushed, longer)
    {
      var files', marks' := files + [f], marks + [|longer|];
      forall i | 0 <= i < |files'| ensures TableAt(files', marks', longer, i) {
        assert i < |files| ==> TableAt(files, marks, longer, i);
      }
      NothingWritten(longer, |longer|);
    }
  }

  /** Numbers are handed out in order, from `first` on and below `next`. */
  ghost predicate NumbersAscend(files: Files, first: nat, next: nat) {
    && first <= next && (forall i :: 0 <= i < |files| ==> first <= files[i].number < next)
    && forall i, j :: 0 <= i < j < |files| ==> files[i].number < files[j].number
  }

  /** The version serves the operations up to `n`. */
  ghost predicate Serves(v: Version, ops: seq<Op>, n: nat) {
    && n <= |ops| && FromHistory(VersionEntries(v), ops[..n]) && Faithful(VersionEntries(v), ops[..n], n)
  }

  lemma TableServes(v: Version, f: File, ops: seq<Op>, a: nat, b: nat)
    requires Valid(v) && NumbersBelow(v, f.number) && Serves(v, ops, a) && a <= b <= |ops| < MAX_SEQUENCE
    requires Labelled(f) && Sorted(f.entries) && Elements(f.entries) == Written(ops, a, b)
    ensures var w := WithTable(v, f);
      Valid(w) && NumbersBelow(w, f.number + 1) && Serves(w, ops, b) && forall g :: g in w[0] <==> g in v[0] || g == f
  {
    var w, V := WithTable(v, f), VersionEntries(v);
    forall e | e in f.entries ensures a < e.key.seqno <= b {
      assert e in Elements(f.entries);
      WrittenIs(ops, a, b, e);
    }
    assert ValidFile(f);
    forall g | g in v[0] ensures !Tied(f, g) {
    }
    LaterOperationsAdd(V, ops, a, b);
    HistoryIsUnique(V + Written(ops, a, b), ops[..b]);
    FaithfulAbove(V + Written(ops, a, b), ops[..b], a, b);
    assert FileAdded(v, 0, f, w) && SafeLevel(v, 0, f);
    FlushKeepsValid(v, 0, f, w);
  }

  /** All tables but the last. */
  lemma FrontTables(files: Files, marks: seq<nat>, ops: seq<Op>, first: nat, next: nat)
    requires files != [] && TablesAt(files, marks, ops) && NumbersAscend(files, first, next)
    ensures var n := |files| - 1;
      && TablesAt(files[..n], marks[..n + 1], ops) && NumbersAscend(files[..n], first, files[n].number)
      && TableAt(files, marks, ops, n) && files[n].number + 1 <= next
  {
    var n := |files| - 1;
    var front, earlier := files[..n], marks[..n + 1];
    forall i | 0 <= i < n ensures TableAt(front, earlier, ops, i) {
      assert TableAt(files, marks, ops, i);
    }
  }

  /** Tables added in order serve the operations up to the last mark. */
  lemma {:induction false} TablesServe(v: Version, files: Files, marks: seq<nat>, ops: seq<Op>, first: nat, next: nat)
    requires Valid(v) && NumbersBelow(v, first) && NumbersAscend(files, first, next) && |ops| < MAX_SEQUENCE
    requires TablesAt(files, marks, ops) && Serves(v, ops, marks[0])
    ensures var w := WithTables(v, files);
      Valid(w) && NumbersBelow(w, next) && Serves(w, ops, marks[|files|]) && forall g :: g in w[0] <==> g in v[0] || g in files
    decreases |files|
  {
    if files == [] {
      NumbersBelowMore(v, first, next);
    } else {
      var n := |files| - 1;
      var w, f := WithTables(v, files[..n]), files[n];
      FrontTables(files, marks, ops, first, next);
      TablesServe(v, files[..n], marks[..n + 1], ops, first, f.number);
      TableServes(w, f, ops, marks[n], marks[n + 1]);
      NumbersBelowMore(WithTable(w, f), f.number + 1, next);
      assert files == files[..n] + [f];
    }
  }

  // ---------------------------------------------------------------- crashes

  /** After a crash each operation is there or lost, and those the version serves are there. */
  ghost predicate ComesBack(ops: seq<Op>, flushed: nat, kept: seq<Op>) {
    && flushed <= |kept| <= |ops|
    && forall i :: 0 <= i < |kept| ==> kept[i] == ops[i] || (i >= flushed && kept[i].Lost?)
  }

  /** The store is open again: what the logs have given back is in new tables, and no snapshot is
      live. */
  ghost predicate Reopens(db: Db, flushed: nat, kept: seq<Op>, first: nat, files: Files, marks: seq<nat>, db': Db) {
    && Tabled(files, marks, flushed, kept)
    && NumbersBelow(db.version, first) && NumbersAscend(files, first, db'.nextFileNumber)
    && SortedBySmallest(db.version[0])
    && db' == Db([], None, WithTables(db.version, files), |kept|, [], db'.nextFileNumber)
  }

  /** The reopened store serves the operations that came back, and can crash again. */
  lemma RecoveryKeepsInv(db: Db, ops: seq<Op>, flushed: nat, switched: nat, kept: seq<Op>, first: nat, files: Files, marks: seq<nat>, db': Db)
    requires Inv(db, ops) && InEpochs(db, ops, flushed, switched)
    requires ComesBack(ops, flushed, kept) && Reopens(db, flushed, kept, first, files, marks, db')
    ensures Inv(db', kept) && InEpochs(db', kept, |kept|, |kept|)
  {
    assert kept[..flushed] == ops[..flushed];
    TablesServe(db.version, files, marks, kept, first, db'.nextFileNumber);
    var S := VersionEntries(db'.version);
    LaterOperationsAdd(S, kept, marks[|files|], |kept|);
    assert S + {} == S && kept[..|kept|] == kept;
    FaithfulAbove(S, kept, marks[|files|], |kept|);
    assert AllEntries(db') == S;
    NothingWritten(kept, |kept|);
  }

  /** What happens to a store: a step, or a crash after which it is open again. */
  datatype Event = Made(step: Step) | Crashed(kept: seq<Op>, first: nat, files: Files, marks: seq<nat>)

  datatype Situation = Situation(db: Db, ops: seq<Op>, flushed: nat, switched: nat)

  const AT_FIRST := Situation(EMPTY_DB, [], 0, 0)

  ghost predicate Happens(a: Situation, event: Event, b: Situation) {
    match event
    case Made(step) =>
      && Next(a.db, a.ops, step, b.db, b.ops) && Harmless(a.db, step)
      && (b.flushed, b.switched) == NextEpochs(a.db, a.ops, step, a.flushed, a.switched)
    case Crashed(kept, first, files, marks) =>
      && ComesBack(a.ops, a.flushed, kept) && Reopens(a.db, a.flushed, kept, first, files, marks, b.db)
      && b.ops == kept && b.flushed == b.switched == |kept|
  }

  ghost predicate Kept(s: Situation) {
    Inv(s.db, s.ops) && InEpochs(s.db, s.ops, s.flushed, s.switched)
  }

  lemma EventKeeps(a: Situation, event: Event, b: Situation)
    requires Kept(a) && Happens(a, event, b)
    ensures Kept(b)
    ensures a.flushed <= b.flushed <= |b.ops| && b.ops[..a.flushed] == a.ops[..a.flushed]
  {
    match event
    case Made(step) =>
      StepKeepsInv(a.db, a.ops, step, b.db, b.ops);
      StepKeepsEpochs(a.db, a.ops, step, b.db, b.ops, a.flushed, a.switched);
    case Crashed(kept, first, files, marks) =>
      RecoveryKeepsInv(a.db, a.ops, a.flushed, a.switched, kept, first, files, marks, b.db);
  }

  ghost predicate Life(trace: seq<Situation>, events: seq<Event>) {
    && |trace| == |events| + 1
    && trace[0] == AT_FIRST
    && forall i {:trigger events[i]} :: 0 <= i < |events| ==> Happens(trace[i], events[i], trace[i + 1])
  }

  lemma AtFirstKept()
    ensures Kept(AT_FIRST)
  {
    EmptyDbInv();
    EmptyDbInEpochs();
  }

  lemma {:induction false} LifeKeepsInv(trace: seq<Situation>, events: seq<Event>, n: nat)
    requires Life(trace, events) && n < |trace|
    ensures Kept(trace[n])
  {
    if n == 0 {
      AtFirstKept();
    } else {
      LifeKeepsInv(trace, events, n - 1);
      EventKeeps(trace[n - 1], events[n - 1], trace[n]);
    }
  }

  /** Through any number of crashes, reads at a live snapshot return what replaying the operations
      returns that have not been lost. */
  lemma ReadsFollowWhatIsLeft(trace: seq<Situation>, events: seq<Event>, n: nat, user: UserKey, s: nat)
    requires Life(trace, events) && n < |trace|
    requires s in trace[n].db.snapshots || s == trace[n].db.lastSequence
    ensures s <= |trace[n].ops| && Visible(AllEntries(trace[n].db), user, s) == ReadAt(trace[n].ops, user, s)
  {
    LifeKeepsInv(trace, events, n);
    FloorIsReached(trace[n].db);
  }

  /** What a table has taken up once is never lost, whatever crashes follow. */
  lemma {:induction false} TablesOutliveCrashes(trace: seq<Situation>, events: seq<Event>, m: nat, n: nat)
    requires Life(trace, events) && m <= n < |trace|
    ensures trace[m].flushed <= trace[n].flushed <= |trace[n].ops| && trace[m].flushed <= |trace[m].ops|
    ensures trace[n].ops[..trace[m].flushed] == trace[m].ops[..trace[m].flushed]
    decreases n
  {
    LifeKeepsInv(trace, events, n);
    LifeKeepsInv(trace, events, m);
    if m < n {
      TablesOutliveCrashes(trace, events, m, n - 1);
      LifeKeepsInv(trace, events, n - 1);
      EventKeeps(trace[n - 1], events[n - 1], trace[n]);
      var a, b, k := trace[n - 1], trace[n], trace[m].flushed;
      assert a.ops[..k] == a.ops[..a.flushed][..k] && b.ops[..k] == b.ops[..a.flushed][..k];
    }
  }
}

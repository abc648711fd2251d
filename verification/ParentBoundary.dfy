/**
 Why the hypothesis on compaction steps is needed.  SetupOtherInputs completes the inputs with
 their boundary files but not the files it takes from the next level (db/version_set.cc:1407-1411),
 so a file left behind there can start with older entries of a tombstone's user key.  A run whose
 background steps are the ones the code makes ends with a read that returns a deleted value.
 */
module ParentBoundary {
  import opened Wrappers
  import opened DbFormat
  import opened Visibility
  import opened Tables
  import opened Versions
  import opened Inputs
  import opened InputSets
  import opened Triggers
  import opened Compactions
  import opened VersionEdits
  import opened Replacement
  import opened DropRules
  import opened Iterators
  import opened CompactionWork
  import opened History
  import opened Store
  import opened Background

  // ---------------------------------------------------------------- the run

  const A: UserKey := 1
  const M: UserKey := 2
  const Z: UserKey := 3

  const Z1 := Entry(InternalKey(Z, 1, TypeValue), "z")
  const A2 := Entry(InternalKey(A, 2, TypeValue), "a")
  const M3 := Entry(InternalKey(M, 3, TypeValue), "m")
  const M4 := Entry(InternalKey(M, 4, TypeDeletion), "")
  const A5 := Entry(InternalKey(A, 5, TypeValue), "b")

  /** The default bound of two megabytes.  The value of `Z1` takes a hundred megabytes, and every
      other entry takes one. */
  const MAX_FILE_SIZE: nat := 2 * MEGABYTE

  function Megabytes(es: seq<Entry>): nat { if Z1 in es then 100 * MEGABYTE else |es| * MEGABYTE }

  function EntrySizes(): Sizes { Sizes(Megabytes, Megabytes) }

  const BOTTOM := File(3, 100 * MEGABYTE, Z1.key, Z1.key, [Z1])
  const FLUSHED := File(5, 3 * MEGABYTE, A2.key, M3.key, [A2, M4, M3])
  /** The compaction of `FLUSHED` cuts its output between the tombstone and the value under it. */
  const UPPER := File(6, 2 * MEGABYTE, A2.key, M4.key, [A2, M4])
  const LOWER := File(7, MEGABYTE, M3.key, M3.key, [M3])
  const LATER := File(9, MEGABYTE, A5.key, A5.key, [A5])
  const MERGED := File(10, MEGABYTE, A5.key, A5.key, [A5])

  function TwoLevels(two: Files, three: Files): Version { [[], [], two, three, [], [], []] }

  const V1 := TwoLevels([BOTTOM], [])
  const V2 := TwoLevels([], [BOTTOM])
  const V3 := TwoLevels([FLUSHED], [BOTTOM])
  const V4 := TwoLevels([], [UPPER, LOWER, BOTTOM])
  const V5 := TwoLevels([LATER], [UPPER, LOWER, BOTTOM])
  const V6 := TwoLevels([], [MERGED, LOWER, BOTTOM])

  const B0: seq<Write> := [Put(Z, "z")]
  const B1: seq<Write> := [Put(A, "a"), Put(M, "m")]
  const B2: seq<Write> := [Delete(M)]
  const B3: seq<Write> := [Put(A, "b")]

  const D1 := Db([Z1], None, EMPTY_VERSION, 1, [], 2)
  const D2 := Db([], Some([Z1]), EMPTY_VERSION, 1, [], 3)
  const D3 := Db([], None, V1, 1, [], 4)
  const D4 := Db([], None, V2, 1, [], 4)
  const D5 := Db([A2, M3], None, V2, 3, [], 4)
  const D6 := Db([A2, M3], None, V2, 3, [3], 4)
  const D7 := Db([A2, M4, M3], None, V2, 4, [3], 4)
  const D8 := Db([], Some([A2, M4, M3]), V2, 4, [3], 5)
  const D9 := Db([], None, V3, 4, [3], 6)
  const D10 := Db([], None, V4, 4, [3], 8)
  const D11 := Db([], None, V4, 4, [], 8)
  const D12 := Db([A5], None, V4, 5, [], 8)
  const D13 := Db([], Some([A5]), V4, 5, [], 9)
  const D14 := Db([], None, V5, 5, [], 10)
  const D15 := Db([], None, V6, 5, [], 11)

  function Sink(): Step { MoveStep(2, BOTTOM) }
  function Split(): Step { CompactStep(2, [FLUSHED], [], [UPPER, LOWER]) }
  function Last(): Step { CompactStep(2, [LATER], [UPPER], [MERGED]) }

  /** `BOTTOM` fills level 2, whose size makes it due; the other compactions are asked for by hand. */
  function SinkPlan(): Plan { Plan(BySize(None, 0), [BOTTOM], Choice([BOTTOM], [], [], []), []) }
  function SplitPlan(): Plan { Plan(ByHand(None, None), [FLUSHED], Choice([FLUSHED], [], [], []), []) }
  function LastPlan(): Plan { Plan(ByHand(None, None), [LATER], Choice([LATER], [UPPER], [LATER], [UPPER]), []) }

  // ---------------------------------------------------------------- small facts

  lemma OneFile(f: File)
    ensures FilesEntries([f]) == Elements(f.entries) && FilesEntries([]) == {}
  {
    assert forall e :: e in f.entries ==> f in [f] && e in FilesEntries([f]);
  }

  lemma TwoFiles(f: File, g: File)
    ensures FilesEntries([f, g]) == Elements(f.entries) + Elements(g.entries)
  {
    assert f in [f, g] && g in [f, g];
  }

  lemma Lists(a: Entry, b: Entry, c: Entry)
    ensures Elements([]) == {} && Elements([a]) == {a} && Elements([a, b]) == {a, b} && Elements([a, b, c]) == {a, b, c}
  {
    assert a in [a] && a in [a, b] && a in [a, b, c] && b in [a, b] && b in [a, b, c] && c in [a, b, c];
  }

  lemma Batch1(op: Write, last: nat)
    ensures BatchEntries([op], last, 1) == {OpEntry(op, last + 1)}
  {
    BatchEntriesStep([op], last, 0);
  }

  lemma OneEntry(f: File)
    requires f.entries != [] && |f.entries| == 1 && f.smallest == f.largest == f.entries[0].key && f.entries[0].key.seqno <= MAX_SEQUENCE
    ensures ValidFile(f)
  {
  }

  lemma FilesAreValid()
    ensures ValidFile(BOTTOM) && ValidFile(FLUSHED) && ValidFile(UPPER) && ValidFile(LOWER) && ValidFile(LATER) && ValidFile(MERGED)
  {
    OneEntry(BOTTOM);
    OneEntry(LOWER);
    OneEntry(LATER);
    OneEntry(MERGED);
  }

  /** The overlapping files of a sorted level, told by their members. */
  lemma OverlapIs(files: Files, lo: Option<UserKey>, hi: Option<UserKey>, r: Files)
    requires SortedBySmallest(files) && SortedBySmallest(r)
    requires forall f :: f in r <==> f in files && Overlaps(f, lo, hi)
    ensures OverlappingFiles(files, lo, hi) == r
  {
    OverlappingKeepsOrder(files, lo, hi);
    SortedFilesAreEqual(OverlappingFiles(files, lo, hi), r);
  }

  lemma LargestOfOne(f: File, key: InternalKey)
    ensures IsLargest([f], key) <==> key == f.largest
    ensures IsSmallest([f], key) <==> key == f.smallest
  {
    assert f in [f];
    CompareIsTotalOrder(key, key, key);
  }

  // ---------------------------------------------------------------- writing and flushing

  lemma Writing()
    ensures Writes(EMPTY_DB, [], B0, D1, B0) && Writes(D4, B0, B1, D5, B0 + B1)
  {
    Lists(Z1, Z1, Z1);
    Lists(A2, M3, A2);
    Batch1(B0[0], 0);
    BatchEntriesStep(B1, 1, 0);
    BatchEntriesStep(B1, 1, 1);
    assert [] + B0 == B0;
  }

  lemma WritingMore()
    ensures Writes(D6, B0 + B1, B2, D7, B0 + B1 + B2) && Writes(D11, B0 + B1 + B2, B3, D12, B0 + B1 + B2 + B3)
  {
    Lists(A2, M4, M3);
    Lists(A2, M3, A2);
    Lists(A5, A5, A5);
    Batch1(B2[0], 3);
    Batch1(B3[0], 4);
  }

  lemma NothingToOverlap(begin: Option<UserKey>, end: Option<UserKey>)
    ensures OverlappingFiles([], begin, end) == [] && TotalFileSize([]) == 0
  {
  }

  /** A file that overlaps nothing above level 3 and little there goes to level 2. */
  lemma SinksToLevel2(three: Files, f: File)
    requires TotalFileSize(OverlappingFiles(three, Some(f.smallest.user), Some(f.largest.user))) <= 10 * MAX_FILE_SIZE
    ensures PickedLevel(TwoLevels([], three), MAX_FILE_SIZE, f.smallest.user, f.largest.user, 2)
  {
    NothingToOverlap(Some(f.smallest.user), Some(f.largest.user));
  }

  lemma FlushingBottom()
    ensures Flushes(D2, 2, BOTTOM, D3) && AsCoded(D2, MAX_FILE_SIZE, EntrySizes(), SinkPlan(), FlushStep(2, BOTTOM))
  {
    NothingToOverlap(Some(Z), Some(Z));
    SinksToLevel2([], BOTTOM);
    assert EMPTY_VERSION == TwoLevels([], []);
  }

  lemma FlushingMore()
    ensures Flushes(D8, 2, FLUSHED, D9) && AsCoded(D8, MAX_FILE_SIZE, EntrySizes(), SplitPlan(), FlushStep(2, FLUSHED))
  {
    NothingToOverlap(Some(A), Some(M));
    OverlapIs([BOTTOM], Some(A), Some(M), []);
    SinksToLevel2([BOTTOM], FLUSHED);
  }

  lemma FlushingLater()
    ensures Flushes(D13, 2, LATER, D14) && AsCoded(D13, MAX_FILE_SIZE, EntrySizes(), LastPlan(), FlushStep(2, LATER))
  {
    LastParents();
    assert SizeBetween([UPPER], 0, 0) == 0 && SizeBetween([UPPER], 0, 1) == 2 * MEGABYTE;
    SinksToLevel2([UPPER, LOWER, BOTTOM], LATER);
  }

  // ---------------------------------------------------------------- choosing inputs

  /** A lone file of level 2 is complete in itself. */
  lemma Completes(v: Version, f: File)
    requires v[2] == [f] && f.entries != [] && ValidFile(f)
    ensures CompletionOf(v, 2, [f], [f])
  {
    forall first | IsLargest([f], first) ensures BoundaryChain([f], first, []) && NoBoundary([f], ChainEnd(first, [])) {
      LargestOfOne(f, first);
      FileEnds(f);
      CompareIsTotalOrder(f.smallest, f.largest, f.smallest);
    }
    assert [f][..1] == [f] && [f][1..] == [];
  }

  lemma ParentsAre(v: Version, f: File, parents: Files)
    requires OverlappingFiles(v[3], Some(f.smallest.user), Some(f.largest.user)) == parents
    ensures ParentsOf(v, 2, [f], parents)
  {
    forall smallest, largest | IsSmallest([f], smallest) && IsLargest([f], largest)
      ensures parents == OverlappingFiles(v[3], Some(smallest.user), Some(largest.user))
    {
      LargestOfOne(f, smallest);
      LargestOfOne(f, largest);
    }
  }

  lemma NoGrandparents(v: Version, inputs: Files)
    requires v[4] == []
    ensures GrandparentsOf(v, 2, inputs, [])
  {
  }

  lemma WholeRange(v: Version, f: File)
    requires v[2] == [f] && ValidFile(f)
    ensures TakenFromRange(v, MAX_FILE_SIZE, 2, None, None, [f])
  {
    OverlapIs([f], None, None, [f]);
  }

  /** A lone file of level 2 and the files it overlaps are valid inputs. */
  lemma LoneInput(v: Version, f: File, parents: Files)
    requires Valid(v) && v[2] == [f] && ValidFile(f)
    requires OverlappingFiles(v[3], Some(f.smallest.user), Some(f.largest.user)) == parents
    ensures InputsValid(v, 2, [f], parents)
  {
    LargestOfOne(f, f.largest);
    LargestOfOne(f, f.smallest);
    Completes(v, f);
    SingletonIsBlock(v[2], f);
    assert [f] + [] == [f] && ChainEnd(f.largest, []) == f.largest && [f][1..] == [];
    BoundaryFilesComplete(v, 2, [f], f.largest, [], f.largest);
    ParentsComplete(v, 2, [f], parents, f.smallest, f.largest);
  }

  lemma BottomIsDue()
    ensures SizeDue(V1, 2) && NextToCompact(V1[2], None, 0)
  {
    assert SizeBetween([BOTTOM], 0, 0) == 0 && TotalFileSize([BOTTOM]) == 100 * MEGABYTE;
    NothingToOverlap(None, None);
    assert MaxBytes(2) == 104857600.0;
    assert Score(V1, 2) == 1.0;
    forall l | 0 <= l < NUM_LEVELS && l != 2 ensures Score(V1, l) == 0.0 {
      assert V1[l] == [];
    }
  }

  lemma SinkIsPlanned()
    ensures Planned(V1, MAX_FILE_SIZE, 2, SinkPlan(), [BOTTOM], [])
  {
    FilesAreValid();
    BottomIsDue();
    NothingToOverlap(Some(Z), Some(Z));
    Completes(V1, BOTTOM);
    ParentsAre(V1, BOTTOM, []);
    NoGrandparents(V1, [BOTTOM] + []);
  }

  lemma SplitIsPlanned()
    ensures Planned(V3, MAX_FILE_SIZE, 2, SplitPlan(), [FLUSHED], [])
    ensures ReachedByRange(V3, 2, None, None)
  {
    FilesAreValid();
    OverlapIs([BOTTOM], Some(A), Some(M), []);
    Completes(V3, FLUSHED);
    ParentsAre(V3, FLUSHED, []);
    WholeRange(V3, FLUSHED);
    NoGrandparents(V3, [FLUSHED] + []);
    assert BOTTOM in V3[3] && Overlaps(BOTTOM, None, None);
  }

  lemma LastParents()
    ensures OverlappingFiles(V5[3], Some(A), Some(A)) == [UPPER] && V5[3] == [UPPER, LOWER, BOTTOM]
  {
    OverlapIs([UPPER, LOWER, BOTTOM], Some(A), Some(A), [UPPER]);
  }

  /** The range of both files calls for no further file of level 2. */
  lemma LastExpansion()
    ensures ExpansionOf(V5, 2, [LATER], [UPPER], [LATER])
  {
    FilesAreValid();
    var files := [LATER] + [UPPER];
    assert LATER in files && UPPER in files;
    assert IsSmallest(files, A5.key) && IsLargest(files, M4.key);
    var lo, hi := Some(A5.key.user), Some(M4.key.user);
    OverlapIs([LATER], lo, hi, [LATER]);
    assert OverlappingFiles(V5[2], lo, hi) == [LATER];
    assert Spans(V5, 2, files, [LATER]);
    Completes(V5, LATER);
  }

  lemma LastIsChosen()
    ensures ChosenInputs(V5, MAX_FILE_SIZE, 2, [LATER], LastPlan().choice, [LATER], [UPPER])
  {
    FilesAreValid();
    LastParents();
    Completes(V5, LATER);
    ParentsAre(V5, LATER, [UPPER]);
    LastExpansion();
  }

  lemma LastIsPlanned()
    ensures Planned(V5, MAX_FILE_SIZE, 2, LastPlan(), [LATER], [UPPER])
    ensures ReachedByRange(V5, 2, None, None)
  {
    FilesAreValid();
    LastIsChosen();
    WholeRange(V5, LATER);
    NoGrandparents(V5, [LATER] + [UPPER]);
    LastIsReached();
  }

  lemma LastIsReached()
    ensures ReachedByRange(V5, 2, None, None)
  {
    assert BOTTOM in V5[3] && Overlaps(BOTTOM, None, None);
  }

  lemma Sinking()
    ensures Moves(D3, 2, BOTTOM, D4) && AsCoded(D3, MAX_FILE_SIZE, EntrySizes(), SinkPlan(), Sink())
  {
    SinkIsPlanned();
    FilesAreValid();
    assert forall l :: 0 <= l < NUM_LEVELS && l != 2 && l != 3 ==> V2[l] == V1[l];
  }

  // ---------------------------------------------------------------- compacting

  lemma NoBytes(a: nat, b: nat)
    ensures SizeBetween([], a, b) == 0
    decreases b
  {
    if a < b { NoBytes(a, b - 1); }
  }

  /** Without grandparents only full outputs are finished early. */
  lemma NoStops(sizes: Sizes, input: seq<Entry>, q: nat)
    requires q < |input|
    ensures q !in CuttingOf([], MAX_FILE_SIZE, sizes, input).stops
  {
    var k := CuttingOf([], MAX_FILE_SIZE, sizes, input);
    NoBytes(k.Passed(k.LastStop(q)), k.Passed(q));
    assert !k.TooMuch(q);
  }

  lemma CuttingFields(grandparents: Files, maxFileSize: nat, sizes: Sizes, input: seq<Entry>)
    ensures var k := CuttingOf(grandparents, maxFileSize, sizes, input);
            k.grandparents == grandparents && k.maxFileSize == maxFileSize && k.sizes == sizes && k.input == input
  {
  }

  lemma CutOfOne(files: Files, f: File)
    requires |f.entries| == 1 && Z1 !in f.entries && Labelled(f) && f.size == MEGABYTE && Mergeable(files)
    ensures CuttingOf([], MAX_FILE_SIZE, EntrySizes(), MergeFiles(files)).WellCut([f])
  {
    var input := MergeFiles(files);
    forall q | 0 <= q < |input| ensures q !in CuttingOf([], MAX_FILE_SIZE, EntrySizes(), input).stops {
      NoStops(EntrySizes(), input, q);
    }
  }

  lemma SplitEntries()
    ensures InputEntries([FLUSHED], []) == {A2, M4, M3} && FilesEntries([UPPER, LOWER]) == {A2, M4, M3}
  {
    OneFile(FLUSHED);
    TwoFiles(UPPER, LOWER);
    Lists(A2, M4, M3);
    Lists(A2, M4, M4);
    Lists(M3, M3, M3);
  }

  lemma SplitIsCut()
    requires Valid(V3)
    ensures InputsValid(V3, 2, [FLUSHED], []) && CutAsCoded([], MAX_FILE_SIZE, EntrySizes(), [FLUSHED], [], [UPPER, LOWER])
  {
    FilesAreValid();
    OverlapIs([BOTTOM], Some(A), Some(M), []);
    LoneInput(V3, FLUSHED, []);
    MergedInputs(V3, 2, [FLUSHED], []);
    var input := MergeFiles([FLUSHED] + []);
    SplitEntries();
    Lists(A2, M4, M3);
    SortedIsUnique(input, [A2, M4, M3]);
    SplitIsWellCut(input);
  }

  lemma SplitIsWellCut(input: seq<Entry>)
    ensures CuttingOf([], MAX_FILE_SIZE, EntrySizes(), input).WellCut([UPPER, LOWER])
  {
    var k := CuttingOf([], MAX_FILE_SIZE, EntrySizes(), input);
    forall q | 0 <= q < |input| ensures q !in k.stops {
      NoStops(EntrySizes(), input, q);
    }
    CuttingFields([], MAX_FILE_SIZE, EntrySizes(), input);
    assert Labelled(UPPER) && Labelled(LOWER);
    assert k.Full(UPPER.entries);
    assert !k.Full(UPPER.entries[..1]);
  }

  /** A manual compaction of level 2, while the snapshot still needs both entries of `M`. */
  lemma Splitting()
    requires Valid(V3)
    ensures Compacts(D9, 2, [FLUSHED], [], [UPPER, LOWER], D10) && Harmless(D9, Split())
    ensures AsCoded(D9, MAX_FILE_SIZE, EntrySizes(), SplitPlan(), Split())
  {
    SplitIsPlanned();
    SplitIsCut();
    SplitCompacts();
    SplitIsHarmless();
  }

  lemma SplitIsHarmless()
    ensures Harmless(D9, Split())
  {
    SplitEntries();
  }

  lemma SplitCompacts()
    requires InputsValid(V3, 2, [FLUSHED], [])
    ensures Compacts(D9, 2, [FLUSHED], [], [UPPER, LOWER], D10)
  {
    SplitReplaces();
    SplitEntries();
    SplitKeeps();
  }

  lemma SplitKeeps()
    ensures KeepsExactly(V3, 2, {A2, M4, M3}, 3, {A2, M4, M3})
  {
  }

  lemma SplitReplaces()
    ensures Replaced(V3, 2, [FLUSHED], [], [UPPER, LOWER], V4) && MadeFrom([FLUSHED], [], [UPPER, LOWER])
  {
    FilesAreValid();
    SplitEntries();
    assert forall l :: 0 <= l < NUM_LEVELS && l != 2 && l != 3 ==> V4[l] == V3[l];
    forall f, e | f in [UPPER, LOWER] && e in f.entries ensures e in FilesEntries([FLUSHED]) {
      assert e in FilesEntries([UPPER, LOWER]);
      OneFile(FLUSHED);
    }
  }

  lemma LastEntries()
    ensures InputEntries([LATER], [UPPER]) == {A5, A2, M4} && FilesEntries([MERGED]) == {A5}
  {
    OneFile(LATER);
    OneFile(UPPER);
    OneFile(MERGED);
    Lists(A2, M4, M4);
    Lists(A5, A5, A5);
  }

  lemma LastReplaces()
    ensures Replaced(V5, 2, [LATER], [UPPER], [MERGED], V6) && MadeFrom([LATER], [UPPER], [MERGED])
  {
    FilesAreValid();
    assert forall l :: 0 <= l < NUM_LEVELS && l != 2 && l != 3 ==> V6[l] == V5[l];
    OneFile(LATER);
  }

  /** The next one takes `UPPER` along but leaves `LOWER` behind. */
  lemma Finishing()
    requires Valid(V5)
    ensures Compacts(D14, 2, [LATER], [UPPER], [MERGED], D15)
    ensures AsCoded(D14, MAX_FILE_SIZE, EntrySizes(), LastPlan(), Last())
  {
    FilesAreValid();
    LastParents();
    LoneInput(V5, LATER, [UPPER]);
    LastCompacts();
    LastIsCoded();
  }

  lemma LastCompacts()
    requires InputsValid(V5, 2, [LATER], [UPPER])
    ensures Compacts(D14, 2, [LATER], [UPPER], [MERGED], D15)
  {
    LastReplaces();
    LastEntries();
    LastKeeps();
  }

  lemma LastIsCoded()
    requires Valid(V5) && InputsValid(V5, 2, [LATER], [UPPER])
    ensures AsCoded(D14, MAX_FILE_SIZE, EntrySizes(), LastPlan(), Last())
  {
    LastIsPlanned();
    MergedInputs(V5, 2, [LATER], [UPPER]);
    CutOfOne([LATER] + [UPPER], MERGED);
  }

  lemma LastKeeps()
    ensures KeepsExactly(V5, 2, {A5, A2, M4}, 5, {A5})
  {
    assert Hidden({A5, A2, M4}, 5, A2);
    assert Obsolete(V5, 2, 5, M4);
  }

  // ---------------------------------------------------------------- the result

  lemma TheWriteIsDeleted()
    ensures ReadAt(B0 + B1 + B2 + B3, M, 5) == None
  {
    ReadAtLast(B0 + B1 + B2, B3[0], M);
    ReadAtLast(B0 + B1, B2[0], M);
  }

  lemma TheValueShows()
    ensures Visible(AllEntries(D15), M, 5) == Some("m")
  {
    assert M3 in LOWER.entries && LOWER in V6[3];
    var S := AllEntries(D15);
    forall e | e in S ensures e == A5 || e == M3 || e == Z1 {
      var l, f :| 0 <= l < NUM_LEVELS && f in V6[l] && e in f.entries;
      assert l == 3;
    }
    assert IsNewest(S, M, 5, M3);
    VisibleIs(S, M, 5, M3);
  }

  lemma UpToFirstFiles() returns (trace: seq<Moment>, steps: seq<Step>, plans: seq<Plan>)
    ensures CodedRun(trace, steps, plans, MAX_FILE_SIZE, EntrySizes()) && trace[|steps|] == Moment(D5, B0 + B1)
  {
    Writing();
    FlushingBottom();
    Sinking();
    EmptyRun();
    trace, steps, plans := [Moment(EMPTY_DB, [])], [], [];
    trace, steps, plans := Continue(trace, steps, plans, WriteStep(B0), SinkPlan(), D1, B0);
    trace, steps, plans := Continue(trace, steps, plans, SwitchStep, SinkPlan(), D2, B0);
    trace, steps, plans := Continue(trace, steps, plans, FlushStep(2, BOTTOM), SinkPlan(), D3, B0);
    trace, steps, plans := Continue(trace, steps, plans, Sink(), SinkPlan(), D4, B0);
    trace, steps, plans := Continue(trace, steps, plans, WriteStep(B1), SinkPlan(), D5, B0 + B1);
  }

  lemma UpToSplit() returns (trace: seq<Moment>, steps: seq<Step>, plans: seq<Plan>)
    ensures CodedRun(trace, steps, plans, MAX_FILE_SIZE, EntrySizes()) && trace[|steps|] == Moment(D10, B0 + B1 + B2)
  {
    trace, steps, plans := UpToFirstFiles();
    WritingMore();
    FlushingMore();
    trace, steps, plans := Continue(trace, steps, plans, TakeSnapshotStep, SplitPlan(), D6, B0 + B1);
    trace, steps, plans := Continue(trace, steps, plans, WriteStep(B2), SplitPlan(), D7, B0 + B1 + B2);
    trace, steps, plans := Continue(trace, steps, plans, SwitchStep, SplitPlan(), D8, B0 + B1 + B2);
    trace, steps, plans := Continue(trace, steps, plans, FlushStep(2, FLUSHED), SplitPlan(), D9, B0 + B1 + B2);
    RunKeepsInv(trace, steps, |steps|, |steps|);
    Splitting();
    trace, steps, plans := Continue(trace, steps, plans, Split(), SplitPlan(), D10, B0 + B1 + B2);
  }

  lemma Continue(trace: seq<Moment>, steps: seq<Step>, plans: seq<Plan>, step: Step, plan: Plan, db: Db, ops: seq<Op>)
    returns (trace': seq<Moment>, steps': seq<Step>, plans': seq<Plan>)
    requires CodedRun(trace, steps, plans, MAX_FILE_SIZE, EntrySizes())
    requires Next(trace[|steps|].db, trace[|steps|].ops, step, db, ops) && Harmless(trace[|steps|].db, step)
    requires IsBackground(step) ==> AsCoded(trace[|steps|].db, MAX_FILE_SIZE, EntrySizes(), plan, step)
    ensures CodedRun(trace', steps', plans', MAX_FILE_SIZE, EntrySizes())
    ensures trace'[|steps'|] == Moment(db, ops)
  {
    trace', steps', plans' := ExtendCoded(trace, steps, plans, MAX_FILE_SIZE, EntrySizes(), step, plan, db, ops);
  }

  /** After fourteen harmless steps, in the background those the code makes, the compaction that a
      call of CompactRange for all keys now makes lets a read of the latest sequence number return
      a value that was deleted. */
  lemma DeletedValueReturns() returns (trace: seq<Moment>, steps: seq<Step>, plans: seq<Plan>)
    ensures CodedRun(trace, steps, plans, MAX_FILE_SIZE, EntrySizes())
    ensures trace[|steps|] == Moment(D14, B0 + B1 + B2 + B3)
    ensures Next(D14, B0 + B1 + B2 + B3, Last(), D15, B0 + B1 + B2 + B3)
    ensures AsCoded(D14, MAX_FILE_SIZE, EntrySizes(), LastPlan(), Last())
    ensures LastPlan().cause == ByHand(None, None) && ReachedByRange(D14.version, 2, None, None)
    ensures ReadAt(B0 + B1 + B2 + B3, M, D15.lastSequence) == None
    ensures Visible(AllEntries(D15), M, D15.lastSequence) == Some("m")
  {
    trace, steps, plans := UpToSplit();
    WritingMore();
    FlushingLater();
    trace, steps, plans := Continue(trace, steps, plans, ReleaseSnapshotStep(0), LastPlan(), D11, B0 + B1 + B2);
    trace, steps, plans := Continue(trace, steps, plans, WriteStep(B3), LastPlan(), D12, B0 + B1 + B2 + B3);
    trace, steps, plans := Continue(trace, steps, plans, SwitchStep, LastPlan(), D13, B0 + B1 + B2 + B3);
    trace, steps, plans := Continue(trace, steps, plans, FlushStep(2, LATER), LastPlan(), D14, B0 + B1 + B2 + B3);
    RunKeepsInv(trace, steps, |steps|, |steps|);
    Finishing();
    LastIsPlanned();
    TheWriteIsDeleted();
    TheValueShows();
  }
}

/**
 The database object: its methods carry out the steps of the store (db/db_impl.cc).
 */
module DbImpl {
  import opened Wrappers
  import opened DbFormat
  import opened Visibility
  import opened Tables
  import opened Versions
  import opened InputSets
  import opened Triggers
  import opened Compactions
  import opened VersionEdits
  import opened Replacement
  import opened DropRules
  import opened CompactionWork
  import opened History
  import opened Store
  import opened Background
  import opened DbIterator
  import opened InternalIterators

  datatype ManualCompaction = ManualCompaction(level: nat, begin: Option<UserKey>, end: Option<UserKey>)

  // ---------------------------------------------------------------- edits of a compaction

  /** The edit takes the inputs out of their levels and puts the outputs into the next level. */
  ghost predicate ReplacingEdit(edit: VersionEdit, level: nat, in0: Files, in1: Files, outputs: Files) {
    && Deletes(edit, level, in0, in1)
    && |edit.newFiles| == |outputs|
    && forall i {:trigger edit.newFiles[i]} :: 0 <= i < |outputs| ==> edit.newFiles[i] == (level + 1, outputs[i])
  }

  ghost predicate HasNumber(files: Files, n: nat) {
    exists f :: f in files && f.number == n
  }

  ghost predicate Deletes(edit: VersionEdit, level: nat, in0: Files, in1: Files) {
    forall l: nat, n: nat {:trigger (l, n) in edit.deletedFiles} :: (l, n) in edit.deletedFiles <==>
      (l == level && HasNumber(in0, n)) || (l == level + 1 && HasNumber(in1, n))
  }

  /** Compaction::AddInputDeletions. */
  method AddInputDeletions(level: nat, in0: Files, in1: Files) returns (edit: VersionEdit)
    ensures Deletes(edit, level, in0, in1) && edit.newFiles == []
  {
    var deleted: set<(nat, nat)> := {};
    for i := 0 to |in0|
      invariant forall l: nat, n: nat :: (l, n) in deleted <==> l == level && HasNumber(in0[..i], n)
    {
      deleted := deleted + {(level, in0[i].number)};
      assert in0[..i + 1] == in0[..i] + [in0[i]];
    }
    assert in0[..|in0|] == in0;
    for i := 0 to |in1|
      invariant forall l: nat, n: nat :: (l, n) in deleted <==> (l == level && HasNumber(in0, n)) || (l == level + 1 && HasNumber(in1[..i], n))
    {
      deleted := deleted + {(level + 1, in1[i].number)};
      assert in1[..i + 1] == in1[..i] + [in1[i]];
    }
    assert in1[..|in1|] == in1;
    edit := EMPTY_EDIT.(deletedFiles := deleted);
  }

  /** The edit of DBImpl::InstallCompactionResults. */
  method ResultsEdit(level: nat, in0: Files, in1: Files, outputs: Files) returns (edit: VersionEdit)
    ensures ReplacingEdit(edit, level, in0, in1, outputs)
  {
    edit := AddInputDeletions(level, in0, in1);
    var added: seq<(nat, File)> := [];
    for i := 0 to |outputs|
      invariant |added| == i
      invariant forall j :: 0 <= j < i ==> added[j] == (level + 1, outputs[j])
    {
      added := added + [(level + 1, outputs[i])];
    }
    edit := edit.(newFiles := added);
  }

  ghost predicate NewAt(files: Files, outputs: Files) {
    && (forall f, g :: f in files && g in outputs ==> f.number != g.number)
    && (forall i, j :: 0 <= i < j < |outputs| ==> outputs[i].number != outputs[j].number)
  }

  lemma ReplacingEditIsNew(v: Version, level: nat, in0: Files, in1: Files, outputs: Files, edit: VersionEdit)
    requires level + 1 < NUM_LEVELS && ReplacingEdit(edit, level, in0, in1, outputs)
    requires NewAt(v[level + 1], outputs)
    ensures NewNumbers(v, edit)
  {
    forall a | a in edit.newFiles ensures a.0 == level + 1 && a.1 in outputs {
      var i :| 0 <= i < |edit.newFiles| && edit.newFiles[i] == a;
    }
    forall d | d in edit.deletedFiles ensures d.0 < NUM_LEVELS {
      assert (d.0, d.1) in edit.deletedFiles;
    }
  }

  lemma NumberNamesFile(v: Version, l: nat, inputs: Files, f: File)
    requires DistinctNumbers(v) && l < NUM_LEVELS && Subset(inputs, v[l]) && f in v[l]
    ensures HasNumber(inputs, f.number) <==> f in inputs
  {
    if HasNumber(inputs, f.number) {
      var g :| g in inputs && g.number == f.number;
      assert SameNumber(f, g);
    }
  }

  /** Applying the edit replaces the inputs by the outputs. */
  lemma EditReplaces(v: Version, level: nat, in0: Files, in1: Files, outputs: Files, edit: VersionEdit, v': Version)
    requires Valid(v) && level + 1 < NUM_LEVELS && Subset(in0, v[level]) && Subset(in1, v[level + 1])
    requires ReplacingEdit(edit, level, in0, in1, outputs)
    requires forall l :: 0 <= l < NUM_LEVELS ==> SortedBySmallest(v[l]) && SortedBySmallest(v'[l])
    requires forall l, f {:trigger f in v'[l]} :: 0 <= l < NUM_LEVELS ==> (f in v'[l] <==> InAfter(v, edit, l, f))
    ensures Replaced(v, level, in0, in1, outputs, v')
  {
    forall l, f | 0 <= l < NUM_LEVELS ensures (l, f) in edit.newFiles <==> l == level + 1 && f in outputs {
      if l == level + 1 && f in outputs {
        var i :| 0 <= i < |outputs| && outputs[i] == f;
        assert edit.newFiles[i] == (l, f);
      }
    }
    forall l, f | 0 <= l < NUM_LEVELS && f in v[l]
      ensures (l, f.number) in edit.deletedFiles <==> (l == level && f in in0) || (l == level + 1 && f in in1)
    {
      if l == level { NumberNamesFile(v, l, in0, f); }
      if l == level + 1 { NumberNamesFile(v, l, in1, f); }
    }
    forall l | 0 <= l < NUM_LEVELS && l != level && l != level + 1 ensures v'[l] == v[l] {
      SortedFilesAreEqual(v'[l], v[l]);
    }
  }

  lemma LevelsAreSorted(v: Version)
    requires WellFormed(v)
    ensures forall l :: 0 <= l < NUM_LEVELS ==> SortedBySmallest(v[l])
  {
    forall l | 1 <= l < NUM_LEVELS ensures SortedBySmallest(v[l]) {
      DisjointFilesAreSorted(v[l]);
    }
  }

  /** Installs the outputs of a compaction or of a trivial move. */
  method InstallResults(current: Version, level: nat, in0: Files, in1: Files, outputs: Files) returns (v: Version)
    requires Valid(current) && level + 1 < NUM_LEVELS && Subset(in0, current[level]) && Subset(in1, current[level + 1])
    requires NewAt(current[level + 1], outputs)
    ensures Replaced(current, level, in0, in1, outputs, v)
  {
    var edit := ResultsEdit(level, in0, in1, outputs);
    LevelsAreSorted(current);
    ReplacingEditIsNew(current, level, in0, in1, outputs, edit);
    v := LogAndApply(current, edit);
    EditReplaces(current, level, in0, in1, outputs, edit, v);
  }

  /** Installs the table of a flushed memtable. */
  method InstallFlush(current: Version, level: nat, f: File) returns (v: Version)
    requires Valid(current) && level < NUM_LEVELS && NumbersBelow(current, f.number)
    ensures FileAdded(current, level, f, v)
  {
    var edit := EMPTY_EDIT.(newFiles := [(level, f)]);
    LevelsAreSorted(current);
    assert NewNumbers(current, edit);
    v := LogAndApply(current, edit);
    forall l | 0 <= l < NUM_LEVELS && l != level ensures v[l] == current[l] {
      SortedFilesAreEqual(v[l], current[l]);
    }
  }

  lemma NextNumbersAreNew(v: Version, l: nat, outputs: Files, first: nat)
    requires l < NUM_LEVELS && NumbersBelow(v, first) && Numbered(outputs, first)
    ensures NewAt(v[l], outputs)
  {
    forall g | g in outputs ensures g.number >= first {
      var i :| 0 <= i < |outputs| && outputs[i] == g;
    }
  }

  /** Builder::Apply: one seek for every 16 kilobytes, but at least a hundred. */
  function InitialSeeks(f: File): (seeks: int)
    ensures if f.size < 101 * 16384 then seeks == 100 else seeks * 16384 <= f.size < (seeks + 1) * 16384
  {
    if f.size / 16384 < 100 then 100 else f.size / 16384
  }

  /** What DoCompactionWork makes of the merged inputs. */
  method MakeOutputs(c: Compaction, smallestSnapshot: nat, sizes: Sizes, first: nat) returns (outputs: Files)
    requires Valid(c.inputVersion) && c.Untouched() && smallestSnapshot < MAX_SEQUENCE
    requires InputsValid(c.inputVersion, c.level, c.inputs0, c.inputs1)
    modifies c`levelPtrs, c`grandparentIndex, c`seenKey, c`overlappedBytes
    ensures MadeFrom(c.inputs0, c.inputs1, outputs) && Numbered(outputs, first)
    ensures KeepsExactly(c.inputVersion, c.level, InputEntries(c.inputs0, c.inputs1), smallestSnapshot, FilesEntries(outputs))
    ensures CutAsCoded(c.grandparents, c.maxFileSize, sizes, c.inputs0, c.inputs1, outputs)
  {
    MergedInputs(c.inputVersion, c.level, c.inputs0, c.inputs1);
    var input := MergeFiles(c.inputs0 + c.inputs1);
    outputs := DoCompactionWork(c, input, smallestSnapshot, sizes, first);
    OutputsKeepExactly(c.inputVersion, c.level, c.inputs0, c.inputs1, smallestSnapshot, input, outputs, first);
  }

  /** A whole compaction: its outputs take the place of its inputs. */
  method CompactVersion(c: Compaction, smallestSnapshot: nat, sizes: Sizes, first: nat) returns (outputs: Files, v: Version)
    requires Valid(c.inputVersion) && NumbersBelow(c.inputVersion, first)
    requires c.Untouched() && smallestSnapshot < MAX_SEQUENCE
    requires InputsValid(c.inputVersion, c.level, c.inputs0, c.inputs1)
    modifies c`levelPtrs, c`grandparentIndex, c`seenKey, c`overlappedBytes
    ensures MadeFrom(c.inputs0, c.inputs1, outputs) && Numbered(outputs, first)
    ensures KeepsExactly(c.inputVersion, c.level, InputEntries(c.inputs0, c.inputs1), smallestSnapshot, FilesEntries(outputs))
    ensures CutAsCoded(c.grandparents, c.maxFileSize, sizes, c.inputs0, c.inputs1, outputs)
    ensures Replaced(c.inputVersion, c.level, c.inputs0, c.inputs1, outputs, v)
  {
    outputs := MakeOutputs(c, smallestSnapshot, sizes, first);
    NextNumbersAreNew(c.inputVersion, c.level + 1, outputs, first);
    v := InstallResults(c.inputVersion, c.level, c.inputs0, c.inputs1, outputs);
  }

  // ---------------------------------------------------------------- the database

  class DBImpl {
    const maxFileSize: nat
    /** The size the table builder reports for a table of some entries. */
    const sizes: Sizes
    var mem: seq<Entry>
    var imm: Option<seq<Entry>>
    var current: Version
    var lastSequence: nat
    var snapshots: seq<nat>
    var nextFileNumber: nat
    var compactPointer: seq<Option<InternalKey>>
    /** By number, how many seeks are left to files that have been charged since they were added. */
    var allowedSeeks: map<nat, int>
    /** The file of the current version that has used up its seeks. */
    var fileToCompact: Option<(nat, File)>
    /** Every operation written so far. */
    ghost var ops: seq<Op>

    ghost function State(): Db
      reads this
    {
      Db(mem, imm, current, lastSequence, snapshots, nextFileNumber)
    }

    ghost predicate Valid()
      reads this
    {
      Sound() && Faithful(AllEntries(State()), ops, SmallestSnapshot(State()))
    }

    /** What all background work keeps, whether or not its compactions are harmless. */
    ghost predicate Sound()
      reads this
    {
      Structured(State(), ops) && |compactPointer| == NUM_LEVELS && SpentIsCharged()
    }

    ghost predicate SpentIsCharged()
      reads this
    {
      fileToCompact.Some? ==> Charged(current, fileToCompact.value.0, fileToCompact.value.1) && SeeksLeft(fileToCompact.value.1) <= 0
    }

    function SeeksLeft(f: File): int
      reads this
    {
      if f.number in allowedSeeks then allowedSeeks[f.number] else InitialSeeks(f)
    }

    constructor (maxFileSize: nat, sizes: Sizes)
      ensures Valid() && State() == EMPTY_DB && ops == []
    {
      this.maxFileSize, this.sizes := maxFileSize, sizes;
      mem, imm, lastSequence, snapshots, nextFileNumber := [], None, 0, [], 2;
      current := EMPTY_VERSION;
      compactPointer := seq(NUM_LEVELS, _ => None);
      allowedSeeks, fileToCompact := map[], None;
      ops := [];
      new;
      EmptyDbInv();
    }

    /** A file that is charged loses a seek, and the first one to run out is noted. */
    twostate predicate Spent(new seekFile: Option<(nat, File)>)
      reads this
    {
      match seekFile
      case None => allowedSeeks == old(allowedSeeks) && fileToCompact == old(fileToCompact)
      case Some((level, f)) =>
        && SeeksLeft(f) == old(SeeksLeft(f)) - 1 && allowedSeeks == old(allowedSeeks)[f.number := SeeksLeft(f)]
        && fileToCompact == if SeeksLeft(f) <= 0 && old(fileToCompact).None? then seekFile else old(fileToCompact)
    }

    /** Version::UpdateStats.  The answer is whether a compaction may have become due. */
    method UpdateStats(seekFile: Option<(nat, File)>) returns (due: bool)
      requires Sound() && (seekFile.Some? ==> Charged(current, seekFile.value.0, seekFile.value.1))
      modifies this`allowedSeeks, this`fileToCompact
      ensures Sound() && State() == old(State()) && Spent(seekFile)
      ensures due <==> fileToCompact != old(fileToCompact)
    {
      due := false;
      if seekFile.Some? {
        var f := seekFile.value.1;
        if fileToCompact.Some? {
          ChargedNumbersDiffer(seekFile.value, fileToCompact.value);
        }
        allowedSeeks := allowedSeeks[f.number := SeeksLeft(f) - 1];
        if SeeksLeft(f) <= 0 && fileToCompact.None? {
          fileToCompact := seekFile;
          due := true;
        }
      }
    }

    /** A file is known by its number. */
    lemma ChargedNumbersDiffer(a: (nat, File), b: (nat, File))
      requires Sound() && Charged(current, a.0, a.1) && Charged(current, b.0, b.1)
      ensures a.1.number == b.1.number ==> a == b
    {
      ChargedCanBeCompacted(current, a.0, a.1);
      ChargedCanBeCompacted(current, b.0, b.1);
      assert SameNumber(a.1, b.1) <==> a.1.number == b.1.number;
    }

    /** DBImpl::RecordReadSample: the first of several files that the key visits is charged. */
    method RecordReadSample(key: InternalKey) returns (due: bool, ghost charged: Option<(nat, File)>)
      requires Valid()
      modifies this`allowedSeeks, this`fileToCompact
      ensures Valid() && State() == old(State()) && Spent(charged)
      ensures forall level: nat, f: File :: charged == Some((level, f)) <==> ChargedBy(current, key, level, f)
    {
      var seekFile := Triggers.RecordReadSample(current, key);
      assert seekFile.Some? ==> ChargedBy(current, key, seekFile.value.0, seekFile.value.1);
      due := UpdateStats(seekFile);
      charged := seekFile;
    }

    /** The memtables decide a read of the user key. */
    ghost predicate InMemory(user: UserKey, s: nat)
      reads this
    {
      !NoMatch(Elements(mem), user, s) || !NoMatch(ImmEntries(State()), user, s)
    }

    /** DBImpl::Get: memtable, then immutable memtable, then the current version.  A read that
        visits several files, the first without success, charges that one. */
    method Get(user: UserKey, snapshot: Option<nat>) returns (r: Option<Value>, ghost charged: Option<(nat, File)>)
      requires Valid()
      requires snapshot.Some? ==> snapshot.value in snapshots
      modifies this`allowedSeeks, this`fileToCompact
      ensures Valid() && State() == old(State()) && Spent(charged)
      ensures var s := if snapshot.Some? then snapshot.value else lastSequence;
        && s <= |ops| && r == ReadAt(ops, user, s)
        && forall level: nat, f: File :: charged == Some((level, f)) <==>
             !InMemory(user, s) && ChargedBy(current, LookupKey(user, s), level, f) && Misses(f, user, s)
    {
      var s := if snapshot.Some? then snapshot.value else lastSequence;
      FloorIsReached(State());
      LayeredRead(State(), ops, user, s);
      var e := GetFromMemory(user, s);
      if e.Some? {
        return Outcome(e.value), None;
      }
      r, charged := GetFromVersion(user, s);
    }

    /** The part of Get that goes to the memtables. */
    method GetFromMemory(user: UserKey, s: nat) returns (e: Option<Entry>)
      requires Valid() && UniqueSeqnos(Elements(mem)) && UniqueSeqnos(ImmEntries(State()))
      ensures e.Some? <==> InMemory(user, s)
      ensures e.Some? ==>
        Outcome(e.value) == if !NoMatch(Elements(mem), user, s) then Visible(Elements(mem), user, s) else Visible(ImmEntries(State()), user, s)
    {
      e := Tables.Get(mem, user, s);
      if e.Some? {
        MatchIsVisible(Elements(mem), user, s, e.value);
      } else if imm.Some? {
        e := Tables.Get(imm.value, user, s);
        if e.Some? { MatchIsVisible(Elements(imm.value), user, s, e.value); }
      }
    }

    /** The part of Get that goes to the files. */
    method GetFromVersion(user: UserKey, s: nat) returns (r: Option<Value>, ghost charged: Option<(nat, File)>)
      requires Valid()
      modifies this`allowedSeeks, this`fileToCompact
      ensures Valid() && State() == old(State()) && r == Visible(VersionEntries(current), user, s) && Spent(charged)
      ensures forall level: nat, f: File :: charged == Some((level, f)) <==> ChargedBy(current, LookupKey(user, s), level, f) && Misses(f, user, s)
    {
      var stats;
      ghost var read;
      r, stats, read := Versions.Get(current, user, s);
      forall level: nat, f: File
        ensures stats.seekFile == Some((level, f)) <==> ChargedBy(current, LookupKey(user, s), level, f) && Misses(f, user, s)
      {
        ReadCharges(current, user, s, read, level, f);
      }
      charged := stats.seekFile;
      assert charged.Some? ==> ChargedBy(current, LookupKey(user, s), charged.value.0, charged.value.1);
      var due := UpdateStats(stats.seekFile);
    }

    /** DBImpl::NewIterator: an iterator over what a snapshot sees. */
    method NewIterator(snapshot: Option<nat>) returns (it: DBIter)
      requires Valid()
      requires snapshot.Some? ==> snapshot.value in snapshots
      ensures fresh(it) && fresh(it.iter) && fresh(it.iter.children) && it.Ready() && !it.valid
      ensures it.Contents() == AllEntries(State())
      ensures it.sequence == if snapshot.Some? then snapshot.value else lastSequence
    {
      AllRunsAreGood(State(), ops);
      HistoryIsUnique(AllEntries(State()), ops);
      var internal := NewInternalIterator(AllRuns(mem, imm, current));
      it := new DBIter(internal, if snapshot.Some? then snapshot.value else lastSequence);
    }

    /** DBImpl::Write, for the group the front writer commits: consecutive sequence numbers, and
        the last sequence advances once the memtable holds the whole group. */
    method Write(batch: seq<Write>)
      requires Valid() && lastSequence + |batch| < MAX_SEQUENCE
      modifies this`mem, this`lastSequence, this`ops
      ensures Valid() && Next(old(State()), old(ops), WriteStep(batch), State(), ops)
    {
      ghost var before := State();
      MemSeqnos(before, ops);
      mem := InsertInto(mem, batch, lastSequence);
      lastSequence := lastSequence + |batch|;
      ops := ops + batch;
      WritesKeepInv(before, old(ops), batch, State());
    }

    /** MakeRoomForWrite, when it switches memtables: the new log file takes a file number. */
    method SwitchMemTable()
      requires Sound() && imm.None?
      modifies this`mem, this`imm, this`nextFileNumber
      ensures Sound() && (old(Valid()) ==> Valid()) && Next(old(State()), ops, SwitchStep, State(), ops)
    {
      ghost var before := State();
      nextFileNumber := nextFileNumber + 1;
      imm := Some(mem);
      mem := [];
      SwitchKeepsInv(before, ops, State());
    }

    method GetSnapshot() returns (s: nat)
      requires Valid()
      modifies this`snapshots
      ensures Valid() && Next(old(State()), ops, TakeSnapshotStep, State(), ops) && s == lastSequence
    {
      ghost var before := State();
      s := lastSequence;
      snapshots := snapshots + [s];
      SnapshotStepsKeepInv(before, ops, TakeSnapshotStep, State());
    }

    method ReleaseSnapshot(index: nat)
      requires Valid() && index < |snapshots|
      modifies this`snapshots
      ensures Valid() && Next(old(State()), ops, ReleaseSnapshotStep(index), State(), ops)
    {
      ghost var before := State();
      snapshots := snapshots[..index] + snapshots[index + 1..];
      SnapshotStepsKeepInv(before, ops, ReleaseSnapshotStep(index), State());
    }

    /** A new version becomes the current one.  New files start with all their seeks, and no file of
        the version has used them up.  Some file numbers have been handed out. */
    method AppendVersion(v: Version, newFiles: Files, numbers: nat)
      modifies this`current, this`nextFileNumber, this`allowedSeeks, this`fileToCompact
      ensures State() == old(State()).(version := v, nextFileNumber := old(nextFileNumber) + numbers)
      ensures fileToCompact == None && allowedSeeks == old(allowedSeeks) - set f | f in newFiles :: f.number
    {
      current, fileToCompact, allowedSeeks := v, None, allowedSeeks - set f | f in newFiles :: f.number;
      nextFileNumber := nextFileNumber + numbers;
    }

    /** DBImpl::WriteLevel0Table: the immutable memtable becomes a table, at a level where nothing
        newer or older of its user keys is in the way. */
    method WriteLevel0Table(ghost plan: Plan) returns (v: Version, newFiles: Files, ghost step: Step)
      requires Sound() && imm.Some?
      ensures (step.FlushStep? || step.FlushEmptyStep?) && AsCoded(State(), maxFileSize, sizes, plan, step)
      ensures Stepped(State(), ops, step, State().(imm := None, version := v, nextFileNumber := nextFileNumber + 1))
    {
      v, newFiles, step := current, [], FlushEmptyStep;
      if imm.value != [] {
        var f := FinishFile(nextFileNumber, imm.value, sizes);
        var picker := new CompactionPicker(current, maxFileSize, compactPointer);
        var level := picker.PickLevelForMemTableOutput(f.smallest.user, f.largest.user);
        v := InstallFlush(current, level, f);
        newFiles := [f];
        step := FlushStep(level, f);
      }
      BackgroundSteps(State(), ops, step, State().(imm := None, version := v, nextFileNumber := nextFileNumber + 1));
    }

    /** DBImpl::CompactMemTable. */
    method CompactMemTable(ghost plan: Plan) returns (ghost step: Step)
      requires Sound() && imm.Some?
      modifies this`imm, this`current, this`nextFileNumber, this`allowedSeeks, this`fileToCompact
      ensures imm == None && fileToCompact == None && Stepped(old(State()), ops, step, State())
      ensures (step.FlushStep? || step.FlushEmptyStep?) && AsCoded(old(State()), maxFileSize, sizes, plan, step)
    {
      ghost var before := State();
      var v, newFiles;
      v, newFiles, step := WriteLevel0Table(plan);
      ghost var after := before.(imm := None, version := v, nextFileNumber := nextFileNumber + 1);
      assert Stepped(before, ops, step, after);
      imm := None;
      AppendVersion(v, newFiles, 1);
      assert State() == after;
    }

    /** The trivial move of DBImpl::BackgroundCompaction. */
    method MoveFile(level: nat, f: File) returns (ghost step: Step)
      requires Sound() && InputsValid(current, level, [f], [])
      modifies this`current, this`nextFileNumber, this`allowedSeeks, this`fileToCompact
      ensures step == MoveStep(level, f) && Stepped(old(State()), ops, step, State()) && fileToCompact == None
    {
      ghost var before := State();
      assert f in [f] && f in current[level];
      forall g | g in current[level + 1] ensures g.number != f.number {
        assert SameNumber(f, g) <==> f.number == g.number;
      }
      var v := InstallResults(current, level, [f], [], [f]);
      step := MoveStep(level, f);
      BackgroundSteps(before, ops, step, before.(version := v));
      AppendVersion(v, [f], 0);
    }

    /** DBImpl::DoCompactionWork: what a compaction makes of the store. */
    method DoWork(c: Compaction) returns (outputs: Files, v: Version, ghost step: Step)
      requires Sound() && c.inputVersion == current && c.Untouched()
      requires InputsValid(current, c.level, c.inputs0, c.inputs1)
      modifies c`levelPtrs, c`grandparentIndex, c`seenKey, c`overlappedBytes
      ensures step == CompactStep(c.level, c.inputs0, c.inputs1, outputs)
      ensures CutAsCoded(c.grandparents, c.maxFileSize, sizes, c.inputs0, c.inputs1, outputs)
      ensures Stepped(State(), ops, step, State().(version := v, nextFileNumber := nextFileNumber + |outputs|))
      ensures Condensed(current, c.level, InputEntries(c.inputs0, c.inputs1), FilesEntries(outputs), SmallestSnapshot(State()))
    {
      FloorIsReached(State());
      var smallestSnapshot := if snapshots == [] then lastSequence else snapshots[0];
      outputs, v := CompactVersion(c, smallestSnapshot, sizes, nextFileNumber);
      step := CompactStep(c.level, c.inputs0, c.inputs1, outputs);
      BackgroundSteps(State(), ops, step, State().(version := v, nextFileNumber := nextFileNumber + |outputs|));
      DropsEnough(current, c.level, InputEntries(c.inputs0, c.inputs1), smallestSnapshot, FilesEntries(outputs));
    }

    /** A compaction is made and installed (InstallCompactionResults). */
    method RunCompaction(c: Compaction) returns (ghost step: Step)
      requires Sound() && c.inputVersion == current && c.Untouched()
      requires InputsValid(current, c.level, c.inputs0, c.inputs1)
      modifies this`current, this`nextFileNumber, this`allowedSeeks, this`fileToCompact
      modifies c`levelPtrs, c`grandparentIndex, c`seenKey, c`overlappedBytes
      ensures fileToCompact == None
      ensures step.CompactStep? && step.level == c.level && step.in0 == c.inputs0 && step.in1 == c.inputs1
      ensures CutAsCoded(c.grandparents, c.maxFileSize, sizes, c.inputs0, c.inputs1, step.outputs)
      ensures Stepped(old(State()), ops, step, State())
      ensures Condensed(old(current), c.level, InputEntries(c.inputs0, c.inputs1), FilesEntries(step.outputs), SmallestSnapshot(old(State())))
    {
      ghost var before := State();
      var outputs, v;
      outputs, v, step := DoWork(c);
      ghost var after := before.(version := v, nextFileNumber := nextFileNumber + |outputs|);
      assert State() == before;
      assert Stepped(before, ops, step, after);
      AppendVersion(v, outputs, |outputs|);
      assert State() == after;
    }

    /** The step has been made, the way the code makes it. */
    ghost predicate Done(before: Db, step: Step, plan: Plan)
      reads this
    {
      Stepped(before, ops, step, State()) && AsCoded(before, maxFileSize, sizes, plan, step) && fileToCompact == None
    }

    /** At most one step has been made, after which the database is sound.  If it was valid and the
        step is harmless, it is valid again. */
    twostate predicate Worked(new step: Option<Step>, new plan: Plan)
      reads this
    {
      && Sound() && (old(Valid()) && (step.Some? ==> Harmless(old(State()), step.value)) ==> Valid())
      && (step.None? ==> State() == old(State()))
      && (step.Some? ==> Done(old(State()), step.value, plan))
    }

    /** A compaction is carried out: as a move if it is trivial and not asked for by hand. */
    method CarryOut(c: Compaction, isManual: bool, ghost plan: Plan) returns (ghost step: Step)
      requires Sound() && SetUp(c, current, maxFileSize, plan) && (isManual <==> plan.cause.ByHand?)
      modifies this`current, this`nextFileNumber, this`allowedSeeks, this`fileToCompact
      modifies c`levelPtrs, c`grandparentIndex, c`seenKey, c`overlappedBytes
      ensures LevelOf(step) == Some(c.level) && Inputs0(step) == c.inputs0 && (isManual ==> step.CompactStep?)
      ensures Worked(Some(step), plan)
    {
      ghost var before, in0, in1 := State(), c.inputs0, c.inputs1;
      if !isManual && c.IsTrivialMove() {
        assert in0 == [in0[0]] && in1 == [];
        step := MoveFile(c.level, c.inputs0[0]);
      } else {
        step := RunCompaction(c);
      }
      PlannedIsCoded(before, maxFileSize, sizes, plan, c.level, in0, in1, step);
      Settled(before, step);
    }

    /** After a step of background work the database is sound, and valid if it was and the step is
        harmless. */
    lemma Settled(before: Db, step: Step)
      requires Stepped(before, ops, step, State()) && |compactPointer| == NUM_LEVELS && fileToCompact.None?
      ensures Sound() && (Inv(before, ops) && Harmless(before, step) ==> Valid())
    {
    }

    method ChooseRange(manual: ManualCompaction) returns (c: Option<Compaction>, ghost plan: Plan)
      requires Sound() && manual.level + 1 < NUM_LEVELS
      modifies this`compactPointer
      ensures Sound() && (old(Valid()) ==> Valid())
      ensures if c.Some? then PointerMoved(old(compactPointer), compactPointer, manual.level, c.value.inputs0) else compactPointer == old(compactPointer)
      ensures c.None? <==> NothingOverlaps(current[manual.level], manual.begin, manual.end)
      ensures c.Some? ==> fresh(c.value) && SetUp(c.value, current, maxFileSize, plan) && c.value.level == manual.level
      ensures c.Some? ==> plan.cause == ByHand(manual.begin, manual.end)
    {
      var picker := new CompactionPicker(current, maxFileSize, compactPointer);
      c, plan := picker.CompactRange(manual.level, manual.begin, manual.end);
      compactPointer := picker.compactPointer;
    }

    /** The branch for a compaction asked for by hand.  What is left of it starts at the end of the
        last input. */
    method CompactManually(manual: ManualCompaction)
      returns (rest: Option<ManualCompaction>, ghost step: Option<Step>, ghost plan: Plan)
      requires Sound() && manual.level + 1 < NUM_LEVELS
      modifies this`current, this`nextFileNumber, this`compactPointer, this`allowedSeeks, this`fileToCompact
      ensures Worked(step, plan)
      ensures AsAsked(old(current), manual, rest, step, plan)
      ensures PointerFollows(old(compactPointer), compactPointer, step)
    {
      ghost var v := current;
      var c;
      c, plan := ChooseRange(manual);
      rest, step := None, None;
      if c.Some? {
        var in0 := c.value.inputs0;
        rest := Some(manual.(begin := Some(in0[|in0| - 1].largest.user)));
        RestIsAsAsked(v, maxFileSize, manual, plan, in0, rest);
        assert CanStart(v, manual, in0);
        ghost var done := CarryOut(c.value, true, plan);
        step := Some(done);
        StepIsAsAsked(v, manual, in0, rest, done, plan);
      }
    }

    /** Nothing is done exactly if nothing is due. */
    twostate predicate AsDue(new step: Option<Step>, new plan: Plan)
      reads this
    {
      && (step.None? <==> NoSizeDue(old(current)) && old(fileToCompact).None?)
      && (step.Some? ==>
            LevelOf(step.value).Some? && Due(old(current), old(compactPointer), old(fileToCompact), LevelOf(step.value).value, plan.cause))
      && PointerFollows(old(compactPointer), compactPointer, step)
    }

    method ChooseDue() returns (c: Option<Compaction>, ghost plan: Plan)
      requires Sound()
      modifies this`compactPointer
      ensures Sound() && (old(Valid()) ==> Valid())
      ensures c.None? <==> NoSizeDue(current) && fileToCompact.None?
      ensures c.Some? ==> fresh(c.value) && SetUp(c.value, current, maxFileSize, plan)
      ensures c.Some? ==> Due(current, old(compactPointer), fileToCompact, c.value.level, plan.cause)
      ensures if c.Some? then PointerMoved(old(compactPointer), compactPointer, c.value.level, c.value.inputs0) else compactPointer == old(compactPointer)
    {
      var picker := new CompactionPicker(current, maxFileSize, compactPointer);
      c, plan := picker.PickCompaction(fileToCompact);
      compactPointer := picker.compactPointer;
    }

    /** The branch for a compaction that nobody has asked for. */
    method CompactAutomatically() returns (ghost step: Option<Step>, ghost plan: Plan)
      requires Sound()
      modifies this`current, this`nextFileNumber, this`compactPointer, this`allowedSeeks, this`fileToCompact
      ensures Worked(step, plan)
      ensures AsDue(step, plan)
    {
      var c;
      c, plan := ChooseDue();
      step := None;
      if c.Some? {
        ghost var done := CarryOut(c.value, false, plan);
        step := Some(done);
      }
    }

    /** VersionSet::NeedsCompaction: there is automatic work to do. */
    method NeedsCompaction() returns (r: bool)
      requires Sound()
      ensures r <==> !(NoSizeDue(current) && fileToCompact.None?)
    {
      var level, score := Finalize(current);
      if score >= 1.0 { OneLevelIsDue(current, level, level); }
      r := score >= 1.0 || fileToCompact.Some?;
    }

    /** DBImpl::BackgroundCompaction: one unit of background work; `rest` is what is left of a manual
        compaction. */
    method BackgroundCompaction(manual: Option<ManualCompaction>)
      returns (rest: Option<ManualCompaction>, ghost step: Option<Step>, ghost plan: Plan)
      requires Sound() && (manual.Some? ==> manual.value.level + 1 < NUM_LEVELS)
      modifies this`imm, this`current, this`nextFileNumber, this`compactPointer, this`allowedSeeks, this`fileToCompact
      ensures Worked(step, plan)
      ensures old(imm).Some? ==> rest == manual && step.Some? && (step.value.FlushStep? || step.value.FlushEmptyStep?)
      ensures old(imm).None? && manual.None? ==> rest.None? && AsDue(step, plan)
      ensures old(imm).None? && manual.Some? ==>
        AsAsked(old(current), manual.value, rest, step, plan) && PointerFollows(old(compactPointer), compactPointer, step)
    {
      if imm.Some? {
        plan := Plan(ByHand(None, None), [], Choice([], [], [], []), []);
        ghost var flushed := CompactMemTable(plan);
        rest, step := manual, Some(flushed);
      } else if manual.Some? {
        rest, step, plan := CompactManually(manual.value);
      } else {
        rest := None;
        step, plan := CompactAutomatically();
      }
    }

    /** DBImpl::TEST_CompactRange: a manual compaction goes on until nothing is left of it.  It comes to
        an end, and then no file of the level overlaps the range. */
    method CompactLevel(level: nat, begin: Option<UserKey>, end: Option<UserKey>)
      requires Sound() && level + 1 < NUM_LEVELS
      modifies this`imm, this`current, this`nextFileNumber, this`compactPointer, this`allowedSeeks, this`fileToCompact
      ensures Sound() && imm.None? && NothingOverlaps(current[level], begin, end)
      ensures old(imm).None? ==> forall l :: 0 <= l < level ==> current[l] == old(current)[l]
    {
      var manual := Some(ManualCompaction(level, begin, end));
      while manual.Some?
        invariant Sound() && (manual.Some? ==> manual.value.level == level)
        invariant imm.Some? ==> manual == Some(ManualCompaction(level, begin, end))
        invariant manual.None? ==> imm.None?
        invariant GoesOn(current[level], begin, end, manual)
        invariant old(imm).None? ==> imm.None? && forall l :: 0 <= l < level ==> current[l] == old(current)[l]
        decreases imm.Some?, |current[level]|, manual.Some?
      {
        ghost var v, asked := current, manual.value;
        var rest;
        ghost var step, plan;
        rest, step, plan := BackgroundCompaction(manual);
        if step.Some? && step.value.CompactStep? {
          RangeShrinks(v, level, step.value.in0, step.value.in1, step.value.outputs, current, begin, end, asked, rest);
        }
        manual := rest;
      }
    }

    /** DBImpl::TEST_CompactMemTable: what is in memory becomes tables. */
    method FlushMemTables()
      requires Sound()
      modifies this`mem, this`imm, this`current, this`nextFileNumber, this`allowedSeeks, this`fileToCompact
      ensures Sound() && imm.None? && mem == []
    {
      ghost var plan := Plan(ByHand(None, None), [], Choice([], [], [], []), []);
      if imm.Some? {
        ghost var step := CompactMemTable(plan);
      }
      SwitchMemTable();
      ghost var step := CompactMemTable(plan);
    }

    /** DBImpl::CompactRange: the levels that have files of the range above the deepest such level are
        emptied of them one after the other, so that no file of the range is left above it. */
    method CompactRange(begin: Option<UserKey>, end: Option<UserKey>) returns (deepest: nat)
      requires Sound()
      modifies this`mem, this`imm, this`current, this`nextFileNumber, this`compactPointer, this`allowedSeeks, this`fileToCompact
      ensures Sound() && mem == [] && imm.None?
      ensures 1 <= deepest < NUM_LEVELS && (deepest > 1 ==> !NothingOverlaps(old(current)[deepest], begin, end))
      ensures forall l :: deepest < l < NUM_LEVELS ==> NothingOverlaps(old(current)[l], begin, end)
      ensures NothingAbove(current, deepest, begin, end)
    {
      var picker := new CompactionPicker(current, maxFileSize, compactPointer);
      deepest := picker.MaxLevelWithFiles(begin, end);
      FlushMemTables();
      for level := 0 to deepest
        invariant Sound() && mem == [] && imm.None?
        invariant NothingAbove(current, level, begin, end)
      {
        ghost var v := current;
        CompactLevel(level, begin, end);
        OneMoreIsEmptied(v, current, level, begin, end);
      }
    }
  }

  // ---------------------------------------------------------------- manual compactions

  /** Every file of the level that overlaps the range overlaps what is left of the request. */
  ghost predicate GoesOn(files: Files, begin: Option<UserKey>, end: Option<UserKey>, manual: Option<ManualCompaction>) {
    forall f {:trigger f in files} :: f in files && Overlaps(f, begin, end) ==>
      manual.Some? && Overlaps(f, manual.value.begin, manual.value.end)
  }

  ghost function Inputs0(step: Step): Files {
    match step
    case MoveStep(_, f) => [f]
    case CompactStep(_, in0, _, _) => in0
    case _ => []
  }

  /** The compaction pointers follow the compactions made. */
  ghost predicate PointerFollows(before: seq<Option<InternalKey>>, after: seq<Option<InternalKey>>, step: Option<Step>) {
    match step
    case Some(s) => LevelOf(s).Some? && PointerMoved(before, after, LevelOf(s).value, Inputs0(s))
    case None => after == before
  }

  /** What is left to do of a manual compaction with these inputs has the same level and end, takes in
      every file that overlaps the range and is no input, and above level 0 begins no earlier. */
  ghost predicate LeftToDo(v: Version, manual: ManualCompaction, in0: Files, rest: ManualCompaction)
    requires manual.level < NUM_LEVELS
  {
    && rest.level == manual.level && rest.end == manual.end
    && (manual.level > 0 ==> NoEarlier(rest.begin, manual.begin))
    && forall f {:trigger f in v[manual.level]} :: f in v[manual.level] && Overlaps(f, manual.begin, manual.end) && f !in in0 ==>
         Overlaps(f, rest.begin, rest.end)
  }

  /** A manual compaction of the level is made for the range.  Nothing is done exactly if nothing
      overlaps the range. */
  ghost predicate AsAsked(v: Version, manual: ManualCompaction, rest: Option<ManualCompaction>, step: Option<Step>, plan: Plan)
    requires manual.level < NUM_LEVELS
  {
    match step
    case None => NothingOverlaps(v[manual.level], manual.begin, manual.end) && rest == None
    case Some(s) =>
      && !NothingOverlaps(v[manual.level], manual.begin, manual.end)
      && s.CompactStep? && s.level == manual.level && plan.cause == ByHand(manual.begin, manual.end)
      && s.in0 != [] && Subset(s.in0, v[manual.level])
      && rest.Some? && LeftToDo(v, manual, s.in0, rest.value)
  }

  ghost predicate CanStart(v: Version, manual: ManualCompaction, in0: Files)
    requires manual.level < NUM_LEVELS
  {
    !NothingOverlaps(v[manual.level], manual.begin, manual.end) && in0 != [] && Subset(in0, v[manual.level])
  }

  lemma StepIsAsAsked(v: Version, manual: ManualCompaction, in0: Files, rest: Option<ManualCompaction>, step: Step, plan: Plan)
    requires manual.level < NUM_LEVELS && CanStart(v, manual, in0)
    requires step.CompactStep? && step.level == manual.level && step.in0 == in0 && plan.cause == ByHand(manual.begin, manual.end)
    requires rest.Some? && LeftToDo(v, manual, in0, rest.value)
    ensures AsAsked(v, manual, rest, Some(step), plan)
  {
  }

  lemma RestIsAsAsked(v: Version, maxFileSize: nat, manual: ManualCompaction, plan: Plan, in0: Files, rest: Option<ManualCompaction>)
    requires Valid(v) && manual.level + 1 < NUM_LEVELS && TakenFromRange(v, maxFileSize, manual.level, manual.begin, manual.end, plan.seed)
    requires in0 != [] && Subset(plan.seed, in0) && Subset(in0, v[manual.level]) && SortedBySmallest(in0)
    requires manual.level > 0 ==> SortedDisjoint(in0) && Block(v[manual.level], in0)
    requires rest == Some(manual.(begin := Some(in0[|in0| - 1].largest.user)))
    ensures LeftToDo(v, manual, in0, rest.value)
  {
    RangeGoesOn(v, maxFileSize, manual.level, manual.begin, manual.end, plan.seed, in0);
  }

  predicate NoEarlier(a: Option<UserKey>, b: Option<UserKey>) {
    b.Some? ==> a.Some? && b.value <= a.value
  }

  /** No file of a level above overlaps the range. */
  ghost predicate NothingAbove(v: Version, level: nat, begin: Option<UserKey>, end: Option<UserKey>) {
    forall l :: 0 <= l < level && l < NUM_LEVELS ==> NothingOverlaps(v[l], begin, end)
  }

  lemma OneMoreIsEmptied(v: Version, v': Version, level: nat, begin: Option<UserKey>, end: Option<UserKey>)
    requires level < NUM_LEVELS && NothingAbove(v, level, begin, end) && forall l :: 0 <= l < level ==> v'[l] == v[l]
    requires NothingOverlaps(v'[level], begin, end)
    ensures NothingAbove(v', level + 1, begin, end)
  {
    forall l | 0 <= l < level + 1 ensures NothingOverlaps(v'[l], begin, end) {
      if l < level { assert NothingOverlaps(v[l], begin, end); }
    }
  }

  lemma {:induction false} FewerFiles(a: Files, b: Files)
    requires SortedBySmallest(a) && SortedBySmallest(b) && forall f :: f in a ==> f in b
    ensures |a| <= |b|
    ensures (exists f :: f in b && f !in a) ==> |a| < |b|
    decreases |b|
  {
    NoFileTwice(a);
    NoFileTwice(b);
    var A, B := set f | f in a, set f | f in b;
    assert A <= B;
    SetIsAsLong(a);
    SetIsAsLong(b);
    if f :| f in b && f !in a {
      assert A <= B - {f};
      SubsetIsNoLarger(A, B - {f});
    }
    SubsetIsNoLarger(A, B);
  }

  lemma {:induction false} SubsetIsNoLarger(A: set<File>, B: set<File>)
    requires A <= B
    ensures |A| <= |B|
  {
    assert B == A + (B - A);
  }

  lemma NoFileTwice(files: Files)
    requires SortedBySmallest(files)
    ensures NoRepeats(files)
  {
    forall i, j | 0 <= i < j < |files| ensures files[i] != files[j] {
      assert BySmallest(files[i], files[j]);
      BySmallestIsTotalOrder(files[i], files[j], files[i]);
    }
  }

  lemma {:induction false} SetIsAsLong(files: Files)
    requires NoRepeats(files)
    ensures |set f | f in files| == |files|
  {
    if files != [] {
      var rest, last := files[..|files| - 1], files[|files| - 1];
      SetIsAsLong(rest);
      assert (set f | f in files) == (set f | f in rest) + {last};
      assert last !in rest;
    }
  }

  /** A round of a manual compaction leaves fewer files at the level, and those that overlap the
      range overlap what is left of the request. */
  lemma RangeShrinks(v: Version, level: nat, in0: Files, in1: Files, outputs: Files, v': Version, begin: Option<UserKey>, end: Option<UserKey>,
                     asked: ManualCompaction, rest: Option<ManualCompaction>)
    requires level + 1 < NUM_LEVELS && Valid(v) && Valid(v') && Replaced(v, level, in0, in1, outputs, v')
    requires in0 != [] && Subset(in0, v[level]) && GoesOn(v[level], begin, end, Some(asked))
    requires rest.Some? && asked.level == level && LeftToDo(v, asked, in0, rest.value)
    ensures |v'[level]| < |v[level]| && GoesOn(v'[level], begin, end, rest)
    ensures forall l :: 0 <= l < level ==> v'[l] == v[l]
  {
    LevelsAreSorted(v);
    LevelsAreSorted(v');
    assert in0[0] in in0 && in0[0] in v[level] && in0[0] !in v'[level];
    FewerFiles(v'[level], v[level]);
  }

  /** WriteBatchInternal::InsertInto: the handler adds the operations one by one, counting the
      sequence number up. */
  method InsertInto(mem: seq<Entry>, batch: seq<Write>, last: nat) returns (r: seq<Entry>)
    requires Sorted(mem) && SeqnosUpTo(mem, last)
    ensures Sorted(r) && Elements(r) == Elements(mem) + BatchEntries(batch, last, |batch|)
  {
    r := mem;
    var sequence := last + 1;
    for i := 0 to |batch|
      invariant sequence == last + 1 + i
      invariant Sorted(r) && SeqnosUpTo(r, last + i)
      invariant Elements(r) == Elements(mem) + BatchEntries(batch, last, i)
    {
      BatchEntriesStep(batch, last, i);
      r := AddOne(r, batch[i], last + i);
      sequence := sequence + 1;
    }
  }

  /** MemTableInserter::Put and Delete. */
  method AddOne(mem: seq<Entry>, op: Write, last: nat) returns (r: seq<Entry>)
    requires Sorted(mem) && SeqnosUpTo(mem, last)
    ensures Sorted(r) && SeqnosUpTo(r, last + 1) && Elements(r) == Elements(mem) + {OpEntry(op, last + 1)}
  {
    NextKeyIsNew(mem, last, op);
    r := Tables.Insert(mem, OpEntry(op, last + 1));
  }

  lemma MatchIsVisible(S: set<Entry>, user: UserKey, s: nat, e: Entry)
    requires IsNewest(S, user, s, e)
    ensures UniqueSeqnos(S) ==> Visible(S, user, s) == Outcome(e)
    ensures !NoMatch(S, user, s)
  {
    if UniqueSeqnos(S) { VisibleIs(S, user, s, e); }
  }

  /** The first of memtable, immutable memtable and version that matches decides the read. */
  lemma LayeredRead(db: Db, ops: seq<Op>, user: UserKey, s: nat)
    requires Inv(db, ops) && SmallestSnapshot(db) <= s <= |ops|
    ensures UniqueSeqnos(Elements(db.mem)) && UniqueSeqnos(ImmEntries(db))
    ensures ReadAt(ops, user, s) ==
      if !NoMatch(Elements(db.mem), user, s) then Visible(Elements(db.mem), user, s)
      else if !NoMatch(ImmEntries(db), user, s) then Visible(ImmEntries(db), user, s)
      else Visible(VersionEntries(db.version), user, s)
  {
    var M, I, V := Elements(db.mem), ImmEntries(db), VersionEntries(db.version);
    HistoryIsUnique(AllEntries(db), ops);
    assert AllEntries(db) == M + (I + V);
    assert forall e :: e in I + V ==> e in AllEntries(db);
    assert UniqueSeqnos(I + V);
    NewerLayerDecides(M, I + V, user, s);
    NewerLayerDecides(I, V, user, s);
  }
}

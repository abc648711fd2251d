/**
 The manifest of a store: if every step on the version logs its edit, the edits go on describing the
 version.
 */
module StoreManifest {
  import opened DbFormat
  import opened Versions
  import opened InputSets
  import opened VersionEdits
  import opened Replacement
  import opened CompactionWork
  import opened History
  import opened Store
  import opened Manifest
  import opened DbImpl

  /** The edit a step logs; a flush of an empty memtable logs one without files. */
  ghost predicate LogsEdit(step: Step, edits: seq<VersionEdit>) {
    match step
    case FlushStep(level, f) => |edits| == 1 && edits[0].newFiles == [(level, f)] && edits[0].deletedFiles == {}
    case FlushEmptyStep => |edits| == 1 && edits[0].newFiles == [] && edits[0].deletedFiles == {}
    case MoveStep(level, f) => |edits| == 1 && ReplacingEdit(edits[0], level, [f], [], [f])
    case CompactStep(level, in0, in1, outputs) => |edits| == 1 && ReplacingEdit(edits[0], level, in0, in1, outputs)
    case _ => edits == []
  }

  /** A number names one file, whatever the level. */
  ghost predicate NamedAnywhere(news: seq<(nat, File)>) {
    forall k: nat, l: nat, f: File, g: File {:trigger (k, f) in news, (l, g) in news} ::
      (k, f) in news && (l, g) in news && f.number == g.number ==> f == g
  }

  ghost predicate NewsBelow(news: seq<(nat, File)>, next: nat) {
    forall l: nat, f: File {:trigger (l, f) in news} :: (l, f) in news ==> f.number < next
  }

  /** The records give the version, and their file numbers have all been handed out. */
  ghost predicate Tells(records: seq<VersionEdit>, db: Db) {
    var news := AllNew(records, |records|);
    && InRange(records) && Summary(records, |records|, db.version)
    && NamedAnywhere(news) && NewsBelow(news, db.nextFileNumber)
  }

  lemma NamedAnywhereIsNamed(news: seq<(nat, File)>)
    requires NamedAnywhere(news)
    ensures Named(news)
  {
  }

  lemma FileOfVersionIsNew(records: seq<VersionEdit>, db: Db, l: nat, f: File)
    requires Tells(records, db) && l < NUM_LEVELS && f in db.version[l]
    ensures (l, f) in AllNew(records, |records|)
  {
    assert Held(records, |records|, l, f);
  }

  /** The new files of the edit either carry new numbers of their own or are files already known. */
  ghost predicate NewOrKnown(news: seq<(nat, File)>, edit: VersionEdit, next: nat, next': nat) {
    && next <= next' && OwnNumbers(edit.newFiles)
    && forall l: nat, f: File {:trigger (l, f) in edit.newFiles} :: (l, f) in edit.newFiles ==>
         next <= f.number < next' || Known(news, f)
  }

  ghost predicate Known(news: seq<(nat, File)>, f: File) {
    exists k: nat :: (k, f) in news
  }

  ghost predicate AllAt(edit: VersionEdit, level: nat) {
    forall a :: a in edit.newFiles ==> a.0 == level
  }

  lemma NewsStayNamed(news: seq<(nat, File)>, edit: VersionEdit, next: nat, next': nat, level: nat)
    requires NamedAnywhere(news) && NewsBelow(news, next) && NewOrKnown(news, edit, next, next')
    requires AllAt(edit, level)
    ensures NamedAnywhere(news + edit.newFiles) && NewsBelow(news + edit.newFiles, next')
  {
    var more := edit.newFiles;
    forall k: nat, l: nat, f: File, g: File | (k, f) in news + more && (l, g) in news + more && f.number == g.number ensures f == g {
      if (k, f) in more && (l, g) in more {
        assert k == level && l == level;
        var i :| 0 <= i < |more| && more[i] == (k, f);
        var j :| 0 <= j < |more| && more[j] == (l, g);
      }
    }
    forall l: nat, f: File | (l, f) in news + more ensures f.number < next' {
      if (l, f) in more && !(next <= f.number < next') {
        var k: nat :| (k, f) in news;
      }
    }
  }

  /** One more edit is told by one more record. */
  lemma OneMoreRecord(records: seq<VersionEdit>, edit: VersionEdit, db: Db, db': Db, level: nat)
    requires Tells(records, db) && NewNumbers(db.version, edit)
    requires AllAt(edit, level)
    requires NewOrKnown(AllNew(records, |records|), edit, db.nextFileNumber, db'.nextFileNumber)
    requires forall l :: 0 <= l < NUM_LEVELS ==> SortedBySmallest(db'.version[l])
    requires forall l, f {:trigger f in db'.version[l]} :: 0 <= l < NUM_LEVELS ==> (f in db'.version[l] <==> InAfter(db.version, edit, l, f))
    ensures Tells(records + [edit], db')
  {
    var longer := records + [edit];
    NewsStayNamed(AllNew(records, |records|), edit, db.nextFileNumber, db'.nextFileNumber, level);
    NamedAnywhereIsNamed(AllNew(records, |records|) + edit.newFiles);
    EditFollows(db.version, edit, db'.version);
    ManifestGrows(records, edit, db.version, db'.version);
    NewsOfLonger(records, edit);
    assert NamedAnywhere(AllNew(longer, |longer|)) && NewsBelow(AllNew(longer, |longer|), db'.nextFileNumber);
    assert InRange(longer) && Summary(longer, |longer|, db'.version);
  }

  lemma EditFollows(v: Version, edit: VersionEdit, v': Version)
    requires NewNumbers(v, edit) && forall l :: 0 <= l < NUM_LEVELS ==> SortedBySmallest(v'[l])
    requires forall l, f {:trigger f in v'[l]} :: 0 <= l < NUM_LEVELS ==> (f in v'[l] <==> InAfter(v, edit, l, f))
    ensures Follows(v, edit, v')
  {
    forall l, f | 0 <= l < NUM_LEVELS ensures f in v'[l] <==> AfterEdit(v, edit, l, f) {
      NewNumbersReplace(v, edit, l, f);
    }
  }

  lemma NewsOfLonger(records: seq<VersionEdit>, edit: VersionEdit)
    ensures AllNew(records + [edit], |records + [edit]|) == AllNew(records, |records|) + edit.newFiles
    ensures InRange(records) && LevelsInRange(edit) ==> InRange(records + [edit])
  {
    PrefixAgrees(records, [edit], |records|);
    assert (records + [edit])[|records|] == edit;
  }

  /** What an edit that replaces files says about each level. */
  lemma ReplacedIsInAfter(v: Version, level: nat, in0: Files, in1: Files, outputs: Files, edit: VersionEdit, v': Version, l: nat, f: File)
    requires Valid(v) && level + 1 < NUM_LEVELS && Subset(in0, v[level]) && Subset(in1, v[level + 1])
    requires ReplacingEdit(edit, level, in0, in1, outputs) && Replaced(v, level, in0, in1, outputs, v') && l < NUM_LEVELS
    ensures f in v'[l] <==> InAfter(v, edit, l, f)
  {
    if l == level + 1 && f in outputs {
      var i :| 0 <= i < |outputs| && outputs[i] == f;
      assert edit.newFiles[i] == (l, f);
    }
    if (l, f) in edit.newFiles {
      var i :| 0 <= i < |edit.newFiles| && edit.newFiles[i] == (l, f);
    }
    assert (l, f.number) in edit.deletedFiles <==>
      (l == level && HasNumber(in0, f.number)) || (l == level + 1 && HasNumber(in1, f.number));
    if f in v[l] {
      if l == level { NumberNamesFile(v, l, in0, f); }
      if l == level + 1 { NumberNamesFile(v, l, in1, f); }
    }
  }

  lemma ReplacingEditLevel(edit: VersionEdit, level: nat, in0: Files, in1: Files, outputs: Files)
    requires ReplacingEdit(edit, level, in0, in1, outputs)
    ensures forall a :: a in edit.newFiles ==> a.0 == level + 1 && a.1 in outputs
  {
    forall a | a in edit.newFiles ensures a.0 == level + 1 && a.1 in outputs {
      var i :| 0 <= i < |edit.newFiles| && edit.newFiles[i] == a;
      assert edit.newFiles[i] == (level + 1, outputs[i]);
    }
  }

  lemma ReplacementIsTold(records: seq<VersionEdit>, db: Db, db': Db, level: nat, in0: Files, in1: Files, outputs: Files, edit: VersionEdit)
    requires Tells(records, db) && Valid(db.version) && Valid(db'.version)
    requires level + 1 < NUM_LEVELS && Subset(in0, db.version[level]) && Subset(in1, db.version[level + 1])
    requires ReplacingEdit(edit, level, in0, in1, outputs) && Replaced(db.version, level, in0, in1, outputs, db'.version)
    requires DbImpl.NewAt(db.version[level + 1], outputs)
    requires NewOrKnown(AllNew(records, |records|), edit, db.nextFileNumber, db'.nextFileNumber)
    ensures Tells(records + [edit], db')
  {
    ReplacingEditLevel(edit, level, in0, in1, outputs);
    ReplacingEditIsNew(db.version, level, in0, in1, outputs, edit);
    LevelsAreSorted(db'.version);
    forall l, f | 0 <= l < NUM_LEVELS ensures f in db'.version[l] <==> InAfter(db.version, edit, l, f) {
      ReplacedIsInAfter(db.version, level, in0, in1, outputs, edit, db'.version, l, f);
    }
    OneMoreRecord(records, edit, db, db', level + 1);
  }

  lemma MoveIsTold(records: seq<VersionEdit>, db: Db, db': Db, level: nat, f: File, edit: VersionEdit)
    requires Tells(records, db) && Valid(db.version) && Valid(db'.version)
    requires Moves(db, level, f, db') && ReplacingEdit(edit, level, [f], [], [f])
    ensures Tells(records + [edit], db')
  {
    assert f in [f] && f in db.version[level];
    forall g | g in db.version[level + 1] ensures g.number != f.number {
      assert SameNumber(f, g) <==> f.number == g.number;
    }
    FileOfVersionIsNew(records, db, level, f);
    assert Known(AllNew(records, |records|), f);
    ReplacingEditLevel(edit, level, [f], [], [f]);
    ReplacementIsTold(records, db, db', level, [f], [], [f], edit);
  }

  lemma OutputsAreNew(edit: VersionEdit, level: nat, in0: Files, in1: Files, outputs: Files, news: seq<(nat, File)>, next: nat)
    requires ReplacingEdit(edit, level, in0, in1, outputs) && Numbered(outputs, next)
    ensures NewOrKnown(news, edit, next, next + |outputs|)
  {
    forall l: nat, f: File | (l, f) in edit.newFiles ensures next <= f.number < next + |outputs| {
      var i :| 0 <= i < |edit.newFiles| && edit.newFiles[i] == (l, f);
    }
  }

  lemma CompactionIsTold(records: seq<VersionEdit>, db: Db, db': Db, level: nat, in0: Files, in1: Files, outputs: Files, edit: VersionEdit)
    requires Tells(records, db) && Valid(db.version) && Valid(db'.version) && NumbersBelow(db.version, db.nextFileNumber)
    requires Compacts(db, level, in0, in1, outputs, db') && ReplacingEdit(edit, level, in0, in1, outputs)
    ensures Tells(records + [edit], db')
  {
    NextNumbersAreNew(db.version, level + 1, outputs, db.nextFileNumber);
    OutputsAreNew(edit, level, in0, in1, outputs, AllNew(records, |records|), db.nextFileNumber);
    ReplacementIsTold(records, db, db', level, in0, in1, outputs, edit);
  }

  lemma FlushIsTold(records: seq<VersionEdit>, db: Db, db': Db, level: nat, f: File, edit: VersionEdit)
    requires Tells(records, db) && Valid(db.version) && Valid(db'.version) && NumbersBelow(db.version, db.nextFileNumber)
    requires Flushes(db, level, f, db') && edit.newFiles == [(level, f)] && edit.deletedFiles == {}
    ensures Tells(records + [edit], db')
  {
    LevelsAreSorted(db'.version);
    assert NewNumbers(db.version, edit);
    assert NewOrKnown(AllNew(records, |records|), edit, db.nextFileNumber, db'.nextFileNumber);
    OneMoreRecord(records, edit, db, db', level);
  }

  lemma EmptyFlushIsTold(records: seq<VersionEdit>, db: Db, db': Db, edit: VersionEdit)
    requires Tells(records, db) && db'.version == db.version && db'.nextFileNumber == db.nextFileNumber + 1
    requires edit.newFiles == [] && edit.deletedFiles == {}
    ensures Tells(records + [edit], db')
  {
    OneMoreRecord(records, edit, db, db', 0);
  }

  lemma StepIsTold(records: seq<VersionEdit>, db: Db, ops: seq<Op>, step: Step, db': Db, ops': seq<Op>, edits: seq<VersionEdit>)
    requires Tells(records, db) && Inv(db, ops) && Inv(db', ops') && Next(db, ops, step, db', ops') && LogsEdit(step, edits)
    ensures Tells(records + edits, db')
  {
    if |edits| == 1 { assert edits == [edits[0]]; }
    match step
    case FlushStep(level, f) => FlushIsTold(records, db, db', level, f, edits[0]);
    case FlushEmptyStep => EmptyFlushIsTold(records, db, db', edits[0]);
    case MoveStep(level, f) => MoveIsTold(records, db, db', level, f, edits[0]);
    case CompactStep(level, in0, in1, outputs) => CompactionIsTold(records, db, db', level, in0, in1, outputs, edits[0]);
    case _ => assert records + edits == records;
  }
}

/**
 The manifest: version edits are logged before they are applied, and reading the log back restores
 the state (LogAndApply, WriteSnapshot, Recover in db/version_set.cc).
 */
module Manifest {
  import opened Wrappers
  import opened DbFormat
  import opened Versions
  import opened VersionEdits

  // ---------------------------------------------------------------- histories of edits

  ghost function NewAt(edit: VersionEdit, l: nat): set<File> {
    set a | a in edit.newFiles && a.0 == l :: a.1
  }

  ghost function NumbersOf(files: set<File>): set<nat> {
    set f | f in files :: f.number
  }

  ghost function GoneAt(edit: VersionEdit, l: nat): set<nat> {
    set d | d in edit.deletedFiles && d.0 == l :: d.1
  }

  /** Every file the first `n` records put into a level, in order. */
  ghost function AllNew(records: seq<VersionEdit>, n: nat): seq<(nat, File)>
    requires n <= |records|
  {
    if n == 0 then [] else AllNew(records, n - 1) + records[n - 1].newFiles
  }

  /** The numbers the first `n` records took out of a level and did not put back. */
  ghost function DeletedBy(records: seq<VersionEdit>, n: nat, l: nat): set<nat>
    requires n <= |records|
  {
    if n == 0 then {}
    else DeletedBy(records, n - 1, l) + GoneAt(records[n - 1], l) - NumbersOf(NewAt(records[n - 1], l))
  }

  ghost predicate InRange(records: seq<VersionEdit>) {
    forall i :: 0 <= i < |records| ==> LevelsInRange(records[i])
  }

  /** What one builder makes of the first `n` records. */
  ghost predicate Held(records: seq<VersionEdit>, n: nat, l: nat, f: File)
    requires n <= |records|
  {
    FirstIn([], AllNew(records, n), |AllNew(records, n)|, l, f) && f.number !in DeletedBy(records, n, l)
  }

  /** At each level a number names one file. */
  ghost predicate Named(news: seq<(nat, File)>) {
    forall l: nat, f: File, g: File {:trigger (l, f) in news, (l, g) in news} :: (l, f) in news && (l, g) in news && f.number == g.number ==> f == g
  }

  ghost predicate AllNamed(records: seq<VersionEdit>) {
    Named(AllNew(records, |records|))
  }

  lemma NamedIsFirst(news: seq<(nat, File)>, l: nat, f: File)
    requires Named(news)
    ensures FirstIn([], news, |news|, l, f) <==> (l, f) in news
  {
    if (l, f) in news {
      var j :| 0 <= j < |news| && news[j] == (l, f);
      var h := SomeFirstIn([], news, |news|, l, j);
      assert (l, h) in news;
    }
  }

  lemma {:induction false} AllNewGrows(records: seq<VersionEdit>, n: nat, m: nat)
    requires n <= m <= |records|
    ensures AllNew(records, n) <= AllNew(records, m)
    decreases m
  {
    if n < m { AllNewGrows(records, n, m - 1); }
  }

  lemma NamedPrefix(records: seq<VersionEdit>, n: nat)
    requires AllNamed(records) && n <= |records|
    ensures Named(AllNew(records, n))
  {
    AllNewGrows(records, n, |records|);
    NamedSubset(AllNew(records, n), AllNew(records, |records|));
  }

  lemma OwnNumbersName(news: seq<(nat, File)>)
    requires OwnNumbers(news)
    ensures Named(news)
  {
    forall l: nat, f: File, g: File | (l, f) in news && (l, g) in news && f.number == g.number ensures f == g {
      var j :| 0 <= j < |news| && news[j] == (l, f);
      var k :| 0 <= k < |news| && news[k] == (l, g);
    }
  }

  lemma NamedSubset(a: seq<(nat, File)>, b: seq<(nat, File)>)
    requires Named(b) && forall x :: x in a ==> x in b
    ensures Named(a)
  {
    forall l: nat, f: File, g: File | (l, f) in a && (l, g) in a && f.number == g.number ensures f == g {
      assert (l, f) in b && (l, g) in b;
    }
  }

  /** The versions that applying the records one at a time gives. */
  ghost predicate Successive(records: seq<VersionEdit>, versions: seq<Version>) {
    && |versions| == |records| + 1 && versions[0] == EMPTY_VERSION
    && forall i :: 0 <= i < |records| ==> Follows(versions[i], records[i], versions[i + 1])
  }

  /** What LogAndApply makes of the version, if no file ends up twice in a level. */
  ghost predicate Follows(v: Version, edit: VersionEdit, v': Version) {
    && (forall l :: 0 <= l < NUM_LEVELS ==> SortedBySmallest(v'[l]))
    && forall l, f {:trigger f in v'[l]} :: 0 <= l < NUM_LEVELS ==> (f in v'[l] <==> AfterEdit(v, edit, l, f))
  }

  /** The version is what one builder makes of the records. */
  ghost predicate Summary(records: seq<VersionEdit>, n: nat, v: Version)
    requires n <= |records|
  {
    && (forall l :: 0 <= l < NUM_LEVELS ==> SortedBySmallest(v[l]))
    && forall l, f {:trigger f in v[l]} :: 0 <= l < NUM_LEVELS ==> (f in v[l] <==> Held(records, n, l, f))
  }

  lemma SummaryIsUnique(records: seq<VersionEdit>, n: nat, v: Version, w: Version)
    requires n <= |records| && Summary(records, n, v) && Summary(records, n, w)
    ensures v == w
  {
    forall l | 0 <= l < NUM_LEVELS ensures v[l] == w[l] {
      SortedFilesAreEqual(v[l], w[l]);
    }
  }

  lemma NewFileIsNewAt(edit: VersionEdit, l: nat, f: File)
    ensures f in NewAt(edit, l) <==> (l, f) in edit.newFiles
  {
    if f in NewAt(edit, l) {
      var a :| a in edit.newFiles && a.0 == l && a.1 == f;
      assert a == (l, f);
    }
  }

  lemma GoneNumber(edit: VersionEdit, l: nat, k: nat)
    ensures k in GoneAt(edit, l) <==> (l, k) in edit.deletedFiles
    ensures k in NumbersOf(NewAt(edit, l)) <==> exists f :: (l, f) in edit.newFiles && f.number == k
  {
    if k in GoneAt(edit, l) {
      var d :| d in edit.deletedFiles && d.0 == l && d.1 == k;
      assert d == (l, k);
    }
    if k in NumbersOf(NewAt(edit, l)) {
      var f :| f in NewAt(edit, l) && f.number == k;
      NewFileIsNewAt(edit, l, f);
    }
    if f :| (l, f) in edit.newFiles && f.number == k {
      NewFileIsNewAt(edit, l, f);
    }
  }

  /** One more record, as one builder sees it and as the version before it does. */
  lemma HeldStep(records: seq<VersionEdit>, n: nat, v: Version, l: nat, f: File)
    requires n < |records| && Named(AllNew(records, n + 1)) && l < NUM_LEVELS
    requires f in v[l] <==> Held(records, n, l, f)
    ensures AfterEdit(v, records[n], l, f) <==> Held(records, n + 1, l, f)
  {
    var edit, before, after := records[n], AllNew(records, n), AllNew(records, n + 1);
    assert after == before + edit.newFiles;
    NamedSubset(before, after);
    NamedSubset(edit.newFiles, after);
    NamedIsFirst(before, l, f);
    NamedIsFirst(after, l, f);
    NamedIsFirst(edit.newFiles, l, f);
    GoneNumber(edit, l, f.number);
    if g :| (l, g) in edit.newFiles && g.number == f.number {
      assert (l, g) in after;
      assert (l, f) in after ==> f == g;
    }
  }

  lemma SummaryStep(records: seq<VersionEdit>, n: nat, v: Version, v': Version)
    requires n < |records| && Named(AllNew(records, n + 1)) && Summary(records, n, v)
    requires Follows(v, records[n], v')
    ensures Summary(records, n + 1, v')
  {
    forall l, f | 0 <= l < NUM_LEVELS ensures f in v'[l] <==> Held(records, n + 1, l, f) {
      assert f in v[l] <==> Held(records, n, l, f);
      HeldStep(records, n, v, l, f);
    }
  }

  lemma NothingYet(records: seq<VersionEdit>)
    ensures Summary(records, 0, EMPTY_VERSION)
  {
  }

  /** If a number names one file, applying a history through one builder is the same as applying it
      one version at a time, even when files leave a level and come back. */
  lemma {:induction false} SuccessiveSummary(records: seq<VersionEdit>, versions: seq<Version>, n: nat)
    requires AllNamed(records) && Successive(records, versions) && n <= |records|
    ensures Summary(records, n, versions[n])
  {
    if n == 0 {
      NothingYet(records);
    } else {
      SuccessiveSummary(records, versions, n - 1);
      NamedPrefix(records, n);
      SummaryStep(records, n - 1, versions[n - 1], versions[n]);
    }
  }

  // ---------------------------------------------------------------- replaying through one builder

  lemma FirstInConcat(a: seq<(nat, File)>, b: seq<(nat, File)>, added: Files, l: nat, f: File)
    requires forall g :: g in added <==> FirstIn([], a, |a|, l, g)
    ensures FirstIn([], a + b, |a + b|, l, f) <==> f in added || FirstIn(added, b, |b|, l, f)
  {
    if f in added {
      var i :| 0 <= i < |a| && a[i] == (l, f) && forall j :: 0 <= j < i && a[j].0 == l ==> !Tied(f, a[j].1);
      assert (a + b)[i] == (l, f);
    } else if FirstIn(added, b, |b|, l, f) {
      LaterIsFirst(a, b, added, l, f);
    }
    if FirstIn([], a + b, |a + b|, l, f) && f !in added {
      var i :| 0 <= i < |a + b| && (a + b)[i] == (l, f) && forall j :: 0 <= j < i && (a + b)[j].0 == l ==> !Tied(f, (a + b)[j].1);
      FirstIsLater(a, b, added, l, f, i);
    }
  }

  lemma LaterIsFirst(a: seq<(nat, File)>, b: seq<(nat, File)>, added: Files, l: nat, f: File)
    requires forall g :: g in added <==> FirstIn([], a, |a|, l, g)
    requires FirstIn(added, b, |b|, l, f)
    ensures FirstIn([], a + b, |a + b|, l, f)
  {
    var i :| 0 <= i < |b| && b[i] == (l, f) && forall j :: 0 <= j < i && b[j].0 == l ==> !Tied(f, b[j].1);
    forall j | 0 <= j < |a| + i && (a + b)[j].0 == l ensures !Tied(f, (a + b)[j].1) {
      if j < |a| {
        var h := SomeFirstIn([], a, |a|, l, j);
        assert h in added;
      } else {
        assert (a + b)[j] == b[j - |a|];
      }
    }
    assert (a + b)[|a| + i] == (l, f);
  }

  lemma FirstIsLater(a: seq<(nat, File)>, b: seq<(nat, File)>, added: Files, l: nat, f: File, i: nat)
    requires forall g :: g in added <==> FirstIn([], a, |a|, l, g)
    requires i < |a + b| && (a + b)[i] == (l, f) && f !in added
    requires forall j :: 0 <= j < i && (a + b)[j].0 == l ==> !Tied(f, (a + b)[j].1)
    ensures FirstIn(added, b, |b|, l, f)
  {
    assert forall j :: 0 <= j < |a| ==> (a + b)[j] == a[j];
    assert i >= |a|;
    forall j | 0 <= j < i - |a| && b[j].0 == l ensures !Tied(f, b[j].1) {
      assert (a + b)[|a| + j] == b[j];
    }
    forall h | h in added ensures !Tied(f, h) {
      var j :| 0 <= j < |a| && a[j] == (l, h);
    }
    assert b[i - |a|] == (l, f);
  }

  ghost predicate BuilderHolds(b: Builder, records: seq<VersionEdit>, n: nat)
    requires n <= |records|
    reads b
  {
    && b.Ready() && b.base == EMPTY_VERSION
    && (forall l, f {:trigger f in b.addedFiles[l]} :: 0 <= l < NUM_LEVELS ==>
          (f in b.addedFiles[l] <==> FirstIn([], AllNew(records, n), |AllNew(records, n)|, l, f)))
    && (forall l, k {:trigger k in b.deletedFiles[l]} :: 0 <= l < NUM_LEVELS ==> (k in b.deletedFiles[l] <==> k in DeletedBy(records, n, l)))
  }

  method ApplyRecord(b: Builder, records: seq<VersionEdit>, n: nat)
    requires n < |records| && LevelsInRange(records[n]) && BuilderHolds(b, records, n)
    modifies b
    ensures BuilderHolds(b, records, n + 1)
  {
    var edit := records[n];
    ghost var added := b.addedFiles;
    b.Apply(edit);
    forall l, f | 0 <= l < NUM_LEVELS
      ensures f in b.addedFiles[l] <==> FirstIn([], AllNew(records, n + 1), |AllNew(records, n + 1)|, l, f)
    {
      FirstInConcat(AllNew(records, n), edit.newFiles, added[l], l, f);
    }
    forall l, k | 0 <= l < NUM_LEVELS ensures k in b.deletedFiles[l] <==> k in DeletedBy(records, n + 1, l) {
      assert k in old(b.deletedFiles[l]) <==> k in DeletedBy(records, n, l);
      GoneNumber(edit, l, k);
    }
  }

  // ---------------------------------------------------------------- the other fields

  ghost function LastLog(records: seq<VersionEdit>, n: nat): Option<nat>
    requires n <= |records|
  {
    if n == 0 then None else if records[n - 1].logNumber.Some? then records[n - 1].logNumber else LastLog(records, n - 1)
  }

  ghost function LastPrevLog(records: seq<VersionEdit>, n: nat): Option<nat>
    requires n <= |records|
  {
    if n == 0 then None else if records[n - 1].prevLogNumber.Some? then records[n - 1].prevLogNumber else LastPrevLog(records, n - 1)
  }

  ghost function LastNextFile(records: seq<VersionEdit>, n: nat): Option<nat>
    requires n <= |records|
  {
    if n == 0 then None else if records[n - 1].nextFileNumber.Some? then records[n - 1].nextFileNumber else LastNextFile(records, n - 1)
  }

  ghost function LastSequence(records: seq<VersionEdit>, n: nat): Option<nat>
    requires n <= |records|
  {
    if n == 0 then None else if records[n - 1].lastSequence.Some? then records[n - 1].lastSequence else LastSequence(records, n - 1)
  }

  // ---------------------------------------------------------------- growing a manifest

  /** The records so far, up to `n`, do not depend on what comes later. */
  lemma {:induction false} PrefixAgrees(records: seq<VersionEdit>, more: seq<VersionEdit>, n: nat)
    requires n <= |records|
    ensures AllNew(records + more, n) == AllNew(records, n)
    ensures forall l :: DeletedBy(records + more, n, l) == DeletedBy(records, n, l)
  {
    if n > 0 {
      PrefixAgrees(records, more, n - 1);
      assert (records + more)[n - 1] == records[n - 1];
    }
  }

  /** The files of the edit do not take the number of another file of their level. */
  ghost predicate NamedWith(records: seq<VersionEdit>, edit: VersionEdit) {
    Named(AllNew(records, |records|) + edit.newFiles)
  }

  lemma ManifestGrows(records: seq<VersionEdit>, edit: VersionEdit, v: Version, v': Version)
    requires NamedWith(records, edit) && Summary(records, |records|, v) && Follows(v, edit, v')
    ensures AllNamed(records + [edit]) && Summary(records + [edit], |records| + 1, v')
  {
    PrefixAgrees(records, [edit], |records|);
    var longer := records + [edit];
    assert longer[|records|] == edit;
    assert AllNew(longer, |records| + 1) == AllNew(records, |records|) + edit.newFiles;
    forall l, f | 0 <= l < NUM_LEVELS ensures f in v[l] <==> Held(longer, |records|, l, f) {
      assert f in v[l] <==> Held(records, |records|, l, f);
    }
    SummaryStep(longer, |records|, v, v');
  }

  lemma SummaryIsDistinct(records: seq<VersionEdit>, v: Version)
    requires AllNamed(records) && Summary(records, |records|, v)
    ensures forall l :: 0 <= l < NUM_LEVELS ==> DistinctInLevel(v[l])
  {
    forall l, f, g | 0 <= l < NUM_LEVELS && f in v[l] && g in v[l] && SameNumber(f, g) ensures f == g {
      assert Held(records, |records|, l, f) && Held(records, |records|, l, g);
      NamedIsFirst(AllNew(records, |records|), l, f);
      NamedIsFirst(AllNew(records, |records|), l, g);
    }
  }

  // ---------------------------------------------------------------- snapshots of a version

  ghost predicate Snapshot(edit: VersionEdit, v: Version) {
    && edit == EMPTY_EDIT.(newFiles := edit.newFiles)
    && LevelsInRange(edit)
    && (forall l, f {:trigger f in v[l]} :: 0 <= l < NUM_LEVELS ==> (f in v[l] <==> (l, f) in edit.newFiles))
    && OwnNumbers(edit.newFiles)
  }

  /** One record that holds a whole version restores it. */
  lemma SnapshotSummary(edit: VersionEdit, v: Version)
    requires Snapshot(edit, v) && forall l :: 0 <= l < NUM_LEVELS ==> SortedBySmallest(v[l])
    ensures AllNamed([edit]) && Summary([edit], 1, v)
  {
    var records := [edit];
    assert AllNew(records, 0) == [] && AllNew(records, 1) == edit.newFiles;
    OwnNumbersName(edit.newFiles);
    forall l, f | 0 <= l < NUM_LEVELS ensures f in v[l] <==> Held(records, 1, l, f) {
      assert f in v[l] <==> (l, f) in edit.newFiles;
      NamedIsFirst(edit.newFiles, l, f);
      GoneNumber(edit, l, f.number);
    }
  }

  /** Reading the records back gives the version. */
  ghost predicate Restores(records: seq<VersionEdit>, v: Version) {
    && AllNamed(records) && InRange(records) && Summary(records, |records|, v)
    && forall l :: 0 <= l < NUM_LEVELS ==> DistinctInLevel(v[l])
  }

  predicate SameFiles(edit: VersionEdit, full: VersionEdit) {
    full.newFiles == edit.newFiles && full.deletedFiles == edit.deletedFiles
  }

  lemma SameFilesSameEffect(v: Version, edit: VersionEdit, full: VersionEdit)
    requires SameFiles(edit, full)
    ensures forall l, f :: 0 <= l < NUM_LEVELS ==> (AfterEdit(v, full, l, f) <==> AfterEdit(v, edit, l, f))
    ensures forall v' :: Follows(v, full, v') <==> Follows(v, edit, v')
  {
    forall l, f | 0 <= l < NUM_LEVELS ensures AfterEdit(v, full, l, f) <==> AfterEdit(v, edit, l, f) {
    }
  }

  lemma OneMoreRestores(records: seq<VersionEdit>, edit: VersionEdit, v: Version, v': Version)
    requires NamedWith(records, edit) && InRange(records) && LevelsInRange(edit)
    requires Summary(records, |records|, v) && Follows(v, edit, v')
    ensures Restores(records + [edit], v')
  {
    ManifestGrows(records, edit, v, v');
    SummaryIsDistinct(records + [edit], v');
  }

  lemma SnapshotNames(snapshot: VersionEdit, v: Version, edit: VersionEdit)
    requires Snapshot(snapshot, v) && NewNumbers(v, edit)
    requires forall l :: 0 <= l < NUM_LEVELS ==> DistinctInLevel(v[l])
    ensures NamedWith([snapshot], edit)
  {
    assert AllNew([snapshot], 0) == [] && AllNew([snapshot], 1) == snapshot.newFiles;
    var news := snapshot.newFiles + edit.newFiles;
    OwnNumbersName(edit.newFiles);
    forall l: nat, f: File, g: File | (l, f) in news && (l, g) in news && f.number == g.number ensures f == g {
      if !((l, f) in edit.newFiles && (l, g) in edit.newFiles) {
        assert (l, f) in snapshot.newFiles ==> l < NUM_LEVELS && f in v[l];
        assert (l, g) in snapshot.newFiles ==> l < NUM_LEVELS && g in v[l];
        assert f in v[l] && g in v[l] ==> SameNumber(f, g);
      }
    }
  }

  // ---------------------------------------------------------------- the version set

  datatype Status = Ok | Corruption(message: string)

  class VersionSet {
    var current: Version
    var logNumber: nat
    var prevLogNumber: nat
    var nextFileNumber: nat
    var lastSequence: nat
    var manifestFileNumber: nat
    /** Whether the descriptor log is open, and the records written to it. */
    var logOpen: bool
    var manifest: seq<VersionEdit>
    /** The counters the last record carries. */
    ghost var savedNextFile: nat
    ghost var savedSequence: nat

    ghost predicate Ready()
      reads this
    {
      && (forall l :: 0 <= l < NUM_LEVELS ==> SortedBySmallest(current[l]) && DistinctInLevel(current[l]))
      && logNumber < nextFileNumber
      && (logOpen ==> Saved())
      && (!logOpen ==> manifest == [])
    }

    /** Everything but the counters that have moved on since can be read back from the manifest. */
    ghost predicate Saved()
      reads this
    {
      && Restores(manifest, current) && logNumber < savedNextFile
      && LastLog(manifest, |manifest|) == Some(logNumber) && LastPrevLog(manifest, |manifest|) == Some(prevLogNumber)
      && LastNextFile(manifest, |manifest|) == Some(savedNextFile) && LastSequence(manifest, |manifest|) == Some(savedSequence)
    }

    constructor ()
      ensures Ready() && current == EMPTY_VERSION && !logOpen && nextFileNumber == 2
    {
      current, logNumber, prevLogNumber, nextFileNumber, lastSequence := EMPTY_VERSION, 0, 0, 2, 0;
      manifestFileNumber, logOpen, manifest := 0, false, [];
    }

    /** The edit brings new files only, and numbers that name them at their levels. */
    ghost predicate Acceptable(edit: VersionEdit)
      reads this
    {
      NewNumbers(current, edit) && (logOpen ==> NamedWith(manifest, edit))
    }

    /** VersionSet::WriteSnapshot. */
    method WriteSnapshot() returns (edit: VersionEdit)
      requires Ready()
      ensures Snapshot(edit, current)
    {
      var added: seq<(nat, File)> := [];
      for l := 0 to NUM_LEVELS
        invariant forall k, f {:trigger (k, f) in added} :: (k, f) in added <==> 0 <= k < l && f in current[k]
        invariant OwnNumbers(added)
      {
        added := WriteLevel(l, added);
      }
      edit := EMPTY_EDIT.(newFiles := added);
      forall a | a in added ensures a.0 < NUM_LEVELS {
        assert (a.0, a.1) in added;
      }
    }

    method WriteLevel(l: nat, before: seq<(nat, File)>) returns (added: seq<(nat, File)>)
      requires Ready() && l < NUM_LEVELS
      requires forall k, f {:trigger (k, f) in before} :: (k, f) in before <==> 0 <= k < l && f in current[k]
      requires OwnNumbers(before)
      ensures forall k, f {:trigger (k, f) in added} :: (k, f) in added <==> 0 <= k < l + 1 && f in current[k]
      ensures OwnNumbers(added)
    {
      var files := current[l];
      added := before;
      for i := 0 to |files|
        invariant forall k, f {:trigger (k, f) in added} :: (k, f) in added <==> (0 <= k < l && f in current[k]) || (k == l && f in files[..i])
        invariant OwnNumbers(added)
      {
        forall j | 0 <= j < |added| && added[j].0 == l ensures added[j].1.number != files[i].number {
          assert (added[j].0, added[j].1) in added;
          var m :| 0 <= m < i && files[m] == added[j].1;
          BySmallestIsTotalOrder(files[m], files[i], files[m]);
          assert BySmallest(files[m], files[i]);
          assert !SameNumber(files[m], files[i]);
        }
        added := added + [(l, files[i])];
        assert files[..i + 1] == files[..i] + [files[i]];
      }
      assert files[..|files|] == files;
    }

    /** What LogAndApply writes: the edit with every counter filled in. */
    function Completed(edit: VersionEdit): VersionEdit
      reads this
    {
      edit.(
        logNumber := Some(edit.logNumber.GetOr(logNumber)),
        prevLogNumber := Some(edit.prevLogNumber.GetOr(prevLogNumber)),
        nextFileNumber := Some(nextFileNumber),
        lastSequence := Some(lastSequence))
    }

    /** VersionSet::LogAndApply: the edit is completed, logged and applied. */
    method LogAndApply(edit: VersionEdit) returns (ghost records: seq<VersionEdit>)
      requires Ready() && LevelsInRange(edit)
      requires edit.logNumber.Some? ==> logNumber <= edit.logNumber.value < nextFileNumber
      modifies this`current, this`logNumber, this`prevLogNumber, this`logOpen, this`manifest, this`savedNextFile, this`savedSequence
      ensures logOpen && manifest == records + [old(Completed(edit))] && old(GoesBefore(records))
      ensures forall l, f {:trigger f in current[l]} :: 0 <= l < NUM_LEVELS ==> (f in current[l] <==> AfterEdit(old(current), edit, l, f))
      ensures logNumber == edit.logNumber.GetOr(old(logNumber)) && prevLogNumber == edit.prevLogNumber.GetOr(old(prevLogNumber))
      ensures savedNextFile == nextFileNumber && savedSequence == lastSequence
      ensures old(Acceptable(edit)) ==> Ready() && Follows(old(current), edit, current)
    {
      var written, full, v := Prepare(edit);
      records := written;
      manifest := written + [full];
      logOpen := true;
      current := v;
      logNumber := full.logNumber.value;
      prevLogNumber := full.prevLogNumber.value;
      savedNextFile, savedSequence := nextFileNumber, lastSequence;
    }

    /** The records before the edit, the edit as it is written, and the version it makes. */
    method Prepare(edit: VersionEdit) returns (records: seq<VersionEdit>, full: VersionEdit, v: Version)
      requires Ready() && LevelsInRange(edit)
      ensures GoesBefore(records) && full == Completed(edit)
      ensures forall l, f {:trigger f in v[l]} :: 0 <= l < NUM_LEVELS ==> (f in v[l] <==> AfterEdit(current, edit, l, f))
      ensures Acceptable(edit) ==> Follows(current, edit, v) && Restores(records + [full], v)
    {
      full := Completed(edit);
      records := RecordsSoFar();
      v := VersionEdits.LogAndApply(current, full);
      SameFilesSameEffect(current, edit, full);
      if Acceptable(edit) {
        assert NewNumbers(current, full);
        RecordsGrow(records, edit, full, v);
      }
    }

    /** The records the next edit will follow. */
    ghost predicate GoesBefore(records: seq<VersionEdit>)
      reads this
    {
      if logOpen then records == manifest else |records| == 1 && Snapshot(records[0], current)
    }

    /** The descriptor log is opened with a snapshot of the version. */
    method RecordsSoFar() returns (records: seq<VersionEdit>)
      requires Ready()
      ensures GoesBefore(records) && InRange(records) && Summary(records, |records|, current)
    {
      records := manifest;
      if !logOpen {
        var snapshot := WriteSnapshot();
        records := [snapshot];
        SnapshotSummary(snapshot, current);
      }
    }

    /** An acceptable edit can be read back with the records before it. */
    lemma RecordsGrow(records: seq<VersionEdit>, edit: VersionEdit, full: VersionEdit, v: Version)
      requires Ready() && Acceptable(edit) && SameFiles(edit, full)
      requires GoesBefore(records) && InRange(records) && Summary(records, |records|, current)
      requires Follows(current, full, v)
      ensures Restores(records + [full], v)
    {
      if !logOpen {
        SnapshotNames(records[0], current, edit);
        assert records == [records[0]];
      }
      OneMoreRestores(records, full, current, v);
    }

    method MarkFileNumberUsed(number: nat)
      modifies this`nextFileNumber
      ensures nextFileNumber > number && nextFileNumber >= old(nextFileNumber)
      ensures old(Ready()) ==> Ready()
      ensures old(nextFileNumber) > number ==> nextFileNumber == old(nextFileNumber)
    {
      if nextFileNumber <= number {
        nextFileNumber := number + 1;
      }
    }

    /** VersionSet::Recover, from the records of the manifest CURRENT names. */
    method Recover(records: seq<VersionEdit>) returns (status: Status)
      requires Ready() && current == EMPTY_VERSION && !logOpen && InRange(records)
      modifies this
      ensures !logOpen
      ensures var n := |records|;
        status == if LastNextFile(records, n).None? then Corruption("no meta-nextfile entry in descriptor")
                  else if LastLog(records, n).None? then Corruption("no meta-lognumber entry in descriptor")
                  else if LastSequence(records, n).None? then Corruption("no last-sequence-number entry in descriptor")
                  else Ok
      ensures !status.Ok? ==> Ready() && current == EMPTY_VERSION
      ensures status.Ok? ==> var n := |records|;
        && Summary(records, n, current)
        && LastLog(records, n) == Some(logNumber) && LastSequence(records, n) == Some(lastSequence)
        && prevLogNumber == LastPrevLog(records, n).GetOr(0)
        && LastNextFile(records, n) == Some(manifestFileNumber) && nextFileNumber == manifestFileNumber + 1
      ensures status.Ok? && AllNamed(records) ==> (Ready() <==> logNumber <= manifestFileNumber)
    {
      var v, nextFile, log, prevLog, sequence := Replay(current, records);
      if nextFile.None? {
        status := Corruption("no meta-nextfile entry in descriptor");
      } else if log.None? {
        status := Corruption("no meta-lognumber entry in descriptor");
      } else if sequence.None? {
        status := Corruption("no last-sequence-number entry in descriptor");
      } else {
        status := Ok;
      }
      MarkFileNumberUsed(prevLog.GetOr(0));
      MarkFileNumberUsed(log.GetOr(0));
      if status.Ok? {
        if AllNamed(records) { SummaryIsDistinct(records, v); }
        current := v;
        manifest := [];
        manifestFileNumber := nextFile.value;
        nextFileNumber := nextFile.value + 1;
        lastSequence := sequence.value;
        logNumber := log.value;
        prevLogNumber := prevLog.GetOr(0);
      }
    }
  }

  /** The loop of Recover: every record goes into one builder, and the last value of each field
      counts. */
  method Replay(base: Version, records: seq<VersionEdit>)
    returns (v: Version, nextFile: Option<nat>, log: Option<nat>, prevLog: Option<nat>, sequence: Option<nat>)
    requires base == EMPTY_VERSION && InRange(records)
    ensures Summary(records, |records|, v)
    ensures forall versions {:trigger Successive(records, versions)} ::
      AllNamed(records) && Successive(records, versions) ==> v == versions[|records|]
    ensures nextFile == LastNextFile(records, |records|) && log == LastLog(records, |records|)
    ensures prevLog == LastPrevLog(records, |records|) && sequence == LastSequence(records, |records|)
  {
    nextFile, log, prevLog, sequence := None, None, None, None;
    var builder := new Builder(base);
    for i := 0 to |records|
      invariant BuilderHolds(builder, records, i)
      invariant nextFile == LastNextFile(records, i) && log == LastLog(records, i)
      invariant prevLog == LastPrevLog(records, i) && sequence == LastSequence(records, i)
    {
      var edit := records[i];
      ApplyRecord(builder, records, i);
      if edit.logNumber.Some? { log := edit.logNumber; }
      if edit.prevLogNumber.Some? { prevLog := edit.prevLogNumber; }
      if edit.nextFileNumber.Some? { nextFile := edit.nextFileNumber; }
      if edit.lastSequence.Some? { sequence := edit.lastSequence; }
    }
    v := builder.SaveTo();
    SummaryOfBuilder(builder, records, v);
    forall versions | AllNamed(records) && Successive(records, versions) ensures v == versions[|records|] {
      SuccessiveSummary(records, versions, |records|);
      SummaryIsUnique(records, |records|, v, versions[|records|]);
    }
  }

  lemma SummaryOfBuilder(b: Builder, records: seq<VersionEdit>, v: Version)
    requires BuilderHolds(b, records, |records|)
    requires forall l :: 0 <= l < NUM_LEVELS ==> InOrder(v[l], b.base[l], b.addedFiles[l])
    requires forall l, f {:trigger f in v[l]} :: 0 <= l < NUM_LEVELS ==> (f in v[l] <==> b.Present(l, f))
    ensures Summary(records, |records|, v)
  {
    forall l | 0 <= l < NUM_LEVELS ensures SortedBySmallest(v[l]) {
      assert b.base[l] == [];
      OrderWithoutTies(v[l], b.base[l], b.addedFiles[l]);
    }
    forall l, f | 0 <= l < NUM_LEVELS ensures f in v[l] <==> Held(records, |records|, l, f) {
      assert f in v[l] <==> b.Present(l, f);
      assert f in b.addedFiles[l] <==> FirstIn([], AllNew(records, |records|), |AllNew(records, |records|)|, l, f);
      assert f.number in b.deletedFiles[l] <==> f.number in DeletedBy(records, |records|, l);
    }
  }

  /** Opening the database again: recovery restores what was installed last. */
  method Reopen(last: VersionSet) returns (reopened: VersionSet)
    requires last.Ready() && last.logOpen
    ensures fresh(reopened) && reopened.Ready() && reopened.logNumber < reopened.nextFileNumber
    ensures reopened.current == last.current && reopened.logNumber == last.logNumber && reopened.prevLogNumber == last.prevLogNumber
    ensures reopened.lastSequence == last.savedSequence && reopened.nextFileNumber == last.savedNextFile + 1
  {
    reopened := new VersionSet();
    var status := reopened.Recover(last.manifest);
    SummaryIsUnique(last.manifest, |last.manifest|, reopened.current, last.current);
  }
}

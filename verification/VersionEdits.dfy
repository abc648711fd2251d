/**
 Version edits and the builder that applies them (VersionSet::Builder, LogAndApply, Recover in
 db/version_set.cc).
 */
module VersionEdits {
  import opened Wrappers
  import opened DbFormat
  import opened Versions

  datatype VersionEdit = VersionEdit(
    logNumber: Option<nat>,
    prevLogNumber: Option<nat>,
    nextFileNumber: Option<nat>,
    lastSequence: Option<nat>,
    deletedFiles: set<(nat, nat)>,
    newFiles: seq<(nat, File)>)

  const EMPTY_EDIT := VersionEdit(None, None, None, None, {}, [])

  /** The level numbers an edit mentions exist. */
  predicate LevelsInRange(edit: VersionEdit) {
    && (forall d :: d in edit.deletedFiles ==> d.0 < NUM_LEVELS)
    && (forall a :: a in edit.newFiles ==> a.0 < NUM_LEVELS)
  }

  // ---------------------------------------------------------------- sorted file lists

  lemma BySmallestIsTotalOrder(f: File, g: File, h: File)
    ensures BySmallest(f, g) && BySmallest(g, h) ==> BySmallest(f, h)
    ensures !(BySmallest(f, g) && BySmallest(g, f))
    ensures !BySmallest(f, g) && !BySmallest(g, f) <==> f.smallest == g.smallest && f.number == g.number
  {
    CompareIsTotalOrder(f.smallest, g.smallest, h.smallest);
    CompareIsTotalOrder(g.smallest, f.smallest, h.smallest);
    CompareIsTotalOrder(g.smallest, h.smallest, f.smallest);
  }

  /** Neither file comes before the other. */
  predicate Tied(f: File, g: File) {
    f.smallest == g.smallest && f.number == g.number
  }

  /** std::set::insert under BySmallestKey: a file that ties with one of the set is not added. */
  function InsertFile(files: Files, f: File): (r: Files)
    requires SortedBySmallest(files)
    ensures SortedBySmallest(r)
    ensures forall g :: g in r <==> g in files || (g == f && forall h :: h in files ==> !Tied(f, h))
  {
    if files == [] then [f]
    else if BySmallest(f, files[0]) then
      BeforeAll(files, f);
      [f] + files
    else if BySmallest(files[0], f) then
      TailIsSorted(files);
      BySmallestIsTotalOrder(f, files[0], f);
      var tail := InsertFile(files[1..], f);
      assert forall g :: g in tail ==> BySmallest(files[0], g);
      var r := [files[0]] + tail;
      assert forall g :: g in files <==> g == files[0] || g in files[1..];
      r
    else
      BySmallestIsTotalOrder(f, files[0], f);
      assert Tied(f, files[0]) && files[0] in files;
      files
  }

  lemma BeforeAll(files: Files, f: File)
    requires SortedBySmallest(files) && files != [] && BySmallest(f, files[0])
    ensures forall g :: g in files ==> BySmallest(f, g) && !Tied(f, g)
  {
    forall g | g in files ensures BySmallest(f, g) && !Tied(f, g) {
      var j :| 0 <= j < |files| && files[j] == g;
      assert j > 0 ==> BySmallest(files[0], files[j]);
      BySmallestIsTotalOrder(f, files[0], g);
      BySmallestIsTotalOrder(f, g, f);
    }
  }

  lemma TailIsSorted(files: Files)
    requires SortedBySmallest(files) && files != []
    ensures SortedBySmallest(files[1..])
    ensures forall g :: g in files[1..] ==> BySmallest(files[0], g)
  {
    forall g | g in files[1..] ensures BySmallest(files[0], g) {
      var j :| 0 <= j < |files| - 1 && files[1..][j] == g;
      assert BySmallest(files[0], files[j + 1]);
    }
    forall i, j | 0 <= i < j < |files| - 1 ensures BySmallest(files[1..][i], files[1..][j]) {
      assert BySmallest(files[i + 1], files[j + 1]);
    }
  }

  /** A level is determined by its set of files. */
  lemma {:induction false} SortedFilesAreEqual(a: Files, b: Files)
    requires SortedBySmallest(a) && SortedBySmallest(b)
    requires forall f :: f in a <==> f in b
    ensures a == b
  {
    assert b != [] ==> b[0] in a;
    if a != [] {
      assert a[0] in b;
      TailIsSorted(a);
      TailIsSorted(b);
      if a[0] != b[0] {
        assert a[0] in b[1..] && b[0] in a[1..];
        BySmallestIsTotalOrder(a[0], b[0], a[0]);
        assert false;
      }
      forall f | f in a[1..] ensures f in b[1..] {
        assert f in a;
        BySmallestIsTotalOrder(a[0], f, a[0]);
      }
      forall f | f in b[1..] ensures f in a[1..] {
        assert f in b;
        BySmallestIsTotalOrder(b[0], f, b[0]);
      }
      SortedFilesAreEqual(a[1..], b[1..]);
      assert a == [a[0]] + a[1..] && b == [b[0]] + b[1..];
    }
  }

  // ---------------------------------------------------------------- the builder

  /** The two lists have no file in the same place of the order. */
  ghost predicate NoTies(base: Files, added: Files) {
    forall f, g :: f in base && g in added ==> !Tied(f, g)
  }

  /** Of the files put into a level, the first of each tie enters the set. */
  ghost predicate FirstIn(files: Files, news: seq<(nat, File)>, n: nat, l: nat, f: File)
    requires n <= |news|
  {
    && (forall g :: g in files ==> !Tied(f, g))
    && exists i :: 0 <= i < n && news[i] == (l, f) && forall j :: 0 <= j < i && news[j].0 == l ==> !Tied(f, news[j].1)
  }

  /** Every file put into the level is tied with one of the set. */
  lemma {:induction false} SomeFirstIn(files: Files, news: seq<(nat, File)>, n: nat, l: nat, j: nat) returns (h: File)
    requires j < n <= |news| && news[j].0 == l
    ensures h in files || FirstIn(files, news, n, l, h)
    ensures Tied(h, news[j].1)
    decreases j
  {
    if g :| g in files && Tied(news[j].1, g) {
      h := g;
    } else if k :| 0 <= k < j && news[k].0 == l && Tied(news[j].1, news[k].1) {
      h := SomeFirstIn(files, news, n, l, k);
    } else {
      h := news[j].1;
      assert news[j] == (l, h);
    }
  }

  lemma FirstInStep(files: Files, added: Files, news: seq<(nat, File)>, i: nat, g: File)
    requires i < |news|
    requires forall f :: f in added <==> f in files || FirstIn(files, news, i, news[i].0, f)
    ensures FirstIn(files, news, i + 1, news[i].0, g)
            <==> FirstIn(files, news, i, news[i].0, g) || (g == news[i].1 && forall h :: h in added ==> !Tied(news[i].1, h))
  {
    var (l, x) := news[i];
    if g == x && forall h :: h in added ==> !Tied(x, h) {
      forall j | 0 <= j < i && news[j].0 == l ensures !Tied(x, news[j].1) {
        var h := SomeFirstIn(files, news, i, l, j);
        assert h in added;
      }
      assert news[i] == (l, g);
    }
  }

  lemma OtherLevelStays(files: Files, news: seq<(nat, File)>, i: nat, l: nat, g: File)
    requires i < |news| && l != news[i].0
    ensures FirstIn(files, news, i + 1, l, g) <==> FirstIn(files, news, i, l, g)
  {
  }

  /** The sets of added files once the first `n` of some new files have gone in. */
  ghost predicate AddedBy(news: seq<(nat, File)>, n: nat, before: seq<Files>, added: seq<Files>) {
    && n <= |news| && |before| == |added| == NUM_LEVELS
    && forall l, f {:trigger f in added[l]} :: 0 <= l < NUM_LEVELS ==>
         (f in added[l] <==> f in before[l] || FirstIn(before[l], news, n, l, f))
  }

  lemma AddedNext(news: seq<(nat, File)>, n: nat, before: seq<Files>, added: seq<Files>)
    requires n < |news| && news[n].0 < NUM_LEVELS && AddedBy(news, n, before, added)
    requires SortedBySmallest(added[news[n].0])
    ensures AddedBy(news, n + 1, before, added[news[n].0 := InsertFile(added[news[n].0], news[n].1)])
  {
    var (level, x) := news[n];
    var added' := added[level := InsertFile(added[level], x)];
    forall l, f | 0 <= l < NUM_LEVELS ensures f in added'[l] <==> f in before[l] || FirstIn(before[l], news, n + 1, l, f) {
      assert f in added[l] <==> f in before[l] || FirstIn(before[l], news, n, l, f);
      if l == level {
        FirstInStep(before[l], added[l], news, n, f);
      } else {
        OtherLevelStays(before[l], news, n, l, f);
      }
    }
  }

  /** The numbers deleted and not put back by some new files. */
  ghost predicate DroppedBy(gone: set<(nat, nat)>, news: seq<(nat, File)>, before: seq<set<nat>>, deleted: seq<set<nat>>) {
    && |before| == |deleted| == NUM_LEVELS
    && forall l, k {:trigger k in deleted[l]} :: 0 <= l < NUM_LEVELS ==>
         (k in deleted[l] <==> (k in before[l] || (l, k) in gone) && forall f :: (l, f) in news ==> f.number != k)
  }

  lemma DroppedNext(gone: set<(nat, nat)>, news: seq<(nat, File)>, n: nat, before: seq<set<nat>>, deleted: seq<set<nat>>)
    requires n < |news| && news[n].0 < NUM_LEVELS && DroppedBy(gone, news[..n], before, deleted)
    ensures DroppedBy(gone, news[..n + 1], before, deleted[news[n].0 := deleted[news[n].0] - {news[n].1.number}])
  {
    assert news[..n + 1] == news[..n] + [news[n]];
  }

  class Builder {
    const base: Version
    var deletedFiles: seq<set<nat>>
    var addedFiles: seq<Files>

    constructor (base: Version)
      ensures this.base == base && Ready()
      ensures forall l :: 0 <= l < NUM_LEVELS ==> deletedFiles[l] == {} && addedFiles[l] == []
    {
      this.base := base;
      deletedFiles := seq(NUM_LEVELS, _ => {});
      addedFiles := seq(NUM_LEVELS, _ => []);
    }

    ghost predicate Ready()
      reads this
    {
      && |deletedFiles| == NUM_LEVELS && |addedFiles| == NUM_LEVELS
      && forall l :: 0 <= l < NUM_LEVELS ==> SortedBySmallest(addedFiles[l])
    }

    /** The files of a level once the edits applied so far take effect. */
    ghost predicate Present(l: nat, f: File)
      requires |deletedFiles| == NUM_LEVELS && |addedFiles| == NUM_LEVELS && l < NUM_LEVELS
      reads this
    {
      (f in base[l] || f in addedFiles[l]) && f.number !in deletedFiles[l]
    }

    /** Builder::Apply. */
    method Apply(edit: VersionEdit)
      requires Ready() && LevelsInRange(edit)
      modifies this`deletedFiles, this`addedFiles
      ensures Ready()
      ensures AddedBy(edit.newFiles, |edit.newFiles|, old(addedFiles), addedFiles)
      ensures DroppedBy(edit.deletedFiles, edit.newFiles, old(deletedFiles), deletedFiles)
    {
      var news := edit.newFiles;
      deletedFiles := seq(NUM_LEVELS, l requires 0 <= l < NUM_LEVELS reads this requires |deletedFiles| == NUM_LEVELS =>
        deletedFiles[l] + set d | d in edit.deletedFiles && d.0 == l :: d.1);
      for i := 0 to |news|
        invariant Ready()
        invariant AddedBy(news, i, old(addedFiles), addedFiles)
        invariant DroppedBy(edit.deletedFiles, news[..i], old(deletedFiles), deletedFiles)
      {
        var (level, f) := news[i];
        assert news[i] in news;
        AddedNext(news, i, old(addedFiles), addedFiles);
        DroppedNext(edit.deletedFiles, news, i, old(deletedFiles), deletedFiles);
        deletedFiles := deletedFiles[level := deletedFiles[level] - {f.number}];
        addedFiles := addedFiles[level := InsertFile(addedFiles[level], f)];
      }
      assert news[..|news|] == news;
    }

    /** One level of Builder::SaveTo: merge the added files into the base files and drop the
        deleted ones. */
    method SaveLevel(l: nat) returns (files: Files)
      requires Ready() && l < NUM_LEVELS && SortedBySmallest(base[l])
      ensures InOrder(files, base[l], addedFiles[l])
      ensures forall f :: f in files <==> Present(l, f)
    {
      var baseFiles, added, deleted := base[l], addedFiles[l], deletedFiles[l];
      files := [];
      var b, a := 0, 0;
      while a < |added|
        invariant Merged(files, baseFiles, added, deleted, b, a)
      {
        while b < |baseFiles| && !BySmallest(added[a], baseFiles[b])
          invariant Merged(files, baseFiles, added, deleted, b, a)
        {
          ghost var next := MergeBase(files, baseFiles, added, deleted, b, a);
          if baseFiles[b].number !in deleted { files := files + [baseFiles[b]]; }
          b := b + 1;
        }
        ghost var next := MergeAdded(files, baseFiles, added, deleted, b, a);
        if added[a].number !in deleted { files := files + [added[a]]; }
        a := a + 1;
      }
      while b < |baseFiles|
        invariant a == |added|
        invariant Merged(files, baseFiles, added, deleted, b, a)
      {
        ghost var next := MergeBase(files, baseFiles, added, deleted, b, a);
        if baseFiles[b].number !in deleted { files := files + [baseFiles[b]]; }
        b := b + 1;
      }
      assert baseFiles[..b] == baseFiles && added[..a] == added;
    }

    /** Builder::SaveTo. */
    method SaveTo() returns (v: Version)
      requires Ready() && forall l :: 0 <= l < NUM_LEVELS ==> SortedBySmallest(base[l])
      ensures forall l :: 0 <= l < NUM_LEVELS ==> InOrder(v[l], base[l], addedFiles[l])
      ensures forall l, f {:trigger f in v[l]} :: 0 <= l < NUM_LEVELS ==> (f in v[l] <==> Present(l, f))
    {
      var levels: seq<Files> := [];
      for l := 0 to NUM_LEVELS
        invariant |levels| == l
        invariant forall k :: 0 <= k < l ==> InOrder(levels[k], base[k], addedFiles[k])
        invariant forall k, f {:trigger f in levels[k]} :: 0 <= k < l ==> (f in levels[k] <==> Present(k, f))
      {
        var files := SaveLevel(l);
        levels := levels + [files];
      }
      v := levels;
    }
  }

  /** `f` comes before `g`, or is the base file of the two in a tie. */
  ghost predicate Ranked(f: File, g: File, base: Files, added: Files) {
    BySmallest(f, g) || (Tied(f, g) && f in base && g in added)
  }

  ghost predicate InOrder(files: Files, base: Files, added: Files) {
    forall i, j {:trigger Ranked(files[i], files[j], base, added)} :: 0 <= i < j < |files| ==> Ranked(files[i], files[j], base, added)
  }

  lemma OrderWithoutTies(files: Files, base: Files, added: Files)
    requires InOrder(files, base, added) && NoTies(base, added)
    ensures SortedBySmallest(files)
  {
    forall i, j | 0 <= i < j < |files| ensures BySmallest(files[i], files[j]) {
      assert Ranked(files[i], files[j], base, added);
    }
  }

  /** The state of the merge after `b` base files and `a` added files. */
  ghost predicate Merged(files: Files, baseFiles: Files, added: Files, deleted: set<nat>, b: nat, a: nat) {
    && b <= |baseFiles| && a <= |added|
    && InOrder(files, baseFiles, added)
    && (forall f :: f in files <==> (f in baseFiles[..b] || f in added[..a]) && f.number !in deleted)
    && Precede(added[..a], baseFiles[b..])
    && PrecedeOrTie(baseFiles[..b], added[a..], baseFiles, added)
  }

  ghost predicate Precede(front: Files, back: Files) {
    forall f, g {:trigger BySmallest(f, g)} :: f in front && g in back ==> BySmallest(f, g)
  }

  ghost predicate PrecedeOrTie(front: Files, back: Files, base: Files, added: Files) {
    forall f, g {:trigger Ranked(f, g, base, added)} :: f in front && g in back ==> Ranked(f, g, base, added)
  }

  lemma SplitPrecedes(files: Files, i: nat)
    requires SortedBySmallest(files) && i < |files|
    ensures Precede(files[..i], [files[i]]) && Precede([files[i]], files[i + 1..])
  {
    forall f | f in files[..i] ensures BySmallest(f, files[i]) {
      var j :| 0 <= j < i && files[j] == f;
      assert BySmallest(files[j], files[i]);
    }
    forall g | g in files[i + 1..] ensures BySmallest(files[i], g) {
      var j :| 0 <= j < |files| - i - 1 && files[i + 1..][j] == g;
      assert BySmallest(files[i], files[i + 1 + j]);
    }
  }

  lemma AppendKeepsOrder(files: Files, x: File, base: Files, added: Files)
    requires InOrder(files, base, added) && PrecedeOrTie(files, [x], base, added)
    ensures InOrder(files + [x], base, added)
  {
    forall i, j | 0 <= i < j < |files| + 1 ensures Ranked((files + [x])[i], (files + [x])[j], base, added) {
      if j == |files| {
        assert files[i] in files && x in [x];
      } else {
        assert Ranked(files[i], files[j], base, added);
      }
    }
  }

  /** `x` comes before the rest of a list when it comes before the first file of the rest. */
  lemma PrecedesRest(x: File, files: Files, i: nat)
    requires SortedBySmallest(files) && i <= |files|
    requires i < |files| ==> !BySmallest(files[i], x)
    ensures forall g :: g in files[i..] ==> BySmallest(x, g) || (Tied(x, g) && g == files[i])
  {
    forall g | g in files[i..] ensures BySmallest(x, g) || (Tied(x, g) && g == files[i]) {
      var j :| 0 <= j < |files| - i && files[i..][j] == g;
      assert files[i + j] == g;
      if j > 0 { assert BySmallest(files[i], files[i + j]); }
      BySmallestIsTotalOrder(x, files[i], g);
      BySmallestIsTotalOrder(files[i], g, x);
    }
  }

  lemma MergeBase(files: Files, baseFiles: Files, added: Files, deleted: set<nat>, b: nat, a: nat) returns (files': Files)
    requires Merged(files, baseFiles, added, deleted, b, a)
    requires SortedBySmallest(baseFiles) && SortedBySmallest(added) && b < |baseFiles|
    requires a < |added| ==> !BySmallest(added[a], baseFiles[b])
    ensures files' == if baseFiles[b].number !in deleted then files + [baseFiles[b]] else files
    ensures Merged(files', baseFiles, added, deleted, b + 1, a)
  {
    var x := baseFiles[b];
    SplitPrecedes(baseFiles, b);
    assert x in baseFiles[b..] && x in baseFiles;
    assert baseFiles[..b + 1] == baseFiles[..b] + [x];
    PrecedesRest(x, added, a);
    forall g | g in added[a..] ensures Ranked(x, g, baseFiles, added) {
    }
    forall f | f in files ensures Ranked(f, x, baseFiles, added) {
      assert f in baseFiles[..b] ==> x in [x];
    }
    AppendKeepsOrder(files, x, baseFiles, added);
    files' := if x.number !in deleted then files + [x] else files;
  }

  lemma MergeAdded(files: Files, baseFiles: Files, added: Files, deleted: set<nat>, b: nat, a: nat) returns (files': Files)
    requires Merged(files, baseFiles, added, deleted, b, a)
    requires SortedBySmallest(baseFiles) && SortedBySmallest(added) && a < |added|
    requires b < |baseFiles| ==> BySmallest(added[a], baseFiles[b])
    ensures files' == if added[a].number !in deleted then files + [added[a]] else files
    ensures Merged(files', baseFiles, added, deleted, b, a + 1)
  {
    var x := added[a];
    SplitPrecedes(added, a);
    assert x in added[a..];
    assert added[..a + 1] == added[..a] + [x];
    if b < |baseFiles| { BySmallestIsTotalOrder(x, baseFiles[b], x); }
    PrecedesRest(x, baseFiles, b);
    forall f | f in files ensures Ranked(f, x, baseFiles, added) {
      assert f in added[..a] ==> x in [x];
    }
    AppendKeepsOrder(files, x, baseFiles, added);
    files' := if x.number !in deleted then files + [x] else files;
  }

  // ---------------------------------------------------------------- one edit

  /** The files a new version has in a level after one edit. */
  ghost predicate InAfter(v: Version, edit: VersionEdit, l: nat, f: File)
    requires l < NUM_LEVELS
  {
    (f in v[l] && (l, f.number) !in edit.deletedFiles) || (l, f) in edit.newFiles
  }

  /** The new files of an edit have numbers their levels do not use yet. */
  ghost predicate NewNumbers(v: Version, edit: VersionEdit) {
    && LevelsInRange(edit)
    && (forall a {:trigger a in edit.newFiles} :: a in edit.newFiles ==> forall g :: g in v[a.0] ==> g.number != a.1.number)
    && OwnNumbers(edit.newFiles)
  }

  /** At each level every new file has a number of its own. */
  ghost predicate OwnNumbers(news: seq<(nat, File)>) {
    forall i, j {:trigger news[i], news[j]} :: 0 <= i < j < |news| && news[i].0 == news[j].0 ==> news[i].1.number != news[j].1.number
  }

  /** What one edit makes of a level, whatever its numbers. */
  ghost predicate AfterEdit(v: Version, edit: VersionEdit, l: nat, f: File)
    requires l < NUM_LEVELS
  {
    && (f in v[l] || FirstIn([], edit.newFiles, |edit.newFiles|, l, f))
    && ((l, f.number) in edit.deletedFiles ==> exists g :: (l, g) in edit.newFiles && g.number == f.number)
  }

  /** New files with numbers of their own neither tie with others nor bring deleted files back. */
  lemma NewNumbersReplace(v: Version, edit: VersionEdit, l: nat, f: File)
    requires NewNumbers(v, edit) && l < NUM_LEVELS
    ensures AfterEdit(v, edit, l, f) <==> InAfter(v, edit, l, f)
  {
    if (l, f) in edit.newFiles {
      var i :| 0 <= i < |edit.newFiles| && edit.newFiles[i] == (l, f);
      assert FirstIn([], edit.newFiles, |edit.newFiles|, l, f);
    }
    if g :| (l, g) in edit.newFiles && g.number == f.number {
      assert f !in v[l];
      if i :| 0 <= i < |edit.newFiles| && edit.newFiles[i] == (l, f) {
        var k :| 0 <= k < |edit.newFiles| && edit.newFiles[k] == (l, g);
      }
    }
  }

  /** VersionSet::LogAndApply: the version it installs. */
  method LogAndApply(current: Version, edit: VersionEdit) returns (v: Version)
    requires forall l :: 0 <= l < NUM_LEVELS ==> SortedBySmallest(current[l])
    requires LevelsInRange(edit)
    ensures forall l, f {:trigger f in v[l]} :: 0 <= l < NUM_LEVELS ==> (f in v[l] <==> AfterEdit(current, edit, l, f))
    ensures NewNumbers(current, edit) ==> forall l :: 0 <= l < NUM_LEVELS ==> SortedBySmallest(v[l])
    ensures NewNumbers(current, edit) ==>
      forall l, f {:trigger f in v[l]} :: 0 <= l < NUM_LEVELS ==> (f in v[l] <==> InAfter(current, edit, l, f))
  {
    var builder := new Builder(current);
    builder.Apply(edit);
    v := builder.SaveTo();
    forall l, f | 0 <= l < NUM_LEVELS ensures f in v[l] <==> AfterEdit(current, edit, l, f) {
      assert f in v[l] <==> builder.Present(l, f);
    }
    if NewNumbers(current, edit) {
      forall l | 0 <= l < NUM_LEVELS ensures SortedBySmallest(v[l]) {
        NewFilesDoNotTie(current, edit, l, builder.addedFiles[l]);
        OrderWithoutTies(v[l], current[l], builder.addedFiles[l]);
      }
      forall l, f | 0 <= l < NUM_LEVELS ensures f in v[l] <==> InAfter(current, edit, l, f) {
        NewNumbersReplace(current, edit, l, f);
      }
    }
  }

  lemma NewFilesDoNotTie(v: Version, edit: VersionEdit, l: nat, added: Files)
    requires NewNumbers(v, edit) && l < NUM_LEVELS
    requires forall f :: f in added ==> FirstIn([], edit.newFiles, |edit.newFiles|, l, f)
    ensures NoTies(v[l], added)
  {
    forall f, g | f in v[l] && g in added ensures !Tied(f, g) {
      assert (l, g) in edit.newFiles;
    }
  }
}

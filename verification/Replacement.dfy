/**
 Installing the result of a trivial move or a compaction: the inputs leave their levels and the
 outputs, which hold only entries of the inputs, enter the next level.  The version invariant
 survives (db/db_impl.cc, InstallCompactionResults; db/version_set.cc, Builder::SaveTo).
 */
module Replacement {
  import opened DbFormat
  import opened Tables
  import opened Versions
  import opened InputSets

  ghost predicate At(v: Version, l: nat, e: Entry)
    requires l < NUM_LEVELS
  {
    exists f :: f in v[l] && e in f.entries
  }

  /** The version `v'` is `v` with the inputs taken out and the outputs put into the next level. */
  ghost predicate Replaced(v: Version, level: nat, in0: Files, in1: Files, outputs: Files, v': Version)
    requires level + 1 < NUM_LEVELS
  {
    && (forall l {:trigger v'[l]} :: 0 <= l < NUM_LEVELS && l != level && l != level + 1 ==> v'[l] == v[l])
    && (forall f {:trigger f in v'[level]} :: f in v'[level] <==> f in v[level] && f !in in0)
    && (forall f {:trigger f in v'[level + 1]} :: f in v'[level + 1] <==> (f in v[level + 1] && f !in in1) || f in outputs)
    && SortedBySmallest(v'[level]) && SortedBySmallest(v'[level + 1])
  }

  ghost predicate MadeFrom(in0: Files, in1: Files, outputs: Files) {
    && ValidFiles(outputs) && SortedDisjoint(outputs)
    && forall f, e :: f in outputs && e in f.entries ==> e in FilesEntries(in0) || e in FilesEntries(in1)
  }

  lemma NewerAcrossLevels(v: Version, k: nat, l: nat, x: Entry, y: Entry)
    requires NewestByLevel(v) && k < l < NUM_LEVELS && At(v, k, x) && At(v, l, y) && x.key.user == y.key.user
    ensures x.key.seqno > y.key.seqno
  {
    var f :| f in v[k] && x in f.entries;
    var g :| g in v[l] && y in g.entries;
    assert FileNewer(f, g);
    assert x in Elements(f.entries) && y in Elements(g.entries);
  }

  /** A list sorted by smallest key whose files do not overlap is sorted and disjoint. */
  lemma ApartFilesAreDisjoint(files: Files)
    requires ValidFiles(files) && SortedBySmallest(files)
    requires forall f, g :: f in files && g in files && f != g ==> Before(f.largest, g.smallest) || Before(g.largest, f.smallest)
    ensures SortedDisjoint(files)
  {
    forall i, j | 0 <= i < j < |files| ensures Before(files[i].largest, files[j].smallest) {
      var f, g := files[i], files[j];
      assert f in files && g in files && BySmallest(f, g);
      FileEnds(f);
      FileEnds(g);
      CompareIsTotalOrder(f.smallest, g.smallest, f.smallest);
      CompareIsTotalOrder(g.smallest, g.largest, f.smallest);
      CompareIsTotalOrder(g.largest, g.smallest, f.smallest);
      CompareIsTotalOrder(f.smallest, g.smallest, g.largest);
    }
  }

  /** Where an entry of the new version was before. */
  lemma Origin(v: Version, level: nat, in0: Files, in1: Files, outputs: Files, v': Version, l: nat, e: Entry) returns (k: nat)
    requires level + 1 < NUM_LEVELS && l < NUM_LEVELS
    requires Subset(in0, v[level]) && Subset(in1, v[level + 1])
    requires MadeFrom(in0, in1, outputs) && Replaced(v, level, in0, in1, outputs, v')
    requires At(v', l, e)
    ensures k < NUM_LEVELS && At(v, k, e)
    ensures l != level + 1 ==> k == l
    ensures l == level ==> exists f :: f in v[level] && f !in in0 && e in f.entries
    ensures l == level + 1 ==> k == level + 1 || (k == level && e in FilesEntries(in0))
  {
    var f :| f in v'[l] && e in f.entries;
    k := l;
    if l == level + 1 && !(f in v[level + 1] && f !in in1) {
      assert f in outputs;
      if e in FilesEntries(in0) { k := level; }
    }
  }

  lemma LeftBehindIsNewer(v: Version, level: nat, in0: Files, x: Entry, y: Entry)
    requires level < NUM_LEVELS && LeavesNewer(v[level], in0)
    requires exists f :: f in v[level] && f !in in0 && x in f.entries
    requires y in FilesEntries(in0) && x.key.user == y.key.user
    ensures x.key.seqno > y.key.seqno
  {
    var f :| f in v[level] && f !in in0 && x in f.entries;
    var g :| g in in0 && y in g.entries;
    assert FileNewer(f, g);
    assert x in Elements(f.entries) && y in Elements(g.entries);
  }

  lemma ReplacedNewestByLevel(v: Version, level: nat, in0: Files, in1: Files, outputs: Files, v': Version)
    requires NewestByLevel(v) && InputsValid(v, level, in0, in1)
    requires MadeFrom(in0, in1, outputs) && Replaced(v, level, in0, in1, outputs, v')
    ensures NewestByLevel(v')
  {
    forall k, l, f, g | 0 <= k < l < NUM_LEVELS && f in v'[k] && g in v'[l] ensures FileNewer(f, g) {
      forall x, y | x in f.entries && y in g.entries && x.key.user == y.key.user ensures x.key.seqno > y.key.seqno {
        assert At(v', k, x) && At(v', l, y);
        var k' := Origin(v, level, in0, in1, outputs, v', k, x);
        var l' := Origin(v, level, in0, in1, outputs, v', l, y);
        if k == level && l' == level {
          LeftBehindIsNewer(v, level, in0, x, y);
        } else {
          NewerAcrossLevels(v, k', l', x, y);
        }
      }
    }
  }

  lemma SourceFile(in0: Files, in1: Files, e: Entry) returns (h: File)
    requires e in FilesEntries(in0) || e in FilesEntries(in1)
    ensures h in in0 + in1 && e in h.entries
  {
    if e in FilesEntries(in0) {
      h :| h in in0 && e in h.entries;
    } else {
      h :| h in in1 && e in h.entries;
    }
  }

  lemma OutputApart(parents: Files, in0: Files, in1: Files, outputs: Files, f: File, g: File)
    requires ValidFiles(parents) && ValidFiles(in0) && ValidFiles(in1)
    requires LeavesApart(parents, in0, in1) && MadeFrom(in0, in1, outputs)
    requires f in outputs && g in parents && g !in in1
    ensures Before(f.largest, g.smallest) || Before(g.largest, f.smallest)
  {
    FileEnds(f);
    var first :| first in f.entries && first.key == f.smallest;
    var last :| last in f.entries && last.key == f.largest;
    var h1 := SourceFile(in0, in1, first);
    var h2 := SourceFile(in0, in1, last);
    FileBounds(h1, first);
    FileBounds(h2, last);
    if AllBefore(g, in0 + in1) {
      assert Before(g.largest, h1.smallest);
      CompareIsTotalOrder(g.largest, h1.smallest, f.smallest);
      CompareIsTotalOrder(h1.smallest, f.smallest, h1.smallest);
    } else {
      assert Before(h2.largest, g.smallest);
      CompareIsTotalOrder(f.largest, h2.largest, g.smallest);
      CompareIsTotalOrder(h2.largest, f.largest, h2.largest);
    }
  }

  lemma ReplacedOutputLevel(v: Version, level: nat, in0: Files, in1: Files, outputs: Files, v': Version)
    requires WellFormed(v) && InputsValid(v, level, in0, in1)
    requires MadeFrom(in0, in1, outputs) && Replaced(v, level, in0, in1, outputs, v')
    ensures ValidFiles(v'[level + 1]) && SortedDisjoint(v'[level + 1])
  {
    var files := v'[level + 1];
    forall f | f in files ensures ValidFile(f) {
      if f in outputs {} else { assert f in v[level + 1]; }
    }
    SubsetIsValid(in0, v[level]);
    SubsetIsValid(in1, v[level + 1]);
    forall f, g | f in files && g in files && f != g ensures Before(f.largest, g.smallest) || Before(g.largest, f.smallest) {
      if f in outputs && g in outputs {
        OneComesFirst(outputs, f, g);
      } else if f in outputs {
        OutputApart(v[level + 1], in0, in1, outputs, f, g);
      } else if g in outputs {
        OutputApart(v[level + 1], in0, in1, outputs, g, f);
      } else {
        OneComesFirst(v[level + 1], f, g);
      }
    }
    ApartFilesAreDisjoint(files);
  }

  lemma ReplacedInputLevel(v: Version, level: nat, in0: Files, in1: Files, outputs: Files, v': Version)
    requires level + 1 < NUM_LEVELS && WellFormed(v) && Replaced(v, level, in0, in1, outputs, v')
    ensures ValidFiles(v'[level])
    ensures level > 0 ==> SortedDisjoint(v'[level])
  {
    forall f | f in v'[level] ensures ValidFile(f) {
      assert f in v[level];
    }
    if level > 0 {
      forall f, g | f in v'[level] && g in v'[level] && f != g ensures Before(f.largest, g.smallest) || Before(g.largest, f.smallest) {
        OneComesFirst(v[level], f, g);
      }
      ApartFilesAreDisjoint(v'[level]);
    }
  }

  lemma ReplacedEntries(v: Version, level: nat, in0: Files, in1: Files, outputs: Files, v': Version)
    requires InputsValid(v, level, in0, in1)
    requires MadeFrom(in0, in1, outputs) && Replaced(v, level, in0, in1, outputs, v')
    ensures VersionEntries(v') <= VersionEntries(v)
  {
    forall e | e in VersionEntries(v') ensures e in VersionEntries(v) {
      var l, f :| 0 <= l < NUM_LEVELS && f in v'[l] && e in f.entries;
      assert At(v', l, e);
      var k := Origin(v, level, in0, in1, outputs, v', l, e);
    }
  }

  /** Replacing valid inputs by files made of their entries keeps the version invariant. */
  lemma ReplacedIsValid(v: Version, level: nat, in0: Files, in1: Files, outputs: Files, v': Version)
    requires Valid(v) && InputsValid(v, level, in0, in1)
    requires MadeFrom(in0, in1, outputs) && Replaced(v, level, in0, in1, outputs, v')
    requires DistinctNumbers(v')
    ensures Valid(v')
  {
    ReplacedOutputLevel(v, level, in0, in1, outputs, v');
    ReplacedInputLevel(v, level, in0, in1, outputs, v');
    ReplacedNewestByLevel(v, level, in0, in1, outputs, v');
    ReplacedEntries(v, level, in0, in1, outputs, v');
    forall f, g | f in v'[0] && g in v'[0] && f.number > g.number ensures FileNewer(f, g) {
      assert f in v[0] && g in v[0];
    }
  }
}

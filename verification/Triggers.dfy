/**
 When a compaction is due: the score of each level, and the seeks that reads cost
 (VersionSet::Finalize, Version::RecordReadSample and Version::UpdateStats in db/version_set.cc).
 */
module Triggers {
  import opened Wrappers
  import opened DbFormat
  import opened Versions

  /** The bytes of the files from position `a` up to position `b`. */
  function SizeBetween(files: Files, a: nat, b: nat): nat {
    if b <= a then 0 else SizeBetween(files, a, b - 1) + if b - 1 < |files| then files[b - 1].size else 0
  }

  function TotalFileSize(files: Files): nat {
    SizeBetween(files, 0, |files|)
  }

  lemma {:induction false} SizeOfConcat(a: Files, b: Files, n: nat)
    requires n <= |b|
    ensures SizeBetween(a + b, 0, |a| + n) == TotalFileSize(a) + SizeBetween(b, 0, n)
  {
    if n > 0 {
      SizeOfConcat(a, b, n - 1);
    } else {
      SizeOfPrefix(a, b, |a|);
    }
  }

  lemma {:induction false} SizeOfPrefix(a: Files, b: Files, n: nat)
    requires n <= |a|
    ensures SizeBetween(a + b, 0, n) == SizeBetween(a, 0, n)
  {
    if n > 0 { SizeOfPrefix(a, b, n - 1); }
  }

  /** The total adds up the files: nothing for none, its own size for one, and the sum for two lists
      one after the other. */
  lemma TotalAddsUp(a: Files, f: File, b: Files)
    ensures TotalFileSize([]) == 0 && TotalFileSize([f]) == f.size
    ensures TotalFileSize(a + b) == TotalFileSize(a) + TotalFileSize(b)
  {
    SizeOfConcat(a, b, |b|);
    assert SizeBetween([f], 0, 0) == 0;
  }

  lemma WithoutOne(files: Files, i: nat)
    requires i < |files|
    ensures multiset(files[..i] + files[i + 1..]) == multiset(files) - multiset{files[i]}
    ensures TotalFileSize(files) == TotalFileSize(files[..i] + files[i + 1..]) + files[i].size
  {
    var front, f, back := files[..i], files[i], files[i + 1..];
    assert files == front + ([f] + back);
    TotalAddsUp([f], f, back);
    TotalAddsUp(front, f, [f] + back);
    TotalAddsUp(front, f, back);
  }

  /** The first file of one list taken out of both. */
  lemma SameWithoutFirst(a: Files, b: Files) returns (rest: Files)
    requires a != [] && multiset(a) == multiset(b)
    ensures multiset(a[1..]) == multiset(rest)
    ensures TotalFileSize(a) == TotalFileSize(a[1..]) + a[0].size && TotalFileSize(b) == TotalFileSize(rest) + a[0].size
  {
    assert a[0] in multiset(b);
    var i :| 0 <= i < |b| && b[i] == a[0];
    rest := b[..i] + b[i + 1..];
    WithoutOne(b, i);
    WithoutFirst(a);
  }

  lemma WithoutFirst(files: Files)
    requires files != []
    ensures multiset(files[1..]) == multiset(files) - multiset{files[0]}
    ensures TotalFileSize(files) == TotalFileSize(files[1..]) + files[0].size
  {
    var f, rest := files[0], files[1..];
    assert files == [f] + rest;
    TotalAddsUp([f], f, rest);
  }

  /** The order of the files does not matter. */
  lemma {:induction false} TotalIgnoresOrder(a: Files, b: Files)
    requires multiset(a) == multiset(b)
    ensures TotalFileSize(a) == TotalFileSize(b)
    decreases |a|
  {
    if a == [] {
      assert |multiset(b)| == |b|;
    } else {
      var rest := SameWithoutFirst(a, b);
      TotalIgnoresOrder(a[1..], rest);
    }
  }

  /** A stretch of the list weighs what the files in it do. */
  lemma {:induction false} SizeBetweenIs(files: Files, a: nat, b: nat)
    requires a <= b <= |files|
    ensures SizeBetween(files, a, b) == TotalFileSize(files[a..b])
    decreases b
  {
    if a < b {
      SizeBetweenIs(files, a, b - 1);
      var f := files[b - 1];
      assert files[a..b] == files[a..b - 1] + [f];
      TotalAddsUp(files[a..b - 1], f, [f]);
    }
  }

  // ---------------------------------------------------------------- too much data in a level

  const L0_COMPACTION_TRIGGER: real := 4.0

  /** Ten megabytes in level 1, and ten times as much in each further level. */
  function MaxBytes(level: nat): (bytes: real)
    ensures bytes > 0.0
  {
    if level <= 1 then 10.0 * 1048576.0 else 10.0 * MaxBytes(level - 1)
  }

  method MaxBytesForLevel(level0: nat) returns (result: real)
    ensures result == MaxBytes(level0)
  {
    var level := level0;
    result := 10.0 * 1048576.0;
    while level > 1
      invariant level <= level0 && (level0 > 0 ==> level >= 1)
      invariant level0 > 0 ==> result == MaxBytes(level0 - level + 1)
      invariant level0 == 0 ==> result == MaxBytes(0)
    {
      result := result * 10.0;
      level := level - 1;
    }
  }

  /** How full a level is: by the number of files at level 0, and by bytes elsewhere. */
  function Score(v: Version, level: nat): (score: real)
    requires level < NUM_LEVELS
    ensures score >= 0.0
  {
    if level == 0 then |v[0]| as real / L0_COMPACTION_TRIGGER else TotalFileSize(v[level]) as real / MaxBytes(level)
  }

  /** The first of the levels with the highest score; the last level is never compacted. */
  ghost predicate BestLevel(v: Version, level: nat) {
    && level + 1 < NUM_LEVELS
    && (forall l :: 0 <= l < level ==> Score(v, l) < Score(v, level))
    && (forall l :: level < l < NUM_LEVELS - 1 ==> Score(v, l) <= Score(v, level))
  }

  /** The level is the one to compact for its size. */
  ghost predicate SizeDue(v: Version, level: nat) {
    BestLevel(v, level) && Score(v, level) >= 1.0
  }

  ghost predicate NoSizeDue(v: Version) {
    forall level :: 0 <= level < NUM_LEVELS - 1 ==> Score(v, level) < 1.0
  }

  lemma DueLevelHasFiles(v: Version, level: nat)
    requires SizeDue(v, level)
    ensures v[level] != []
  {
  }

  /** At most one level is due for its size, and none exactly if no level is full. */
  lemma OneLevelIsDue(v: Version, k: nat, l: nat)
    requires SizeDue(v, k)
    ensures SizeDue(v, l) ==> k == l
    ensures !NoSizeDue(v)
  {
  }

  const MEGABYTE: nat := 0x10_0000

  /** What makes a level due: four files at level 0, ten megabytes at level 1, a hundred at level 2,
      and so on down to level 5. */
  ghost predicate TooFull(v: Version) {
    || |v[0]| >= 4
    || TotalFileSize(v[1]) >= 10 * MEGABYTE
    || TotalFileSize(v[2]) >= 100 * MEGABYTE
    || TotalFileSize(v[3]) >= 1000 * MEGABYTE
    || TotalFileSize(v[4]) >= 10000 * MEGABYTE
    || TotalFileSize(v[5]) >= 100000 * MEGABYTE
  }

  lemma Limits()
    ensures MaxBytes(1) == (10 * MEGABYTE) as real && MaxBytes(2) == (100 * MEGABYTE) as real
    ensures MaxBytes(3) == (1000 * MEGABYTE) as real && MaxBytes(4) == (10000 * MEGABYTE) as real
    ensures MaxBytes(5) == (100000 * MEGABYTE) as real
  {
    assert MaxBytes(1) == 10.0 * 1048576.0;
    assert MaxBytes(2) == 10.0 * MaxBytes(1);
    assert MaxBytes(3) == 10.0 * MaxBytes(2);
    assert MaxBytes(4) == 10.0 * MaxBytes(3);
  }

  lemma ScoreReaches(size: nat, limit: nat)
    requires limit > 0
    ensures size as real / limit as real >= 1.0 <==> size >= limit
  {
  }

  lemma FullLevels(v: Version)
    ensures TooFull(v) <==> !NoSizeDue(v)
  {
    Limits();
    ScoreReaches(|v[0]|, 4);
    ScoreReaches(TotalFileSize(v[1]), 10 * MEGABYTE);
    ScoreReaches(TotalFileSize(v[2]), 100 * MEGABYTE);
    ScoreReaches(TotalFileSize(v[3]), 1000 * MEGABYTE);
    ScoreReaches(TotalFileSize(v[4]), 10000 * MEGABYTE);
    ScoreReaches(TotalFileSize(v[5]), 100000 * MEGABYTE);
    assert Score(v, 0) >= 1.0 <==> |v[0]| >= 4;
    assert Score(v, 1) >= 1.0 <==> TotalFileSize(v[1]) >= 10 * MEGABYTE;
    assert Score(v, 2) >= 1.0 <==> TotalFileSize(v[2]) >= 100 * MEGABYTE;
    assert Score(v, 3) >= 1.0 <==> TotalFileSize(v[3]) >= 1000 * MEGABYTE;
    assert Score(v, 4) >= 1.0 <==> TotalFileSize(v[4]) >= 10000 * MEGABYTE;
    assert Score(v, 5) >= 1.0 <==> TotalFileSize(v[5]) >= 100000 * MEGABYTE;
  }

  /** VersionSet::Finalize. */
  method Finalize(v: Version) returns (bestLevel: nat, bestScore: real)
    ensures BestLevel(v, bestLevel) && bestScore == Score(v, bestLevel)
    ensures if bestScore >= 1.0 then SizeDue(v, bestLevel) else NoSizeDue(v)
    ensures bestScore >= 1.0 <==> TooFull(v)
  {
    bestLevel, bestScore := 0, -1.0;
    for level := 0 to NUM_LEVELS - 1
      invariant bestLevel <= level && (level == 0 ==> bestScore == -1.0)
      invariant level > 0 ==> bestLevel < level && bestScore == Score(v, bestLevel)
      invariant forall l :: 0 <= l < bestLevel ==> Score(v, l) < bestScore
      invariant forall l :: bestLevel <= l < level ==> Score(v, l) <= bestScore
    {
      var score;
      if level == 0 {
        score := |v[level]| as real / L0_COMPACTION_TRIGGER;
      } else {
        var maxBytes := MaxBytesForLevel(level);
        score := TotalFileSize(v[level]) as real / maxBytes;
      }
      if score > bestScore {
        bestLevel, bestScore := level, score;
      }
    }
    FullLevels(v);
  }

  // ---------------------------------------------------------------- too many seeks

  /** A search for the key looks into the file first, and into another one after it. */
  ghost predicate ChargedBy(v: Version, key: InternalKey, level: nat, f: File) {
    && Visited(v, key, level, f)
    && (forall k: nat, g: File {:trigger Visited(v, key, k, g)} :: Visited(v, key, k, g) && (k, g) != (level, f) ==> Sooner((level, f), (k, g)))
    && exists k: nat, g: File {:trigger Visited(v, key, k, g)} :: Visited(v, key, k, g) && (k, g) != (level, f)
  }

  /** Some search costs a seek that is charged to the file. */
  ghost predicate Charged(v: Version, level: nat, f: File) {
    exists key {:trigger ChargedBy(v, key, level, f)} :: ChargedBy(v, key, level, f)
  }

  /** A search looks into one file of a sorted level. */
  lemma OneFileOfLevel(v: Version, key: InternalKey, level: nat, f: File, g: File)
    requires Valid(v) && 0 < level && Visited(v, key, level, f) && Visited(v, key, level, g)
    ensures f == g
  {
    var i :| 0 <= i < |v[level]| && v[level][i] == f;
    var j :| 0 <= j < |v[level]| && v[level][j] == g;
    if i < j {
      LargestKeysIncrease(v[level], i, j);
    } else if j < i {
      LargestKeysIncrease(v[level], j, i);
    }
  }

  /** A file that is charged is not in the last level, so that it can be compacted. */
  lemma ChargedCanBeCompacted(v: Version, level: nat, f: File)
    requires Valid(v) && Charged(v, level, f)
    ensures level + 1 < NUM_LEVELS && f in v[level]
  {
    var key :| ChargedBy(v, key, level, f);
    var k: nat, g: File :| Visited(v, key, k, g) && (k, g) != (level, f);
    if k == level && level > 0 { OneFileOfLevel(v, key, level, f, g); }
  }

  /** The first of several files visited, soonest first, is charged. */
  lemma FirstIsCharged(v: Version, key: InternalKey, read: seq<(nat, File)>, below: nat)
    requires InVisitingOrder(read) && AllVisited(v, key, read, below) && SoonestRead(v, key, read) && |read| >= 2
    ensures ChargedBy(v, key, read[0].0, read[0].1)
  {
    forall k: nat, g: File | Visited(v, key, k, g) && (k, g) != read[0] ensures Sooner(read[0], (k, g)) {
      if (k, g) in read {
        var i :| 0 <= i < |read| && read[i] == (k, g);
        assert Sooner(read[0], read[i]);
      } else {
        assert !Sooner((k, g), read[1]) && Sooner(read[0], read[1]);
      }
    }
    assert Visited(v, key, read[1].0, read[1].1) && Sooner(read[0], read[1]);
  }

  /** Version::Get charges a file exactly if it is the first of several to look into and has no
      match. */
  lemma ReadCharges(v: Version, user: UserKey, snapshot: nat, read: seq<(nat, File)>, level: nat, f: File)
    requires Valid(v) && Reads(v, user, snapshot, read)
    ensures StatsOf(read).seekFile == Some((level, f)) <==>
      ChargedBy(v, LookupKey(user, snapshot), level, f) && Misses(f, user, snapshot)
  {
    var key := LookupKey(user, snapshot);
    FirstOfManyIsCharged(read);
    if |read| >= 2 { FirstIsCharged(v, key, read, NUM_LEVELS); }
    if ChargedBy(v, key, level, f) && Misses(f, user, snapshot) {
      ChargedIsRead(v, user, snapshot, read, level, f);
    }
  }

  lemma ChargedIsRead(v: Version, user: UserKey, snapshot: nat, read: seq<(nat, File)>, level: nat, f: File)
    requires Valid(v) && Reads(v, user, snapshot, read)
    requires ChargedBy(v, LookupKey(user, snapshot), level, f) && Misses(f, user, snapshot)
    ensures |read| >= 2 && read[0] == (level, f)
  {
    var key := LookupKey(user, snapshot);
    var k: nat, g: File :| Visited(v, key, k, g) && (k, g) != (level, f);
    assert read == [] ==> (k, g) in read;
    assert Visited(v, key, read[0].0, read[0].1);
    assert read[0] != (level, f) ==> Sooner((level, f), read[0]) && (level, f) in read;
    forall i | 0 < i < |read| ensures Sooner(read[0], read[i]) {
    }
    assert |read| == 1 ==> (k, g) in read;
  }

  /** The files of a level that Version::ForEachOverlapping hands out, in order. */
  method OverlappingInLevel(v: Version, level: nat, key: InternalKey) returns (files: Files)
    requires Valid(v) && level < NUM_LEVELS
    ensures Descending(files) && NewestOf(v[level], level, key, files)
    ensures forall f :: LooksInto(v[level], level, key, f) ==> f in files
  {
    if level == 0 {
      var covering := FilesCovering(v[0], key.user);
      files := SortNewestFirst(covering);
      SortingRepeatsNothing(covering);
      assert DistinctInLevel(v[0]);
      StrictlyNewestFirst(v[0], files);
      FirstAreNewest(v[0], key, files, |files|);
      assert files[..|files|] == files;
    } else {
      var index := FindFile(v[level], key);
      files := [];
      if index < |v[level]| && key.user >= v[level][index].smallest.user {
        files := [v[level][index]];
      }
      OneFileIsSearched(v[level], level, index, key, files);
    }
  }

  /** Version::RecordReadSample: the file that a sample charges. */
  method RecordReadSample(v: Version, key: InternalKey) returns (seekFile: Option<(nat, File)>)
    requires Valid(v)
    ensures forall level: nat, f: File :: seekFile == Some((level, f)) <==> ChargedBy(v, key, level, f)
  {
    var matches: seq<(nat, File)> := [];
    var level := 0;
    while level < NUM_LEVELS && |matches| < 2
      invariant level <= NUM_LEVELS && InVisitingOrder(matches) && AllVisited(v, key, matches, level) && AllBelowRead(v, key, matches, level)
    {
      var files := OverlappingInLevel(v, level, key);
      LevelIsVisited(v, key, matches, level, files);
      LevelIsMatched(v, key, matches, level, files);
      matches := matches + AtLevel(level, files);
      level := level + 1;
    }
    seekFile := if |matches| < 2 then None else Some(matches[0]);
    SampleCharges(v, key, matches, level);
  }

  lemma LevelIsMatched(v: Version, key: InternalKey, matches: seq<(nat, File)>, level: nat, files: Files)
    requires level < NUM_LEVELS && AllBelowRead(v, key, matches, level)
    requires forall f :: LooksInto(v[level], level, key, f) ==> f in files
    requires forall f: File :: f in files ==> (level, f) in matches + AtLevel(level, files)
    ensures AllBelowRead(v, key, matches + AtLevel(level, files), level + 1)
  {
    var all := matches + AtLevel(level, files);
    forall l: nat, f: File | Visited(v, key, l, f) && l < level + 1 ensures (l, f) in all {
      if l < level {
        assert (l, f) in matches;
      } else {
        assert LooksInto(v[level], level, key, f);
      }
    }
  }

  lemma SampleCharges(v: Version, key: InternalKey, matches: seq<(nat, File)>, below: nat)
    requires Valid(v) && below <= NUM_LEVELS && (below == NUM_LEVELS || |matches| >= 2)
    requires InVisitingOrder(matches) && AllVisited(v, key, matches, below) && AllBelowRead(v, key, matches, below)
    ensures forall level: nat, f: File :: (|matches| >= 2 && matches[0] == (level, f)) <==> ChargedBy(v, key, level, f)
  {
    if |matches| >= 2 { FirstIsCharged(v, key, matches, below); }
    forall level: nat, f: File | ChargedBy(v, key, level, f) ensures |matches| >= 2 && matches[0] == (level, f) {
      var k: nat, g: File :| Visited(v, key, k, g) && (k, g) != (level, f);
      assert |matches| < 2 ==> (level, f) in matches && (k, g) in matches;
      assert |matches| >= 2 && matches[0] != (level, f) ==> Sooner((level, f), matches[0]) && Sooner(matches[0], (level, f));
    }
  }
}

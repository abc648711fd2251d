/**
 Versions: the table files of the seven levels, and the searches over them
 (FindFile, SomeFileOverlapsRange, Version::Get, PickLevelForMemTableOutput in
 db/version_set.cc).
 */
module Versions {
  import opened Wrappers
  import opened DbFormat
  import opened Visibility
  import opened Tables

  /** A file's metadata together with the entries of the table stored under its number. */
  datatype File = File(number: nat, size: nat, smallest: InternalKey, largest: InternalKey, entries: seq<Entry>)

  type Files = seq<File>

  type Version = v: seq<Files> | |v| == NUM_LEVELS witness seq(NUM_LEVELS, _ => [])

  const EMPTY_VERSION: Version := [[], [], [], [], [], [], []]

  ghost predicate ValidFile(f: File) {
    && f.entries != []
    && Sorted(f.entries)
    && f.smallest == f.entries[0].key
    && f.largest == f.entries[|f.entries| - 1].key
    && forall e :: e in f.entries ==> e.key.seqno <= MAX_SEQUENCE
  }

  ghost predicate ValidFiles(files: Files) {
    forall f {:trigger ValidFile(f)} :: f in files ==> ValidFile(f)
  }

  lemma FileBounds(f: File, e: Entry)
    requires ValidFile(f) && e in f.entries
    ensures !Before(e.key, f.smallest) && !Before(f.largest, e.key)
    ensures f.smallest.user <= e.key.user <= f.largest.user
  {
    var i :| 0 <= i < |f.entries| && f.entries[i] == e;
    if i > 0 { assert Before(f.entries[0].key, f.entries[i].key); }
    if i < |f.entries| - 1 { assert Before(f.entries[i].key, f.entries[|f.entries| - 1].key); }
  }

  lemma FileEnds(f: File)
    requires ValidFile(f)
    ensures exists e :: e in f.entries && e.key == f.smallest
    ensures exists e :: e in f.entries && e.key == f.largest
    ensures !Before(f.largest, f.smallest) && f.smallest.user <= f.largest.user
    ensures f.smallest.seqno <= MAX_SEQUENCE && f.largest.seqno <= MAX_SEQUENCE
  {
    assert f.entries[0] in f.entries && f.entries[|f.entries| - 1] in f.entries;
    FileBounds(f, f.entries[0]);
  }

  /** The order of VersionSet::Builder::BySmallestKey. */
  predicate BySmallest(f: File, g: File) {
    Before(f.smallest, g.smallest) || (f.smallest == g.smallest && f.number < g.number)
  }

  ghost predicate SortedBySmallest(files: Files) {
    forall i, j {:trigger BySmallest(files[i], files[j])} ::
      0 <= i < j < |files| ==> BySmallest(files[i], files[j])
  }

  /** Levels above 0: the files hold disjoint ranges of internal keys, in order. */
  ghost predicate SortedDisjoint(files: Files) {
    forall i, j {:trigger Before(files[i].largest, files[j].smallest)} ::
      0 <= i < j < |files| ==> Before(files[i].largest, files[j].smallest)
  }

  lemma DisjointFilesAreSorted(files: Files)
    requires ValidFiles(files) && SortedDisjoint(files)
    ensures SortedBySmallest(files)
  {
    forall i, j | 0 <= i < j < |files| ensures BySmallest(files[i], files[j]) {
      FileEnds(files[i]);
      CompareIsTotalOrder(files[i].smallest, files[i].largest, files[j].smallest);
    }
  }

  ghost function FilesEntries(files: Files): set<Entry> {
    set f, e | f in files && e in f.entries :: e
  }

  ghost function VersionEntries(v: Version): set<Entry> {
    set level, f, e | 0 <= level < NUM_LEVELS && f in v[level] && e in f.entries :: e
  }

  /** Every entry `a` is newer than every entry `b` of the same user key. */
  ghost predicate Newer(a: set<Entry>, b: set<Entry>) {
    forall x, y :: x in a && y in b && x.key.user == y.key.user ==> x.key.seqno > y.key.seqno
  }

  ghost predicate FileNewer(f: File, g: File) {
    Newer(Elements(f.entries), Elements(g.entries))
  }

  predicate SameNumber(f: File, g: File) {
    f.number == g.number
  }

  /** Among level-0 files the one with the larger number holds the newer entries. */
  ghost predicate NewestByNumber(files: Files) {
    forall f, g {:trigger FileNewer(f, g)} :: f in files && g in files && f.number > g.number ==> FileNewer(f, g)
  }

  ghost predicate DistinctNumbers(v: Version) {
    forall k, l, f, g {:trigger f in v[k], g in v[l], SameNumber(f, g)} ::
      0 <= k < NUM_LEVELS && 0 <= l < NUM_LEVELS && f in v[k] && g in v[l] && SameNumber(f, g) ==> k == l && f == g
  }

  ghost predicate DistinctInLevel(files: Files) {
    forall f, g {:trigger SameNumber(f, g)} :: f in files && g in files && SameNumber(f, g) ==> f == g
  }

  /** Data in a lower-numbered level is newer. */
  ghost predicate NewestByLevel(v: Version) {
    forall k, l, f, g {:trigger f in v[k], g in v[l], FileNewer(f, g)} ::
      0 <= k < l < NUM_LEVELS && f in v[k] && g in v[l] ==> FileNewer(f, g)
  }

  /** The shape of a version: every level is sorted, and disjoint above level 0. */
  ghost predicate WellFormed(v: Version) {
    && (forall l :: 0 <= l < NUM_LEVELS ==> ValidFiles(v[l]))
    && SortedBySmallest(v[0])
    && (forall l :: 1 <= l < NUM_LEVELS ==> SortedDisjoint(v[l]))
  }

  /** The invariant of every installed version. */
  ghost predicate Valid(v: Version) {
    && WellFormed(v)
    && DistinctNumbers(v)
    && NewestByNumber(v[0])
    && NewestByLevel(v)
    && UniqueSeqnos(VersionEntries(v))
  }

  lemma InVersion(v: Version, level: nat, f: File, e: Entry)
    requires level < NUM_LEVELS && f in v[level] && e in f.entries
    ensures e in VersionEntries(v)
  {
  }

  // ---------------------------------------------------------------- FindFile

  /** Binary search for the first file whose largest key is at or after `key`. */
  method FindFile(files: Files, key: InternalKey) returns (right: nat)
    requires ValidFiles(files) && SortedDisjoint(files)
    ensures right <= |files|
    ensures forall i :: 0 <= i < right ==> Before(files[i].largest, key)
    ensures forall i :: right <= i < |files| ==> !Before(files[i].largest, key)
  {
    var left := 0;
    right := |files|;
    while left < right
      invariant left <= right <= |files|
      invariant forall i :: 0 <= i < left ==> Before(files[i].largest, key)
      invariant forall i :: right <= i < |files| ==> !Before(files[i].largest, key)
    {
      var mid := (left + right) / 2;
      if Compare(files[mid].largest, key) < 0 {
        forall i | 0 <= i <= mid ensures Before(files[i].largest, key) {
          if i < mid { LargestKeysIncrease(files, i, mid); CompareIsTotalOrder(files[i].largest, files[mid].largest, key); }
        }
        left := mid + 1;
      } else {
        forall i | mid <= i < |files| ensures !Before(files[i].largest, key) {
          if mid < i { LargestKeysIncrease(files, mid, i); CompareIsTotalOrder(files[mid].largest, files[i].largest, key); }
        }
        right := mid;
      }
    }
  }

  lemma LargestKeysIncrease(files: Files, i: nat, j: nat)
    requires ValidFiles(files) && SortedDisjoint(files) && i < j < |files|
    ensures Before(files[i].largest, files[j].largest)
  {
    assert files[j] in files;
    FileEnds(files[j]);
    assert Before(files[i].largest, files[j].smallest);
    CompareIsTotalOrder(files[i].largest, files[j].smallest, files[j].largest);
    CompareIsTotalOrder(files[j].smallest, files[j].largest, files[i].largest);
  }

  // ---------------------------------------------------------------- overlap tests

  /** An absent lower bound comes before every user key; an absent upper bound after. */
  predicate AfterFile(user: Option<UserKey>, f: File) {
    user.Some? && user.value > f.largest.user
  }

  predicate BeforeFile(user: Option<UserKey>, f: File) {
    user.Some? && user.value < f.smallest.user
  }

  predicate Overlaps(f: File, smallest: Option<UserKey>, largest: Option<UserKey>) {
    !AfterFile(smallest, f) && !BeforeFile(largest, f)
  }

  /** Both the linear scan and the binary search decide whether any file overlaps the range. */
  method SomeFileOverlapsRange(disjointSortedFiles: bool, files: Files,
                               smallest: Option<UserKey>, largest: Option<UserKey>) returns (r: bool)
    requires ValidFiles(files)
    requires disjointSortedFiles ==> SortedDisjoint(files)
    ensures r <==> exists f :: f in files && Overlaps(f, smallest, largest)
  {
    if !disjointSortedFiles {
      for i := 0 to |files|
        invariant forall f :: f in files[..i] ==> !Overlaps(f, smallest, largest)
      {
        var f := files[i];
        if AfterFile(smallest, f) || BeforeFile(largest, f) {
        } else {
          assert f in files && Overlaps(f, smallest, largest);
          return true;
        }
      }
      return false;
    }

    var index := 0;
    if smallest.Some? {
      var small := InternalKey(smallest.value, MAX_SEQUENCE, VALUE_TYPE_FOR_SEEK);
      index := FindFile(files, small);
      forall i | 0 <= i < |files|
        ensures i < index <==> AfterFile(smallest, files[i])
      {
        assert files[i] in files;
        FileEnds(files[i]);
      }
    }
    if index >= |files| {
      return false;
    }
    forall i | index < i < |files| && BeforeFile(largest, files[index])
      ensures BeforeFile(largest, files[i])
    {
      assert files[index] in files;
      FileEnds(files[index]);
      assert Before(files[index].largest, files[i].smallest);
    }
    assert files[index] in files;
    assert !AfterFile(smallest, files[index]);
    return !BeforeFile(largest, files[index]);
  }

  // ---------------------------------------------------------------- Version::Get

  /** Version::GetStats: the file a read has read last, and the one it is to charge with a seek. */
  datatype Stats = Stats(lastRead: Option<(nat, File)>, seekFile: Option<(nat, File)>)
  {
    /** Before a second file is read, the first one is charged. */
    function Reading(level: nat, f: File): Stats {
      Stats(Some((level, f)), if lastRead.Some? && seekFile.None? then lastRead else seekFile)
    }
  }

  const NO_STATS := Stats(None, None)

  ghost function StatsOf(read: seq<(nat, File)>): Stats {
    if read == [] then NO_STATS
    else StatsOf(read[..|read| - 1]).Reading(read[|read| - 1].0, read[|read| - 1].1)
  }

  lemma {:induction false} FirstOfManyIsCharged(read: seq<(nat, File)>)
    ensures StatsOf(read).lastRead == if read == [] then None else Some(read[|read| - 1])
    ensures StatsOf(read).seekFile == if |read| < 2 then None else Some(read[0])
  {
    if read != [] { FirstOfManyIsCharged(read[..|read| - 1]); }
  }

  function AtLevel(level: nat, files: Files): (r: seq<(nat, File)>)
    ensures |r| == |files| && forall i :: 0 <= i < |files| ==> r[i] == (level, files[i])
  {
    seq(|files|, i requires 0 <= i < |files| => (level, files[i]))
  }

  /** The files of a level that a search for the key looks into: at level 0 all that cover the user
      key, elsewhere the first that ends at or after the key, if it starts early enough. */
  ghost predicate LooksInto(files: Files, level: nat, key: InternalKey, f: File) {
    && f in files && f.smallest.user <= key.user
    && if level == 0 then key.user <= f.largest.user
       else !Before(f.largest, key) && forall g :: g in files && Before(g.largest, f.largest) ==> Before(g.largest, key)
  }

  ghost predicate Misses(f: File, user: UserKey, snapshot: nat) {
    NoMatch(Elements(f.entries), user, snapshot)
  }

  ghost predicate Descending(files: Files) {
    forall i, j :: 0 <= i < j < |files| ==> files[i].number > files[j].number
  }

  ghost predicate AllButLastMiss(files: Files, user: UserKey, snapshot: nat) {
    forall i :: 0 <= i < |files| - 1 ==> Misses(files[i], user, snapshot)
  }

  /** Of the files that a search looks into, the newest ones. */
  ghost predicate NewestOf(files: Files, level: nat, key: InternalKey, read: Files) {
    && (forall f :: f in read ==> LooksInto(files, level, key, f))
    && (forall f, g {:trigger LooksInto(files, level, key, f), g in read} ::
          LooksInto(files, level, key, f) && g in read && f.number > g.number ==> f in read)
  }

  ghost predicate AllMiss(files: Files, level: nat, user: UserKey, snapshot: nat, read: Files) {
    var key := LookupKey(user, snapshot);
    forall f {:trigger LooksInto(files, level, key, f)} :: LooksInto(files, level, key, f) ==> f in read && Misses(f, user, snapshot)
  }

  /** The files a level gives to read, newest first, until one has a match. */
  ghost predicate SearchedIn(files: Files, level: nat, user: UserKey, snapshot: nat, read: Files, found: bool) {
    && Descending(read) && NewestOf(files, level, LookupKey(user, snapshot), read) && AllButLastMiss(read, user, snapshot)
    && (found ==> read != [] && !Misses(read[|read| - 1], user, snapshot))
    && (!found ==> AllMiss(files, level, user, snapshot, read))
  }

  ghost predicate NewestFirst(files: Files) {
    forall i, j :: 0 <= i < j < |files| ==> files[i].number >= files[j].number
  }

  ghost predicate NoRepeats(files: Files) {
    forall i, j :: 0 <= i < j < |files| ==> files[i] != files[j]
  }

  function InsertNewestFirst(f: File, sorted: Files): (r: Files)
    ensures forall g :: g in r <==> g == f || g in sorted
    ensures NewestFirst(sorted) ==> NewestFirst(r)
  {
    if sorted == [] || f.number > sorted[0].number then [f] + sorted
    else
      var tail := InsertNewestFirst(f, sorted[1..]);
      assert forall g :: g in sorted <==> g == sorted[0] || g in sorted[1..];
      assert NewestFirst(sorted) ==> forall g :: g in tail ==> g.number <= sorted[0].number;
      [sorted[0]] + tail
  }

  /** The level-0 files in the order Version::Get searches them. */
  function SortNewestFirst(files: Files): (r: Files)
    ensures forall f :: f in r <==> f in files
    ensures NewestFirst(r)
  {
    if files == [] then []
    else
      assert forall g :: g in files <==> g == files[0] || g in files[1..];
      InsertNewestFirst(files[0], SortNewestFirst(files[1..]))
  }

  lemma {:induction false} InsertingRepeatsNothing(f: File, sorted: Files)
    requires NoRepeats(sorted) && f !in sorted
    ensures NoRepeats(InsertNewestFirst(f, sorted))
  {
    if !(sorted == [] || f.number > sorted[0].number) {
      assert sorted[0] !in sorted[1..];
      InsertingRepeatsNothing(f, sorted[1..]);
    }
  }

  lemma {:induction false} SortingRepeatsNothing(files: Files)
    requires NoRepeats(files)
    ensures NoRepeats(SortNewestFirst(files))
  {
    if files != [] {
      assert files[0] !in files[1..];
      SortingRepeatsNothing(files[1..]);
      InsertingRepeatsNothing(files[0], SortNewestFirst(files[1..]));
    }
  }

  lemma MatchNeedsRange(f: File, user: UserKey, snapshot: nat, e: Entry)
    requires ValidFile(f) && e in f.entries && Matches(e, user, snapshot)
    ensures f.smallest.user <= user <= f.largest.user
    ensures !Before(f.largest, LookupKey(user, snapshot))
  {
    FileBounds(f, e);
    LookupKeyPosition(e, user, snapshot);
    CompareIsTotalOrder(f.largest, LookupKey(user, snapshot), e.key);
    CompareIsTotalOrder(f.largest, e.key, f.largest);
  }

  /** The files of level 0 whose range covers the user key. */
  method FilesCovering(files: Files, user: UserKey) returns (tmp: Files)
    requires SortedBySmallest(files)
    ensures forall f :: f in tmp <==> f in files && f.smallest.user <= user <= f.largest.user
    ensures NoRepeats(tmp)
  {
    tmp := [];
    for i := 0 to |files|
      invariant forall f :: f in tmp <==> f in files[..i] && f.smallest.user <= user <= f.largest.user
      invariant NoRepeats(tmp)
    {
      var f := files[i];
      forall j | 0 <= j < i ensures files[j] != f {
        assert BySmallest(files[j], files[i]);
        CompareIsTotalOrder(f.smallest, f.smallest, f.smallest);
      }
      if user >= f.smallest.user && user <= f.largest.user {
        tmp := tmp + [f];
      }
    }
  }

  ghost predicate Missed(files: Files, user: UserKey, snapshot: nat) {
    forall f :: f in files ==> NoMatch(Elements(f.entries), user, snapshot)
  }

  lemma EarlierHitIsNewer(files: Files, tmp: Files, i: nat, j: nat, e: Entry, x: Entry)
    requires NewestByNumber(files) && NewestFirst(tmp) && i < |tmp| && i < j < |tmp|
    requires tmp[i] in files && tmp[j] in files
    requires DistinctInLevel(files)
    requires e in tmp[i].entries && x in tmp[j].entries && e.key.user == x.key.user
    ensures tmp[i] == tmp[j] || x.key.seqno < e.key.seqno
  {
    assert e in Elements(tmp[i].entries) && x in Elements(tmp[j].entries);
    if tmp[i].number > tmp[j].number {
      assert FileNewer(tmp[i], tmp[j]);
    } else {
      assert SameNumber(tmp[i], tmp[j]);
    }
  }

  lemma FirstHitIsNewest(files: Files, tmp: Files, i: nat, user: UserKey, snapshot: nat, e: Entry)
    requires ValidFiles(files) && NewestByNumber(files)
    requires DistinctInLevel(files)
    requires forall f :: f in tmp ==> f in files
    requires forall f :: f in files && f.smallest.user <= user <= f.largest.user ==> f in tmp
    requires NewestFirst(tmp) && i < |tmp|
    requires Missed(tmp[..i], user, snapshot)
    requires IsNewest(Elements(tmp[i].entries), user, snapshot, e)
    ensures IsNewest(FilesEntries(files), user, snapshot, e)
  {
    assert tmp[i] in files;
    forall x | x in FilesEntries(files) && Matches(x, user, snapshot)
      ensures x.key.seqno <= e.key.seqno
    {
      var f :| f in files && x in f.entries;
      MatchNeedsRange(f, user, snapshot, x);
      var j :| 0 <= j < |tmp| && tmp[j] == f;
      assert x in Elements(tmp[j].entries);
      if j < i {
        assert false;
      } else if i < j {
        EarlierHitIsNewer(files, tmp, i, j, e, x);
      }
    }
  }

  lemma NoHitMeansNoMatch(files: Files, tmp: Files, user: UserKey, snapshot: nat)
    requires ValidFiles(files)
    requires forall f :: f in tmp <==> f in files && f.smallest.user <= user <= f.largest.user
    requires Missed(tmp, user, snapshot)
    ensures NoMatch(FilesEntries(files), user, snapshot)
  {
    forall x | x in FilesEntries(files) ensures !Matches(x, user, snapshot) {
      var f :| f in files && x in f.entries;
      if f in tmp {
        assert x in Elements(f.entries);
      } else if Matches(x, user, snapshot) {
        MatchNeedsRange(f, user, snapshot, x);
        assert false;
      }
    }
  }

  method SearchInOrder(tmp: Files, user: UserKey, snapshot: nat, stats0: Stats, ghost read0: seq<(nat, File)>)
    returns (r: Option<Entry>, i: nat, stats: Stats, ghost read: Files)
    requires ValidFiles(tmp) && stats0 == StatsOf(read0)
    ensures r.Some? ==> i < |tmp| && Missed(tmp[..i], user, snapshot) && IsNewest(Elements(tmp[i].entries), user, snapshot, r.value)
    ensures r.None? ==> Missed(tmp, user, snapshot)
    ensures read == if r.Some? then tmp[..i + 1] else tmp
    ensures stats == StatsOf(read0 + AtLevel(0, read))
  {
    i, stats := 0, stats0;
    assert read0 + AtLevel(0, tmp[..0]) == read0;
    while i < |tmp|
      invariant i <= |tmp|
      invariant Missed(tmp[..i], user, snapshot)
      invariant stats == StatsOf(read0 + AtLevel(0, tmp[..i]))
    {
      assert tmp[i] in tmp && ValidFile(tmp[i]);
      OneMoreRead(read0, 0, tmp, i);
      stats := stats.Reading(0, tmp[i]);
      r := Tables.Get(tmp[i].entries, user, snapshot);
      if r.Some? {
        read := tmp[..i + 1];
        return;
      }
      assert tmp[..i + 1] == tmp[..i] + [tmp[i]];
      i := i + 1;
    }
    assert tmp[..i] == tmp;
    r, read := None, tmp;
  }

  lemma OneMoreRead(read: seq<(nat, File)>, level: nat, files: Files, i: nat)
    requires i < |files|
    ensures StatsOf(read + AtLevel(level, files[..i + 1])) == StatsOf(read + AtLevel(level, files[..i])).Reading(level, files[i])
  {
    var longer := read + AtLevel(level, files[..i + 1]);
    assert longer[..|longer| - 1] == read + AtLevel(level, files[..i]);
  }

  /** Level 0: every file whose range covers the user key, newest first. */
  method GetFromLevel0(files: Files, user: UserKey, snapshot: nat, stats0: Stats, ghost read0: seq<(nat, File)>)
    returns (r: Option<Entry>, stats: Stats, ghost read: Files)
    requires ValidFiles(files) && NewestByNumber(files) && DistinctInLevel(files) && SortedBySmallest(files)
    requires stats0 == StatsOf(read0)
    ensures r.Some? ==> IsNewest(FilesEntries(files), user, snapshot, r.value)
    ensures r.None? ==> NoMatch(FilesEntries(files), user, snapshot)
    ensures SearchedIn(files, 0, user, snapshot, read, r.Some?) && stats == StatsOf(read0 + AtLevel(0, read))
  {
    var covering := FilesCovering(files, user);
    var tmp := SortNewestFirst(covering);
    SortingRepeatsNothing(covering);
    var i;
    r, i, stats, read := SearchInOrder(tmp, user, snapshot, stats0, read0);
    SearchedNewestFirst(files, tmp, i, user, snapshot, read, r);
    if r.Some? {
      FirstHitIsNewest(files, tmp, i, user, snapshot, r.value);
    } else {
      NoHitMeansNoMatch(files, tmp, user, snapshot);
    }
  }

  lemma SearchedNewestFirst(files: Files, tmp: Files, i: nat, user: UserKey, snapshot: nat, read: Files, r: Option<Entry>)
    requires DistinctInLevel(files) && NewestFirst(tmp) && NoRepeats(tmp)
    requires forall f :: f in tmp <==> f in files && f.smallest.user <= user <= f.largest.user
    requires r.Some? ==> i < |tmp| && Missed(tmp[..i], user, snapshot) && IsNewest(Elements(tmp[i].entries), user, snapshot, r.value)
    requires r.None? ==> Missed(tmp, user, snapshot)
    requires read == if r.Some? then tmp[..i + 1] else tmp
    ensures SearchedIn(files, 0, user, snapshot, read, r.Some?)
  {
    StrictlyNewestFirst(files, tmp);
    FirstOnesMiss(tmp, i, user, snapshot, read, r);
    FirstAreNewest(files, LookupKey(user, snapshot), tmp, |read|);
    assert read == tmp[..|read|];
  }

  lemma FirstAreNewest(files: Files, key: InternalKey, tmp: Files, n: nat)
    requires Descending(tmp) && n <= |tmp|
    requires forall f :: f in tmp <==> f in files && f.smallest.user <= key.user <= f.largest.user
    ensures Descending(tmp[..n]) && NewestOf(files, 0, key, tmp[..n])
  {
    forall f, g | LooksInto(files, 0, key, f) && g in tmp[..n] && f.number > g.number ensures f in tmp[..n] {
      assert f in tmp;
      var j :| 0 <= j < |tmp| && tmp[j] == f;
      var k :| 0 <= k < n && tmp[..n][k] == g;
      assert j < n ==> tmp[..n][j] == f;
    }
  }

  lemma StrictlyNewestFirst(files: Files, tmp: Files)
    requires DistinctInLevel(files) && NewestFirst(tmp) && NoRepeats(tmp) && forall f :: f in tmp ==> f in files
    ensures Descending(tmp)
  {
    forall j, k | 0 <= j < k < |tmp| ensures tmp[j].number > tmp[k].number {
      assert tmp[j] in tmp && tmp[k] in tmp;
      assert !SameNumber(tmp[j], tmp[k]);
    }
  }

  lemma FirstOnesMiss(tmp: Files, i: nat, user: UserKey, snapshot: nat, read: Files, r: Option<Entry>)
    requires r.Some? ==> i < |tmp| && Missed(tmp[..i], user, snapshot) && IsNewest(Elements(tmp[i].entries), user, snapshot, r.value)
    requires r.None? ==> Missed(tmp, user, snapshot)
    requires read == if r.Some? then tmp[..i + 1] else tmp
    ensures AllButLastMiss(read, user, snapshot)
    ensures r.Some? ==> read != [] && !Misses(read[|read| - 1], user, snapshot)
    ensures r.None? ==> forall f :: f in read ==> Misses(f, user, snapshot)
  {
    forall j | 0 <= j < |read| - 1 ensures Misses(read[j], user, snapshot) {
      assert read[j] in if r.Some? then tmp[..i] else tmp;
    }
  }

  lemma LaterFilesComeAfter(files: Files, i: nat, j: nat, x: Entry, y: Entry)
    requires ValidFiles(files) && SortedDisjoint(files) && i < j < |files|
    requires x in files[i].entries && y in files[j].entries
    ensures Before(x.key, y.key)
  {
    assert files[i] in files && files[j] in files;
    FileBounds(files[i], x);
    FileBounds(files[j], y);
    CompareIsTotalOrder(x.key, files[i].largest, files[j].smallest);
    CompareIsTotalOrder(x.key, files[j].smallest, y.key);
  }

  /** Other levels: the one file that a binary search for the lookup key finds, even when the
      entries of the user key span two files. */
  method GetFromSortedLevel(files: Files, level: nat, user: UserKey, snapshot: nat, stats0: Stats, ghost read0: seq<(nat, File)>)
    returns (r: Option<Entry>, stats: Stats, ghost read: Files)
    requires ValidFiles(files) && SortedDisjoint(files) && level > 0
    requires stats0 == StatsOf(read0)
    ensures r.Some? ==> IsNewest(FilesEntries(files), user, snapshot, r.value)
    ensures r.None? ==> NoMatch(FilesEntries(files), user, snapshot)
    ensures SearchedIn(files, level, user, snapshot, read, r.Some?) && stats == StatsOf(read0 + AtLevel(level, read))
  {
    var index := FindFile(files, LookupKey(user, snapshot));
    r, stats, read := None, stats0, [];
    assert read0 + AtLevel(level, []) == read0;
    if index < |files| {
      assert files[index] in files && ValidFile(files[index]);
      if user >= files[index].smallest.user {
        read := [files[index]];
        OneMoreRead(read0, level, read, 0);
        assert read[..1] == read && read0 + AtLevel(level, read[..0]) == read0;
        stats := stats.Reading(level, files[index]);
        r := Tables.Get(files[index].entries, user, snapshot);
      }
    }
    OneFileDecides(files, index, user, snapshot, r);
    OneFileIsSearched(files, level, index, LookupKey(user, snapshot), read);
  }

  /** Which file of a sorted level is searched. */
  lemma OneFileIsSearched(files: Files, level: nat, index: nat, key: InternalKey, read: Files)
    requires ValidFiles(files) && SortedDisjoint(files) && level > 0 && index <= |files|
    requires forall i :: 0 <= i < index ==> Before(files[i].largest, key)
    requires forall i :: index <= i < |files| ==> !Before(files[i].largest, key)
    requires read == if index < |files| && key.user >= files[index].smallest.user then [files[index]] else []
    ensures forall f :: LooksInto(files, level, key, f) <==> f in read
  {
    if index < |files| { assert files[index] in files; }
    forall f | LooksInto(files, level, key, f) ensures f in read {
      var i :| 0 <= i < |files| && files[i] == f;
      if index < i { LargestKeysIncrease(files, index, i); }
    }
    if read != [] {
      forall g | g in files && Before(g.largest, files[index].largest) ensures Before(g.largest, key) {
        var i :| 0 <= i < |files| && files[i] == g;
        if index < i {
          LargestKeysIncrease(files, index, i);
          CompareIsTotalOrder(files[index].largest, files[i].largest, files[index].largest);
        } else if i == index {
          CompareIsTotalOrder(g.largest, g.largest, g.largest);
        }
      }
    }
  }

  /** The search in that file decides the read of the level. */
  lemma OneFileDecides(files: Files, index: nat, user: UserKey, snapshot: nat, r: Option<Entry>)
    requires ValidFiles(files) && SortedDisjoint(files) && index <= |files|
    requires forall i :: 0 <= i < index ==> Before(files[i].largest, LookupKey(user, snapshot))
    requires forall i :: index <= i < |files| ==> !Before(files[i].largest, LookupKey(user, snapshot))
    requires if index < |files| && user >= files[index].smallest.user then
               (r.Some? ==> IsNewest(Elements(files[index].entries), user, snapshot, r.value))
               && (r.None? ==> NoMatch(Elements(files[index].entries), user, snapshot))
             else r == None
    ensures r.Some? ==> IsNewest(FilesEntries(files), user, snapshot, r.value)
    ensures r.None? ==> NoMatch(FilesEntries(files), user, snapshot)
  {
    forall i, x | 0 <= i < index && x in files[i].entries
      ensures !Matches(x, user, snapshot)
    {
      assert files[i] in files;
      if Matches(x, user, snapshot) { MatchNeedsRange(files[i], user, snapshot, x); }
    }
    if index < |files| {
      assert files[index] in files && ValidFile(files[index]);
      var last := files[index].entries[|files[index].entries| - 1];
      assert last in files[index].entries;
      assert files[index].largest.user == user ==> Matches(last, user, snapshot) && last in Elements(files[index].entries);
      forall j, x | index <= j < |files| && x in files[j].entries && Matches(x, user, snapshot)
        ensures r.Some? && x.key.seqno <= r.value.key.seqno
      {
        FileBounds(files[index], last);
        if j == index {
          MatchNeedsRange(files[j], user, snapshot, x);
          assert x in Elements(files[index].entries);
        } else {
          LaterFilesComeAfter(files, index, j, last, x);
          if r.Some? { LaterFilesComeAfter(files, index, j, r.value, x); }
        }
      }
    }
    forall x | x in FilesEntries(files) && Matches(x, user, snapshot)
      ensures r.Some? && x.key.seqno <= r.value.key.seqno
    {
      var f :| f in files && x in f.entries;
      var j :| 0 <= j < |files| && files[j] == f;
    }
  }

  ghost predicate Visited(v: Version, key: InternalKey, level: nat, f: File) {
    level < NUM_LEVELS && LooksInto(v[level], level, key, f)
  }

  /** Searches go down the levels, and through level 0 from the newest file to the oldest. */
  predicate Sooner(a: (nat, File), b: (nat, File)) {
    a.0 < b.0 || (a.0 == b.0 && a.1.number > b.1.number)
  }

  ghost predicate InVisitingOrder(read: seq<(nat, File)>) {
    forall i, j :: 0 <= i < j < |read| ==> Sooner(read[i], read[j])
  }

  ghost predicate AllVisited(v: Version, key: InternalKey, read: seq<(nat, File)>, below: nat) {
    forall i :: 0 <= i < |read| ==> Visited(v, key, read[i].0, read[i].1) && read[i].0 < below
  }

  ghost predicate AllBelowRead(v: Version, key: InternalKey, read: seq<(nat, File)>, below: nat) {
    forall l: nat, f: File {:trigger Visited(v, key, l, f)} :: Visited(v, key, l, f) && l < below ==> (l, f) in read
  }

  ghost predicate FirstMiss(read: seq<(nat, File)>, user: UserKey, snapshot: nat, n: int) {
    forall i :: 0 <= i < n && i < |read| ==> Misses(read[i].1, user, snapshot)
  }

  /** A read has gone through the levels above `level` and found nothing. */
  ghost predicate WentThrough(v: Version, user: UserKey, snapshot: nat, read: seq<(nat, File)>, level: nat) {
    var key := LookupKey(user, snapshot);
    InVisitingOrder(read) && AllVisited(v, key, read, level) && AllBelowRead(v, key, read, level) && FirstMiss(read, user, snapshot, |read|)
  }

  ghost predicate SoonestRead(v: Version, key: InternalKey, read: seq<(nat, File)>) {
    forall l: nat, f: File, i {:trigger Visited(v, key, l, f), read[i]} ::
      Visited(v, key, l, f) && 0 <= i < |read| && Sooner((l, f), read[i]) ==> (l, f) in read
  }

  /** The files a read has read: the first of those to visit, in order, all but the last without a
      match; and all of them, if none has a match. */
  ghost predicate Reads(v: Version, user: UserKey, snapshot: nat, read: seq<(nat, File)>) {
    var key := LookupKey(user, snapshot);
    && InVisitingOrder(read) && AllVisited(v, key, read, NUM_LEVELS) && SoonestRead(v, key, read)
    && FirstMiss(read, user, snapshot, |read| - 1)
    && (read == [] || Misses(read[|read| - 1].1, user, snapshot) ==> AllBelowRead(v, key, read, NUM_LEVELS))
  }

  lemma LevelIsVisited(v: Version, key: InternalKey, read: seq<(nat, File)>, level: nat, more: Files)
    requires level < NUM_LEVELS && InVisitingOrder(read) && AllVisited(v, key, read, level)
    requires Descending(more) && NewestOf(v[level], level, key, more)
    ensures InVisitingOrder(read + AtLevel(level, more)) && AllVisited(v, key, read + AtLevel(level, more), level + 1)
    ensures forall f: File :: f in more ==> (level, f) in read + AtLevel(level, more)
  {
    var all := read + AtLevel(level, more);
    forall i | 0 <= i < |all| ensures Visited(v, key, all[i].0, all[i].1) && all[i].0 < level + 1 {
      if i >= |read| {
        assert all[i] == (level, more[i - |read|]) && more[i - |read|] in more;
      }
    }
    forall f: File | f in more ensures (level, f) in all {
      var i :| 0 <= i < |more| && more[i] == f;
      assert all[|read| + i] == (level, f);
    }
  }

  lemma LevelIsSoonest(v: Version, key: InternalKey, read: seq<(nat, File)>, level: nat, more: Files)
    requires level < NUM_LEVELS && AllBelowRead(v, key, read, level) && AllVisited(v, key, read, level)
    requires NewestOf(v[level], level, key, more)
    requires forall f: File :: f in more ==> (level, f) in read + AtLevel(level, more)
    ensures SoonestRead(v, key, read + AtLevel(level, more))
  {
    var all := read + AtLevel(level, more);
    forall l: nat, f: File, i | Visited(v, key, l, f) && 0 <= i < |all| && Sooner((l, f), all[i]) ensures (l, f) in all {
      if l < level {
        assert (l, f) in read;
      } else {
        assert i >= |read| && all[i] == (level, more[i - |read|]) && more[i - |read|] in more;
        assert l == level && LooksInto(v[level], level, key, f);
      }
    }
  }

  lemma LevelIsRead(v: Version, user: UserKey, snapshot: nat, read: seq<(nat, File)>, level: nat, more: Files)
    requires level < NUM_LEVELS && AllBelowRead(v, LookupKey(user, snapshot), read, level) && AllMiss(v[level], level, user, snapshot, more)
    requires forall f: File :: f in more ==> (level, f) in read + AtLevel(level, more)
    ensures AllBelowRead(v, LookupKey(user, snapshot), read + AtLevel(level, more), level + 1)
  {
    var key, all := LookupKey(user, snapshot), read + AtLevel(level, more);
    forall l: nat, f: File | Visited(v, key, l, f) && l < level + 1 ensures (l, f) in all {
      if l < level {
        assert (l, f) in read;
      } else {
        assert LooksInto(v[level], level, key, f);
      }
    }
  }

  lemma LevelMisses(read: seq<(nat, File)>, level: nat, more: Files, user: UserKey, snapshot: nat)
    requires FirstMiss(read, user, snapshot, |read|) && AllButLastMiss(more, user, snapshot)
    ensures FirstMiss(read + AtLevel(level, more), user, snapshot, |read| + |more| - 1)
    ensures more == [] || Misses(more[|more| - 1], user, snapshot) ==> FirstMiss(read + AtLevel(level, more), user, snapshot, |read| + |more|)
  {
  }

  /** What a level adds to the files read. */
  lemma OneMoreLevel(v: Version, user: UserKey, snapshot: nat, read: seq<(nat, File)>, level: nat, more: Files, found: bool)
    requires level < NUM_LEVELS && WentThrough(v, user, snapshot, read, level)
    requires SearchedIn(v[level], level, user, snapshot, more, found)
    ensures found ==> Reads(v, user, snapshot, read + AtLevel(level, more))
    ensures !found ==> WentThrough(v, user, snapshot, read + AtLevel(level, more), level + 1)
  {
    var key, all := LookupKey(user, snapshot), read + AtLevel(level, more);
    LevelIsVisited(v, key, read, level, more);
    LevelMisses(read, level, more, user, snapshot);
    if found {
      LevelIsSoonest(v, key, read, level, more);
      assert all[|all| - 1] == (level, more[|more| - 1]);
    } else {
      LevelIsRead(v, user, snapshot, read, level, more);
      assert more != [] ==> more[|more| - 1] in more && LooksInto(v[level], level, key, more[|more| - 1]);
    }
  }

  ghost predicate NoMatchAbove(v: Version, level: nat, user: UserKey, snapshot: nat) {
    forall l, f, e :: 0 <= l < level && l < NUM_LEVELS && f in v[l] && e in f.entries ==> !Matches(e, user, snapshot)
  }

  lemma NoMatchInLevel(v: Version, level: nat, user: UserKey, snapshot: nat)
    requires level < NUM_LEVELS && NoMatchAbove(v, level, user, snapshot) && NoMatch(FilesEntries(v[level]), user, snapshot)
    ensures NoMatchAbove(v, level + 1, user, snapshot)
  {
    forall f, x | f in v[level] && x in f.entries ensures !Matches(x, user, snapshot) {
      assert x in FilesEntries(v[level]);
    }
  }

  /** One level of Version::Get. */
  method GetFromLevel(v: Version, level: nat, user: UserKey, snapshot: nat, stats0: Stats, ghost read0: seq<(nat, File)>)
    returns (r: Option<Entry>, stats: Stats, ghost read: seq<(nat, File)>)
    requires Valid(v) && level < NUM_LEVELS && WentThrough(v, user, snapshot, read0, level) && stats0 == StatsOf(read0)
    ensures r.Some? ==> IsNewest(FilesEntries(v[level]), user, snapshot, r.value) && Reads(v, user, snapshot, read)
    ensures r.None? ==> NoMatch(FilesEntries(v[level]), user, snapshot) && WentThrough(v, user, snapshot, read, level + 1)
    ensures stats == StatsOf(read)
  {
    ghost var more;
    if level == 0 {
      r, stats, more := GetFromLevel0(v[0], user, snapshot, stats0, read0);
    } else {
      r, stats, more := GetFromSortedLevel(v[level], level, user, snapshot, stats0, read0);
    }
    OneMoreLevel(v, user, snapshot, read0, level, more, r.Some?);
    read := read0 + AtLevel(level, more);
  }

  /** Version::Get returns the newest entry of the user key over all files of all levels, and
      charges the first file if it has read more than one. */
  method Get(v: Version, user: UserKey, snapshot: nat) returns (r: Option<Value>, stats: Stats, ghost read: seq<(nat, File)>)
    requires Valid(v)
    ensures r == Visible(VersionEntries(v), user, snapshot)
    ensures Reads(v, user, snapshot, read) && stats == StatsOf(read)
  {
    stats, read := NO_STATS, [];
    for level := 0 to NUM_LEVELS
      invariant NoMatchAbove(v, level, user, snapshot)
      invariant WentThrough(v, user, snapshot, read, level) && stats == StatsOf(read)
    {
      var e;
      e, stats, read := GetFromLevel(v, level, user, snapshot, stats, read);
      if e.Some? {
        NewestInLevelIsNewest(v, level, user, snapshot, e.value);
        VisibleIs(VersionEntries(v), user, snapshot, e.value);
        r := Outcome(e.value);
        return;
      }
      NoMatchInLevel(v, level, user, snapshot);
    }
    VisibleNone(VersionEntries(v), user, snapshot);
    r := None;
  }

  lemma NewestInLevelIsNewest(v: Version, level: nat, user: UserKey, snapshot: nat, e: Entry)
    requires Valid(v) && level < NUM_LEVELS
    requires NoMatchAbove(v, level, user, snapshot)
    requires IsNewest(FilesEntries(v[level]), user, snapshot, e)
    ensures IsNewest(VersionEntries(v), user, snapshot, e)
  {
    var g :| g in v[level] && e in g.entries;
    forall x | x in VersionEntries(v) && Matches(x, user, snapshot)
      ensures x.key.seqno <= e.key.seqno
    {
      var l, f :| 0 <= l < NUM_LEVELS && f in v[l] && x in f.entries;
      if l == level {
        assert x in FilesEntries(v[level]);
      } else {
        assert level < l && FileNewer(g, f);
        assert e in Elements(g.entries) && x in Elements(f.entries);
      }
    }
  }
}

/**
 Choosing the files of a compaction (GetOverlappingInputs, AddBoundaryInputs, GetRange in
 db/version_set.cc).
 */
module Inputs {
  import opened Wrappers
  import opened DbFormat
  import opened Versions

  // ---------------------------------------------------------------- GetOverlappingInputs

  /** Those of the first `n` files that overlap a range of user keys, in list order. */
  function OverlappingUpTo(files: Files, n: nat, lo: Option<UserKey>, hi: Option<UserKey>): (r: Files)
    requires n <= |files|
    ensures |r| <= n
    ensures forall f {:trigger f in r} :: f in r ==> f in files && Overlaps(f, lo, hi)
    ensures forall i {:trigger files[i]} :: 0 <= i < n && Overlaps(files[i], lo, hi) ==> files[i] in r
  {
    if n == 0 then []
    else OverlappingUpTo(files, n - 1, lo, hi) + if Overlaps(files[n - 1], lo, hi) then [files[n - 1]] else []
  }

  /** The files of a list that overlap a range of user keys, in list order. */
  function OverlappingFiles(files: Files, lo: Option<UserKey>, hi: Option<UserKey>): (r: Files)
    ensures forall f {:trigger f in r} {:trigger Overlaps(f, lo, hi)} :: f in r <==> f in files && Overlaps(f, lo, hi)
  {
    OverlappingUpTo(files, |files|, lo, hi)
  }

  predicate Within(f: File, lo: Option<UserKey>, hi: Option<UserKey>) {
    && (lo.Some? ==> lo.value <= f.smallest.user)
    && (hi.Some? ==> f.largest.user <= hi.value)
  }

  ghost predicate AllWithin(files: Files, lo: Option<UserKey>, hi: Option<UserKey>) {
    forall f {:trigger Within(f, lo, hi)} :: f in files ==> Within(f, lo, hi)
  }

  predicate Contains(lo: Option<UserKey>, hi: Option<UserKey>, lo': Option<UserKey>, hi': Option<UserKey>) {
    && (lo.Some? ==> lo'.Some? && lo.value <= lo'.value)
    && (hi.Some? ==> hi'.Some? && hi'.value <= hi.value)
  }

  /** No file straddles the range. */
  ghost predicate ClosedRange(files: Files, lo: Option<UserKey>, hi: Option<UserKey>) {
    forall f :: f in files && Overlaps(f, lo, hi) ==> Within(f, lo, hi)
  }

  /** `lo`..`hi` is the least range that contains `begin`..`end` and that no file straddles. */
  ghost predicate LeastClosedRange(files: Files, begin: Option<UserKey>, end: Option<UserKey>,
                                   lo: Option<UserKey>, hi: Option<UserKey>) {
    && ClosedRange(files, lo, hi)
    && Contains(lo, hi, begin, end)
    && ForcedRange(files, begin, end, lo, hi)
  }

  /** Every range that contains `begin`..`end` and that no file straddles contains `lo`..`hi`. */
  ghost predicate ForcedRange(files: Files, begin: Option<UserKey>, end: Option<UserKey>,
                              lo: Option<UserKey>, hi: Option<UserKey>) {
    forall lo', hi' {:trigger ClosedRange(files, lo', hi')} ::
      ClosedRange(files, lo', hi') && Contains(lo', hi', begin, end) ==> Contains(lo', hi', lo, hi)
  }

  lemma OverlappingFileForcesRange(files: Files, begin: Option<UserKey>, end: Option<UserKey>,
                                   lo: Option<UserKey>, hi: Option<UserKey>, f: File)
    requires ForcedRange(files, begin, end, lo, hi) && f in files && Overlaps(f, lo, hi)
    ensures lo.Some? ==> ForcedRange(files, begin, end, Some(f.smallest.user), hi)
    ensures hi.Some? ==> ForcedRange(files, begin, end, lo, Some(f.largest.user))
  {
    forall lo', hi' | ClosedRange(files, lo', hi') && Contains(lo', hi', begin, end)
      ensures lo.Some? ==> Contains(lo', hi', Some(f.smallest.user), hi)
      ensures hi.Some? ==> Contains(lo', hi', lo, Some(f.largest.user))
    {
      assert Overlaps(f, lo', hi');
    }
  }

  /** How many file ends stick out of the range: the restarts of the level-0 search use it up. */
  function Protruding(files: Files, lo: Option<UserKey>, hi: Option<UserKey>): nat {
    if files == [] then 0
    else
      Protruding(files[1..], lo, hi)
      + (if lo.Some? && files[0].smallest.user < lo.value then 1 else 0)
      + (if hi.Some? && files[0].largest.user > hi.value then 1 else 0)
  }

  lemma {:induction false} WiderRangeProtrudesLess(files: Files, lo: Option<UserKey>, hi: Option<UserKey>,
                                                  lo': Option<UserKey>, hi': Option<UserKey>)
    requires Contains(lo', hi', lo, hi) && lo.Some? == lo'.Some? && hi.Some? == hi'.Some?
    ensures Protruding(files, lo', hi') <= Protruding(files, lo, hi)
    ensures (exists f :: f in files && lo.Some? && lo'.value <= f.smallest.user < lo.value)
            || (exists f :: f in files && hi.Some? && hi.value < f.largest.user <= hi'.value)
            ==> Protruding(files, lo', hi') < Protruding(files, lo, hi)
  {
    if files != [] {
      WiderRangeProtrudesLess(files[1..], lo, hi, lo', hi');
      assert forall f :: f in files <==> f == files[0] || f in files[1..];
    }
  }

  /** A level-0 file that sticks out of the range widens it, the lower end first. */
  method Widen(files: Files, ghost begin: Option<UserKey>, ghost end: Option<UserKey>,
               lo: Option<UserKey>, hi: Option<UserKey>, f: File)
    returns (lo': Option<UserKey>, hi': Option<UserKey>, widened: bool)
    requires f in files && Overlaps(f, lo, hi) && ForcedRange(files, begin, end, lo, hi)
    ensures ForcedRange(files, begin, end, lo', hi')
    ensures Contains(lo', hi', lo, hi) && lo.Some? == lo'.Some? && hi.Some? == hi'.Some?
    ensures widened ==> Protruding(files, lo', hi') < Protruding(files, lo, hi)
    ensures !widened ==> lo' == lo && hi' == hi && Within(f, lo, hi)
  {
    OverlappingFileForcesRange(files, begin, end, lo, hi, f);
    lo', hi', widened := lo, hi, false;
    if lo.Some? && f.smallest.user < lo.value {
      lo', widened := Some(f.smallest.user), true;
      WiderRangeProtrudesLess(files, lo, hi, lo', hi');
    } else if hi.Some? && f.largest.user > hi.value {
      hi', widened := Some(f.largest.user), true;
      WiderRangeProtrudesLess(files, lo, hi, lo', hi');
    }
  }

  /** Version::GetOverlappingInputs.  Above level 0 one scan is enough; at level 0 a file that
      widens the range restarts the scan. */
  method GetOverlappingInputs(level: nat, files: Files, begin: Option<UserKey>, end: Option<UserKey>)
    returns (inputs: Files, ghost lo: Option<UserKey>, ghost hi: Option<UserKey>)
    ensures inputs == OverlappingFiles(files, lo, hi)
    ensures level > 0 ==> lo == begin && hi == end
    ensures level == 0 ==> LeastClosedRange(files, begin, end, lo, hi)
  {
    inputs := [];
    var userBegin, userEnd := begin, end;
    var i := 0;
    while i < |files|
      invariant i <= |files|
      invariant inputs == OverlappingUpTo(files, i, userBegin, userEnd)
      invariant level > 0 ==> userBegin == begin && userEnd == end
      invariant level == 0 ==> AllWithin(inputs, userBegin, userEnd)
      invariant Contains(userBegin, userEnd, begin, end)
      invariant userBegin.Some? == begin.Some? && userEnd.Some? == end.Some?
      invariant ForcedRange(files, begin, end, userBegin, userEnd)
      decreases Protruding(files, userBegin, userEnd), |files| - i
    {
      var f := files[i];
      i := i + 1;
      if userBegin.Some? && f.largest.user < userBegin.value {
      } else if userEnd.Some? && f.smallest.user > userEnd.value {
      } else {
        inputs := inputs + [f];
        if level == 0 {
          var widened;
          userBegin, userEnd, widened := Widen(files, begin, end, userBegin, userEnd, f);
          if widened {
            inputs := [];
            i := 0;
          }
        }
      }
    }
    lo, hi := userBegin, userEnd;
  }

  // ---------------------------------------------------------------- AddBoundaryInputs

  ghost predicate IsLargest(files: Files, key: InternalKey) {
    && (exists f :: f in files && f.largest == key)
    && forall f :: f in files ==> !Before(key, f.largest)
  }

  ghost predicate IsSmallest(files: Files, key: InternalKey) {
    && (exists f :: f in files && f.smallest == key)
    && forall f :: f in files ==> !Before(f.smallest, key)
  }

  /** `f` starts with older entries of the user key that `key` ends with. */
  predicate Boundary(f: File, key: InternalKey) {
    Before(key, f.smallest) && f.smallest.user == key.user
  }

  ghost predicate IsSmallestBoundary(levelFiles: Files, key: InternalKey, f: File) {
    && f in levelFiles && Boundary(f, key)
    && forall g :: g in levelFiles && Boundary(g, key) ==> !Before(g.smallest, f.smallest)
  }

  ghost predicate NoBoundary(levelFiles: Files, key: InternalKey) {
    forall g :: g in levelFiles ==> !Boundary(g, key)
  }

  method FindLargestKey(files: Files) returns (largest: Option<InternalKey>)
    ensures largest.None? <==> files == []
    ensures largest.Some? ==> IsLargest(files, largest.value)
  {
    if files == [] { return None; }
    var key := files[0].largest;
    ghost var at := 0;
    for i := 1 to |files|
      invariant at < |files| && files[at].largest == key
      invariant forall j :: 0 <= j < i ==> !Before(key, files[j].largest)
    {
      if Compare(files[i].largest, key) > 0 {
        forall j | 0 <= j < i ensures !Before(files[i].largest, files[j].largest) {
          CompareIsTotalOrder(key, files[i].largest, files[j].largest);
        }
        key := files[i].largest;
        at := i;
      }
      CompareIsTotalOrder(key, files[i].largest, key);
    }
    assert files[at] in files;
    return Some(key);
  }

  method FindSmallestBoundaryFile(levelFiles: Files, key: InternalKey) returns (r: Option<File>)
    ensures r.Some? ==> IsSmallestBoundary(levelFiles, key, r.value)
    ensures r.None? ==> NoBoundary(levelFiles, key)
  {
    r := None;
    for i := 0 to |levelFiles|
      invariant r.Some? ==> r.value in levelFiles && Boundary(r.value, key)
      invariant r.Some? ==> forall j :: 0 <= j < i && Boundary(levelFiles[j], key) ==> !Before(levelFiles[j].smallest, r.value.smallest)
      invariant r.None? ==> forall j :: 0 <= j < i ==> !Boundary(levelFiles[j], key)
    {
      var f := levelFiles[i];
      CompareIsTotalOrder(key, f.smallest, key);
      if Compare(f.smallest, key) > 0 && f.smallest.user == key.user {
        if r.None? || Compare(f.smallest, r.value.smallest) < 0 {
          if r.Some? {
            forall j | 0 <= j < i && Boundary(levelFiles[j], key) ensures !Before(levelFiles[j].smallest, f.smallest) {
              CompareIsTotalOrder(levelFiles[j].smallest, f.smallest, r.value.smallest);
            }
          }
          CompareIsTotalOrder(f.smallest, f.smallest, f.smallest);
          r := Some(f);
        }
      }
    }
  }

  /** Each added file is the smallest boundary file for the key the previous one ends with. */
  ghost predicate BoundaryChain(levelFiles: Files, key: InternalKey, added: Files)
    decreases |added|
  {
    added == [] || (IsSmallestBoundary(levelFiles, key, added[0]) && BoundaryChain(levelFiles, added[0].largest, added[1..]))
  }

  ghost function ChainEnd(key: InternalKey, added: Files): InternalKey {
    if added == [] then key else added[|added| - 1].largest
  }

  lemma {:induction false} ExtendChain(levelFiles: Files, key: InternalKey, added: Files, f: File)
    requires BoundaryChain(levelFiles, key, added)
    requires IsSmallestBoundary(levelFiles, ChainEnd(key, added), f)
    ensures BoundaryChain(levelFiles, key, added + [f])
    decreases |added|
  {
    if added != [] {
      ExtendChain(levelFiles, added[0].largest, added[1..], f);
      assert (added + [f])[1..] == added[1..] + [f];
    } else {
      assert (added + [f])[1..] == [];
    }
  }

  function FilesAfter(levelFiles: Files, key: InternalKey): nat {
    if levelFiles == [] then 0
    else FilesAfter(levelFiles[1..], key) + if Before(key, levelFiles[0].smallest) then 1 else 0
  }

  lemma {:induction false} FewerFilesAfter(levelFiles: Files, key: InternalKey, f: File)
    requires !Before(f.largest, f.smallest) && Before(key, f.smallest)
    ensures FilesAfter(levelFiles, f.largest) <= FilesAfter(levelFiles, key)
    ensures f in levelFiles ==> FilesAfter(levelFiles, f.largest) < FilesAfter(levelFiles, key)
  {
    if levelFiles != [] {
      FewerFilesAfter(levelFiles[1..], key, f);
      var g := levelFiles[0];
      CompareIsTotalOrder(key, f.smallest, f.largest);
      CompareIsTotalOrder(f.smallest, f.largest, g.smallest);
      CompareIsTotalOrder(key, f.largest, g.smallest);
      CompareIsTotalOrder(f.largest, f.smallest, f.largest);
      assert f in levelFiles ==> f == g || f in levelFiles[1..];
    }
  }

  lemma BoundaryBecomesLargest(files: Files, key: InternalKey, f: File)
    requires IsLargest(files, key) && Before(key, f.smallest) && !Before(f.largest, f.smallest)
    ensures IsLargest(files + [f], f.largest)
  {
    CompareIsTotalOrder(key, f.smallest, f.largest);
    CompareIsTotalOrder(f.smallest, f.largest, f.smallest);
    forall g | g in files + [f] ensures !Before(f.largest, g.largest) {
      CompareIsTotalOrder(key, f.largest, g.largest);
      CompareIsTotalOrder(f.largest, g.largest, f.largest);
    }
    assert f in files + [f];
  }

  /** AddBoundaryInputs extends the inputs until no file of the level starts with older entries
      of the user key the inputs end with. */
  method AddBoundaryInputs(levelFiles: Files, compactionFiles: Files) returns (r: Files, ghost added: Files, ghost last: InternalKey)
    requires ValidFiles(levelFiles)
    ensures r == compactionFiles + added
    ensures compactionFiles == [] ==> added == []
    ensures compactionFiles != [] ==> IsLargest(r, last) && NoBoundary(levelFiles, last)
    ensures compactionFiles != [] ==>
      exists first :: IsLargest(compactionFiles, first) && BoundaryChain(levelFiles, first, added) && last == ChainEnd(first, added)
  {
    var first := FindLargestKey(compactionFiles);
    r := compactionFiles;
    added := [];
    if first.None? {
      last := InternalKey(0, 0, TypeDeletion);
      return;
    }
    var largestKey := first.value;
    var continueSearching := true;
    while continueSearching
      invariant r == compactionFiles + added
      invariant IsLargest(r, largestKey) && largestKey == ChainEnd(first.value, added)
      invariant BoundaryChain(levelFiles, first.value, added)
      invariant !continueSearching ==> NoBoundary(levelFiles, largestKey)
      decreases FilesAfter(levelFiles, largestKey), continueSearching
    {
      var f := FindSmallestBoundaryFile(levelFiles, largestKey);
      if f.Some? {
        FileEnds(f.value);
        FewerFilesAfter(levelFiles, largestKey, f.value);
        ExtendChain(levelFiles, first.value, added, f.value);
        BoundaryBecomesLargest(r, largestKey, f.value);
        r := r + [f.value];
        added := added + [f.value];
        largestKey := f.value.largest;
      } else {
        continueSearching := false;
      }
    }
    last := largestKey;
  }

  // ---------------------------------------------------------------- GetRange

  method GetRange(inputs: Files) returns (smallest: InternalKey, largest: InternalKey)
    requires inputs != []
    ensures IsSmallest(inputs, smallest) && IsLargest(inputs, largest)
  {
    smallest, largest := inputs[0].smallest, inputs[0].largest;
    ghost var s, l := 0, 0;
    for i := 0 to |inputs|
      invariant s < |inputs| && inputs[s].smallest == smallest
      invariant l < |inputs| && inputs[l].largest == largest
      invariant forall j :: 0 <= j < i ==> !Before(inputs[j].smallest, smallest) && !Before(largest, inputs[j].largest)
    {
      var f := inputs[i];
      if i == 0 {
        smallest, largest := f.smallest, f.largest;
        s, l := 0, 0;
      } else {
        forall j | 0 <= j < i
          ensures Before(f.smallest, smallest) ==> !Before(inputs[j].smallest, f.smallest)
          ensures Before(largest, f.largest) ==> !Before(f.largest, inputs[j].largest)
        {
          CompareIsTotalOrder(inputs[j].smallest, f.smallest, smallest);
          CompareIsTotalOrder(largest, f.largest, inputs[j].largest);
        }
        CompareIsTotalOrder(largest, f.largest, largest);
        if Compare(f.smallest, smallest) < 0 {
          smallest := f.smallest;
          s := i;
        }
        if Compare(f.largest, largest) > 0 {
          largest := f.largest;
          l := i;
        }
      }
    }
    assert inputs[s] in inputs && inputs[l] in inputs;
  }
}

/**
 Compaction objects and the parts of VersionSet that create them (db/version_set.cc).
 */
module Compactions {
  import opened Wrappers
  import opened DbFormat
  import opened Visibility
  import opened Tables
  import opened Versions
  import opened Triggers
  import opened Inputs
  import opened InputSets

  /** Some file of levels `from` and up has a range that covers the user key. */
  ghost predicate CoveredFrom(v: Version, from: nat, user: UserKey) {
    exists l, f :: from <= l < NUM_LEVELS && f in v[l] && f.smallest.user <= user <= f.largest.user
  }

  /** A table at the level overlaps little of the level below it. */
  ghost predicate LightBelow(v: Version, maxFileSize: nat, level: nat, smallest: UserKey, largest: UserKey) {
    level + 1 < NUM_LEVELS ==> TotalFileSize(OverlappingFiles(v[level + 1], Some(smallest), Some(largest))) <= 10 * maxFileSize
  }

  ghost predicate NothingOverlaps(files: Files, begin: Option<UserKey>, end: Option<UserKey>) {
    forall f :: f in files ==> !Overlaps(f, begin, end)
  }

  ghost predicate NoneOverlaps(files: Files, smallest: UserKey, largest: UserKey) {
    NothingOverlaps(files, Some(smallest), Some(largest))
  }

  /** Where a flushed table goes: the deepest allowed level that it can sink to without passing a
      file it overlaps and without overlapping much of the level below. */
  ghost predicate PickedLevel(v: Version, maxFileSize: nat, smallest: UserKey, largest: UserKey, level: nat) {
    && level <= MAX_MEM_COMPACT_LEVEL
    && (level > 0 ==> forall l :: 0 <= l <= level ==> NoneOverlaps(v[l], smallest, largest))
    && (forall l :: 1 <= l <= level ==> LightBelow(v, maxFileSize, l, smallest, largest))
    && (level < MAX_MEM_COMPACT_LEVEL && NoneOverlaps(v[0], smallest, largest) ==>
          !NoneOverlaps(v[level + 1], smallest, largest) || !LightBelow(v, maxFileSize, level + 1, smallest, largest))
  }

  class Compaction {
    const level: nat
    const inputVersion: Version
    const maxFileSize: nat
    var inputs0: Files
    var inputs1: Files
    var grandparents: Files
    var grandparentIndex: nat
    var seenKey: bool
    var overlappedBytes: nat
    var levelPtrs: seq<nat>

    constructor (level: nat, inputVersion: Version, maxFileSize: nat, inputs0: Files)
      ensures this.level == level && this.inputVersion == inputVersion && this.maxFileSize == maxFileSize
      ensures this.inputs0 == inputs0 && inputs1 == [] && grandparents == []
      ensures grandparentIndex == 0 && !seenKey && overlappedBytes == 0
      ensures levelPtrs == seq(NUM_LEVELS, _ => 0)
    {
      this.level, this.inputVersion, this.maxFileSize, this.inputs0 := level, inputVersion, maxFileSize, inputs0;
      inputs1, grandparents, grandparentIndex, seenKey, overlappedBytes := [], [], 0, false, 0;
      levelPtrs := seq(NUM_LEVELS, _ => 0);
    }

    /** The files each level pointer has passed end before the last user key asked about. */
    ghost predicate PointersPassed(last: Option<UserKey>)
      reads this`levelPtrs
    {
      && |levelPtrs| == NUM_LEVELS
      && (forall l :: 0 <= l < NUM_LEVELS ==> levelPtrs[l] <= |inputVersion[l]|)
      && forall l, i :: 0 <= l < NUM_LEVELS && 0 <= i < levelPtrs[l] ==>
           last.Some? && inputVersion[l][i].largest.user < last.value
    }

    /** Nothing has been asked about yet. */
    ghost predicate Untouched()
      reads this`levelPtrs, this`grandparentIndex, this`seenKey, this`overlappedBytes
    {
      PointersPassed(None) && grandparentIndex == 0 && !seenKey && overlappedBytes == 0
    }

    /** Moves the pointer of one level past the files that end before the user key. */
    method AdvancePointer(lvl: nat, user: UserKey, ghost last: Option<UserKey>) returns (covered: bool)
      requires lvl < NUM_LEVELS
      requires ValidFiles(inputVersion[lvl]) && SortedDisjoint(inputVersion[lvl])
      requires PointersPassed(last)
      requires last.Some? ==> last.value <= user
      modifies this`levelPtrs
      ensures PointersPassed(Some(user))
      ensures covered <==> exists f :: f in inputVersion[lvl] && f.smallest.user <= user <= f.largest.user
    {
      var files := inputVersion[lvl];
      while levelPtrs[lvl] < |files|
        invariant PointersPassed(Some(user))
        decreases |files| - levelPtrs[lvl]
      {
        var f := files[levelPtrs[lvl]];
        assert f in files;
        if user <= f.largest.user {
          if user >= f.smallest.user {
            return true;
          }
          break;
        }
        levelPtrs := levelPtrs[lvl := levelPtrs[lvl] + 1];
      }
      forall f | f in files ensures !(f.smallest.user <= user <= f.largest.user) {
        var i :| 0 <= i < |files| && files[i] == f;
        if levelPtrs[lvl] < i {
          var at := files[levelPtrs[lvl]];
          assert at in files;
          FileEnds(at);
          assert Before(at.largest, f.smallest);
        }
      }
      return false;
    }

    /** Compaction::IsBaseLevelForKey.  The pointers only move forward, so for user keys asked
        about in order the answer is exact. */
    method IsBaseLevelForKey(user: UserKey, ghost last: Option<UserKey>) returns (r: bool)
      requires WellFormed(inputVersion)
      requires PointersPassed(last)
      requires last.Some? ==> last.value <= user
      modifies this`levelPtrs
      ensures PointersPassed(Some(user))
      ensures r <==> !CoveredFrom(inputVersion, level + 2, user)
    {
      var lvl := level + 2;
      ghost var before := last;
      while lvl < NUM_LEVELS
        invariant level + 2 <= lvl
        invariant before == last || before == Some(user)
        invariant PointersPassed(before)
        invariant forall l, f :: level + 2 <= l < lvl && l < NUM_LEVELS && f in inputVersion[l] ==>
          !(f.smallest.user <= user <= f.largest.user)
      {
        var covered := AdvancePointer(lvl, user, before);
        if covered {
          return false;
        }
        before := Some(user);
        lvl := lvl + 1;
      }
      return true;
    }

    /** Compaction::ShouldStopBefore: whether the current output would overlap too many
        grandparent bytes. */
    method ShouldStopBefore(key: InternalKey) returns (r: bool)
      modifies this`grandparentIndex, this`seenKey, this`overlappedBytes
      ensures seenKey
      ensures var total := old(overlappedBytes) + if old(seenKey) then SizeBetween(grandparents, old(grandparentIndex), grandparentIndex) else 0;
              (r <==> total > 10 * maxFileSize) && overlappedBytes == if r then 0 else total
      ensures PassedGrandparents(old(grandparentIndex), key)
      ensures grandparentIndex < |grandparents| ==> !Before(grandparents[grandparentIndex].largest, key)
    {
      while grandparentIndex < |grandparents| && Compare(key, grandparents[grandparentIndex].largest) > 0
        invariant PassedGrandparents(old(grandparentIndex), key) && seenKey == old(seenKey)
        invariant overlappedBytes == old(overlappedBytes)
          + if seenKey then SizeBetween(grandparents, old(grandparentIndex), grandparentIndex) else 0
        decreases |grandparents| - grandparentIndex
      {
        CompareIsTotalOrder(key, grandparents[grandparentIndex].largest, key);
        if seenKey {
          overlappedBytes := overlappedBytes + grandparents[grandparentIndex].size;
        }
        grandparentIndex := grandparentIndex + 1;
      }
      if grandparentIndex < |grandparents| {
        CompareIsTotalOrder(key, grandparents[grandparentIndex].largest, key);
      }
      seenKey := true;
      r := overlappedBytes > 10 * maxFileSize;
      if r {
        overlappedBytes := 0;
      }
    }

    /** The grandparents between a former position and the current one end before the key. */
    ghost predicate PassedGrandparents(from: nat, key: InternalKey)
      reads this`grandparentIndex, this`grandparents
    {
      && from <= grandparentIndex
      && (from < grandparentIndex ==> grandparentIndex <= |grandparents|)
      && forall i :: from <= i < grandparentIndex ==> Before(grandparents[i].largest, key)
    }

    predicate IsTrivialMove()
      reads this`inputs0, this`inputs1, this`grandparents
    {
      |inputs0| == 1 && |inputs1| == 0 && TotalFileSize(grandparents) <= 10 * maxFileSize
    }
  }

  // ---------------------------------------------------------------- the choice of inputs

  /** Why a compaction is set up: for a range, for the size of a level, or for too many seeks
      charged to a file. */
  datatype Cause =
    | ByHand(begin: Option<UserKey>, end: Option<UserKey>)
    | BySize(pointer: Option<InternalKey>, at: nat)
    | BySeek(file: File)

  /** The completed seed with its parents, and the larger inputs that may take their place. */
  datatype Choice = Choice(base0: Files, base1: Files, expanded0: Files, expanded1: Files)

  /** `in0` is the seed followed by its chain of boundary files. */
  ghost predicate CompletionOf(v: Version, level: nat, seed: Files, in0: Files)
    requires level < NUM_LEVELS
  {
    && |seed| <= |in0| && in0[..|seed|] == seed && seed != []
    && forall first :: IsLargest(seed, first) ==>
         BoundaryChain(v[level], first, in0[|seed|..]) && NoBoundary(v[level], ChainEnd(first, in0[|seed|..]))
  }

  /** `in1` is what GetOverlappingInputs finds at the next level for the range of `in0`. */
  ghost predicate ParentsOf(v: Version, level: nat, in0: Files, in1: Files)
    requires level + 1 < NUM_LEVELS
  {
    forall smallest, largest {:trigger IsSmallest(in0, smallest), IsLargest(in0, largest)} ::
      IsSmallest(in0, smallest) && IsLargest(in0, largest) ==>
        in1 == OverlappingFiles(v[level + 1], Some(smallest.user), Some(largest.user))
  }

  /** The inputs that overlap the whole compaction, completed in their turn. */
  ghost predicate ExpansionOf(v: Version, level: nat, in0: Files, in1: Files, expanded0: Files)
    requires level < NUM_LEVELS
  {
    exists overlapping {:trigger CompletionOf(v, level, overlapping, expanded0)} ::
      CompletionOf(v, level, overlapping, expanded0) && Spans(v, level, in0 + in1, overlapping)
  }

  /** `overlapping` is what GetOverlappingInputs finds at the level for the range of some files. */
  ghost predicate Spans(v: Version, level: nat, files: Files, overlapping: Files)
    requires level < NUM_LEVELS
  {
    exists start, limit, lo, hi {:trigger IsSmallest(files, start), IsLargest(files, limit), OverlappingFiles(v[level], lo, hi)} ::
      && IsSmallest(files, start) && IsLargest(files, limit) && overlapping == OverlappingFiles(v[level], lo, hi)
      && if level > 0 then lo == Some(start.user) && hi == Some(limit.user)
         else LeastClosedRange(v[0], Some(start.user), Some(limit.user), lo, hi)
  }

  /** The inputs grow when that adds files, stays within the byte limit, and brings no further
      parents along. */
  ghost predicate ChosenInputs(v: Version, maxFileSize: nat, level: nat, seed: Files, choice: Choice, in0: Files, in1: Files)
    requires level + 1 < NUM_LEVELS
  {
    && CompletionOf(v, level, seed, choice.base0) && ParentsOf(v, level, choice.base0, choice.base1)
    && (choice.base1 != [] ==>
          ExpansionOf(v, level, choice.base0, choice.base1, choice.expanded0) && ParentsOf(v, level, choice.expanded0, choice.expanded1))
    && (if Grows(choice, maxFileSize) then in0 == choice.expanded0 && in1 == choice.expanded1
        else in0 == choice.base0 && in1 == choice.base1)
  }

  predicate Grows(choice: Choice, maxFileSize: nat) {
    && choice.base1 != []
    && |choice.expanded0| > |choice.base0|
    && TotalFileSize(choice.base1) + TotalFileSize(choice.expanded0) < 25 * maxFileSize
    && |choice.expanded1| == |choice.base1|
  }

  /** `grandparents` are the files two levels down that overlap the compaction. */
  ghost predicate GrandparentsOf(v: Version, level: nat, inputs: Files, grandparents: Files) {
    if level + 2 < NUM_LEVELS then
      forall start, limit {:trigger IsSmallest(inputs, start), IsLargest(inputs, limit)} ::
        IsSmallest(inputs, start) && IsLargest(inputs, limit) ==>
          grandparents == OverlappingFiles(v[level + 2], Some(start.user), Some(limit.user))
    else grandparents == []
  }

  /** A level-0 file brings along the files it overlaps; other files stand alone. */
  ghost predicate SeedOf(v: Version, level: nat, f: File, seed: Files)
    requires level < NUM_LEVELS
  {
    if level > 0 then seed == [f]
    else exists lo, hi {:trigger OverlappingFiles(v[0], lo, hi)} ::
      LeastClosedRange(v[0], Some(f.smallest.user), Some(f.largest.user), lo, hi) && seed == OverlappingFiles(v[0], lo, hi)
  }

  /** The cause makes a compaction start from the seed.  Size goes before seeks. */
  ghost predicate Caused(v: Version, maxFileSize: nat, level: nat, cause: Cause, seed: Files)
    requires level < NUM_LEVELS
  {
    match cause
    case ByHand(begin, end) => TakenFromRange(v, maxFileSize, level, begin, end, seed)
    case BySize(_, at) => at < |v[level]| && StartsWith(v, level, cause, v[level][at]) && SeedOf(v, level, v[level][at], seed)
    case BySeek(f) => StartsWith(v, level, cause, f) && SeedOf(v, level, f, seed)
  }

  /** The cause is there, and makes an automatic compaction start with the file. */
  ghost predicate StartsWith(v: Version, level: nat, cause: Cause, f: File)
    requires level < NUM_LEVELS
  {
    match cause
    case ByHand(_, _) => false
    case BySize(pointer, at) => SizeDue(v, level) && NextToCompact(v[level], pointer, at) && f == v[level][at]
    case BySeek(g) => NoSizeDue(v) && Charged(v, level, g) && f == g && f in v[level]
  }

  /** An automatic compaction is for the level that is due for its size, if there is one, and
      otherwise for the file that has used up its seeks. */
  ghost predicate Due(v: Version, pointers: seq<Option<InternalKey>>, fileToCompact: Option<(nat, File)>, level: nat, cause: Cause) {
    match cause
    case ByHand(_, _) => false
    case BySize(pointer, _) => SizeDue(v, level) && level < |pointers| && pointer == pointers[level]
    case BySeek(f) => NoSizeDue(v) && fileToCompact == Some((level, f))
  }

  /** A compaction the way VersionSet sets it up. */
  datatype Plan = Plan(cause: Cause, seed: Files, choice: Choice, grandparents: Files)

  ghost predicate Planned(v: Version, maxFileSize: nat, level: nat, plan: Plan, in0: Files, in1: Files) {
    && level + 1 < NUM_LEVELS
    && Caused(v, maxFileSize, level, plan.cause, plan.seed)
    && ChosenInputs(v, maxFileSize, level, plan.seed, plan.choice, in0, in1)
    && GrandparentsOf(v, level, in0 + in1, plan.grandparents)
  }

  /** A compaction of the version, set up by the plan and not yet begun. */
  ghost predicate SetUp(c: Compaction, v: Version, maxFileSize: nat, plan: Plan)
    reads c
  {
    && c.inputVersion == v && c.maxFileSize == maxFileSize && c.Untouched()
    && InputsValid(v, c.level, c.inputs0, c.inputs1)
    && Subset(plan.seed, c.inputs0) && (c.level > 0 ==> Block(v[c.level], c.inputs0))
    && c.grandparents == plan.grandparents && Planned(v, maxFileSize, c.level, plan, c.inputs0, c.inputs1)
  }

  /** The next size compaction of the level is to start behind the inputs of this one. */
  ghost predicate PointerMoved(before: seq<Option<InternalKey>>, after: seq<Option<InternalKey>>, level: nat, in0: Files) {
    && |after| == |before| && level < |before|
    && (forall l :: 0 <= l < |before| && l != level ==> after[l] == before[l])
    && after[level].Some? && IsLargest(in0, after[level].value)
  }

  class CompactionPicker {
    const current: Version
    const maxFileSize: nat
    /** Per level, the key at which the next compaction should start. */
    var compactPointer: seq<Option<InternalKey>>

    constructor (current: Version, maxFileSize: nat, compactPointer: seq<Option<InternalKey>>)
      ensures this.current == current && this.maxFileSize == maxFileSize && this.compactPointer == compactPointer
    {
      this.current, this.maxFileSize, this.compactPointer := current, maxFileSize, compactPointer;
    }

    ghost predicate Ready()
      reads this
    {
      Valid(current) && |compactPointer| == NUM_LEVELS
    }

    method CompleteSeed(level: nat, seed: Files) returns (in0: Files)
      requires Ready() && Seed(current, level, seed)
      ensures Completed(current, level, in0) && Subset(seed, in0) && CompletionOf(current, level, seed, in0)
      ensures level > 0 ==> Block(current[level], in0)
    {
      ghost var added, last;
      in0, added, last := AddBoundaryInputs(current[level], seed);
      ghost var start :| IsLargest(seed, start) && BoundaryChain(current[level], start, added) && last == ChainEnd(start, added);
      BoundaryFilesComplete(current, level, seed, start, added, last);
      if level > 0 { ChainExtendsBlock(current[level], seed, start, added); }
      assert in0[|seed|..] == added;
      forall first | IsLargest(seed, first) ensures first == start {
        SameLargest(seed, first, start);
      }
    }

    method OverlappingParents(level: nat, in0: Files) returns (in1: Files, smallest: InternalKey, largest: InternalKey)
      requires Ready() && Completed(current, level, in0)
      ensures InputsValid(current, level, in0, in1)
      ensures IsSmallest(in0, smallest) && IsLargest(in0, largest)
      ensures in1 == OverlappingFiles(current[level + 1], Some(smallest.user), Some(largest.user))
      ensures ParentsOf(current, level, in0, in1)
    {
      ghost var lo, hi;
      smallest, largest := GetRange(in0);
      in1, lo, hi := GetOverlappingInputs(level + 1, current[level + 1], Some(smallest.user), Some(largest.user));
      ParentsComplete(current, level, in0, in1, smallest, largest);
      forall s, l | IsSmallest(in0, s) && IsLargest(in0, l) ensures s == smallest && l == largest {
        SameLargest(in0, l, largest);
        SameSmallest(in0, s, smallest);
      }
    }

    method Expand(level: nat, in0: Files, in1: Files, allStart: InternalKey, allLimit: InternalKey) returns (expanded0: Files)
      requires Ready() && InputsValid(current, level, in0, in1)
      requires IsSmallest(in0 + in1, allStart) && IsLargest(in0 + in1, allLimit)
      ensures Completed(current, level, expanded0) && Subset(in0, expanded0) && ExpansionOf(current, level, in0, in1, expanded0)
      ensures level > 0 ==> Block(current[level], expanded0)
    {
      ghost var lo, hi;
      var overlapping;
      overlapping, lo, hi := GetOverlappingInputs(level, current[level], Some(allStart.user), Some(allLimit.user));
      ExpansionIsSeed(current, level, in0, in1, allStart, allLimit, overlapping, lo, hi);
      expanded0 := CompleteSeed(level, overlapping);
      assert Spans(current, level, in0 + in1, overlapping);
    }

    /** The part of SetupOtherInputs that computes: complete the inputs, add the parents, and
        grow the inputs when that does not change the number of parents. */
    method ChooseInputs(level: nat, seed: Files)
      returns (in0: Files, in1: Files, smallest: InternalKey, largest: InternalKey, ghost choice: Choice)
      requires Ready() && Seed(current, level, seed)
      ensures InputsValid(current, level, in0, in1) && Subset(seed, in0) && (level > 0 ==> Block(current[level], in0))
      ensures IsSmallest(in0, smallest) && IsLargest(in0, largest)
      ensures in1 == OverlappingFiles(current[level + 1], Some(smallest.user), Some(largest.user))
      ensures ChosenInputs(current, maxFileSize, level, seed, choice, in0, in1)
    {
      in0 := CompleteSeed(level, seed);
      in1, smallest, largest := OverlappingParents(level, in0);
      choice := Choice(in0, in1, [], []);
      if in1 != [] {
        var allStart, allLimit := GetRange(in0 + in1);
        var larger0 := Expand(level, in0, in1, allStart, allLimit);
        ghost var parents, s, l := ParentsFor(level, larger0);
        choice := choice.(expanded0 := larger0, expanded1 := parents);
        if |larger0| > |in0| && TotalFileSize(in1) + TotalFileSize(larger0) < 25 * maxFileSize {
          var larger1, newStart, newLimit := OverlappingParents(level, larger0);
          if |larger1| == |in1| {
            SubsetTransitive(seed, in0, larger0);
            in0, in1, smallest, largest := larger0, larger1, newStart, newLimit;
          }
        }
      }
    }

    /** The parents of some inputs, whether or not they are looked up. */
    lemma ParentsFor(level: nat, in0: Files) returns (in1: Files, s: InternalKey, l: InternalKey)
      requires Ready() && Completed(current, level, in0)
      ensures ParentsOf(current, level, in0, in1)
      ensures IsSmallest(in0, s) && IsLargest(in0, l) && in1 == OverlappingFiles(current[level + 1], Some(s.user), Some(l.user))
    {
      s := SmallestKey(in0);
      l := LargestKey(in0);
      in1 := OverlappingFiles(current[level + 1], Some(s.user), Some(l.user));
      forall s', l' | IsSmallest(in0, s') && IsLargest(in0, l') ensures s' == s && l' == l {
        SameLargest(in0, l', l);
        SameSmallest(in0, s', s);
      }
    }

    method OverlappingGrandparents(level: nat, inputs: Files) returns (grandparents: Files)
      requires inputs != []
      ensures GrandparentsOf(current, level, inputs, grandparents)
    {
      var allStart, allLimit := GetRange(inputs);
      grandparents := [];
      if level + 2 < NUM_LEVELS {
        ghost var lo, hi;
        grandparents, lo, hi := GetOverlappingInputs(level + 2, current[level + 2], Some(allStart.user), Some(allLimit.user));
      }
      forall s, l | IsSmallest(inputs, s) && IsLargest(inputs, l) ensures s == allStart && l == allLimit {
        SameLargest(inputs, l, allLimit);
        SameSmallest(inputs, s, allStart);
      }
    }

    /** VersionSet::SetupOtherInputs.  The next compaction of the level starts after the inputs. */
    method SetupOtherInputs(c: Compaction)
      returns (ghost smallest: InternalKey, ghost largest: InternalKey, ghost choice: Choice)
      requires Ready() && c.inputVersion == current && Seed(current, c.level, c.inputs0)
      modifies this`compactPointer, c`inputs0, c`inputs1, c`grandparents
      ensures InputsValid(current, c.level, c.inputs0, c.inputs1)
      ensures IsSmallest(c.inputs0, smallest) && IsLargest(c.inputs0, largest)
      ensures c.inputs1 == OverlappingFiles(current[c.level + 1], Some(smallest.user), Some(largest.user))
      ensures ChosenInputs(current, maxFileSize, c.level, old(c.inputs0), choice, c.inputs0, c.inputs1)
      ensures GrandparentsOf(current, c.level, c.inputs0 + c.inputs1, c.grandparents)
      ensures compactPointer == old(compactPointer)[c.level := Some(largest)]
      ensures Subset(old(c.inputs0), c.inputs0) && (c.level > 0 ==> Block(current[c.level], c.inputs0))
    {
      var in0, in1, first, last;
      in0, in1, first, last, choice := ChooseInputs(c.level, c.inputs0);
      var grandparents := OverlappingGrandparents(c.level, in0 + in1);
      c.inputs0, c.inputs1, c.grandparents := in0, in1, grandparents;
      compactPointer := compactPointer[c.level := Some(last)];
      smallest, largest := first, last;
    }

    method SeedFromFile(level: nat, f: File) returns (seed: Files)
      requires Ready() && level + 1 < NUM_LEVELS && f in current[level]
      ensures Seed(current, level, seed) && SeedOf(current, level, f, seed)
    {
      seed := [f];
      if level == 0 {
        ghost var lo, hi;
        var smallest, largest := GetRange(seed);
        seed, lo, hi := GetOverlappingInputs(0, current[0], Some(smallest.user), Some(largest.user));
        FileEnds(f);
        assert f in seed;
      } else {
        SingletonIsBlock(current[level], f);
      }
    }

    /** The file an automatic compaction starts with. */
    method FileDue(fileToCompact: Option<(nat, File)>) returns (due: Option<(nat, File)>, ghost cause: Cause)
      requires Ready()
      requires fileToCompact.Some? ==> Charged(current, fileToCompact.value.0, fileToCompact.value.1)
      ensures due.None? <==> NoSizeDue(current) && fileToCompact.None?
      ensures due.Some? ==> var (level, f) := due.value;
        level + 1 < NUM_LEVELS && StartsWith(current, level, cause, f) && Due(current, compactPointer, fileToCompact, level, cause)
    {
      var level, score := Finalize(current);
      cause := ByHand(None, None);
      if score >= 1.0 {
        DueLevelHasFiles(current, level);
        OneLevelIsDue(current, level, level);
        ghost var at;
        var f;
        f, at := FirstAfterPointer(level);
        cause := BySize(compactPointer[level], at);
        return Some((level, f)), cause;
      }
      if fileToCompact.Some? {
        ChargedCanBeCompacted(current, fileToCompact.value.0, fileToCompact.value.1);
        cause := BySeek(fileToCompact.value.1);
      }
      due := fileToCompact;
    }

    /** VersionSet::PickCompaction, given the file that has used up its seeks, if there is one. */
    method PickCompaction(fileToCompact: Option<(nat, File)>) returns (r: Option<Compaction>, ghost plan: Plan)
      requires Ready()
      requires fileToCompact.Some? ==> Charged(current, fileToCompact.value.0, fileToCompact.value.1)
      modifies this`compactPointer
      ensures |compactPointer| == NUM_LEVELS
      ensures r.None? <==> NoSizeDue(current) && fileToCompact.None?
      ensures r.Some? ==> fresh(r.value) && SetUp(r.value, current, maxFileSize, plan)
      ensures r.Some? ==> Due(current, old(compactPointer), fileToCompact, r.value.level, plan.cause)
      ensures r.Some? ==> PointerMoved(old(compactPointer), compactPointer, r.value.level, r.value.inputs0)
      ensures r.None? ==> compactPointer == old(compactPointer)
    {
      var due;
      ghost var cause;
      due, cause := FileDue(fileToCompact);
      if due.None? {
        return None, Plan(cause, [], Choice([], [], [], []), []);
      }
      var (level, f) := due.value;
      var seed := SeedFromFile(level, f);
      var c;
      c, plan := NewCompaction(level, seed, cause);
      r := Some(c);
    }

    /** The compaction that starts from some seed. */
    method NewCompaction(level: nat, seed: Files, ghost cause: Cause) returns (c: Compaction, ghost plan: Plan)
      requires Ready() && level + 1 < NUM_LEVELS && Seed(current, level, seed) && Caused(current, maxFileSize, level, cause, seed)
      modifies this`compactPointer
      ensures |compactPointer| == NUM_LEVELS
      ensures fresh(c) && c.level == level && SetUp(c, current, maxFileSize, plan) && plan.cause == cause
      ensures PointerMoved(old(compactPointer), compactPointer, level, c.inputs0)
    {
      c := new Compaction(level, current, maxFileSize, seed);
      ghost var s, l, choice := SetupOtherInputs(c);
      plan := Plan(cause, seed, choice, c.grandparents);
    }

    /** The first file that ends after the level's compaction pointer, or else the first file. */
    method FirstAfterPointer(level: nat) returns (f: File, ghost at: nat)
      requires Ready() && level < NUM_LEVELS && current[level] != []
      ensures NextToCompact(current[level], compactPointer[level], at) && f == current[level][at]
    {
      var i := 0;
      while i < |current[level]|
        invariant i <= |current[level]|
        invariant compactPointer[level].None? ==> i == 0
        invariant compactPointer[level].Some? ==> forall j :: 0 <= j < i ==> !Before(compactPointer[level].value, current[level][j].largest)
      {
        f := current[level][i];
        if compactPointer[level].None? {
          return f, i;
        }
        CompareIsTotalOrder(f.largest, compactPointer[level].value, f.largest);
        if Compare(f.largest, compactPointer[level].value) > 0 {
          return f, i;
        }
        i := i + 1;
      }
      f, at := current[level][0], 0;
    }

    /** Above level 0 only as many of the overlapping files are taken as reach one output
        file's size. */
    method SeedFromRange(level: nat, begin: Option<UserKey>, end: Option<UserKey>) returns (inputs: Files)
      requires Ready() && level + 1 < NUM_LEVELS
      ensures inputs == [] <==> NothingOverlaps(current[level], begin, end)
      ensures inputs != [] ==> Seed(current, level, inputs) && TakenFromRange(current, maxFileSize, level, begin, end, inputs)
    {
      ghost var lo, hi;
      inputs, lo, hi := GetOverlappingInputs(level, current[level], begin, end);
      if level == 0 && NothingOverlaps(current[0], begin, end) {
        NothingForced(current[0], begin, end, lo, hi);
      }
      assert inputs != [] ==> inputs[0] in inputs && inputs[0] in current[level];
      if inputs != [] && level > 0 {
        OverlappingKeepsOrder(current[level], lo, hi);
        OverlappingIsBlock(current[level], lo, hi);
        ghost var all := inputs;
        inputs := FirstFiles(inputs);
        PrefixIsBlock(current[level], all, |inputs|);
        assert inputs == all[..|inputs|];
      }
    }

    /** As many files, from the front, as reach one output file's size. */
    method FirstFiles(files: Files) returns (r: Files)
      requires files != []
      ensures EnoughOf(files, r, maxFileSize)
    {
      var total, i: nat := 0, 0;
      while i < |files|
        invariant i <= |files| && total == SizeBetween(files, 0, i)
        invariant i > 0 ==> SizeBetween(files, 0, i) < maxFileSize
      {
        total := total + files[i].size;
        i := i + 1;
        if total >= maxFileSize {
          break;
        }
      }
      r := files[..i];
    }

    /** VersionSet::CompactRange. */
    method CompactRange(level: nat, begin: Option<UserKey>, end: Option<UserKey>) returns (r: Option<Compaction>, ghost plan: Plan)
      requires Ready() && level + 1 < NUM_LEVELS
      modifies this`compactPointer
      ensures |compactPointer| == NUM_LEVELS
      ensures r.None? <==> NothingOverlaps(current[level], begin, end)
      ensures if r.Some? then PointerMoved(old(compactPointer), compactPointer, level, r.value.inputs0) else compactPointer == old(compactPointer)
      ensures r.Some? ==> fresh(r.value) && r.value.level == level && SetUp(r.value, current, maxFileSize, plan) && plan.cause == ByHand(begin, end)
    {
      var inputs := SeedFromRange(level, begin, end);
      if inputs == [] {
        return None, Plan(ByHand(begin, end), [], Choice([], [], [], []), []);
      }
      var c;
      c, plan := NewCompaction(level, inputs, ByHand(begin, end));
      r := Some(c);
    }

    /** Version::OverlapInLevel. */
    method OverlapInLevel(level: nat, begin: Option<UserKey>, end: Option<UserKey>) returns (r: bool)
      requires Ready() && level < NUM_LEVELS
      ensures r <==> !NothingOverlaps(current[level], begin, end)
    {
      r := SomeFileOverlapsRange(level > 0, current[level], begin, end);
    }

    /** The first part of DBImpl::CompactRange: the levels below the result are compacted. */
    method MaxLevelWithFiles(begin: Option<UserKey>, end: Option<UserKey>) returns (r: nat)
      requires Ready()
      ensures 1 <= r < NUM_LEVELS && (r > 1 ==> !NothingOverlaps(current[r], begin, end))
      ensures forall l :: r < l < NUM_LEVELS ==> NothingOverlaps(current[l], begin, end)
    {
      r := 1;
      for level := 1 to NUM_LEVELS
        invariant 1 <= r < NUM_LEVELS && (r > 1 ==> r < level && !NothingOverlaps(current[r], begin, end))
        invariant forall l :: r < l < level ==> NothingOverlaps(current[l], begin, end)
      {
        var overlap := OverlapInLevel(level, begin, end);
        if overlap {
          r := level;
        }
      }
    }

    /** Version::PickLevelForMemTableOutput. */
    method PickLevelForMemTableOutput(smallest: UserKey, largest: UserKey) returns (level: nat)
      requires Ready()
      ensures PickedLevel(current, maxFileSize, smallest, largest, level)
    {
      level := 0;
      var overlap := OverlapInLevel(0, Some(smallest), Some(largest));
      if !overlap {
        while level < MAX_MEM_COMPACT_LEVEL
          invariant level <= MAX_MEM_COMPACT_LEVEL
          invariant forall l :: 0 <= l <= level ==> NoneOverlaps(current[l], smallest, largest)
          invariant forall l :: 1 <= l <= level ==> LightBelow(current, maxFileSize, l, smallest, largest)
        {
          overlap := OverlapInLevel(level + 1, Some(smallest), Some(largest));
          if overlap {
            break;
          }
          if level + 2 < NUM_LEVELS {
            ghost var lo, hi;
            var overlaps;
            overlaps, lo, hi := GetOverlappingInputs(level + 2, current[level + 2], Some(smallest), Some(largest));
            if TotalFileSize(overlaps) > 10 * maxFileSize {
              break;
            }
          }
          level := level + 1;
        }
      }
    }
  }

  /** A range that no file overlaps need not grow. */
  lemma NothingForced(files: Files, begin: Option<UserKey>, end: Option<UserKey>, lo: Option<UserKey>, hi: Option<UserKey>)
    requires LeastClosedRange(files, begin, end, lo, hi)
    requires NothingOverlaps(files, begin, end)
    ensures NothingOverlaps(files, lo, hi)
  {
    assert ClosedRange(files, begin, end);
  }

  lemma SameSmallest(files: Files, a: InternalKey, b: InternalKey)
    requires IsSmallest(files, a) && IsSmallest(files, b)
    ensures a == b
  {
    CompareIsTotalOrder(a, b, a);
  }

  lemma {:induction false} SmallestKey(files: Files) returns (key: InternalKey)
    requires files != []
    ensures IsSmallest(files, key)
    decreases |files|
  {
    key := files[0].smallest;
    if |files| > 1 {
      var rest := SmallestKey(files[1..]);
      if Before(rest, key) { key := rest; }
      forall f | f in files ensures !Before(f.smallest, key) {
        CompareIsTotalOrder(f.smallest, rest, files[0].smallest);
        CompareIsTotalOrder(files[0].smallest, rest, f.smallest);
        CompareIsTotalOrder(f.smallest, files[0].smallest, rest);
      }
    } else {
      CompareIsTotalOrder(key, key, key);
    }
  }

  lemma {:induction false} LargestKey(files: Files) returns (key: InternalKey)
    requires files != []
    ensures IsLargest(files, key)
    decreases |files|
  {
    key := files[0].largest;
    if |files| > 1 {
      var rest := LargestKey(files[1..]);
      if Before(key, rest) { key := rest; }
      forall f | f in files ensures !Before(key, f.largest) {
        CompareIsTotalOrder(f.largest, rest, files[0].largest);
        CompareIsTotalOrder(files[0].largest, rest, f.largest);
        CompareIsTotalOrder(rest, files[0].largest, f.largest);
        CompareIsTotalOrder(rest, f.largest, rest);
      }
    } else {
      CompareIsTotalOrder(key, key, key);
    }
  }

  /** The position of the file the next size compaction of a level starts with. */
  ghost predicate NextToCompact(files: Files, pointer: Option<InternalKey>, at: nat) {
    && at < |files|
    && match pointer
       case None => at == 0
       case Some(key) =>
         if Before(key, files[at].largest) then forall j :: 0 <= j < at ==> !Before(key, files[j].largest)
         else at == 0 && forall j :: 0 <= j < |files| ==> !Before(key, files[j].largest)
  }

  /** The first files that together reach the limit, or all of them. */
  ghost predicate EnoughOf(all: Files, inputs: Files, limit: nat) {
    && inputs <= all && inputs != []
    && (|inputs| > 1 ==> SizeBetween(all, 0, |inputs| - 1) < limit)
    && (|inputs| < |all| ==> SizeBetween(all, 0, |inputs|) >= limit)
  }

  /** Level 0 gives all the files of the least range that contains the request and that no file
      straddles; another level gives enough of the files that overlap the range. */
  ghost predicate TakenFromRange(v: Version, maxFileSize: nat, level: nat, begin: Option<UserKey>, end: Option<UserKey>, seed: Files)
    requires level < NUM_LEVELS
  {
    if level > 0 then EnoughOf(OverlappingFiles(v[level], begin, end), seed, maxFileSize)
    else exists lo, hi {:trigger OverlappingFiles(v[0], lo, hi)} ::
      LeastClosedRange(v[0], begin, end, lo, hi) && seed == OverlappingFiles(v[0], lo, hi)
  }

  lemma SubsetTransitive(a: Files, b: Files, c: Files)
    requires Subset(a, b) && Subset(b, c)
    ensures Subset(a, c)
  {
  }

  lemma ExpansionIsSeed(v: Version, level: nat, in0: Files, in1: Files, allStart: InternalKey, allLimit: InternalKey,
                        expanded: Files, lo: Option<UserKey>, hi: Option<UserKey>)
    requires Valid(v) && InputsValid(v, level, in0, in1)
    requires IsSmallest(in0 + in1, allStart) && IsLargest(in0 + in1, allLimit)
    requires expanded == OverlappingFiles(v[level], lo, hi)
    requires level > 0 ==> lo == Some(allStart.user) && hi == Some(allLimit.user)
    requires level == 0 ==> LeastClosedRange(v[0], Some(allStart.user), Some(allLimit.user), lo, hi)
    ensures Seed(v, level, expanded) && Subset(in0, expanded)
  {
    SubsetIsValid(in0, v[level]);
    SubsetIsValid(in1, v[level + 1]);
    RangeSpansUsers(in0 + in1, allStart, allLimit);
    forall f | f in in0 ensures f in expanded {
      assert f in in0 + in1;
    }
    assert in0[0] in expanded;
    if level > 0 {
      OverlappingKeepsOrder(v[level], lo, hi);
      OverlappingIsBlock(v[level], lo, hi);
    }
  }

  // ---------------------------------------------------------------- what a range compaction leaves

  lemma LaterOverlaps(files: Files, seed: Files, begin: Option<UserKey>, end: Option<UserKey>, limit: nat, in0: Files, f: File)
    requires ValidFiles(files) && SortedDisjoint(files) && EnoughOf(OverlappingFiles(files, begin, end), seed, limit)
    requires Subset(seed, in0) && Subset(in0, files) && SortedDisjoint(in0) && Block(files, in0) && in0 != []
    requires f in files && Overlaps(f, begin, end) && f !in in0
    ensures AllAfter(f, in0)
  {
    var all := OverlappingFiles(files, begin, end);
    OverlappingKeepsOrder(files, begin, end);
    assert f in all && seed[0] in in0;
    var j :| 0 <= j < |all| && all[j] == f;
    assert forall k :: 0 <= k < |seed| ==> seed[k] in seed && seed[k] == all[k];
    assert all[0] == seed[0] && Before(all[0].largest, f.smallest);
    if AllBefore(f, in0) {
      assert Before(f.largest, seed[0].smallest);
      FileEnds(f);
      FileEnds(seed[0]);
      CompareIsTotalOrder(f.smallest, f.largest, seed[0].smallest);
      CompareIsTotalOrder(seed[0].largest, f.smallest, seed[0].smallest);
      assert false;
    }
  }

  /** Above level 0 the last input ends at or behind the start of the range, and every file that
      overlaps the range and is no input overlaps what is left behind that end; at level 0 there is
      no such file. */
  lemma RangeGoesOn(v: Version, maxFileSize: nat, level: nat, begin: Option<UserKey>, end: Option<UserKey>, seed: Files, in0: Files)
    requires Valid(v) && level + 1 < NUM_LEVELS && TakenFromRange(v, maxFileSize, level, begin, end, seed)
    requires in0 != [] && Subset(seed, in0) && Subset(in0, v[level]) && SortedBySmallest(in0)
    requires level > 0 ==> SortedDisjoint(in0) && Block(v[level], in0)
    ensures var last := in0[|in0| - 1].largest.user;
      && (level > 0 && begin.Some? ==> begin.value <= last)
      && (level == 0 ==> forall f :: f in v[0] && Overlaps(f, begin, end) ==> f in in0)
      && forall f :: f in v[level] && Overlaps(f, begin, end) && f !in in0 ==> Overlaps(f, Some(last), end)
  {
    var end0 := in0[|in0| - 1];
    assert end0 in in0 && ValidFile(end0);
    FileEnds(end0);
    if level > 0 {
      var files := v[level];
      OverlappingKeepsOrder(files, begin, end);
      assert seed[0] in OverlappingFiles(files, begin, end) && seed[0] in in0;
      var i :| 0 <= i < |in0| && in0[i] == seed[0];
      assert i < |in0| - 1 ==> Before(in0[i].largest, end0.smallest);
      forall f | f in files && Overlaps(f, begin, end) && f !in in0 ensures Overlaps(f, Some(end0.largest.user), end) {
        LaterOverlaps(files, seed, begin, end, maxFileSize, in0, f);
        FileEnds(f);
      }
    } else {
      forall f | f in v[0] && Overlaps(f, begin, end) ensures f in in0 {
        ClosedRangeTakes(v[0], begin, end, seed, f);
      }
    }
  }

  lemma ClosedRangeTakes(files: Files, begin: Option<UserKey>, end: Option<UserKey>, seed: Files, f: File)
    requires exists lo, hi {:trigger OverlappingFiles(files, lo, hi)} :: LeastClosedRange(files, begin, end, lo, hi) && seed == OverlappingFiles(files, lo, hi)
    requires f in files && Overlaps(f, begin, end)
    ensures f in seed
  {
    var lo, hi :| LeastClosedRange(files, begin, end, lo, hi) && seed == OverlappingFiles(files, lo, hi);
  }

  // ---------------------------------------------------------------- the rest at level 0

  const WIDE := File(1, 1, InternalKey(1, 1, TypeValue), InternalKey(6, 2, TypeValue),
                     [Entry(InternalKey(1, 1, TypeValue), ""), Entry(InternalKey(6, 2, TypeValue), "")])
  const NARROW := File(2, 1, InternalKey(2, 3, TypeValue), InternalKey(3, 4, TypeValue),
                       [Entry(InternalKey(2, 3, TypeValue), ""), Entry(InternalKey(3, 4, TypeValue), "")])

  function TwoFiles(): Version { [[WIDE, NARROW], [], [], [], [], [], []] }

  lemma TwoFilesAreWellFormed()
    ensures ValidFile(WIDE) && ValidFile(NARROW) && WellFormed(TwoFiles())
  {
    assert Sorted(WIDE.entries) && Sorted(NARROW.entries);
    assert ValidFile(WIDE) && ValidFile(NARROW);
    var v := TwoFiles();
    forall l | 0 <= l < NUM_LEVELS ensures ValidFiles(v[l]) {
      assert v[l] == if l == 0 then [WIDE, NARROW] else [];
    }
  }

  lemma TwoFilesEntries(e: Entry)
    ensures e in VersionEntries(TwoFiles()) <==> e in WIDE.entries || e in NARROW.entries
  {
    var v := TwoFiles();
    assert WIDE in v[0] && NARROW in v[0];
    if e in VersionEntries(v) {
      var l, f :| 0 <= l < NUM_LEVELS && f in v[l] && e in f.entries;
      assert l == 0;
    }
  }

  lemma TwoFilesAreUnique()
    ensures UniqueSeqnos(VersionEntries(TwoFiles()))
  {
    forall a, b | a in VersionEntries(TwoFiles()) && b in VersionEntries(TwoFiles()) && a.key.user == b.key.user && a.key.seqno == b.key.seqno
      ensures a == b
    {
      TwoFilesEntries(a);
      TwoFilesEntries(b);
    }
  }

  lemma OnlyLevel0(l: nat, f: File)
    requires l < NUM_LEVELS && f in TwoFiles()[l]
    ensures l == 0 && (f == WIDE || f == NARROW)
  {
  }

  lemma TwoFilesAreDistinct()
    ensures DistinctNumbers(TwoFiles())
  {
    var v := TwoFiles();
    forall k, l, f, g | 0 <= k < NUM_LEVELS && 0 <= l < NUM_LEVELS && f in v[k] && g in v[l] && SameNumber(f, g) ensures k == l && f == g {
      OnlyLevel0(k, f);
      OnlyLevel0(l, g);
    }
  }

  lemma LowerLevelsAreEmpty()
    ensures NewestByLevel(TwoFiles())
  {
    assert forall l :: 1 <= l < NUM_LEVELS ==> TwoFiles()[l] == [];
  }

  lemma NarrowIsNewer()
    ensures NewestByNumber(TwoFiles()[0])
  {
    forall f, g | f in TwoFiles()[0] && g in TwoFiles()[0] && f.number > g.number ensures FileNewer(f, g) {
      OnlyLevel0(0, f);
      OnlyLevel0(0, g);
    }
  }

  lemma TwoFilesAreValid()
    ensures Valid(TwoFiles())
  {
    TwoFilesAreWellFormed();
    TwoFilesAreUnique();
    TwoFilesAreDistinct();
    LowerLevelsAreEmpty();
    NarrowIsNewer();
  }

  lemma BothAreTaken()
    ensures OverlappingFiles([WIDE, NARROW], Some(1), Some(9)) == [WIDE, NARROW]
  {
    var files := [WIDE, NARROW];
    assert OverlappingUpTo(files, 0, Some(1), Some(9)) == [];
    assert OverlappingUpTo(files, 1, Some(1), Some(9)) == [WIDE];
  }

  lemma WideForcesRange()
    ensures LeastClosedRange([WIDE, NARROW], Some(5), Some(9), Some(1), Some(9))
  {
    var files := [WIDE, NARROW];
    assert WIDE in files;
    forall lo, hi | ClosedRange(files, lo, hi) && Contains(lo, hi, Some(5), Some(9)) ensures Contains(lo, hi, Some(1), Some(9)) {
      assert Overlaps(WIDE, lo, hi);
    }
  }

  /** At level 0 what is left of a request can begin before the request itself: of the two files that
      the range from 5 to 9 takes in there, the last ends at 3.  Nothing is left to compact then. */
  lemma RestCanBeginEarlier()
    ensures Valid(TwoFiles()) && TakenFromRange(TwoFiles(), 1, 0, Some(5), Some(9), [WIDE, NARROW]) && NARROW.largest.user < 5
  {
    TwoFilesAreValid();
    BothAreTaken();
    WideForcesRange();
  }
}

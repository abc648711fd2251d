/**
 How background work follows the code step by step: where a flushed table goes, which inputs a
 compaction takes and how its outputs are cut (DBImpl::BackgroundCompaction in db/db_impl.cc).
 */
module Background {
  import opened Wrappers
  import opened DbFormat
  import opened Tables
  import opened Versions
  import opened Triggers
  import opened Compactions
  import opened CompactionWork
  import opened History
  import opened Store

  /** Compaction::IsTrivialMove, for compactions that are not asked for by hand. */
  predicate MovesTrivially(plan: Plan, maxFileSize: nat, in0: Files, in1: Files) {
    !plan.cause.ByHand? && |in0| == 1 && in1 == [] && TotalFileSize(plan.grandparents) <= 10 * maxFileSize
  }

  /** The outputs are the merged inputs, cut the way the compaction loop cuts them. */
  ghost predicate CutAsCoded(grandparents: Files, maxFileSize: nat, sizes: Sizes, in0: Files, in1: Files, outputs: Files) {
    Mergeable(in0 + in1) && CuttingOf(grandparents, maxFileSize, sizes, MergeFiles(in0 + in1)).WellCut(outputs)
  }

  /** The step is the one background work makes in this state, under the plan. */
  ghost predicate AsCoded(db: Db, maxFileSize: nat, sizes: Sizes, plan: Plan, step: Step) {
    match step
    case FlushStep(level, f) =>
      && db.imm.Some? && db.imm.value != [] && f == FinishFile(db.nextFileNumber, db.imm.value, sizes)
      && PickedLevel(db.version, maxFileSize, f.smallest.user, f.largest.user, level)
    case FlushEmptyStep => db.imm == Some([])
    case MoveStep(level, f) =>
      Planned(db.version, maxFileSize, level, plan, [f], []) && MovesTrivially(plan, maxFileSize, [f], [])
    case CompactStep(level, in0, in1, outputs) =>
      && Planned(db.version, maxFileSize, level, plan, in0, in1) && !MovesTrivially(plan, maxFileSize, in0, in1)
      && CutAsCoded(plan.grandparents, maxFileSize, sizes, in0, in1, outputs)
    case _ => false
  }

  /** A planned compaction is coded as a move if it is trivial, and else if its outputs are cut as
      they should be. */
  lemma PlannedIsCoded(db: Db, maxFileSize: nat, sizes: Sizes, plan: Plan, level: nat, in0: Files, in1: Files, step: Step)
    requires Planned(db.version, maxFileSize, level, plan, in0, in1)
    requires if MovesTrivially(plan, maxFileSize, in0, in1) then in0 != [] && step == MoveStep(level, in0[0])
             else step.CompactStep? && step.level == level && step.in0 == in0 && step.in1 == in1
                  && CutAsCoded(plan.grandparents, maxFileSize, sizes, in0, in1, step.outputs)
    ensures AsCoded(db, maxFileSize, sizes, plan, step) && LevelOf(step) == Some(level)
  {
    if MovesTrivially(plan, maxFileSize, in0, in1) { assert in0 == [in0[0]]; }
  }

  /** The level a step on the version works on. */
  function LevelOf(step: Step): Option<nat> {
    match step
    case MoveStep(level, _) => Some(level)
    case CompactStep(level, _, _, _) => Some(level)
    case _ => None
  }

  predicate IsBackground(step: Step) {
    step.FlushStep? || step.FlushEmptyStep? || step.MoveStep? || step.CompactStep?
  }

  /** A run whose background steps are all made the way the code makes them. */
  ghost predicate CodedRun(trace: seq<Moment>, steps: seq<Step>, plans: seq<Plan>, maxFileSize: nat, sizes: Sizes) {
    && Run(trace, steps) && |plans| == |steps|
    && forall i {:trigger steps[i]} :: 0 <= i < |steps| && IsBackground(steps[i]) ==>
         AsCoded(trace[i].db, maxFileSize, sizes, plans[i], steps[i])
  }

  lemma ExtendCoded(trace: seq<Moment>, steps: seq<Step>, plans: seq<Plan>, maxFileSize: nat, sizes: Sizes,
                    step: Step, plan: Plan, db: Db, ops: seq<Op>)
    returns (trace': seq<Moment>, steps': seq<Step>, plans': seq<Plan>)
    requires CodedRun(trace, steps, plans, maxFileSize, sizes)
    requires Next(trace[|steps|].db, trace[|steps|].ops, step, db, ops) && Harmless(trace[|steps|].db, step)
    requires IsBackground(step) ==> AsCoded(trace[|steps|].db, maxFileSize, sizes, plan, step)
    ensures CodedRun(trace', steps', plans', maxFileSize, sizes)
    ensures trace'[|steps'|] == Moment(db, ops)
  {
    trace', steps', plans' := trace + [Moment(db, ops)], steps + [step], plans + [plan];
  }

  /** DBImpl::CompactRange reaches a level if a deeper one has files in the range. */
  ghost predicate ReachedByRange(v: Version, level: nat, begin: Option<UserKey>, end: Option<UserKey>) {
    exists l {:trigger v[l]} :: level < l < NUM_LEVELS && !NothingOverlaps(v[l], begin, end)
  }

  /** Each output goes past few grandparents, so that it will not be costly to merge later. */
  lemma OutputsPassFew(grandparents: Files, maxFileSize: nat, sizes: Sizes, in0: Files, in1: Files, outputs: Files)
    requires CutAsCoded(grandparents, maxFileSize, sizes, in0, in1, outputs)
    requires FilesEntries(outputs) <= FilesEntries(in0 + in1)
    ensures forall f :: f in outputs ==> PassesFew(grandparents, maxFileSize, f)
  {
    var input := MergeFiles(in0 + in1);
    forall f | f in outputs ensures PassesFew(grandparents, maxFileSize, f) {
      forall e | e in f.entries ensures e in input {
        assert e in FilesEntries(outputs) && e in Elements(input);
      }
      OutputsPassFewGrandparents(CuttingOf(grandparents, maxFileSize, sizes, input), outputs, f);
    }
  }
}

/**
 Which aggregate status a set of receipts supports.  Everything here is said of the set: neither the order
 in which receipts arrive nor how often one is repeated can matter.
 */
module ClaimRules {
  import opened Options
  import opened StageOrder
  import opened Lifecycle

  type Requirements = map<Stage, Requirement>

  ghost predicate AppliedIn(receipts: set<Receipt>, s: Stage) {
    exists r | r in receipts :: r.stage == s && r.status.Applied?
  }

  /** The required stages with an applied receipt: once satisfied, whatever later attempts report. */
  ghost function Satisfied(required: Requirements, receipts: set<Receipt>): set<Stage> {
    set s | s in required && AppliedIn(receipts, s)
  }

  ghost predicate Latest(receipts: set<Receipt>, r: Receipt) {
    r in receipts && forall o | o in receipts && o.stage == r.stage :: o.attempt <= r.attempt
  }

  /** One attempt of a required stage has one applied receipt or none, and the last attempt of any stage one receipt. */
  ghost predicate NoConflicts(required: Requirements, receipts: set<Receipt>) {
    && (forall r, o | r in receipts && o in receipts && r.stage == o.stage && r.attempt == o.attempt
          && r.stage in required && r.status.Applied? :: r == o)
    && (forall r, o | Latest(receipts, r) && Latest(receipts, o) && r.stage == o.stage :: r == o)
  }

  /** A citation names an applied receipt of its intent, by stage, attempt and effect. */
  ghost predicate CitationHolds(intent: Intent, receipts: set<Receipt>, c: Citation) {
    c.intentId == intent.id &&
    exists o | o in receipts ::
      o.stage == c.stage && o.attempt == c.attempt && o.status.Applied? && o.effectId == c.effectId
  }

  function CitedStages(r: Receipt): set<Stage> {
    set c | c in r.citations :: c.stage
  }

  function StageSet(stages: seq<Stage>): set<Stage> {
    set s | s in stages
  }

  /** The evidence an applied receipt of a required stage must carry. */
  ghost predicate ApplicationSupported(intent: Intent, required: Requirements, receipts: set<Receipt>, r: Receipt)
    requires r.stage in required
  {
    var q := required[r.stage];
    && SourceSetsMatch(ExpectedInputs(intent, q, required), r.applied)
    && SourceSetsMatch(q.committed, r.committed)
    && |r.outputs| >= q.minimumOutputs
    && (forall u | u in q.upstream :: AppliedIn(receipts, u))
    && (r.applied != [] || q.noSourceWitness)
    && CitedStages(r) == StageSet(q.upstream)
    && (forall c | c in r.citations :: CitationHolds(intent, receipts, c))
  }

  /** Two applied receipts of one stage report the same results. */
  ghost predicate SameResults(r: Receipt, o: Receipt) {
    && Sources(r.applied) == Sources(o.applied)
    && Sources(r.committed) == Sources(o.committed)
    && References(r.outputs) == References(o.outputs)
  }

  ghost predicate ApplicationsSupported(intent: Intent, required: Requirements, receipts: set<Receipt>) {
    && (forall r | r in receipts && r.status.Applied? && r.stage in required ::
          ApplicationSupported(intent, required, receipts, r))
    && (forall r, o | r in receipts && o in receipts && r.status.Applied? && o.status.Applied?
          && r.stage == o.stage && r.stage in required :: SameResults(r, o))
  }

  /** The receipts a claim can be judged on. */
  ghost predicate Consistent(intent: Intent, receipts: set<Receipt>) {
    var required := ByStage(intent.requirements);
    && ValidInputs(intent, receipts)
    && NoConflicts(required, receipts)
    && ApplicationsSupported(intent, required, receipts)
  }

  // ---------------------------------------------------------------- the aggregate

  ghost predicate Unsatisfied(required: Requirements, receipts: set<Receipt>, s: Stage) {
    s in required && !AppliedIn(receipts, s)
  }

  /** A required stage without an applied receipt whose last attempt, if any, has not settled. */
  ghost predicate UnfinishedStage(required: Requirements, receipts: set<Receipt>, s: Stage) {
    Unsatisfied(required, receipts, s) &&
    forall r | Latest(receipts, r) && r.stage == s :: r.status.Pending? || r.status.Processing?
  }

  ghost predicate Unfinished(required: Requirements, receipts: set<Receipt>) {
    exists s :: UnfinishedStage(required, receipts, s)
  }

  /** An unsatisfied required stage whose last attempt has the given status. */
  ghost predicate EndedAs(required: Requirements, receipts: set<Receipt>, status: StageStatus) {
    exists r | Latest(receipts, r) :: Unsatisfied(required, receipts, r.stage) && r.status == status
  }

  /** Evidence that required work started: a start time on any receipt, or a last attempt past pending. */
  ghost predicate Started(required: Requirements, receipts: set<Receipt>) {
    || (exists r | r in receipts :: r.stage in required && r.startedAt.Some?)
    || (exists r | Latest(receipts, r) :: Unsatisfied(required, receipts, r.stage) && !r.status.Pending?)
  }

  /** The single aggregate of settled stages. */
  function SettledAggregate(
    satisfied: bool, anyApplied: bool, failed: bool, cancelled: bool, superseded: bool): (s: IntentStatus)
    ensures s.ClaimApplied? <==> satisfied
    ensures s.ClaimPartial? <==> !satisfied && (anyApplied || !(failed || cancelled || superseded))
    ensures s.ClaimFailed? ==> failed && !anyApplied
    ensures s.ClaimCancelled? ==> cancelled && !failed && !anyApplied
    ensures s.ClaimSuperseded? ==> superseded && !failed && !cancelled && !anyApplied
    ensures !s.ClaimAccepted? && !s.ClaimProcessing?
  {
    if satisfied then ClaimApplied
    else if anyApplied then ClaimPartial
    else if failed then ClaimFailed
    else if cancelled then ClaimCancelled
    else if superseded then ClaimSuperseded
    else ClaimPartial
  }

  ghost function Aggregate(required: Requirements, receipts: set<Receipt>): IntentStatus {
    SettledAggregate(
      Satisfied(required, receipts) == required.Keys,
      Satisfied(required, receipts) != {},
      EndedAs(required, receipts, Failed),
      EndedAs(required, receipts, Cancelled),
      EndedAs(required, receipts, Superseded))
  }

  /** Whether consistent receipts support the claimed status. */
  ghost predicate Supports(intent: Intent, receipts: set<Receipt>, claim: IntentStatus) {
    var required := ByStage(intent.requirements);
    match claim
    case ClaimAccepted => !Started(required, receipts)
    case ClaimProcessing => Started(required, receipts) && Unfinished(required, receipts)
    case _ => !Unfinished(required, receipts) && claim == Aggregate(required, receipts)
  }

  ghost predicate Accepted(intent: Intent, receipts: set<Receipt>, claim: IntentStatus) {
    Consistent(intent, receipts) && Supports(intent, receipts, claim)
  }
}

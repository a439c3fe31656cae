/** The decision whether a set of stage receipts supports a claimed aggregate status. */
module ClaimChecker {
  import opened Options
  import opened StageOrder
  import opened Lifecycle
  import opened ClaimRules
  import opened Validators

  datatype ClaimResult = Supported | InvalidInput | ConflictingReceipts | UnsupportedApplication | ClaimMismatch

  type Attempt = (Stage, nat)

  function Elements(receipts: seq<Receipt>): set<Receipt> {
    set r | r in receipts
  }

  method CheckIntent(intent: Intent) returns (valid: bool)
    ensures valid <==> ValidIntent(intent)
  {
    valid := CheckWellFormed(intent);
    if valid {
      UpstreamsClosed(intent);
      hide WellFormed;
      var order;
      valid, order := TopologicalStages(UpstreamsOf(ByStage(intent.requirements)));
    }
  }

  lemma UpstreamsClosed(intent: Intent)
    requires WellFormed(intent)
    ensures Closed(UpstreamsOf(ByStage(intent.requirements)))
  {
  }

  method CheckInputs(intent: Intent, receipts: seq<Receipt>) returns (valid: bool)
    ensures valid <==> ValidInputs(intent, Elements(receipts))
  {
    hide ValidReceipt, BelongsTo, ValidIntent;
    valid := CheckIntent(intent);
    if !valid {
      return;
    }
    for k := 0 to |receipts|
      invariant forall i | 0 <= i < k :: ValidReceipt(receipts[i]) && BelongsTo(intent, receipts[i])
    {
      valid := CheckReceipt(receipts[k]);
      if valid {
        valid := CheckBelongs(intent, receipts[k]);
      }
      if !valid {
        assert receipts[k] in Elements(receipts);
        return;
      }
    }
    valid := true;
  }

  /** The greatest attempt reported for each stage. */
  method LatestAttempts(receipts: seq<Receipt>) returns (latest: map<Stage, nat>)
    ensures forall i | 0 <= i < |receipts| ::
              receipts[i].stage in latest && receipts[i].attempt <= latest[receipts[i].stage]
    ensures forall s | s in latest :: exists i | 0 <= i < |receipts| ::
              receipts[i].stage == s && receipts[i].attempt == latest[s]
  {
    latest := map[];
    for k := 0 to |receipts|
      invariant forall i | 0 <= i < k ::
                  receipts[i].stage in latest && receipts[i].attempt <= latest[receipts[i].stage]
      invariant forall s | s in latest :: exists i | 0 <= i < k ::
                  receipts[i].stage == s && receipts[i].attempt == latest[s]
    {
      var r := receipts[k];
      if r.stage !in latest || r.attempt > latest[r.stage] {
        latest := latest[r.stage := r.attempt];
      }
    }
  }

  /** What the index of attempts says about the first `k` receipts. */
  ghost predicate AttemptsIndexed(required: Requirements, receipts: seq<Receipt>, k: nat, attempts: map<Attempt, Receipt>)
    requires k <= |receipts|
  {
    && (forall key | key in attempts ::
          attempts[key] in receipts[..k] && key == (attempts[key].stage, attempts[key].attempt) && key.0 in required)
    && (forall i | 0 <= i < k && receipts[i].stage in required ::
          var key := (receipts[i].stage, receipts[i].attempt);
          && key in attempts
          && (receipts[i] == attempts[key] || (!receipts[i].status.Applied? && !attempts[key].status.Applied?)))
  }

  ghost predicate LatestIndexed(
    greatest: map<Stage, nat>, receipts: seq<Receipt>, k: nat, latest: map<Stage, Receipt>)
    requires k <= |receipts|
  {
    && (forall s | s in latest ::
          latest[s] in receipts[..k] && latest[s].stage == s && s in greatest && latest[s].attempt == greatest[s])
    && (forall i | 0 <= i < k && receipts[i].stage in greatest && receipts[i].attempt == greatest[receipts[i].stage] ::
          receipts[i].stage in latest && latest[receipts[i].stage] == receipts[i])
  }

  function AttemptOf(r: Receipt): Attempt {
    (r.stage, r.attempt)
  }

  /** Another receipt of an indexed attempt, where one of the two is applied. */
  predicate ConflictsWith(attempts: map<Attempt, Receipt>, r: Receipt) {
    && AttemptOf(r) in attempts
    && r != attempts[AttemptOf(r)]
    && (r.status.Applied? || attempts[AttemptOf(r)].status.Applied?)
  }

  lemma AttemptIndexed(required: Requirements, receipts: seq<Receipt>, k: nat, attempts: map<Attempt, Receipt>)
    requires k < |receipts| && AttemptsIndexed(required, receipts, k, attempts)
    ensures var r := receipts[k];
            if r.stage in required && AttemptOf(r) !in attempts
            then AttemptsIndexed(required, receipts, k + 1, attempts[AttemptOf(r) := r])
            else (r.stage in required && ConflictsWith(attempts, r))
                 || AttemptsIndexed(required, receipts, k + 1, attempts)
  {
    assert receipts[..k + 1] == receipts[..k] + [receipts[k]];
  }

  lemma LatestReceiptIndexed(
    greatest: map<Stage, nat>, receipts: seq<Receipt>, k: nat, latest: map<Stage, Receipt>)
    requires k < |receipts| && LatestIndexed(greatest, receipts, k, latest) && receipts[k].stage in greatest
    ensures var r := receipts[k];
            if r.attempt == greatest[r.stage] && r.stage !in latest
            then LatestIndexed(greatest, receipts, k + 1, latest[r.stage := r])
            else (r.attempt == greatest[r.stage] && r != latest[r.stage])
                 || LatestIndexed(greatest, receipts, k + 1, latest)
  {
    assert receipts[..k + 1] == receipts[..k] + [receipts[k]];
  }

  /** Index the receipts by attempt and by last attempt, or find two that conflict. */
  method IndexReceipts(required: Requirements, receipts: seq<Receipt>)
    returns (conflict: bool, latest: map<Stage, Receipt>, attempts: map<Attempt, Receipt>)
    ensures conflict <==> !NoConflicts(required, Elements(receipts))
    ensures !conflict ==> AttemptsIndexed(required, receipts, |receipts|, attempts)
    ensures !conflict ==> forall r | r in receipts :: r.stage in latest
    ensures !conflict ==> forall s | s in latest :: latest[s].stage == s && Latest(Elements(receipts), latest[s])
  {
    var greatest := LatestAttempts(receipts);
    latest, attempts := map[], map[];
    for k := 0 to |receipts|
      invariant AttemptsIndexed(required, receipts, k, attempts)
      invariant LatestIndexed(greatest, receipts, k, latest)
    {
      var r := receipts[k];
      AttemptIndexed(required, receipts, k, attempts);
      LatestReceiptIndexed(greatest, receipts, k, latest);
      if r.stage in required {
        if AttemptOf(r) !in attempts {
          attempts := attempts[AttemptOf(r) := r];
        } else if ConflictsWith(attempts, r) {
          AttemptsConflict(required, receipts, r, attempts[AttemptOf(r)]);
          return true, latest, attempts;
        }
      }
      if r.attempt == greatest[r.stage] {
        if r.stage !in latest {
          latest := latest[r.stage := r];
        } else if r != latest[r.stage] {
          LatestConflict(required, receipts, r, latest[r.stage]);
          return true, latest, attempts;
        }
      }
    }
    conflict := false;
    IndexedHasNoConflict(required, receipts, greatest, latest, attempts);
  }

  lemma AttemptsConflict(required: Requirements, receipts: seq<Receipt>, r: Receipt, o: Receipt)
    requires r in receipts && o in receipts && r.stage in required && AttemptOf(r) == AttemptOf(o)
    requires r != o && (r.status.Applied? || o.status.Applied?)
    ensures !NoConflicts(required, Elements(receipts))
  {
    assert r in Elements(receipts) && o in Elements(receipts);
  }

  lemma LatestConflict(required: Requirements, receipts: seq<Receipt>, r: Receipt, o: Receipt)
    requires r in receipts && o in receipts && r != o && r.stage == o.stage && r.attempt == o.attempt
    requires forall k | 0 <= k < |receipts| && receipts[k].stage == r.stage :: receipts[k].attempt <= r.attempt
    ensures !NoConflicts(required, Elements(receipts))
  {
    assert Latest(Elements(receipts), r) && Latest(Elements(receipts), o);
  }

  lemma IndexedHasNoConflict(
    required: Requirements, receipts: seq<Receipt>, greatest: map<Stage, nat>,
    latest: map<Stage, Receipt>, attempts: map<Attempt, Receipt>)
    requires AttemptsIndexed(required, receipts, |receipts|, attempts)
    requires LatestIndexed(greatest, receipts, |receipts|, latest)
    requires forall i | 0 <= i < |receipts| ::
               receipts[i].stage in greatest && receipts[i].attempt <= greatest[receipts[i].stage]
    requires forall s | s in greatest :: exists i | 0 <= i < |receipts| ::
               receipts[i].stage == s && receipts[i].attempt == greatest[s]
    ensures NoConflicts(required, Elements(receipts))
    ensures forall r | r in receipts :: r.stage in latest
    ensures forall s | s in latest :: latest[s].stage == s && Latest(Elements(receipts), latest[s])
  {
    forall r | Latest(Elements(receipts), r) ensures r.stage in latest && latest[r.stage] == r {
      var i :| 0 <= i < |receipts| && receipts[i].stage == r.stage && receipts[i].attempt == greatest[r.stage];
      assert receipts[i] in Elements(receipts);
      var k :| 0 <= k < |receipts| && receipts[k] == r;
    }
    forall r, o | r in Elements(receipts) && o in Elements(receipts) && r.stage == o.stage && r.attempt == o.attempt
                  && r.stage in required && r.status.Applied?
      ensures r == o
    {
      var i :| 0 <= i < |receipts| && receipts[i] == r;
      var k :| 0 <= k < |receipts| && receipts[k] == o;
    }
    forall r | r in receipts ensures r.stage in latest {
      var i :| 0 <= i < |receipts| && receipts[i].stage == r.stage && receipts[i].attempt == greatest[r.stage];
    }
  }

  // ---------------------------------------------------------------- applied receipts, in topological order

  /** The indexed receipt of the cited attempt is applied, with the cited effect. */
  predicate CitationIndexed(intent: Intent, attempts: map<Attempt, Receipt>, c: Citation) {
    && c.intentId == intent.id
    && (c.stage, c.attempt) in attempts
    && attempts[(c.stage, c.attempt)].status.Applied?
    && attempts[(c.stage, c.attempt)].effectId == c.effectId
  }

  /** The receipt indexed for an attempt stands for every applied receipt of it. */
  lemma CitationLookup(
    intent: Intent, required: Requirements, receipts: seq<Receipt>, attempts: map<Attempt, Receipt>, c: Citation)
    requires AttemptsIndexed(required, receipts, |receipts|, attempts) && c.stage in required
    ensures CitationHolds(intent, Elements(receipts), c) <==> CitationIndexed(intent, attempts, c)
  {
    if CitationHolds(intent, Elements(receipts), c) {
      var o :| o in Elements(receipts) && o.stage == c.stage && o.attempt == c.attempt
               && o.status.Applied? && o.effectId == c.effectId;
      var i :| 0 <= i < |receipts| && receipts[i] == o;
    }
    if (c.stage, c.attempt) in attempts {
      assert attempts[(c.stage, c.attempt)] in Elements(receipts);
    }
  }

  method CheckCitations(
    intent: Intent, required: Requirements, receipts: seq<Receipt>, attempts: map<Attempt, Receipt>,
    citations: seq<Citation>)
    returns (ok: bool)
    requires AttemptsIndexed(required, receipts, |receipts|, attempts)
    requires forall c | c in citations :: c.stage in required
    ensures ok <==> forall c | c in citations :: CitationHolds(intent, Elements(receipts), c)
  {
    forall c | c in citations
      ensures CitationHolds(intent, Elements(receipts), c) <==> CitationIndexed(intent, attempts, c)
    {
      CitationLookup(intent, required, receipts, attempts, c);
    }
    ok := true;
    for k := 0 to |citations|
      invariant ok <==> forall i | 0 <= i < k :: CitationIndexed(intent, attempts, citations[i])
    {
      ok := ok && CitationIndexed(intent, attempts, citations[k]);
    }
  }

  /** Whether one applied receipt carries the evidence its requirement asks for. */
  method CheckApplication(
    intent: Intent, required: Requirements, receipts: seq<Receipt>, attempts: map<Attempt, Receipt>,
    satisfied: set<Stage>, r: Receipt)
    returns (ok: bool)
    requires AttemptsIndexed(required, receipts, |receipts|, attempts)
    requires r.stage in required && UpstreamsSettled(required, Elements(receipts), satisfied, r.stage)
    ensures ok <==> ApplicationSupported(intent, required, Elements(receipts), r)
  {
    var q := required[r.stage];
    if !SourceSetsMatch(ExpectedInputs(intent, q, required), r.applied)
       || !SourceSetsMatch(q.committed, r.committed)
       || |r.outputs| < q.minimumOutputs {
      return false;
    }
    if !(StageSet(q.upstream) <= satisfied) {
      ghost var u :| u in StageSet(q.upstream) && u !in satisfied;
      assert u in q.upstream;
      return false;
    }
    if r.applied == [] && !q.noSourceWitness {
      return false;
    }
    if CitedStages(r) != StageSet(q.upstream) {
      return false;
    }
    assert forall u | u in q.upstream :: u in StageSet(q.upstream);
    assert forall c | c in r.citations :: c.stage in CitedStages(r);
    ok := CheckCitations(intent, required, receipts, attempts, r.citations);
  }

  /** The upstreams of `s` are required, and known satisfied exactly when one of their receipts is applied. */
  ghost predicate UpstreamsSettled(required: Requirements, receipts: set<Receipt>, satisfied: set<Stage>, s: Stage)
    requires s in required
  {
    forall u | u in required[s].upstream :: u in required && (u in satisfied <==> AppliedIn(receipts, u))
  }

  /** Whether two applied receipts report the same result sets. */
  method AgreeOnResults(first: Receipt, r: Receipt) returns (same: bool)
    requires ValidReceipt(first) && ValidReceipt(r)
    ensures same <==> SameResults(first, r)
  {
    same := SourceSetsMatch(first.applied, r.applied)
         && SourceSetsMatch(first.committed, r.committed)
         && ReferenceSetsMatch(first.outputs, r.outputs);
    SourceSetsMatchMeaning(first.applied, r.applied);
    SourceSetsMatchMeaning(first.committed, r.committed);
    ReferenceSetsMatchMeaning(first.outputs, r.outputs);
  }

  /** The applied receipts of each required stage, in the order reported. */
  method AppliedByStage(required: Requirements, receipts: seq<Receipt>) returns (applied: map<Stage, seq<Receipt>>)
    ensures applied.Keys == required.Keys
    ensures forall s, r | s in applied ::
              r in applied[s] <==> r in receipts && r.status.Applied? && r.stage == s
  {
    applied := map s | s in required :: [];
    for k := 0 to |receipts|
      invariant applied.Keys == required.Keys
      invariant forall s, r | s in applied ::
                  r in applied[s] <==> r in receipts[..k] && r.status.Applied? && r.stage == s
    {
      var r := receipts[k];
      assert receipts[..k + 1] == receipts[..k] + [r];
      if r.stage in required && r.status.Applied? {
        applied := applied[r.stage := applied[r.stage] + [r]];
      }
    }
    assert receipts[..|receipts|] == receipts;
  }

  /** What is settled about one stage: each applied receipt is supported and all agree. */
  ghost predicate StageSupported(intent: Intent, required: Requirements, receipts: set<Receipt>, s: Stage)
    requires s in required
  {
    && (forall r | r in receipts && r.status.Applied? && r.stage == s ::
          ApplicationSupported(intent, required, receipts, r))
    && (forall r, o | r in receipts && o in receipts && r.status.Applied? && o.status.Applied?
          && r.stage == s && o.stage == s :: SameResults(r, o))
  }

  method AllSupported(
    intent: Intent, required: Requirements, receipts: seq<Receipt>, attempts: map<Attempt, Receipt>,
    satisfied: set<Stage>, s: Stage, applications: seq<Receipt>)
    returns (ok: bool)
    requires AttemptsIndexed(required, receipts, |receipts|, attempts)
    requires s in required && UpstreamsSettled(required, Elements(receipts), satisfied, s)
    requires forall k | 0 <= k < |applications| :: applications[k].stage == s
    ensures ok <==> forall k | 0 <= k < |applications| ::
              ApplicationSupported(intent, required, Elements(receipts), applications[k])
  {
    hide ApplicationSupported, AttemptsIndexed, UpstreamsSettled;
    for k := 0 to |applications|
      invariant forall i | 0 <= i < k ::
                  ApplicationSupported(intent, required, Elements(receipts), applications[i])
    {
      ok := CheckApplication(intent, required, receipts, attempts, satisfied, applications[k]);
      if !ok {
        return;
      }
    }
    return true;
  }

  method CheckStage(
    intent: Intent, required: Requirements, receipts: seq<Receipt>, attempts: map<Attempt, Receipt>,
    satisfied: set<Stage>, s: Stage, applications: seq<Receipt>)
    returns (ok: bool)
    requires AttemptsIndexed(required, receipts, |receipts|, attempts)
    requires forall r | r in receipts :: ValidReceipt(r)
    requires s in required && UpstreamsSettled(required, Elements(receipts), satisfied, s)
    requires forall r :: r in applications <==> r in Elements(receipts) && r.status.Applied? && r.stage == s
    ensures ok <==> StageSupported(intent, required, Elements(receipts), s)
  {
    assert forall k | 0 <= k < |applications| :: applications[k] in applications;
    ok := AllSupported(intent, required, receipts, attempts, satisfied, s, applications);
    if ok && applications != [] {
      ok := AllAgree(applications);
    }
  }

  method AllAgree(applications: seq<Receipt>) returns (same: bool)
    requires applications != [] && forall r | r in applications :: ValidReceipt(r)
    ensures same <==> forall r, o | r in applications && o in applications :: SameResults(r, o)
  {
    for k := 1 to |applications|
      invariant forall i | 0 <= i < k :: SameResults(applications[0], applications[i])
    {
      same := AgreeOnResults(applications[0], applications[k]);
      if !same {
        return;
      }
    }
    return true;
  }

  /** Judge every required stage after its upstreams, collecting the satisfied ones. */
  method CheckApplications(
    intent: Intent, required: Requirements, receipts: seq<Receipt>, attempts: map<Attempt, Receipt>)
    returns (ok: bool, satisfied: set<Stage>)
    requires AttemptsIndexed(required, receipts, |receipts|, attempts)
    requires forall r | r in receipts :: ValidReceipt(r)
    requires Closed(UpstreamsOf(required)) && Acyclic(UpstreamsOf(required))
    ensures ok <==> ApplicationsSupported(intent, required, Elements(receipts))
    ensures ok ==> satisfied == Satisfied(required, Elements(receipts))
  {
    hide StageSupported, AttemptsIndexed, SatisfiedBefore, Ordered, ApplicationsSupported, UpstreamsSettled;
    var applied := AppliedByStage(required, receipts);
    var acyclic, order := TopologicalStages(UpstreamsOf(required));
    satisfied := {};
    NoneBefore(Elements(receipts), order);
    for k := 0 to |order|
      invariant SatisfiedBefore(Elements(receipts), order, k, satisfied)
      invariant forall i | 0 <= i < k :: StageSupported(intent, required, Elements(receipts), order[i])
    {
      var s := order[k];
      assert s in order;
      UpstreamsBefore(required, Elements(receipts), satisfied, order, k);
      ok := CheckStage(intent, required, receipts, attempts, satisfied, s, applied[s]);
      if !ok {
        StageUnsupported(intent, required, Elements(receipts), s);
        return;
      }
      OneMoreBefore(Elements(receipts), order, k, satisfied, applied[s]);
      if applied[s] != [] {
        satisfied := satisfied + {s};
      }
    }
    ok := true;
    AllBefore(required, Elements(receipts), order, satisfied);
    AllStagesSupported(intent, required, Elements(receipts), order);
  }

  /** Of the first `k` stages, exactly the applied ones are collected. */
  ghost predicate SatisfiedBefore(receipts: set<Receipt>, order: seq<Stage>, k: nat, satisfied: set<Stage>)
    requires k <= |order|
  {
    forall s :: s in satisfied <==> s in order[..k] && AppliedIn(receipts, s)
  }

  lemma NoneBefore(receipts: set<Receipt>, order: seq<Stage>)
    ensures SatisfiedBefore(receipts, order, 0, {})
  {
  }

  lemma OneMoreBefore(
    receipts: set<Receipt>, order: seq<Stage>, k: nat, satisfied: set<Stage>, applications: seq<Receipt>)
    requires k < |order| && SatisfiedBefore(receipts, order, k, satisfied)
    requires forall r :: r in applications <==> r in receipts && r.status.Applied? && r.stage == order[k]
    ensures SatisfiedBefore(receipts, order, k + 1,
                            if applications != [] then satisfied + {order[k]} else satisfied)
  {
    assert order[..k + 1] == order[..k] + [order[k]];
    assert applications != [] ==> applications[0] in applications;
  }

  lemma AllBefore(required: Requirements, receipts: set<Receipt>, order: seq<Stage>, satisfied: set<Stage>)
    requires SatisfiedBefore(receipts, order, |order|, satisfied)
    requires forall s :: s in order <==> s in UpstreamsOf(required)
    ensures satisfied == Satisfied(required, receipts)
  {
    assert order[..|order|] == order;
  }

  /** In a topological order, what comes before a stage settles its upstreams. */
  lemma UpstreamsBefore(required: Requirements, receipts: set<Receipt>, satisfied: set<Stage>, order: seq<Stage>, k: nat)
    requires k < |order| && Ordered(UpstreamsOf(required), order) && order[k] in required
    requires Closed(UpstreamsOf(required)) && SatisfiedBefore(receipts, order, k, satisfied)
    ensures UpstreamsSettled(required, receipts, satisfied, order[k])
  {
    forall u | u in required[order[k]].upstream ensures u in order[..k] && u in required {
      assert u in UpstreamsOf(required)[order[k]];
    }
  }

  lemma StageUnsupported(intent: Intent, required: Requirements, receipts: set<Receipt>, s: Stage)
    requires s in required && !StageSupported(intent, required, receipts, s)
    ensures !ApplicationsSupported(intent, required, receipts)
  {
    hide ApplicationSupported, SameResults;
  }

  lemma AllStagesSupported(intent: Intent, required: Requirements, receipts: set<Receipt>, order: seq<Stage>)
    requires forall s | s in required :: s in order
    requires forall i | 0 <= i < |order| :: order[i] in required && StageSupported(intent, required, receipts, order[i])
    ensures ApplicationsSupported(intent, required, receipts)
  {
    forall s | s in required ensures StageSupported(intent, required, receipts, s) {
      var i :| 0 <= i < |order| && order[i] == s;
    }
  }

  // ---------------------------------------------------------------- the claim

  /** Required stages with evidence of started work. */
  function StartedStages(
    required: Requirements, receipts: seq<Receipt>, latest: map<Stage, Receipt>, unsatisfied: set<Stage>): set<Stage>
  {
    (set r | r in receipts && r.stage in required && r.startedAt.Some? :: r.stage)
    + (set s | s in unsatisfied && s in latest && !latest[s].status.Pending?)
  }

  predicate AnyUnfinished(latest: map<Stage, Receipt>, unsatisfied: set<Stage>) {
    exists s | s in unsatisfied :: s !in latest || latest[s].status.Pending? || latest[s].status.Processing?
  }

  function Statuses(latest: map<Stage, Receipt>, unsatisfied: set<Stage>): set<StageStatus> {
    set s | s in unsatisfied && s in latest :: latest[s].status
  }

  /** Judge the claim on the last receipt of every stage not satisfied. */
  method Decide(
    claim: IntentStatus, intent: Intent, receipts: seq<Receipt>, latest: map<Stage, Receipt>, satisfied: set<Stage>)
    returns (ok: bool)
    requires NoConflicts(ByStage(intent.requirements), Elements(receipts))
    requires forall r | r in receipts :: r.stage in latest
    requires forall s | s in latest :: latest[s].stage == s && Latest(Elements(receipts), latest[s])
    requires satisfied == Satisfied(ByStage(intent.requirements), Elements(receipts))
    ensures ok <==> Supports(intent, Elements(receipts), claim)
  {
    var required := ByStage(intent.requirements);
    var unsatisfied := required.Keys - satisfied;
    hide Latest, NoConflicts, Started, Unfinished, EndedAs, Satisfied, StartedStages, AnyUnfinished, Statuses;
    LatestIs(required, Elements(receipts), latest);
    StartedMeaning(required, receipts, latest, unsatisfied);
    UnfinishedMeaning(required, Elements(receipts), latest, unsatisfied);
    StatusesMeaning(required, Elements(receipts), latest, unsatisfied);
    var started := StartedStages(required, receipts, latest, unsatisfied);
    var unfinished := AnyUnfinished(latest, unsatisfied);
    var statuses := Statuses(latest, unsatisfied);
    match claim
    case ClaimAccepted =>
      ok := started == {};
    case ClaimProcessing =>
      ok := started != {} && unfinished;
    case _ =>
      ok := !unfinished && claim == SettledAggregate(
              satisfied == required.Keys, satisfied != {},
              Failed in statuses, Cancelled in statuses, Superseded in statuses);
  }

  /** The index holds the last receipt of each stage, and there is only one. */
  lemma LatestIs(required: Requirements, receipts: set<Receipt>, latest: map<Stage, Receipt>)
    requires NoConflicts(required, receipts)
    requires forall r | r in receipts :: r.stage in latest
    requires forall s | s in latest :: latest[s].stage == s && Latest(receipts, latest[s])
    ensures forall r :: Latest(receipts, r) <==> r.stage in latest && latest[r.stage] == r
  {
  }

  lemma StartedMeaning(
    required: Requirements, receipts: seq<Receipt>, latest: map<Stage, Receipt>, unsatisfied: set<Stage>)
    requires forall r :: Latest(Elements(receipts), r) <==> r.stage in latest && latest[r.stage] == r
    requires forall s | s in latest :: latest[s].stage == s
    requires unsatisfied == required.Keys - Satisfied(required, Elements(receipts))
    ensures StartedStages(required, receipts, latest, unsatisfied) != {} <==> Started(required, Elements(receipts))
  {
    var started := StartedStages(required, receipts, latest, unsatisfied);
    if started != {} {
      var s :| s in started;
      if s in unsatisfied && s in latest && !latest[s].status.Pending? {
        assert Latest(Elements(receipts), latest[s]) && Unsatisfied(required, Elements(receipts), s);
      } else {
        var r :| r in receipts && r.stage in required && r.startedAt.Some? && r.stage == s;
        assert r in Elements(receipts);
      }
    }
    if Started(required, Elements(receipts)) {
      if r :| r in Elements(receipts) && r.stage in required && r.startedAt.Some? {
        assert r.stage in started;
      } else {
        var r :| Latest(Elements(receipts), r) && Unsatisfied(required, Elements(receipts), r.stage) && !r.status.Pending?;
        assert r.stage in started;
      }
    }
  }

  lemma UnfinishedMeaning(
    required: Requirements, receipts: set<Receipt>, latest: map<Stage, Receipt>, unsatisfied: set<Stage>)
    requires forall r :: Latest(receipts, r) <==> r.stage in latest && latest[r.stage] == r
    requires forall s | s in latest :: latest[s].stage == s
    requires unsatisfied == required.Keys - Satisfied(required, receipts)
    ensures AnyUnfinished(latest, unsatisfied) <==> Unfinished(required, receipts)
  {
    if s :| s in unsatisfied && (s !in latest || latest[s].status.Pending? || latest[s].status.Processing?) {
      assert UnfinishedStage(required, receipts, s);
    }
    if s :| UnfinishedStage(required, receipts, s) {
      assert s in unsatisfied;
      if s in latest { assert Latest(receipts, latest[s]); }
    }
  }

  lemma StatusesMeaning(
    required: Requirements, receipts: set<Receipt>, latest: map<Stage, Receipt>, unsatisfied: set<Stage>)
    requires forall r :: Latest(receipts, r) <==> r.stage in latest && latest[r.stage] == r
    requires forall s | s in latest :: latest[s].stage == s
    requires unsatisfied == required.Keys - Satisfied(required, receipts)
    ensures forall status :: status in Statuses(latest, unsatisfied) <==> EndedAs(required, receipts, status)
  {
    forall status | status in Statuses(latest, unsatisfied) ensures EndedAs(required, receipts, status) {
      var s :| s in unsatisfied && s in latest && latest[s].status == status;
      assert Latest(receipts, latest[s]) && Unsatisfied(required, receipts, latest[s].stage);
    }
    forall status | EndedAs(required, receipts, status) ensures status in Statuses(latest, unsatisfied) {
      var r :| Latest(receipts, r) && Unsatisfied(required, receipts, r.stage) && r.status == status;
      assert r.stage in unsatisfied;
    }
  }

  /**
   Reject aggregate claims the receipts do not support.  The verdict is a function of the set of receipts
   alone, down to which of the four stages of the decision refuses it.
   */
  method ValidateRequiredStageClaim(claim: IntentStatus, intent: Intent, receipts: seq<Receipt>)
    returns (result: ClaimResult)
    ensures result.Supported? <==> Accepted(intent, Elements(receipts), claim)
    ensures result.InvalidInput? <==> !ValidInputs(intent, Elements(receipts))
    ensures result.ConflictingReceipts? <==>
              ValidInputs(intent, Elements(receipts))
              && !NoConflicts(ByStage(intent.requirements), Elements(receipts))
    ensures result.ClaimMismatch? <==>
              Consistent(intent, Elements(receipts)) && !Supports(intent, Elements(receipts), claim)
  {
    var valid := CheckInputs(intent, receipts);
    if !valid {
      return InvalidInput;
    }
    var required := ByStage(intent.requirements);
    var conflict, latest, attempts := IndexReceipts(required, receipts);
    if conflict {
      return ConflictingReceipts;
    }
    forall r | r in receipts ensures ValidReceipt(r) {
      assert r in Elements(receipts);
    }
    var ok, satisfied := CheckApplications(intent, required, receipts, attempts);
    if !ok {
      return UnsupportedApplication;
    }
    ok := Decide(claim, intent, receipts, latest, satisfied);
    return if ok then Supported else ClaimMismatch;
  }
}

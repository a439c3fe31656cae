/** What the claim rules guarantee over every receipt history: one verdict, causality, growth. */
module ClaimTheorems {
  import opened Options
  import opened StageOrder
  import opened Lifecycle
  import opened ClaimRules
  import opened ClaimChecker

  // ---------------------------------------------------------------- order and repetition

  /** Reordering receipts, or reporting one that is there again, changes no verdict. */
  lemma VerdictIgnoresOrderAndCopies(claim: IntentStatus, intent: Intent, receipts: seq<Receipt>, other: seq<Receipt>)
    requires multiset(receipts) <= multiset(other)
    requires forall r | r in other :: r in receipts
    ensures Accepted(intent, Elements(receipts), claim) <==> Accepted(intent, Elements(other), claim)
  {
    forall r | r in receipts ensures r in other {
      assert r in multiset(receipts) && r in multiset(other);
    }
    assert Elements(receipts) == Elements(other);
  }

  // ---------------------------------------------------------------- exactly one status

  lemma AppliedHasStarted(intent: Intent, receipts: set<Receipt>, s: Stage)
    requires ValidInputs(intent, receipts) && s in ByStage(intent.requirements) && AppliedIn(receipts, s)
    ensures Started(ByStage(intent.requirements), receipts)
  {
    var r :| r in receipts && r.stage == s && r.status.Applied?;
    assert ValidReceipt(r);
  }

  /** Work that is neither unfinished nor unstarted does not exist: settled means started. */
  lemma SettledHasStarted(intent: Intent, receipts: set<Receipt>)
    requires Consistent(intent, receipts) && !Unfinished(ByStage(intent.requirements), receipts)
    ensures Started(ByStage(intent.requirements), receipts)
  {
    var required := ByStage(intent.requirements);
    var s := intent.requirements[0].stage;
    assert s in required;
    if AppliedIn(receipts, s) {
      AppliedHasStarted(intent, receipts, s);
    } else {
      assert !UnfinishedStage(required, receipts, s);
      var r :| Latest(receipts, r) && r.stage == s && !r.status.Pending? && !r.status.Processing?;
    }
  }

  /** The one status consistent receipts support. */
  ghost function SupportedClaim(intent: Intent, receipts: set<Receipt>): IntentStatus {
    var required := ByStage(intent.requirements);
    if !Started(required, receipts) then ClaimAccepted
    else if Unfinished(required, receipts) then ClaimProcessing
    else Aggregate(required, receipts)
  }

  /** Of the seven statuses, consistent receipts support exactly one. */
  lemma ExactlyOneClaim(intent: Intent, receipts: set<Receipt>, claim: IntentStatus)
    requires Consistent(intent, receipts)
    ensures Supports(intent, receipts, claim) <==> claim == SupportedClaim(intent, receipts)
  {
    if !Unfinished(ByStage(intent.requirements), receipts) {
      SettledHasStarted(intent, receipts);
    }
  }

  // ---------------------------------------------------------------- causality

  /** `o` is an applied receipt that `r` says it consumed. */
  ghost predicate Cites(receipts: set<Receipt>, r: Receipt, o: Receipt) {
    && o in receipts && o.status.Applied?
    && exists c | c in r.citations ::
         c.stage == o.stage && c.attempt == o.attempt && c.effectId == o.effectId && c.intentId == o.intentId
  }

  ghost predicate AppliedRequired(intent: Intent, receipts: set<Receipt>, r: Receipt) {
    r in receipts && r.status.Applied? && r.stage in ByStage(intent.requirements)
  }

  lemma UpstreamRequired(intent: Intent, s: Stage, u: Stage)
    requires ValidIntent(intent) && s in ByStage(intent.requirements)
    requires u in ByStage(intent.requirements)[s].upstream
    ensures u in ByStage(intent.requirements)
  {
  }

  lemma CitedReceipt(intent: Intent, receipts: set<Receipt>, r: Receipt, c: Citation) returns (o: Receipt)
    requires Consistent(intent, receipts) && AppliedRequired(intent, receipts, r) && c in r.citations
    ensures Cites(receipts, r, o) && AppliedRequired(intent, receipts, o) && o.intentId == intent.id
    ensures o.stage == c.stage && o.attempt == c.attempt
    ensures o.stage in ByStage(intent.requirements)[r.stage].upstream
  {
    var required := ByStage(intent.requirements);
    assert ApplicationSupported(intent, required, receipts, r);
    assert CitationHolds(intent, receipts, c);
    o :| o in receipts && o.stage == c.stage && o.attempt == c.attempt && o.status.Applied? && o.effectId == c.effectId;
    assert BelongsTo(intent, o);
    assert c.stage in CitedStages(r);
    UpstreamRequired(intent, r.stage, c.stage);
  }

  lemma UpstreamDescends(graph: Upstreams, order: seq<Stage>, s: Stage, u: Stage)
    requires Ordered(graph, order) && s in order && s in graph && u in graph && u in graph[s]
    ensures u in order && Position(order, u) < Position(order, s)
  {
    ChainDescends(graph, order, [s, u]);
  }

  lemma OneAppliedPerAttempt(intent: Intent, receipts: set<Receipt>, r: Receipt, o: Receipt)
    requires Consistent(intent, receipts) && AppliedRequired(intent, receipts, r)
    requires o in receipts && r.stage == o.stage && r.attempt == o.attempt
    ensures r == o
  {
  }

  /** Every citation leads to exactly one applied receipt, of a required stage before the citing one in any order. */
  lemma CitationsDescend(intent: Intent, receipts: set<Receipt>, order: seq<Stage>, r: Receipt, c: Citation)
    returns (o: Receipt)
    requires Consistent(intent, receipts) && AppliedRequired(intent, receipts, r) && c in r.citations
    requires Ordered(UpstreamsOf(ByStage(intent.requirements)), order) && r.stage in order
    ensures Cites(receipts, r, o) && AppliedRequired(intent, receipts, o) && o.intentId == intent.id
    ensures o.stage == c.stage && o.attempt == c.attempt
    ensures forall x | x in receipts && x.stage == c.stage && x.attempt == c.attempt :: x == o
    ensures o.stage in order && Position(order, o.stage) < Position(order, r.stage)
  {
    o := CitedReceipt(intent, receipts, r, c);
    forall x | x in receipts && x.stage == c.stage && x.attempt == c.attempt ensures x == o {
      OneAppliedPerAttempt(intent, receipts, o, x);
    }
    UpstreamDescends(UpstreamsOf(ByStage(intent.requirements)), order, r.stage, o.stage);
  }

  /** Applied receipts, each citing the next. */
  ghost predicate CausalChain(intent: Intent, receipts: set<Receipt>, p: seq<Receipt>) {
    && (forall i | 0 <= i < |p| :: AppliedRequired(intent, receipts, p[i]))
    && (forall i | 0 <= i < |p| - 1 :: Cites(receipts, p[i], p[i + 1]))
  }

  lemma ChainTail(intent: Intent, receipts: set<Receipt>, p: seq<Receipt>)
    requires CausalChain(intent, receipts, p) && |p| > 1
    ensures CausalChain(intent, receipts, p[1..]) && AppliedRequired(intent, receipts, p[0])
    ensures Cites(receipts, p[0], p[1])
  {
    hide Cites, AppliedRequired;
    var tail := p[1..];
    assert forall i | 0 <= i < |tail| :: tail[i] == p[i + 1];
    forall i | 0 <= i < |tail| - 1 ensures Cites(receipts, tail[i], tail[i + 1]) {
      assert Cites(receipts, p[i + 1], p[i + 2]);
    }
  }

  lemma CitedLies(intent: Intent, receipts: set<Receipt>, order: seq<Stage>, r: Receipt, o: Receipt)
    requires Consistent(intent, receipts) && AppliedRequired(intent, receipts, r) && Cites(receipts, r, o)
    requires Ordered(UpstreamsOf(ByStage(intent.requirements)), order) && r.stage in order
    ensures o.stage in order && Position(order, o.stage) < Position(order, r.stage)
  {
    var c :| c in r.citations && c.stage == o.stage && c.attempt == o.attempt;
    var cited := CitationsDescend(intent, receipts, order, r, c);
  }

  /** Following citations ends: a causal chain visits a stage at most once, in descending order. */
  lemma {:induction false} CausalChainEnds(
    intent: Intent, receipts: set<Receipt>, order: seq<Stage>, p: seq<Receipt>)
    requires Consistent(intent, receipts) && CausalChain(intent, receipts, p) && p != []
    requires Ordered(UpstreamsOf(ByStage(intent.requirements)), order)
    requires forall s | s in ByStage(intent.requirements) :: s in order
    ensures |p| <= Position(order, p[0].stage) + 1
    ensures forall i, k | 0 <= i < k < |p| :: p[i].stage != p[k].stage
              && Position(order, p[k].stage) < Position(order, p[i].stage)
  {
    if |p| > 1 {
      hide Consistent, Cites, Ordered, CausalChain;
      var tail := p[1..];
      ChainTail(intent, receipts, p);
      CausalChainEnds(intent, receipts, order, tail);
      CitedLies(intent, receipts, order, p[0], p[1]);
      forall i, k | 0 <= i < k < |p|
        ensures p[i].stage != p[k].stage && Position(order, p[k].stage) < Position(order, p[i].stage)
      {
        if i == 0 {
          assert k == 1 || Position(order, tail[k - 1].stage) < Position(order, tail[0].stage);
        } else {
          assert Position(order, tail[k - 1].stage) < Position(order, tail[i - 1].stage);
        }
      }
    }
  }

  lemma {:induction false} CommittedByMembers(upstream: seq<Stage>, byStage: Requirements, v: SourceVersion)
    ensures v in CommittedBy(upstream, byStage) <==>
              exists u | u in upstream :: u in byStage && v in byStage[u].committed
  {
    if upstream != [] {
      CommittedByMembers(upstream[1..], byStage, v);
      assert upstream == [upstream[0]] + upstream[1..];
    }
  }

  /** An applied receipt's sources are those it was expected to apply. */
  lemma AppliedAsExpected(intent: Intent, receipts: set<Receipt>, r: Receipt, v: SourceVersion)
    requires Consistent(intent, receipts) && AppliedRequired(intent, receipts, r)
    ensures var q := ByStage(intent.requirements)[r.stage];
            && (v in r.applied <==> v in ExpectedInputs(intent, q, ByStage(intent.requirements)))
            && CitedStages(r) == StageSet(q.upstream)
  {
    var required := ByStage(intent.requirements);
    assert ApplicationSupported(intent, required, receipts, r);
    var expected := ExpectedInputs(intent, required[r.stage], required);
    SourceSetsMatchMeaning(expected, r.applied);
    assert v in Sources(r.applied) <==> v in Sources(expected);
  }

  /** What an upstream stage must commit, the receipt cited for it commits. */
  lemma UpstreamIsCited(intent: Intent, receipts: set<Receipt>, r: Receipt, u: Stage, v: SourceVersion)
    requires Consistent(intent, receipts) && AppliedRequired(intent, receipts, r)
    requires u in ByStage(intent.requirements)[r.stage].upstream && u in ByStage(intent.requirements)
    requires v in ByStage(intent.requirements)[u].committed
    ensures exists o :: Cites(receipts, r, o) && v in o.committed
  {
    AppliedAsExpected(intent, receipts, r, v);
    hide Consistent;
    assert u in StageSet(ByStage(intent.requirements)[r.stage].upstream) && u in CitedStages(r);
    var c :| c in r.citations && c.stage == u;
    var o := CitedReceipt(intent, receipts, r, c);
    CommittedAsRequired(intent, receipts, o, v);
  }

  lemma CitedIsUpstream(intent: Intent, receipts: set<Receipt>, r: Receipt, o: Receipt, v: SourceVersion)
    requires Consistent(intent, receipts) && AppliedRequired(intent, receipts, r)
    requires Cites(receipts, r, o) && v in o.committed
    ensures var required := ByStage(intent.requirements);
            && o.stage in required[r.stage].upstream && o.stage in required && v in required[o.stage].committed
  {
    AppliedAsExpected(intent, receipts, r, v);
    var c :| c in r.citations && c.stage == o.stage;
    assert c.stage in CitedStages(r);
    UpstreamRequired(intent, r.stage, o.stage);
    CommittedAsRequired(intent, receipts, o, v);
  }

  /**
   Nothing is applied from nowhere, and nothing consumed is lost: a source is applied exactly when it is a
   precondition the stage names or a receipt it cites committed it.
   */
  lemma SourcesConserved(intent: Intent, receipts: set<Receipt>, r: Receipt, v: SourceVersion)
    requires Consistent(intent, receipts) && AppliedRequired(intent, receipts, r)
    ensures var q := ByStage(intent.requirements)[r.stage];
            v in r.applied <==>
              (v in intent.preconditions && v.recordId in q.preconditionIds)
              || exists o :: Cites(receipts, r, o) && v in o.committed
  {
    PreconditionsDistinct(intent, receipts);
    hide Consistent, Cites, CitedStages;
    var required := ByStage(intent.requirements);
    var q := required[r.stage];
    AppliedAsExpected(intent, receipts, r, v);
    SelectedMeaning(q.preconditionIds, intent.preconditions, v);
    CommittedByMembers(q.upstream, required, v);
    if u :| u in q.upstream && u in required && v in required[u].committed {
      UpstreamIsCited(intent, receipts, r, u, v);
    }
    forall o | Cites(receipts, r, o) && v in o.committed
      ensures exists u | u in q.upstream :: u in required && v in required[u].committed
    {
      CitedIsUpstream(intent, receipts, r, o, v);
    }
  }

  lemma PreconditionsDistinct(intent: Intent, receipts: set<Receipt>)
    requires Consistent(intent, receipts)
    ensures UniqueSourceIds(intent.preconditions)
  {
  }

  lemma CommittedAsRequired(intent: Intent, receipts: set<Receipt>, o: Receipt, v: SourceVersion)
    requires Consistent(intent, receipts) && AppliedRequired(intent, receipts, o)
    ensures v in o.committed <==> v in ByStage(intent.requirements)[o.stage].committed
  {
    var q := ByStage(intent.requirements)[o.stage];
    assert ApplicationSupported(intent, ByStage(intent.requirements), receipts, o);
    SourceSetsMatchMeaning(q.committed, o.committed);
    assert v in Sources(o.committed) <==> v in Sources(q.committed);
  }

  // ---------------------------------------------------------------- growing histories

  /** A stage once satisfied stays satisfied, with the same results, however the history grows. */
  lemma SatisfactionGrows(intent: Intent, earlier: set<Receipt>, later: set<Receipt>)
    requires earlier <= later && Consistent(intent, earlier) && Consistent(intent, later)
    ensures Satisfied(ByStage(intent.requirements), earlier) <= Satisfied(ByStage(intent.requirements), later)
    ensures forall r, o | AppliedRequired(intent, earlier, r) && AppliedRequired(intent, later, o) && r.stage == o.stage ::
              SameResults(r, o)
  {
  }

  lemma AllSatisfiedIsFinished(required: Requirements, receipts: set<Receipt>)
    requires Satisfied(required, receipts) == required.Keys
    ensures !Unfinished(required, receipts)
  {
    forall s ensures !UnfinishedStage(required, receipts, s) {
      assert s in required ==> s in Satisfied(required, receipts);
    }
  }

  /** APPLIED is supported exactly when every required stage has an applied receipt. */
  lemma AppliedMeansAllSatisfied(intent: Intent, receipts: set<Receipt>)
    ensures Supports(intent, receipts, ClaimApplied) <==>
              Satisfied(ByStage(intent.requirements), receipts) == ByStage(intent.requirements).Keys
  {
    if Satisfied(ByStage(intent.requirements), receipts) == ByStage(intent.requirements).Keys {
      AllSatisfiedIsFinished(ByStage(intent.requirements), receipts);
    }
  }

  lemma AllStaySatisfied(required: Requirements, earlier: set<Receipt>, later: set<Receipt>)
    requires earlier <= later && Satisfied(required, earlier) == required.Keys
    ensures Satisfied(required, later) == required.Keys
  {
    forall s | s in required ensures s in Satisfied(required, later) {
      assert s in Satisfied(required, earlier);
    }
  }

  /** Once every required stage is applied, APPLIED is the only status ever supported again. */
  lemma AppliedIsFinal(intent: Intent, earlier: set<Receipt>, later: set<Receipt>, claim: IntentStatus)
    requires earlier <= later && Consistent(intent, earlier) && Consistent(intent, later)
    requires Supports(intent, earlier, ClaimApplied)
    ensures Supports(intent, later, claim) <==> claim == ClaimApplied
  {
    hide Consistent, Supports, Satisfied, SupportedClaim;
    AppliedMeansAllSatisfied(intent, earlier);
    AllStaySatisfied(ByStage(intent.requirements), earlier, later);
    AppliedMeansAllSatisfied(intent, later);
    ExactlyOneClaim(intent, later, claim);
    ExactlyOneClaim(intent, later, ClaimApplied);
  }

  /** Once any required receipt records a start, ACCEPTED is never supported again. */
  lemma StartedIsForever(intent: Intent, earlier: set<Receipt>, later: set<Receipt>, r: Receipt)
    requires earlier <= later && Consistent(intent, later)
    requires r in earlier && r.stage in ByStage(intent.requirements) && r.startedAt.Some?
    ensures !Supports(intent, later, ClaimAccepted)
  {
    assert r in later;
  }

  // ---------------------------------------------------------------- a history all of this is about

  const FIRST := Requirement("canonical", "store", ["a"], [], [SourceVersion("b", 1, 1)], 0, false)

  const SECOND := Requirement("projection", "project", [], ["canonical"], [], 0, false)

  /** A job of two stages, the second consuming what the first commits. */
  const JOB := Intent("job", "tenant", [], [SourceVersion("a", 1, 1)], [FIRST, SECOND])

  const STORED := Receipt(
    "job", 1, "canonical", "store", Applied, [SourceVersion("a", 1, 1)], [SourceVersion("b", 1, 1)], [], None,
    Some(0), Some(1), [])

  const PROJECTED := Receipt(
    "job", 1, "projection", "project", Applied, [SourceVersion("b", 1, 1)], [], [], None, Some(1), Some(2),
    [Citation("job", "canonical", 1, "store")])

  const STAGES := map["canonical" := FIRST, "projection" := SECOND]

  lemma JobStages()
    ensures ByStage(JOB.requirements) == STAGES
  {
    assert [FIRST, SECOND][..1] == [FIRST] && [FIRST][..0] == [];
    assert "canonical" != "projection";
  }

  lemma JobInputs()
    ensures ExpectedInputs(JOB, FIRST, STAGES) == [SourceVersion("a", 1, 1)]
    ensures ExpectedInputs(JOB, SECOND, STAGES) == [SourceVersion("b", 1, 1)]
  {
    JobStages();
    assert ["a"][1..] == [] && ["canonical"][1..] == [];
  }

  lemma JobIsAcyclic()
    ensures Acyclic(UpstreamsOf(STAGES))
  {
    var graph := UpstreamsOf(STAGES);
    assert graph == map["canonical" := [], "projection" := ["canonical"]];
    var order := ["canonical", "projection"];
    assert order[..1] == ["canonical"];
    assert Ordered(graph, order);
    OrderedIsAcyclic(graph, order);
  }

  lemma JobRequirementsFit()
    ensures ValidRequirement(FIRST) && ValidRequirement(SECOND) && UniqueSourceIds(JOB.preconditions)
    ensures forall id | id in FIRST.preconditionIds + SECOND.preconditionIds ::
              exists v | v in JOB.preconditions :: v.recordId == id
    ensures UniqueSourceIds([SourceVersion("a", 1, 1)]) && UniqueSourceIds([SourceVersion("b", 1, 1)])
  {
    assert JOB.preconditions[0] in JOB.preconditions;
  }

  lemma JobIsValid()
    ensures ValidIntent(JOB)
  {
    JobStages();
    JobInputs();
    JobIsAcyclic();
    JobRequirementsFit();
    hide ByStage, ExpectedInputs, Acyclic, UniqueSourceIds, ValidRequirement;
  }

  const HISTORY := {STORED, PROJECTED}

  lemma JobReceiptsBelong()
    ensures ValidInputs(JOB, HISTORY)
  {
    JobStages();
    JobIsValid();
    hide ByStage, ValidIntent;
    assert ValidReceipt(STORED) && BelongsTo(JOB, STORED);
    assert ValidReceipt(PROJECTED) && BelongsTo(JOB, PROJECTED);
  }

  lemma StoredIsSupported()
    ensures ApplicationSupported(JOB, STAGES, HISTORY, STORED)
    ensures AppliedIn(HISTORY, "canonical") && AppliedIn(HISTORY, "projection")
  {
    JobStages();
    JobInputs();
    hide ByStage, ExpectedInputs, IdMap;
    assert STORED in HISTORY && PROJECTED in HISTORY;
    SourceSetsMatchMeaning([SourceVersion("a", 1, 1)], STORED.applied);
    SourceSetsMatchMeaning(FIRST.committed, STORED.committed);
    assert CitedStages(STORED) == {} == StageSet([]);
  }

  lemma ProjectedIsSupported()
    ensures ApplicationSupported(JOB, STAGES, HISTORY, PROJECTED)
    ensures Cites(HISTORY, PROJECTED, STORED)
  {
    JobStages();
    JobInputs();
    StoredIsSupported();
    hide ByStage, ExpectedInputs, IdMap, ApplicationSupported, AppliedIn;
    var c := Citation("job", "canonical", 1, "store");
    assert PROJECTED.citations[0] == c && c in PROJECTED.citations;
    assert STORED in HISTORY && CitationHolds(JOB, HISTORY, c);
    assert CitedStages(PROJECTED) == {"canonical"} == StageSet(["canonical"]) by {
      assert c.stage in CitedStages(PROJECTED) && ["canonical"][0] in StageSet(["canonical"]);
    }
    SourceSetsMatchMeaning([SourceVersion("b", 1, 1)], PROJECTED.applied);
    SourceSetsMatchMeaning([], []);
    ProjectedSupport(c);
  }

  lemma ProjectedSupport(c: Citation)
    requires SourceSetsMatch(ExpectedInputs(JOB, SECOND, STAGES), PROJECTED.applied)
    requires SourceSetsMatch(SECOND.committed, PROJECTED.committed) && AppliedIn(HISTORY, "canonical")
    requires CitedStages(PROJECTED) == StageSet(SECOND.upstream) && PROJECTED.citations == [c]
    requires CitationHolds(JOB, HISTORY, c)
    ensures ApplicationSupported(JOB, STAGES, HISTORY, PROJECTED)
  {
    hide ByStage, ExpectedInputs, SourceSetsMatch, CitationHolds, CitedStages, AppliedIn;
  }

  /** There are consistent histories with causal links, and they support being applied. */
  lemma JobIsApplied()
    ensures Consistent(JOB, HISTORY) && Supports(JOB, HISTORY, ClaimApplied)
    ensures AppliedRequired(JOB, HISTORY, PROJECTED) && Cites(HISTORY, PROJECTED, STORED)
  {
    JobStages();
    JobReceiptsBelong();
    StoredIsSupported();
    ProjectedIsSupported();
    AppliedMeansAllSatisfied(JOB, HISTORY);
    hide ByStage, ApplicationSupported, ValidInputs, Cites, Supports, AppliedIn;
    assert NoConflicts(ByStage(JOB.requirements), HISTORY);
    assert SameResults(STORED, STORED) && SameResults(PROJECTED, PROJECTED);
    assert Satisfied(ByStage(JOB.requirements), HISTORY) == ByStage(JOB.requirements).Keys;
  }
}

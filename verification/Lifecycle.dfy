/** Intents, stage receipts, what makes them valid, and how their sources and references compare. */
module Lifecycle {
  import opened Options
  import opened Collections
  import opened StageOrder

  datatype SourceVersion = SourceVersion(recordId: string, contentRevision: nat, policyEpoch: nat)

  datatype Reference = Reference(kind: string, id: string, tenantId: string, resolver: string, crossTenant: bool)

  /** The evidence one stage of an intent requires. */
  datatype Requirement = Requirement(
    stage: Stage,
    effectId: string,
    preconditionIds: seq<string>,
    upstream: seq<Stage>,
    committed: seq<SourceVersion>,
    minimumOutputs: nat,
    noSourceWitness: bool)

  datatype Intent = Intent(
    id: string,
    tenantId: string,
    targets: seq<Reference>,
    preconditions: seq<SourceVersion>,
    requirements: seq<Requirement>)

  datatype StageStatus = Pending | Processing | Applied | Skipped | Failed | Cancelled | Superseded

  datatype IntentStatus =
    | ClaimAccepted | ClaimProcessing | ClaimApplied | ClaimPartial | ClaimFailed | ClaimCancelled | ClaimSuperseded

  /** Names one applied upstream receipt. */
  datatype Citation = Citation(intentId: string, stage: Stage, attempt: nat, effectId: string)

  datatype Receipt = Receipt(
    intentId: string,
    attempt: nat,
    stage: Stage,
    effectId: string,
    status: StageStatus,
    applied: seq<SourceVersion>,
    committed: seq<SourceVersion>,
    outputs: seq<Reference>,
    error: Option<string>,
    startedAt: Option<int>,
    finishedAt: Option<int>,
    citations: seq<Citation>)

  ghost predicate UniqueSourceIds(sources: seq<SourceVersion>) {
    forall i, k | 0 <= i < k < |sources| :: sources[i].recordId != sources[k].recordId
  }

  /** Two handles naming one record are duplicates, marked cross-tenant or not. */
  ghost predicate UniqueHandles(references: seq<Reference>) {
    forall i, k | 0 <= i < k < |references| ::
      references[i].(crossTenant := false) != references[k].(crossTenant := false)
  }

  ghost predicate ValidRequirement(r: Requirement) {
    && r.minimumOutputs <= 1
    && NoRepeats(r.preconditionIds)
    && NoRepeats(r.upstream)
    && r.stage !in r.upstream
    && UniqueSourceIds(r.committed)
  }

  ghost predicate Terminal(status: StageStatus) {
    status.Applied? || status.Skipped? || status.Failed? || status.Cancelled? || status.Superseded?
  }

  /** What the status of a receipt allows and requires. */
  ghost predicate StatusFits(r: Receipt) {
    && (Terminal(r.status) <==> r.finishedAt.Some?)
    && (r.status.Pending? ==> r.startedAt.None? && r.applied == [] && r.committed == [] && r.outputs == [])
    && (!r.status.Applied? ==> r.committed == [])
    && (r.status.Processing? || r.status.Applied? || r.status.Failed? ==> r.startedAt.Some?)
    && (r.startedAt.Some? && r.finishedAt.Some? ==> r.startedAt.value <= r.finishedAt.value)
    && (r.status.Failed? <==> r.error.Some?)
  }

  ghost predicate ValidReceipt(r: Receipt) {
    && r.attempt >= 1
    && (r.citations != [] ==> r.status.Applied?)
    && (forall i, k | 0 <= i < k < |r.citations| :: r.citations[i].stage != r.citations[k].stage)
    && (forall i | 0 <= i < |r.citations| :: r.citations[i].attempt >= 1)
    && UniqueSourceIds(r.applied) && UniqueSourceIds(r.committed) && UniqueHandles(r.outputs)
    && StatusFits(r)
  }

  // ---------------------------------------------------------------- requirements by stage

  ghost predicate DistinctStages(requirements: seq<Requirement>) {
    forall i, k | 0 <= i < k < |requirements| ::
      requirements[i].stage != requirements[k].stage && requirements[i].effectId != requirements[k].effectId
  }

  /** The requirement of each stage; a later entry for a stage would replace an earlier one. */
  function ByStage(requirements: seq<Requirement>): (m: map<Stage, Requirement>)
    ensures forall s | s in m :: m[s] in requirements && m[s].stage == s
    ensures forall i | 0 <= i < |requirements| :: requirements[i].stage in m
  {
    if requirements == [] then map[]
    else
      var last := requirements[|requirements| - 1];
      ByStage(requirements[..|requirements| - 1])[last.stage := last]
  }

  function UpstreamsOf(byStage: map<Stage, Requirement>): Upstreams {
    map s | s in byStage :: byStage[s].upstream
  }

  /** The preconditions a stage selects, in the order it names them. */
  function Selected(ids: seq<string>, preconditions: seq<SourceVersion>): (r: seq<SourceVersion>)
  {
    if ids == [] then []
    else WithId(ids[0], preconditions) + Selected(ids[1..], preconditions)
  }

  /** The precondition named `id`, if there is one. */
  function WithId(id: string, preconditions: seq<SourceVersion>): (r: seq<SourceVersion>)
    ensures |r| <= 1 && forall v | v in r :: v in preconditions && v.recordId == id
    ensures (exists v | v in preconditions :: v.recordId == id) ==> |r| == 1
  {
    if preconditions == [] then []
    else if preconditions[|preconditions| - 1].recordId == id then [preconditions[|preconditions| - 1]]
    else WithId(id, preconditions[..|preconditions| - 1])
  }

  /** Of distinct preconditions, the one named is found. */
  lemma {:induction false} NamedIsFound(id: string, preconditions: seq<SourceVersion>, v: SourceVersion)
    requires UniqueSourceIds(preconditions)
    ensures v in WithId(id, preconditions) <==> v in preconditions && v.recordId == id
  {
    if preconditions != [] {
      var front, last := preconditions[..|preconditions| - 1], preconditions[|preconditions| - 1];
      assert preconditions == front + [last];
      if last.recordId != id {
        NamedIsFound(id, front, v);
      }
    }
  }

  /** A stage selects all the preconditions it names, and no others. */
  lemma {:induction false} SelectedMeaning(ids: seq<string>, preconditions: seq<SourceVersion>, v: SourceVersion)
    requires UniqueSourceIds(preconditions)
    ensures v in Selected(ids, preconditions) <==> v in preconditions && v.recordId in ids
  {
    if ids != [] {
      NamedIsFound(ids[0], preconditions, v);
      SelectedMeaning(ids[1..], preconditions, v);
      assert ids == [ids[0]] + ids[1..];
    }
  }

  /** ... each once, in the order it names them. */
  lemma {:induction false} SelectedInOrder(ids: seq<string>, preconditions: seq<SourceVersion>)
    requires forall id | id in ids :: exists v | v in preconditions :: v.recordId == id
    ensures |Selected(ids, preconditions)| == |ids|
    ensures forall i | 0 <= i < |ids| :: Selected(ids, preconditions)[i].recordId == ids[i]
  {
    if ids != [] {
      var rest := ids[1..];
      forall id | id in rest ensures exists v | v in preconditions :: v.recordId == id {
        assert id in ids;
      }
      SelectedInOrder(rest, preconditions);
      assert ids[0] in ids;
      var found := WithId(ids[0], preconditions);
      assert |found| == 1 && found[0] in found;
      assert forall i | 1 <= i < |ids| :: ids[i] == rest[i - 1];
    }
  }

  /** What the named upstream stages commit, in order. */
  function CommittedBy(upstream: seq<Stage>, byStage: map<Stage, Requirement>): seq<SourceVersion> {
    if upstream == [] then []
    else (if upstream[0] in byStage then byStage[upstream[0]].committed else []) + CommittedBy(upstream[1..], byStage)
  }

  /** Stage by stage, all that each commits. */
  lemma {:induction false} CommittedInOrder(some: seq<Stage>, more: seq<Stage>, byStage: map<Stage, Requirement>)
    ensures CommittedBy(some + more, byStage) == CommittedBy(some, byStage) + CommittedBy(more, byStage)
    ensures forall u | u in byStage :: CommittedBy([u], byStage) == byStage[u].committed
  {
    if some == [] {
      assert some + more == more;
    } else {
      assert (some + more)[1..] == some[1..] + more;
      CommittedInOrder(some[1..], more, byStage);
    }
    forall u | u in byStage ensures CommittedBy([u], byStage) == byStage[u].committed {
      assert [u][1..] == [];
    }
  }

  /** The sources a stage must have applied: its selected preconditions, then what its upstreams commit. */
  function ExpectedInputs(intent: Intent, r: Requirement, byStage: map<Stage, Requirement>): seq<SourceVersion> {
    Selected(r.preconditionIds, intent.preconditions) + CommittedBy(r.upstream, byStage)
  }

  ghost predicate OwnHandles(tenantId: string, references: seq<Reference>) {
    forall i | 0 <= i < |references| :: references[i].tenantId == tenantId && !references[i].crossTenant
  }

  /** What a stage names is declared, and what it would apply are distinct records. */
  ghost predicate InputsFit(intent: Intent, r: Requirement, byStage: map<Stage, Requirement>) {
    && (forall id | id in r.preconditionIds :: exists v | v in intent.preconditions :: v.recordId == id)
    && (forall u | u in r.upstream :: u in byStage)
    && UniqueSourceIds(ExpectedInputs(intent, r, byStage))
  }

  /** What an intent must satisfy besides having no dependency cycle. */
  ghost predicate WellFormed(intent: Intent) {
    var byStage := ByStage(intent.requirements);
    && (forall i | 0 <= i < |intent.requirements| :: ValidRequirement(intent.requirements[i]))
    && OwnHandles(intent.tenantId, intent.targets)
    && UniqueSourceIds(intent.preconditions)
    && intent.requirements != []
    && DistinctStages(intent.requirements)
    && (forall s | s in byStage :: InputsFit(intent, byStage[s], byStage))
  }

  ghost predicate ValidIntent(intent: Intent) {
    WellFormed(intent) && Acyclic(UpstreamsOf(ByStage(intent.requirements)))
  }

  /** A receipt belongs to the intent it is reported for. */
  ghost predicate BelongsTo(intent: Intent, r: Receipt) {
    && r.intentId == intent.id
    && OwnHandles(intent.tenantId, r.outputs)
    && var byStage := ByStage(intent.requirements);
       (r.stage in byStage ==> r.effectId == byStage[r.stage].effectId)
  }

  ghost predicate ValidInputs(intent: Intent, receipts: set<Receipt>) {
    ValidIntent(intent) && forall r | r in receipts :: ValidReceipt(r) && BelongsTo(intent, r)
  }

  // ---------------------------------------------------------------- comparing sources and references as sets

  function IdMap(sources: seq<SourceVersion>): (m: map<string, SourceVersion>)
    ensures forall id | id in m :: m[id] in sources && m[id].recordId == id
    ensures forall v | v in sources :: v.recordId in m
    ensures UniqueSourceIds(sources) ==> forall v | v in sources :: m[v.recordId] == v
  {
    if sources == [] then map[]
    else
      var last := sources[|sources| - 1];
      IdMap(sources[..|sources| - 1])[last.recordId := last]
  }

  /** The comparison the claim uses: equal length, and every expected source observed at its exact version. */
  predicate SourceSetsMatch(expected: seq<SourceVersion>, observed: seq<SourceVersion>) {
    && |expected| == |observed|
    && var byId := IdMap(observed);
       && |byId| == |observed|
       && forall v | v in expected :: v.recordId in byId && byId[v.recordId] == v
  }

  predicate ReferenceSetsMatch(expected: seq<Reference>, observed: seq<Reference>) {
    && |expected| == |observed|
    && var left, right := (set r | r in expected), (set r | r in observed);
       |left| == |expected| && |right| == |observed| && left == right
  }

  function Sources(sources: seq<SourceVersion>): set<SourceVersion> {
    set v | v in sources
  }

  function References(references: seq<Reference>): set<Reference> {
    set r | r in references
  }

  function Ids(sources: seq<SourceVersion>): (ids: seq<string>)
    ensures |ids| == |sources| && forall i | 0 <= i < |ids| :: ids[i] == sources[i].recordId
  {
    seq(|sources|, i requires 0 <= i < |sources| => sources[i].recordId)
  }

  lemma IdMapDomain(sources: seq<SourceVersion>, id: string)
    ensures id in IdMap(sources) <==> id in Ids(sources)
  {
    if id in Ids(sources) {
      var i :| 0 <= i < |sources| && Ids(sources)[i] == id;
      assert sources[i] in sources;
    }
    if id in IdMap(sources) {
      var i :| 0 <= i < |sources| && sources[i] == IdMap(sources)[id];
      assert Ids(sources)[i] == id;
    }
  }

  lemma IdMapKeys(sources: seq<SourceVersion>)
    ensures |IdMap(sources)| == |sources| <==> UniqueSourceIds(sources)
  {
    hide IdMap;
    var ids, m := Ids(sources), IdMap(sources);
    CountsDistinct(ids);
    forall id ensures id in m.Keys <==> id in ids { IdMapDomain(sources, id); }
    assert m.Keys == set id | id in ids;
    assert |m| == |m.Keys|;
  }

  lemma UniqueIdsNoRepeats(sources: seq<SourceVersion>)
    requires UniqueSourceIds(sources)
    ensures NoRepeats(sources) && |Sources(sources)| == |sources|
  {
    CountsDistinct(sources);
  }

  /** Against distinct expected records, the comparison is equality of the two sets of sources. */
  lemma SourceSetsMatchMeaning(expected: seq<SourceVersion>, observed: seq<SourceVersion>)
    requires UniqueSourceIds(expected)
    ensures SourceSetsMatch(expected, observed) <==>
              UniqueSourceIds(observed) && Sources(expected) == Sources(observed)
  {
    IdMapKeys(observed);
    UniqueIdsNoRepeats(expected);
    if UniqueSourceIds(observed) {
      UniqueIdsNoRepeats(observed);
      if SourceSetsMatch(expected, observed) {
        assert Sources(expected) <= Sources(observed);
        SubsetOfSameSize(Sources(expected), Sources(observed));
      }
      if Sources(expected) == Sources(observed) {
        forall v | v in expected ensures v.recordId in IdMap(observed) && IdMap(observed)[v.recordId] == v {
          assert v in Sources(observed);
        }
      }
    }
  }

  lemma ReferenceSetsMatchMeaning(expected: seq<Reference>, observed: seq<Reference>)
    ensures ReferenceSetsMatch(expected, observed) <==>
              NoRepeats(expected) && NoRepeats(observed) && References(expected) == References(observed)
  {
    CountsDistinct(expected);
    CountsDistinct(observed);
  }
}

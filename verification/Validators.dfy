/** The validators that every intent and every receipt has passed before a claim is judged. */
module Validators {
  import opened Options
  import opened Collections
  import opened StageOrder
  import opened Lifecycle

  /** No two sources name one record: as many identifiers as sources. */
  method CheckUniqueSourceIds(sources: seq<SourceVersion>) returns (ok: bool)
    ensures ok <==> UniqueSourceIds(sources)
  {
    var ids := Ids(sources);
    CountsDistinct(ids);
    ok := |ids| == |set id | id in ids|;
  }

  /** No two handles name one record, marked cross-tenant or not. */
  method CheckUniqueHandles(references: seq<Reference>) returns (ok: bool)
    ensures ok <==> UniqueHandles(references)
  {
    var seen: set<Reference> := {};
    for k := 0 to |references|
      invariant forall i | 0 <= i < k :: references[i].(crossTenant := false) in seen
      invariant forall key | key in seen :: exists i | 0 <= i < k :: references[i].(crossTenant := false) == key
      invariant forall i, j | 0 <= i < j < k ::
                  references[i].(crossTenant := false) != references[j].(crossTenant := false)
    {
      var key := references[k].(crossTenant := false);
      if key in seen {
        return false;
      }
      seen := seen + {key};
    }
    return true;
  }

  method CheckDistinct(names: seq<string>) returns (ok: bool)
    ensures ok <==> NoRepeats(names)
  {
    CountsDistinct(names);
    ok := |set name | name in names| == |names|;
  }

  method CheckRequirement(r: Requirement) returns (ok: bool)
    ensures ok <==> ValidRequirement(r)
  {
    if r.minimumOutputs != 0 && r.minimumOutputs != 1 {
      return false;
    }
    ok := CheckDistinct(r.preconditionIds);
    if ok {
      ok := CheckDistinct(r.upstream);
    }
    if r.stage in r.upstream {
      ok := false;
    }
    if ok {
      ok := CheckUniqueSourceIds(r.committed);
    }
  }

  /** Citations name an attempt each, and each stage once. */
  method CheckCitations(citations: seq<Citation>) returns (ok: bool)
    ensures ok <==>
              && (forall i | 0 <= i < |citations| :: citations[i].attempt >= 1)
              && (forall i, k | 0 <= i < k < |citations| :: citations[i].stage != citations[k].stage)
  {
    var stages: seq<string> := [];
    for k := 0 to |citations|
      invariant |stages| == k && forall i | 0 <= i < k :: stages[i] == citations[i].stage
      invariant forall i | 0 <= i < k :: citations[i].attempt >= 1
    {
      if citations[k].attempt < 1 {
        return false;
      }
      stages := stages + [citations[k].stage];
    }
    ok := CheckDistinct(stages);
  }

  /** What the status of a receipt allows and requires. */
  method CheckStatus(r: Receipt) returns (ok: bool)
    ensures ok <==> StatusFits(r)
  {
    var terminal := match r.status
      case Pending => false
      case Processing => false
      case _ => true;
    if terminal && r.finishedAt.None? {
      return false;
    }
    if !terminal && r.finishedAt.Some? {
      return false;
    }
    if r.status.Pending? {
      if r.startedAt.Some? || r.applied != [] || r.committed != [] || r.outputs != [] {
        return false;
      }
    }
    if !r.status.Applied? && r.committed != [] {
      return false;
    }
    if r.status.Processing? && r.startedAt.None? {
      return false;
    }
    if r.status.Applied? || r.status.Failed? {
      if r.startedAt.None? {
        return false;
      }
    }
    if r.startedAt.Some? && r.finishedAt.Some? && r.finishedAt.value < r.startedAt.value {
      return false;
    }
    return r.status.Failed? == r.error.Some?;
  }

  method CheckReceipt(r: Receipt) returns (ok: bool)
    ensures ok <==> ValidReceipt(r)
  {
    if r.attempt < 1 || (r.citations != [] && !r.status.Applied?) {
      return false;
    }
    ok := CheckCitations(r.citations);
    if ok {
      ok := CheckUniqueSourceIds(r.applied);
    }
    if ok {
      ok := CheckUniqueSourceIds(r.committed);
    }
    if ok {
      ok := CheckUniqueHandles(r.outputs);
    }
    if ok {
      ok := CheckStatus(r);
    }
  }

  /** All handles are of the tenant, and none is marked as another's. */
  method CheckOwnHandles(tenantId: string, references: seq<Reference>) returns (ok: bool)
    ensures ok <==> OwnHandles(tenantId, references)
  {
    for k := 0 to |references|
      invariant forall i | 0 <= i < k :: references[i].tenantId == tenantId && !references[i].crossTenant
    {
      if references[k].tenantId != tenantId || references[k].crossTenant {
        return false;
      }
    }
    return true;
  }

  method CheckBelongs(intent: Intent, r: Receipt) returns (ok: bool)
    ensures ok <==> BelongsTo(intent, r)
  {
    if r.intentId != intent.id {
      return false;
    }
    ok := CheckOwnHandles(intent.tenantId, r.outputs);
    var byStage := ByStage(intent.requirements);
    if r.stage in byStage && byStage[r.stage].effectId != r.effectId {
      ok := false;
    }
  }

  /** Each requirement is valid, and no stage and no effect is required twice. */
  method CheckRequirements(requirements: seq<Requirement>) returns (ok: bool)
    ensures ok <==>
              (forall i | 0 <= i < |requirements| :: ValidRequirement(requirements[i])) && DistinctStages(requirements)
  {
    var stages: seq<string>, effects: seq<string> := [], [];
    for k := 0 to |requirements|
      invariant |stages| == |effects| == k
      invariant forall i | 0 <= i < k :: stages[i] == requirements[i].stage && effects[i] == requirements[i].effectId
      invariant forall i | 0 <= i < k :: ValidRequirement(requirements[i])
    {
      ok := CheckRequirement(requirements[k]);
      if !ok {
        return;
      }
      stages, effects := stages + [requirements[k].stage], effects + [requirements[k].effectId];
    }
    ok := CheckDistinct(stages);
    if ok {
      ok := CheckDistinct(effects);
    }
  }

  /** The identifiers of what a stage would apply: those it selects, then those its upstreams commit. */
  method InputIds(r: Requirement, byStage: map<Stage, Requirement>, ghost preconditions: seq<SourceVersion>)
    returns (ids: seq<string>)
    requires forall u | u in r.upstream :: u in byStage
    requires forall id | id in r.preconditionIds :: exists v | v in preconditions :: v.recordId == id
    ensures ids == Ids(Selected(r.preconditionIds, preconditions) + CommittedBy(r.upstream, byStage))
  {
    ids := r.preconditionIds;
    SelectedInOrder(r.preconditionIds, preconditions);
    ghost var selected := Selected(r.preconditionIds, preconditions);
    assert ids == Ids(selected);
    for k := 0 to |r.upstream|
      invariant ids == Ids(selected + CommittedBy(r.upstream[..k], byStage))
    {
      var u := r.upstream[k];
      assert u in r.upstream;
      CommittedInOrder(r.upstream[..k], [u], byStage);
      assert r.upstream[..k + 1] == r.upstream[..k] + [u];
      assert selected + CommittedBy(r.upstream[..k + 1], byStage)
          == selected + CommittedBy(r.upstream[..k], byStage) + byStage[u].committed;
      ids := ids + Ids(byStage[u].committed);
    }
    assert r.upstream[..|r.upstream|] == r.upstream;
  }

  /** What one stage asks for exists, and its inputs are distinct records. */
  method CheckInputsOf(intent: Intent, r: Requirement, byStage: map<Stage, Requirement>) returns (ok: bool)
    ensures ok <==> InputsFit(intent, r, byStage)
  {
    var declared := set v | v in intent.preconditions :: v.recordId;
    var unknown := set id | id in r.preconditionIds && id !in declared;
    var undeclared := set u | u in r.upstream && u !in byStage;
    if unknown != {} || undeclared != {} {
      ghost var id :| id in unknown || id in undeclared;
      return false;
    }
    forall id | id in r.preconditionIds ensures id in declared {
      assert id in declared || id in unknown;
    }
    forall u | u in r.upstream ensures u in byStage {
      assert u in byStage || u in undeclared;
    }
    var ids := InputIds(r, byStage, intent.preconditions);
    ok := CheckDistinct(ids);
  }

  /** All that makes an intent well formed, but for the order of its stages. */
  method CheckWellFormed(intent: Intent) returns (ok: bool)
    ensures ok <==> WellFormed(intent)
  {
    ok := CheckOwnHandles(intent.tenantId, intent.targets);
    if ok {
      ok := CheckUniqueSourceIds(intent.preconditions);
    }
    if ok {
      ok := CheckRequirements(intent.requirements);
    }
    if !ok || intent.requirements == [] {
      return false;
    }
    var byStage := ByStage(intent.requirements);
    for k := 0 to |intent.requirements|
      invariant forall i | 0 <= i < k :: InputsFit(intent, intent.requirements[i], byStage)
    {
      ok := CheckInputsOf(intent, intent.requirements[k], byStage);
      if !ok {
        EachRequirement(intent.requirements, k);
        return;
      }
    }
    return true;
  }

  lemma EachRequirement(requirements: seq<Requirement>, i: nat)
    requires DistinctStages(requirements) && i < |requirements|
    ensures requirements[i].stage in ByStage(requirements)
    ensures ByStage(requirements)[requirements[i].stage] == requirements[i]
  {
    var kept := ByStage(requirements)[requirements[i].stage];
    var k :| 0 <= k < |requirements| && requirements[k] == kept;
  }
}

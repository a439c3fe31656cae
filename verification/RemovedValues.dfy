/** The allowed values a schema change removes, found through keys where values have them. */
module RemovedValues {
  import opened Options
  import opened JsonSchema
  import opened JsonHeap
  import opened JsonEquality
  import opened JsonKeys
  import opened SchemaNarrowing

  ghost predicate AllHold(heap: Heap, rank: map<Id, nat>, values: seq<Value>) {
    forall i | 0 <= i < |values| :: Holds(heap, rank, values[i])
  }

  /** What the values unfold to. */
  ghost function Trees(heap: Heap, rank: map<Id, nat>, values: seq<Value>): (r: seq<Json>)
    requires Acyclic(heap, rank) && AllHold(heap, rank, values)
    ensures |r| == |values|
  {
    seq(|values|, i requires 0 <= i < |values| => Unfold(heap, rank, values[i]))
  }

  lemma {:induction false} MissingAppended(olds: seq<Json>, j: Json, news: seq<Json>)
    ensures MissingValues(olds + [j], news) == MissingValues(olds, news) + if j in news then [] else [j]
  {
    if olds == [] {
      assert [j][1..] == [];
    } else {
      assert (olds + [j])[1..] == olds[1..] + [j];
      MissingAppended(olds[1..], j, news);
    }
  }

  // ---------------------------------------------------------------- what the search costs

  /** One comparison, and the pairs of containers it opened. */
  datatype Comparison = Comparison(goal: Pair, openings: seq<Opening>)

  ghost function ComparisonsCost(heap: Heap, comparisons: seq<Comparison>): nat {
    if comparisons == [] then 0
    else
      var last := comparisons[|comparisons| - 1];
      ComparisonsCost(heap, comparisons[..|comparisons| - 1]) + RootCost(last.goal) + OpeningsCost(heap, last.openings)
  }

  ghost predicate Compares(heap: Heap, olds: seq<Value>, news: seq<Value>, comparisons: seq<Comparison>) {
    forall i | 0 <= i < |comparisons| ::
      && comparisons[i].goal.0 in olds && comparisons[i].goal.1 in news
      && Openings(heap, comparisons[i].goal, comparisons[i].openings)
  }

  lemma {:induction false} ComparisonsAdd(heap: Heap, some: seq<Comparison>, more: seq<Comparison>)
    ensures ComparisonsCost(heap, some + more) == ComparisonsCost(heap, some) + ComparisonsCost(heap, more)
  {
    if more == [] {
      assert some + more == some;
    } else {
      assert (some + more)[..|some + more| - 1] == some + more[..|more| - 1];
      ComparisonsAdd(heap, some, more[..|more| - 1]);
    }
  }

  /** The values keyed so far, the comparisons made, and what they were charged. */
  datatype Work = Work(keyed: seq<Value>, comparisons: seq<Comparison>, compared: nat)

  /** All that is spent since `start` is accounted for by containers and pairs of containers looked at once. */
  ghost predicate Accounted(heap: Heap, start: Walked, now: Ledger, work: Work) {
    && now.spent == Spend(start, now.charged + work.compared)
    && now.charged == ReadCost(work.keyed) + AttemptsCost(heap, now.log)
    && work.compared <= ComparisonsCost(heap, work.comparisons)
    && (forall i | 0 <= i < |now.log| :: MadeFor(now.log, i, 0, work.keyed))
  }

  /** A work list for the first `next` old values. */
  ghost predicate WorkOn(heap: Heap, olds: seq<Value>, news: seq<Value>, next: nat, work: Work)
    requires next <= |olds|
  {
    && work.keyed <= news + olds[..next]
    && Compares(heap, olds, news, work.comparisons) && |work.comparisons| <= next * |news|
  }

  function KeyedMore(work: Work, v: Value): Work {
    work.(keyed := work.keyed + [v])
  }

  lemma AccountKey(heap: Heap, start: Walked, a: Ledger, b: Ledger, work: Work, v: Value)
    requires Accounted(heap, start, a, work) && Walks(heap, a, b, ScalarCost(v), 0, [v])
    ensures Accounted(heap, start, b, KeyedMore(work, v))
  {
    hide AttemptsCost, MadeFor, ReadCost, ScalarCost, ComparisonsCost;
    var more := KeyedMore(work, v);
    ReadOneMore(work.keyed, v);
    forall i | 0 <= i < |b.log| ensures MadeFor(b.log, i, 0, more.keyed) {
      if i < |a.log| {
        MadeForStill(a.log, b.log, i, 0, work.keyed, more.keyed);
      } else {
        MadeForStill(b.log, b.log, i, 0, [v], more.keyed);
      }
    }
  }

  function ComparedMore(work: Work, comparisons: seq<Comparison>, charged: nat): Work {
    Work(work.keyed, work.comparisons + comparisons, work.compared + charged)
  }

  lemma AccountComparisons(
    heap: Heap, start: Walked, now: Ledger, work: Work, comparisons: seq<Comparison>, charged: nat)
    requires Accounted(heap, start, now, work) && charged <= ComparisonsCost(heap, comparisons)
    ensures Accounted(heap, start, now.(spent := Spend(now.spent, charged)), ComparedMore(work, comparisons, charged))
  {
    ComparisonsAdd(heap, work.comparisons, comparisons);
  }

  lemma OneMoreComparison(
    heap: Heap, olds: seq<Value>, news: seq<Value>, comparisons: seq<Comparison>, c: Comparison, charged: nat,
    cost: nat)
    requires Compares(heap, olds, news, comparisons) && charged <= ComparisonsCost(heap, comparisons)
    requires c.goal.0 in olds && c.goal.1 in news && Covered(heap, c.goal, c.openings, cost)
    ensures Compares(heap, olds, news, comparisons + [c])
    ensures charged + cost <= ComparisonsCost(heap, comparisons + [c])
  {
    assert (comparisons + [c])[..|comparisons|] == comparisons;
  }

  // ---------------------------------------------------------------- the search

  /** Whether some value is equal to `v`: `Equal` if one is, `Different` if none is. */
  method AnyEqual(
    heap: Heap, v: Value, others: seq<Value>, spent: Walked, ghost rank: map<Id, nat>)
    returns (verdict: Verdict, total: Walked, ghost comparisons: seq<Comparison>, ghost charged: nat)
    requires Acyclic(heap, rank) && Holds(heap, rank, v) && AllHold(heap, rank, others) && !Over(spent)
    ensures verdict.Equal? ==> Unfold(heap, rank, v) in Trees(heap, rank, others)
    ensures verdict.Different? ==> Unfold(heap, rank, v) !in Trees(heap, rank, others)
    ensures verdict.Exhausted? <==> Over(total)
    ensures total == Spend(spent, charged) && charged <= ComparisonsCost(heap, comparisons)
    ensures Compares(heap, [v], others, comparisons) && |comparisons| <= |others|
  {
    hide Acyclic, ComparisonsCost, Compares, Covered;
    verdict, total, comparisons, charged := Different, spent, [], 0;
    NothingCompared(heap, [v], others);
    var i := 0;
    while verdict.Different? && i < |others|
      invariant i <= |others| && |comparisons| == i
      invariant verdict.Equal? ==> Unfold(heap, rank, v) in Trees(heap, rank, others)
      invariant verdict.Different? ==> forall k | 0 <= k < i :: Unfold(heap, rank, others[k]) != Unfold(heap, rank, v)
      invariant verdict.Exhausted? <==> Over(total)
      invariant total == Spend(spent, charged) && charged <= ComparisonsCost(heap, comparisons)
      invariant Compares(heap, [v], others, comparisons)
      decreases verdict.Different?, |others| - i
    {
      ghost var openings, cost;
      verdict, total, openings, cost := JsonEqual(heap, v, others[i], total, rank);
      assert Trees(heap, rank, others)[i] == Unfold(heap, rank, others[i]);
      OneMoreComparison(heap, [v], others, comparisons, Comparison((v, others[i]), openings), charged, cost);
      comparisons, charged := comparisons + [Comparison((v, others[i]), openings)], charged + cost;
      i := i + 1;
    }
  }

  lemma NothingCompared(heap: Heap, olds: seq<Value>, news: seq<Value>)
    ensures Compares(heap, olds, news, []) && ComparisonsCost(heap, []) == 0
  {
  }

  /** Some key means `j`. */
  ghost predicate HasKey(m: Meanings, keys: set<Key>, j: Json) {
    exists k | k in keys :: Known(m, k) && Meaning(m, k) == j
  }

  /** Each value has a key among `keys` or is among those too deep to have one, and nothing else is. */
  ghost predicate Sorted(m: Meanings, values: seq<Json>, keys: set<Key>, deep: seq<Json>) {
    && (forall k | k in keys :: Known(m, k))
    && (forall j :: j in values <==> j in deep || HasKey(m, keys, j))
  }

  /** A keyed value is there exactly when its key or an equal deep value is. */
  lemma KeyedMembership(m: Meanings, values: seq<Json>, keys: set<Key>, deep: seq<Json>, k: Key)
    requires Sorted(m, values, keys, deep) && Injective(m) && Known(m, k)
    ensures Meaning(m, k) in values <==> k in keys || Meaning(m, k) in deep
  {
    if HasKey(m, keys, Meaning(m, k)) {
      var l :| l in keys && Known(m, l) && Meaning(m, l) == Meaning(m, k);
      KeysDecideEquality(m, k, l);
    }
  }

  lemma KeysGrow(m: Meanings, more: Meanings, values: seq<Json>, keys: set<Key>, deep: seq<Json>)
    requires Sorted(m, values, keys, deep) && Grows(m, more)
    ensures Sorted(more, values, keys, deep)
  {
    forall j ensures HasKey(more, keys, j) <==> HasKey(m, keys, j) {
      if k :| k in keys && Known(m, k) && Meaning(m, k) == j {
        assert Known(more, k) && Meaning(more, k) == j;
      }
    }
  }

  lemma SortedMore(m: Meanings, values: seq<Json>, j: Json, keys: set<Key>, deep: seq<Json>, key: Option<Key>)
    requires Sorted(m, values, keys, deep)
    requires key.Some? ==> Known(m, key.value) && Meaning(m, key.value) == j
    ensures key.None? ==> Sorted(m, values + [j], keys, deep + [j])
    ensures key.Some? ==> Sorted(m, values + [j], keys + {key.value}, deep)
  {
    if key.Some? {
      var more := keys + {key.value};
      forall i ensures HasKey(m, more, i) <==> HasKey(m, keys, i) || i == j {
        if k :| k in keys && Known(m, k) && Meaning(m, k) == i {
          assert k in more;
        }
        assert key.value in more;
      }
    }
  }

  lemma TreesAppended(heap: Heap, rank: map<Id, nat>, values: seq<Value>, v: Value)
    requires Acyclic(heap, rank) && AllHold(heap, rank, values) && Holds(heap, rank, v)
    ensures AllHold(heap, rank, values + [v])
    ensures Trees(heap, rank, values + [v]) == Trees(heap, rank, values) + [Unfold(heap, rank, v)]
  {
  }

  /** The key of one value, as the tree it unfolds to. */
  method KeyOfTree(canonical: Keys, v: Value, ghost rank: map<Id, nat>, ghost start: Walked, ghost work: Work)
    returns (key: Answer<Key>)
    requires canonical.Valid() && Acyclic(canonical.heap, rank) && canonical.tree == TreeOf(canonical.heap, rank)
    requires Holds(canonical.heap, rank, v) && !Over(canonical.spent)
    requires Accounted(canonical.heap, start, canonical.Now(), work)
    modifies canonical
    ensures canonical.Valid() && Grows(old(canonical.meanings), canonical.meanings)
    ensures key.Found? ==> Known(canonical.meanings, key.value)
    ensures key.Found? ==> Meaning(canonical.meanings, key.value) == Unfold(canonical.heap, rank, v)
    ensures key.TooDeep? ==> TooDeepFrom(Unfold(canonical.heap, rank, v), 0)
    ensures key.OutOfBudget? <==> Over(canonical.spent)
    ensures Accounted(canonical.heap, start, canonical.Now(), KeyedMore(work, v))
  {
    hide Accounted, Walks, Acyclic, Attempts, Concluded;
    AcyclicUnfolds(canonical.heap, rank);
    assert Denotes(canonical.tree, v, Unfold(canonical.heap, rank, v));
    ghost var was := canonical.Now();
    key := canonical.KeyOf(v, 0, Unfold(canonical.heap, rank, v));
    AccountKey(canonical.heap, start, was, canonical.Now(), work, v);
  }

  /** The values keyed, and those kept aside. */
  ghost predicate SortedValues(
    heap: Heap, rank: map<Id, nat>, m: Meanings, values: seq<Value>, keys: set<Key>, deep: seq<Value>)
  {
    && Acyclic(heap, rank) && AllHold(heap, rank, values) && AllHold(heap, rank, deep)
    && (forall v | v in deep :: v in values)
    && Sorted(m, Trees(heap, rank, values), keys, Trees(heap, rank, deep))
  }

  lemma NothingSorted(heap: Heap, rank: map<Id, nat>, m: Meanings)
    requires Acyclic(heap, rank)
    ensures SortedValues(heap, rank, m, [], {}, [])
  {
  }

  lemma SortedOneMore(
    heap: Heap, rank: map<Id, nat>, m: Meanings, more: Meanings, done: seq<Value>, keys: set<Key>, deep: seq<Value>,
    v: Value, key: Option<Key>)
    requires SortedValues(heap, rank, m, done, keys, deep) && Grows(m, more) && Holds(heap, rank, v)
    requires key.Some? ==> Known(more, key.value) && Meaning(more, key.value) == Unfold(heap, rank, v)
    ensures SortedValues(heap, rank, more, done + [v], if key.Some? then keys + {key.value} else keys,
                         if key.Some? then deep else deep + [v])
  {
    hide Sorted, Acyclic;
    KeysGrow(m, more, Trees(heap, rank, done), keys, Trees(heap, rank, deep));
    SortedMore(more, Trees(heap, rank, done), Unfold(heap, rank, v), keys, Trees(heap, rank, deep), key);
    TreesAppended(heap, rank, done, v);
    TreesAppended(heap, rank, deep, v);
  }

  /** Key every value that can be keyed; keep aside the others. */
  method SortValues(canonical: Keys, values: seq<Value>, ghost rank: map<Id, nat>, ghost start: Walked)
    returns (ok: bool, keys: set<Key>, deep: seq<Value>, ghost work: Work)
    requires canonical.Valid() && Acyclic(canonical.heap, rank) && canonical.tree == TreeOf(canonical.heap, rank)
    requires AllHold(canonical.heap, rank, values) && !Over(canonical.spent)
    requires Accounted(canonical.heap, start, canonical.Now(), Work([], [], 0))
    modifies canonical
    ensures canonical.Valid() && (ok <==> !Over(canonical.spent))
    ensures ok ==> SortedValues(canonical.heap, rank, canonical.meanings, values, keys, deep) && |deep| <= |values|
    ensures work.keyed <= values && work.comparisons == [] && (ok ==> work.keyed == values)
    ensures Accounted(canonical.heap, start, canonical.Now(), work)
  {
    hide Acyclic, Grows, Known, Meaning, SortedValues, Keys.Valid, Accounted;
    ok, keys, deep, work := true, {}, [], Work([], [], 0);
    NothingSorted(canonical.heap, rank, canonical.meanings);
    for next := 0 to |values|
      invariant canonical.Valid() && !Over(canonical.spent) && |deep| <= next
      invariant SortedValues(canonical.heap, rank, canonical.meanings, values[..next], keys, deep)
      invariant work.keyed == values[..next] && work.comparisons == []
      invariant Accounted(canonical.heap, start, canonical.Now(), work)
    {
      ghost var before := canonical.meanings;
      var v := values[next];
      var key := KeyOfTree(canonical, v, rank, start, work);
      work := KeyedMore(work, v);
      assert values[..next + 1] == values[..next] + [v];
      if key.OutOfBudget? {
        ok := false;
        return;
      }
      SortedOneMore(canonical.heap, rank, before, canonical.meanings, values[..next], keys, deep, v, KeyIfAny(key));
      if key.Found? {
        keys := keys + {key.value};
      } else {
        deep := deep + [v];
      }
    }
    assert values[..|values|] == values;
  }

  ghost function KeyIfAny(key: Answer<Key>): Option<Key> {
    if key.Found? then Some(key.value) else None
  }

  /**
   Whether an old value has a counterpart among the new ones (`Equal`) or none (`Different`), decided through its
   key when it has one.
   */
  method Counterpart(
    canonical: Keys, v: Value, newValues: seq<Value>, keys: set<Key>, deep: seq<Value>, ghost rank: map<Id, nat>,
    ghost start: Walked, ghost work: Work)
    returns (verdict: Verdict, ghost more: Work)
    requires canonical.Valid() && Acyclic(canonical.heap, rank) && canonical.tree == TreeOf(canonical.heap, rank)
    requires Holds(canonical.heap, rank, v) && AllHold(canonical.heap, rank, newValues) && !Over(canonical.spent)
    requires SortedValues(canonical.heap, rank, canonical.meanings, newValues, keys, deep) && |deep| <= |newValues|
    requires Accounted(canonical.heap, start, canonical.Now(), work)
    modifies canonical
    ensures canonical.Valid()
    ensures SortedValues(canonical.heap, rank, canonical.meanings, newValues, keys, deep)
    ensures verdict.Equal? ==> Unfold(canonical.heap, rank, v) in Trees(canonical.heap, rank, newValues)
    ensures verdict.Different? ==> Unfold(canonical.heap, rank, v) !in Trees(canonical.heap, rank, newValues)
    ensures verdict.Exhausted? <==> Over(canonical.spent)
    ensures Accounted(canonical.heap, start, canonical.Now(), more)
    ensures more.keyed == work.keyed + [v] && AddsComparisons(canonical.heap, v, newValues, work, more)
  {
    hide Acyclic, Sorted, Accounted, Compares, Keys.Valid;
    ghost var heap, before := canonical.heap, canonical.meanings;
    var key := KeyOfTree(canonical, v, rank, start, work);
    more := KeyedMore(work, v);
    NoneAdded(heap, v, newValues, work, more);
    KeysGrow(before, canonical.meanings, Trees(heap, rank, newValues), keys, Trees(heap, rank, deep));
    match key {
      case OutOfBudget =>
        verdict := Exhausted;
      case TooDeep =>
        verdict, more := Search(canonical, v, newValues, newValues, rank, start, more);
      case Found(k) =>
        KeyIsRight(canonical);
        KeyedMembership(canonical.meanings, Trees(heap, rank, newValues), keys, Trees(heap, rank, deep), k);
        verdict := Equal;
        if k !in keys {
          verdict, more := Search(canonical, v, deep, newValues, rank, start, more);
        }
    }
  }

  lemma KeyIsRight(canonical: Keys)
    requires canonical.Valid()
    ensures Injective(canonical.meanings)
  {
  }

  /** Some more comparisons of `v`, with at most all of the new values. */
  ghost predicate AddsComparisons(heap: Heap, v: Value, news: seq<Value>, work: Work, more: Work) {
    && work.comparisons <= more.comparisons
    && |more.comparisons| <= |work.comparisons| + |news|
    && Compares(heap, [v], news, more.comparisons[|work.comparisons|..])
  }

  lemma NoneAdded(heap: Heap, v: Value, news: seq<Value>, work: Work, more: Work)
    requires more.comparisons == work.comparisons
    ensures AddsComparisons(heap, v, news, work, more)
  {
  }

  /** Compare `v` with each of the others in turn. */
  method Search(
    canonical: Keys, v: Value, others: seq<Value>, ghost news: seq<Value>, ghost rank: map<Id, nat>,
    ghost start: Walked, ghost work: Work)
    returns (verdict: Verdict, ghost more: Work)
    requires canonical.Valid() && Acyclic(canonical.heap, rank) && !Over(canonical.spent)
    requires Holds(canonical.heap, rank, v) && AllHold(canonical.heap, rank, others)
    requires |others| <= |news| && forall w | w in others :: w in news
    requires Accounted(canonical.heap, start, canonical.Now(), work)
    modifies canonical`spent
    ensures canonical.Valid()
    ensures verdict.Equal? ==> Unfold(canonical.heap, rank, v) in Trees(canonical.heap, rank, others)
    ensures verdict.Different? ==> Unfold(canonical.heap, rank, v) !in Trees(canonical.heap, rank, others)
    ensures verdict.Exhausted? <==> Over(canonical.spent)
    ensures Accounted(canonical.heap, start, canonical.Now(), more)
    ensures more.keyed == work.keyed && AddsComparisons(canonical.heap, v, news, work, more)
  {
    hide Acyclic, Accounted, ComparisonsCost, Attempts, Concluded;
    ghost var heap, comparisons, charged := canonical.heap, [], 0;
    var total;
    verdict, total, comparisons, charged := AnyEqual(canonical.heap, v, others, canonical.spent, rank);
    AccountComparisons(heap, start, canonical.Now(), work, comparisons, charged);
    more := ComparedMore(work, comparisons, charged);
    assert more.comparisons[|work.comparisons|..] == comparisons;
    canonical.spent := total;
  }

  /** Exactly the missing values. */
  ghost predicate Reports(
    heap: Heap, rank: map<Id, nat>, olds: seq<Value>, news: seq<Value>, removed: seq<Value>)
  {
    && Acyclic(heap, rank)
    && AllHold(heap, rank, olds) && AllHold(heap, rank, news) && AllHold(heap, rank, removed)
    && Trees(heap, rank, removed) == MissingValues(Trees(heap, rank, olds), Trees(heap, rank, news))
  }

  lemma ReportsMore(
    heap: Heap, rank: map<Id, nat>, all: seq<Value>, next: nat, news: seq<Value>, removed: seq<Value>, missing: bool)
    requires next < |all| && Holds(heap, rank, all[next]) && AllHold(heap, rank, news) && Acyclic(heap, rank)
    requires Reports(heap, rank, all[..next], news, removed)
    requires missing <==> Unfold(heap, rank, all[next]) !in Trees(heap, rank, news)
    ensures Reports(heap, rank, all[..next + 1], news, if missing then removed + [all[next]] else removed)
  {
    hide Acyclic;
    var olds, v := all[..next], all[next];
    assert all[..next + 1] == olds + [v];
    TreesAppended(heap, rank, olds, v);
    TreesAppended(heap, rank, removed, v);
    MissingAppended(Trees(heap, rank, olds), Unfold(heap, rank, v), Trees(heap, rank, news));
  }

  lemma WorkOnMore(heap: Heap, olds: seq<Value>, news: seq<Value>, next: nat, work: Work, more: Work)
    requires next < |olds| && WorkOn(heap, olds, news, next, work) && work.keyed == news + olds[..next]
    requires more.keyed == work.keyed + [olds[next]]
    requires AddsComparisons(heap, olds[next], news, work, more)
    ensures WorkOn(heap, olds, news, next + 1, more) && more.keyed == news + olds[..next + 1]
  {
    assert olds[..next + 1] == olds[..next] + [olds[next]];
    assert (next + 1) * |news| == next * |news| + |news|;
    var comparisons, added := more.comparisons, more.comparisons[|work.comparisons|..];
    forall i | 0 <= i < |comparisons|
      ensures comparisons[i].goal.0 in olds && comparisons[i].goal.1 in news
      ensures Openings(heap, comparisons[i].goal, comparisons[i].openings)
    {
      if i < |work.comparisons| {
        assert comparisons[i] == work.comparisons[i];
      } else {
        assert comparisons[i] == added[i - |work.comparisons|];
      }
    }
  }

  /** Report one more old value if it is missing. */
  method ReportOne(
    canonical: Keys, oldValues: seq<Value>, next: nat, newValues: seq<Value>, keys: set<Key>, deep: seq<Value>,
    ghost rank: map<Id, nat>, removed: seq<Value>, ghost start: Walked, ghost work: Work)
    returns (ok: bool, more: seq<Value>, ghost done: Work)
    requires canonical.Valid() && Acyclic(canonical.heap, rank) && canonical.tree == TreeOf(canonical.heap, rank)
    requires next < |oldValues| && Holds(canonical.heap, rank, oldValues[next]) && !Over(canonical.spent)
    requires SortedValues(canonical.heap, rank, canonical.meanings, newValues, keys, deep) && |deep| <= |newValues|
    requires Reports(canonical.heap, rank, oldValues[..next], newValues, removed)
    requires Accounted(canonical.heap, start, canonical.Now(), work)
    requires WorkOn(canonical.heap, oldValues, newValues, next, work) && work.keyed == newValues + oldValues[..next]
    modifies canonical
    ensures canonical.Valid() && (ok <==> !Over(canonical.spent))
    ensures SortedValues(canonical.heap, rank, canonical.meanings, newValues, keys, deep)
    ensures ok ==> Reports(canonical.heap, rank, oldValues[..next + 1], newValues, more)
    ensures Accounted(canonical.heap, start, canonical.Now(), done)
    ensures WorkOn(canonical.heap, oldValues, newValues, next + 1, done)
    ensures done.keyed == newValues + oldValues[..next + 1]
  {
    assert AllHold(canonical.heap, rank, newValues);
    hide Acyclic, SortedValues, Reports, Keys.Valid, Accounted, WorkOn, AddsComparisons;
    var v := oldValues[next];
    var verdict;
    verdict, done := Counterpart(canonical, v, newValues, keys, deep, rank, start, work);
    WorkOnMore(canonical.heap, oldValues, newValues, next, work, done);
    ok := !verdict.Exhausted?;
    more := if verdict.Different? then removed + [v] else removed;
    if ok {
      ReportsMore(canonical.heap, rank, oldValues, next, newValues, removed, verdict.Different?);
    }
  }

  method ReportAll(
    canonical: Keys, oldValues: seq<Value>, newValues: seq<Value>, keys: set<Key>, deep: seq<Value>,
    ghost rank: map<Id, nat>, ghost start: Walked, ghost sorting: Work)
    returns (ok: bool, removed: seq<Value>, ghost work: Work)
    requires canonical.Valid() && Acyclic(canonical.heap, rank) && canonical.tree == TreeOf(canonical.heap, rank)
    requires AllHold(canonical.heap, rank, oldValues) && !Over(canonical.spent)
    requires SortedValues(canonical.heap, rank, canonical.meanings, newValues, keys, deep) && |deep| <= |newValues|
    requires Accounted(canonical.heap, start, canonical.Now(), sorting)
    requires sorting.keyed == newValues && sorting.comparisons == []
    modifies canonical
    ensures canonical.Valid() && (ok <==> !Over(canonical.spent))
    ensures ok ==> Reports(canonical.heap, rank, oldValues, newValues, removed)
    ensures Accounted(canonical.heap, start, canonical.Now(), work)
    ensures WorkOn(canonical.heap, oldValues, newValues, |oldValues|, work)
  {
    ok, removed, work := true, [], sorting;
    NothingReported(canonical.heap, rank, oldValues, newValues, work);
    hide Acyclic, SortedValues, Reports, Keys.Valid, Accounted, WorkOn;
    for next := 0 to |oldValues|
      invariant canonical.Valid() && !Over(canonical.spent) && ok
      invariant SortedValues(canonical.heap, rank, canonical.meanings, newValues, keys, deep)
      invariant Reports(canonical.heap, rank, oldValues[..next], newValues, removed)
      invariant Accounted(canonical.heap, start, canonical.Now(), work)
      invariant WorkOn(canonical.heap, oldValues, newValues, next, work) && work.keyed == newValues + oldValues[..next]
    {
      ok, removed, work := ReportOne(canonical, oldValues, next, newValues, keys, deep, rank, removed, start, work);
      if !ok {
        WorkSoFar(canonical.heap, oldValues, newValues, next + 1, work);
        return;
      }
    }
    assert oldValues[..|oldValues|] == oldValues;
  }

  lemma NothingReported(heap: Heap, rank: map<Id, nat>, olds: seq<Value>, news: seq<Value>, work: Work)
    requires Acyclic(heap, rank) && AllHold(heap, rank, news) && work.keyed == news && work.comparisons == []
    ensures Reports(heap, rank, olds[..0], news, [])
    ensures WorkOn(heap, olds, news, 0, work) && work.keyed == news + olds[..0]
  {
  }

  lemma WorkSoFar(heap: Heap, olds: seq<Value>, news: seq<Value>, next: nat, work: Work)
    requires next <= |olds| && WorkOn(heap, olds, news, next, work)
    ensures WorkOn(heap, olds, news, |olds|, work)
  {
    assert news + olds[..next] <= news + olds[..|olds|];
    assert |olds| * |news| == next * |news| + (|olds| - next) * |news|;
  }

  /** The removed values, or that the budget was spent before they were known. */
  datatype Outcome = Removals(values: seq<Value>) | Unverified

  /**
   The old allowed values with no JSON-equal counterpart among the new ones, in order: exactly what a comparison of
   every pair would find, whichever of the values are too deep to be keyed.  Or the budget is spent: on the
   containers the values hold, each looked at once from one depth, and on the pairs of containers that comparisons
   reach, each opened once.
   */
  method Removed(
    heap: Heap, oldValues: seq<Value>, newValues: seq<Value>, spent: Walked, ghost rank: map<Id, nat>)
    returns (r: Outcome, total: Walked, ghost log: seq<Attempt>, ghost keyed: nat, ghost work: Work)
    requires Acyclic(heap, rank) && AllHold(heap, rank, oldValues) && AllHold(heap, rank, newValues) && !Over(spent)
    ensures r.Removals? ==> Reports(heap, rank, oldValues, newValues, r.values)
    ensures r.Unverified? <==> Over(total)
    ensures Accounted(heap, spent, Ledger(log, total, keyed), work) && Attempts(heap, log)
    ensures WorkOn(heap, oldValues, newValues, |oldValues|, work)
  {
    AcyclicUnfolds(heap, rank);
    hide Acyclic, SortedValues, Reports, Accounted, WorkOn, Attempts;
    var canonical := new Keys(heap, spent, TreeOf(heap, rank));
    NothingSpent(heap, spent);
    var ok, keys, deep;
    ok, keys, deep, work := SortValues(canonical, newValues, rank, spent);
    r := Unverified;
    if !ok {
      SortedOnly(heap, oldValues, newValues, work);
    } else {
      var removed;
      ok, removed, work := ReportAll(canonical, oldValues, newValues, keys, deep, rank, spent, work);
      if ok {
        r := Removals(removed);
      }
    }
    total, log, keyed := canonical.spent, canonical.log, canonical.charged;
  }

  lemma NothingSpent(heap: Heap, spent: Walked)
    ensures Accounted(heap, spent, Ledger([], spent, 0), Work([], [], 0))
  {
  }

  lemma SortedOnly(heap: Heap, olds: seq<Value>, news: seq<Value>, work: Work)
    requires work.keyed <= news && work.comparisons == []
    ensures WorkOn(heap, olds, news, |olds|, work)
  {
    assert news <= news + olds[..|olds|];
    assert 0 <= |olds| * |news|;
  }
}

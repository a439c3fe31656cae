/**
 Bounded discovery of an object graph: one budget shared by every root of a validation call, and a worklist
 that expands a node again when a shallower authoritative path reaches it.
 */
module Discovery {
  import opened Collections

  /** The identity of an object. */
  type NodeId = int

  /**
   What is stored in a container: its children in order, how many captured entries it is charged for, and
   whether it is a model or an exact built-in container (`exact`) or native backing hidden behind a
   container subclass.
   */
  datatype Storage = Storage(children: seq<NodeId>, entries: nat, exact: bool)

  /** The containers of a captured graph; any other identity is a leaf. */
  type Graph = map<NodeId, Storage>

  const MAX_SNAPSHOT_DEPTH: nat := 256

  datatype Tier = Tier(maxNodes: nat, maxEdges: nat, maxDepth: nat)

  /** The result of a charge, or the stable budget error. */
  datatype Charged<+T> = Within(value: T) | Exceeded {
    predicate IsFailure() {
      Exceeded?
    }

    function PropagateFailure<U>(): Charged<U>
      requires Exceeded?
    {
      Exceeded
    }

    function Extract(): T
      requires Within?
    {
      value
    }
  }

  class DiscoveryBudget {
    const tier: Tier
    var nodes: nat
    var edges: nat
    var seen: set<NodeId>
    var authDepth: map<NodeId, nat>
    var exhausted: bool

    ghost predicate Valid()
      reads this
    {
      && nodes == |seen| && nodes <= tier.maxNodes && edges <= tier.maxEdges
      && authDepth.Keys <= seen
      && forall v | v in authDepth :: authDepth[v] <= tier.maxDepth
    }

    constructor (tier: Tier)
      ensures this.tier == tier && Valid() && fresh(this)
      ensures nodes == edges == 0 && seen == {} && authDepth == map[] && !exhausted
    {
      this.tier := tier;
      nodes, edges, seen, authDepth, exhausted := 0, 0, {}, map[], false;
    }

    /** Charge an object once, by identity; whether it is new. */
    method ChargeNode(v: NodeId) returns (r: Charged<bool>)
      requires Valid()
      modifies this
      ensures Valid() && edges == old(edges) && authDepth == old(authDepth)
      ensures r.Exceeded? <==> old(exhausted) || (v !in old(seen) && old(nodes) >= tier.maxNodes)
      ensures exhausted == r.Exceeded?
      ensures r.Within? ==> r.value == (v !in old(seen)) && seen == old(seen) + {v}
      ensures r.Exceeded? ==> seen == old(seen)
    {
      if exhausted {
        return Exceeded;
      }
      if v in seen {
        assert seen + {v} == seen;
        return Within(false);
      }
      if nodes >= tier.maxNodes {
        exhausted := true;
        return Exceeded;
      }
      nodes := nodes + 1;
      seen := seen + {v};
      return Within(true);
    }

    /** Charge captured entries, repeats of seen objects included. */
    method ChargeEdge(count: nat) returns (r: Charged<()>)
      requires Valid()
      modifies this`edges, this`exhausted
      ensures Valid()
      ensures r.Exceeded? <==> old(exhausted) || old(edges) + count > tier.maxEdges
      ensures exhausted == r.Exceeded?
      ensures edges == if r.Within? then old(edges) + count else old(edges)
    {
      if exhausted {
        return Exceeded;
      }
      if count > tier.maxEdges - edges {
        exhausted := true;
        return Exceeded;
      }
      edges := edges + count;
      return Within(());
    }

    /** Whether a visit within the limits asks for expansion: a new object, or a shallower authoritative path. */
    ghost predicate Expands(v: NodeId, depth: nat, authoritative: bool)
      reads this
    {
      v !in seen || (authoritative && (v !in authDepth || depth < authDepth[v]))
    }

    /** Record a visit; whether to expand the object, now or again. */
    method Visit(v: NodeId, depth: nat, authoritative: bool) returns (r: Charged<bool>)
      requires Valid()
      modifies this
      ensures Valid() && edges == old(edges)
      ensures r.Exceeded? <==>
                old(exhausted) || depth > tier.maxDepth || (v !in old(seen) && old(nodes) >= tier.maxNodes)
      ensures exhausted == r.Exceeded?
      ensures r.Within? ==> seen == old(seen) + {v} && r.value == old(Expands(v, depth, authoritative))
      ensures r.Within? ==>
                authDepth == if r.value && authoritative then old(authDepth)[v := depth] else old(authDepth)
      ensures r.Exceeded? ==> seen == old(seen) && authDepth == old(authDepth)
      // Each expansion spends one of an object's `maxDepth + 2` credits, so there are no more than that.
      ensures forall u :: Credit(u) <= old(Credit(u)) <= tier.maxDepth + 2
      ensures r.Within? && r.value ==> Credit(v) < old(Credit(v))
    {
      if exhausted {
        return Exceeded;
      }
      if depth > tier.maxDepth {
        exhausted := true;
        return Exceeded;
      }
      var new_ :- ChargeNode(v);
      if new_ {
        if authoritative {
          authDepth := authDepth[v := depth];
        }
        return Within(true);
      }
      if !authoritative {
        return Within(false);
      }
      if v !in authDepth || depth < authDepth[v] {
        authDepth := authDepth[v := depth];
        return Within(true);
      }
      return Within(false);
    }

    /**
     How many more expansions of `v` there can be: each one makes it seen, gives it an authoritative depth
     or lowers the one it has.
     */
    ghost function Credit(v: NodeId): nat
      reads this
    {
      if v in authDepth then authDepth[v]
      else if v in seen then tier.maxDepth + 1
      else tier.maxDepth + 2
    }

    ghost function Credits(graph: Graph): set<(NodeId, nat)>
      reads this
    {
      set v, k: nat | v in graph && 0 <= k < Credit(v) :: (v, k)
    }
  }

  // ---------------------------------------------------------------- authoritative paths

  /** `v` keeps the path authoritative and holds `w`. */
  predicate Steps(graph: Graph, v: NodeId, w: NodeId) {
    v in graph && graph[v].exact && w in graph[v].children && w in graph
  }

  /**
   A path of containers from `p[0]`, entered at depth `start`, whose every step leaves a model or an exact
   container above the snapshot depth limit.
   */
  ghost predicate AuthoritativePath(graph: Graph, p: seq<NodeId>, start: nat)
    decreases |p|
  {
    && p != []
    && if |p| == 1 then p[0] in graph
       else
         && AuthoritativePath(graph, p[..|p| - 1], start)
         && Steps(graph, p[|p| - 2], p[|p| - 1])
         && start + |p| - 2 < MAX_SNAPSHOT_DEPTH
  }

  /** An authoritative path from one of the roots reaches `v` at depth `d`. */
  ghost predicate ReachedAt(graph: Graph, roots: set<(NodeId, nat)>, v: NodeId, d: nat) {
    exists p, start: nat ::
      AuthoritativePath(graph, p, start) && (p[0], start) in roots && p[|p| - 1] == v && start + |p| - 1 == d
  }

  lemma ReachedRoot(graph: Graph, roots: set<(NodeId, nat)>, v: NodeId, d: nat)
    requires v in graph && (v, d) in roots
    ensures ReachedAt(graph, roots, v, d)
  {
    assert AuthoritativePath(graph, [v], d);
  }

  lemma ReachedChild(graph: Graph, roots: set<(NodeId, nat)>, v: NodeId, d: nat, w: NodeId)
    requires ReachedAt(graph, roots, v, d) && Steps(graph, v, w) && d < MAX_SNAPSHOT_DEPTH
    ensures ReachedAt(graph, roots, w, d + 1)
  {
    var p, start: nat :| AuthoritativePath(graph, p, start) && (p[0], start) in roots
                         && p[|p| - 1] == v && start + |p| - 1 == d;
    assert (p + [w])[..|p|] == p;
    assert AuthoritativePath(graph, p + [w], start);
  }

  /** `authDepth` holds, for exactly the containers an authoritative path reaches, the depth of a shortest one. */
  ghost predicate ShortestDepths(graph: Graph, roots: set<(NodeId, nat)>, authDepth: map<NodeId, nat>) {
    && (forall v | v in authDepth :: ReachedAt(graph, roots, v, authDepth[v]))
    && (forall v, d: nat | ReachedAt(graph, roots, v, d) :: v in authDepth && authDepth[v] <= d)
  }

  // ---------------------------------------------------------------- every path, authoritative or not

  ghost predicate AnyPath(graph: Graph, p: seq<NodeId>)
    decreases |p|
  {
    p != [] && (|p| > 1 ==>
      AnyPath(graph, p[..|p| - 1]) && p[|p| - 2] in graph && p[|p| - 1] in graph[p[|p| - 2]].children)
  }

  /**
   A path from one of the roots, whose containers, except perhaps the last, are all distinct, meets `v` at depth `d`.
   */
  ghost predicate MetAt(graph: Graph, roots: set<(NodeId, nat)>, v: NodeId, d: nat) {
    exists p, start: nat ::
      AnyPath(graph, p) && NoRepeats(p[..|p| - 1])
      && (p[0], start) in roots && p[|p| - 1] == v && start + |p| - 1 == d
  }

  /** A limit of the tier is passed by what the roots reach: too deep, one container too many, or an entry. */
  ghost predicate Overrun(graph: Graph, roots: set<(NodeId, nat)>, tier: Tier, seen: set<NodeId>, edges: nat) {
    exists v, d: nat | v in graph && MetAt(graph, roots, v, d) ::
      || d > tier.maxDepth
      || (v !in seen && |seen| >= tier.maxNodes)
      || (v in seen && edges + graph[v].entries > tier.maxEdges)
  }

  datatype Entry = Entry(node: NodeId, depth: nat, authoritative: bool)

  /** `w` has an authoritative depth of at most `d`, or is still to be visited with one. */
  ghost predicate Covered(pending: seq<Entry>, authDepth: map<NodeId, nat>, w: NodeId, d: nat) {
    || (w in authDepth && authDepth[w] <= d)
    || exists i | 0 <= i < |pending| :: pending[i].node == w && pending[i].authoritative && pending[i].depth <= d
  }

  /** Every step of an authoritative path out of a node with a depth is taken, or still to be taken. */
  ghost predicate Relaxed(graph: Graph, roots: set<(NodeId, nat)>, pending: seq<Entry>, authDepth: map<NodeId, nat>) {
    && (forall r, start: nat | (r, start) in roots && r in graph :: Covered(pending, authDepth, r, start))
    && (forall v, w | v in authDepth && Steps(graph, v, w) && authDepth[v] < MAX_SNAPSHOT_DEPTH ::
          Covered(pending, authDepth, w, authDepth[v] + 1))
  }

  /** With nothing left to visit, no path is shorter than the depth kept. */
  lemma {:induction false} NoShorterPath(
    graph: Graph, roots: set<(NodeId, nat)>, authDepth: map<NodeId, nat>, p: seq<NodeId>, start: nat)
    requires Relaxed(graph, roots, [], authDepth)
    requires AuthoritativePath(graph, p, start) && (p[0], start) in roots
    ensures p[|p| - 1] in authDepth && authDepth[p[|p| - 1]] <= start + |p| - 1
    decreases |p|
  {
    if |p| == 1 {
      assert Covered([], authDepth, p[0], start);
    } else {
      var front := p[..|p| - 1];
      NoShorterPath(graph, roots, authDepth, front, start);
      var v, w := front[|front| - 1], p[|p| - 1];
      assert Steps(graph, v, w);
      assert Covered([], authDepth, w, authDepth[v] + 1);
    }
  }

  /** Everything below an expanded container has been seen, or is still to be visited. */
  ghost predicate Discovered(graph: Graph, pending: seq<Entry>, seen: set<NodeId>, authDepth: map<NodeId, nat>) {
    forall v, w | v in seen && v in graph && w in graph[v].children && w in graph ::
      || w in seen
      || (v in authDepth && authDepth[v] >= MAX_SNAPSHOT_DEPTH)
      || exists i | 0 <= i < |pending| :: pending[i].node == w
  }

  function Without(pending: seq<Entry>, next: nat): (r: seq<Entry>)
    requires next < |pending|
    ensures |r| == |pending| - 1
    ensures forall i | 0 <= i < next :: r[i] == pending[i]
    ensures forall i | next < i < |pending| :: r[i - 1] == pending[i]
  {
    pending[..next] + pending[next + 1..]
  }

  /** The authoritative depths after a visit to `e` that took effect as `after`. */
  ghost predicate Recorded(e: Entry, before: map<NodeId, nat>, after: map<NodeId, nat>) {
    && (after == before || (e.authoritative && after == before[e.node := e.depth]
                            && (e.node in before ==> e.depth < before[e.node])))
    && (e.authoritative ==> e.node in after && after[e.node] <= e.depth)
  }

  lemma CoveredStep(
    pending: seq<Entry>, next: nat, before: map<NodeId, nat>, after: map<NodeId, nat>, added: seq<Entry>,
    w: NodeId, d: nat)
    requires next < |pending| && Recorded(pending[next], before, after)
    requires Covered(pending, before, w, d)
    ensures Covered(Without(pending, next) + added, after, w, d)
  {
    if !(w in before && before[w] <= d) {
      var i :| 0 <= i < |pending| && pending[i].node == w && pending[i].authoritative && pending[i].depth <= d;
      if i != next {
        var k := if i < next then i else i - 1;
        assert (Without(pending, next) + added)[k] == pending[i];
      }
    }
  }

  /** Taking any entry keeps every authoritative step taken or still to be taken. */
  lemma RelaxedStep(
    graph: Graph, roots: set<(NodeId, nat)>, pending: seq<Entry>, next: nat,
    before: map<NodeId, nat>, after: map<NodeId, nat>, added: seq<Entry>)
    requires Relaxed(graph, roots, pending, before) && next < |pending|
    requires Recorded(pending[next], before, after)
    requires after != before ==> pending[next].node in graph && (pending[next].depth < MAX_SNAPSHOT_DEPTH ==>
               added == Entries(graph[pending[next].node].children, pending[next].depth + 1,
                                graph[pending[next].node].exact))
    ensures Relaxed(graph, roots, Without(pending, next) + added, after)
  {
    var left := Without(pending, next) + added;
    forall r, start: nat | (r, start) in roots && r in graph ensures Covered(left, after, r, start) {
      CoveredStep(pending, next, before, after, added, r, start);
    }
    forall v, w | v in after && Steps(graph, v, w) && after[v] < MAX_SNAPSHOT_DEPTH
      ensures Covered(left, after, w, after[v] + 1)
    {
      if after != before && v == pending[next].node {
        var k :| 0 <= k < |graph[v].children| && graph[v].children[k] == w;
        assert left[|pending| - 1 + k] == added[k];
      } else {
        CoveredStep(pending, next, before, after, added, w, after[v] + 1);
      }
    }
  }

  lemma DiscoveredStep(
    graph: Graph, pending: seq<Entry>, next: nat, seen: set<NodeId>,
    before: map<NodeId, nat>, after: map<NodeId, nat>, added: seq<Entry>, expand: bool)
    requires Discovered(graph, pending, seen, before) && next < |pending|
    requires Recorded(pending[next], before, after)
    requires pending[next].node in graph && (!expand ==> pending[next].node in seen && after == before)
    requires expand && pending[next].authoritative ==>
               pending[next].node in after && after[pending[next].node] == pending[next].depth
    requires expand && !(pending[next].authoritative && pending[next].depth >= MAX_SNAPSHOT_DEPTH) ==>
               |added| == |graph[pending[next].node].children|
               && forall k | 0 <= k < |added| :: added[k].node == graph[pending[next].node].children[k]
    ensures Discovered(graph, Without(pending, next) + added, seen + {pending[next].node}, after)
  {
    var left := Without(pending, next) + added;
    var e := pending[next];
    forall v, w | v in seen + {e.node} && v in graph && w in graph[v].children && w in graph
      ensures w in seen + {e.node} || (v in after && after[v] >= MAX_SNAPSHOT_DEPTH)
              || exists i | 0 <= i < |left| :: left[i].node == w
    {
      if expand && v == e.node {
        if !(e.authoritative && e.depth >= MAX_SNAPSHOT_DEPTH) {
          var k :| 0 <= k < |graph[v].children| && graph[v].children[k] == w;
          assert left[|pending| - 1 + k] == added[k];
        }
      } else if w !in seen && w != e.node && !(v in before && before[v] >= MAX_SNAPSHOT_DEPTH) {
        var i :| 0 <= i < |pending| && pending[i].node == w;
        assert left[if i < next then i else i - 1] == pending[i];
      }
    }
  }

  lemma PendingReachedStep(
    graph: Graph, roots: set<(NodeId, nat)>, pending: seq<Entry>, next: nat, added: seq<Entry>)
    requires PendingReached(graph, roots, pending) && next < |pending|
    requires added == [] || (
               && pending[next].node in graph
               && !(pending[next].authoritative && pending[next].depth >= MAX_SNAPSHOT_DEPTH)
               && added == Entries(graph[pending[next].node].children, pending[next].depth + 1,
                                   pending[next].authoritative && graph[pending[next].node].exact))
    ensures PendingReached(graph, roots, Without(pending, next) + added)
  {
    var left := Without(pending, next) + added;
    forall i | 0 <= i < |left| && left[i].authoritative && left[i].node in graph
      ensures ReachedAt(graph, roots, left[i].node, left[i].depth)
    {
      if i < |pending| - 1 {
        assert left[i] == if i < next then pending[i] else pending[i + 1];
      } else {
        ReachedChild(graph, roots, pending[next].node, pending[next].depth, left[i].node);
      }
    }
  }

  function Entries(children: seq<NodeId>, depth: nat, authoritative: bool): (r: seq<Entry>)
    ensures |r| == |children| && forall i | 0 <= i < |r| :: r[i] == Entry(children[i], depth, authoritative)
  {
    seq(|children|, i requires 0 <= i < |children| => Entry(children[i], depth, authoritative))
  }

  /** What is captured of a container is what it stores. */
  ghost predicate FrozenRight(graph: Graph, frozen: map<NodeId, seq<NodeId>>) {
    forall v | v in frozen :: v in graph && graph[v].exact && frozen[v] == graph[v].children
  }

  /** Every model and every exact container seen is captured. */
  ghost predicate AllFrozen(graph: Graph, seen: set<NodeId>, frozen: map<NodeId, seq<NodeId>>) {
    forall v | v in seen && v in graph && graph[v].exact :: v in frozen
  }

  /** What was captured stays captured, as it was. */
  ghost predicate StaysFrozen(frozen: map<NodeId, seq<NodeId>>, more: map<NodeId, seq<NodeId>>) {
    forall v | v in frozen :: v in more && more[v] == frozen[v]
  }

  /** What a container seen holds is seen too, unless an authoritative path reached it at the snapshot depth limit. */
  ghost predicate HeldAreSeen(graph: Graph, seen: set<NodeId>, authDepth: map<NodeId, nat>) {
    forall v, w | v in seen && v in graph && w in graph[v].children && w in graph ::
      w in seen || (v in authDepth && authDepth[v] >= MAX_SNAPSHOT_DEPTH)
  }

  /** The freezing of the graph below the roots of one validation call. */
  class GraphFreeze {
    const graph: Graph
    const budget: DiscoveryBudget
    var discovered: set<NodeId>
    var frozen: map<NodeId, seq<NodeId>>
    ghost var roots: set<(NodeId, nat)>

    ghost predicate Valid()
      reads this, budget
    {
      && budget.Valid()
      && discovered == budget.seen
      && FrozenRight(graph, frozen)
      && budget.seen <= graph.Keys
      && (!budget.exhausted ==>
            && ShortestDepths(graph, roots, budget.authDepth)
            && Relaxed(graph, roots, [], budget.authDepth)
            && Discovered(graph, [], budget.seen, budget.authDepth)
            && AllFrozen(graph, budget.seen, frozen))
    }

    constructor (graph: Graph, tier: Tier)
      ensures this.graph == graph && Valid() && fresh(budget)
      ensures !budget.exhausted && roots == {} && budget.tier == tier
    {
      this.graph := graph;
      budget := new DiscoveryBudget(tier);
      discovered, frozen, roots := {}, map[], {};
    }

    /** Visit one container and, when asked to expand it, charge and freeze its entries; the entries to visit next. */
    method Expand(e: Entry) returns (r: Charged<seq<Entry>>, ghost expand: bool)
      requires budget.Valid() && discovered == budget.seen && e.node in graph && !budget.exhausted
      requires FrozenRight(graph, frozen) && AllFrozen(graph, budget.seen, frozen)
      modifies this`discovered, this`frozen, budget
      ensures budget.Valid() && budget.exhausted == r.Exceeded?
      ensures FrozenRight(graph, frozen) && StaysFrozen(old(frozen), frozen)
      ensures r.Within? ==> AllFrozen(graph, budget.seen, frozen)
      ensures old(budget.edges) <= budget.edges
      ensures old(budget.seen) <= budget.seen <= old(budget.seen) + {e.node}
      ensures discovered == budget.seen
      ensures r.Within? ==> budget.seen == old(budget.seen) + {e.node}
      ensures r.Within? ==> budget.edges == old(budget.edges) + if expand then graph[e.node].entries else 0
      ensures r.Exceeded? ==>
                || e.depth > budget.tier.maxDepth
                || (e.node !in budget.seen && |budget.seen| >= budget.tier.maxNodes)
                || (e.node in budget.seen && budget.edges + graph[e.node].entries > budget.tier.maxEdges)
      ensures r.Within? ==> Recorded(e, old(budget.authDepth), budget.authDepth)
      ensures r.Within? ==> expand == old(budget.Expands(e.node, e.depth, e.authoritative))
      ensures r.Within? && !expand ==> r.value == [] && budget.authDepth == old(budget.authDepth)
      ensures r.Within? && expand && e.authoritative ==>
                e.node in budget.authDepth && budget.authDepth[e.node] == e.depth
      ensures r.Within? && expand ==>
                r.value == if e.authoritative && e.depth >= MAX_SNAPSHOT_DEPTH then []
                           else Entries(graph[e.node].children, e.depth + 1, e.authoritative && graph[e.node].exact)
      ensures r.Within? && expand && graph[e.node].exact ==> e.node in frozen
      ensures r.Within? ==> if expand then budget.Credits(graph) < old(budget.Credits(graph))
                            else budget.Credits(graph) == old(budget.Credits(graph))
    {
      expand := budget.Expands(e.node, e.depth, e.authoritative);
      ghost var credits, last := budget.Credits(graph), budget.Credit(e.node) - 1;
      var again :- budget.Visit(e.node, e.depth, e.authoritative);
      discovered := discovered + {e.node};
      assert budget.Credits(graph) <= credits;
      assert again ==> (e.node, last as nat) in credits && (e.node, last as nat) !in budget.Credits(graph);
      if !again {
        return Within([]), expand;
      }
      // The captured entries are charged on every expansion; nothing is read twice.
      var _ :- budget.ChargeEdge(graph[e.node].entries);
      if graph[e.node].exact {
        frozen := frozen[e.node := graph[e.node].children];
      }
      if e.authoritative && e.depth >= MAX_SNAPSHOT_DEPTH {
        return Within([]), expand;
      }
      return Within(Entries(graph[e.node].children, e.depth + 1, e.authoritative && graph[e.node].exact)), expand;
    }

    /** Take some entry off the worklist and put what it leads to on it. */
    method TakeAny(pending: seq<Entry>) returns (r: Charged<seq<Entry>>)
      requires budget.Valid() && discovered == budget.seen <= graph.Keys && !budget.exhausted && pending != []
      requires FrozenRight(graph, frozen) && AllFrozen(graph, budget.seen, frozen)
      requires Underway(graph, roots, pending, budget.seen, budget.authDepth)
      requires PendingMet(graph, roots, pending, budget.seen, budget.authDepth)
      modifies this`discovered, this`frozen, budget
      ensures budget.Valid() && budget.exhausted == r.Exceeded?
      ensures discovered == budget.seen && old(budget.seen) <= budget.seen <= graph.Keys
      ensures FrozenRight(graph, frozen) && StaysFrozen(old(frozen), frozen)
      ensures r.Within? ==> AllFrozen(graph, budget.seen, frozen)
      ensures old(budget.edges) <= budget.edges
      ensures r.Within? ==> Underway(graph, roots, r.value, budget.seen, budget.authDepth)
      ensures r.Within? ==> PendingMet(graph, roots, r.value, budget.seen, budget.authDepth)
      ensures r.Exceeded? ==> Overrun(graph, roots, budget.tier, budget.seen, budget.edges)
      ensures r.Within? ==> forall i | 0 <= i < |pending| && pending[i].node in graph ::
                pending[i].node in discovered || pending[i] in r.value
      ensures r.Within? ==>
                || budget.Credits(graph) < old(budget.Credits(graph))
                || (budget.Credits(graph) == old(budget.Credits(graph)) && |r.value| < |pending|)
    {
      hide Underway, PendingMet, MetAt, Met, SeesMore;
      var next :| 0 <= next < |pending|;
      ghost var before, seen, expand := budget.authDepth, budget.seen, false;
      if pending[next].node !in graph {
        LeafStep(graph, roots, pending, next, seen, before);
        SeesSame(seen, before);
        PendingMetStep(graph, roots, pending, next, seen, before, seen, before, []);
        return Within(Without(pending, next) + []);
      }
      NextMet(graph, roots, pending, next, seen, before);
      var added;
      added, expand := Expand(pending[next]);
      if added.Exceeded? {
        return Exceeded;
      }
      ExpandedStep(graph, roots, pending, next, seen, before, budget.authDepth, added.value, expand);
      RecordedSees(pending[next], seen, before, budget.authDepth);
      AddedMet(graph, roots, seen, before, budget.seen, budget.authDepth, pending[next], added.value, expand);
      PendingMetStep(graph, roots, pending, next, seen, before, budget.seen, budget.authDepth, added.value);
      return Within(Without(pending, next) + added.value);
    }

    /**
     Freeze what one more root reaches.  Within the budget, every authoritative depth is that of a shortest
     authoritative path from any root so far, whichever entry of the worklist is taken next; everything reached is
     discovered, and every model and exact container discovered is captured.  What was captured stays so.
     */
    method Freeze(root: NodeId, depth: nat) returns (r: Charged<()>)
      requires Valid()
      modifies this, budget
      ensures Valid() && roots == old(roots) + {(root, depth)}
      ensures budget.exhausted == r.Exceeded?
      ensures r.Within? ==> ShortestDepths(graph, roots, budget.authDepth)
      ensures r.Within? && root in graph ==> root in discovered
      ensures r.Exceeded? ==> old(budget.exhausted) || Overrun(graph, roots, budget.tier, budget.seen, budget.edges)
      ensures old(discovered) <= discovered && old(budget.edges) <= budget.edges
      ensures StaysFrozen(old(frozen), frozen) && FrozenRight(graph, frozen)
      ensures r.Within? ==> AllFrozen(graph, discovered, frozen)
      ensures r.Within? ==> HeldAreSeen(graph, discovered, budget.authDepth)
    {
      roots := roots + {(root, depth)};
      if budget.exhausted {
        return Exceeded;
      }
      var pending := [Entry(root, depth, true)];
      Started(graph, old(roots), root, depth, budget.seen, budget.authDepth);
      RootMet(graph, roots, budget.seen, budget.authDepth, root, depth);
      while pending != []
        invariant roots == old(roots) + {(root, depth)} && !budget.exhausted
        invariant budget.Valid() && discovered == budget.seen && old(discovered) <= discovered <= graph.Keys
        invariant FrozenRight(graph, frozen) && StaysFrozen(old(frozen), frozen)
        invariant AllFrozen(graph, budget.seen, frozen) && old(budget.edges) <= budget.edges
        invariant Underway(graph, roots, pending, budget.seen, budget.authDepth)
        invariant PendingMet(graph, roots, pending, budget.seen, budget.authDepth)
        invariant root in graph ==> root in discovered || exists i | 0 <= i < |pending| :: pending[i].node == root
        decreases budget.Credits(graph), |pending|
      {
        pending :- TakeAny(pending);
      }
      ClosedIsShortest(graph, roots, budget.authDepth);
      return Within(());
    }
  }

  /** Authoritative entries are only made along authoritative paths. */
  ghost predicate PendingReached(graph: Graph, roots: set<(NodeId, nat)>, pending: seq<Entry>) {
    forall i | 0 <= i < |pending| && pending[i].authoritative && pending[i].node in graph ::
      ReachedAt(graph, roots, pending[i].node, pending[i].depth)
  }

  /**
   A path that led to the entry: its containers before the last are distinct and were seen, with authoritative
   depths no deeper than on the path if the entry is authoritative.
   */
  ghost predicate MetBy(
    graph: Graph, roots: set<(NodeId, nat)>, seen: set<NodeId>, authDepth: map<NodeId, nat>, e: Entry,
    p: seq<NodeId>, start: nat)
  {
    && AnyPath(graph, p) && (p[0], start) in roots && p[|p| - 1] == e.node && start + |p| - 1 == e.depth
    && NoRepeats(p[..|p| - 1])
    && (forall i | 0 <= i < |p| - 1 :: p[i] in seen)
    && (e.authoritative ==> forall i | 0 <= i < |p| - 1 :: NoDeeper(authDepth, p[i], start + i))
  }

  ghost predicate NoDeeper(authDepth: map<NodeId, nat>, v: NodeId, d: nat) {
    v in authDepth && authDepth[v] <= d
  }

  ghost predicate Met(
    graph: Graph, roots: set<(NodeId, nat)>, seen: set<NodeId>, authDepth: map<NodeId, nat>, e: Entry)
  {
    exists p, start: nat :: MetBy(graph, roots, seen, authDepth, e, p, start)
  }

  ghost predicate PendingMet(
    graph: Graph, roots: set<(NodeId, nat)>, pending: seq<Entry>, seen: set<NodeId>, authDepth: map<NodeId, nat>)
  {
    forall i | 0 <= i < |pending| :: Met(graph, roots, seen, authDepth, pending[i])
  }

  lemma RootMet(
    graph: Graph, roots: set<(NodeId, nat)>, seen: set<NodeId>, authDepth: map<NodeId, nat>, root: NodeId, depth: nat)
    requires (root, depth) in roots
    ensures PendingMet(graph, roots, [Entry(root, depth, true)], seen, authDepth)
  {
    var p := [root];
    assert AnyPath(graph, p) && p[..|p| - 1] == [];
    assert MetBy(graph, roots, seen, authDepth, Entry(root, depth, true), p, depth);
  }

  lemma MetIsMet(
    graph: Graph, roots: set<(NodeId, nat)>, seen: set<NodeId>, authDepth: map<NodeId, nat>, e: Entry)
    requires Met(graph, roots, seen, authDepth, e)
    ensures MetAt(graph, roots, e.node, e.depth)
  {
    var p, start: nat :| MetBy(graph, roots, seen, authDepth, e, p, start);
  }

  /** More is seen, and authoritative depths only fall. */
  ghost predicate SeesMore(
    seen: set<NodeId>, before: map<NodeId, nat>, more: set<NodeId>, after: map<NodeId, nat>)
  {
    seen <= more && forall v | v in before :: v in after && after[v] <= before[v]
  }

  lemma StillMet(
    graph: Graph, roots: set<(NodeId, nat)>, seen: set<NodeId>, before: map<NodeId, nat>, more: set<NodeId>,
    after: map<NodeId, nat>, e: Entry)
    requires Met(graph, roots, seen, before, e) && SeesMore(seen, before, more, after)
    ensures Met(graph, roots, more, after, e)
  {
    var p, start: nat :| MetBy(graph, roots, seen, before, e, p, start);
    forall i | 0 <= i < |p| - 1 && e.authoritative ensures NoDeeper(after, p[i], start + i) {
      assert NoDeeper(before, p[i], start + i);
    }
    assert MetBy(graph, roots, more, after, e, p, start);
  }

  /** An entry that asks for expansion is not yet on the path that led to it: what it holds is met by a longer one. */
  lemma ChildMet(
    graph: Graph, roots: set<(NodeId, nat)>, seen: set<NodeId>, before: map<NodeId, nat>, more: set<NodeId>,
    after: map<NodeId, nat>, e: Entry, child: Entry)
    requires Met(graph, roots, seen, before, e) && SeesMore(seen, before, more, after) && e.node in more
    requires e.node !in seen || (e.authoritative && (e.node !in before || e.depth < before[e.node]))
    requires e.authoritative ==> e.node in after && after[e.node] <= e.depth
    requires e.node in graph && child.node in graph[e.node].children && child.depth == e.depth + 1
    requires child.authoritative ==> e.authoritative
    ensures Met(graph, roots, more, after, child)
  {
    var p, start: nat :| MetBy(graph, roots, seen, before, e, p, start);
    var q := p + [child.node];
    assert q[..|q| - 1] == p;
    assert NoRepeats(p) by {
      forall i | 0 <= i < |p| - 1 ensures p[i] != e.node {
        assert p[i] in seen && (e.authoritative ==> NoDeeper(before, p[i], start + i));
      }
      assert forall i | 0 <= i < |p| - 1 :: p[..|p| - 1][i] == p[i];
    }
    forall i | 0 <= i < |q| - 1 && child.authoritative ensures NoDeeper(after, q[i], start + i) {
      assert i < |p| - 1 ==> NoDeeper(before, p[i], start + i);
    }
    assert MetBy(graph, roots, more, after, child, q, start);
  }

  lemma PendingMetStep(
    graph: Graph, roots: set<(NodeId, nat)>, pending: seq<Entry>, next: nat, seen: set<NodeId>,
    before: map<NodeId, nat>, more: set<NodeId>, after: map<NodeId, nat>, added: seq<Entry>)
    requires PendingMet(graph, roots, pending, seen, before) && next < |pending|
    requires SeesMore(seen, before, more, after)
    requires forall i | 0 <= i < |added| :: Met(graph, roots, more, after, added[i])
    ensures PendingMet(graph, roots, Without(pending, next) + added, more, after)
  {
    hide Met, SeesMore;
    var left := Without(pending, next);
    forall i | 0 <= i < |left + added| ensures Met(graph, roots, more, after, (left + added)[i]) {
      if i < |left| {
        assert left[i] == pending[if i < next then i else i + 1];
        StillMet(graph, roots, seen, before, more, after, left[i]);
      }
    }
  }

  /** All that an expansion offers is met. */
  lemma AddedMet(
    graph: Graph, roots: set<(NodeId, nat)>, seen: set<NodeId>, before: map<NodeId, nat>, more: set<NodeId>,
    after: map<NodeId, nat>, e: Entry, added: seq<Entry>, expand: bool)
    requires Met(graph, roots, seen, before, e) && SeesMore(seen, before, more, after) && e.node in more
    requires e.node in graph && Recorded(e, before, after)
    requires expand == (e.node !in seen || (e.authoritative && (e.node !in before || e.depth < before[e.node])))
    requires !expand ==> added == []
    requires expand ==>
               added == if e.authoritative && e.depth >= MAX_SNAPSHOT_DEPTH then []
                        else Entries(graph[e.node].children, e.depth + 1, e.authoritative && graph[e.node].exact)
    ensures forall i | 0 <= i < |added| :: Met(graph, roots, more, after, added[i])
  {
    hide Met, SeesMore;
    forall i | 0 <= i < |added| ensures Met(graph, roots, more, after, added[i]) {
      ChildMet(graph, roots, seen, before, more, after, e, added[i]);
    }
  }

  lemma SeesSame(seen: set<NodeId>, authDepth: map<NodeId, nat>)
    ensures SeesMore(seen, authDepth, seen, authDepth)
  {
  }

  lemma NextMet(
    graph: Graph, roots: set<(NodeId, nat)>, pending: seq<Entry>, next: nat, seen: set<NodeId>,
    authDepth: map<NodeId, nat>)
    requires PendingMet(graph, roots, pending, seen, authDepth) && next < |pending|
    ensures Met(graph, roots, seen, authDepth, pending[next])
    ensures MetAt(graph, roots, pending[next].node, pending[next].depth)
  {
    MetIsMet(graph, roots, seen, authDepth, pending[next]);
  }

  lemma RecordedSees(e: Entry, seen: set<NodeId>, before: map<NodeId, nat>, after: map<NodeId, nat>)
    requires Recorded(e, before, after)
    ensures SeesMore(seen, before, seen + {e.node}, after)
  {
  }

  /** Between two entries of the worklist: what is settled, and what is still to be visited. */
  ghost predicate Underway(
    graph: Graph, roots: set<(NodeId, nat)>, pending: seq<Entry>, seen: set<NodeId>, authDepth: map<NodeId, nat>)
  {
    && (forall v | v in authDepth :: ReachedAt(graph, roots, v, authDepth[v]))
    && PendingReached(graph, roots, pending)
    && Relaxed(graph, roots, pending, authDepth)
    && Discovered(graph, pending, seen, authDepth)
  }

  lemma ExpandedStep(
    graph: Graph, roots: set<(NodeId, nat)>, pending: seq<Entry>, next: nat, seen: set<NodeId>,
    before: map<NodeId, nat>, after: map<NodeId, nat>, added: seq<Entry>, expand: bool)
    requires Underway(graph, roots, pending, seen, before) && next < |pending|
    requires pending[next].node in graph && Recorded(pending[next], before, after)
    requires !expand ==> pending[next].node in seen && after == before && added == []
    requires expand && pending[next].authoritative ==>
               pending[next].node in after && after[pending[next].node] == pending[next].depth
    requires expand ==>
               added == if pending[next].authoritative && pending[next].depth >= MAX_SNAPSHOT_DEPTH then []
                        else Entries(graph[pending[next].node].children, pending[next].depth + 1,
                                     pending[next].authoritative && graph[pending[next].node].exact)
    ensures Underway(graph, roots, Without(pending, next) + added, seen + {pending[next].node}, after)
  {
    RelaxedStep(graph, roots, pending, next, before, after, added);
    DiscoveredStep(graph, pending, next, seen, before, after, added, expand);
    PendingReachedStep(graph, roots, pending, next, added);
  }

  /** An identity that is no container is simply dropped. */
  lemma LeafStep(
    graph: Graph, roots: set<(NodeId, nat)>, pending: seq<Entry>, next: nat,
    seen: set<NodeId>, authDepth: map<NodeId, nat>)
    requires next < |pending| && pending[next].node !in graph
    requires Underway(graph, roots, pending, seen, authDepth)
    ensures Underway(graph, roots, Without(pending, next) + [], seen, authDepth)
  {
    var left := Without(pending, next) + [];
    forall i | 0 <= i < |pending| && i != next ensures pending[i] in left {
      assert left[if i < next then i else i - 1] == pending[i];
    }
    forall w, d: nat | w in graph && Covered(pending, authDepth, w, d) ensures Covered(left, authDepth, w, d) {
      if !(w in authDepth && authDepth[w] <= d) {
        var i :| 0 <= i < |pending| && pending[i].node == w && pending[i].authoritative && pending[i].depth <= d;
        assert pending[i] in left;
      }
    }
    PendingReachedStep(graph, roots, pending, next, []);
  }

  lemma Started(
    graph: Graph, roots: set<(NodeId, nat)>, root: NodeId, depth: nat,
    seen: set<NodeId>, authDepth: map<NodeId, nat>)
    requires ShortestDepths(graph, roots, authDepth)
    requires Relaxed(graph, roots, [], authDepth) && Discovered(graph, [], seen, authDepth)
    ensures Underway(graph, roots + {(root, depth)}, [Entry(root, depth, true)], seen, authDepth)
  {
    var pending := [Entry(root, depth, true)];
    assert pending[0] == Entry(root, depth, true);
    if root in graph {
      ReachedRoot(graph, roots + {(root, depth)}, root, depth);
    }
    forall r, start: nat | (r, start) in roots && r in graph ensures Covered(pending, authDepth, r, start) {
      assert Covered([], authDepth, r, start);
    }
    forall v, w | v in authDepth && Steps(graph, v, w) && authDepth[v] < MAX_SNAPSHOT_DEPTH
      ensures Covered(pending, authDepth, w, authDepth[v] + 1)
    {
      assert Covered([], authDepth, w, authDepth[v] + 1);
    }
  }

  lemma ClosedIsShortest(graph: Graph, roots: set<(NodeId, nat)>, authDepth: map<NodeId, nat>)
    requires Relaxed(graph, roots, [], authDepth)
    ensures forall v, d: nat | ReachedAt(graph, roots, v, d) :: v in authDepth && authDepth[v] <= d
  {
    forall v, d: nat | ReachedAt(graph, roots, v, d) ensures v in authDepth && authDepth[v] <= d {
      var p, start: nat :| AuthoritativePath(graph, p, start) && (p[0], start) in roots
                           && p[|p| - 1] == v && start + |p| - 1 == d;
      NoShorterPath(graph, roots, authDepth, p, start);
    }
  }
}

/** The depth-first ordering of processing stages after their upstreams. */
module StageOrder {

  type Stage = string

  /** The stages each stage consumes. */
  type Upstreams = map<Stage, seq<Stage>>

  ghost predicate Closed(graph: Upstreams) {
    forall s, u | s in graph && u in graph[s] :: u in graph
  }

  /** Each stage of `p` has the next one as an upstream. */
  ghost predicate Chain(graph: Upstreams, p: seq<Stage>) {
    && (forall i | 0 <= i < |p| :: p[i] in graph)
    && (forall i | 0 <= i < |p| - 1 :: p[i + 1] in graph[p[i]])
  }

  ghost predicate Cycle(graph: Upstreams, p: seq<Stage>) {
    Chain(graph, p) && |p| >= 2 && p[0] == p[|p| - 1]
  }

  ghost predicate Acyclic(graph: Upstreams) {
    forall p :: !Cycle(graph, p)
  }

  /** Distinct stages, each after all its upstreams. */
  ghost predicate Ordered(graph: Upstreams, order: seq<Stage>) {
    && (forall i, k | 0 <= i < k < |order| :: order[i] != order[k])
    && (forall i | 0 <= i < |order| :: order[i] in graph && forall u | u in graph[order[i]] :: u in order[..i])
  }

  function Position(order: seq<Stage>, s: Stage): (i: nat)
    requires s in order
    ensures i < |order| && order[i] == s
  {
    if order[0] == s then 0 else 1 + Position(order[1..], s)
  }

  lemma ChainTail(graph: Upstreams, p: seq<Stage>, i: nat)
    requires Chain(graph, p) && i <= |p|
    ensures Chain(graph, p[i..])
  {
    var q := p[i..];
    forall k | 0 <= k < |q| - 1 ensures q[k + 1] in graph[q[k]] {
      assert p[i + k + 1] in graph[p[i + k]];
    }
  }

  lemma ChainExtended(graph: Upstreams, p: seq<Stage>, s: Stage)
    requires Chain(graph, p) && p != [] && s in graph && s in graph[p[|p| - 1]]
    ensures Chain(graph, p + [s])
  {
  }

  lemma OrderExtended(graph: Upstreams, order: seq<Stage>, s: Stage)
    requires Ordered(graph, order) && s in graph && s !in order
    requires forall u | u in graph[s] :: u in order
    ensures Ordered(graph, order + [s])
  {
    var longer := order + [s];
    forall i | 0 <= i < |longer|
      ensures longer[i] in graph && forall u | u in graph[longer[i]] :: u in longer[..i]
    {
      assert longer[..i] == order[..i];
    }
  }

  /** Along a chain, positions in an order descend. */
  lemma {:induction false} ChainDescends(graph: Upstreams, order: seq<Stage>, p: seq<Stage>)
    requires Ordered(graph, order) && Chain(graph, p) && |p| >= 2 && p[0] in order
    ensures p[|p| - 1] in order && Position(order, p[|p| - 1]) < Position(order, p[0])
  {
    assert p[1] in graph[p[0]];
    assert p[1] in order[..Position(order, p[0])];
    if |p| > 2 {
      ChainTail(graph, p, 1);
      ChainDescends(graph, order, p[1..]);
    }
  }

  /** A graph all of whose stages can be ordered has no cycle. */
  lemma OrderedIsAcyclic(graph: Upstreams, order: seq<Stage>)
    requires Ordered(graph, order) && forall s | s in graph :: s in order
    ensures Acyclic(graph)
  {
    forall p ensures !Cycle(graph, p) {
      if Cycle(graph, p) {
        ChainDescends(graph, order, p);
      }
    }
  }

  /** The state shared by the recursive visits of one ordering. */
  class Sorter {
    const graph: Upstreams
    var visiting: set<Stage>
    var visited: set<Stage>
    var ordered: seq<Stage>

    ghost predicate Valid()
      reads this
    {
      && Closed(graph)
      && Ordered(graph, ordered)
      && visited == (set s | s in ordered)
      && visiting <= graph.Keys
    }

    constructor (graph: Upstreams)
      requires Closed(graph)
      ensures this.graph == graph && Valid() && visiting == {} && ordered == []
    {
      this.graph := graph;
      visiting, visited, ordered := {}, {}, [];
    }

    /**
     Order `stage` after everything it consumes.  `trail` is the chain of stages being visited; meeting one
     of them again closes a cycle.
     */
    method Visit(stage: Stage, ghost trail: seq<Stage>) returns (acyclic: bool)
      requires Valid() && stage in graph
      requires visiting == (set s | s in trail) && Chain(graph, trail + [stage])
      modifies this
      ensures Valid() && old(ordered) <= ordered
      ensures acyclic ==> visiting == old(visiting) && stage in visited
      ensures acyclic ==> forall s | s in visiting && s !in old(visited) :: s !in visited
      ensures !acyclic ==> !Acyclic(graph)
      decreases graph.Keys - visiting, 1
    {
      if stage in visiting {
        ghost var i :| 0 <= i < |trail| && trail[i] == stage;
        ChainTail(graph, trail + [stage], i);
        assert Cycle(graph, (trail + [stage])[i..]);
        return false;
      }
      if stage in visited {
        return true;
      }
      visiting := visiting + {stage};
      ghost var longer := trail + [stage];
      var upstream := graph[stage];
      for index := 0 to |upstream|
        invariant Valid() && old(ordered) <= ordered
        invariant visiting == old(visiting) + {stage}
        invariant forall s | s in visiting && s !in old(visited) :: s !in visited
        invariant forall k | 0 <= k < index :: upstream[k] in visited
      {
        ChainExtended(graph, longer, upstream[index]);
        assert graph.Keys - visiting < graph.Keys - old(visiting) by {
          assert stage in graph.Keys - old(visiting) && stage !in graph.Keys - visiting;
        }
        acyclic := Visit(upstream[index], longer);
        if !acyclic {
          return false;
        }
      }
      OrderExtended(graph, ordered, stage);
      visiting := visiting - {stage};
      visited := visited + {stage};
      ordered := ordered + [stage];
      return true;
    }

    /** Visit every stage; the stages come out once each, after their upstreams, exactly when there is no cycle. */
    method Sort() returns (acyclic: bool)
      requires Valid() && visiting == {} && ordered == []
      modifies this
      ensures acyclic <==> Acyclic(graph)
      ensures acyclic ==> Ordered(graph, ordered) && forall s :: s in ordered <==> s in graph
    {
      var todo := graph.Keys;
      while todo != {}
        invariant Valid() && visiting == {} && todo <= graph.Keys
        invariant forall s | s in graph && s !in todo :: s in visited
        decreases |todo|
      {
        var stage :| stage in todo;
        todo := todo - {stage};
        acyclic := Visit(stage, []);
        if !acyclic {
          return false;
        }
      }
      OrderedIsAcyclic(graph, ordered);
      return true;
    }
  }

  /** The stages in an order that puts each after its upstreams, or no order when the graph is cyclic. */
  method TopologicalStages(graph: Upstreams) returns (acyclic: bool, order: seq<Stage>)
    requires Closed(graph)
    ensures acyclic <==> Acyclic(graph)
    ensures acyclic ==> Ordered(graph, order) && forall s :: s in order <==> s in graph
  {
    var sorter := new Sorter(graph);
    acyclic := sorter.Sort();
    order := sorter.ordered;
  }
}

/**
 The depth limit on a captured graph: heights are remembered so a shared subtree is not walked again, and a
 height found late is carried to every ancestor.  The graph may hold itself.
 */
module Heights {
  import opened NativeGraph

  type Heights = map<Id, nat>

  /** The height on record, zero for a container with none. */
  function HeightOf(heights: Heights, id: Id): nat {
    if id in heights then heights[id] else 0
  }

  function DepthOf(reached: map<Id, nat>, id: Id): nat {
    if id in reached then reached[id] else 0
  }

  type Parents = map<Id, set<Id>>

  /** The recorded holders, each with what it holds. */
  ghost function Recorded(parents: Parents): Edges {
    set c, p | c in parents && p in parents[c] :: (p, c)
  }

  function HoldersOf(parents: Parents, id: Id): set<Id> {
    if id in parents then parents[id] else {}
  }

  // ---------------------------------------------------------------- heights found late

  ghost predicate AtLeast(heights: Heights, least: Heights) {
    && least.Keys <= heights.Keys
    && (forall id :: HeightOf(least, id) <= HeightOf(heights, id))
    && (forall id | id in heights && id !in least :: heights[id] > 0)
  }

  ghost predicate Higher(heights: Heights, p: Id, c: Id) {
    HeightOf(heights, p) >= HeightOf(heights, c) + 1
  }

  /** The holder was higher before, or what it holds was raised. */
  ghost predicate Owed(before: Heights, heights: Heights, p: Id, c: Id) {
    Higher(before, p, c) || HeightOf(heights, c) > HeightOf(before, c)
  }

  ghost predicate HoldersFollow(edges: Edges, before: Heights, heights: Heights) {
    forall p, c | (p, c) in edges && Owed(before, heights, p, c) :: Higher(heights, p, c)
  }

  /** `grown` is `height` and the length of a path from `n` to `id`. */
  ghost predicate Justified(edges: Edges, id: Id, height: nat, n: Id, grown: nat) {
    grown >= height && Leads(edges, n, id, grown - height)
  }

  /** What was raised has a path for its height, and is within the limit at the deepest level it was reached. */
  ghost predicate RaisedRightly(
    edges: Edges, reached: map<Id, nat>, maxDepth: nat, id: Id, height: nat, before: Heights, heights: Heights)
  {
    forall n | HeightOf(heights, n) != HeightOf(before, n) ::
      && Justified(edges, id, height, n, HeightOf(heights, n))
      && DepthOf(reached, n) + HeightOf(heights, n) <= maxDepth
  }

  /** A container that holds `id` at some depth was reached so deep that the new height puts it past the limit. */
  ghost predicate PastLimit(edges: Edges, reached: map<Id, nat>, maxDepth: nat, id: Id, height: nat) {
    exists n, k: nat :: Leads(edges, n, id, k) && DepthOf(reached, n) + height + k > maxDepth
  }

  type Growth = (Id, nat)

  ghost predicate Planned(work: seq<Growth>, id: Id, height: nat) {
    exists i | 0 <= i < |work| :: work[i].0 == id && work[i].1 >= height
  }

  /** Every holder that must follow is higher, or a large enough growth of it is still to be made. */
  ghost predicate Growing(edges: Edges, before: Heights, heights: Heights, work: seq<Growth>) {
    forall p, c | (p, c) in edges && Owed(before, heights, p, c) ::
      Higher(heights, p, c) || Planned(work, p, HeightOf(heights, c) + 1)
  }

  ghost predicate AllJustified(edges: Edges, id: Id, height: nat, work: seq<Growth>) {
    forall i | 0 <= i < |work| :: Justified(edges, id, height, work[i].0, work[i].1)
  }

  /** Between two growths. */
  ghost predicate Underway(
    edges: Edges, reached: map<Id, nat>, maxDepth: nat, id: Id, height: nat,
    before: Heights, heights: Heights, work: seq<Growth>)
  {
    && AtLeast(heights, before)
    && Growing(edges, before, heights, work)
    && (HeightOf(heights, id) >= height || Planned(work, id, height))
    && RaisedRightly(edges, reached, maxDepth, id, height, before, heights)
    && AllJustified(edges, id, height, work)
  }

  /** All that a growth may reach. */
  ghost function Nodes(edges: Edges, id: Id): set<Id> {
    {id} + set e | e in edges :: e.0
  }

  /** How much each container could still grow within the limit. */
  ghost function Room(nodes: set<Id>, heights: Heights, maxDepth: nat): set<Growth> {
    set n, k: nat | n in nodes && HeightOf(heights, n) < k <= maxDepth :: (n, k)
  }

  lemma {:induction false} StartsAtHolder(edges: Edges, a: Id, b: Id, n: nat)
    requires Leads(edges, a, b, n)
    ensures a in Nodes(edges, b)
    decreases n
  {
    if n > 0 {
      var c :| Leads(edges, a, c, n - 1) && (c, b) in edges;
      if n > 1 {
        StartsAtHolder(edges, a, c, n - 1);
      }
    }
  }

  /** Plan the growth of every recorded holder. */
  method Plan(holders: set<Id>, grown: nat) returns (work: seq<Growth>)
    ensures forall g :: g in work <==> g.0 in holders && g.1 == grown
  {
    work := [];
    var left := holders;
    while left != {}
      invariant left <= holders
      invariant forall g :: g in work <==> g.0 in holders - left && g.1 == grown
      decreases |left|
    {
      var p :| p in left;
      left := left - {p};
      work := work + [(p, grown)];
    }
  }

  /**
   Raise a container's height and carry the increase to its holders, each checked at the deepest level it was
   reached.  Every holder that was higher than what it holds, or whose content grew, ends up higher; nothing is
   raised further than some path requires.  It ends even if the recorded holders form a cycle.
   */
  method GrowHeight(
    before: Heights, reached: map<Id, nat>, parents: Parents, maxDepth: nat, id: Id, height: nat)
    returns (ok: bool, heights: Heights)
    ensures ok ==> AtLeast(heights, before) && HeightOf(heights, id) >= height
    ensures ok ==> HoldersFollow(Recorded(parents), before, heights)
    ensures ok ==> RaisedRightly(Recorded(parents), reached, maxDepth, id, height, before, heights)
    ensures !ok ==> PastLimit(Recorded(parents), reached, maxDepth, id, height)
  {
    ghost var edges := Recorded(parents);
    heights := before;
    var work: seq<Growth> := [(id, height)];
    assert work[0] == (id, height) && Leads(edges, id, id, 0);
    ok := true;
    while work != []
      invariant Underway(edges, reached, maxDepth, id, height, before, heights, work)
      decreases Room(Nodes(edges, id), heights, maxDepth), |work|
    {
      ok, heights, work := TakeGrowth(reached, parents, maxDepth, id, height, before, heights, work);
      if !ok {
        return;
      }
    }
  }

  method TakeGrowth(
    reached: map<Id, nat>, parents: Parents, maxDepth: nat, ghost id: Id, ghost height: nat,
    ghost before: Heights, heights: Heights, planned: seq<Growth>)
    returns (ok: bool, higher: Heights, work: seq<Growth>)
    requires planned != []
    requires Underway(Recorded(parents), reached, maxDepth, id, height, before, heights, planned)
    ensures !ok ==> PastLimit(Recorded(parents), reached, maxDepth, id, height)
    ensures ok ==> Underway(Recorded(parents), reached, maxDepth, id, height, before, higher, work)
    ensures ok ==>
              var nodes := Nodes(Recorded(parents), id);
              || Room(nodes, higher, maxDepth) < Room(nodes, heights, maxDepth)
              || (higher == heights && |work| < |planned|)
  {
    hide Underway, PastLimit, Room, Nodes, Leads, Recorded;
    ghost var edges := Recorded(parents);
    var node, grown := planned[|planned| - 1].0, planned[|planned| - 1].1;
    higher, work := heights, planned[..|planned| - 1];
    assert planned == work + [(node, grown)];
    LastJustified(edges, reached, maxDepth, id, height, before, heights, work, node, grown);
    if grown <= HeightOf(heights, node) {
      Satisfied(edges, reached, maxDepth, id, height, before, heights, work, node, grown);
      ok := true;
    } else if DepthOf(reached, node) + grown > maxDepth {
      GrowthPastLimit(edges, reached, maxDepth, id, height, node, grown);
      ok := false;
    } else {
      var more := Plan(HoldersOf(parents, node), grown + 1);
      PlannedHolders(parents, node, grown, more);
      Grown(edges, reached, maxDepth, id, height, before, heights, work, node, grown, more);
      StartsAtHolder(edges, node, id, grown - height);
      LessRoom(Nodes(edges, id), heights, node, grown, maxDepth);
      ok, higher, work := true, heights[node := grown], work + more;
    }
  }

  lemma LastJustified(
    edges: Edges, reached: map<Id, nat>, maxDepth: nat, id: Id, height: nat, before: Heights, heights: Heights,
    work: seq<Growth>, node: Id, grown: nat)
    requires Underway(edges, reached, maxDepth, id, height, before, heights, work + [(node, grown)])
    ensures Justified(edges, id, height, node, grown)
  {
    assert (work + [(node, grown)])[|work|] == (node, grown);
  }

  lemma GrowthPastLimit(
    edges: Edges, reached: map<Id, nat>, maxDepth: nat, id: Id, height: nat, node: Id, grown: nat)
    requires Justified(edges, id, height, node, grown) && DepthOf(reached, node) + grown > maxDepth
    ensures PastLimit(edges, reached, maxDepth, id, height)
  {
  }

  lemma LessRoom(nodes: set<Id>, heights: Heights, node: Id, grown: nat, maxDepth: nat)
    requires node in nodes && HeightOf(heights, node) < grown <= maxDepth
    ensures Room(nodes, heights[node := grown], maxDepth) < Room(nodes, heights, maxDepth)
  {
    assert (node, grown) in Room(nodes, heights, maxDepth);
    assert (node, grown) !in Room(nodes, heights[node := grown], maxDepth);
  }

  /** The holders of `node`, each planned one higher. */
  ghost predicate PlansHolders(edges: Edges, node: Id, grown: nat, more: seq<Growth>) {
    forall g :: g in more <==> (g.0, node) in edges && g.1 == grown + 1
  }

  lemma PlannedHolders(parents: Parents, node: Id, grown: nat, more: seq<Growth>)
    requires forall g :: g in more <==> g.0 in HoldersOf(parents, node) && g.1 == grown + 1
    ensures PlansHolders(Recorded(parents), node, grown, more)
  {
  }

  lemma PlannedLess(work: seq<Growth>, node: Id, grown: nat, n: Id, height: nat)
    requires Planned(work + [(node, grown)], n, height)
    ensures Planned(work, n, height) || (n == node && height <= grown)
  {
    var planned := work + [(node, grown)];
    var i :| 0 <= i < |planned| && planned[i].0 == n && planned[i].1 >= height;
    if i < |work| { assert work[i] == planned[i]; }
  }

  lemma PlannedMore(work: seq<Growth>, more: seq<Growth>, n: Id, height: nat)
    requires Planned(work, n, height) || (n, height) in more
    ensures Planned(work + more, n, height)
  {
    if (n, height) in more {
      var i :| 0 <= i < |more| && more[i] == (n, height);
      assert (work + more)[|work| + i] == (n, height);
    } else {
      var i :| 0 <= i < |work| && work[i].0 == n && work[i].1 >= height;
      assert (work + more)[i] == work[i];
    }
  }

  /** A growth already made is dropped. */
  lemma Satisfied(
    edges: Edges, reached: map<Id, nat>, maxDepth: nat, id: Id, height: nat, before: Heights, heights: Heights,
    work: seq<Growth>, node: Id, grown: nat)
    requires Underway(edges, reached, maxDepth, id, height, before, heights, work + [(node, grown)])
    requires grown <= HeightOf(heights, node)
    ensures Underway(edges, reached, maxDepth, id, height, before, heights, work)
  {
    hide Planned, Leads, RaisedRightly, AtLeast, Owed;
    var planned := work + [(node, grown)];
    if HeightOf(heights, id) < height {
      PlannedLess(work, node, grown, id, height);
    }
    forall p, c | (p, c) in edges && Owed(before, heights, p, c) && !Higher(heights, p, c)
      ensures Planned(work, p, HeightOf(heights, c) + 1)
    {
      PlannedLess(work, node, grown, p, HeightOf(heights, c) + 1);
    }
    assert forall i | 0 <= i < |work| :: planned[i] == work[i];
  }

  /** A growth that is made leaves the growth of its holders to be made. */
  lemma Grown(
    edges: Edges, reached: map<Id, nat>, maxDepth: nat, id: Id, height: nat, before: Heights, heights: Heights,
    work: seq<Growth>, node: Id, grown: nat, more: seq<Growth>)
    requires Underway(edges, reached, maxDepth, id, height, before, heights, work + [(node, grown)])
    requires HeightOf(heights, node) < grown && DepthOf(reached, node) + grown <= maxDepth
    requires PlansHolders(edges, node, grown, more)
    ensures Underway(edges, reached, maxDepth, id, height, before, heights[node := grown], work + more)
  {
    hide Planned, Leads;
    var planned, higher := work + [(node, grown)], heights[node := grown];
    LastJustified(edges, reached, maxDepth, id, height, before, heights, work, node, grown);
    if HeightOf(higher, id) < height {
      PlannedLess(work, node, grown, id, height);
      PlannedMore(work, more, id, height);
    }
    assert Growing(edges, before, higher, work + more) by {
      forall p, c | (p, c) in edges && Owed(before, higher, p, c) && !Higher(higher, p, c)
        ensures Planned(work + more, p, HeightOf(higher, c) + 1)
      {
        GrownEdge(edges, before, heights, work, node, grown, more, p, c);
      }
    }
    MoreJustified(edges, id, height, work, node, grown, more);
  }

  lemma GrownEdge(
    edges: Edges, before: Heights, heights: Heights, work: seq<Growth>, node: Id, grown: nat, more: seq<Growth>,
    p: Id, c: Id)
    requires Growing(edges, before, heights, work + [(node, grown)]) && PlansHolders(edges, node, grown, more)
    requires HeightOf(heights, node) < grown && (p, c) in edges
    requires Owed(before, heights[node := grown], p, c) && !Higher(heights[node := grown], p, c)
    ensures Planned(work + more, p, HeightOf(heights[node := grown], c) + 1)
  {
    hide Planned;
    if c == node {
      assert (p, grown + 1) in more;
      PlannedMore(work, more, p, grown + 1);
    } else {
      PlannedLess(work, node, grown, p, HeightOf(heights, c) + 1);
      PlannedMore(work, more, p, HeightOf(heights, c) + 1);
    }
  }

  lemma MoreJustified(
    edges: Edges, id: Id, height: nat, work: seq<Growth>, node: Id, grown: nat, more: seq<Growth>)
    requires AllJustified(edges, id, height, work + [(node, grown)]) && PlansHolders(edges, node, grown, more)
    ensures AllJustified(edges, id, height, work + more)
  {
    hide Leads;
    var planned := work + [(node, grown)];
    assert planned[|work|] == (node, grown);
    forall i | 0 <= i < |work + more| ensures Justified(edges, id, height, (work + more)[i].0, (work + more)[i].1) {
      if i < |work| {
        assert (work + more)[i] == planned[i];
      } else {
        var g := more[i - |work|];
        assert g in more;
        LeadsThrough(edges, g.0, node, id, grown - height);
      }
    }
  }

  // ---------------------------------------------------------------- the state of a capture

  datatype Captured = Level(height: int) | TooDeep

  /** All a container holds is captured, and the container higher, unless something holds itself. */
  ghost predicate Settled(edges: Edges, late: Edges, visited: set<Id>, heights: Heights, p: Id, height: nat) {
    forall c | (p, c) in edges && (p, c) !in late ::
      c in visited && ((c in heights && height > heights[c]) || Cyclic(edges))
  }

  ghost predicate AllSettled(edges: Edges, late: Edges, visited: set<Id>, heights: Heights) {
    forall p | p in heights :: Settled(edges, late, visited, heights, p, heights[p])
  }

  ghost predicate ReachedRightly(edges: Edges, root: Id, visited: set<Id>, reached: map<Id, nat>) {
    && visited <= reached.Keys
    && forall n | n in reached :: Leads(edges, root, n, reached[n])
  }

  ghost predicate HasPaths(edges: Edges, heights: Heights) {
    forall n | n in heights :: HasPath(edges, n, heights[n])
  }

  /** What the captured containers hold is recorded, and nothing else but what was found late. */
  ghost predicate RecordedRightly(heap: Heap, edges: Edges, found: Edges, visited: set<Id>, heights: Heights) {
    && heights.Keys <= visited <= heap.Keys
    && (forall e | e in edges :: e.0 in visited)
    && found <= edges <= EdgesOf(heap) + found
    && (forall e | e in EdgesOf(heap) && e.0 in heights :: e in edges)
  }

  /** The containers still being captured are all on the path to `id`. */
  ghost predicate OnTheWay(edges: Edges, pending: set<Id>, id: Id) {
    forall n | n in pending :: exists k: nat :: Leads(edges, n, id, k)
  }

  /** Heights stay, and no container of `known` gets an entry recorded. */
  ghost predicate GoesOn(edges: Edges, heights: Heights, known: set<Id>, more: Edges, higher: Heights) {
    && edges <= more
    && (forall e | e in more && e !in edges :: e.0 !in known)
    && (forall n | n in heights :: n in higher && higher[n] == heights[n])
  }

  ghost predicate Capturing(
    heap: Heap, root: Id, edges: Edges, found: Edges, late: Edges, visited: set<Id>, heights: Heights,
    reached: map<Id, nat>)
  {
    && RecordedRightly(heap, edges, found, visited, heights)
    && ReachedRightly(edges, root, visited, reached)
    && HasPaths(edges, heights)
    && AllSettled(edges, late, visited, heights)
  }

  /** What a capture returns for a value reached at `depth`. */
  ghost predicate Answers(
    edges: Edges, visited: set<Id>, heights: Heights, pending: set<Id>, v: Value, depth: nat, maxDepth: nat,
    height: int)
  {
    if v.Leaf? then height == -1
    else
      && v.id in visited && height >= 0 && depth + height <= maxDepth && HasPath(edges, v.id, height)
      && if v.id in heights then height == heights[v.id] else v.id in pending
  }

  /** What is known of a container whose entries were captured so far. */
  ghost predicate Filled(
    edges: Edges, late: Edges, visited: set<Id>, heights: Heights, id: Id, depth: nat, maxDepth: nat, height: int)
  {
    height >= 0 && depth + height <= maxDepth && HasPath(edges, id, height)
    && Settled(edges, late, visited, heights, id, height)
  }

  /** The entries of a container before `count` are recorded. */
  ghost predicate EntriesRecorded(heap: Heap, edges: Edges, id: Id, count: nat)
    requires id in heap && count <= |heap[id].entries|
  {
    forall i | 0 <= i < count && heap[id].entries[i].value.Container? ::
      (id, heap[id].entries[i].value.id) in edges
  }

  // ---------------------------------------------------------------- steps of a capture

  lemma SettledStays(
    edges: Edges, late: Edges, visited: set<Id>, heights: Heights, p: Id, height: nat, known: set<Id>,
    more: Edges, seen: set<Id>, higher: Heights, taller: nat)
    requires Settled(edges, late, visited, heights, p, height) && height <= taller
    requires GoesOn(edges, heights, known, more, higher) && p in known && visited <= seen
    ensures Settled(more, late, seen, higher, p, taller)
  {
    hide Cyclic;
    if Cyclic(edges) {
      CyclicStill(edges, more);
    }
  }

  lemma OnTheWayStill(edges: Edges, more: Edges, pending: set<Id>, id: Id)
    requires edges <= more && OnTheWay(edges, pending, id)
    ensures OnTheWay(more, pending, id)
  {
    forall n | n in pending ensures exists k: nat :: Leads(more, n, id, k) {
      var k: nat :| Leads(edges, n, id, k);
      LeadsStill(edges, more, n, id, k);
    }
  }

  /** A container about to be captured is on the way to what it holds. */
  lemma OnTheWayIn(edges: Edges, pending: set<Id>, id: Id)
    requires OnTheWay(edges, pending, id)
    ensures OnTheWay(edges, pending + {id}, id)
  {
    assert Leads(edges, id, id, 0);
  }

  /** What is held by the container being filled is reached on its way, one level deeper. */
  lemma OneDeeper(edges: Edges, root: Id, pending: set<Id>, id: Id, depth: nat, c: Id)
    requires Leads(edges, root, id, depth) && OnTheWay(edges, pending, id)
    ensures Leads(edges + {(id, c)}, root, c, depth + 1) && OnTheWay(edges + {(id, c)}, pending, c)
  {
    var more := edges + {(id, c)};
    LeadsStill(edges, more, root, id, depth);
    LeadsOn(more, root, id, depth, c);
    forall n | n in pending ensures exists k: nat :: Leads(more, n, c, k) {
      var k: nat :| Leads(edges, n, id, k);
      LeadsStill(edges, more, n, id, k);
      LeadsOn(more, n, id, k, c);
    }
  }

  lemma HeldIsCyclic(edges: Edges, pending: set<Id>, id: Id, c: Id)
    requires OnTheWay(edges, pending, id) && c in pending && (id, c) in edges
    ensures Cyclic(edges)
  {
    var k: nat :| Leads(edges, c, id, k);
    LeadsOn(edges, c, id, k, c);
  }

  lemma AllSettledStay(
    edges: Edges, late: Edges, visited: set<Id>, heights: Heights, more: Edges, seen: set<Id>)
    requires AllSettled(edges, late, visited, heights) && edges <= more && visited <= seen
    requires forall e | e in more && e !in edges :: e.0 !in heights
    ensures AllSettled(more, late, seen, heights)
  {
    hide Settled;
    assert GoesOn(edges, heights, heights.Keys, more, heights);
    forall p | p in heights ensures Settled(more, late, seen, heights, p, heights[p]) {
      SettledStays(edges, late, visited, heights, p, heights[p], heights.Keys, more, seen, heights, heights[p]);
    }
  }

  lemma ReachedStill(edges: Edges, more: Edges, root: Id, visited: set<Id>, reached: map<Id, nat>)
    requires ReachedRightly(edges, root, visited, reached) && edges <= more
    ensures ReachedRightly(more, root, visited, reached)
  {
    forall n | n in reached ensures Leads(more, root, n, reached[n]) {
      LeadsStill(edges, more, root, n, reached[n]);
    }
  }

  lemma HasPathsStill(edges: Edges, more: Edges, heights: Heights)
    requires HasPaths(edges, heights) && edges <= more
    ensures HasPaths(more, heights)
  {
    forall n | n in heights ensures HasPath(more, n, heights[n]) {
      HasPathStill(edges, more, n, heights[n]);
    }
  }

  /** An entry of a container being filled is recorded. */
  lemma Adopted(
    heap: Heap, root: Id, edges: Edges, found: Edges, late: Edges, visited: set<Id>, heights: Heights,
    reached: map<Id, nat>, id: Id, c: Id)
    requires Capturing(heap, root, edges, found, late, visited, heights, reached)
    requires id in visited && id !in heights && (id, c) in EdgesOf(heap)
    ensures Capturing(heap, root, edges + {(id, c)}, found, late, visited, heights, reached)
  {
    hide AllSettled, ReachedRightly, HasPaths, EdgesOf;
    AllSettledStay(edges, late, visited, heights, edges + {(id, c)}, visited);
    ReachedStill(edges, edges + {(id, c)}, root, visited, reached);
    HasPathsStill(edges, edges + {(id, c)}, heights);
  }

  function Deepest(reached: map<Id, nat>, id: Id, depth: nat): nat {
    if id in reached && reached[id] > depth then reached[id] else depth
  }

  /** A container is reached. */
  lemma ReachedAt(
    heap: Heap, root: Id, edges: Edges, found: Edges, late: Edges, visited: set<Id>, heights: Heights,
    reached: map<Id, nat>, id: Id, depth: nat)
    requires Capturing(heap, root, edges, found, late, visited, heights, reached)
    requires Leads(edges, root, id, depth)
    ensures Capturing(heap, root, edges, found, late, visited, heights, reached[id := Deepest(reached, id, depth)])
  {
    hide AllSettled, HasPaths, RecordedRightly, Leads;
  }

  /** A container starts to be captured. */
  lemma Entered(
    heap: Heap, root: Id, edges: Edges, found: Edges, late: Edges, visited: set<Id>, heights: Heights,
    reached: map<Id, nat>, id: Id)
    requires Capturing(heap, root, edges, found, late, visited, heights, reached)
    requires id in heap && id in reached && id !in visited
    ensures Capturing(heap, root, edges, found, late, visited + {id}, heights, reached)
    ensures forall c :: (id, c) !in edges
    ensures id !in heights
  {
    hide AllSettled, HasPaths, EdgesOf;
    AllSettledStay(edges, late, visited, heights, edges, visited + {id});
    forall c ensures (id, c) !in edges {
      assert (id, c) in edges ==> (id, c).0 in visited;
    }
  }

  /** A container all of whose entries are captured gets its height. */
  lemma Completed(
    heap: Heap, root: Id, edges: Edges, found: Edges, late: Edges, visited: set<Id>, heights: Heights,
    reached: map<Id, nat>, id: Id, depth: nat, maxDepth: nat, height: nat)
    requires Capturing(heap, root, edges, found, late, visited, heights, reached)
    requires id in visited && id in heap && id !in heights
    requires Filled(edges, late, visited, heights, id, depth, maxDepth, height)
    requires EntriesRecorded(heap, edges, id, |heap[id].entries|)
    ensures Capturing(heap, root, edges, found, late, visited, heights[id := height], reached)
  {
    var higher := heights[id := height];
    hide ReachedRightly, HasPath, Cyclic;
    assert AllSettled(edges, late, visited, higher) by {
      forall p | p in higher ensures Settled(edges, late, visited, higher, p, higher[p]) {
        if p == id {
          assert Settled(edges, late, visited, heights, id, height);
          assert (id, id) in edges && (id, id) !in late ==> Cyclic(edges);
        } else {
          assert Settled(edges, late, visited, heights, p, heights[p]);
        }
      }
    }
    forall e | e in EdgesOf(heap) && e.0 in higher ensures e in edges {
      if e.0 == id {
        var i := EdgeIsEntry(heap, id, e.1);
      }
    }
  }

  /** The height so far takes in one more entry. */
  function Taller(height: int, below: int): int {
    if below + 1 > height then below + 1 else height
  }

  /** One more entry of a container is captured. */
  lemma EntryFilled(
    edges: Edges, late: Edges, visited: set<Id>, heights: Heights, known: set<Id>, more: Edges, seen: set<Id>,
    higher: Heights, pending: set<Id>, id: Id, depth: nat, maxDepth: nat, height: int, v: Value, below: int)
    requires Filled(edges, late, visited, heights, id, depth, maxDepth, height) && OnTheWay(edges, pending, id)
    requires var adopted := if v.Container? then edges + {(id, v.id)} else edges;
             GoesOn(adopted, heights, known, more, higher) && id in known && visited <= seen
    requires Answers(more, seen, higher, pending, v, depth + 1, maxDepth, below)
    ensures Filled(more, late, seen, higher, id, depth, maxDepth, Taller(height, below))
  {
    hide Leads, HasPath, Cyclic, OnTheWay;
    var taller := Taller(height, below);
    HasPathStill(edges, more, id, height);
    var adopted := if v.Container? then edges + {(id, v.id)} else edges;
    if v.Container? {
      HasPathThrough(more, id, v.id, below);
      OnTheWayStill(edges, more, pending, id);
      if v.id !in higher {
        HeldIsCyclic(more, pending, id, v.id);
      }
    }
    forall c | (id, c) in more && (id, c) !in late
      ensures c in seen && ((c in higher && taller > higher[c]) || Cyclic(more))
    {
      assert (id, c) in adopted;
      if (id, c) in edges {
        if Cyclic(edges) {
          CyclicStill(edges, more);
        }
      }
    }
  }

  // ---------------------------------------------------------------- what a finished capture says

  /** Nothing is being captured, and no height found late is still to be carried up. */
  ghost predicate Complete(
    heap: Heap, root: Id, edges: Edges, found: Edges, visited: set<Id>, heights: Heights, reached: map<Id, nat>)
  {
    Capturing(heap, root, edges, found, {}, visited, heights, reached) && visited == heights.Keys && root in heights
  }

  /** Heights fall along every path of a graph in which nothing holds itself. */
  lemma {:induction false} PathsClimb(
    edges: Edges, visited: set<Id>, heights: Heights, a: Id, b: Id, n: nat)
    requires AllSettled(edges, {}, visited, heights) && visited == heights.Keys && !Cyclic(edges)
    requires a in heights && Leads(edges, a, b, n)
    ensures b in heights && heights[a] >= n + heights[b]
    decreases n
  {
    hide Cyclic;
    if n > 0 {
      var c :| Leads(edges, a, c, n - 1) && (c, b) in edges;
      PathsClimb(edges, visited, heights, a, c, n - 1);
      assert Settled(edges, {}, visited, heights, c, heights[c]);
    }
  }

  /** Paths from the root have only recorded steps. */
  lemma {:induction false} PathsRecorded(
    heap: Heap, root: Id, edges: Edges, found: Edges, visited: set<Id>, heights: Heights, reached: map<Id, nat>,
    b: Id, n: nat)
    requires Complete(heap, root, edges, found, visited, heights, reached)
    requires Leads(EdgesOf(heap) + found, root, b, n)
    ensures Leads(edges, root, b, n) && b in heights
    decreases n
  {
    hide EdgesOf, Cyclic, HasPaths, ReachedRightly;
    if n > 0 {
      var c :| Leads(EdgesOf(heap) + found, root, c, n - 1) && (c, b) in EdgesOf(heap) + found;
      PathsRecorded(heap, root, edges, found, visited, heights, reached, c, n - 1);
      assert (c, b).0 in heights && (c, b) in edges;
      assert Settled(edges, {}, visited, heights, c, heights[c]);
    }
  }

  /** The root's height decides the depth limit, unless something below the root holds itself. */
  lemma HeightDecides(
    heap: Heap, root: Id, edges: Edges, found: Edges, visited: set<Id>, heights: Heights, reached: map<Id, nat>,
    maxDepth: nat)
    requires Complete(heap, root, edges, found, visited, heights, reached)
    ensures heights[root] > maxDepth ==> LongerThan(EdgesOf(heap) + found, root, maxDepth)
    ensures heights[root] <= maxDepth && LongerThan(EdgesOf(heap) + found, root, maxDepth) ==>
              ReachesCycle(EdgesOf(heap) + found, Container(root))
  {
    var whole := EdgesOf(heap) + found;
    if heights[root] > maxDepth {
      HasPathStill(edges, whole, root, heights[root]);
    } else if LongerThan(whole, root, maxDepth) {
      var n: nat :| n > maxDepth && HasPath(whole, root, n);
      var b :| Leads(whole, root, b, n);
      PathsRecorded(heap, root, edges, found, visited, heights, reached, b, n);
      if !Cyclic(edges) {
        PathsClimb(edges, visited, heights, root, b, n);
      }
      CycleReached(heap, root, edges, found, visited, heights, reached);
    }
  }

  /** Only what the root leads to was captured. */
  lemma CycleReached(
    heap: Heap, root: Id, edges: Edges, found: Edges, visited: set<Id>, heights: Heights, reached: map<Id, nat>)
    requires Complete(heap, root, edges, found, visited, heights, reached) && Cyclic(edges)
    ensures ReachesCycle(EdgesOf(heap) + found, Container(root))
  {
    hide EdgesOf, AllSettled, HasPaths;
    var whole := EdgesOf(heap) + found;
    var a, n: nat :| n > 0 && Leads(edges, a, a, n);
    var c :| Leads(edges, a, c, n - 1) && (c, a) in edges;
    assert (c, a).0 in visited;
    LeadsStill(edges, whole, root, c, reached[c]);
    LeadsOn(whole, root, c, reached[c], a);
    LeadsStill(edges, whole, a, a, n);
  }

  // ---------------------------------------------------------------- an entry found late

  /** An entry of a captured container is recorded. */
  lemma AdoptedLate(
    heap: Heap, root: Id, edges: Edges, found: Edges, visited: set<Id>, heights: Heights, reached: map<Id, nat>,
    e: (Id, Id))
    requires Complete(heap, root, edges, found, visited, heights, reached) && e.0 in heights
    ensures Capturing(heap, root, edges + {e}, found + {e}, {e}, visited, heights, reached)
  {
    hide EdgesOf, HasPaths, ReachedRightly, Cyclic;
    var more := edges + {e};
    ReachedStill(edges, more, root, visited, reached);
    HasPathsStill(edges, more, heights);
    if Cyclic(edges) {
      CyclicStill(edges, more);
    }
    forall p | p in heights ensures Settled(more, {e}, visited, heights, p, heights[p]) {
      assert Settled(edges, {}, visited, heights, p, heights[p]);
    }
  }

  /** Heights carried up from the late entry (model, item). */
  ghost predicate CarriedUp(
    edges: Edges, reached: map<Id, nat>, maxDepth: nat, model: Id, height: nat, before: Heights, heights: Heights)
  {
    && AtLeast(heights, before) && HeightOf(heights, model) >= height
    && HoldersFollow(edges, before, heights)
    && RaisedRightly(edges, reached, maxDepth, model, height, before, heights)
  }

  lemma RaisedHasPath(
    edges: Edges, reached: map<Id, nat>, maxDepth: nat, model: Id, item: Id, before: Heights, heights: Heights, n: Id)
    requires (model, item) in edges && item in before && HasPaths(edges, before)
    requires CarriedUp(edges, reached, maxDepth, model, before[item] + 1, before, heights) && n in heights
    ensures n in before || n in Nodes(edges, model)
    ensures HasPath(edges, n, heights[n])
  {
    hide Nodes, Leads, HoldersFollow;
    if HeightOf(heights, n) != HeightOf(before, n) {
      var k: nat := heights[n] - (before[item] + 1);
      assert Justified(edges, model, before[item] + 1, n, heights[n]);
      StartsAtHolder(edges, n, model, k);
      HasPathThrough(edges, model, item, before[item]);
      PathJoin(edges, n, model, k, before[item] + 1);
    }
  }

  lemma PathJoin(edges: Edges, a: Id, b: Id, m: nat, n: nat)
    requires Leads(edges, a, b, m) && HasPath(edges, b, n)
    ensures HasPath(edges, a, m + n)
  {
    var c :| Leads(edges, b, c, n);
    LeadsJoin(edges, a, b, m, c, n);
  }

  lemma HoldersSettled(
    edges: Edges, reached: map<Id, nat>, maxDepth: nat, model: Id, item: Id, visited: set<Id>,
    before: Heights, heights: Heights)
    requires AllSettled(edges, {(model, item)}, visited, before) && item in before && visited == before.Keys
    requires CarriedUp(edges, reached, maxDepth, model, before[item] + 1, before, heights)
    requires heights.Keys == visited
    ensures AllSettled(edges, {}, visited, heights)
  {
    hide Cyclic, RaisedRightly;
    forall p | p in heights ensures Settled(edges, {}, visited, heights, p, heights[p]) {
      assert Settled(edges, {(model, item)}, visited, before, p, before[p]);
      forall c | (p, c) in edges ensures c in visited && ((c in heights && heights[p] > heights[c]) || Cyclic(edges)) {
        if (p, c) == (model, item) {
          assert HeightOf(heights, model) >= before[item] + 1;
          assert HeightOf(heights, item) == before[item] || Owed(before, heights, p, c);
        } else if !Cyclic(edges) {
          assert Owed(before, heights, p, c);
        }
      }
    }
  }

  /** Heights carried up from an entry found late complete the capture again. */
  lemma LateSettled(
    heap: Heap, root: Id, edges: Edges, found: Edges, visited: set<Id>, before: Heights, reached: map<Id, nat>,
    maxDepth: nat, model: Id, item: Id, heights: Heights)
    requires Capturing(heap, root, edges, found, {(model, item)}, visited, before, reached)
    requires visited == before.Keys && model in before && item in before && root in before
    requires (model, item) in edges && before[root] <= maxDepth
    requires CarriedUp(edges, reached, maxDepth, model, before[item] + 1, before, heights)
    ensures Complete(heap, root, edges, found, visited, heights, reached) && heights[root] <= maxDepth
  {
    hide HasPath, Leads, EdgesOf, AllSettled, ReachedRightly;
    assert heights.Keys == visited by {
      forall n | n in heights ensures n in visited {
        RaisedHasPath(edges, reached, maxDepth, model, item, before, heights, n);
      }
    }
    forall n | n in heights ensures HasPath(edges, n, heights[n]) {
      RaisedHasPath(edges, reached, maxDepth, model, item, before, heights, n);
    }
    HoldersSettled(edges, reached, maxDepth, model, item, visited, before, heights);
    assert HeightOf(heights, root) != HeightOf(before, root) ==> DepthOf(reached, root) + heights[root] <= maxDepth;
  }

  lemma PastLimitIsLonger(
    heap: Heap, root: Id, edges: Edges, found: Edges, late: Edges, visited: set<Id>, heights: Heights,
    reached: map<Id, nat>, maxDepth: nat, model: Id, item: Id)
    requires Capturing(heap, root, edges, found, late, visited, heights, reached)
    requires model in visited && item in heights && (model, item) in edges
    requires PastLimit(edges, reached, maxDepth, model, heights[item] + 1)
    ensures LongerThan(EdgesOf(heap) + found, root, maxDepth)
  {
    hide AllSettled, EdgesOf, Leads, HasPath, LongerThan;
    var n, k: nat :| Leads(edges, n, model, k) && DepthOf(reached, n) + (heights[item] + 1) + k > maxDepth;
    StartsAtHolder(edges, n, model, k);
    assert n in visited;
    HasPathThrough(edges, model, item, heights[item]);
    PathJoin(edges, n, model, k, heights[item] + 1);
    LongerHere(heap, root, edges, found, late, visited, heights, reached, maxDepth, n, reached[n],
               k + heights[item] + 1);
  }

  lemma Trivial(edges: Edges, id: Id)
    ensures Leads(edges, id, id, 0) && HasPath(edges, id, 0)
  {
    assert Leads(edges, id, id, 0);
  }

  lemma Unchanged(edges: Edges, heights: Heights, known: set<Id>)
    ensures GoesOn(edges, heights, known, edges, heights)
  {
  }

  lemma GoesOnOn(
    edges: Edges, heights: Heights, known: set<Id>, more: Edges, higher: Heights, knownThen: set<Id>, most: Edges,
    highest: Heights)
    requires GoesOn(edges, heights, known, more, higher) && GoesOn(more, higher, knownThen, most, highest)
    requires known <= knownThen
    ensures GoesOn(edges, heights, known, most, highest)
  {
  }

  lemma HeightAdded(
    edges: Edges, heights: Heights, known: set<Id>, more: Edges, higher: Heights, id: Id, height: nat)
    requires GoesOn(edges, heights, known, more, higher) && id !in higher
    ensures GoesOn(edges, heights, known, more, higher[id := height])
  {
  }

  lemma Known(
    heap: Heap, root: Id, edges: Edges, found: Edges, late: Edges, visited: set<Id>, heights: Heights,
    reached: map<Id, nat>, id: Id)
    requires Capturing(heap, root, edges, found, late, visited, heights, reached)
    ensures heights.Keys <= visited <= heap.Keys
    ensures id in heights ==> HasPath(edges, id, heights[id])
  {
  }

  lemma FilledHeight(
    edges: Edges, late: Edges, visited: set<Id>, heights: Heights, id: Id, depth: nat, maxDepth: nat, height: int)
    requires Filled(edges, late, visited, heights, id, depth, maxDepth, height)
    ensures height >= 0 && depth + height <= maxDepth && HasPath(edges, id, height)
  {
  }

  lemma NothingFilled(
    heap: Heap, edges: Edges, late: Edges, visited: set<Id>, heights: Heights, id: Id, depth: nat, maxDepth: nat)
    requires (forall c :: (id, c) !in edges) && depth <= maxDepth && id in heap
    ensures Filled(edges, late, visited, heights, id, depth, maxDepth, 0) && EntriesRecorded(heap, edges, id, 0)
  {
    Trivial(edges, id);
  }

  lemma EntryRecorded(
    heap: Heap, edges: Edges, heights: Heights, known: set<Id>, more: Edges, higher: Heights, id: Id, i: nat)
    requires id in heap && i < |heap[id].entries| && EntriesRecorded(heap, edges, id, i) && id in known
    requires var v := heap[id].entries[i].value;
             GoesOn(if v.Container? then edges + {(id, v.id)} else edges, heights, known, more, higher)
    ensures EntriesRecorded(heap, more, id, i + 1)
    ensures edges <= more && GoesOn(edges, heights, known - {id}, more, higher)
  {
  }

  lemma AllCaptured(visited: set<Id>, heights: Heights)
    requires visited - heights.Keys == {} && heights.Keys <= visited
    ensures visited == heights.Keys
  {
    assert forall n | n in visited :: n !in heights.Keys ==> n in visited - heights.Keys;
  }

  lemma NonePending(edges: Edges, pending: set<Id>, id: Id)
    requires pending == {}
    ensures OnTheWay(edges, pending, id)
  {
  }

  /** A recorded path that is too long is one of the graph. */
  lemma LongerHere(
    heap: Heap, root: Id, edges: Edges, found: Edges, late: Edges, visited: set<Id>, heights: Heights,
    reached: map<Id, nat>, maxDepth: nat, id: Id, depth: nat, height: nat)
    requires Capturing(heap, root, edges, found, late, visited, heights, reached)
    requires Leads(edges, root, id, depth) && HasPath(edges, id, height) && depth + height > maxDepth
    ensures LongerThan(EdgesOf(heap) + found, root, maxDepth)
  {
    hide Leads, HasPath, EdgesOf;
    Longer(edges, root, id, depth, height, maxDepth);
    LongerStill(edges, EdgesOf(heap) + found, root, maxDepth);
  }

  // ---------------------------------------------------------------- the capture

  class Capture {
    const heap: Heap
    const maxDepth: nat
    ghost const root: Id
    var visited: set<Id>
    var heights: Heights
    var reached: map<Id, nat>
    var parents: Parents
    /** The entries that were found late. */
    ghost var found: Edges
    /** Of those, the ones whose holder's height is still to be raised. */
    ghost var late: Edges

    ghost function Entries(): Edges
      reads this
    {
      Recorded(parents)
    }

    /** All entries there are: those of the captured containers, and those found late. */
    ghost function Graph(): Edges
      reads this
    {
      EdgesOf(heap) + found
    }

    ghost function Pending(): set<Id>
      reads this
    {
      visited - heights.Keys
    }

    ghost predicate Valid()
      reads this
    {
      Closed(heap) && Capturing(heap, root, Entries(), found, late, visited, heights, reached)
    }

    /** The root is captured, and within the limit. */
    ghost predicate Within()
      reads this
    {
      && Closed(heap) && late == {} && Complete(heap, root, Entries(), found, visited, heights, reached)
      && heights[root] <= maxDepth
    }

    constructor (heap: Heap, maxDepth: nat, ghost root: Id)
      requires Closed(heap)
      ensures this.heap == heap && this.maxDepth == maxDepth && this.root == root
      ensures Valid() && visited == {} && heights == map[] && found == late == {}
    {
      this.heap, this.maxDepth, this.root := heap, maxDepth, root;
      visited, heights, reached, parents, found, late := {}, map[], map[], map[], {}, {};
    }

    /** Record the deepest level a container was reached at. */
    method Reach(id: Id, depth: nat)
      modifies this`reached
      ensures reached == old(reached)[id := Deepest(old(reached), id, depth)]
    {
      if id !in reached || depth > reached[id] {
        reached := reached[id := depth];
      } else {
        assert reached == reached[id := reached[id]];
      }
    }

    /** Record the holder of a container. */
    method Adopt(holder: Id, item: Value)
      modifies this`parents
      ensures Entries() == if item.Container? then old(Entries()) + {(holder, item.id)} else old(Entries())
    {
      if item.Container? {
        parents := parents[item.id := HoldersOf(parents, item.id) + {holder}];
      }
    }

    /**
     Capture what lies below a value reached at some depth.  It is refused only if some path from the root is too
     long, though shared containers are captured once and one that is met while it is captured counts as empty.
     */
    method CaptureNative(v: Value, depth: nat) returns (r: Captured)
      requires Valid() && Held(heap, v)
      requires v.Container? ==> Leads(Entries(), root, v.id, depth) && OnTheWay(Entries(), Pending(), v.id)
      modifies this`visited, this`heights, this`reached, this`parents
      ensures r.TooDeep? ==> v.Container? && LongerThan(Graph(), root, maxDepth)
      ensures r.Level? ==> Valid() && Pending() == old(Pending()) && old(visited) <= visited
      ensures r.Level? ==> GoesOn(old(Entries()), old(heights), old(visited), Entries(), heights)
      ensures r.Level? ==> Answers(Entries(), visited, heights, Pending(), v, depth, maxDepth, r.height)
      decreases heap.Keys - visited, 1
    {
      hide Capturing, Leads, LongerThan, OnTheWay, GoesOn, HasPath;
      if v.Leaf? {
        Unchanged(Entries(), heights, visited);
        return Level(-1);
      }
      Trivial(Entries(), v.id);
      if depth > maxDepth {
        LongerHere(heap, root, Entries(), found, late, visited, heights, reached, maxDepth, v.id, depth, 0);
        return TooDeep;
      }
      Known(heap, root, Entries(), found, late, visited, heights, reached, v.id);
      ReachedAt(heap, root, Entries(), found, late, visited, heights, reached, v.id, depth);
      Reach(v.id, depth);
      if v.id in visited {
        Unchanged(Entries(), heights, visited);
        if v.id !in heights {
          return Level(0);
        }
        if depth + heights[v.id] > maxDepth {
          LongerHere(heap, root, Entries(), found, late, visited, heights, reached, maxDepth, v.id, depth,
                     heights[v.id]);
          return TooDeep;
        }
        return Level(heights[v.id]);
      }
      r := CaptureContainer(v.id, depth);
    }

    method CaptureContainer(id: Id, depth: nat) returns (r: Captured)
      requires Valid() && id in heap && id !in visited && id in reached && depth <= maxDepth
      requires Leads(Entries(), root, id, depth) && OnTheWay(Entries(), Pending(), id)
      modifies this`visited, this`heights, this`reached, this`parents
      ensures r.TooDeep? ==> LongerThan(Graph(), root, maxDepth)
      ensures r.Level? ==> Valid() && Pending() == old(Pending()) && old(visited) <= visited
      ensures r.Level? ==> GoesOn(old(Entries()), old(heights), old(visited), Entries(), heights)
      ensures r.Level? ==> Answers(Entries(), visited, heights, Pending(), Container(id), depth, maxDepth, r.height)
      decreases heap.Keys - visited, 0
    {
      hide Capturing, Leads, LongerThan, OnTheWay, GoesOn, HasPath, Filled;
      Entered(heap, root, Entries(), found, late, visited, heights, reached, id);
      OnTheWayIn(Entries(), Pending(), id);
      visited := visited + {id};
      assert Pending() == old(Pending()) + {id};
      assert visited - {id} == old(visited);
      r := CaptureEntries(id, depth);
      if r.Level? {
        FilledHeight(Entries(), late, visited, heights, id, depth, maxDepth, r.height);
        Completed(heap, root, Entries(), found, late, visited, heights, reached, id, depth, maxDepth, r.height);
        HeightAdded(old(Entries()), old(heights), old(visited), Entries(), heights, id, r.height);
        heights := heights[id := r.height];
        assert Pending() == old(Pending());
      }
    }

    /** Capture everything a container holds, one level deeper. */
    method CaptureEntries(id: Id, depth: nat) returns (r: Captured)
      requires Valid() && id in heap && id in visited && id !in heights && depth <= maxDepth
      requires Leads(Entries(), root, id, depth) && OnTheWay(Entries(), Pending(), id)
      requires forall c :: (id, c) !in Entries()
      modifies this`visited, this`heights, this`reached, this`parents
      ensures r.TooDeep? ==> LongerThan(Graph(), root, maxDepth)
      ensures r.Level? ==> Valid() && Pending() == old(Pending()) && old(visited) <= visited
      ensures r.Level? ==> GoesOn(old(Entries()), old(heights), old(visited) - {id}, Entries(), heights)
      ensures r.Level? ==> Filled(Entries(), late, visited, heights, id, depth, maxDepth, r.height)
      ensures r.Level? ==> EntriesRecorded(heap, Entries(), id, |heap[id].entries|)
      decreases heap.Keys - visited, 3
    {
      hide Capturing, Leads, LongerThan, OnTheWay, GoesOn, HasPath, Filled, EntriesRecorded;
      NothingFilled(heap, Entries(), late, visited, heights, id, depth, maxDepth);
      Unchanged(Entries(), heights, visited - {id});
      var i := 0;
      r := Level(0);
      while i < |heap[id].entries| && r.Level?
        invariant i <= |heap[id].entries|
        invariant r.TooDeep? ==> LongerThan(Graph(), root, maxDepth)
        invariant r.Level? ==> Valid() && Pending() == old(Pending()) && old(visited) <= visited
        invariant r.Level? ==> GoesOn(old(Entries()), old(heights), old(visited) - {id}, Entries(), heights)
        invariant r.Level? ==> Filled(Entries(), late, visited, heights, id, depth, maxDepth, r.height)
        invariant r.Level? ==> EntriesRecorded(heap, Entries(), id, i)
        invariant r.Level? ==> Leads(Entries(), root, id, depth) && OnTheWay(Entries(), Pending(), id)
      {
        label before:
        assert old(visited) - {id} <= visited - {id};
        r := CaptureEntry(id, i, depth, r.height);
        i := i + 1;
        if r.Level? {
          GoesOnOn(old(Entries()), old(heights), old(visited) - {id}, old@before(Entries()), old@before(heights),
                   old@before(visited) - {id}, Entries(), heights);
        }
      }
    }

    /** Capture the next thing a container holds; the height so far. */
    method CaptureEntry(id: Id, i: nat, depth: nat, height: int) returns (r: Captured)
      requires Valid() && id in heap && id in visited && id !in heights && i < |heap[id].entries|
      requires Leads(Entries(), root, id, depth) && OnTheWay(Entries(), Pending(), id)
      requires Filled(Entries(), late, visited, heights, id, depth, maxDepth, height)
      requires EntriesRecorded(heap, Entries(), id, i)
      modifies this`visited, this`heights, this`reached, this`parents
      ensures r.TooDeep? ==> LongerThan(Graph(), root, maxDepth)
      ensures r.Level? ==> Valid() && Pending() == old(Pending()) && old(visited) <= visited
      ensures r.Level? ==> GoesOn(old(Entries()), old(heights), old(visited) - {id}, Entries(), heights)
      ensures r.Level? ==> Filled(Entries(), late, visited, heights, id, depth, maxDepth, r.height)
      ensures r.Level? ==> EntriesRecorded(heap, Entries(), id, i + 1)
      ensures r.Level? ==> Leads(Entries(), root, id, depth) && OnTheWay(Entries(), Pending(), id)
      decreases heap.Keys - visited, 2
    {
      hide Capturing, Leads, LongerThan, OnTheWay, GoesOn, HasPath, Filled, Answers, EntriesRecorded, EdgesOf;
      var item := heap[id].entries[i].value;
      ghost var edges := Entries();
      if item.Container? {
        EntryIsEdge(heap, id, i);
        Adopted(heap, root, edges, found, late, visited, heights, reached, id, item.id);
        OneDeeper(edges, root, Pending(), id, depth, item.id);
      }
      Adopt(id, item);
      r := CaptureNative(item, depth + 1);
      if r.Level? {
        EntryFilled(edges, late, old(visited), old(heights), old(visited), Entries(), visited, heights, Pending(),
                    id, depth, maxDepth, height, item, r.height);
        EntryRecorded(heap, edges, old(heights), old(visited), Entries(), heights, id, i);
        LeadsStill(edges, Entries(), root, id, depth);
        OnTheWayStill(edges, Entries(), Pending(), id);
        r := Level(Taller(height, r.height));
      }
    }

    /**
     An entry of a captured container that is found late, reached one level deeper: it is recorded, captured, and
     its height carried to its holder and all above.  It is refused only if a path from the root is now too long;
     otherwise none is, unless something holds itself.
     */
    method AdoptLate(model: Id, item: Value, depth: nat) returns (ok: bool)
      requires Within() && model in heights && Leads(Entries(), root, model, depth) && Held(heap, item)
      modifies this
      ensures found == old(found) + if item.Container? then {(model, item.id)} else {}
      ensures ok ==> Within() && old(heights).Keys <= heights.Keys
      ensures ok ==> LongerThan(Graph(), root, maxDepth) ==> ReachesCycle(Graph(), Container(root))
      ensures !ok ==> LongerThan(Graph(), root, maxDepth)
    {
      hide Complete, Capturing, Leads, LongerThan, OnTheWay, GoesOn, HasPath, ReachesCycle;
      ok := true;
      if item.Container? {
        ok := CaptureLate(model, item.id, depth);
        if ok {
          ok := CarryUp(model, item.id);
        }
      }
      if ok {
        HeightDecides(heap, root, Entries(), found, visited, heights, reached, maxDepth);
      }
    }

    method CaptureLate(model: Id, item: Id, depth: nat) returns (ok: bool)
      requires Within() && model in heights && Leads(Entries(), root, model, depth) && item in heap
      modifies this
      ensures found == old(found) + {(model, item)} && late == {(model, item)}
      ensures ok ==> Valid() && Pending() == {} && (model, item) in Entries() && old(heights).Keys <= heights.Keys
      ensures ok ==> item in heights && root in heights && heights[root] <= maxDepth
      ensures !ok ==> LongerThan(Graph(), root, maxDepth)
    {
      hide Capturing, Leads, LongerThan, OnTheWay, HasPath;
      AdoptedLate(heap, root, Entries(), found, visited, heights, reached, (model, item));
      NonePending(Entries(), Pending(), model);
      OneDeeper(Entries(), root, Pending(), model, depth, item);
      found, late := found + {(model, item)}, {(model, item)};
      Adopt(model, Container(item));
      var r := CaptureNative(Container(item), depth + 1);
      ok := r.Level?;
    }

    /** The height of an entry found late is carried to its holder and all above. */
    method CarryUp(model: Id, item: Id) returns (ok: bool)
      requires Valid() && Pending() == {} && late == {(model, item)} && (model, item) in Entries()
      requires model in heights && item in heights && root in heights && heights[root] <= maxDepth
      modifies this`heights, this`late
      ensures ok ==> Within() && old(heights).Keys <= heights.Keys
      ensures !ok ==> LongerThan(Graph(), root, maxDepth)
    {
      hide Complete, Capturing, LongerThan, RaisedRightly, HoldersFollow, PastLimit;
      Known(heap, root, Entries(), found, late, visited, heights, reached, model);
      ghost var before := heights;
      var higher;
      ok, higher := GrowHeight(heights, reached, parents, maxDepth, model, heights[item] + 1);
      if ok {
        AllCaptured(visited, before);
        LateSettled(heap, root, Entries(), found, visited, before, reached, maxDepth, model, item, higher);
        heights, late := higher, {};
      } else {
        PastLimitIsLonger(heap, root, Entries(), found, late, visited, heights, reached, maxDepth, model, item);
      }
    }
  }

  /**
   Whether a graph is within the depth limit.  It is refused only if some path of containers from its root is
   longer; otherwise none is, unless something below the root holds itself, which reconstruction refuses.
   */
  method WithinDepth(heap: Heap, v: Value, maxDepth: nat) returns (ok: bool)
    requires Closed(heap) && Held(heap, v)
    ensures ok && v.Container? && LongerThan(EdgesOf(heap), v.id, maxDepth) ==> ReachesCycle(EdgesOf(heap), v)
    ensures !ok ==> v.Container? && LongerThan(EdgesOf(heap), v.id, maxDepth)
  {
    hide Capturing, Leads, LongerThan, OnTheWay, HasPath, ReachesCycle;
    ghost var root := if v.Container? then v.id else Address(0);
    var capture := new Capture(heap, maxDepth, root);
    Trivial(capture.Entries(), root);
    NonePending(capture.Entries(), capture.Pending(), root);
    var r := capture.CaptureNative(v, 0);
    ok := r.Level?;
    assert capture.Graph() == EdgesOf(heap);
    if ok && v.Container? {
      assert capture.Pending() == {};
      Known(heap, root, capture.Entries(), {}, {}, capture.visited, capture.heights, capture.reached, root);
      AllCaptured(capture.visited, capture.heights);
      HeightDecides(heap, root, capture.Entries(), {}, capture.visited, capture.heights, capture.reached, maxDepth);
    }
  }
}

/**
 A JSON document as it is held in memory: scalars, and containers known by their identity, so one container
 may be reached by many paths.
 */
module JsonHeap {
  import opened JsonSchema

  type Id = int

  datatype Value = Scalar(json: Json) | Container(id: Id)

  datatype Cell = ArrayCell(elements: seq<Value>) | ObjectCell(members: map<string, Value>)

  type Heap = map<Id, Cell>

  predicate IsScalar(j: Json) {
    !j.Array? && !j.Object?
  }

  /** The values a container holds. */
  function Children(c: Cell): set<Value> {
    match c
    case ArrayCell(elements) => set v | v in elements
    case ObjectCell(members) => set name | name in members :: members[name]
  }

  /** A value whose containers, all in the heap, hold only values of lower rank. */
  ghost predicate Holds(heap: Heap, rank: map<Id, nat>, v: Value) {
    match v
    case Scalar(j) => IsScalar(j)
    case Container(id) => id in heap && id in rank
  }

  ghost predicate Below(rank: map<Id, nat>, v: Value, limit: nat) {
    v.Container? ==> v.id in rank && rank[v.id] < limit
  }

  /** No container holds itself, at any depth. */
  ghost predicate Acyclic(heap: Heap, rank: map<Id, nat>) {
    forall id | id in heap ::
      id in rank && forall v | v in Children(heap[id]) :: Holds(heap, rank, v) && Below(rank, v, rank[id])
  }

  ghost function Height(rank: map<Id, nat>, v: Value): nat {
    if v.Container? && v.id in rank then rank[v.id] + 1 else 0
  }

  /** The tree a value unfolds to. */
  ghost function Unfold(heap: Heap, rank: map<Id, nat>, v: Value): (j: Json)
    requires Acyclic(heap, rank) && Holds(heap, rank, v)
    ensures v.Scalar? <==> IsScalar(j)
    decreases Height(rank, v)
  {
    match v
    case Scalar(j) => j
    case Container(id) =>
      match heap[id]
      case ArrayCell(elements) =>
        Array(seq(|elements|, i requires 0 <= i < |elements| =>
          ChildHolds(heap, rank, id, elements[i]); Unfold(heap, rank, elements[i])))
      case ObjectCell(members) =>
        Object(map name | name in members ::
          ChildHolds(heap, rank, id, members[name]); Unfold(heap, rank, members[name]))
  }

  lemma ChildHolds(heap: Heap, rank: map<Id, nat>, id: Id, v: Value)
    requires Acyclic(heap, rank) && id in heap && v in Children(heap[id])
    ensures Holds(heap, rank, v) && Height(rank, v) <= rank[id]
  {
  }

  // ---------------------------------------------------------------- the trees of all containers at once

  /** `v` unfolds to `j`, given what each container unfolds to. */
  ghost predicate Denotes(tree: map<Id, Json>, v: Value, j: Json) {
    match v
    case Scalar(x) => IsScalar(x) && j == x
    case Container(id) => id in tree && tree[id] == j
  }

  ghost predicate CellDenotes(tree: map<Id, Json>, c: Cell, j: Json) {
    match c
    case ArrayCell(elements) =>
      j.Array? && |j.elements| == |elements| && forall i | 0 <= i < |elements| :: Denotes(tree, elements[i], j.elements[i])
    case ObjectCell(members) =>
      j.Object? && j.members.Keys == members.Keys
      && forall name | name in members :: Denotes(tree, members[name], j.members[name])
  }

  /** `tree` unfolds every container of the heap. */
  ghost predicate Unfolding(heap: Heap, tree: map<Id, Json>) {
    tree.Keys == heap.Keys && forall id | id in heap :: CellDenotes(tree, heap[id], tree[id])
  }

  ghost function TreeOf(heap: Heap, rank: map<Id, nat>): map<Id, Json>
    requires Acyclic(heap, rank)
  {
    map id | id in heap :: Unfold(heap, rank, Container(id))
  }

  /** The trees of an acyclic heap are an unfolding. */
  lemma AcyclicUnfolds(heap: Heap, rank: map<Id, nat>)
    requires Acyclic(heap, rank)
    ensures Unfolding(heap, TreeOf(heap, rank))
    ensures forall v | Holds(heap, rank, v) :: Denotes(TreeOf(heap, rank), v, Unfold(heap, rank, v))
  {
    var tree := TreeOf(heap, rank);
    forall id | id in heap ensures CellDenotes(tree, heap[id], tree[id]) {
      match heap[id]
      case ArrayCell(elements) =>
        forall i | 0 <= i < |elements| ensures Denotes(tree, elements[i], tree[id].elements[i]) {
          ChildHolds(heap, rank, id, elements[i]);
          assert tree[id].elements[i] == Unfold(heap, rank, elements[i]);
        }
      case ObjectCell(members) =>
        forall name | name in members ensures Denotes(tree, members[name], tree[id].members[name]) {
          ChildHolds(heap, rank, id, members[name]);
          assert tree[id].members[name] == Unfold(heap, rank, members[name]);
        }
    }
  }
}

/**
 A captured graph of native containers, known by identity and possibly shared, and the tree it unfolds to
 when it is walked once per path.
 */
module NativeGraph {

  /** The identity of an object. */
  datatype Id = Address(n: nat)

  datatype Kind = DictKind | ListKind | TupleKind

  datatype Value = Leaf(atom: int) | Container(id: Id)

  /** A stored entry; the entries of a list or a tuple have no name. */
  datatype Entry = Entry(name: string, value: Value)

  datatype Cell = Cell(kind: Kind, entries: seq<Entry>)

  type Heap = map<Id, Cell>

  datatype Tree = LeafTree(atom: int) | Branch(kind: Kind, twigs: seq<Twig>)

  datatype Twig = Twig(name: string, tree: Tree)

  /** `v` is a leaf, or a container of the heap ranked below `limit`. */
  ghost predicate Below(heap: Heap, rank: map<Id, nat>, v: Value, limit: nat) {
    v.Container? ==> v.id in heap && v.id in rank && rank[v.id] < limit
  }

  ghost predicate Held(heap: Heap, v: Value) {
    v.Container? ==> v.id in heap
  }

  /** Every container held is known. */
  ghost predicate Closed(heap: Heap) {
    forall id, i | id in heap && 0 <= i < |heap[id].entries| :: Held(heap, heap[id].entries[i].value)
  }

  /** No container holds itself, at any depth: what a container holds ranks below it. */
  ghost predicate Acyclic(heap: Heap, rank: map<Id, nat>) {
    forall id | id in heap :: id in rank &&
      forall i | 0 <= i < |heap[id].entries| :: Below(heap, rank, heap[id].entries[i].value, rank[id])
  }

  ghost function Rank(rank: map<Id, nat>, v: Value): nat {
    if v.Container? && v.id in rank then rank[v.id] + 1 else 0
  }

  ghost function Unfold(heap: Heap, rank: map<Id, nat>, v: Value): (t: Tree)
    requires Acyclic(heap, rank) && Held(heap, v)
    decreases Rank(rank, v), 1, 0
  {
    match v
    case Leaf(atom) => LeafTree(atom)
    case Container(id) => Branch(heap[id].kind, UnfoldEntries(heap, rank, id, |heap[id].entries|))
  }

  /** The trees of the first `count` entries of a container. */
  ghost function UnfoldEntries(heap: Heap, rank: map<Id, nat>, id: Id, count: nat): (twigs: seq<Twig>)
    requires Acyclic(heap, rank) && id in heap && count <= |heap[id].entries|
    ensures |twigs| == count
    decreases rank[id] + 1, 0, count
  {
    if count == 0 then []
    else
      var entry := heap[id].entries[count - 1];
      assert Below(heap, rank, entry.value, rank[id]);
      UnfoldEntries(heap, rank, id, count - 1) + [Twig(entry.name, Unfold(heap, rank, entry.value))]
  }

  /** Nodes counted once per path. */
  ghost function TreeSize(t: Tree): (n: nat)
    ensures n > 0
  {
    match t
    case LeafTree(_) => 1
    case Branch(_, twigs) => 1 + TwigsSize(twigs)
  }

  ghost function TwigsSize(twigs: seq<Twig>): nat {
    if twigs == [] then 0 else TwigsSize(twigs[..|twigs| - 1]) + TreeSize(twigs[|twigs| - 1].tree)
  }

  // ---------------------------------------------------------------- which containers hold which

  /** Containers, each with one it holds. */
  type Edges = set<(Id, Id)>

  ghost function EdgesOf(heap: Heap): Edges {
    set a, i | a in heap && 0 <= i < |heap[a].entries| && heap[a].entries[i].value.Container? ::
      (a, heap[a].entries[i].value.id)
  }

  lemma EntryIsEdge(heap: Heap, a: Id, i: nat)
    requires a in heap && i < |heap[a].entries| && heap[a].entries[i].value.Container?
    ensures (a, heap[a].entries[i].value.id) in EdgesOf(heap)
  {
  }

  lemma EdgeIsEntry(heap: Heap, a: Id, b: Id) returns (i: nat)
    requires (a, b) in EdgesOf(heap)
    ensures a in heap && i < |heap[a].entries| && heap[a].entries[i].value == Container(b)
  {
    i :| i < |heap[a].entries| && heap[a].entries[i].value == Container(b);
  }

  /** A path of `n` steps leads from `a` to `b`. */
  ghost predicate Leads(edges: Edges, a: Id, b: Id, n: nat)
    decreases n
  {
    if n == 0 then a == b else exists c :: Leads(edges, a, c, n - 1) && (c, b) in edges
  }

  lemma LeadsOn(edges: Edges, a: Id, b: Id, n: nat, c: Id)
    requires Leads(edges, a, b, n) && (b, c) in edges
    ensures Leads(edges, a, c, n + 1)
  {
  }

  lemma {:induction false} LeadsJoin(edges: Edges, a: Id, b: Id, m: nat, c: Id, n: nat)
    requires Leads(edges, a, b, m) && Leads(edges, b, c, n)
    ensures Leads(edges, a, c, m + n)
    decreases n
  {
    if n == 0 {
    } else {
      var d :| Leads(edges, b, d, n - 1) && (d, c) in edges;
      LeadsJoin(edges, a, b, m, d, n - 1);
      LeadsOn(edges, a, d, m + n - 1, c);
    }
  }

  lemma LeadsThrough(edges: Edges, a: Id, b: Id, c: Id, n: nat)
    requires (a, b) in edges && Leads(edges, b, c, n)
    ensures Leads(edges, a, c, n + 1)
  {
    assert Leads(edges, a, a, 0);
    LeadsOn(edges, a, a, 0, b);
    LeadsJoin(edges, a, b, 1, c, n);
  }

  lemma {:induction false} LeadsStill(edges: Edges, more: Edges, a: Id, b: Id, n: nat)
    requires edges <= more && Leads(edges, a, b, n)
    ensures Leads(more, a, b, n)
    decreases n
  {
    if n > 0 {
      var c :| Leads(edges, a, c, n - 1) && (c, b) in edges;
      LeadsStill(edges, more, a, c, n - 1);
    }
  }

  /** Some container holds itself, at some depth. */
  ghost predicate Cyclic(edges: Edges) {
    exists a, n: nat :: n > 0 && Leads(edges, a, a, n)
  }

  /** ... on a path from `root`. */
  ghost predicate ReachesCycle(edges: Edges, root: Value) {
    root.Container? && exists a, m: nat, n: nat ::
      n > 0 && Leads(edges, root.id, a, m) && Leads(edges, a, a, n)
  }

  ghost predicate HasPath(edges: Edges, a: Id, n: nat) {
    exists b :: Leads(edges, a, b, n)
  }

  /** Some path from `root` has more than `limit` steps. */
  ghost predicate LongerThan(edges: Edges, root: Id, limit: nat) {
    exists n: nat :: n > limit && HasPath(edges, root, n)
  }

  lemma Longer(edges: Edges, root: Id, a: Id, m: nat, n: nat, limit: nat)
    requires Leads(edges, root, a, m) && HasPath(edges, a, n) && m + n > limit
    ensures LongerThan(edges, root, limit)
  {
    var b :| Leads(edges, a, b, n);
    LeadsJoin(edges, root, a, m, b, n);
    assert HasPath(edges, root, m + n);
  }

  lemma CyclicStill(edges: Edges, more: Edges)
    requires edges <= more && Cyclic(edges)
    ensures Cyclic(more)
  {
    var a, n: nat :| n > 0 && Leads(edges, a, a, n);
    LeadsStill(edges, more, a, a, n);
  }

  lemma LongerStill(edges: Edges, more: Edges, root: Id, limit: nat)
    requires edges <= more && LongerThan(edges, root, limit)
    ensures LongerThan(more, root, limit)
  {
    var n: nat :| n > limit && HasPath(edges, root, n);
    var b :| Leads(edges, root, b, n);
    LeadsStill(edges, more, root, b, n);
    assert HasPath(more, root, n);
  }

  lemma HasPathStill(edges: Edges, more: Edges, a: Id, n: nat)
    requires edges <= more && HasPath(edges, a, n)
    ensures HasPath(more, a, n)
  {
    var b :| Leads(edges, a, b, n);
    LeadsStill(edges, more, a, b, n);
  }

  lemma HasPathThrough(edges: Edges, a: Id, b: Id, n: nat)
    requires (a, b) in edges && HasPath(edges, b, n)
    ensures HasPath(edges, a, n + 1)
  {
    var c :| Leads(edges, b, c, n);
    LeadsThrough(edges, a, b, c, n);
  }

  // ---------------------------------------------------------------- the trees of a heap

  /** What a value unfolds to, given what each container unfolds to. */
  ghost function TreeOf(tree: map<Id, Tree>, v: Value): Tree
    requires v.Container? ==> v.id in tree
  {
    if v.Leaf? then LeafTree(v.atom) else tree[v.id]
  }

  ghost predicate Denotes(tree: map<Id, Tree>, v: Value, t: Tree) {
    (v.Container? ==> v.id in tree) && t == TreeOf(tree, v)
  }

  ghost predicate EntriesDenote(tree: map<Id, Tree>, entries: seq<Entry>, twigs: seq<Twig>) {
    |entries| == |twigs| && forall i | 0 <= i < |entries| ::
      entries[i].name == twigs[i].name && Denotes(tree, entries[i].value, twigs[i].tree)
  }

  ghost predicate CellDenotes(tree: map<Id, Tree>, c: Cell, t: Tree) {
    t.Branch? && t.kind == c.kind && EntriesDenote(tree, c.entries, t.twigs)
  }

  /** `tree` unfolds every container of the heap; trees are finite, so no container holds itself. */
  ghost predicate Unfolding(heap: Heap, tree: map<Id, Tree>) {
    tree.Keys == heap.Keys && forall id | id in heap :: CellDenotes(tree, heap[id], tree[id])
  }

  /** Every acyclic heap unfolds. */
  lemma AcyclicUnfolds(heap: Heap, rank: map<Id, nat>) returns (tree: map<Id, Tree>)
    requires Acyclic(heap, rank)
    ensures Unfolding(heap, tree)
  {
    tree := map id | id in heap :: Unfold(heap, rank, Container(id));
    forall id | id in heap ensures CellDenotes(tree, heap[id], tree[id]) {
      EntriesUnfold(heap, rank, tree, id, |heap[id].entries|);
    }
  }

  lemma {:induction false} EntriesUnfold(heap: Heap, rank: map<Id, nat>, tree: map<Id, Tree>, id: Id, count: nat)
    requires Acyclic(heap, rank) && id in heap && count <= |heap[id].entries|
    requires tree == map x | x in heap :: Unfold(heap, rank, Container(x))
    ensures EntriesDenote(tree, heap[id].entries[..count], UnfoldEntries(heap, rank, id, count))
  {
    if count > 0 {
      EntriesUnfold(heap, rank, tree, id, count - 1);
      var entry := heap[id].entries[count - 1];
      assert Below(heap, rank, entry.value, rank[id]);
      assert Denotes(tree, entry.value, Unfold(heap, rank, entry.value));
      assert heap[id].entries[..count] == heap[id].entries[..count - 1] + [entry];
    }
    assert heap[id].entries[..|heap[id].entries|] == heap[id].entries;
  }

  /** What was known of a heap stays so as it grows. */
  ghost predicate Extends(tree: map<Id, Tree>, more: map<Id, Tree>) {
    forall id | id in tree :: id in more && more[id] == tree[id]
  }

  lemma StillDenotes(tree: map<Id, Tree>, more: map<Id, Tree>, entries: seq<Entry>, twigs: seq<Twig>)
    requires Extends(tree, more) && EntriesDenote(tree, entries, twigs)
    ensures EntriesDenote(more, entries, twigs)
  {
  }

  lemma DenoteAppended(tree: map<Id, Tree>, entries: seq<Entry>, twigs: seq<Twig>, e: Entry, twig: Twig)
    requires EntriesDenote(tree, entries, twigs) && e.name == twig.name && Denotes(tree, e.value, twig.tree)
    ensures EntriesDenote(tree, entries + [e], twigs + [twig])
  {
  }

  lemma UnfoldingGrows(heap: Heap, tree: map<Id, Tree>, id: Id, c: Cell, t: Tree)
    requires Unfolding(heap, tree) && id !in heap && CellDenotes(tree, c, t)
    ensures Unfolding(heap[id := c], tree[id := t]) && id !in tree && Extends(tree, tree[id := t])
  {
    var more := tree[id := t];
    forall n | n in heap ensures EntriesDenote(more, heap[n].entries, more[n].twigs) {
      StillDenotes(tree, more, heap[n].entries, tree[n].twigs);
    }
    StillDenotes(tree, more, c.entries, t.twigs);
  }

  /** An entry of a container is a twig of its tree: smaller, and unfolded like any value. */
  lemma EntryUnfolds(heap: Heap, tree: map<Id, Tree>, id: Id, i: nat)
    requires Unfolding(heap, tree) && id in heap && i < |heap[id].entries|
    ensures id in tree && tree[id].Branch? && tree[id].kind == heap[id].kind
    ensures |tree[id].twigs| == |heap[id].entries|
    ensures var entry, twig := heap[id].entries[i], tree[id].twigs[i];
            && Held(heap, entry.value) && Denotes(tree, entry.value, twig.tree) && entry.name == twig.name
            && TreeSize(twig.tree) < TreeSize(tree[id])
  {
    TwigsWithin(tree[id].twigs, i);
  }

  /** The first `count` entries of a tree, and one more. */
  lemma TwigsSizeStep(twigs: seq<Twig>, count: nat)
    requires count < |twigs|
    ensures TwigsSize(twigs[..count + 1]) == TwigsSize(twigs[..count]) + TreeSize(twigs[count].tree)
  {
    assert twigs[..count + 1][..count] == twigs[..count];
  }

  /** A tree is larger than its first entries, and than each of the others. */
  lemma {:induction false} TwigsWithin(twigs: seq<Twig>, count: nat)
    requires count <= |twigs|
    ensures TwigsSize(twigs[..count]) <= TwigsSize(twigs)
    ensures forall i | count <= i < |twigs| :: TreeSize(twigs[i].tree) <= TwigsSize(twigs)
    decreases |twigs| - count
  {
    if count == |twigs| {
      assert twigs[..count] == twigs;
    } else {
      TwigsSizeStep(twigs, count);
      TwigsWithin(twigs, count + 1);
    }
  }

  // ---------------------------------------------------------------- copies that share as the original does

  /** The copy of a value: a mapped leaf, or the one copy of a container. */
  ghost predicate Image(pin: int -> int, copyOf: map<Id, Id>, v: Value, copied: Value) {
    match v
    case Leaf(atom) => copied == Leaf(pin(atom))
    case Container(id) => id in copyOf && copied == Container(copyOf[id])
  }

  ghost predicate EntriesImage(pin: int -> int, copyOf: map<Id, Id>, entries: seq<Entry>, copied: seq<Entry>) {
    |entries| == |copied| && forall i | 0 <= i < |entries| ::
      copied[i].name == entries[i].name && Image(pin, copyOf, entries[i].value, copied[i].value)
  }

  /** The copies are the copied part of the heap with its containers renamed one to one and its leaves mapped. */
  ghost predicate Isomorphic(heap: Heap, pin: int -> int, copyOf: map<Id, Id>, copies: Heap) {
    && (forall a, b | a in copyOf && b in copyOf && copyOf[a] == copyOf[b] :: a == b)
    && copies.Keys == copyOf.Values
    && (forall id | id in copyOf ::
          && id in heap && copyOf[id] in copies && copies[copyOf[id]].kind == heap[id].kind
          && EntriesImage(pin, copyOf, heap[id].entries, copies[copyOf[id]].entries))
  }

  /** Copies stay what they are as more are made. */
  ghost predicate Keeps(copyOf: map<Id, Id>, more: map<Id, Id>) {
    forall id | id in copyOf :: id in more && more[id] == copyOf[id]
  }

  lemma ImageKept(
    pin: int -> int, copyOf: map<Id, Id>, more: map<Id, Id>, entries: seq<Entry>, copied: seq<Entry>)
    requires Keeps(copyOf, more) && EntriesImage(pin, copyOf, entries, copied)
    ensures EntriesImage(pin, more, entries, copied)
  {
  }

  lemma ImageLength(pin: int -> int, copyOf: map<Id, Id>, entries: seq<Entry>, copied: seq<Entry>)
    requires EntriesImage(pin, copyOf, entries, copied)
    ensures |copied| == |entries|
  {
  }

  lemma ImageAppended(
    pin: int -> int, copyOf: map<Id, Id>, entries: seq<Entry>, copied: seq<Entry>, e: Entry, c: Entry)
    requires EntriesImage(pin, copyOf, entries, copied) && c.name == e.name && Image(pin, copyOf, e.value, c.value)
    ensures EntriesImage(pin, copyOf, entries + [e], copied + [c])
  {
  }

  lemma OneMoreCopy(copyOf: map<Id, Id>, id: Id, copy: Id)
    requires id !in copyOf
    ensures copyOf[id := copy].Values == copyOf.Values + {copy}
  {
    var more := copyOf[id := copy];
    assert more[id] == copy;
    forall c | c in copyOf.Values ensures c in more.Values {
      var a :| a in copyOf && copyOf[a] == c;
      assert more[a] == c;
    }
  }

  /** One more container copied, after all it holds. */
  lemma IsomorphicGrows(
    heap: Heap, pin: int -> int, copyOf: map<Id, Id>, copies: Heap, id: Id, copy: Id, entries: seq<Entry>)
    requires Isomorphic(heap, pin, copyOf, copies) && id in heap && id !in copyOf && copy !in copies
    requires EntriesImage(pin, copyOf, heap[id].entries, entries)
    ensures Isomorphic(heap, pin, copyOf[id := copy], copies[copy := Cell(heap[id].kind, entries)])
    ensures Keeps(copyOf, copyOf[id := copy])
  {
    var more, built := copyOf[id := copy], copies[copy := Cell(heap[id].kind, entries)];
    OneMoreCopy(copyOf, id, copy);
    assert forall a | a in copyOf :: copyOf[a] in copyOf.Values;
    assert Keeps(copyOf, more);
    forall a | a in more
      ensures EntriesImage(pin, more, heap[a].entries, built[more[a]].entries)
    {
      hide EntriesImage, Keeps;
      ImageKept(pin, copyOf, more, heap[a].entries, if a == id then entries else copies[copyOf[a]].entries);
    }
  }

  /** A copy keeps the leaves as they are. */
  function Same(atom: int): int {
    atom
  }

  /** The entries of the first `count` containers built. */
  ghost function EntriesBuilt(copies: Heap, count: nat): nat {
    if count == 0 then 0
    else
      EntriesBuilt(copies, count - 1)
      + (if Address(count - 1) in copies then |copies[Address(count - 1)].entries| else 0)
  }

  lemma {:induction false} EntriesBuiltStay(copies: Heap, more: Heap, count: nat)
    requires forall k: nat | k < count :: Address(k) in more <==> Address(k) in copies
    requires forall k: nat | k < count && Address(k) in copies :: more[Address(k)] == copies[Address(k)]
    ensures EntriesBuilt(more, count) == EntriesBuilt(copies, count)
  {
    if count > 0 { EntriesBuiltStay(copies, more, count - 1); }
  }

  /** One more entry in a container built counts for one. */
  lemma {:induction false} EntryBuilt(copies: Heap, id: Id, e: Entry, count: nat)
    requires id in copies
    ensures var more := copies[id := Cell(copies[id].kind, copies[id].entries + [e])];
            EntriesBuilt(more, count)
            == EntriesBuilt(copies, count) + if exists k: nat | k < count :: id == Address(k) then 1 else 0
  {
    if count > 0 {
      EntryBuilt(copies, id, e, count - 1);
    }
  }

  /** A copy renamed one to one, its leaves kept, unfolds to the same trees. */
  lemma {:induction false} IsomorphicSameTree(
    heap: Heap, copyOf: map<Id, Id>, copies: Heap, tree: map<Id, Tree>, trees: map<Id, Tree>, id: Id)
    requires Isomorphic(heap, Same, copyOf, copies) && Unfolding(heap, tree) && Unfolding(copies, trees)
    requires id in copyOf
    ensures id in tree && copyOf[id] in trees && trees[copyOf[id]] == tree[id]
    decreases if id in tree then TreeSize(tree[id]) else 0
  {
    var entries, copied := heap[id].entries, copies[copyOf[id]].entries;
    assert EntriesImage(Same, copyOf, entries, copied);
    forall i | 0 <= i < |entries| ensures tree[id].twigs[i] == trees[copyOf[id]].twigs[i] {
      EntryUnfolds(heap, tree, id, i);
      EntryUnfolds(copies, trees, copyOf[id], i);
      if entries[i].value.Container? {
        IsomorphicSameTree(heap, copyOf, copies, tree, trees, entries[i].value.id);
      }
    }
    assert tree[id].twigs == trees[copyOf[id]].twigs;
  }
}

/**
 The pinning of a snapshot: every leaf is replaced by its pinned value and every container rebuilt once,
 after everything beneath it, by an explicit stack.
 */
module PinSnapshot {
  import opened Options
  import opened NativeGraph

  /** A function applied to every leaf of a tree. */
  ghost function PinTree(pin: int -> int, t: Tree): (r: Tree) {
    match t
    case LeafTree(atom) => LeafTree(pin(atom))
    case Branch(kind, twigs) => Branch(kind, PinTwigs(pin, twigs))
  }

  ghost function PinTwigs(pin: int -> int, twigs: seq<Twig>): (r: seq<Twig>)
    ensures |r| == |twigs|
    ensures forall i | 0 <= i < |r| :: r[i].name == twigs[i].name && r[i].tree == PinTree(pin, twigs[i].tree)
  {
    if twigs == [] then []
    else
      PinTwigs(pin, twigs[..|twigs| - 1])
      + [Twig(twigs[|twigs| - 1].name, PinTree(pin, twigs[|twigs| - 1].tree))]
  }

  datatype Frame = Frame(id: Id, childrenDone: bool)

  /** Frames above one whose children were pushed are below it in the graph. */
  ghost predicate Stacked(tree: map<Id, Tree>, stack: seq<Frame>) {
    && (forall i | 0 <= i < |stack| :: stack[i].id in tree)
    && (forall i, k | 0 <= i < k < |stack| && stack[i].childrenDone ::
          TreeSize(tree[stack[k].id]) < TreeSize(tree[stack[i].id]))
  }

  ghost predicate OnStack(stack: seq<Frame>, from: nat, id: Id) {
    exists i | from <= i < |stack| :: stack[i].id == id
  }

  /** An entered container is rebuilt, or waits on the stack for its children. */
  ghost predicate Waiting(stack: seq<Frame>, entered: set<Id>, rebuilt: set<Id>) {
    forall id | id in entered && id !in rebuilt :: exists i | 0 <= i < |stack| :: stack[i] == Frame(id, true)
  }

  /** Every container among the entries is rebuilt or above position `from` on the stack. */
  ghost predicate EntriesAbove(entries: seq<Entry>, stack: seq<Frame>, from: nat, rebuilt: set<Id>) {
    forall e | 0 <= e < |entries| && entries[e].value.Container? ::
      entries[e].value.id in rebuilt || OnStack(stack, from, entries[e].value.id)
  }

  /** Each child of a waiting container is rebuilt or above it on the stack. */
  ghost predicate ChildrenAbove(heap: Heap, stack: seq<Frame>, rebuilt: set<Id>) {
    forall i | 0 <= i < |stack| && stack[i].childrenDone ::
      stack[i].id in heap && EntriesAbove(heap[stack[i].id].entries, stack, i + 1, rebuilt)
  }

  ghost predicate Underway(
    heap: Heap, tree: map<Id, Tree>, stack: seq<Frame>, entered: set<Id>, rebuilt: set<Id>, root: Value)
  {
    && Stacked(tree, stack)
    && Waiting(stack, entered, rebuilt)
    && ChildrenAbove(heap, stack, rebuilt)
    && (root.Container? ==> root.id in rebuilt || OnStack(stack, 0, root.id))
  }

  lemma StartStack(heap: Heap, tree: map<Id, Tree>, root: Value)
    requires Unfolding(heap, tree) && Held(heap, root)
    ensures Underway(heap, tree, if root.Container? then [Frame(root.id, false)] else [], {}, {}, root)
  {
    if root.Container? { assert [Frame(root.id, false)][0].id == root.id; }
  }

  lemma TopHeld(
    heap: Heap, tree: map<Id, Tree>, stack: seq<Frame>, entered: set<Id>, rebuilt: set<Id>, root: Value)
    requires Unfolding(heap, tree) && Underway(heap, tree, stack, entered, rebuilt, root)
    ensures if stack == [] then root.Container? ==> root.id in rebuilt
            else stack[|stack| - 1].id in heap && stack[|stack| - 1].id in tree
  {
  }

  /** Taking the top frame off, once its container is rebuilt, loses nothing. */
  lemma Pop(
    heap: Heap, tree: map<Id, Tree>, stack: seq<Frame>, entered: set<Id>, rebuilt: set<Id>, more: set<Id>,
    root: Value)
    requires stack != [] && Underway(heap, tree, stack, entered, rebuilt, root)
    requires more == rebuilt + {stack[|stack| - 1].id}
    ensures Underway(heap, tree, stack[..|stack| - 1], entered, more, root)
  {
    var left := stack[..|stack| - 1];
    forall from: nat, id | OnStack(stack, from, id) ensures id in more || OnStack(left, from, id) {
      var i :| from <= i < |stack| && stack[i].id == id;
      if i < |left| { assert left[i].id == id; }
    }
    forall id | id in entered && id !in more ensures exists i | 0 <= i < |left| :: left[i] == Frame(id, true) {
      var i :| 0 <= i < |stack| && stack[i] == Frame(id, true);
      assert left[i] == Frame(id, true);
    }
    forall i | 0 <= i < |left| && left[i].childrenDone
      ensures left[i].id in heap && EntriesAbove(heap[left[i].id].entries, left, i + 1, more)
    {
      assert stack[i] == left[i];
      assert EntriesAbove(heap[stack[i].id].entries, stack, i + 1, rebuilt);
    }
  }

  /** On an acyclic graph a container about to be expanded was not entered before. */
  lemma NotEntered(
    heap: Heap, tree: map<Id, Tree>, stack: seq<Frame>, entered: set<Id>, rebuilt: set<Id>, root: Value)
    requires stack != [] && Underway(heap, tree, stack, entered, rebuilt, root)
    requires !stack[|stack| - 1].childrenDone && stack[|stack| - 1].id !in rebuilt
    ensures stack[|stack| - 1].id !in entered
  {
    assert forall i | 0 <= i < |stack| - 1 && stack[i].childrenDone :: stack[i].id != stack[|stack| - 1].id;
  }

  /** The containers among the entries, in order. */
  function ContainerFrames(entries: seq<Entry>): (r: seq<Frame>)
    ensures forall i | 0 <= i < |r| :: !r[i].childrenDone
    ensures forall i | 0 <= i < |r| :: exists e | 0 <= e < |entries| :: entries[e].value == Container(r[i].id)
    ensures forall e | 0 <= e < |entries| && entries[e].value.Container? :: OnStack(r, 0, entries[e].value.id)
  {
    if entries == [] then []
    else
      var front, last := ContainerFrames(entries[..|entries| - 1]), entries[|entries| - 1].value;
      if last.Leaf? then front
      else
        var r := front + [Frame(last.id, false)];
        assert r[|front|].id == last.id;
        assert forall i | 0 <= i < |front| :: r[i] == front[i];
        r
  }

  /** The stack once its top container is expanded: the container waits below its children. */
  function Pushed(stack: seq<Frame>, children: seq<Frame>): (r: seq<Frame>)
    requires stack != []
    ensures |r| == |stack| + |children|
    ensures forall i | 0 <= i < |stack| - 1 :: r[i] == stack[i]
    ensures r[|stack| - 1] == Frame(stack[|stack| - 1].id, true)
    ensures forall i | |stack| <= i < |r| :: r[i] == children[i - |stack|]
  {
    stack[..|stack| - 1] + [Frame(stack[|stack| - 1].id, true)] + children
  }

  lemma PushedOnStack(stack: seq<Frame>, children: seq<Frame>, from: nat, id: Id)
    requires stack != [] && OnStack(stack, from, id)
    ensures OnStack(Pushed(stack, children), from, id)
  {
    var i :| from <= i < |stack| && stack[i].id == id;
    assert Pushed(stack, children)[i].id == id;
  }

  lemma PushedChildren(stack: seq<Frame>, entries: seq<Entry>, rebuilt: set<Id>)
    requires stack != []
    ensures EntriesAbove(entries, Pushed(stack, ContainerFrames(entries)), |stack|, rebuilt)
  {
    var children := ContainerFrames(entries);
    var grown := Pushed(stack, children);
    forall e | 0 <= e < |entries| && entries[e].value.Container?
      ensures OnStack(grown, |stack|, entries[e].value.id)
    {
      assert OnStack(children, 0, entries[e].value.id);
      var k :| 0 <= k < |children| && children[k].id == entries[e].value.id;
      assert grown[|stack| + k].id == entries[e].value.id;
    }
  }

  lemma ChildSmaller(heap: Heap, tree: map<Id, Tree>, id: Id, e: nat)
    requires Unfolding(heap, tree) && id in heap && e < |heap[id].entries| && heap[id].entries[e].value.Container?
    ensures var child := heap[id].entries[e].value.id;
            child in tree && id in tree && TreeSize(tree[child]) < TreeSize(tree[id])
  {
    EntryUnfolds(heap, tree, id, e);
  }

  /** Frames not yet expanded, of containers smaller than a given one. */
  ghost predicate Smaller(tree: map<Id, Tree>, children: seq<Frame>, size: nat) {
    forall i | 0 <= i < |children| ::
      children[i].id in tree && !children[i].childrenDone && TreeSize(tree[children[i].id]) < size
  }

  /** What is pushed above a container is smaller than it. */
  lemma ChildrenSmaller(heap: Heap, tree: map<Id, Tree>, id: Id)
    requires Unfolding(heap, tree) && id in heap && id in tree
    ensures Smaller(tree, ContainerFrames(heap[id].entries), TreeSize(tree[id]))
  {
    hide TreeSize, Unfolding;
    var children := ContainerFrames(heap[id].entries);
    forall i | 0 <= i < |children|
      ensures children[i].id in tree && TreeSize(tree[children[i].id]) < TreeSize(tree[id])
    {
      var e :| 0 <= e < |heap[id].entries| && heap[id].entries[e].value == Container(children[i].id);
      ChildSmaller(heap, tree, id, e);
    }
  }

  lemma PushedStacked(tree: map<Id, Tree>, stack: seq<Frame>, children: seq<Frame>)
    requires stack != [] && Stacked(tree, stack)
    requires Smaller(tree, children, TreeSize(tree[stack[|stack| - 1].id]))
    ensures Stacked(tree, Pushed(stack, children))
  {
    hide TreeSize;
    var top, at := stack[|stack| - 1].id, |stack|;
    var grown := Pushed(stack, children);
    forall i, k | 0 <= i < k < |grown| && grown[i].childrenDone
      ensures TreeSize(tree[grown[k].id]) < TreeSize(tree[grown[i].id])
    {
      if i < at - 1 {
        assert TreeSize(tree[stack[at - 1].id]) < TreeSize(tree[stack[i].id]);
        if k < at { assert TreeSize(tree[stack[k].id]) < TreeSize(tree[stack[i].id]); }
      }
    }
  }

  lemma PushedWaiting(stack: seq<Frame>, children: seq<Frame>, entered: set<Id>, rebuilt: set<Id>)
    requires stack != [] && Waiting(stack, entered, rebuilt) && !stack[|stack| - 1].childrenDone
    ensures Waiting(Pushed(stack, children), entered + {stack[|stack| - 1].id}, rebuilt)
  {
    var grown, top := Pushed(stack, children), stack[|stack| - 1].id;
    forall id | id in entered + {top} && id !in rebuilt
      ensures exists i | 0 <= i < |grown| :: grown[i] == Frame(id, true)
    {
      if id == top {
        assert grown[|stack| - 1] == Frame(id, true);
      } else {
        var i :| 0 <= i < |stack| && stack[i] == Frame(id, true);
        assert grown[i] == Frame(id, true);
      }
    }
  }

  lemma PushedEntriesAbove(
    stack: seq<Frame>, children: seq<Frame>, held: seq<Entry>, from: nat, rebuilt: set<Id>)
    requires stack != [] && EntriesAbove(held, stack, from, rebuilt)
    ensures EntriesAbove(held, Pushed(stack, children), from, rebuilt)
  {
    forall e | 0 <= e < |held| && held[e].value.Container? && held[e].value.id !in rebuilt
      ensures OnStack(Pushed(stack, children), from, held[e].value.id)
    {
      PushedOnStack(stack, children, from, held[e].value.id);
    }
  }

  lemma PushedChildrenAbove(heap: Heap, stack: seq<Frame>, children: seq<Frame>, rebuilt: set<Id>)
    requires stack != [] && ChildrenAbove(heap, stack, rebuilt) && stack[|stack| - 1].id in heap
    requires forall i | 0 <= i < |children| :: !children[i].childrenDone
    requires EntriesAbove(heap[stack[|stack| - 1].id].entries, Pushed(stack, children), |stack|, rebuilt)
    ensures ChildrenAbove(heap, Pushed(stack, children), rebuilt)
  {
    hide EntriesAbove;
    var grown := Pushed(stack, children);
    forall i | 0 <= i < |grown| && grown[i].childrenDone
      ensures grown[i].id in heap && EntriesAbove(heap[grown[i].id].entries, grown, i + 1, rebuilt)
    {
      if i < |stack| - 1 {
        assert EntriesAbove(heap[stack[i].id].entries, stack, i + 1, rebuilt);
        PushedEntriesAbove(stack, children, heap[stack[i].id].entries, i + 1, rebuilt);
      }
    }
  }

  /** Expanding a container leaves it waiting below its children. */
  lemma Push(
    heap: Heap, tree: map<Id, Tree>, stack: seq<Frame>, entered: set<Id>, rebuilt: set<Id>, root: Value)
    requires Unfolding(heap, tree)
    requires stack != [] && Underway(heap, tree, stack, entered, rebuilt, root)
    requires !stack[|stack| - 1].childrenDone && stack[|stack| - 1].id !in rebuilt
    ensures var top := stack[|stack| - 1].id;
            && top in heap && top !in entered
            && Underway(heap, tree, Pushed(stack, ContainerFrames(heap[top].entries)), entered + {top}, rebuilt, root)
  {
    hide OnStack, Stacked, Waiting, ChildrenAbove, Unfolding;
    var top := stack[|stack| - 1].id;
    NotEntered(heap, tree, stack, entered, rebuilt, root);
    TopHeld(heap, tree, stack, entered, rebuilt, root);
    var children := ContainerFrames(heap[top].entries);
    ChildrenSmaller(heap, tree, top);
    PushedStacked(tree, stack, children);
    PushedWaiting(stack, children, entered, rebuilt);
    PushedChildren(stack, heap[top].entries, rebuilt);
    PushedChildrenAbove(heap, stack, children, rebuilt);
    if root.Container? && root.id !in rebuilt {
      PushedOnStack(stack, children, 0, root.id);
    }
  }

  /** A waiting container on top of the stack has all its children rebuilt. */
  lemma ChildrenRebuilt(
    heap: Heap, tree: map<Id, Tree>, stack: seq<Frame>, entered: set<Id>, rebuilt: set<Id>, root: Value)
    requires stack != [] && Underway(heap, tree, stack, entered, rebuilt, root) && stack[|stack| - 1].childrenDone
    ensures var id := stack[|stack| - 1].id;
            && id in heap && forall e | 0 <= e < |heap[id].entries| && heap[id].entries[e].value.Container? ::
                 heap[id].entries[e].value.id in rebuilt
  {
    assert EntriesAbove(heap[stack[|stack| - 1].id].entries, stack, |stack|, rebuilt);
  }

  // ---------------------------------------------------------------- the rebuilt containers

  /** Each rebuilt container has one copy, which unfolds to its pinned tree. */
  ghost predicate Rebuilt(
    heap: Heap, tree: map<Id, Tree>, pin: int -> int, rebuilt: map<Id, Id>, copies: Heap, trees: map<Id, Tree>)
  {
    && Isomorphic(heap, pin, rebuilt, copies)
    && Unfolding(copies, trees)
    && (forall id | id in copies :: id.n < |copies|)
    && (forall id | id in rebuilt ::
          id in tree && rebuilt[id] in trees && trees[rebuilt[id]] == PinTree(pin, tree[id]))
  }

  lemma NothingRebuilt(heap: Heap, tree: map<Id, Tree>, pin: int -> int)
    ensures Rebuilt(heap, tree, pin, map[], map[], map[])
  {
  }

  /** A pinned leaf, or the one copy of a rebuilt container. */
  function PinnedValue(pin: int -> int, rebuilt: map<Id, Id>, v: Value): Value {
    match v
    case Leaf(atom) => Leaf(pin(atom))
    case Container(id) => if id in rebuilt then Container(rebuilt[id]) else v
  }

  function PinnedEntries(pin: int -> int, rebuilt: map<Id, Id>, entries: seq<Entry>): (r: seq<Entry>)
    ensures |r| == |entries|
    ensures forall i | 0 <= i < |r| :: r[i] == Entry(entries[i].name, PinnedValue(pin, rebuilt, entries[i].value))
  {
    seq(|entries|, i requires 0 <= i < |entries| => Entry(entries[i].name, PinnedValue(pin, rebuilt, entries[i].value)))
  }

  lemma PinnedDenote(
    heap: Heap, tree: map<Id, Tree>, pin: int -> int, rebuilt: map<Id, Id>, copies: Heap, trees: map<Id, Tree>,
    id: Id)
    requires Unfolding(heap, tree) && Rebuilt(heap, tree, pin, rebuilt, copies, trees) && id in heap
    requires forall e | 0 <= e < |heap[id].entries| && heap[id].entries[e].value.Container? ::
               heap[id].entries[e].value.id in rebuilt
    ensures id in tree
    ensures var pinned := PinnedEntries(pin, rebuilt, heap[id].entries);
            && EntriesImage(pin, rebuilt, heap[id].entries, pinned)
            && CellDenotes(trees, Cell(heap[id].kind, pinned), PinTree(pin, tree[id]))
  {
    hide Isomorphic;
    var entries := heap[id].entries;
    var pinned, twigs := PinnedEntries(pin, rebuilt, entries), PinTwigs(pin, tree[id].twigs);
    forall i | 0 <= i < |entries|
      ensures pinned[i].name == twigs[i].name && Denotes(trees, pinned[i].value, twigs[i].tree)
    {
      EntryUnfolds(heap, tree, id, i);
    }
  }

  lemma RebuiltGrows(
    heap: Heap, tree: map<Id, Tree>, pin: int -> int, rebuilt: map<Id, Id>, copies: Heap, trees: map<Id, Tree>,
    id: Id, entries: seq<Entry>)
    requires Rebuilt(heap, tree, pin, rebuilt, copies, trees) && id in heap && id in tree && id !in rebuilt
    requires EntriesImage(pin, rebuilt, heap[id].entries, entries)
    requires CellDenotes(trees, Cell(heap[id].kind, entries), PinTree(pin, tree[id]))
    ensures var copy := Address(|copies|);
            Rebuilt(heap, tree, pin, rebuilt[id := copy], copies[copy := Cell(heap[id].kind, entries)],
                    trees[copy := PinTree(pin, tree[id])])
  {
    hide Isomorphic, EntriesImage, CellDenotes;
    var copy := Address(|copies|);
    UnfoldingGrows(copies, trees, copy, Cell(heap[id].kind, entries), PinTree(pin, tree[id]));
    IsomorphicGrows(heap, pin, rebuilt, copies, id, copy, entries);
  }

  /** Rebuild one container whose children are rebuilt. */
  method Rebuild(
    heap: Heap, pin: int -> int, id: Id, rebuilt: map<Id, Id>, copies: Heap,
    ghost tree: map<Id, Tree>, ghost trees: map<Id, Tree>)
    returns (more: map<Id, Id>, built: Heap, ghost unfolded: map<Id, Tree>)
    requires Unfolding(heap, tree) && Rebuilt(heap, tree, pin, rebuilt, copies, trees) && id in heap
    requires id !in rebuilt
    requires forall e | 0 <= e < |heap[id].entries| && heap[id].entries[e].value.Container? ::
               heap[id].entries[e].value.id in rebuilt
    ensures Rebuilt(heap, tree, pin, more, built, unfolded)
    ensures more.Keys == rebuilt.Keys + {id} && Keeps(rebuilt, more)
  {
    hide Isomorphic, EntriesImage, CellDenotes, PinnedEntries, Unfolding, Rebuilt;
    var copy, entries := Address(|copies|), PinnedEntries(pin, rebuilt, heap[id].entries);
    PinnedDenote(heap, tree, pin, rebuilt, copies, trees, id);
    RebuiltGrows(heap, tree, pin, rebuilt, copies, trees, id, entries);
    more, built := rebuilt[id := copy], copies[copy := Cell(heap[id].kind, entries)];
    unfolded := trees[copy := PinTree(pin, tree[id])];
  }

  lemma RebuiltRoot(
    heap: Heap, tree: map<Id, Tree>, pin: int -> int, rebuilt: map<Id, Id>, copies: Heap, trees: map<Id, Tree>,
    root: Value)
    requires Unfolding(heap, tree) && Rebuilt(heap, tree, pin, rebuilt, copies, trees) && Held(heap, root)
    requires root.Container? ==> root.id in rebuilt
    ensures root.Container? ==> root.id in tree
    ensures Unfolding(copies, trees) && Isomorphic(heap, pin, rebuilt, copies)
    ensures Denotes(trees, PinnedValue(pin, rebuilt, root), PinTree(pin, TreeOf(tree, root)))
  {
  }

  // ---------------------------------------------------------------- leaves that cannot be pinned

  /** The pinned value of a leaf that can be pinned. */
  function Fixed(pin: int -> Option<int>): int -> int {
    atom => if pin(atom).Some? then pin(atom).value else atom
  }

  /** Every leaf can be pinned. */
  ghost predicate Pinnable(pin: int -> Option<int>, t: Tree) {
    match t
    case LeafTree(atom) => pin(atom).Some?
    case Branch(_, twigs) => forall i | 0 <= i < |twigs| :: Pinnable(pin, twigs[i].tree)
  }

  predicate LeavesPinnable(pin: int -> Option<int>, entries: seq<Entry>) {
    forall i | 0 <= i < |entries| && entries[i].value.Leaf? :: pin(entries[i].value.atom).Some?
  }

  /** What is rebuilt could be pinned, and what is on the stack must be pinned for the snapshot to be. */
  ghost predicate Pinning(
    pin: int -> Option<int>, tree: map<Id, Tree>, stack: seq<Frame>, rebuilt: set<Id>, whole: Tree)
  {
    && (forall id | id in rebuilt :: id in tree && Pinnable(pin, tree[id]))
    && (Pinnable(pin, whole) ==> forall i | 0 <= i < |stack| :: stack[i].id in tree && Pinnable(pin, tree[stack[i].id]))
  }

  lemma StartPinning(pin: int -> Option<int>, heap: Heap, tree: map<Id, Tree>, root: Value)
    requires Unfolding(heap, tree) && Held(heap, root)
    ensures root.Container? ==> root.id in tree
    ensures Pinning(pin, tree, if root.Container? then [Frame(root.id, false)] else [], {}, TreeOf(tree, root))
  {
  }

  /** A container whose leaves can be pinned, above rebuilt ones, can be; otherwise the snapshot cannot. */
  lemma TopPinnable(
    pin: int -> Option<int>, heap: Heap, tree: map<Id, Tree>, stack: seq<Frame>, rebuilt: set<Id>, whole: Tree)
    requires Unfolding(heap, tree) && Pinning(pin, tree, stack, rebuilt, whole) && stack != []
    requires var id := stack[|stack| - 1].id;
             && id in heap && forall e | 0 <= e < |heap[id].entries| && heap[id].entries[e].value.Container? ::
                  heap[id].entries[e].value.id in rebuilt
    ensures var id := stack[|stack| - 1].id;
            if LeavesPinnable(pin, heap[id].entries)
            then Pinning(pin, tree, stack[..|stack| - 1], rebuilt + {id}, whole)
            else !Pinnable(pin, whole)
  {
    var id := stack[|stack| - 1].id;
    var entries := heap[id].entries;
    forall e | 0 <= e < |entries|
      ensures id in tree && tree[id].Branch? && |tree[id].twigs| == |entries|
      ensures Pinnable(pin, tree[id].twigs[e].tree) <==>
                (entries[e].value.Leaf? ==> pin(entries[e].value.atom).Some?)
    {
      EntryUnfolds(heap, tree, id, e);
    }
    KnownBranch(heap, tree, id);
  }

  lemma KnownBranch(heap: Heap, tree: map<Id, Tree>, id: Id)
    requires Unfolding(heap, tree) && id in heap
    ensures id in tree && tree[id].Branch? && |tree[id].twigs| == |heap[id].entries|
  {
  }

  lemma ChildPinnable(
    pin: int -> Option<int>, heap: Heap, tree: map<Id, Tree>, id: Id, children: seq<Frame>, k: nat)
    requires Unfolding(heap, tree) && id in heap && id in tree && children == ContainerFrames(heap[id].entries)
    requires k < |children| && Pinnable(pin, tree[id])
    ensures children[k].id in tree && Pinnable(pin, tree[children[k].id])
  {
    var e :| 0 <= e < |heap[id].entries| && heap[id].entries[e].value == Container(children[k].id);
    EntryUnfolds(heap, tree, id, e);
  }

  lemma PushedPinning(
    pin: int -> Option<int>, heap: Heap, tree: map<Id, Tree>, stack: seq<Frame>, rebuilt: set<Id>, whole: Tree)
    requires Unfolding(heap, tree) && Pinning(pin, tree, stack, rebuilt, whole) && stack != []
    requires stack[|stack| - 1].id in heap
    ensures Pinning(pin, tree, Pushed(stack, ContainerFrames(heap[stack[|stack| - 1].id].entries)), rebuilt, whole)
  {
    var top := stack[|stack| - 1].id;
    var children := ContainerFrames(heap[top].entries);
    var grown := Pushed(stack, children);
    hide Pinnable, Unfolding;
    if Pinnable(pin, whole) {
      forall i | 0 <= i < |grown| ensures grown[i].id in tree && Pinnable(pin, tree[grown[i].id]) {
        assert stack[|stack| - 1].id in tree;
        if i >= |stack| {
          ChildPinnable(pin, heap, tree, top, children, i - |stack|);
        }
      }
    }
  }

  lemma PoppedPinning(
    pin: int -> Option<int>, tree: map<Id, Tree>, stack: seq<Frame>, rebuilt: set<Id>, whole: Tree)
    requires Pinning(pin, tree, stack, rebuilt, whole) && stack != []
    ensures Pinning(pin, tree, stack[..|stack| - 1], rebuilt, whole)
  {
    hide Pinnable;
  }

  lemma RootPinnable(pin: int -> Option<int>, heap: Heap, tree: map<Id, Tree>, rebuilt: set<Id>, root: Value)
    requires Unfolding(heap, tree) && Held(heap, root)
    requires root.Container? ==> root.id in rebuilt && root.id in tree
    requires Pinning(pin, tree, [], rebuilt, TreeOf(tree, root))
    ensures Pinnable(pin, TreeOf(tree, root)) <==> (root.Leaf? ==> pin(root.atom).Some?)
  {
  }

  datatype Pinned = Pinned(value: Value) | NoOffset

  /**
   The pinned copy of a snapshot: its tree with every leaf pinned, and one rebuilt copy of each container,
   whichever parent reaches it first, to which every reference goes.  It is refused exactly when some leaf of the
   snapshot cannot be pinned.
   */
  method Pin(heap: Heap, snapshot: Value, pin: int -> Option<int>, ghost tree: map<Id, Tree>)
    returns (r: Pinned, rebuilt: map<Id, Id>, copies: Heap, ghost trees: map<Id, Tree>)
    requires Unfolding(heap, tree) && Held(heap, snapshot)
    ensures r.NoOffset? <==> !Pinnable(pin, TreeOf(tree, snapshot))
    ensures r.Pinned? ==>
              Unfolding(copies, trees) && Denotes(trees, r.value, PinTree(Fixed(pin), TreeOf(tree, snapshot)))
    ensures r.Pinned? ==> Isomorphic(heap, Fixed(pin), rebuilt, copies)
    ensures r.Pinned? && snapshot.Container? ==> snapshot.id in rebuilt && r.value == Container(rebuilt[snapshot.id])
  {
    hide Underway, Rebuilt, Unfolding, Isomorphic, Pinning, Pinnable, LeavesPinnable;
    rebuilt, copies, trees := map[], map[], map[];
    NothingRebuilt(heap, tree, Fixed(pin));
    StartStack(heap, tree, snapshot);
    StartPinning(pin, heap, tree, snapshot);
    ghost var whole := TreeOf(tree, snapshot);
    assert rebuilt.Keys == {};
    var entered: set<Id> := {};
    var stack := if snapshot.Container? then [Frame(snapshot.id, false)] else [];
    while stack != []
      invariant Underway(heap, tree, stack, entered, rebuilt.Keys, snapshot)
      invariant Rebuilt(heap, tree, Fixed(pin), rebuilt, copies, trees)
      invariant Pinning(pin, tree, stack, rebuilt.Keys, whole)
      invariant entered <= heap.Keys
      decreases heap.Keys - entered, |stack|
    {
      var top := stack[|stack| - 1];
      if top.id in rebuilt {
        Pop(heap, tree, stack, entered, rebuilt.Keys, rebuilt.Keys, snapshot);
        PoppedPinning(pin, tree, stack, rebuilt.Keys, whole);
        stack := stack[..|stack| - 1];
      } else if top.childrenDone {
        ChildrenRebuilt(heap, tree, stack, entered, rebuilt.Keys, snapshot);
        TopPinnable(pin, heap, tree, stack, rebuilt.Keys, whole);
        if !LeavesPinnable(pin, heap[top.id].entries) {
          return NoOffset, rebuilt, copies, trees;
        }
        Pop(heap, tree, stack, entered, rebuilt.Keys, rebuilt.Keys + {top.id}, snapshot);
        rebuilt, copies, trees := Rebuild(heap, Fixed(pin), top.id, rebuilt, copies, tree, trees);
        stack := stack[..|stack| - 1];
      } else {
        // A container entered before would close a cycle: there is none to skip.
        Push(heap, tree, stack, entered, rebuilt.Keys, snapshot);
        PushedPinning(pin, heap, tree, stack, rebuilt.Keys, whole);
        entered := entered + {top.id};
        stack := Pushed(stack, ContainerFrames(heap[top.id].entries));
      }
    }
    TopHeld(heap, tree, stack, entered, rebuilt.Keys, snapshot);
    RebuiltRoot(heap, tree, Fixed(pin), rebuilt, copies, trees, snapshot);
    RootPinnable(pin, heap, tree, rebuilt.Keys, snapshot);
    r := if snapshot.Leaf? && pin(snapshot.atom).None? then NoOffset
         else Pinned(PinnedValue(Fixed(pin), rebuilt, snapshot));
  }
}

/** Walks of a shared graph that look at the entries of each container once, however many paths lead to it. */
module EnteredOnce {
  import opened NativeGraph
  import opened Collections

  ghost function EntriesOf(heap: Heap, entered: seq<Id>): nat {
    if entered == [] then 0
    else
      var id := entered[|entered| - 1];
      EntriesOf(heap, entered[..|entered| - 1]) + if id in heap then |heap[id].entries| else 0
  }

  /** Each container is entered once; those finished were. */
  ghost predicate Entering(heap: Heap, finished: set<Id>, entered: seq<Id>) {
    && NoRepeats(entered)
    && (forall i | 0 <= i < |entered| :: entered[i] in heap)
    && (forall id | id in finished :: id in entered)
  }

  /** The containers entered and not finished yet are larger than `size`. */
  ghost predicate PendingAbove(tree: map<Id, Tree>, finished: set<Id>, entered: seq<Id>, size: nat) {
    forall id | id in entered && id !in finished :: id in tree && TreeSize(tree[id]) > size
  }

  lemma Enter(heap: Heap, tree: map<Id, Tree>, finished: set<Id>, entered: seq<Id>, id: Id)
    requires Entering(heap, finished, entered) && id in heap && id in tree && id !in finished
    requires PendingAbove(tree, finished, entered, TreeSize(tree[id]))
    ensures Entering(heap, finished, entered + [id])
    ensures PendingAbove(tree, finished, entered + [id], TreeSize(tree[id]) - 1)
    ensures EntriesOf(heap, entered + [id]) == EntriesOf(heap, entered) + |heap[id].entries|
  {
    assert id !in entered;
    assert (entered + [id])[..|entered|] == entered;
  }

  lemma AboveLess(tree: map<Id, Tree>, finished: set<Id>, entered: seq<Id>, size: nat, smaller: nat)
    requires PendingAbove(tree, finished, entered, size) && smaller <= size
    ensures PendingAbove(tree, finished, entered, smaller)
  {
  }

  lemma EnteringMore(heap: Heap, finished: set<Id>, entered: seq<Id>, id: Id)
    requires Entering(heap, finished, entered) && id in entered
    ensures Entering(heap, finished + {id}, entered)
  {
  }
}

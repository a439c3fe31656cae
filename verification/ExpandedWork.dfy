/**
 The size of what is about to be validated, counted once per path though measured once per container, and
 totalled over all entries of a call.
 */
module ExpandedWork {
  import opened Options
  import opened NativeGraph
  import opened Collections
  import opened EnteredOnce

  /** A measured container has the size of its tree, within the limit. */
  ghost predicate Measured(tree: map<Id, Tree>, sizes: map<Id, nat>, limit: nat) {
    forall id | id in sizes :: id in tree && sizes[id] == TreeSize(tree[id]) <= limit + 1
  }

  /** The sizes of several entries together. */
  ghost function TotalSize(tree: map<Id, Tree>, entries: seq<Value>): nat
    requires forall i | 0 <= i < |entries| :: entries[i].Container? ==> entries[i].id in tree
  {
    if entries == [] then 0
    else TotalSize(tree, entries[..|entries| - 1]) + TreeSize(TreeOf(tree, entries[|entries| - 1]))
  }

  /** How an entry of a container adds to its size. */
  lemma EntryAdds(heap: Heap, tree: map<Id, Tree>, id: Id, i: nat)
    requires Unfolding(heap, tree) && id in heap && i < |heap[id].entries|
    ensures id in tree && tree[id].Branch? && |tree[id].twigs| == |heap[id].entries|
    ensures var v, twigs := heap[id].entries[i].value, tree[id].twigs;
            && Held(heap, v) && (v.Container? ==> v.id in tree) && TreeOf(tree, v) == twigs[i].tree
            && TreeSize(TreeOf(tree, v)) < TreeSize(tree[id])
            && TwigsSize(twigs[..i + 1]) == TwigsSize(twigs[..i]) + TreeSize(TreeOf(tree, v))
            && 1 + TwigsSize(twigs[..i + 1]) <= TreeSize(tree[id])
  {
    EntryUnfolds(heap, tree, id, i);
    TwigsSizeStep(tree[id].twigs, i);
    TwigsWithin(tree[id].twigs, i + 1);
  }

  // ---------------------------------------------------------------- the work of measuring

  /** The containers measured, those whose entries were looked at, and the calls made. */
  datatype Tally = Tally(measured: set<Id>, entered: seq<Id>, calls: nat)

  /** From `a` to `b`, with at most `extra` calls besides one for each entry of a container newly entered. */
  ghost predicate Pays(heap: Heap, a: Tally, b: Tally, extra: nat) {
    && a.measured <= b.measured && a.entered <= b.entered
    && b.calls + EntriesOf(heap, a.entered) <= a.calls + extra + EntriesOf(heap, b.entered)
  }

  /** ... and all that was begun since `a` is measured. */
  ghost predicate PaysAll(heap: Heap, a: Tally, b: Tally, extra: nat) {
    && Pays(heap, a, b, extra)
    && forall id | id in b.entered && id !in b.measured :: id in a.entered && id !in a.measured
  }

  lemma PaysMore(heap: Heap, a: Tally, b: Tally, c: Tally, extra: nat, more: nat)
    requires PaysAll(heap, a, b, extra) && Pays(heap, b, c, more)
    ensures Pays(heap, a, c, extra + more)
    ensures PaysAll(heap, b, c, more) ==> PaysAll(heap, a, c, extra + more)
  {
    hide EntriesOf;
  }

  lemma PaysFewer(heap: Heap, a: Tally, b: Tally, extra: nat, more: nat)
    requires Pays(heap, a, b, extra) && extra <= more
    ensures Pays(heap, a, b, more)
  {
  }

  /** A container entered pays for the calls on its entries; measured, it is not pending. */
  lemma PaysInside(heap: Heap, a: Tally, b: Tally, id: Id)
    requires id in heap
    requires Pays(heap, a.(entered := a.entered + [id]), b, |heap[id].entries|)
    ensures Pays(heap, a, b, 0)
    ensures PaysAll(heap, a.(entered := a.entered + [id]), b, |heap[id].entries|) ==>
              PaysAll(heap, a, b.(measured := b.measured + {id}), 0) && id in b.entered
  {
    assert (a.entered + [id])[..|a.entered|] == a.entered;
    assert (a.entered + [id])[|a.entered|] == id;
  }

  lemma PaysKeepsAbove(heap: Heap, tree: map<Id, Tree>, a: Tally, b: Tally, extra: nat, size: nat)
    requires PaysAll(heap, a, b, extra) && PendingAbove(tree, a.measured, a.entered, size)
    ensures PendingAbove(tree, b.measured, b.entered, size)
  {
    hide EntriesOf;
  }

  class Inventory {
    const heap: Heap
    const limit: nat
    ghost const tree: map<Id, Tree>
    var sizes: map<Id, nat>
    var expandedWork: nat
    ghost var entered: seq<Id>
    ghost var calls: nat

    ghost predicate Valid()
      reads this
    {
      Unfolding(heap, tree) && Measured(tree, sizes, limit) && Entering(heap, sizes.Keys, entered)
    }

    ghost function Now(): Tally
      reads this
    {
      Tally(sizes.Keys, entered, calls)
    }

    constructor (heap: Heap, limit: nat, ghost tree: map<Id, Tree>)
      requires Unfolding(heap, tree)
      ensures this.heap == heap && this.limit == limit && this.tree == tree
      ensures Valid() && expandedWork == 0 && Now() == Tally({}, [], 0)
    {
      this.heap, this.limit, this.tree := heap, limit, tree;
      sizes, expandedWork, entered, calls := map[], 0, [], 0;
    }

    /** The size of a value, or none exactly when it exceeds the limit; a container measured costs one call. */
    method SizeOf(v: Value) returns (size: Option<nat>)
      requires Valid() && Held(heap, v) && (v.Container? ==> v.id in tree)
      requires PendingAbove(tree, sizes.Keys, entered, TreeSize(TreeOf(tree, v)))
      modifies this`sizes, this`entered, this`calls
      ensures Valid()
      ensures size == if TreeSize(TreeOf(tree, v)) > limit + 1 then None else Some(TreeSize(TreeOf(tree, v)))
      ensures Pays(heap, old(Now()), Now(), 1)
      ensures size.Some? ==> PaysAll(heap, old(Now()), Now(), 1)
      decreases TreeSize(TreeOf(tree, v)), 3
    {
      hide Unfolding, Entering, PendingAbove, EntriesOf;
      ghost var start := Now();
      calls := calls + 1;
      if v.Leaf? {
        size := Some(1);
      } else if v.id in sizes {
        size := Some(sizes[v.id]);
      } else {
        ghost var asked := Now();
        assert PaysAll(heap, start, asked, 1);
        size := Measure(v.id);
        PaysMore(heap, start, asked, Now(), 1, 0);
      }
    }

    method Measure(id: Id) returns (size: Option<nat>)
      requires Valid() && id in heap && id in tree && id !in sizes
      requires PendingAbove(tree, sizes.Keys, entered, TreeSize(tree[id]))
      modifies this`sizes, this`entered, this`calls
      ensures Valid()
      ensures size == if TreeSize(tree[id]) > limit + 1 then None else Some(TreeSize(tree[id]))
      ensures Pays(heap, old(Now()), Now(), 0)
      ensures size.Some? ==> PaysAll(heap, old(Now()), Now(), 0)
      decreases TreeSize(tree[id]), 2
    {
      hide Unfolding, Entering, PendingAbove, EntriesOf, Pays, PaysAll, TreeSize;
      ghost var start := Now();
      Enter(heap, tree, sizes.Keys, entered, id);
      entered := entered + [id];
      var total, within := MeasureEntries(id);
      PaysInside(heap, start, Now(), id);
      if within {
        EnteringMore(heap, sizes.Keys, entered, id);
        assert sizes[id := total].Keys == sizes.Keys + {id};
        sizes := sizes[id := total];
        size := Some(total);
      } else {
        size := None;
      }
    }

    /** Add up what a container holds, until it is too much. */
    method MeasureEntries(id: Id) returns (total: nat, within: bool)
      requires Valid() && id in heap && id in tree
      requires PendingAbove(tree, sizes.Keys, entered, TreeSize(tree[id]) - 1)
      modifies this`sizes, this`entered, this`calls
      ensures Valid()
      ensures within <==> TreeSize(tree[id]) <= limit + 1
      ensures within ==> total == TreeSize(tree[id])
      ensures Pays(heap, old(Now()), Now(), |heap[id].entries|)
      ensures within ==> PaysAll(heap, old(Now()), Now(), |heap[id].entries|)
      decreases TreeSize(tree[id]), 1
    {
      hide Entering, PendingAbove, EntriesOf;
      ghost var start, twigs := Now(), tree[id].twigs;
      assert |twigs| == |heap[id].entries|;
      hide Unfolding;
      total, within := 1, true;
      var i := 0;
      while within && i < |heap[id].entries|
        invariant Valid() && i <= |heap[id].entries|
        invariant within ==> total == 1 + TwigsSize(twigs[..i]) <= limit + 1
        invariant within ==> PaysAll(heap, start, Now(), i)
        invariant !within ==> TreeSize(tree[id]) > limit + 1 && Pays(heap, start, Now(), |heap[id].entries|)
        decreases within, |heap[id].entries| - i
      {
        total, within := MeasureEntry(id, i, total, start);
        i := i + 1;
      }
      assert twigs[..|twigs|] == twigs;
    }

    method MeasureEntry(id: Id, i: nat, total: nat, ghost start: Tally) returns (more: nat, within: bool)
      requires Valid() && id in heap && id in tree && i < |heap[id].entries| && tree[id].Branch?
      requires |tree[id].twigs| == |heap[id].entries|
      requires PaysAll(heap, start, Now(), i)
      requires PendingAbove(tree, start.measured, start.entered, TreeSize(tree[id]) - 1)
      requires total == 1 + TwigsSize(tree[id].twigs[..i]) <= limit + 1
      modifies this`sizes, this`entered, this`calls
      ensures Valid()
      ensures within ==> more == 1 + TwigsSize(tree[id].twigs[..i + 1]) <= limit + 1
      ensures within ==> PaysAll(heap, start, Now(), i + 1)
      ensures !within ==> TreeSize(tree[id]) > limit + 1 && Pays(heap, start, Now(), |heap[id].entries|)
      decreases TreeSize(tree[id]), 0
    {
      hide Unfolding, Entering, PendingAbove, EntriesOf, Pays, PaysAll;
      EntryAdds(heap, tree, id, i);
      ghost var now := Now();
      var v := heap[id].entries[i].value;
      PaysKeepsAbove(heap, tree, start, now, i, TreeSize(tree[id]) - 1);
      AboveLess(tree, sizes.Keys, entered, TreeSize(tree[id]) - 1, TreeSize(TreeOf(tree, v)));
      var part := SizeOf(v);
      PaysMore(heap, start, now, Now(), i, 1);
      PaysFewer(heap, start, Now(), i + 1, |heap[id].entries|);
      more, within := total, part.Some? && total + part.value <= limit + 1;
      if within {
        more := total + part.value;
      }
    }

    /**
     Add one entry to the total of the call; refused exactly when the total would pass the limit.  The calls are
     linear in the entries of containers not measured before.
     */
    method ChargeExpandedWork(v: Value) returns (ok: bool)
      requires Valid() && Held(heap, v) && (v.Container? ==> v.id in tree)
      requires forall id | id in entered :: id in sizes
      modifies this
      ensures Valid()
      ensures ok <==> old(expandedWork) + TreeSize(TreeOf(tree, v)) <= limit + 1
      ensures ok ==> expandedWork == old(expandedWork) + TreeSize(TreeOf(tree, v))
      ensures Pays(heap, old(Now()), Now(), 1)
      ensures ok ==> forall id | id in entered :: id in sizes
    {
      hide Unfolding, Entering, EntriesOf;
      var size := SizeOf(v);
      ok := size.Some?;
      if ok {
        expandedWork := expandedWork + size.value;
        ok := expandedWork <= limit + 1;
      }
    }
  }

  lemma PrefixTotals(tree: map<Id, Tree>, entries: seq<Value>, i: nat)
    requires forall k | 0 <= k < |entries| :: entries[k].Container? ==> entries[k].id in tree
    requires i < |entries|
    ensures TotalSize(tree, entries[..i + 1]) == TotalSize(tree, entries[..i]) + TreeSize(TreeOf(tree, entries[i]))
  {
    assert entries[..i + 1][..i] == entries[..i];
  }

  lemma {:induction false} TotalGrows(tree: map<Id, Tree>, entries: seq<Value>, i: nat)
    requires forall k | 0 <= k < |entries| :: entries[k].Container? ==> entries[k].id in tree
    requires i <= |entries|
    ensures TotalSize(tree, entries[..i]) <= TotalSize(tree, entries)
    decreases |entries| - i
  {
    if i < |entries| {
      PrefixTotals(tree, entries, i);
      TotalGrows(tree, entries, i + 1);
    } else {
      assert entries[..i] == entries;
    }
  }

  /**
   A call's entries, several perhaps sharing containers, pass exactly when their sizes together do.  Measuring them
   takes a call for each entry, and one for each entry of the distinct containers below them.
   */
  method ChargeAll(heap: Heap, entries: seq<Value>, limit: nat, ghost tree: map<Id, Tree>)
    returns (ok: bool, ghost calls: nat, ghost entered: seq<Id>)
    requires Unfolding(heap, tree)
    requires forall i | 0 <= i < |entries| ::
               Held(heap, entries[i]) && (entries[i].Container? ==> entries[i].id in tree)
    ensures ok <==> TotalSize(tree, entries) <= limit + 1
    ensures calls <= |entries| + EntriesOf(heap, entered)
    ensures NoRepeats(entered) && forall i | 0 <= i < |entered| :: entered[i] in heap
  {
    hide Unfolding, EntriesOf;
    var inventory := new Inventory(heap, limit, tree);
    ok := true;
    var i := 0;
    NothingEntered(heap);
    while ok && i < |entries|
      invariant inventory.Valid() && i <= |entries|
      invariant inventory.heap == heap && inventory.limit == limit && inventory.tree == tree
      invariant ok ==> inventory.expandedWork == TotalSize(tree, entries[..i]) <= limit + 1
      invariant !ok ==> TotalSize(tree, entries) > limit + 1
      invariant inventory.calls <= i + EntriesOf(heap, inventory.entered)
      invariant ok ==> forall id | id in inventory.entered :: id in inventory.sizes
      decreases ok, |entries| - i
    {
      PrefixTotals(tree, entries, i);
      TotalGrows(tree, entries, i + 1);
      ok := inventory.ChargeExpandedWork(entries[i]);
      i := i + 1;
    }
    assert entries[..|entries|] == entries;
    calls, entered := inventory.calls, inventory.entered;
  }

  lemma NothingEntered(heap: Heap)
    ensures EntriesOf(heap, []) == 0
  {
  }
}

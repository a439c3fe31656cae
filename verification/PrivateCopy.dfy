/**
 The structural copy of a snapshot: each distinct container is copied once and shared in the copy as it is
 in the snapshot, and a snapshot whose walk per path would cost more than the limit is refused.
 */
module PrivateCopy {
  import opened NativeGraph
  import opened Collections
  import opened EnteredOnce

  datatype Copied = Copied(value: Value, size: nat) | Refused

  /** Each copied container, with its one copy and its size counted per path. */
  ghost predicate MemoValid(
    tree: map<Id, Tree>, copyOf: map<Id, Id>, sizeOf: map<Id, nat>, limit: nat, trees: map<Id, Tree>)
  {
    && (forall id | id in copyOf ::
          && id in tree && copyOf[id] in trees && id in sizeOf
          && trees[copyOf[id]] == tree[id] && sizeOf[id] == TreeSize(tree[id]) <= limit + 1)
  }

  /** The memo, and the heap of copies it points into. */
  ghost predicate CopyState(
    heap: Heap, tree: map<Id, Tree>, limit: nat,
    copyOf: map<Id, Id>, sizeOf: map<Id, nat>, copies: Heap, trees: map<Id, Tree>)
  {
    && Unfolding(heap, tree)
    && Unfolding(copies, trees)
    && (forall id | id in copies :: id.n < |copies|)
    && MemoValid(tree, copyOf, sizeOf, limit, trees)
    && Isomorphic(heap, Same, copyOf, copies)
  }

  /** Keeping one more container. */
  lemma KeepState(
    heap: Heap, tree: map<Id, Tree>, limit: nat,
    copyOf: map<Id, Id>, sizeOf: map<Id, nat>, copies: Heap, trees: map<Id, Tree>,
    id: Id, entries: seq<Entry>, size: nat)
    requires CopyState(heap, tree, limit, copyOf, sizeOf, copies, trees) && id in heap && id !in copyOf
    requires id in tree && tree[id].Branch? && EntriesDenote(trees, entries, tree[id].twigs)
    requires size == TreeSize(tree[id]) <= limit + 1 && EntriesImage(Same, copyOf, heap[id].entries, entries)
    ensures var copy := Address(|copies|);
            && copy !in trees
            && EntriesBuilt(copies[copy := Cell(heap[id].kind, entries)], |copies| + 1)
               == EntriesBuilt(copies, |copies|) + |heap[id].entries|
            && |copies[copy := Cell(heap[id].kind, entries)]| == |copies| + 1
            && CopyState(heap, tree, limit, copyOf[id := copy], sizeOf[id := size],
                         copies[copy := Cell(heap[id].kind, entries)], trees[copy := tree[id]])
  {
    hide Isomorphic, EntriesImage, EntriesDenote, Unfolding, MemoValid, TreeSize;
    var copy := Address(|copies|);
    IsomorphicGrows(heap, Same, copyOf, copies, id, copy, entries);
    ImageLength(Same, copyOf, heap[id].entries, entries);
    EntriesBuiltStay(copies, copies[copy := Cell(heap[id].kind, entries)], |copies|);
    KindKept(heap, tree, id);
    UnfoldingGrows(copies, trees, copy, Cell(heap[id].kind, entries), tree[id]);
    MemoKept(tree, copyOf, sizeOf, limit, trees, id, copy);
  }

  lemma KindKept(heap: Heap, tree: map<Id, Tree>, id: Id)
    requires Unfolding(heap, tree) && id in heap
    ensures id in tree && tree[id].Branch? && tree[id].kind == heap[id].kind
  {
  }

  lemma MemoKept(
    tree: map<Id, Tree>, copyOf: map<Id, Id>, sizeOf: map<Id, nat>, limit: nat, trees: map<Id, Tree>, id: Id, copy: Id)
    requires MemoValid(tree, copyOf, sizeOf, limit, trees) && id !in copyOf && copy !in trees
    requires id in tree && TreeSize(tree[id]) <= limit + 1
    ensures MemoValid(tree, copyOf[id := copy], sizeOf[id := TreeSize(tree[id])], limit, trees[copy := tree[id]])
  {
  }

  /** What the memo says of a container already copied. */
  lemma KnownCopy(
    heap: Heap, tree: map<Id, Tree>, limit: nat,
    copyOf: map<Id, Id>, sizeOf: map<Id, nat>, copies: Heap, trees: map<Id, Tree>, id: Id)
    requires CopyState(heap, tree, limit, copyOf, sizeOf, copies, trees)
    ensures id in heap ==> id in tree && tree[id].Branch? && |tree[id].twigs| == |heap[id].entries|
    ensures id in copyOf ==>
              && id in tree && id in sizeOf && copyOf[id] in trees && trees[copyOf[id]] == tree[id]
              && sizeOf[id] == TreeSize(tree[id]) <= limit + 1
  {
  }

  /** What is below an entry of a container. */
  lemma KnownEntry(
    heap: Heap, tree: map<Id, Tree>, limit: nat,
    copyOf: map<Id, Id>, sizeOf: map<Id, nat>, copies: Heap, trees: map<Id, Tree>, id: Id, i: nat)
    requires CopyState(heap, tree, limit, copyOf, sizeOf, copies, trees) && id in heap && i < |heap[id].entries|
    ensures id in tree && tree[id].Branch? && |tree[id].twigs| == |heap[id].entries|
    ensures var entry, twig := heap[id].entries[i], tree[id].twigs[i];
            && Held(heap, entry.value) && (entry.value.Container? ==> entry.value.id in tree)
            && TreeOf(tree, entry.value) == twig.tree && entry.name == twig.name
            && TreeSize(twig.tree) < TreeSize(tree[id])
            && 1 + TwigsSize(tree[id].twigs[..i]) + TreeSize(twig.tree) <= TreeSize(tree[id])
            && TwigsSize(tree[id].twigs[..i + 1]) == TwigsSize(tree[id].twigs[..i]) + TreeSize(twig.tree)
  {
    EntryUnfolds(heap, tree, id, i);
    TwigsSizeStep(tree[id].twigs, i);
    TwigsWithin(tree[id].twigs, i + 1);
  }

  /** The first entries of a container copied so far, and its size up to there. */
  ghost predicate Front(
    heap: Heap, tree: map<Id, Tree>, copyOf: map<Id, Id>, trees: map<Id, Tree>,
    id: Id, entries: seq<Entry>, size: nat)
    requires id in heap && id in tree && |entries| <= |heap[id].entries|
  {
    && tree[id].Branch? && |tree[id].twigs| == |heap[id].entries|
    && size == 1 + TwigsSize(tree[id].twigs[..|entries|])
    && EntriesDenote(trees, entries, tree[id].twigs[..|entries|])
    && EntriesImage(Same, copyOf, heap[id].entries[..|entries|], entries)
  }

  lemma NothingCopied(heap: Heap, tree: map<Id, Tree>, copyOf: map<Id, Id>, trees: map<Id, Tree>, id: Id)
    requires id in heap && id in tree && tree[id].Branch? && |tree[id].twigs| == |heap[id].entries|
    ensures Front(heap, tree, copyOf, trees, id, [], 1)
  {
  }

  lemma OneMoreCopied(
    heap: Heap, tree: map<Id, Tree>, copyOf: map<Id, Id>, trees: map<Id, Tree>,
    moreCopies: map<Id, Id>, moreTrees: map<Id, Tree>,
    id: Id, entries: seq<Entry>, size: nat, copied: Value, partSize: nat)
    requires id in heap && id in tree && |entries| < |heap[id].entries|
    requires Front(heap, tree, copyOf, trees, id, entries, size)
    requires Keeps(copyOf, moreCopies) && Extends(trees, moreTrees)
    requires var entry, twig := heap[id].entries[|entries|], tree[id].twigs[|entries|];
             && entry.name == twig.name && partSize == TreeSize(twig.tree)
             && Denotes(moreTrees, copied, twig.tree) && Image(Same, moreCopies, entry.value, copied)
    ensures Front(heap, tree, moreCopies, moreTrees, id,
                  entries + [Entry(heap[id].entries[|entries|].name, copied)], size + partSize)
  {
    hide EntriesDenote, EntriesImage, Denotes, Image, Keeps, Extends;
    var entry, twigs, held := heap[id].entries[|entries|], tree[id].twigs, heap[id].entries[..|entries|];
    var part := Entry(entry.name, copied);
    TwigsSizeStep(twigs, |entries|);
    assert twigs[..|entries| + 1] == twigs[..|entries|] + [twigs[|entries|]];
    assert heap[id].entries[..|entries| + 1] == held + [entry];
    StillDenotes(trees, moreTrees, entries, twigs[..|entries|]);
    DenoteAppended(moreTrees, entries, twigs[..|entries|], part, twigs[|entries|]);
    ImageKept(Same, copyOf, moreCopies, held, entries);
    ImageAppended(Same, moreCopies, held, entries, entry, part);
  }

  lemma AllCopied(
    heap: Heap, tree: map<Id, Tree>, copyOf: map<Id, Id>, trees: map<Id, Tree>,
    id: Id, entries: seq<Entry>, size: nat)
    requires id in heap && id in tree && |entries| == |heap[id].entries|
    requires Front(heap, tree, copyOf, trees, id, entries, size)
    ensures EntriesDenote(trees, entries, tree[id].twigs) && size == TreeSize(tree[id])
    ensures EntriesImage(Same, copyOf, heap[id].entries, entries)
  {
    assert tree[id].twigs[..|entries|] == tree[id].twigs && heap[id].entries[..|entries|] == heap[id].entries;
  }

  // ---------------------------------------------------------------- the work done

  /** What a copy has done so far: the copies, the containers entered, the calls, and the entries built. */
  datatype Work = Work(
    copyOf: map<Id, Id>, trees: map<Id, Tree>, entered: seq<Id>, calls: nat, kept: nat)

  /**
   From `a` to `b`, with at most `extra` calls besides one for each entry of a container newly entered, copying
   nothing larger than `size`.
   */
  ghost predicate Does(heap: Heap, tree: map<Id, Tree>, a: Work, b: Work, size: nat, extra: nat) {
    && Keeps(a.copyOf, b.copyOf) && Extends(a.trees, b.trees) && a.entered <= b.entered
    && (forall id | id in b.copyOf && id !in a.copyOf :: id in tree && TreeSize(tree[id]) <= size)
    && b.calls + EntriesOf(heap, a.entered) <= a.calls + extra + EntriesOf(heap, b.entered)
  }

  /** ... and all that was begun since `a` is copied, for which the entries built account too. */
  ghost predicate DoesAll(heap: Heap, tree: map<Id, Tree>, a: Work, b: Work, size: nat, extra: nat) {
    && Does(heap, tree, a, b, size, extra)
    && (forall id | id in b.entered && id !in b.copyOf :: id in a.entered && id !in a.copyOf)
    && b.calls + a.kept <= a.calls + extra + b.kept
  }

  lemma DoesNothing(heap: Heap, tree: map<Id, Tree>, a: Work, b: Work, size: nat, extra: nat)
    requires b == a.(calls := b.calls) && b.calls <= a.calls + extra
    ensures DoesAll(heap, tree, a, b, size, extra)
  {
  }

  lemma DoesMore(
    heap: Heap, tree: map<Id, Tree>, a: Work, b: Work, c: Work, size: nat, extra: nat, smaller: nat, more: nat)
    requires DoesAll(heap, tree, a, b, size, extra) && smaller <= size
    requires Does(heap, tree, b, c, smaller, more)
    ensures Does(heap, tree, a, c, size, extra + more)
    ensures DoesAll(heap, tree, b, c, smaller, more) ==> DoesAll(heap, tree, a, c, size, extra + more)
  {
    hide EntriesOf, TreeSize;
  }

  lemma DoesFewer(heap: Heap, tree: map<Id, Tree>, a: Work, b: Work, size: nat, extra: nat, more: nat)
    requires Does(heap, tree, a, b, size, extra) && extra <= more
    ensures Does(heap, tree, a, b, size, more)
  {
  }

  /** A container entered, with nothing as large copied since, is not copied yet. */
  lemma NotYetCopied(heap: Heap, tree: map<Id, Tree>, a: Work, b: Work, id: Id)
    requires id in heap && id in tree && id !in a.copyOf
    requires DoesAll(heap, tree, a.(entered := a.entered + [id]), b, TreeSize(tree[id]) - 1, |heap[id].entries|)
    ensures id !in b.copyOf && id in b.entered
  {
    hide TreeSize, EntriesOf;
    assert (a.entered + [id])[|a.entered|] == id;
  }

  lemma AllIsSome(heap: Heap, tree: map<Id, Tree>, a: Work, b: Work, size: nat, extra: nat)
    requires DoesAll(heap, tree, a, b, size, extra)
    ensures Does(heap, tree, a, b, size, extra)
  {
  }

  lemma DoesMeans(heap: Heap, tree: map<Id, Tree>, a: Work, b: Work, size: nat, extra: nat)
    requires DoesAll(heap, tree, a, b, size, extra)
    ensures Keeps(a.copyOf, b.copyOf) && Extends(a.trees, b.trees)
    ensures forall above: nat | PendingAbove(tree, a.copyOf.Keys, a.entered, above) ::
              PendingAbove(tree, b.copyOf.Keys, b.entered, above)
  {
    hide EntriesOf, TreeSize, Keeps, Extends;
  }

  /** A container entered: its entries pay for the calls. */
  lemma DoesInside(heap: Heap, tree: map<Id, Tree>, a: Work, b: Work, id: Id, size: nat)
    requires id in heap && a.calls > 0
    requires size > 0 && Does(heap, tree, a.(entered := a.entered + [id]), b, size - 1, |heap[id].entries|)
    ensures Does(heap, tree, a.(calls := a.calls - 1), b, size, 1)
  {
    hide TreeSize, Keeps, Extends;
    assert (a.entered + [id])[..|a.entered|] == a.entered;
  }

  /** ... and copied. */
  lemma DoesContainer(
    heap: Heap, tree: map<Id, Tree>, a: Work, b: Work, id: Id, copy: Id)
    requires id in heap && id in tree && id !in a.copyOf && a.calls > 0 && id !in b.copyOf && copy !in b.trees
    requires DoesAll(heap, tree, a.(entered := a.entered + [id]), b, TreeSize(tree[id]) - 1, |heap[id].entries|)
    ensures var c := b.(copyOf := b.copyOf[id := copy], trees := b.trees[copy := tree[id]],
                        kept := b.kept + |heap[id].entries|);
            && Does(heap, tree, a.(calls := a.calls - 1), c, TreeSize(tree[id]), 1)
            && DoesAll(heap, tree, a.(calls := a.calls - 1), c, TreeSize(tree[id]), 1)
  {
    hide TreeSize;
    assert (a.entered + [id])[..|a.entered|] == a.entered;
  }

  class Copier {
    const heap: Heap
    const limit: nat
    ghost const tree: map<Id, Tree>

    var copyOf: map<Id, Id>
    var sizeOf: map<Id, nat>
    // The containers built, numbered as they are.
    var copies: Heap
    ghost var trees: map<Id, Tree>
    ghost var calls: nat
    // The containers whose entries were looked at, in order.
    ghost var entered: seq<Id>

    ghost predicate Valid()
      reads this
    {
      CopyState(heap, tree, limit, copyOf, sizeOf, copies, trees) && Entering(heap, copyOf.Keys, entered)
    }

    ghost function Now(): Work
      reads this
    {
      Work(copyOf, trees, entered, calls, EntriesBuilt(copies, |copies|))
    }

    constructor (heap: Heap, limit: nat, ghost tree: map<Id, Tree>)
      requires Unfolding(heap, tree)
      ensures this.heap == heap && this.limit == limit && this.tree == tree
      ensures Valid() && Now() == Work(map[], map[], [], 0, 0)
    {
      this.heap, this.limit, this.tree := heap, limit, tree;
      copyOf, sizeOf, copies, trees, calls, entered := map[], map[], map[], map[], 0, [];
    }

    /**
     Copy a value: the same tree with the same sharing, and its size counted per path; refused exactly when
     that size exceeds the limit.  A container already copied costs one call, whatever lies below it, and no
     container is entered twice.
     */
    method Copy(v: Value) returns (r: Copied)
      requires Valid() && Held(heap, v) && (v.Container? ==> v.id in tree)
      requires PendingAbove(tree, copyOf.Keys, entered, TreeSize(TreeOf(tree, v)))
      modifies this
      ensures Valid()
      ensures Does(heap, tree, old(Now()), Now(), TreeSize(TreeOf(tree, v)), 1)
      ensures r.Refused? <==> TreeSize(TreeOf(tree, v)) > limit + 1
      ensures r.Copied? ==> DoesAll(heap, tree, old(Now()), Now(), TreeSize(TreeOf(tree, v)), 1)
      ensures r.Copied? ==> Denotes(trees, r.value, TreeOf(tree, v)) && r.size == TreeSize(TreeOf(tree, v))
      ensures r.Copied? ==> Image(Same, copyOf, v, r.value)
      decreases TreeSize(TreeOf(tree, v)), 3
    {
      hide CopyState, Entering, PendingAbove, EntriesBuilt;
      calls := calls + 1;
      DoesNothing(heap, tree, old(Now()), Now(), TreeSize(TreeOf(tree, v)), 1);
      hide Does, DoesAll;
      if v.Leaf? {
        r := Copied(v, 1);
      } else if v.id in copyOf {
        KnownCopy(heap, tree, limit, copyOf, sizeOf, copies, trees, v.id);
        r := Copied(Container(copyOf[v.id]), sizeOf[v.id]);
      } else {
        r := CopyContainer(v.id);
      }
    }

    method CopyContainer(id: Id) returns (r: Copied)
      requires Valid() && id in heap && id in tree && id !in copyOf && calls > 0
      requires PendingAbove(tree, copyOf.Keys, entered, TreeSize(tree[id]))
      modifies this
      ensures Valid()
      ensures Does(heap, tree, old(Now().(calls := calls - 1)), Now(), TreeSize(tree[id]), 1)
      ensures r.Refused? <==> TreeSize(tree[id]) > limit + 1
      ensures r.Copied? ==> DoesAll(heap, tree, old(Now().(calls := calls - 1)), Now(), TreeSize(tree[id]), 1)
      ensures r.Copied? ==> r.size == TreeSize(tree[id]) && id in copyOf && r.value == Container(copyOf[id])
      ensures r.Copied? ==> r.value.id in trees && trees[r.value.id] == tree[id]
      decreases TreeSize(tree[id]), 2
    {
      hide CopyState, EntriesDenote, EntriesImage, Entering, PendingAbove, TreeSize, EntriesBuilt, Does, DoesAll;
      KnownCopy(heap, tree, limit, copyOf, sizeOf, copies, trees, id);
      Enter(heap, tree, copyOf.Keys, entered, id);
      entered := entered + [id];
      var ok, entries, size := CopyEntries(id);
      DoesInside(heap, tree, old(Now()), Now(), id, TreeSize(tree[id]));
      if !ok || size > limit + 1 {
        r := Refused;
      } else {
        r := Keep(id, entries, size, old(Now()));
      }
    }

    /** Remember the copy of a container, whose entries are copied. */
    method Keep(id: Id, entries: seq<Entry>, size: nat, ghost before: Work) returns (r: Copied)
      requires Valid() && id in heap && id in tree && tree[id].Branch? && id !in before.copyOf && before.calls > 0
      requires DoesAll(heap, tree, before.(entered := before.entered + [id]), Now(), TreeSize(tree[id]) - 1,
                       |heap[id].entries|)
      requires EntriesDenote(trees, entries, tree[id].twigs) && size == TreeSize(tree[id]) <= limit + 1
      requires EntriesImage(Same, copyOf, heap[id].entries, entries)
      modifies this
      ensures Valid()
      ensures Does(heap, tree, before.(calls := before.calls - 1), Now(), TreeSize(tree[id]), 1)
      ensures DoesAll(heap, tree, before.(calls := before.calls - 1), Now(), TreeSize(tree[id]), 1)
      ensures id in copyOf && r == Copied(Container(copyOf[id]), size)
      ensures r.value.id in trees && trees[r.value.id] == tree[id]
    {
      hide CopyState, EntriesDenote, EntriesImage, Entering, TreeSize, EntriesBuilt, Does, DoesAll;
      NotYetCopied(heap, tree, before, Now(), id);
      KeepState(heap, tree, limit, copyOf, sizeOf, copies, trees, id, entries, size);
      var copy := Address(|copies|);
      DoesContainer(heap, tree, before, Now(), id, copy);
      EnteringMore(heap, copyOf.Keys, entered, id);
      assert copyOf[id := copy].Keys == copyOf.Keys + {id};
      copyOf, sizeOf := copyOf[id := copy], sizeOf[id := size];
      copies, trees := copies[copy := Cell(heap[id].kind, entries)], trees[copy := tree[id]];
      r := Copied(Container(copy), size);
    }

    /** Copy what a container holds, entry by entry, until one is refused. */
    method CopyEntries(id: Id) returns (ok: bool, entries: seq<Entry>, size: nat)
      requires Valid() && id in heap && id in tree && tree[id].Branch? && |tree[id].twigs| == |heap[id].entries|
      requires PendingAbove(tree, copyOf.Keys, entered, TreeSize(tree[id]) - 1)
      modifies this
      ensures Valid()
      ensures Does(heap, tree, old(Now()), Now(), TreeSize(tree[id]) - 1, |heap[id].entries|)
      ensures !ok ==> TreeSize(tree[id]) > limit + 1
      ensures ok ==> DoesAll(heap, tree, old(Now()), Now(), TreeSize(tree[id]) - 1, |heap[id].entries|)
      ensures ok ==> EntriesDenote(trees, entries, tree[id].twigs) && size == TreeSize(tree[id])
      ensures ok ==> EntriesImage(Same, copyOf, heap[id].entries, entries)
      decreases TreeSize(tree[id]), 1
    {
      hide CopyState, EntriesDenote, EntriesImage, Front, Entering, PendingAbove, TreeSize, EntriesBuilt, Does, DoesAll;
      ghost var start := Now();
      NothingCopied(heap, tree, copyOf, trees, id);
      DoesNothing(heap, tree, start, start, TreeSize(tree[id]) - 1, 0);
      DoesMeans(heap, tree, start, start, TreeSize(tree[id]) - 1, 0);
      ok, entries, size := true, [], 1;
      while ok && |entries| < |heap[id].entries|
        invariant Valid() && |entries| <= |heap[id].entries|
        invariant !ok ==> TreeSize(tree[id]) > limit + 1
        invariant !ok ==> Does(heap, tree, start, Now(), TreeSize(tree[id]) - 1, |heap[id].entries|)
        invariant ok ==> Front(heap, tree, copyOf, trees, id, entries, size)
        invariant ok ==> DoesAll(heap, tree, start, Now(), TreeSize(tree[id]) - 1, |entries|)
        decreases ok, |heap[id].entries| - |entries|
      {
        ok, entries, size := CopyEntry(id, entries, size, start);
      }
      if ok {
        AllCopied(heap, tree, copyOf, trees, id, entries, size);
        AllIsSome(heap, tree, start, Now(), TreeSize(tree[id]) - 1, |entries|);
      }
    }

    /** Copy the next thing a container holds, after all that was done since `start`. */
    method CopyEntry(id: Id, entries: seq<Entry>, size: nat, ghost start: Work)
      returns (ok: bool, more: seq<Entry>, larger: nat)
      requires Valid() && id in heap && id in tree && |entries| < |heap[id].entries|
      requires Front(heap, tree, copyOf, trees, id, entries, size)
      requires DoesAll(heap, tree, start, Now(), TreeSize(tree[id]) - 1, |entries|)
      requires PendingAbove(tree, start.copyOf.Keys, start.entered, TreeSize(tree[id]) - 1)
      modifies this
      ensures Valid() && |more| <= |heap[id].entries|
      ensures !ok ==> TreeSize(tree[id]) > limit + 1
      ensures !ok ==> Does(heap, tree, start, Now(), TreeSize(tree[id]) - 1, |heap[id].entries|)
      ensures ok ==> DoesAll(heap, tree, start, Now(), TreeSize(tree[id]) - 1, |more|)
      ensures ok ==> |more| == |entries| + 1 && Front(heap, tree, copyOf, trees, id, more, larger)
      decreases TreeSize(tree[id]), 0
    {
      hide CopyState, Front, TreeSize, Denotes, Image, Entering, PendingAbove, EntriesBuilt, Does, DoesAll, Keeps, Extends;
      var entry := heap[id].entries[|entries|];
      KnownEntry(heap, tree, limit, copyOf, sizeOf, copies, trees, id, |entries|);
      ghost var above, below: nat := TreeSize(tree[id]) - 1, TreeSize(TreeOf(tree, entry.value));
      ghost var now := Now();
      DoesMeans(heap, tree, start, now, above, |entries|);
      AboveLess(tree, copyOf.Keys, entered, above, below);
      var part := Copy(entry.value);
      DoesMore(heap, tree, start, now, Now(), above, |entries|, below, 1);
      if part.Refused? {
        ok, more, larger := false, entries, size;
        DoesFewer(heap, tree, start, Now(), above, |entries| + 1, |heap[id].entries|);
      } else {
        DoesMeans(heap, tree, now, Now(), below, 1);
        OneMoreCopied(heap, tree, now.copyOf, now.trees, copyOf, trees, id, entries, size, part.value, part.size);
        ok, more, larger := true, entries + [Entry(entry.name, part.value)], size + part.size;
      }
    }
  }

  /**
   The copy of one snapshot: refused exactly when its walk per path would exceed the limit, and otherwise
   the same tree, each container copied once and shared as it was.  Either way the calls are linear in the entries
   of distinct containers, however many paths lead to them.
   */
  method CopySnapshot(heap: Heap, v: Value, limit: nat, ghost tree: map<Id, Tree>)
    returns (r: Copied, copyOf: map<Id, Id>, copies: Heap, ghost trees: map<Id, Tree>, ghost calls: nat,
             ghost entered: seq<Id>)
    requires Unfolding(heap, tree) && Held(heap, v)
    ensures r.Refused? <==> TreeSize(TreeOf(tree, v)) > limit + 1
    ensures r.Copied? ==> r.size == TreeSize(TreeOf(tree, v))
    ensures r.Copied? ==> Unfolding(copies, trees) && Denotes(trees, r.value, TreeOf(tree, v))
    ensures r.Copied? ==> Isomorphic(heap, Same, copyOf, copies) && Image(Same, copyOf, v, r.value)
    ensures r.Copied? ==> calls <= 1 + EntriesBuilt(copies, |copies|)
    ensures calls <= 1 + EntriesOf(heap, entered)
    ensures NoRepeats(entered) && forall i | 0 <= i < |entered| :: entered[i] in heap
  {
    var copier := new Copier(heap, limit, tree);
    r := copier.Copy(v);
    copyOf, copies, trees := copier.copyOf, copier.copies, copier.trees;
    calls, entered := copier.calls, copier.entered;
  }
}

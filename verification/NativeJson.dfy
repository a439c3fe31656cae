/**
 The copy of a caller's document into plain containers: an explicit stack of containers being filled, each
 distinct container copied once, a document that holds itself refused.
 */
module NativeJson {
  import opened NativeGraph

  /** A container being filled, and how many of its entries are. */
  datatype Frame = Frame(id: Id, next: nat)

  datatype Converted = Native(value: Value, isNew: bool) | HoldsItself | NotJson | TooManyNodes

  /** A tuple is read as a list. */
  function NativeKind(kind: Kind): Kind {
    if kind.TupleKind? then ListKind else kind
  }

  function NativeHeap(heap: Heap): Heap {
    map id | id in heap :: Cell(NativeKind(heap[id].kind), heap[id].entries)
  }

  // ---------------------------------------------------------------- the state of a conversion

  ghost predicate OnStack(stack: seq<Frame>, from: nat, id: Id) {
    exists i | from <= i < |stack| :: stack[i].id == id
  }

  /** A container left for good: copied whole, after all it holds. */
  ghost predicate Finished(heap: Heap, memo: map<Id, Id>, shells: Heap, rank: map<Id, nat>, id: Id) {
    && id in heap && id in rank && id in memo && memo[id] in shells
    && EntriesImage(Same, memo, heap[id].entries, shells[memo[id]].entries)
    && forall e | 0 <= e < |heap[id].entries| && heap[id].entries[e].value.Container? ::
         heap[id].entries[e].value.id in rank && rank[heap[id].entries[e].value.id] < rank[id]
  }

  /** A container on the stack: filled so far, from containers finished or above it. */
  ghost predicate Filling(heap: Heap, memo: map<Id, Id>, shells: Heap, rank: map<Id, nat>, stack: seq<Frame>, i: nat)
    requires i < |stack|
  {
    var id, next := stack[i].id, stack[i].next;
    && id in heap && id in memo && memo[id] in shells && next <= |heap[id].entries|
    && EntriesImage(Same, memo, heap[id].entries[..next], shells[memo[id]].entries)
    && forall e | 0 <= e < next && heap[id].entries[e].value.Container? ::
         heap[id].entries[e].value.id in rank || OnStack(stack, i + 1, heap[id].entries[e].value.id)
  }

  ghost predicate OneToOne(memo: map<Id, Id>) {
    forall a, b | a in memo && b in memo && memo[a] == memo[b] :: a == b
  }

  ghost predicate Numbered(shells: Heap) {
    forall id | id in shells :: id.n < |shells|
  }

  /** Each container has a shell of its kind. */
  ghost predicate HaveShells(heap: Heap, memo: map<Id, Id>, shells: Heap) {
    forall id | id in memo ::
      id in heap && memo[id] in shells && shells[memo[id]].kind == NativeKind(heap[id].kind)
  }

  /** Distinct containers have distinct shells of their kind. */
  ghost predicate Shells(heap: Heap, memo: map<Id, Id>, shells: Heap) {
    OneToOne(memo) && shells.Keys == memo.Values && Numbered(shells) && HaveShells(heap, memo, shells)
  }

  ghost predicate Stacked(memo: map<Id, Id>, rank: map<Id, nat>, stack: seq<Frame>, active: set<Id>) {
    && (forall id :: id in active <==> OnStack(stack, 0, id))
    && (forall i, k | 0 <= i < k < |stack| :: stack[i].id != stack[k].id)
    && (forall id | id in active :: id in memo)
    && (forall id :: id in rank <==> id in memo && id !in active)
    && (forall id | id in rank :: rank[id] < |rank|)
  }

  ghost predicate Converting(
    heap: Heap, memo: map<Id, Id>, shells: Heap, rank: map<Id, nat>, stack: seq<Frame>, active: set<Id>)
  {
    && Shells(heap, memo, shells)
    && Stacked(memo, rank, stack, active)
    && AllFinished(heap, memo, shells, rank)
    && AllFilling(heap, memo, shells, rank, stack)
  }

  ghost predicate AllFinished(heap: Heap, memo: map<Id, Id>, shells: Heap, rank: map<Id, nat>) {
    forall id | id in rank :: Finished(heap, memo, shells, rank, id)
  }

  ghost predicate AllFilling(heap: Heap, memo: map<Id, Id>, shells: Heap, rank: map<Id, nat>, stack: seq<Frame>) {
    forall i | 0 <= i < |stack| :: Filling(heap, memo, shells, rank, stack, i)
  }

  // ---------------------------------------------------------------- steps of a conversion

  lemma NothingConverted(heap: Heap)
    ensures Converting(heap, map[], map[], map[], [], {})
  {
  }

  lemma FillingStays(
    heap: Heap, memo: map<Id, Id>, shells: Heap, rank: map<Id, nat>, stack: seq<Frame>, i: nat,
    more: map<Id, Id>, built: Heap, ranked: map<Id, nat>, higher: seq<Frame>)
    requires i < |stack| && Filling(heap, memo, shells, rank, stack, i)
    requires i < |higher| && higher[i] == stack[i] && Keeps(memo, more)
    requires memo[stack[i].id] in built && built[memo[stack[i].id]] == shells[memo[stack[i].id]]
    requires forall x | x in rank || OnStack(stack, i + 1, x) :: x in ranked || OnStack(higher, i + 1, x)
    ensures Filling(heap, more, built, ranked, higher, i)
  {
    hide OnStack;
    var id := stack[i].id;
    ImageKept(Same, memo, more, heap[id].entries[..stack[i].next], shells[memo[id]].entries);
  }

  lemma FinishedStays(
    heap: Heap, memo: map<Id, Id>, shells: Heap, rank: map<Id, nat>, id: Id,
    more: map<Id, Id>, built: Heap, ranked: map<Id, nat>)
    requires Finished(heap, memo, shells, rank, id) && Keeps(memo, more)
    requires memo[id] in built && built[memo[id]] == shells[memo[id]]
    requires forall x | x in rank :: x in ranked && ranked[x] == rank[x]
    ensures Finished(heap, more, built, ranked, id)
  {
    ImageKept(Same, memo, more, heap[id].entries, shells[memo[id]].entries);
  }

  /** The shells of all finished containers but `touched` are left as they are. */
  ghost predicate Untouched(memo: map<Id, Id>, shells: Heap, built: Heap, touched: Id) {
    forall id | id in memo && id != touched :: memo[id] in shells && memo[id] in built && built[memo[id]] == shells[memo[id]]
  }

  lemma AllFinishedStay(
    heap: Heap, memo: map<Id, Id>, shells: Heap, rank: map<Id, nat>, touched: Id, more: map<Id, Id>, built: Heap)
    requires AllFinished(heap, memo, shells, rank) && Keeps(memo, more) && touched !in rank
    requires Untouched(memo, shells, built, touched)
    ensures AllFinished(heap, more, built, rank)
  {
    hide Keeps;
    forall x | x in rank ensures Finished(heap, more, built, rank, x) {
      assert Finished(heap, memo, shells, rank, x);
      FinishedStays(heap, memo, shells, rank, x, more, built, rank);
    }
  }

  lemma FillingKnown(heap: Heap, memo: map<Id, Id>, shells: Heap, rank: map<Id, nat>, stack: seq<Frame>, i: nat)
    requires AllFilling(heap, memo, shells, rank, stack) && i < |stack|
    ensures Filling(heap, memo, shells, rank, stack, i)
    ensures stack[i].id in memo && memo[stack[i].id] in shells && stack[i].id in heap
    ensures stack[i].next <= |heap[stack[i].id].entries|
  {
    assert Filling(heap, memo, shells, rank, stack, i);
  }

  lemma AllFillingStay(
    heap: Heap, memo: map<Id, Id>, shells: Heap, rank: map<Id, nat>, stack: seq<Frame>, touched: Id,
    more: map<Id, Id>, built: Heap, ranked: map<Id, nat>, higher: seq<Frame>)
    requires AllFilling(heap, memo, shells, rank, stack) && Keeps(memo, more)
    requires Untouched(memo, shells, built, touched)
    requires forall from: nat, x | x in rank || OnStack(stack, from, x) :: x in ranked || OnStack(higher, from, x)
    ensures forall i | 0 <= i < |stack| && i < |higher| && higher[i] == stack[i] && stack[i].id != touched ::
              Filling(heap, more, built, ranked, higher, i)
  {
    hide Filling, OnStack, Keeps, AllFilling;
    forall i | 0 <= i < |stack| && i < |higher| && higher[i] == stack[i] && stack[i].id != touched
      ensures Filling(heap, more, built, ranked, higher, i)
    {
      FillingKnown(heap, memo, shells, rank, stack, i);
      FillingStays(heap, memo, shells, rank, stack, i, more, built, ranked, higher);
    }
  }

  lemma OnStackAppended(stack: seq<Frame>, frame: Frame)
    ensures forall from: nat, x | OnStack(stack, from, x) :: OnStack(stack + [frame], from, x)
    ensures forall x :: OnStack(stack + [frame], 0, x) <==> OnStack(stack, 0, x) || x == frame.id
    ensures OnStack(stack + [frame], |stack|, frame.id)
  {
    var higher := stack + [frame];
    assert higher[|stack|] == frame;
    forall from: nat, x | OnStack(stack, from, x) ensures OnStack(higher, from, x) {
      var i :| from <= i < |stack| && stack[i].id == x;
      assert higher[i].id == x;
    }
    forall x | OnStack(higher, 0, x) ensures OnStack(stack, 0, x) || x == frame.id {
      var i :| 0 <= i < |higher| && higher[i].id == x;
      if i < |stack| { assert stack[i].id == x; }
    }
  }

  lemma StackOpened(memo: map<Id, Id>, rank: map<Id, nat>, stack: seq<Frame>, active: set<Id>, id: Id, shell: Id)
    requires Stacked(memo, rank, stack, active) && id !in memo
    ensures id !in rank
    ensures Stacked(memo[id := shell], rank, stack + [Frame(id, 0)], active + {id})
  {
    OnStackAppended(stack, Frame(id, 0));
    hide OnStack;
    forall i | 0 <= i < |stack| ensures stack[i].id != id {
      OnStackAt(stack, i);
    }
  }

  lemma OnStackAt(stack: seq<Frame>, i: nat)
    requires i < |stack|
    ensures OnStack(stack, 0, stack[i].id)
  {
  }

  /** A new container gets an empty shell and the top of the stack. */
  lemma OpenShell(
    heap: Heap, memo: map<Id, Id>, shells: Heap, rank: map<Id, nat>, stack: seq<Frame>, active: set<Id>, id: Id)
    requires Converting(heap, memo, shells, rank, stack, active) && id in heap && id !in memo
    ensures var shell := Address(|shells|);
            && shell !in shells
            && Converting(heap, memo[id := shell], shells[shell := Cell(NativeKind(heap[id].kind), [])], rank,
                          stack + [Frame(id, 0)], active + {id})
  {
    var shell := Address(|shells|);
    var more, built := memo[id := shell], shells[shell := Cell(NativeKind(heap[id].kind), [])];
    var higher := stack + [Frame(id, 0)];
    hide Shells, Stacked, OnStack, AllFinished, AllFilling, Keeps, Untouched;
    ShellOpened(heap, memo, shells, id);
    StackOpened(memo, rank, stack, active, id, shell);
    AllFinishedStay(heap, memo, shells, rank, id, more, built);
    OpenFilling(heap, memo, shells, rank, stack, id, more, built);
  }

  lemma OpenFilling(
    heap: Heap, memo: map<Id, Id>, shells: Heap, rank: map<Id, nat>, stack: seq<Frame>, id: Id,
    more: map<Id, Id>, built: Heap)
    requires AllFilling(heap, memo, shells, rank, stack) && Keeps(memo, more) && Untouched(memo, shells, built, id)
    requires id in heap && id !in memo && id in more && more[id] in built && built[more[id]].entries == []
    ensures AllFilling(heap, more, built, rank, stack + [Frame(id, 0)])
  {
    var higher := stack + [Frame(id, 0)];
    OnStackAppended(stack, Frame(id, 0));
    hide OnStack, Filling, Keeps, Untouched, AllFilling;
    AllFillingStay(heap, memo, shells, rank, stack, id, more, built, rank, higher);
    NewFrame(heap, more, built, rank, higher, |stack|);
    forall i | 0 <= i < |stack| ensures Filling(heap, more, built, rank, higher, i) {
      FillingKnown(heap, memo, shells, rank, stack, i);
    }
    EachFilling(heap, more, built, rank, higher);
  }

  lemma EachFilling(heap: Heap, memo: map<Id, Id>, shells: Heap, rank: map<Id, nat>, stack: seq<Frame>)
    requires forall i | 0 <= i < |stack| :: Filling(heap, memo, shells, rank, stack, i)
    ensures AllFilling(heap, memo, shells, rank, stack)
  {
  }

  lemma NewFrame(heap: Heap, memo: map<Id, Id>, shells: Heap, rank: map<Id, nat>, stack: seq<Frame>, i: nat)
    requires i < |stack| && stack[i].next == 0 && stack[i].id in heap
    requires stack[i].id in memo && memo[stack[i].id] in shells && shells[memo[stack[i].id]].entries == []
    ensures Filling(heap, memo, shells, rank, stack, i)
  {
  }

  lemma ShellOpened(heap: Heap, memo: map<Id, Id>, shells: Heap, id: Id)
    requires Shells(heap, memo, shells) && id in heap && id !in memo
    ensures var shell := Address(|shells|);
            && shell !in shells && Keeps(memo, memo[id := shell])
            && Shells(heap, memo[id := shell], shells[shell := Cell(NativeKind(heap[id].kind), [])])
            && Untouched(memo, shells, shells[shell := Cell(NativeKind(heap[id].kind), [])], id)
  {
    var shell := Address(|shells|);
    var more, built := memo[id := shell], shells[shell := Cell(NativeKind(heap[id].kind), [])];
    NewNumber(shells, Cell(NativeKind(heap[id].kind), []));
    NewCopy(heap, memo, shells, id, shell);
    hide OneToOne, Numbered, HaveShells;
    OneMoreCopy(memo, id, shell);
    assert built.Keys == shells.Keys + {shell};
  }

  lemma NewNumber(shells: Heap, c: Cell)
    requires Numbered(shells)
    ensures Address(|shells|) !in shells && Numbered(shells[Address(|shells|) := c])
  {
    var shell := Address(|shells|);
    assert shell !in shells;
    assert |shells[shell := c]| == |shells| + 1;
  }

  lemma NewCopy(heap: Heap, memo: map<Id, Id>, shells: Heap, id: Id, shell: Id)
    requires OneToOne(memo) && HaveShells(heap, memo, shells) && id in heap && id !in memo && shell !in shells
    ensures var built := shells[shell := Cell(NativeKind(heap[id].kind), [])];
            && OneToOne(memo[id := shell]) && HaveShells(heap, memo[id := shell], built)
            && Keeps(memo, memo[id := shell]) && Untouched(memo, shells, built, id)
  {
  }

  function Appended(shells: Heap, shell: Id, e: Entry): Heap
    requires shell in shells
  {
    shells[shell := Cell(shells[shell].kind, shells[shell].entries + [e])]
  }

  function Advanced(stack: seq<Frame>, i: nat): seq<Frame>
    requires i < |stack|
  {
    stack[i := Frame(stack[i].id, stack[i].next + 1)]
  }

  /** The next entry of a container on the stack is filled in. */
  lemma FillEntry(
    heap: Heap, memo: map<Id, Id>, shells: Heap, rank: map<Id, nat>, stack: seq<Frame>, active: set<Id>,
    i: nat, native: Value)
    requires Converting(heap, memo, shells, rank, stack, active) && i < |stack|
    requires stack[i].id in heap && stack[i].next < |heap[stack[i].id].entries|
    requires var v := heap[stack[i].id].entries[stack[i].next].value;
             Image(Same, memo, v, native) && (v.Container? ==> v.id in rank || OnStack(stack, i + 1, v.id))
    ensures stack[i].id in memo && memo[stack[i].id] in shells
    ensures var e := heap[stack[i].id].entries[stack[i].next];
            Converting(heap, memo, Appended(shells, memo[stack[i].id], Entry(e.name, native)), rank,
                       Advanced(stack, i), active)
  {
    hide Shells, Stacked, OnStack, AllFinished, AllFilling, Keeps, Untouched, Image;
    FillingKnown(heap, memo, shells, rank, stack, i);
    var id, e := stack[i].id, heap[stack[i].id].entries[stack[i].next];
    var built := Appended(shells, memo[id], Entry(e.name, native));
    OtherShells(memo, rank, stack, active, i);
    ShellFilled(heap, memo, shells, id, Entry(e.name, native));
    AllFinishedStay(heap, memo, shells, rank, id, memo, built);
    OneFilled(heap, memo, shells, rank, stack, i, native);
  }

  lemma OneFilled(
    heap: Heap, memo: map<Id, Id>, shells: Heap, rank: map<Id, nat>, stack: seq<Frame>, i: nat, native: Value)
    requires AllFilling(heap, memo, shells, rank, stack) && i < |stack|
    requires stack[i].id in heap && stack[i].next < |heap[stack[i].id].entries|
    requires stack[i].id in memo && memo[stack[i].id] in shells
    requires forall k | 0 <= k < |stack| && k != i :: stack[k].id != stack[i].id
    requires var v := heap[stack[i].id].entries[stack[i].next].value;
             Image(Same, memo, v, native) && (v.Container? ==> v.id in rank || OnStack(stack, i + 1, v.id))
    requires var e := heap[stack[i].id].entries[stack[i].next];
             Untouched(memo, shells, Appended(shells, memo[stack[i].id], Entry(e.name, native)), stack[i].id)
    ensures var e := heap[stack[i].id].entries[stack[i].next];
            AllFilling(heap, memo, Appended(shells, memo[stack[i].id], Entry(e.name, native)), rank, Advanced(stack, i))
  {
    var id, e, advanced := stack[i].id, heap[stack[i].id].entries[stack[i].next], Advanced(stack, i);
    var built := Appended(shells, memo[id], Entry(e.name, native));
    assert Keeps(memo, memo);
    SameStack(stack, i);
    hide OnStack, Filling, Keeps, Untouched, AllFilling, Image, Appended;
    FillingKnown(heap, memo, shells, rank, stack, i);
    EntryFilled(heap, memo, shells, rank, stack, i, native);
    AllFillingStay(heap, memo, shells, rank, stack, id, memo, built, rank, advanced);
    EachFilling(heap, memo, built, rank, advanced);
  }

  /** Containers finished, or elsewhere on the stack, are others. */
  lemma OtherShells(memo: map<Id, Id>, rank: map<Id, nat>, stack: seq<Frame>, active: set<Id>, i: nat)
    requires Stacked(memo, rank, stack, active) && i < |stack|
    ensures stack[i].id !in rank && forall k | 0 <= k < |stack| && k != i :: stack[k].id != stack[i].id
    ensures Stacked(memo, rank, Advanced(stack, i), active) && rank.Keys <= memo.Keys
  {
    assert OnStack(stack, 0, stack[i].id);
    SameStack(stack, i);
  }

  lemma ShellFilled(heap: Heap, memo: map<Id, Id>, shells: Heap, id: Id, e: Entry)
    requires Shells(heap, memo, shells) && id in memo && memo[id] in shells
    ensures Shells(heap, memo, Appended(shells, memo[id], e))
    ensures Untouched(memo, shells, Appended(shells, memo[id], e), id) && Keeps(memo, memo)
  {
    var built := Appended(shells, memo[id], e);
    assert built.Keys == shells.Keys;
    assert |built| == |built.Keys| == |shells.Keys|;
  }

  lemma SameStack(stack: seq<Frame>, i: nat)
    requires i < |stack|
    ensures forall from: nat, id :: OnStack(Advanced(stack, i), from, id) <==> OnStack(stack, from, id)
  {
    forall from: nat, id ensures OnStack(Advanced(stack, i), from, id) <==> OnStack(stack, from, id) {
      if OnStack(stack, from, id) {
        var k :| from <= k < |stack| && stack[k].id == id;
        assert Advanced(stack, i)[k].id == id;
      }
    }
  }

  lemma EntryFilled(
    heap: Heap, memo: map<Id, Id>, shells: Heap, rank: map<Id, nat>, stack: seq<Frame>, i: nat, native: Value)
    requires i < |stack| && Filling(heap, memo, shells, rank, stack, i)
    requires stack[i].next < |heap[stack[i].id].entries|
    requires var v := heap[stack[i].id].entries[stack[i].next].value;
             Image(Same, memo, v, native) && (v.Container? ==> v.id in rank || OnStack(stack, i + 1, v.id))
    ensures var e := heap[stack[i].id].entries[stack[i].next];
            Filling(heap, memo, Appended(shells, memo[stack[i].id], Entry(e.name, native)), rank,
                    Advanced(stack, i), i)
  {
    var id, next := stack[i].id, stack[i].next;
    var entries := heap[id].entries;
    SameStack(stack, i);
    assert entries[..next + 1] == entries[..next] + [entries[next]];
    ImageAppended(Same, memo, entries[..next], shells[memo[id]].entries, entries[next], Entry(entries[next].name, native));
  }

  /** The container on top, filled, is finished: after all it holds. */
  lemma Finish(
    heap: Heap, memo: map<Id, Id>, shells: Heap, rank: map<Id, nat>, stack: seq<Frame>, active: set<Id>)
    requires Converting(heap, memo, shells, rank, stack, active) && stack != []
    requires var top := stack[|stack| - 1]; top.id in heap && top.next == |heap[top.id].entries|
    ensures var top := stack[|stack| - 1];
            Converting(heap, memo, shells, rank[top.id := |rank|], stack[..|stack| - 1], active - {top.id})
  {
    hide Shells, Stacked, OnStack, AllFinished, AllFilling;
    FillingKnown(heap, memo, shells, rank, stack, |stack| - 1);
    StackFinished(memo, rank, stack, active);
    OneFinished(heap, memo, shells, rank, stack);
    LowerFilling(heap, memo, shells, rank, stack);
  }

  lemma OneFinished(heap: Heap, memo: map<Id, Id>, shells: Heap, rank: map<Id, nat>, stack: seq<Frame>)
    requires AllFinished(heap, memo, shells, rank) && AllFilling(heap, memo, shells, rank, stack) && stack != []
    requires var top := stack[|stack| - 1]; top.id in heap && top.next == |heap[top.id].entries|
    requires stack[|stack| - 1].id !in rank && forall x | x in rank :: rank[x] < |rank|
    ensures AllFinished(heap, memo, shells, rank[stack[|stack| - 1].id := |rank|])
  {
    var id, more := stack[|stack| - 1].id, rank[stack[|stack| - 1].id := |rank|];
    FillingKnown(heap, memo, shells, rank, stack, |stack| - 1);
    TopFinished(heap, memo, shells, rank, stack);
    hide AllFilling, Filling;
    assert Keeps(memo, memo);
    forall x | x in more ensures Finished(heap, memo, shells, more, x) {
      if x != id {
        assert Finished(heap, memo, shells, rank, x);
        FinishedStays(heap, memo, shells, rank, x, memo, shells, more);
      }
    }
  }

  lemma LowerFilling(heap: Heap, memo: map<Id, Id>, shells: Heap, rank: map<Id, nat>, stack: seq<Frame>)
    requires AllFilling(heap, memo, shells, rank, stack) && stack != []
    ensures AllFilling(heap, memo, shells, rank[stack[|stack| - 1].id := |rank|], stack[..|stack| - 1])
  {
    var id, lower, more := stack[|stack| - 1].id, stack[..|stack| - 1], rank[stack[|stack| - 1].id := |rank|];
    OnStackPopped(stack);
    assert Keeps(memo, memo);
    hide OnStack, Filling, Keeps, AllFilling;
    forall i | 0 <= i < |lower| ensures Filling(heap, memo, shells, more, lower, i) {
      FillingKnown(heap, memo, shells, rank, stack, i);
      FillingStays(heap, memo, shells, rank, stack, i, memo, shells, more, lower);
    }
    EachFilling(heap, memo, shells, more, lower);
  }

  lemma OnStackPopped(stack: seq<Frame>)
    requires stack != []
    ensures forall from: nat, x :: OnStack(stack, from, x) ==>
              x == stack[|stack| - 1].id || OnStack(stack[..|stack| - 1], from, x)
    ensures forall from: nat, x :: OnStack(stack[..|stack| - 1], from, x) ==> OnStack(stack, from, x)
  {
    var lower := stack[..|stack| - 1];
    forall from: nat, x | OnStack(stack, from, x) ensures x == stack[|stack| - 1].id || OnStack(lower, from, x) {
      var i :| from <= i < |stack| && stack[i].id == x;
      if i < |lower| { assert lower[i].id == x; }
    }
    forall from: nat, x | OnStack(lower, from, x) ensures OnStack(stack, from, x) {
      var i :| from <= i < |lower| && lower[i].id == x;
      assert stack[i].id == x;
    }
  }

  lemma StackFinished(memo: map<Id, Id>, rank: map<Id, nat>, stack: seq<Frame>, active: set<Id>)
    requires Stacked(memo, rank, stack, active) && stack != []
    ensures var id := stack[|stack| - 1].id;
            && id !in rank && forall x | x in rank :: rank[x] < |rank|
    ensures var id := stack[|stack| - 1].id;
            Stacked(memo, rank[id := |rank|], stack[..|stack| - 1], active - {id})
  {
    var id, lower := stack[|stack| - 1].id, stack[..|stack| - 1];
    OnStackPopped(stack);
    assert OnStack(stack, 0, id);
    forall x | OnStack(lower, 0, x) ensures x != id {
      var i :| 0 <= i < |lower| && lower[i].id == x;
    }
    assert |rank[id := |rank|]| == |rank| + 1;
  }

  lemma TopFinished(heap: Heap, memo: map<Id, Id>, shells: Heap, rank: map<Id, nat>, stack: seq<Frame>)
    requires stack != [] && Filling(heap, memo, shells, rank, stack, |stack| - 1)
    requires stack[|stack| - 1].next == |heap[stack[|stack| - 1].id].entries|
    requires stack[|stack| - 1].id !in rank && forall x | x in rank :: rank[x] < |rank|
    ensures var id := stack[|stack| - 1].id; Finished(heap, memo, shells, rank[id := |rank|], id)
  {
    var id := stack[|stack| - 1].id;
    assert heap[id].entries[..|heap[id].entries|] == heap[id].entries;
    assert forall x :: !OnStack(stack, |stack|, x);
  }

  // ---------------------------------------------------------------- walks through finished containers

  ghost predicate Ranked(heap: Heap, rank: map<Id, nat>) {
    forall e | e in EdgesOf(heap) && e.0 in rank :: e.1 in rank && rank[e.1] < rank[e.0]
  }

  lemma FinishedRanks(heap: Heap, memo: map<Id, Id>, shells: Heap, rank: map<Id, nat>)
    requires AllFinished(heap, memo, shells, rank)
    ensures Ranked(heap, rank)
  {
    forall e | e in EdgesOf(heap) && e.0 in rank ensures e.1 in rank && rank[e.1] < rank[e.0] {
      assert Finished(heap, memo, shells, rank, e.0);
      var i := EdgeIsEntry(heap, e.0, e.1);
    }
  }

  /** A path that starts among finished containers stays there and descends. */
  lemma {:induction false} PathDescends(heap: Heap, rank: map<Id, nat>, a: Id, b: Id, n: nat)
    requires Ranked(heap, rank) && a in rank && Leads(EdgesOf(heap), a, b, n)
    ensures b in rank && (n > 0 ==> rank[b] < rank[a])
    decreases n
  {
    if n > 0 {
      var c :| Leads(EdgesOf(heap), a, c, n - 1) && (c, b) in EdgesOf(heap);
      PathDescends(heap, rank, a, c, n - 1);
      assert (c, b).0 in rank;
    }
  }

  lemma NoCycleFrom(heap: Heap, rank: map<Id, nat>, root: Value)
    requires Ranked(heap, rank) && (root.Container? ==> root.id in rank)
    ensures !ReachesCycle(EdgesOf(heap), root)
  {
    if root.Container? {
      forall a, m: nat, n: nat | n > 0 && Leads(EdgesOf(heap), root.id, a, m) ensures !Leads(EdgesOf(heap), a, a, n) {
        PathDescends(heap, rank, root.id, a, m);
        if Leads(EdgesOf(heap), a, a, n) {
          PathDescends(heap, rank, a, a, n);
        }
      }
    }
  }

  /** What reads as no JSON is reached from the root. */
  ghost predicate ReachesMalformed(edges: Edges, root: Value, malformed: set<Id>) {
    root.Container? && exists id, n: nat :: id in malformed && Leads(edges, root.id, id, n)
  }

  lemma NothingMalformed(heap: Heap, rank: map<Id, nat>, root: Value, malformed: set<Id>)
    requires Ranked(heap, rank) && (root.Container? ==> root.id in rank) && rank.Keys !! malformed
    ensures !ReachesMalformed(EdgesOf(heap), root, malformed)
  {
    if root.Container? {
      forall id, n: nat | Leads(EdgesOf(heap), root.id, id, n) ensures id !in malformed {
        PathDescends(heap, rank, root.id, id, n);
      }
    }
  }

  // ---------------------------------------------------------------- the conversion

  /** Each container on the stack holds the next; the root is at the bottom. */
  ghost predicate Chained(heap: Heap, root: Value, stack: seq<Frame>) {
    && (stack != [] ==> root == Container(stack[0].id))
    && forall i | 0 < i < |stack| :: (stack[i - 1].id, stack[i].id) in EdgesOf(heap)
  }

  lemma {:induction false} StackLeads(heap: Heap, root: Value, stack: seq<Frame>, i: nat, k: nat)
    requires Chained(heap, root, stack) && i <= k < |stack|
    ensures Leads(EdgesOf(heap), stack[i].id, stack[k].id, k - i)
    decreases k
  {
    if i < k { StackLeads(heap, root, stack, i, k - 1); }
  }

  lemma LeadsBack(heap: Heap, root: Value, stack: seq<Frame>, id: Id)
    requires Chained(heap, root, stack) && stack != [] && OnStack(stack, 0, id)
    requires (stack[|stack| - 1].id, id) in EdgesOf(heap)
    ensures ReachesCycle(EdgesOf(heap), root)
  {
    var i :| 0 <= i < |stack| && stack[i].id == id;
    var top: nat := |stack| - 1;
    StackLeads(heap, root, stack, 0, i);
    StackLeads(heap, root, stack, i, top);
    LeadsOn(EdgesOf(heap), id, stack[top].id, top - i, id);
  }

  lemma MalformedAhead(heap: Heap, root: Value, stack: seq<Frame>, id: Id, malformed: set<Id>)
    requires Chained(heap, root, stack) && stack != [] && id in malformed
    requires (stack[|stack| - 1].id, id) in EdgesOf(heap)
    ensures ReachesMalformed(EdgesOf(heap), root, malformed)
  {
    var top: nat := |stack| - 1;
    StackLeads(heap, root, stack, 0, top);
    LeadsOn(EdgesOf(heap), stack[0].id, stack[top].id, top, id);
  }

  lemma ChainedOn(heap: Heap, root: Value, stack: seq<Frame>, advanced: seq<Frame>, id: Id)
    requires Chained(heap, root, stack) && stack != [] && (stack[|stack| - 1].id, id) in EdgesOf(heap)
    requires |advanced| == |stack| && forall i | 0 <= i < |stack| :: advanced[i].id == stack[i].id
    ensures Chained(heap, root, advanced + [Frame(id, 0)])
  {
  }

  lemma ChainedLower(heap: Heap, root: Value, stack: seq<Frame>)
    requires Chained(heap, root, stack) && stack != []
    ensures Chained(heap, root, stack[..|stack| - 1])
  {
  }

  /** Distinct containers, each with at most the entries it has. */
  ghost predicate PartlyCopied(heap: Heap, memo: map<Id, Id>, shells: Heap) {
    && Shells(heap, memo, shells)
    && forall id | id in memo :: id in heap && memo[id] in shells && |shells[memo[id]].entries| <= |heap[id].entries|
  }

  lemma ConvertingIsPartial(
    heap: Heap, memo: map<Id, Id>, shells: Heap, rank: map<Id, nat>, stack: seq<Frame>, active: set<Id>)
    requires Converting(heap, memo, shells, rank, stack, active)
    ensures PartlyCopied(heap, memo, shells)
  {
    forall id | id in memo ensures id in heap && |shells[memo[id]].entries| <= |heap[id].entries| {
      if id in rank {
        assert Finished(heap, memo, shells, rank, id);
      } else {
        assert OnStack(stack, 0, id);
        var i :| 0 <= i < |stack| && stack[i].id == id;
        assert Filling(heap, memo, shells, rank, stack, i);
      }
    }
  }

  lemma UnderwayIsPartial(
    heap: Heap, root: Value, memo: map<Id, Id>, shells: Heap, rank: map<Id, nat>, stack: seq<Frame>,
    active: set<Id>, count: nat)
    requires Underway(heap, root, memo, shells, rank, stack, active, count)
    ensures PartlyCopied(heap, memo, shells) && count == 1 + EntriesBuilt(shells, |shells|)
  {
    ConvertingIsPartial(heap, memo, shells, rank, stack, active);
  }

  /** With nothing left on the stack every container copied is copied whole. */
  lemma AllConverted(heap: Heap, memo: map<Id, Id>, shells: Heap, rank: map<Id, nat>, active: set<Id>)
    requires Converting(heap, memo, shells, rank, [], active)
    ensures Isomorphic(NativeHeap(heap), Same, memo, shells) && rank.Keys == memo.Keys && Ranked(heap, rank)
  {
    FinishedRanks(heap, memo, shells, rank);
    forall id ensures id !in active {
      assert !OnStack([], 0, id);
    }
    assert rank.Keys == memo.Keys;
    forall id | id in memo ensures EntriesImage(Same, memo, heap[id].entries, shells[memo[id]].entries) {
      assert Finished(heap, memo, shells, rank, id);
    }
  }

  /** The copied part of a document, its tuples read as lists. */
  ghost function CopiedPart(heap: Heap, memo: map<Id, Id>): Heap {
    map id | id in memo && id in heap :: NativeHeap(heap)[id]
  }

  lemma HeldIsCopied(heap: Heap, memo: map<Id, Id>, shells: Heap, id: Id, i: nat)
    requires Isomorphic(NativeHeap(heap), Same, memo, shells)
    requires id in memo && id in heap && i < |heap[id].entries|
    ensures heap[id].entries[i].value.Container? ==> heap[id].entries[i].value.id in memo
  {
    var copied := shells[memo[id]].entries;
    assert EntriesImage(Same, memo, NativeHeap(heap)[id].entries, copied);
    assert Image(Same, memo, heap[id].entries[i].value, copied[i].value);
  }

  lemma CopiedIsAcyclic(heap: Heap, memo: map<Id, Id>, shells: Heap, rank: map<Id, nat>)
    requires Isomorphic(NativeHeap(heap), Same, memo, shells) && rank.Keys == memo.Keys && Ranked(heap, rank)
    ensures Acyclic(CopiedPart(heap, memo), rank)
  {
    hide Isomorphic;
    var part := CopiedPart(heap, memo);
    forall id, i | id in part && 0 <= i < |part[id].entries|
      ensures Below(part, rank, part[id].entries[i].value, rank[id])
    {
      var v := heap[id].entries[i].value;
      if v.Container? {
        EntryIsEdge(heap, id, i);
        assert (id, v.id).0 in rank;
        HeldIsCopied(heap, memo, shells, id, i);
        CopiedAreHeld(heap, memo, shells);
      }
    }
  }

  lemma CopiedAreHeld(heap: Heap, memo: map<Id, Id>, shells: Heap)
    requires Isomorphic(NativeHeap(heap), Same, memo, shells)
    ensures memo.Keys <= heap.Keys && CopiedPart(heap, memo).Keys == memo.Keys && shells.Keys == memo.Values
  {
    assert forall id | id in memo :: id in NativeHeap(heap);
  }

  /** The container a shell is the copy of. */
  ghost function Original(memo: map<Id, Id>, shell: Id): (id: Id)
    requires shell in memo.Values
    ensures id in memo && memo[id] == shell
  {
    var id :| id in memo && memo[id] == shell;
    id
  }

  ghost function ShellTrees(memo: map<Id, Id>, tree: map<Id, Tree>): map<Id, Tree>
    requires memo.Keys <= tree.Keys
  {
    map shell | shell in memo.Values :: tree[Original(memo, shell)]
  }

  /** The copy unfolds, to what the document unfolds to. */
  lemma CopyUnfolds(heap: Heap, memo: map<Id, Id>, shells: Heap, rank: map<Id, nat>)
    returns (tree: map<Id, Tree>, trees: map<Id, Tree>)
    requires Isomorphic(NativeHeap(heap), Same, memo, shells) && rank.Keys == memo.Keys && Ranked(heap, rank)
    ensures Unfolding(CopiedPart(heap, memo), tree) && Unfolding(shells, trees)
    ensures forall id | id in memo :: id in tree && memo[id] in trees && trees[memo[id]] == tree[id]
  {
    CopiedIsAcyclic(heap, memo, shells, rank);
    CopiedAreHeld(heap, memo, shells);
    hide Isomorphic, ShellTrees, CellDenotes, Acyclic, Ranked;
    tree := AcyclicUnfolds(CopiedPart(heap, memo), rank);
    trees := ShellTrees(memo, tree);
    forall id | id in memo
      ensures memo[id] in trees && trees[memo[id]] == tree[id]
      ensures CellDenotes(trees, shells[memo[id]], trees[memo[id]])
    {
      ShellUnfolds(heap, memo, shells, tree, id);
    }
  }

  lemma ShellUnfolds(heap: Heap, memo: map<Id, Id>, shells: Heap, tree: map<Id, Tree>, id: Id)
    requires Isomorphic(NativeHeap(heap), Same, memo, shells) && Unfolding(CopiedPart(heap, memo), tree) && id in memo
    ensures memo.Keys <= tree.Keys && memo[id] in memo.Values && memo[id] in shells
    ensures ShellTrees(memo, tree)[memo[id]] == tree[id]
    ensures CellDenotes(ShellTrees(memo, tree), shells[memo[id]], tree[id])
  {
    CopiedAreHeld(heap, memo, shells);
    var trees := ShellTrees(memo, tree);
    assert forall x | x in memo :: memo[x] in memo.Values && Original(memo, memo[x]) == x;
    var entries, copied := heap[id].entries, shells[memo[id]].entries;
    assert CellDenotes(tree, CopiedPart(heap, memo)[id], tree[id]);
    forall i | 0 <= i < |copied|
      ensures Denotes(trees, copied[i].value, tree[id].twigs[i].tree) && copied[i].name == tree[id].twigs[i].name
    {
      assert Image(Same, memo, NativeHeap(heap)[id].entries[i].value, copied[i].value);
      assert Denotes(tree, entries[i].value, tree[id].twigs[i].tree);
    }
  }

  /** The conversion, with the shells counted. */
  ghost predicate Underway(
    heap: Heap, root: Value, memo: map<Id, Id>, shells: Heap, rank: map<Id, nat>, stack: seq<Frame>,
    active: set<Id>, count: nat)
  {
    && Converting(heap, memo, shells, rank, stack, active)
    && Chained(heap, root, stack)
    && count == 1 + EntriesBuilt(shells, |shells|)
  }

  lemma TopKnown(
    heap: Heap, memo: map<Id, Id>, shells: Heap, rank: map<Id, nat>, stack: seq<Frame>, active: set<Id>)
    requires Converting(heap, memo, shells, rank, stack, active) && stack != []
    ensures var top := stack[|stack| - 1];
            && top.id in heap && top.next <= |heap[top.id].entries| && top.id !in rank
            && top.id in memo && memo[top.id] in shells
    ensures rank.Keys <= heap.Keys
    ensures forall id | id in active :: OnStack(stack, 0, id)
  {
    FillingKnown(heap, memo, shells, rank, stack, |stack| - 1);
    OnStackAt(stack, |stack| - 1);
    forall id | id in rank ensures id in heap {
      assert Finished(heap, memo, shells, rank, id);
    }
  }

  lemma UnderwayChained(
    heap: Heap, root: Value, memo: map<Id, Id>, shells: Heap, rank: map<Id, nat>, stack: seq<Frame>,
    active: set<Id>, count: nat)
    requires Underway(heap, root, memo, shells, rank, stack, active, count)
    ensures Chained(heap, root, stack)
  {
  }

  lemma UnderwayTop(
    heap: Heap, root: Value, memo: map<Id, Id>, shells: Heap, rank: map<Id, nat>, stack: seq<Frame>,
    active: set<Id>, count: nat)
    requires Underway(heap, root, memo, shells, rank, stack, active, count) && stack != []
    ensures var top := stack[|stack| - 1];
            && top.id in heap && top.next <= |heap[top.id].entries|
            && top.id in memo && memo[top.id] in shells
  {
    TopKnown(heap, memo, shells, rank, stack, active);
  }

  /** A dictionary is copied as a dictionary, a list or a tuple as a list, with the names of its entries. */
  ghost predicate KindsRead(heap: Heap, memo: map<Id, Id>, shells: Heap) {
    forall id | id in memo ::
      && id in heap && memo[id] in shells
      && shells[memo[id]].kind == (if heap[id].kind == DictKind then DictKind else ListKind)
      && |shells[memo[id]].entries| == |heap[id].entries|
      && forall i | 0 <= i < |heap[id].entries| ::
           shells[memo[id]].entries[i].name == heap[id].entries[i].name
  }

  lemma KindsAreRead(heap: Heap, memo: map<Id, Id>, shells: Heap)
    requires Isomorphic(NativeHeap(heap), Same, memo, shells)
    ensures KindsRead(heap, memo, shells)
  {
    forall id | id in memo ensures id in heap && memo[id] in shells {
      assert id in NativeHeap(heap);
    }
    forall id | id in memo ensures EntriesImage(Same, memo, heap[id].entries, shells[memo[id]].entries) {
      assert NativeHeap(heap)[id].entries == heap[id].entries;
    }
  }

  lemma UnderwayDone(
    heap: Heap, root: Value, memo: map<Id, Id>, shells: Heap, rank: map<Id, nat>, active: set<Id>, count: nat,
    native: Value)
    returns (tree: map<Id, Tree>, trees: map<Id, Tree>)
    requires Underway(heap, root, memo, shells, rank, [], active, count) && Image(Same, memo, root, native)
    ensures Isomorphic(NativeHeap(heap), Same, memo, shells) && !ReachesCycle(EdgesOf(heap), root)
    ensures count == 1 + EntriesBuilt(shells, |shells|) && KindsRead(heap, memo, shells)
    ensures Unfolding(CopiedPart(heap, memo), tree) && Unfolding(shells, trees) && SameTree(tree, root, trees, native)
    ensures forall malformed: set<Id> | memo.Keys !! malformed :: !ReachesMalformed(EdgesOf(heap), root, malformed)
  {
    hide Converting, Isomorphic, EdgesOf, ReachesCycle, EntriesBuilt, Unfolding, Ranked, ReachesMalformed;
    AllConverted(heap, memo, shells, rank, active);
    KindsAreRead(heap, memo, shells);
    NoCycleFrom(heap, rank, root);
    forall malformed: set<Id> | memo.Keys !! malformed ensures !ReachesMalformed(EdgesOf(heap), root, malformed) {
      NothingMalformed(heap, rank, root, malformed);
    }
    tree, trees := CopyUnfolds(heap, memo, shells, rank);
  }

  /** Two values unfold to one tree. */
  ghost predicate SameTree(tree: map<Id, Tree>, v: Value, trees: map<Id, Tree>, copied: Value) {
    && (v.Container? ==> v.id in tree) && (copied.Container? ==> copied.id in trees)
    && TreeOf(tree, v) == TreeOf(trees, copied)
  }

  lemma FilledCounts(heap: Heap, memo: map<Id, Id>, shells: Heap, shell: Id, e: Entry)
    requires Shells(heap, memo, shells) && shell in shells
    ensures var more := Appended(shells, shell, e);
            |more| == |shells| && EntriesBuilt(more, |more|) == EntriesBuilt(shells, |shells|) + 1
  {
    assert Appended(shells, shell, e).Keys == shells.Keys;
    assert |Appended(shells, shell, e)| == |Appended(shells, shell, e).Keys| == |shells.Keys|;
    assert shell == Address(shell.n);
    EntryBuilt(shells, shell, e, |shells|);
  }

  lemma OpenedCounts(heap: Heap, memo: map<Id, Id>, shells: Heap, kind: Kind)
    requires Shells(heap, memo, shells)
    ensures var more := shells[Address(|shells|) := Cell(kind, [])];
            |more| == |shells| + 1 && EntriesBuilt(more, |more|) == EntriesBuilt(shells, |shells|)
  {
    EntriesBuiltStay(shells, shells[Address(|shells|) := Cell(kind, [])], |shells|);
  }

  /** The next entry is a leaf or a container finished before. */
  lemma FillKnown(
    heap: Heap, root: Value, memo: map<Id, Id>, shells: Heap, rank: map<Id, nat>, stack: seq<Frame>,
    active: set<Id>, count: nat, native: Value)
    requires Underway(heap, root, memo, shells, rank, stack, active, count) && stack != []
    requires var top := stack[|stack| - 1];
             && top.id in heap && top.next < |heap[top.id].entries| && top.id in memo && memo[top.id] in shells
             && var v := heap[top.id].entries[top.next].value;
                Image(Same, memo, v, native) && (v.Container? ==> v.id !in active)
    ensures var top := stack[|stack| - 1];
            var e := heap[top.id].entries[top.next];
            Underway(heap, root, memo, Appended(shells, memo[top.id], Entry(e.name, native)), rank,
                     Advanced(stack, |stack| - 1), active, count + 1)
  {
    hide Shells, AllFinished, AllFilling, EntriesBuilt, EdgesOf;
    var top := stack[|stack| - 1];
    var e := heap[top.id].entries[top.next];
    FillEntry(heap, memo, shells, rank, stack, active, |stack| - 1, native);
    FilledCounts(heap, memo, shells, memo[top.id], Entry(e.name, native));
  }

  /** The next entry is a container met for the first time. */
  lemma OpenAndFill(
    heap: Heap, root: Value, memo: map<Id, Id>, shells: Heap, rank: map<Id, nat>, stack: seq<Frame>,
    active: set<Id>, count: nat)
    requires Underway(heap, root, memo, shells, rank, stack, active, count) && stack != []
    requires var top := stack[|stack| - 1];
             && top.id in heap && top.next < |heap[top.id].entries| && top.id in memo && memo[top.id] in shells
             && var v := heap[top.id].entries[top.next].value;
                v.Container? && v.id in heap && v.id !in memo
    ensures var top, shell := stack[|stack| - 1], Address(|shells|);
            var e := heap[top.id].entries[top.next];
            var built := shells[shell := Cell(NativeKind(heap[e.value.id].kind), [])];
            Underway(heap, root, memo[e.value.id := shell],
                     Appended(built, memo[top.id], Entry(e.name, Container(shell))), rank,
                     Advanced(stack, |stack| - 1) + [Frame(e.value.id, 0)], active + {e.value.id}, count + 1)
  {
    hide Shells, AllFinished, AllFilling, EntriesBuilt, EdgesOf, Stacked, OnStack;
    var top, shell := stack[|stack| - 1], Address(|shells|);
    var e := heap[top.id].entries[top.next];
    var child, kind := e.value.id, NativeKind(heap[e.value.id].kind);
    var more, built, higher := memo[child := shell], shells[shell := Cell(kind, [])], stack + [Frame(child, 0)];
    OpenShell(heap, memo, shells, rank, stack, active, child);
    OnStackAppended(stack, Frame(child, 0));
    FillEntry(heap, more, built, rank, higher, active + {child}, |stack| - 1, Container(shell));
    assert Advanced(higher, |stack| - 1) == Advanced(stack, |stack| - 1) + [Frame(child, 0)];
    OpenedCounts(heap, memo, shells, kind);
    FilledCounts(heap, more, built, memo[top.id], Entry(e.name, Container(shell)));
    EntryIsEdge(heap, top.id, top.next);
    ChainedOn(heap, root, stack, Advanced(stack, |stack| - 1), child);
  }

  lemma FinishUnderway(
    heap: Heap, root: Value, memo: map<Id, Id>, shells: Heap, rank: map<Id, nat>, stack: seq<Frame>,
    active: set<Id>, count: nat)
    requires Underway(heap, root, memo, shells, rank, stack, active, count) && stack != []
    requires var top := stack[|stack| - 1]; top.id in heap && top.next == |heap[top.id].entries|
    ensures var id := stack[|stack| - 1].id;
            && id !in rank && id in heap
            && Underway(heap, root, memo, shells, rank[id := |rank|], stack[..|stack| - 1], active - {id}, count)
  {
    hide Shells, AllFinished, AllFilling, EntriesBuilt, EdgesOf, Stacked, OnStack;
    TopKnown(heap, memo, shells, rank, stack, active);
    Finish(heap, memo, shells, rank, stack, active);
    ChainedLower(heap, root, stack);
  }

  /** An entry of the container on top is one still being filled. */
  lemma BackToOpen(
    heap: Heap, root: Value, memo: map<Id, Id>, shells: Heap, rank: map<Id, nat>, stack: seq<Frame>,
    active: set<Id>, count: nat, id: Id)
    requires Underway(heap, root, memo, shells, rank, stack, active, count) && stack != []
    requires id in active && (stack[|stack| - 1].id, id) in EdgesOf(heap)
    ensures ReachesCycle(EdgesOf(heap), root)
  {
    TopKnown(heap, memo, shells, rank, stack, active);
    LeadsBack(heap, root, stack, id);
  }

  /** The conversion of a value whose own step is done. */
  lemma StartUnderway(heap: Heap, root: Value)
    requires Held(heap, root)
    ensures root.Leaf? ==> Underway(heap, root, map[], map[], map[], [], {}, 1)
    ensures root.Container? ==>
              var built := map[][Address(0) := Cell(NativeKind(heap[root.id].kind), [])];
              Underway(heap, root, map[root.id := Address(0)], built, map[], [Frame(root.id, 0)], {root.id}, 1)
  {
    NothingConverted(heap);
    if root.Container? {
      var none: Heap := map[];
      OpenShell(heap, map[], none, map[], [], {}, root.id);
      OpenedCounts(heap, map[], none, NativeKind(heap[root.id].kind));
      assert [] + [Frame(root.id, 0)] == [Frame(root.id, 0)] && {} + {root.id} == {root.id};
      assert map[][root.id := Address(0)] == map[root.id := Address(0)];
    }
  }

  class Converter {
    const heap: Heap
    const limit: nat
    /** The objects that are no JSON: of another type, or with a key that is no text or repeats another's. */
    const malformed: set<Id>
    var memo: map<Id, Id>
    var shells: Heap
    var active: set<Id>
    var count: nat

    constructor (heap: Heap, malformed: set<Id>, limit: nat)
      ensures this.heap == heap && this.malformed == malformed && this.limit == limit
      ensures memo == map[] && shells == map[] && active == {} && count == 0
    {
      this.heap, this.malformed, this.limit := heap, malformed, limit;
      memo, shells, active, count := map[], map[], {}, 0;
    }

    /** A leaf as it is, a container already copied as its copy, any other as a new shell. */
    method Convert(item: Value) returns (c: Converted)
      requires item.Container? ==> item.id in heap
      modifies this
      ensures count == old(count) + 1
      ensures c.TooManyNodes? <==> count > limit
      ensures c.HoldsItself? <==> count <= limit && item.Container? && item.id in old(active)
      ensures c.NotJson? <==>
                count <= limit && item.Container? && item.id !in old(active) && item.id !in old(memo) && item.id in malformed
      ensures !(c.Native? && c.isNew) ==> memo == old(memo) && shells == old(shells) && active == old(active)
      ensures c.Native? && !c.isNew ==> Image(Same, memo, item, c.value) && (item.Container? ==> item.id !in active)
      ensures c.Native? && c.isNew ==> item.Container? && item.id !in old(memo) && c.value == Container(Address(|old(shells)|))
      ensures c.Native? && c.isNew ==>
                && memo == old(memo)[item.id := Address(|old(shells)|)]
                && shells == old(shells)[Address(|old(shells)|) := Cell(NativeKind(heap[item.id].kind), [])]
                && active == old(active) + {item.id}
    {
      count := count + 1;
      if count > limit {
        c := TooManyNodes;
      } else if item.Leaf? {
        c := Native(item, false);
      } else if item.id in active {
        c := HoldsItself;
      } else if item.id in memo {
        c := Native(Container(memo[item.id]), false);
      } else if item.id in malformed {
        c := NotJson;
      } else {
        var shell := Address(|shells|);
        c := Native(Container(shell), true);
        memo, active := memo[item.id := shell], active + {item.id};
        shells := shells[shell := Cell(NativeKind(heap[item.id].kind), [])];
      }
    }

    /** Fill in the next entry of the container on top of the stack. */
    method FillNext(root: Value, stack: seq<Frame>, ghost rank: map<Id, nat>)
      returns (verdict: Converted, next: seq<Frame>)
      requires Closed(heap) && stack != [] && count <= limit && memo.Keys !! malformed
      requires Underway(heap, root, memo, shells, rank, stack, active, count)
      requires var top := stack[|stack| - 1];
               top.id in heap && top.next < |heap[top.id].entries| && top.id in memo && memo[top.id] in shells
      modifies this
      ensures verdict.HoldsItself? ==> ReachesCycle(EdgesOf(heap), root)
      ensures verdict.NotJson? ==> ReachesMalformed(EdgesOf(heap), root, malformed)
      ensures memo.Keys !! malformed
      ensures verdict.TooManyNodes? ==> PartlyCopied(heap, memo, shells) && 2 + EntriesBuilt(shells, |shells|) > limit
      ensures verdict.Native? ==> Underway(heap, root, memo, shells, rank, next, active, count)
      ensures verdict.Native? ==> old(count) < count <= limit && Keeps(old(memo), memo)
    {
      hide Underway, ReachesCycle, ReachesMalformed, PartlyCopied, EntriesBuilt;
      next := stack;
      var top := stack[|stack| - 1];
      var e := heap[top.id].entries[top.next];
      ghost var before, table, opens, spent := shells, memo, active, count;
      verdict := Convert(e.value);
      if verdict.HoldsItself? {
        EntryIsEdge(heap, top.id, top.next);
        BackToOpen(heap, root, memo, shells, rank, stack, active, spent, e.value.id);
      } else if verdict.NotJson? {
        EntryIsEdge(heap, top.id, top.next);
        UnderwayChained(heap, root, memo, shells, rank, stack, active, spent);
        MalformedAhead(heap, root, stack, e.value.id, malformed);
      } else if verdict.TooManyNodes? {
        UnderwayIsPartial(heap, root, memo, shells, rank, stack, active, spent);
      } else {
        if verdict.isNew {
          OpenAndFill(heap, root, table, before, rank, stack, opens, spent);
          next := Advanced(stack, |stack| - 1) + [Frame(e.value.id, 0)];
        } else {
          FillKnown(heap, root, memo, shells, rank, stack, active, spent, verdict.value);
          next := Advanced(stack, |stack| - 1);
        }
        shells := Appended(shells, memo[top.id], Entry(e.name, verdict.value));
      }
    }
  }

  lemma RootMalformed(heap: Heap, root: Value, malformed: set<Id>)
    ensures root.Container? && root.id in malformed ==> ReachesMalformed(EdgesOf(heap), root, malformed)
  {
    if root.Container? && root.id in malformed {
      assert Leads(EdgesOf(heap), root.id, root.id, 0);
    }
  }

  /**
   The plain copy of a document: refused when it holds itself, or something that is no JSON, or when its distinct
   containers have too many entries; otherwise the same graph with tuples read as lists, of finitely many paths.
   */
  method Copy(heap: Heap, root: Value, malformed: set<Id>, limit: nat)
    returns (r: Converted, memo: map<Id, Id>, shells: Heap, ghost tree: map<Id, Tree>, ghost trees: map<Id, Tree>)
    requires Closed(heap) && Held(heap, root)
    ensures r.HoldsItself? ==> ReachesCycle(EdgesOf(heap), root)
    ensures r.NotJson? ==> ReachesMalformed(EdgesOf(heap), root, malformed)
    ensures r.Native? ==> !ReachesCycle(EdgesOf(heap), root) && !ReachesMalformed(EdgesOf(heap), root, malformed)
    ensures r.Native? ==> Isomorphic(NativeHeap(heap), Same, memo, shells) && Image(Same, memo, root, r.value)
    ensures r.Native? ==> KindsRead(heap, memo, shells)
    ensures r.Native? ==> Unfolding(CopiedPart(heap, memo), tree) && Unfolding(shells, trees)
    ensures r.Native? ==> SameTree(tree, root, trees, r.value)
    ensures r.Native? ==> 1 + EntriesBuilt(shells, |shells|) <= limit
    ensures r.TooManyNodes? ==> limit == 0 || (PartlyCopied(heap, memo, shells) && 2 + EntriesBuilt(shells, |shells|) > limit)
  {
    hide Underway, ReachesCycle, ReachesMalformed, PartlyCopied, EntriesBuilt, Isomorphic, EdgesOf, Unfolding,
         SameTree, KindsRead;
    var converter := new Converter(heap, malformed, limit);
    StartUnderway(heap, root);
    RootMalformed(heap, root, malformed);
    var first := converter.Convert(root);
    tree, trees := map[], map[];
    var stack := if first.Native? && first.isNew then [Frame(root.id, 0)] else [];
    var verdict := first;
    ghost var rank: map<Id, nat>, start := map[], converter.memo;
    while verdict.Native? && stack != []
      invariant converter.heap == heap && converter.limit == limit && converter.malformed == malformed
      invariant verdict.NotJson? ==> ReachesMalformed(EdgesOf(heap), root, malformed)
      invariant converter.memo.Keys !! malformed
      invariant verdict.HoldsItself? ==> ReachesCycle(EdgesOf(heap), root)
      invariant verdict.TooManyNodes? ==>
                  limit == 0 || (PartlyCopied(heap, converter.memo, converter.shells)
                                 && 2 + EntriesBuilt(converter.shells, |converter.shells|) > limit)
      invariant verdict.Native? ==> Underway(heap, root, converter.memo, converter.shells, rank, stack,
                                             converter.active, converter.count)
      invariant verdict.Native? ==> converter.count <= limit && Keeps(start, converter.memo)
      decreases verdict.Native?, heap.Keys - rank.Keys, limit - converter.count
    {
      var top := stack[|stack| - 1];
      UnderwayTop(heap, root, converter.memo, converter.shells, rank, stack, converter.active, converter.count);
      if top.next == |heap[top.id].entries| {
        FinishUnderway(heap, root, converter.memo, converter.shells, rank, stack, converter.active, converter.count);
        assert top.id in heap.Keys - rank.Keys;
        converter.active, stack, rank := converter.active - {top.id}, stack[..|stack| - 1], rank[top.id := |rank|];
      } else {
        verdict, stack := converter.FillNext(root, stack, rank);
      }
    }
    r, memo, shells := if verdict.Native? then first else verdict, converter.memo, converter.shells;
    if r.Native? {
      tree, trees := UnderwayDone(heap, root, memo, shells, rank, converter.active, converter.count, first.value);
    }
  }
}

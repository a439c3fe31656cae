/**
 Hash-consed keys of JSON values: a container's key is a small number given to its kind and its members'
 keys, built once per container.  Two keys are equal exactly when the values are.
 */
module JsonKeys {
  import opened Options
  import opened JsonSchema
  import opened JsonHeap
  import opened JsonEquality
  import opened Collections

  const KEY_DEPTH: nat := 48

  datatype Key = ScalarKey(json: Json) | NumberKey(index: nat)

  /** A container's kind and its members' keys; names are listed sorted, so a map says the same. */
  datatype Shape = ArrayShape(keys: seq<Key>) | ObjectShape(members: map<string, Key>)

  // ---------------------------------------------------------------- what keys mean

  /** The values the numbers were given to, in order. */
  type Meanings = seq<Json>

  ghost predicate Known(m: Meanings, k: Key) {
    match k
    case ScalarKey(j) => IsScalar(j)
    case NumberKey(n) => n < |m|
  }

  ghost function Meaning(m: Meanings, k: Key): Json
    requires Known(m, k)
  {
    match k
    case ScalarKey(j) => j
    case NumberKey(n) => m[n]
  }

  ghost predicate ShapeKnown(m: Meanings, s: Shape) {
    match s
    case ArrayShape(keys) => forall i | 0 <= i < |keys| :: Known(m, keys[i])
    case ObjectShape(members) => forall name | name in members :: Known(m, members[name])
  }

  ghost function ShapeMeaning(m: Meanings, s: Shape): Json
    requires ShapeKnown(m, s)
  {
    match s
    case ArrayShape(keys) => Array(seq(|keys|, i requires 0 <= i < |keys| => Meaning(m, keys[i])))
    case ObjectShape(members) => Object(map name | name in members :: Meaning(m, members[name]))
  }

  /** Different numbers mean different containers. */
  ghost predicate Injective(m: Meanings) {
    && (forall n | 0 <= n < |m| :: !IsScalar(m[n]))
    && (forall n, k | 0 <= n < k < |m| :: m[n] != m[k])
  }

  ghost predicate Numbered(table: map<Shape, nat>, n: nat) {
    exists s | s in table :: table[s] == n
  }

  /** Numbers keep their meanings as more are given. */
  ghost predicate Grows(m: Meanings, more: Meanings) {
    |m| <= |more| && forall n | 0 <= n < |m| :: more[n] == m[n]
  }

  lemma GrowsTransitive(m: Meanings, more: Meanings, most: Meanings)
    requires Grows(m, more) && Grows(more, most)
    ensures Grows(m, most)
  {
  }

  /** The table gives each shape a number of its own, and a number means what its shape says. */
  ghost predicate TableValid(m: Meanings, table: map<Shape, nat>) {
    && Injective(m)
    && |table| == |m|
    && (forall s | s in table :: table[s] < |m| && ShapeKnown(m, s) && ShapeMeaning(m, s) == m[table[s]])
    && (forall n | 0 <= n < |m| :: Numbered(table, n))
  }

  /** Equal keys, equal values. */
  lemma KeysDecideEquality(m: Meanings, k: Key, l: Key)
    requires Injective(m) && Known(m, k) && Known(m, l)
    ensures k == l <==> Meaning(m, k) == Meaning(m, l)
  {
    if k.NumberKey? && l.NumberKey? && k != l {
      assert if k.index < l.index then m[k.index] != m[l.index] else m[l.index] != m[k.index];
    }
  }

  /** One value has one shape. */
  lemma ShapesDecideEquality(m: Meanings, s: Shape, t: Shape)
    requires Injective(m) && ShapeKnown(m, s) && ShapeKnown(m, t) && ShapeMeaning(m, s) == ShapeMeaning(m, t)
    ensures s == t
  {
    var left, right := ShapeMeaning(m, s), ShapeMeaning(m, t);
    match (s, t)
    case (ArrayShape(keys), ArrayShape(others)) =>
      assert |left.elements| == |keys| && |right.elements| == |others|;
      forall i | 0 <= i < |keys| ensures keys[i] == others[i] {
        assert left.elements[i] == right.elements[i];
        KeysDecideEquality(m, keys[i], others[i]);
      }
      assert keys == others;
    case (ObjectShape(members), ObjectShape(others)) =>
      assert left.members.Keys == members.Keys && right.members.Keys == others.Keys;
      forall name | name in members ensures members[name] == others[name] {
        assert left.members[name] == right.members[name];
        KeysDecideEquality(m, members[name], others[name]);
      }
      assert members == others;
    case _ =>
  }

  lemma MeaningKept(m: Meanings, more: Meanings, s: Shape)
    requires Grows(m, more) && ShapeKnown(m, s)
    ensures ShapeKnown(more, s) && ShapeMeaning(more, s) == ShapeMeaning(m, s)
  {
    match s
    case ArrayShape(keys) => assert ShapeMeaning(more, s).elements == ShapeMeaning(m, s).elements;
    case ObjectShape(members) => assert ShapeMeaning(more, s).members == ShapeMeaning(m, s).members;
  }

  /** A shape with no number means a value no number means. */
  lemma NewShapeNewValue(m: Meanings, table: map<Shape, nat>, s: Shape)
    requires TableValid(m, table) && ShapeKnown(m, s) && s !in table
    ensures forall n | 0 <= n < |m| :: m[n] != ShapeMeaning(m, s)
  {
    forall n | 0 <= n < |m| ensures m[n] != ShapeMeaning(m, s) {
      assert Numbered(table, n);
      var t :| t in table && table[t] == n;
      if m[n] == ShapeMeaning(m, s) {
        ShapesDecideEquality(m, s, t);
      }
    }
  }

  lemma TableGrows(m: Meanings, table: map<Shape, nat>, s: Shape)
    requires TableValid(m, table) && ShapeKnown(m, s) && s !in table
    ensures TableValid(m + [ShapeMeaning(m, s)], table[s := |table|])
  {
    var more, bigger := m + [ShapeMeaning(m, s)], table[s := |table|];
    NewShapeNewValue(m, table, s);
    forall t | t in bigger
      ensures bigger[t] < |more| && ShapeKnown(more, t) && ShapeMeaning(more, t) == more[bigger[t]]
    {
      MeaningKept(m, more, t);
    }
    forall n | 0 <= n < |more| ensures Numbered(bigger, n) {
      if n < |m| {
        assert Numbered(table, n);
        var t :| t in table && table[t] == n;
        assert t in bigger && bigger[t] == n;
      } else {
        assert s in bigger && bigger[s] == n;
      }
    }
  }

  /** `k` is a key of the value `v` unfolds to. */
  ghost predicate Keyed(m: Meanings, tree: map<Id, Json>, v: Value, k: Key) {
    Known(m, k) && Denotes(tree, v, Meaning(m, k))
  }

  ghost predicate ElementsKeyed(m: Meanings, tree: map<Id, Json>, elements: seq<Value>, keys: seq<Key>) {
    |keys| <= |elements| && forall i | 0 <= i < |keys| :: Keyed(m, tree, elements[i], keys[i])
  }

  ghost predicate MembersKeyed(
    m: Meanings, tree: map<Id, Json>, members: map<string, Value>, keys: map<string, Key>)
  {
    keys.Keys <= members.Keys && forall name | name in keys :: Keyed(m, tree, members[name], keys[name])
  }

  lemma ArrayShapeMeaning(m: Meanings, tree: map<Id, Json>, elements: seq<Value>, j: Json, keys: seq<Key>)
    requires CellDenotes(tree, ArrayCell(elements), j)
    requires ElementsKeyed(m, tree, elements, keys) && |keys| == |elements|
    ensures ShapeKnown(m, ArrayShape(keys)) && ShapeMeaning(m, ArrayShape(keys)) == j
  {
    assert ShapeMeaning(m, ArrayShape(keys)).elements == j.elements;
  }

  lemma ObjectShapeMeaning(
    m: Meanings, tree: map<Id, Json>, members: map<string, Value>, j: Json, keys: map<string, Key>)
    requires CellDenotes(tree, ObjectCell(members), j)
    requires MembersKeyed(m, tree, members, keys) && keys.Keys == members.Keys
    ensures ShapeKnown(m, ObjectShape(keys)) && ShapeMeaning(m, ObjectShape(keys)) == j
  {
    assert ShapeMeaning(m, ObjectShape(keys)).members == j.members;
  }

  /** What was remembered of containers is true of them. */
  ghost predicate BuiltValid(m: Meanings, tree: map<Id, Json>, built: map<Id, Key>) {
    forall id | id in built :: Keyed(m, tree, Container(id), built[id])
  }

  lemma KeyedGrows(m: Meanings, more: Meanings, tree: map<Id, Json>)
    requires Grows(m, more)
    ensures forall v, k | Keyed(m, tree, v, k) :: Keyed(more, tree, v, k)
  {
  }

  /** What the number of a shape, or the next number, means. */
  lemma NumberMeans(m: Meanings, table: map<Shape, nat>, tree: map<Id, Json>, built: map<Id, Key>, s: Shape)
    requires TableValid(m, table) && BuiltValid(m, tree, built) && ShapeKnown(m, s)
    ensures Grows(m, m)
    ensures s in table ==>
              Known(m, NumberKey(table[s])) && Meaning(m, NumberKey(table[s])) == ShapeMeaning(m, s)
    ensures s !in table ==>
              var more := m + [ShapeMeaning(m, s)];
              && TableValid(more, table[s := |table|]) && BuiltValid(more, tree, built) && Grows(m, more)
              && Known(more, NumberKey(|table|)) && Meaning(more, NumberKey(|table|)) == ShapeMeaning(m, s)
  {
    if s !in table {
      TableGrows(m, table, s);
      KeyedGrows(m, m + [ShapeMeaning(m, s)], tree);
    }
  }

  lemma NothingLeft(all: set<string>, done: set<string>)
    requires all - done == {} && done <= all
    ensures all == done
  {
    forall name | name in all ensures name in done {
      assert name !in all - done;
    }
  }

  // ---------------------------------------------------------------- depth

  /** Some container lies `levels` deep, the outermost being one deep. */
  ghost predicate Nested(j: Json, levels: nat)
    decreases levels
  {
    levels == 0 ||
    match j
    case Array(elements) =>
      levels == 1 || exists i | 0 <= i < |elements| :: Nested(elements[i], levels - 1)
    case Object(members) =>
      levels == 1 || exists name | name in members :: Nested(members[name], levels - 1)
    case _ => false
  }

  lemma {:induction false} NestedLess(j: Json, levels: nat, fewer: nat)
    requires Nested(j, levels) && fewer <= levels
    ensures Nested(j, fewer)
    decreases levels
  {
    if fewer > 1 {
      match j
      case Array(elements) =>
        var i :| 0 <= i < |elements| && Nested(elements[i], levels - 1);
        NestedLess(elements[i], levels - 1, fewer - 1);
      case Object(members) =>
        var name :| name in members && Nested(members[name], levels - 1);
        NestedLess(members[name], levels - 1, fewer - 1);
      case _ =>
    }
  }

  /** Too deep to be keyed when its outermost container is looked at `depth` levels down. */
  ghost predicate TooDeepFrom(j: Json, depth: nat) {
    depth <= KEY_DEPTH && Nested(j, KEY_DEPTH - depth + 1)
  }

  /** Every container recorded too deep is, from there on down. */
  ghost predicate DeepValid(tree: map<Id, Json>, tooDeepAt: map<Id, nat>) {
    forall id | id in tooDeepAt :: id in tree && TooDeepFrom(tree[id], tooDeepAt[id])
  }

  lemma KnownTooDeep(tree: map<Id, Json>, tooDeepAt: map<Id, nat>, id: Id, depth: nat)
    requires DeepValid(tree, tooDeepAt) && id in tooDeepAt && tooDeepAt[id] <= depth <= KEY_DEPTH
    ensures id in tree && TooDeepFrom(tree[id], depth)
  {
    NestedLess(tree[id], KEY_DEPTH - tooDeepAt[id] + 1, KEY_DEPTH - depth + 1);
  }

  lemma ChildTooDeep(j: Json, child: Json, depth: nat)
    requires depth < KEY_DEPTH && TooDeepFrom(child, depth + 1)
    requires match j
             case Array(elements) => exists i | 0 <= i < |elements| :: elements[i] == child
             case Object(members) => exists name | name in members :: members[name] == child
             case _ => false
    ensures TooDeepFrom(j, depth)
  {
  }

  // ---------------------------------------------------------------- what keys cost

  /** A container looked at some levels down, and what of it was read. */
  datatype Attempt = Attempt(id: Id, depth: nat, read: seq<Value>)

  /** Every scalar keyed is charged, a text by its length. */
  ghost function ScalarCost(v: Value): nat {
    if v.Container? then 0 else 1 + Blocks(v.json)
  }

  ghost function ReadCost(read: seq<Value>): nat {
    if read == [] then 0 else ReadCost(read[..|read| - 1]) + ScalarCost(read[|read| - 1])
  }

  ghost function AttemptsCost(heap: Heap, log: seq<Attempt>): nat {
    if log == [] then 0
    else
      var last := log[|log| - 1];
      AttemptsCost(heap, log[..|log| - 1]) + 1 + (if last.id in heap then Size(heap[last.id]) else 0) + ReadCost(last.read)
  }

  ghost predicate ReadsChildren(heap: Heap, a: Attempt) {
    && a.id in heap && a.depth < KEY_DEPTH && |a.read| <= Size(heap[a.id])
    && forall v | v in a.read :: v in Children(heap[a.id])
  }

  /** No container is looked at twice from one depth. */
  ghost predicate Attempts(heap: Heap, log: seq<Attempt>) {
    && (forall i | 0 <= i < |log| :: ReadsChildren(heap, log[i]))
    && (forall i, k | 0 <= i < k < |log| :: (log[i].id, log[i].depth) != (log[k].id, log[k].depth))
  }

  /** What was looked at has a key, or is known to be too deep from there on down. */
  ghost predicate Concluded(log: seq<Attempt>, built: map<Id, Key>, tooDeepAt: map<Id, nat>) {
    forall i | 0 <= i < |log| ::
      log[i].id in built || (log[i].id in tooDeepAt && tooDeepAt[log[i].id] <= log[i].depth)
  }

  /** The attempt was made for one of `values`, or for what a later entry read one level up. */
  ghost predicate MadeFor(log: seq<Attempt>, i: nat, depth: nat, values: seq<Value>)
    requires i < |log|
  {
    || (log[i].depth == depth && Container(log[i].id) in values)
    || exists k | i < k < |log| :: log[k].depth + 1 == log[i].depth && Container(log[i].id) in log[k].read
  }

  datatype Ledger = Ledger(log: seq<Attempt>, spent: Walked, charged: nat)

  /** From `a` to `b`, keying `values` met at `depth`: each value charged is an `extra` one or of an attempt logged. */
  ghost predicate Walks(heap: Heap, a: Ledger, b: Ledger, extra: nat, depth: nat, values: seq<Value>) {
    && a.log <= b.log && a.charged <= b.charged && b.spent == Spend(a.spent, b.charged - a.charged)
    && b.charged + AttemptsCost(heap, a.log) == a.charged + extra + AttemptsCost(heap, b.log)
    && (forall i | |a.log| <= i < |b.log| :: depth <= b.log[i].depth && MadeFor(b.log, i, depth, values))
  }

  lemma WalksNowhere(heap: Heap, a: Ledger, cost: nat, depth: nat, values: seq<Value>)
    ensures Walks(heap, a, a, 0, depth, values)
    ensures Walks(heap, a, Ledger(a.log, Spend(a.spent, cost), a.charged + cost), cost, depth, values)
  {
  }

  lemma MadeForStill(log: seq<Attempt>, more: seq<Attempt>, i: nat, depth: nat, values: seq<Value>, all: seq<Value>)
    requires i < |log| && MadeFor(log, i, depth, values) && log <= more && forall v | v in values :: v in all
    ensures MadeFor(more, i, depth, all)
  {
  }

  lemma WalksFurther(
    heap: Heap, a: Ledger, b: Ledger, c: Ledger, extra: nat, more: nat, depth: nat, values: seq<Value>, v: Value)
    requires Walks(heap, a, b, extra, depth, values) && Walks(heap, b, c, more, depth, [v])
    ensures Walks(heap, a, c, extra + more, depth, values + [v])
  {
    hide AttemptsCost, MadeFor;
    forall i | |a.log| <= i < |c.log| ensures depth <= c.log[i].depth && MadeFor(c.log, i, depth, values + [v]) {
      if i < |b.log| {
        assert c.log[i] == b.log[i];
        MadeForStill(b.log, c.log, i, depth, values, values + [v]);
      } else {
        MadeForStill(c.log, c.log, i, depth, [v], values + [v]);
      }
    }
  }

  lemma ReadOneMore(read: seq<Value>, v: Value)
    ensures ReadCost(read + [v]) == ReadCost(read) + ScalarCost(v)
  {
    assert (read + [v])[..|read|] == read;
  }

  function ContainerCost(heap: Heap, id: Id): nat
    requires id in heap
  {
    1 + Size(heap[id])
  }

  function Spending(a: Ledger, cost: nat): Ledger {
    Ledger(a.log, Spend(a.spent, cost), a.charged + cost)
  }

  function Logged(a: Ledger, attempt: Attempt): Ledger {
    a.(log := a.log + [attempt])
  }

  /** A container looked at accounts for its own charge and for all that was done below it. */
  lemma WalksBelow(heap: Heap, a: Ledger, b: Ledger, id: Id, depth: nat, read: seq<Value>)
    requires id in heap
    requires Walks(heap, Spending(a, ContainerCost(heap, id)), b, ReadCost(read), depth + 1, read)
    ensures Walks(heap, a, Logged(b, Attempt(id, depth, read)), 0, depth, [Container(id)])
  {
    var attempt, c := Attempt(id, depth, read), Logged(b, Attempt(id, depth, read));
    assert c.log[..|b.log|] == b.log;
    hide AttemptsCost, ReadCost, MadeFor;
    CostLogged(heap, b.log, attempt);
    forall i | |a.log| <= i < |c.log| ensures depth <= c.log[i].depth && MadeFor(c.log, i, depth, [Container(id)]) {
      if i < |b.log| {
        assert c.log[i] == b.log[i];
        MadeForRead(b.log, attempt, i);
      } else {
        MadeForItself(c.log, i, depth);
      }
    }
  }

  lemma CostLogged(heap: Heap, log: seq<Attempt>, attempt: Attempt)
    requires attempt.id in heap
    ensures AttemptsCost(heap, log + [attempt])
            == AttemptsCost(heap, log) + ContainerCost(heap, attempt.id) + ReadCost(attempt.read)
  {
    assert (log + [attempt])[..|log|] == log;
  }

  lemma MadeForRead(log: seq<Attempt>, attempt: Attempt, i: nat)
    requires i < |log| && MadeFor(log, i, attempt.depth + 1, attempt.read)
    ensures MadeFor(log + [attempt], i, attempt.depth, [Container(attempt.id)])
  {
    var more := log + [attempt];
    assert more[|log|] == attempt && more[i] == log[i];
    if k :| i < k < |log| && log[k].depth + 1 == log[i].depth && Container(log[i].id) in log[k].read {
      assert more[k] == log[k];
    }
  }

  lemma MadeForItself(log: seq<Attempt>, i: nat, depth: nat)
    requires i < |log| && log[i].depth == depth
    ensures MadeFor(log, i, depth, [Container(log[i].id)])
  {
  }

  /** A container with no key, not known to be too deep from here, was not looked at from here. */
  lemma NotAttempted(
    heap: Heap, log: seq<Attempt>, built: map<Id, Key>, tooDeepAt: map<Id, nat>, id: Id, depth: nat)
    requires Concluded(log, built, tooDeepAt) && id !in built && (id in tooDeepAt ==> depth < tooDeepAt[id])
    ensures forall i | 0 <= i < |log| :: (log[i].id, log[i].depth) != (id, depth)
  {
  }

  lemma OneMoreAttempt(heap: Heap, a: Ledger, b: Ledger, extra: nat, read: seq<Value>, id: Id, depth: nat)
    requires Attempts(heap, b.log) && Walks(heap, a, b, extra, depth + 1, read)
    requires forall i | 0 <= i < |a.log| :: (a.log[i].id, a.log[i].depth) != (id, depth)
    requires ReadsChildren(heap, Attempt(id, depth, read))
    ensures Attempts(heap, b.log + [Attempt(id, depth, read)])
  {
    hide MadeFor, AttemptsCost;
    forall i | 0 <= i < |b.log| ensures (b.log[i].id, b.log[i].depth) != (id, depth) {
      if i < |a.log| {
        assert a.log[i] == b.log[i];
      }
    }
  }

  // ---------------------------------------------------------------- building keys

  /** What was sought, or why there is none. */
  datatype Answer<T> = Found(value: T) | TooDeep | OutOfBudget

  class Keys {
    const heap: Heap
    ghost const tree: map<Id, Json>
    var table: map<Shape, nat>
    var built: map<Id, Key>
    var tooDeepAt: map<Id, nat>
    var spent: Walked
    ghost var meanings: Meanings
    ghost var log: seq<Attempt>
    /** The values charged for keys, of all that were walked. */
    ghost var charged: nat

    ghost function Now(): Ledger
      reads this
    {
      Ledger(log, spent, charged)
    }

    ghost predicate KeysRight()
      reads this
    {
      && Unfolding(heap, tree)
      && TableValid(meanings, table)
      && BuiltValid(meanings, tree, built)
      && DeepValid(tree, tooDeepAt)
    }

    ghost predicate Valid()
      reads this
    {
      KeysRight() && Attempts(heap, log) && (!Over(spent) ==> Concluded(log, built, tooDeepAt))
    }

    constructor (heap: Heap, spent: Walked, ghost tree: map<Id, Json>)
      requires Unfolding(heap, tree)
      ensures this.heap == heap && this.tree == tree && Valid() && Now() == Ledger([], spent, 0)
    {
      this.heap, this.spent := heap, spent;
      this.tree := tree;
      table, built, tooDeepAt, meanings := map[], map[], map[], [];
      log, charged := [], 0;
    }

    /** Two keys handed out are one exactly when the values are equal. */
    lemma KeysAgree(v: Value, k: Key, i: Json, w: Value, l: Key, j: Json)
      requires Valid() && Keyed(meanings, tree, v, k) && Keyed(meanings, tree, w, l)
      requires Denotes(tree, v, i) && Denotes(tree, w, j)
      ensures k == l <==> i == j
    {
      KeysDecideEquality(meanings, k, l);
    }

    /** The number of a shape, a new one if it has none. */
    method Number(s: Shape) returns (k: Key)
      requires KeysRight() && ShapeKnown(meanings, s)
      modifies this`table, this`meanings
      ensures KeysRight() && Grows(old(meanings), meanings)
      ensures Known(meanings, k) && Meaning(meanings, k) == ShapeMeaning(old(meanings), s)
    {
      hide DeepValid, TableValid, BuiltValid, Unfolding, Grows;
      NumberMeans(meanings, table, tree, built, s);
      if s in table {
        return NumberKey(table[s]);
      }
      k := NumberKey(|table|);
      table, meanings := table[s := |table|], meanings + [ShapeMeaning(meanings, s)];
    }

    method RecordTooDeep(id: Id, depth: nat)
      requires KeysRight() && id in tree && TooDeepFrom(tree[id], depth)
      modifies this`tooDeepAt
      ensures KeysRight()
      ensures id in tooDeepAt && tooDeepAt[id] <= depth
      ensures forall i | i in old(tooDeepAt) :: i in tooDeepAt && tooDeepAt[i] <= old(tooDeepAt)[i]
    {
      var known := if id in tooDeepAt then tooDeepAt[id] else KEY_DEPTH;
      tooDeepAt := tooDeepAt[id := if depth < known then depth else known];
    }

    /** Number the shape of a container and remember its key. */
    method Remember(id: Id, s: Shape) returns (k: Key)
      requires KeysRight() && id in heap && ShapeKnown(meanings, s) && ShapeMeaning(meanings, s) == tree[id]
      modifies this`table, this`meanings, this`built
      ensures KeysRight() && Grows(old(meanings), meanings)
      ensures Keyed(meanings, tree, Container(id), k) && built == old(built)[id := k]
    {
      k := Number(s);
      built := built[id := k];
    }

    method Charge(cost: nat) returns (ok: bool)
      requires Valid()
      modifies this`spent, this`charged
      ensures Valid() && Now() == Spending(old(Now()), cost) && (ok <==> !Over(spent))
    {
      spent, charged := Spend(spent, cost), charged + cost;
      ok := !Over(spent);
    }

    /**
     The key of a value, or none: because it is nested too deeply to be given one here, or because the budget is
     spent, on nothing but containers the value holds, each looked at once from one depth.
     */
    method KeyOf(v: Value, depth: nat, ghost j: Json) returns (k: Answer<Key>)
      requires Valid() && Denotes(tree, v, j) && depth <= KEY_DEPTH && !Over(spent)
      modifies this
      ensures Valid() && Grows(old(meanings), meanings)
      ensures k.Found? ==> Keyed(meanings, tree, v, k.value)
      ensures k.TooDeep? ==> TooDeepFrom(j, depth)
      ensures k.OutOfBudget? <==> Over(spent)
      ensures Walks(heap, old(Now()), Now(), ScalarCost(v), depth, [v])
      decreases KEY_DEPTH - depth, 2
    {
      hide TooDeepFrom, TableValid, Walks, Attempts, Unfolding;
      WalksNowhere(heap, Now(), ScalarCost(v), depth, [v]);
      if v.Scalar? {
        var ok := Charge(1 + Blocks(v.json));
        k := if ok then Found(ScalarKey(v.json)) else OutOfBudget;
      } else if v.id in built {
        Contained(v.id, j);
        k := Found(built[v.id]);
      } else if depth >= KEY_DEPTH || (v.id in tooDeepAt && depth >= tooDeepAt[v.id]) {
        k := TooDeep;
        TooDeepHere(depth, v.id, j);
      } else {
        Contained(v.id, j);
        k := Build(v.id, depth);
      }
    }

    lemma Contained(id: Id, j: Json)
      requires KeysRight() && Denotes(tree, Container(id), j)
      ensures id in heap && id in tree && j == tree[id]
    {
    }

    lemma InTree(id: Id)
      requires KeysRight() && id in heap
      ensures id in tree
    {
    }

    lemma TooDeepHere(depth: nat, id: Id, j: Json)
      requires KeysRight() && Denotes(tree, Container(id), j) && depth <= KEY_DEPTH
      requires depth >= KEY_DEPTH || (id in tooDeepAt && depth >= tooDeepAt[id])
      ensures TooDeepFrom(j, depth)
    {
      if depth < KEY_DEPTH {
        KnownTooDeep(tree, tooDeepAt, id, depth);
      }
    }

    /** Key a container through its members' keys. */
    method Build(id: Id, depth: nat) returns (k: Answer<Key>)
      requires Valid() && id in heap && depth < KEY_DEPTH && !Over(spent)
      requires id !in built && (id in tooDeepAt ==> depth < tooDeepAt[id])
      modifies this
      ensures Valid() && Grows(old(meanings), meanings)
      ensures k.Found? ==> Keyed(meanings, tree, Container(id), k.value)
      ensures k.TooDeep? ==> TooDeepFrom(tree[id], depth)
      ensures k.OutOfBudget? <==> Over(spent)
      ensures Walks(heap, old(Now()), Now(), 0, depth, [Container(id)])
      decreases KEY_DEPTH - depth, 1
    {
      hide DeepValid, TooDeepFrom, TableValid, BuiltValid, Walks, Attempts, ReadsChildren, Unfolding;
      NotAttempted(heap, log, built, tooDeepAt, id, depth);
      ghost var start, read := Now(), [];
      var ok := Charge(ContainerCost(heap, id));
      ghost var entered := Now();
      WalksNowhere(heap, entered, 0, depth + 1, []);
      NothingRead(heap, id, depth);
      var shape := OutOfBudget;
      if ok && heap[id].ArrayCell? {
        shape, read := ArrayShapeOf(id, depth);
      } else if ok {
        shape, read := ObjectShapeOf(id, depth);
      }
      OneMoreAttempt(heap, entered, Now(), ReadCost(read), read, id, depth);
      WalksBelow(heap, start, Now(), id, depth, read);
      InTree(id);
      k := Conclude(id, depth, shape, read);
    }

    /** Remember what became of a container that was looked at. */
    method Conclude(id: Id, depth: nat, shape: Answer<Shape>, ghost read: seq<Value>) returns (k: Answer<Key>)
      requires Valid() && id in heap && id in tree
      requires Attempts(heap, log + [Attempt(id, depth, read)])
      requires shape.Found? ==> ShapeKnown(meanings, shape.value) && ShapeMeaning(meanings, shape.value) == tree[id]
      requires shape.TooDeep? ==> TooDeepFrom(tree[id], depth)
      requires shape.OutOfBudget? <==> Over(spent)
      modifies this
      ensures Valid() && Grows(old(meanings), meanings) && Now() == Logged(old(Now()), Attempt(id, depth, read))
      ensures k.Found? ==> Keyed(meanings, tree, Container(id), k.value)
      ensures k.TooDeep? ==> TooDeepFrom(tree[id], depth)
      ensures k.OutOfBudget? <==> Over(spent)
    {
      hide DeepValid, TooDeepFrom, TableValid, BuiltValid, Unfolding, ShapeMeaning, Attempts;
      match shape {
        case Found(s) =>
          var key := Remember(id, s);
          k := Found(key);
        case TooDeep =>
          RecordTooDeep(id, depth);
          k := TooDeep;
        case OutOfBudget =>
          k := OutOfBudget;
      }
      log := log + [Attempt(id, depth, read)];
    }

    /** The shape of an array, if every element can be keyed. */
    method ArrayShapeOf(id: Id, depth: nat) returns (s: Answer<Shape>, ghost read: seq<Value>)
      requires Valid() && id in heap && heap[id].ArrayCell? && depth < KEY_DEPTH && !Over(spent)
      modifies this
      ensures Valid() && Grows(old(meanings), meanings)
      ensures s.Found? ==> ShapeKnown(meanings, s.value) && ShapeMeaning(meanings, s.value) == tree[id]
      ensures s.TooDeep? ==> TooDeepFrom(tree[id], depth)
      ensures s.OutOfBudget? <==> Over(spent)
      ensures ReadsChildren(heap, Attempt(id, depth, read))
      ensures Walks(heap, old(Now()), Now(), ReadCost(read), depth + 1, read)
      decreases KEY_DEPTH - depth, 0
    {
      hide DeepValid, TooDeepFrom, TableValid, BuiltValid, Walks, Attempts, ReadCost, ScalarCost, Concluded;
      var elements, keys := heap[id].elements, [];
      read := [];
      WalksNowhere(heap, Now(), 0, depth + 1, []);
      NothingRead(heap, id, depth);
      while |keys| < |elements|
        invariant Valid() && Grows(old(meanings), meanings) && !Over(spent)
        invariant ElementsKeyed(meanings, tree, elements, keys) && |read| == |keys|
        invariant ReadsChildren(heap, Attempt(id, depth, read))
        invariant Walks(heap, old(Now()), Now(), ReadCost(read), depth + 1, read)
      {
        ghost var before, was, child := meanings, Now(), tree[id].elements[|keys|];
        var v := elements[|keys|];
        assert Denotes(tree, v, child);
        var part := KeyOf(v, depth + 1, child);
        ReadOneMore(read, v);
        WalksFurther(heap, old(Now()), was, Now(), ReadCost(read), ScalarCost(v), depth + 1, read, v);
        read := read + [v];
        if !part.Found? {
          if part.TooDeep? { ChildTooDeep(tree[id], child, depth); }
          return if part.TooDeep? then TooDeep else OutOfBudget, read;
        }
        KeyedGrows(before, meanings, tree);
        keys := keys + [part.value];
      }
      ArrayShapeMeaning(meanings, tree, elements, tree[id], keys);
      s := Found(ArrayShape(keys));
    }

    /** Key one more member of an object, after those read since `start`. */
    method KeyMember(
      id: Id, name: string, depth: nat, keys: map<string, Key>, ghost start: Ledger, ghost read: seq<Value>)
      returns (more: Answer<map<string, Key>>, ghost all: seq<Value>)
      requires Valid() && id in heap && heap[id].ObjectCell? && depth < KEY_DEPTH && !Over(spent)
      requires name in heap[id].members && name !in keys && |read| == |keys|
      requires MembersKeyed(meanings, tree, heap[id].members, keys) && keys.Keys <= heap[id].members.Keys
      requires ReadsChildren(heap, Attempt(id, depth, read))
      requires Walks(heap, start, Now(), ReadCost(read), depth + 1, read)
      modifies this
      ensures Valid() && Grows(old(meanings), meanings)
      ensures more.Found? ==> MembersKeyed(meanings, tree, heap[id].members, more.value)
      ensures more.Found? ==> more.value.Keys == keys.Keys + {name} && |all| == |more.value|
      ensures more.TooDeep? ==> TooDeepFrom(tree[id], depth)
      ensures more.OutOfBudget? <==> Over(spent)
      ensures ReadsChildren(heap, Attempt(id, depth, all))
      ensures Walks(heap, start, Now(), ReadCost(all), depth + 1, all)
      decreases KEY_DEPTH - depth, 0, 0
    {
      hide DeepValid, TooDeepFrom, TableValid, BuiltValid, Walks, Attempts, ReadCost, ScalarCost, Concluded,
           ReadsChildren, MembersKeyed, Keyed, Unfolding, Grows;
      MemberDenotes(heap, tree, id, name);
      ghost var child, was := tree[id].members[name], Now();
      var v := heap[id].members[name];
      var part := KeyOf(v, depth + 1, child);
      if part.TooDeep? { ChildTooDeep(tree[id], child, depth); }
      if part.Found? { MemberKeyed(old(meanings), meanings, tree, heap[id].members, keys, name, part.value); }
      ReadOneMore(read, v);
      WalksFurther(heap, start, was, Now(), ReadCost(read), ScalarCost(v), depth + 1, read, v);
      MemberRead(heap, id, depth, read, keys, name);
      all := read + [v];
      more := match part
              case Found(k) => Found(keys[name := k])
              case TooDeep => TooDeep
              case OutOfBudget => OutOfBudget;
    }

    /** The shape of an object, if every member can be keyed. */
    method ObjectShapeOf(id: Id, depth: nat) returns (s: Answer<Shape>, ghost read: seq<Value>)
      requires Valid() && id in heap && heap[id].ObjectCell? && depth < KEY_DEPTH && !Over(spent)
      modifies this
      ensures Valid() && Grows(old(meanings), meanings)
      ensures s.Found? ==> ShapeKnown(meanings, s.value) && ShapeMeaning(meanings, s.value) == tree[id]
      ensures s.TooDeep? ==> TooDeepFrom(tree[id], depth)
      ensures s.OutOfBudget? <==> Over(spent)
      ensures ReadsChildren(heap, Attempt(id, depth, read))
      ensures Walks(heap, old(Now()), Now(), ReadCost(read), depth + 1, read)
      decreases KEY_DEPTH - depth, 0, 1
    {
      hide DeepValid, TooDeepFrom, TableValid, BuiltValid, Walks, Attempts, ReadCost, ScalarCost, Concluded,
           ReadsChildren;
      var keys: map<string, Key> := map[];
      read := [];
      ghost var start := Now();
      WalksNowhere(heap, start, 0, depth + 1, []);
      NothingRead(heap, id, depth);
      while heap[id].members.Keys - keys.Keys != {}
        invariant Valid() && Grows(old(meanings), meanings) && !Over(spent)
        invariant MembersKeyed(meanings, tree, heap[id].members, keys) && |read| == |keys|
        invariant ReadsChildren(heap, Attempt(id, depth, read))
        invariant Walks(heap, start, Now(), ReadCost(read), depth + 1, read)
        decreases heap[id].members.Keys - keys.Keys
      {
        var name :| name in heap[id].members.Keys - keys.Keys;
        ghost var before := meanings;
        var more;
        more, read := KeyMember(id, name, depth, keys, start, read);
        GrowsTransitive(old(meanings), before, meanings);
        if !more.Found? {
          return if more.TooDeep? then TooDeep else OutOfBudget, read;
        }
        keys := more.value;
      }
      NothingLeft(heap[id].members.Keys, keys.Keys);
      ObjectShapeMeaning(meanings, tree, heap[id].members, tree[id], keys);
      s := Found(ObjectShape(keys));
    }
  }

  lemma MemberDenotes(heap: Heap, tree: map<Id, Json>, id: Id, name: string)
    requires Unfolding(heap, tree) && id in heap && heap[id].ObjectCell? && name in heap[id].members
    ensures id in tree && tree[id].Object? && name in tree[id].members
    ensures Denotes(tree, heap[id].members[name], tree[id].members[name])
  {
  }

  lemma MemberKeyed(
    m: Meanings, more: Meanings, tree: map<Id, Json>, members: map<string, Value>, keys: map<string, Key>,
    name: string, k: Key)
    requires MembersKeyed(m, tree, members, keys) && Grows(m, more)
    requires name in members && Keyed(more, tree, members[name], k)
    ensures MembersKeyed(more, tree, members, keys[name := k]) && keys.Keys <= members.Keys
  {
    KeyedGrows(m, more, tree);
  }

  lemma NothingRead(heap: Heap, id: Id, depth: nat)
    requires id in heap && depth < KEY_DEPTH
    ensures ReadsChildren(heap, Attempt(id, depth, [])) && ReadCost([]) == 0
  {
  }

  /** A member not keyed yet is one more read. */
  lemma MemberRead(heap: Heap, id: Id, depth: nat, read: seq<Value>, keys: map<string, Key>, name: string)
    requires id in heap && heap[id].ObjectCell? && name in heap[id].members && name !in keys
    requires keys.Keys <= heap[id].members.Keys && |read| == |keys|
    requires ReadsChildren(heap, Attempt(id, depth, read))
    ensures ReadsChildren(heap, Attempt(id, depth, read + [heap[id].members[name]]))
    ensures |keys.Keys + {name}| == |keys| + 1
  {
    var members := heap[id].members;
    assert |keys| == |keys.Keys| && |members| == |members.Keys|;
    SubsetIsSmaller(keys.Keys + {name}, members.Keys);
  }
}

/** Equality of two JSON values by a worklist that compares each pair of containers once. */
module JsonEquality {
  import opened JsonSchema
  import opened JsonHeap

  datatype Verdict = Equal | Different | Exhausted

  type Pair = (Value, Value)
  type IdPair = (Id, Id)

  const MAX_EQUALITY_STEPS: nat := 5_000_000
  const MAX_CALL_VALUES: nat := 25_000_000

  /** Values walked so far by the running comparison, and by the call it is part of. */
  datatype Walked = Walked(run: nat, call: nat)

  function Spend(w: Walked, count: nat): Walked {
    Walked(w.run + count, w.call + count)
  }

  /** Past either budget the comparison ends, unverified. */
  predicate Over(w: Walked) {
    w.run > MAX_EQUALITY_STEPS || w.call > MAX_CALL_VALUES
  }

  predicate SameKind(a: Json, b: Json) {
    match a
    case Null => b.Null?
    case Boolean(_) => b.Boolean?
    case Number(_) => b.Number?
    case Text(_) => b.Text?
    case Array(_) => b.Array?
    case Object(_) => b.Object?
  }

  function Size(c: Cell): nat {
    match c
    case ArrayCell(elements) => |elements|
    case ObjectCell(members) => |members|
  }

  /** A text is charged for every 64 characters of it that are full. */
  function Blocks(j: Json): (n: nat)
    ensures if j.Text? then 64 * n <= |j.s| < 64 * (n + 1) else n == 0
  {
    if j.Text? then |j.s| / 64 else 0
  }

  /** Two containers agree in kind and in length or names: only their children remain to be compared. */
  predicate SameShape(a: Cell, b: Cell) {
    match (a, b)
    case (ArrayCell(left), ArrayCell(right)) => |left| == |right|
    case (ObjectCell(left), ObjectCell(right)) => left.Keys == right.Keys
    case _ => false
  }

  /** `pair` holds two children in one position or under one name. */
  predicate ChildPair(a: Cell, b: Cell, pair: Pair)
    requires SameShape(a, b)
  {
    match (a, b)
    case (ArrayCell(left), ArrayCell(right)) =>
      exists i | 0 <= i < |left| :: pair == (left[i], right[i])
    case (ObjectCell(left), ObjectCell(right)) =>
      exists name | name in left :: pair == (left[name], right[name])
  }

  /** The pairs of children of two containers of one shape, in some order. */
  method ChildPairs(a: Cell, b: Cell) returns (pairs: seq<Pair>)
    requires SameShape(a, b)
    ensures forall p :: p in pairs <==> ChildPair(a, b, p)
    ensures |pairs| == Size(a)
  {
    pairs := [];
    match a {
      case ArrayCell(elements) =>
        for i := 0 to |elements|
          invariant |pairs| == i
          invariant forall p :: p in pairs <==> exists k | 0 <= k < i :: p == (elements[k], b.elements[k])
        {
          pairs := pairs + [(elements[i], b.elements[i])];
        }
      case ObjectCell(members) =>
        var names := members.Keys;
        while names != {}
          invariant names <= members.Keys && |pairs| + |names| == |members|
          invariant forall p :: p in pairs <==>
                      exists name | name in members && name !in names :: p == (members[name], b.members[name])
          decreases |names|
        {
          var name :| name in names;
          names := names - {name};
          pairs := pairs + [(members[name], b.members[name])];
        }
    }
  }

  // ---------------------------------------------------------------- what a comparison may cost

  /** Two containers compared once, and the pairs of children that gives to compare. */
  datatype Opening = Opening(a: Id, b: Id, children: seq<Pair>)

  ghost function TextIn(work: seq<Pair>): nat {
    if work == [] then 0
    else
      TextIn(work[..|work| - 1])
      + match work[|work| - 1]
        case (Scalar(a), Scalar(b)) => Blocks(a) + Blocks(b)
        case _ => 0
  }

  lemma {:induction false} TextInBoth(work: seq<Pair>, children: seq<Pair>)
    ensures TextIn(work + children) == TextIn(work) + TextIn(children)
  {
    if children == [] {
      assert work + children == work;
    } else {
      assert (work + children)[..|work + children| - 1] == work + children[..|children| - 1];
      TextInBoth(work, children[..|children| - 1]);
    }
  }

  ghost function OpeningsCost(heap: Heap, openings: seq<Opening>): nat {
    if openings == [] then 0
    else
      var last := openings[|openings| - 1];
      OpeningsCost(heap, openings[..|openings| - 1])
      + 1 + (if last.a in heap then Size(heap[last.a]) else 0) + TextIn(last.children)
  }

  /** `p` is the pair the comparison is about, or was put up for comparison by an opening. */
  ghost predicate Reached(goal: Pair, openings: seq<Opening>, p: Pair) {
    p == goal || exists i | 0 <= i < |openings| :: p in openings[i].children
  }

  /** An opening puts up pairs of children, as many as there are. */
  ghost predicate OpensChildren(heap: Heap, o: Opening) {
    && o.a in heap && o.b in heap && |o.children| <= Size(heap[o.a])
    && forall p | p in o.children :: SameShape(heap[o.a], heap[o.b]) && ChildPair(heap[o.a], heap[o.b], p)
  }

  /** Pairs of containers opened, none twice, each one the goal or put up by an earlier one. */
  ghost predicate Openings(heap: Heap, goal: Pair, openings: seq<Opening>) {
    AllOpenChildren(heap, openings) && AllReached(goal, openings) && NoneTwice(openings)
  }

  ghost function RootCost(goal: Pair): nat {
    (if goal.0.Scalar? then 1 else 0) + TextIn([goal])
  }

  /** What the pairs opened are charged for at once, before any text is read. */
  ghost function OpeningsBase(heap: Heap, openings: seq<Opening>): nat {
    if openings == [] then 0
    else
      var last := openings[|openings| - 1];
      OpeningsBase(heap, openings[..|openings| - 1]) + 1 + if last.a in heap then Size(heap[last.a]) else 0
  }

  /** A comparison that walks `charged` values: those of each pair opened, and no text but of pairs it reaches. */
  ghost predicate Covered(heap: Heap, goal: Pair, openings: seq<Opening>, charged: nat) {
    && Openings(heap, goal, openings)
    && (if goal.0.Scalar? then 1 else 0) + OpeningsBase(heap, openings) <= charged
    && charged <= RootCost(goal) + OpeningsCost(heap, openings)
  }

  ghost predicate IsOpened(openings: seq<Opening>, p: Pair) {
    p.0.Container? && p.1.Container? ==>
      exists i | 0 <= i < |openings| :: openings[i].a == p.0.id && openings[i].b == p.1.id
  }

  /** An opening puts up all pairs of children. */
  ghost predicate OpensAll(heap: Heap, o: Opening) {
    && OpensChildren(heap, o) && |o.children| == Size(heap[o.a])
    && SameShape(heap[o.a], heap[o.b])
    && forall p | ChildPair(heap[o.a], heap[o.b], p) :: p in o.children
  }

  ghost predicate AllOpenAll(heap: Heap, openings: seq<Opening>) {
    forall i | 0 <= i < |openings| :: OpensAll(heap, openings[i])
  }

  ghost predicate ComparedAreOpened(compared: set<IdPair>, openings: seq<Opening>) {
    forall pair | pair in compared :: IsOpened(openings, (Container(pair.0), Container(pair.1)))
  }

  /** What is reached is opened, or still to be compared. */
  ghost predicate ReachedAreOpened(goal: Pair, openings: seq<Opening>, work: seq<Pair>) {
    forall p | Reached(goal, openings, p) :: p in work || IsOpened(openings, p)
  }

  /** A comparison carried through: every pair it reaches is opened in full, and all of it is charged. */
  ghost predicate CarriedThrough(heap: Heap, goal: Pair, openings: seq<Opening>, charged: nat) {
    && Openings(heap, goal, openings)
    && AllOpenAll(heap, openings)
    && (forall p | Reached(goal, openings, p) :: IsOpened(openings, p))
    && charged == RootCost(goal) + OpeningsCost(heap, openings)
  }

  /** What is charged, and what the texts still to be compared will be, is that of the openings so far. */
  ghost predicate Charged(
    heap: Heap, goal: Pair, compared: set<IdPair>, work: seq<Pair>, openings: seq<Opening>, charged: nat)
  {
    && Openings(heap, goal, openings)
    && (forall i | 0 <= i < |openings| :: (openings[i].a, openings[i].b) in compared)
    && (forall p | p in work :: Reached(goal, openings, p))
    && ComparedAreOpened(compared, openings)
    && AllOpenAll(heap, openings)
    && ReachedAreOpened(goal, openings, work)
    && charged + TextIn(work) == RootCost(goal) + OpeningsCost(heap, openings)
    && (if goal.0.Scalar? then 1 else 0) + OpeningsBase(heap, openings) <= charged
  }

  lemma ChargedIsCovered(
    heap: Heap, goal: Pair, compared: set<IdPair>, work: seq<Pair>, openings: seq<Opening>, charged: nat)
    requires Charged(heap, goal, compared, work, openings, charged)
    ensures Covered(heap, goal, openings, charged)
    ensures work == [] ==> CarriedThrough(heap, goal, openings, charged)
  {
    hide AllOpenAll, ComparedAreOpened, IsOpened, Reached;
  }

  lemma ChargeScalars(
    heap: Heap, goal: Pair, compared: set<IdPair>, work: seq<Pair>, pair: Pair, openings: seq<Opening>,
    charged: nat)
    requires Charged(heap, goal, compared, work + [pair], openings, charged) && IsOpened(openings, pair)
    ensures var cost := if pair.0.Scalar? && pair.1.Scalar? then Blocks(pair.0.json) + Blocks(pair.1.json) else 0;
            Charged(heap, goal, compared, work, openings, charged + cost)
  {
    hide AllOpenAll, ComparedAreOpened, IsOpened, Reached;
    assert (work + [pair])[..|work|] == work;
    assert forall p :: p in work + [pair] <==> p in work || p == pair;
  }

  /** A pair compared before is opened. */
  lemma ComparedIsOpened(
    heap: Heap, goal: Pair, compared: set<IdPair>, work: seq<Pair>, openings: seq<Opening>, charged: nat, pair: Pair)
    requires Charged(heap, goal, compared, work, openings, charged)
    requires pair.0.Container? && pair.1.Container? ==> (pair.0.id, pair.1.id) in compared
    ensures IsOpened(openings, pair)
  {
    if pair.0.Container? && pair.1.Container? {
      var ids := (pair.0.id, pair.1.id);
      assert ids in compared && pair == (Container(ids.0), Container(ids.1));
    }
  }

  lemma ReachedStill(goal: Pair, openings: seq<Opening>, o: Opening, p: Pair)
    requires Reached(goal, openings, p)
    ensures Reached(goal, openings + [o], p)
  {
    if p != goal {
      var i :| 0 <= i < |openings| && p in openings[i].children;
      assert (openings + [o])[i] == openings[i];
    }
  }

  ghost predicate AllOpenChildren(heap: Heap, openings: seq<Opening>) {
    forall i | 0 <= i < |openings| :: OpensChildren(heap, openings[i])
  }

  ghost predicate AllReached(goal: Pair, openings: seq<Opening>) {
    forall i | 0 <= i < |openings| ::
      Reached(goal, openings[..i], (Container(openings[i].a), Container(openings[i].b)))
  }

  ghost predicate NoneTwice(openings: seq<Opening>) {
    forall i, k | 0 <= i < k < |openings| :: (openings[i].a, openings[i].b) != (openings[k].a, openings[k].b)
  }

  lemma AllReachedMore(goal: Pair, openings: seq<Opening>, o: Opening)
    requires AllReached(goal, openings) && Reached(goal, openings, (Container(o.a), Container(o.b)))
    ensures AllReached(goal, openings + [o])
  {
    hide Reached;
    var more := openings + [o];
    forall i | 0 <= i < |more| ensures Reached(goal, more[..i], (Container(more[i].a), Container(more[i].b))) {
      assert more[..i] == openings[..i];
      assert openings[..|openings|] == openings;
    }
  }

  /** One more pair opened. */
  lemma Opens(heap: Heap, goal: Pair, compared: set<IdPair>, openings: seq<Opening>, o: Opening)
    requires Openings(heap, goal, openings) && OpensChildren(heap, o)
    requires forall i | 0 <= i < |openings| :: (openings[i].a, openings[i].b) in compared
    requires (o.a, o.b) !in compared && Reached(goal, openings, (Container(o.a), Container(o.b)))
    ensures Openings(heap, goal, openings + [o])
    ensures OpeningsCost(heap, openings + [o])
            == OpeningsCost(heap, openings) + 1 + Size(heap[o.a]) + TextIn(o.children)
    ensures OpeningsBase(heap, openings + [o]) == OpeningsBase(heap, openings) + 1 + Size(heap[o.a])
  {
    assert (openings + [o])[..|openings|] == openings;
    AllReachedMore(goal, openings, o);
  }

  /** Two containers found to differ at once. */
  function Bare(a: Id, b: Id): Opening {
    Opening(a, b, [])
  }

  /** What an opening charges is covered, whether or not it puts anything up. */
  lemma ChargePair(
    heap: Heap, goal: Pair, compared: set<IdPair>, work: seq<Pair>, a: Id, b: Id, openings: seq<Opening>,
    charged: nat)
    requires Charged(heap, goal, compared, work + [(Container(a), Container(b))], openings, charged)
    requires a in heap && b in heap && (a, b) !in compared
    ensures Covered(heap, goal, openings + [Bare(a, b)], charged + 1 + Size(heap[a]))
  {
    var pair := (Container(a), Container(b));
    assert pair in work + [pair];
    Opens(heap, goal, compared, openings, Bare(a, b));
  }

  lemma ChargeChildren(
    heap: Heap, goal: Pair, compared: set<IdPair>, work: seq<Pair>, a: Id, b: Id, openings: seq<Opening>,
    charged: nat, children: seq<Pair>)
    requires Charged(heap, goal, compared, work + [(Container(a), Container(b))], openings, charged)
    requires a in heap && b in heap && (a, b) !in compared && SameShape(heap[a], heap[b])
    requires |children| == Size(heap[a]) && forall p :: p in children <==> ChildPair(heap[a], heap[b], p)
    ensures Charged(heap, goal, compared + {(a, b)}, work + children, openings + [Opening(a, b, children)],
                    charged + 1 + Size(heap[a]))
  {
    hide ChildPair, SameShape, Reached, IsOpened, AllOpenChildren, AllReached, NoneTwice, ComparedAreOpened,
         ReachedAreOpened, AllOpenAll;
    var pair, o := (Container(a), Container(b)), Opening(a, b, children);
    assert pair in work + [pair] && (work + [pair])[..|work|] == work;
    Opens(heap, goal, compared, openings, o);
    TextInBoth(work, children);
    ReachesMore(heap, goal, openings, o, work, children);
    OpenedMore(heap, goal, compared, openings, o, work, children);
  }

  lemma OpenedMore(
    heap: Heap, goal: Pair, compared: set<IdPair>, openings: seq<Opening>, o: Opening, work: seq<Pair>,
    children: seq<Pair>)
    requires o.children == children && OpensAll(heap, o)
    requires ComparedAreOpened(compared, openings) && AllOpenAll(heap, openings)
    requires ReachedAreOpened(goal, openings, work + [(Container(o.a), Container(o.b))])
    ensures ComparedAreOpened(compared + {(o.a, o.b)}, openings + [o])
    ensures AllOpenAll(heap, openings + [o]) && ReachedAreOpened(goal, openings + [o], work + children)
  {
    hide Reached, IsOpened, OpensAll;
    ReachesMore(heap, goal, openings, o, work, children);
    OpensMore(openings, o);
  }

  /** What is reached after one more opening. */
  lemma ReachesMore(
    heap: Heap, goal: Pair, openings: seq<Opening>, o: Opening, work: seq<Pair>, children: seq<Pair>)
    requires o.children == children
    ensures forall p :: Reached(goal, openings + [o], p) <==> Reached(goal, openings, p) || p in children
  {
    var more := openings + [o];
    assert more[|openings|] == o;
    forall p ensures Reached(goal, more, p) <==> Reached(goal, openings, p) || p in children {
      if Reached(goal, openings, p) {
        ReachedStill(goal, openings, o, p);
      }
      if Reached(goal, more, p) && p != goal {
        var i :| 0 <= i < |more| && p in more[i].children;
        assert i < |openings| ==> more[i] == openings[i];
      }
    }
  }

  lemma OpensMore(openings: seq<Opening>, o: Opening)
    ensures forall p | IsOpened(openings, p) :: IsOpened(openings + [o], p)
    ensures IsOpened(openings + [o], (Container(o.a), Container(o.b)))
  {
    var more := openings + [o];
    assert more[|openings|] == o;
    forall p | IsOpened(openings, p) ensures IsOpened(more, p) {
      if p.0.Container? && p.1.Container? {
        var i :| 0 <= i < |openings| && openings[i].a == p.0.id && openings[i].b == p.1.id;
        assert more[i] == openings[i];
      }
    }
  }

  /** Whether `p` needs no further look: equal scalars, or containers already compared. */
  predicate Settled(compared: set<IdPair>, p: Pair) {
    match p
    case (Scalar(a), Scalar(b)) => a == b
    case (Container(a), Container(b)) => (a, b) in compared
    case _ => false
  }

  /** Every compared pair has one shape, and its children are settled or still to be compared. */
  ghost predicate Consistent(heap: Heap, compared: set<IdPair>, work: seq<Pair>) {
    forall pair | pair in compared ::
      && pair.0 in heap && pair.1 in heap && SameShape(heap[pair.0], heap[pair.1])
      && forall p | ChildPair(heap[pair.0], heap[pair.1], p) :: Settled(compared, p) || p in work
  }

  ghost predicate SameTree(heap: Heap, rank: map<Id, nat>, p: Pair)
    requires Acyclic(heap, rank)
  {
    Holds(heap, rank, p.0) && Holds(heap, rank, p.1) && Unfold(heap, rank, p.0) == Unfold(heap, rank, p.1)
  }

  /** Equal trees have equal children. */
  lemma ChildrenOfEqual(heap: Heap, rank: map<Id, nat>, a: Id, b: Id)
    requires Acyclic(heap, rank) && a in heap && b in heap
    requires SameTree(heap, rank, (Container(a), Container(b)))
    ensures SameShape(heap[a], heap[b])
    ensures forall p | ChildPair(heap[a], heap[b], p) :: SameTree(heap, rank, p)
  {
    var left, right := Unfold(heap, rank, Container(a)), Unfold(heap, rank, Container(b));
    match (heap[a], heap[b]) {
      case (ArrayCell(x), ArrayCell(y)) =>
        assert |left.elements| == |right.elements|;
        forall i | 0 <= i < |x| ensures SameTree(heap, rank, (x[i], y[i])) {
          ChildHolds(heap, rank, a, x[i]);
          ChildHolds(heap, rank, b, y[i]);
          assert left.elements[i] == right.elements[i];
        }
      case (ObjectCell(x), ObjectCell(y)) =>
        assert left.members.Keys == x.Keys && right.members.Keys == y.Keys;
        forall name | name in x ensures SameTree(heap, rank, (x[name], y[name])) {
          ChildHolds(heap, rank, a, x[name]);
          ChildHolds(heap, rank, b, y[name]);
          assert left.members[name] == right.members[name];
        }
      case _ =>
    }
  }

  /** With nothing left to compare, every compared pair holds the same tree. */
  lemma {:induction false} SettledIsSame(heap: Heap, rank: map<Id, nat>, compared: set<IdPair>, p: Pair)
    requires Acyclic(heap, rank) && Consistent(heap, compared, []) && Settled(compared, p)
    requires Holds(heap, rank, p.0) && Holds(heap, rank, p.1)
    ensures SameTree(heap, rank, p)
    decreases Height(rank, p.0)
  {
    if p.0.Container? {
      var a, b := p.0.id, p.1.id;
      forall q | ChildPair(heap[a], heap[b], q) ensures SameTree(heap, rank, q) {
        ChildHolds(heap, rank, a, q.0);
        ChildHolds(heap, rank, b, q.1);
        SettledIsSame(heap, rank, compared, q);
      }
      EqualChildrenEqual(heap, rank, a, b);
    }
  }

  lemma StartComparison(heap: Heap, rank: map<Id, nat>, goal: Pair)
    requires Acyclic(heap, rank) && Holds(heap, rank, goal.0) && Holds(heap, rank, goal.1)
    ensures Underway(heap, rank, {}, [goal], goal)
    ensures Charged(heap, goal, {}, [goal], [], if goal.0.Scalar? then 1 else 0)
  {
  }

  lemma WorkDoneIsSame(heap: Heap, rank: map<Id, nat>, compared: set<IdPair>, goal: Pair)
    requires Acyclic(heap, rank) && Underway(heap, rank, compared, [], goal)
    requires Holds(heap, rank, goal.0) && Holds(heap, rank, goal.1)
    ensures SameTree(heap, rank, goal)
  {
    SettledIsSame(heap, rank, compared, goal);
  }

  lemma EqualChildrenEqual(heap: Heap, rank: map<Id, nat>, a: Id, b: Id)
    requires Acyclic(heap, rank) && a in heap && b in heap && SameShape(heap[a], heap[b])
    requires forall p | ChildPair(heap[a], heap[b], p) :: SameTree(heap, rank, p)
    ensures SameTree(heap, rank, (Container(a), Container(b)))
  {
    var left, right := Unfold(heap, rank, Container(a)), Unfold(heap, rank, Container(b));
    match heap[a] {
      case ArrayCell(x) =>
        var y := heap[b].elements;
        forall i | 0 <= i < |x| ensures left.elements[i] == right.elements[i] {
          assert ChildPair(heap[a], heap[b], (x[i], y[i]));
        }
        assert left.elements == right.elements;
      case ObjectCell(x) =>
        var y := heap[b].members;
        forall name | name in x ensures left.members[name] == right.members[name] {
          assert ChildPair(heap[a], heap[b], (x[name], y[name]));
        }
        assert left.members == right.members;
    }
  }

  /** What the worklist has established: equality of `goal` comes down to the pairs still in it. */
  ghost predicate Underway(heap: Heap, rank: map<Id, nat>, compared: set<IdPair>, work: seq<Pair>, goal: Pair)
    requires Acyclic(heap, rank)
  {
    && Consistent(heap, compared, work)
    && (Settled(compared, goal) || goal in work)
    && (forall p | p in work :: Holds(heap, rank, p.0) && Holds(heap, rank, p.1))
    && (SameTree(heap, rank, goal) ==> forall p | p in work :: SameTree(heap, rank, p))
  }

  /** A pair still to compare: if its trees differ, so do those the comparison is about. */
  lemma NextPair(heap: Heap, rank: map<Id, nat>, compared: set<IdPair>, work: seq<Pair>, pair: Pair, goal: Pair)
    requires Acyclic(heap, rank) && Underway(heap, rank, compared, work + [pair], goal)
    ensures Holds(heap, rank, pair.0) && Holds(heap, rank, pair.1)
    ensures pair.0.Container? ==> pair.0.id in heap
    ensures pair.1.Container? ==> pair.1.id in heap
    ensures SameTree(heap, rank, goal) ==> SameTree(heap, rank, pair)
    ensures pair.0.Scalar? && pair.1.Scalar? && pair.0.json == pair.1.json ==> Settled(compared, pair)
    ensures match pair
            case (Scalar(a), Scalar(b)) => SameTree(heap, rank, pair) ==> a == b
            case (Container(_), Container(_)) => true
            case _ => !SameTree(heap, rank, pair)
  {
    assert pair in work + [pair];
  }

  /** A settled pair is dropped. */
  lemma DropSettled(
    heap: Heap, rank: map<Id, nat>, compared: set<IdPair>, work: seq<Pair>, pair: Pair, goal: Pair)
    requires Acyclic(heap, rank) && Underway(heap, rank, compared, work + [pair], goal) && Settled(compared, pair)
    ensures Underway(heap, rank, compared, work, goal)
  {
    assert forall p | p in work :: p in work + [pair];
    assert forall p | p in work + [pair] :: p in work || p == pair;
  }

  /** A pair of containers of one shape gives way to the pairs of their children. */
  lemma OpenPair(
    heap: Heap, rank: map<Id, nat>, compared: set<IdPair>, work: seq<Pair>, a: Id, b: Id,
    children: seq<Pair>, goal: Pair)
    requires Acyclic(heap, rank)
    requires Underway(heap, rank, compared, work + [(Container(a), Container(b))], goal)
    requires a in heap && b in heap && SameShape(heap[a], heap[b])
    requires forall p :: p in children <==> ChildPair(heap[a], heap[b], p)
    ensures Underway(heap, rank, compared + {(a, b)}, work + children, goal)
  {
    var pair := (Container(a), Container(b));
    var before, more := work + [pair], compared + {(a, b)};
    assert pair in before;
    ChildPairsHold(heap, rank, a, b);
    assert forall p | p in before :: p in work || p == pair;
    assert forall p | Settled(compared, p) || p == pair :: Settled(more, p);
    forall c | c in more
      ensures c.0 in heap && c.1 in heap && SameShape(heap[c.0], heap[c.1])
      ensures forall p | ChildPair(heap[c.0], heap[c.1], p) :: Settled(more, p) || p in work + children
    {
      if c != (a, b) {
        assert c in compared;
      }
    }
    forall p | p in work + children
      ensures Holds(heap, rank, p.0) && Holds(heap, rank, p.1)
      ensures SameTree(heap, rank, goal) ==> SameTree(heap, rank, p)
    {
      if p in work { assert p in before; }
    }
  }

  /** Charge for two containers and put the pairs of their children up for comparison, once. */
  method OpenContainers(
    heap: Heap, a: Id, b: Id, compared: set<IdPair>, work: seq<Pair>, spent: Walked,
    ghost rank: map<Id, nat>, ghost openings: seq<Opening>, ghost goal: Pair, ghost charged: nat)
    returns (verdict: Verdict, grown: set<IdPair>, left: seq<Pair>, total: Walked, ghost more: seq<Opening>,
             ghost cost: nat)
    requires Acyclic(heap, rank) && a in heap && b in heap && !Over(spent)
    requires Underway(heap, rank, compared, work + [(Container(a), Container(b))], goal)
    requires Charged(heap, goal, compared, work + [(Container(a), Container(b))], openings, charged)
    ensures verdict.Different? ==> !SameTree(heap, rank, (Container(a), Container(b)))
    ensures verdict.Exhausted? <==> Over(total)
    ensures total == Spend(spent, cost) && Covered(heap, goal, more, charged + cost)
    ensures verdict.Equal? ==> Underway(heap, rank, grown, left, goal)
    ensures verdict.Equal? ==> Charged(heap, goal, grown, left, more, charged + cost)
    ensures verdict.Equal? ==>
              || (grown == compared && left == work)
              || ((a, b) !in compared && grown == compared + {(a, b)})
  {
    hide Charged, Covered, Openings, Underway, Acyclic, SameTree, CarriedThrough;
    ghost var pair := (Container(a), Container(b));
    verdict, grown, left, total, more, cost := Equal, compared, work, spent, openings, 0;
    ChargedIsCovered(heap, goal, compared, work + [pair], openings, charged);
    if heap[a].ArrayCell? != heap[b].ArrayCell? {
      KindsDiffer(heap, rank, a, b);
      verdict := Different;
    } else if (a, b) in compared {
      DropSettled(heap, rank, compared, work, pair, goal);
      ComparedIsOpened(heap, goal, compared, work + [pair], openings, charged, pair);
      ChargeScalars(heap, goal, compared, work, pair, openings, charged);
    } else {
      ChargePair(heap, goal, compared, work, a, b, openings, charged);
      cost := 1 + Size(heap[a]);
      total, more := Spend(spent, 1 + Size(heap[a])), openings + [Bare(a, b)];
      if Over(total) {
        verdict := Exhausted;
      } else if !SameShape(heap[a], heap[b]) {
        ShapesDiffer(heap, rank, a, b);
        verdict := Different;
      } else {
        var children := ChildPairs(heap[a], heap[b]);
        OpenPair(heap, rank, compared, work, a, b, children, goal);
        ChargeChildren(heap, goal, compared, work, a, b, openings, charged, children);
        grown, left := compared + {(a, b)}, work + children;
        more := openings + [Opening(a, b, children)];
        ChargedIsCovered(heap, goal, grown, left, more, charged + cost);
      }
    }
  }

  /** Charge for two scalars and compare them. */
  method CompareScalars(
    a: Json, b: Json, spent: Walked, ghost heap: Heap, ghost rank: map<Id, nat>, ghost goal: Pair,
    ghost compared: set<IdPair>, ghost work: seq<Pair>, ghost openings: seq<Opening>, ghost charged: nat)
    returns (verdict: Verdict, total: Walked, ghost cost: nat)
    requires Acyclic(heap, rank) && !Over(spent) && IsScalar(a) && IsScalar(b)
    requires Underway(heap, rank, compared, work + [(Scalar(a), Scalar(b))], goal)
    requires Charged(heap, goal, compared, work + [(Scalar(a), Scalar(b))], openings, charged)
    ensures verdict.Different? ==> a != b
    ensures verdict.Exhausted? <==> Over(total)
    ensures total == Spend(spent, cost) && Covered(heap, goal, openings, charged + cost)
    ensures verdict.Equal? ==> Underway(heap, rank, compared, work, goal)
    ensures verdict.Equal? ==> Charged(heap, goal, compared, work, openings, charged + cost)
  {
    ghost var pair := (Scalar(a), Scalar(b));
    ChargedIsCovered(heap, goal, compared, work + [pair], openings, charged);
    hide Charged, Covered, Openings, Underway, Acyclic, SameTree, CarriedThrough;
    assert IsOpened(openings, pair);
    ChargeScalars(heap, goal, compared, work, pair, openings, charged);
    ChargedIsCovered(heap, goal, compared, work, openings, charged + Blocks(a) + Blocks(b));
    verdict, total, cost := Different, spent, 0;
    if SameKind(a, b) {
      cost := Blocks(a) + Blocks(b);
      total := Spend(spent, Blocks(a) + Blocks(b));
      verdict := if Over(total) then Exhausted else if a != b then Different else Equal;
      if verdict.Equal? { DropSettled(heap, rank, compared, work, pair, goal); }
    }
  }

  /**
   JSON equality of two values held in one heap, iterative and at most once per pair of containers.  It is exact;
   or the budget is spent, on nothing but pairs the comparison reaches, each opened once.  A comparison that finds the
   values equal has opened, and charged for, every pair it reaches.
   */
  method JsonEqual(heap: Heap, left: Value, right: Value, spent: Walked, ghost rank: map<Id, nat>)
    returns (verdict: Verdict, total: Walked, ghost openings: seq<Opening>, ghost charged: nat)
    requires Acyclic(heap, rank) && Holds(heap, rank, left) && Holds(heap, rank, right) && !Over(spent)
    ensures verdict.Equal? ==> Unfold(heap, rank, left) == Unfold(heap, rank, right)
    ensures verdict.Different? ==> Unfold(heap, rank, left) != Unfold(heap, rank, right)
    ensures verdict.Exhausted? <==> MAX_EQUALITY_STEPS < total.run || MAX_CALL_VALUES < total.call
    ensures total == Spend(spent, charged) && Covered(heap, (left, right), openings, charged)
    ensures verdict.Equal? ==> CarriedThrough(heap, (left, right), openings, charged)
  {
    hide Charged, Covered, Underway, Acyclic, SameTree, Unfold, CarriedThrough;
    ghost var goal, all := (left, right), set a, b | a in heap && b in heap :: (a, b);
    var work := [(left, right)];
    var compared: set<IdPair> := {};
    charged := if left.Scalar? then 1 else 0;
    total := if left.Scalar? then Spend(spent, 1) else spent;
    openings := [];
    StartComparison(heap, rank, goal);
    ChargedIsCovered(heap, goal, compared, work, openings, charged);
    verdict := if Over(total) then Exhausted else Equal;
    while verdict.Equal? && work != []
      invariant verdict.Exhausted? <==> Over(total)
      invariant total == Spend(spent, charged) && Covered(heap, goal, openings, charged)
      invariant verdict.Equal? ==> Underway(heap, rank, compared, work, goal)
      invariant verdict.Equal? ==> Charged(heap, goal, compared, work, openings, charged)
      invariant verdict.Different? ==> !SameTree(heap, rank, goal)
      decreases verdict.Equal?, all - compared, |work|
    {
      var pair := work[|work| - 1];
      assert work == work[..|work| - 1] + [pair];
      work := work[..|work| - 1];
      NextPair(heap, rank, compared, work, pair, goal);
      ghost var cost := 0;
      if pair.0.Container? && pair.1.Container? {
        assert (pair.0.id, pair.1.id) in all;
        verdict, compared, work, total, openings, cost :=
          OpenContainers(heap, pair.0.id, pair.1.id, compared, work, total, rank, openings, goal, charged);
      } else if pair.0.Scalar? && pair.1.Scalar? {
        verdict, total, cost := CompareScalars(pair.0.json, pair.1.json, total, heap, rank, goal, compared, work,
                                               openings, charged);
      } else {
        verdict := Different;
      }
      charged := charged + cost;
    }
    JudgedSame(heap, rank, compared, goal, verdict);
    if verdict.Equal? {
      ChargedIsCovered(heap, goal, compared, [], openings, charged);
    }
  }

  lemma JudgedSame(heap: Heap, rank: map<Id, nat>, compared: set<IdPair>, goal: Pair, verdict: Verdict)
    requires Acyclic(heap, rank) && Holds(heap, rank, goal.0) && Holds(heap, rank, goal.1)
    requires verdict.Equal? ==> Underway(heap, rank, compared, [], goal)
    requires verdict.Different? ==> !SameTree(heap, rank, goal)
    ensures verdict.Equal? ==> Unfold(heap, rank, goal.0) == Unfold(heap, rank, goal.1)
    ensures verdict.Different? ==> Unfold(heap, rank, goal.0) != Unfold(heap, rank, goal.1)
  {
    if verdict.Equal? { WorkDoneIsSame(heap, rank, compared, goal); }
  }

  lemma ChildPairsHold(heap: Heap, rank: map<Id, nat>, a: Id, b: Id)
    requires Acyclic(heap, rank) && a in heap && b in heap && SameShape(heap[a], heap[b])
    ensures forall p | ChildPair(heap[a], heap[b], p) :: Holds(heap, rank, p.0) && Holds(heap, rank, p.1)
    ensures SameTree(heap, rank, (Container(a), Container(b))) ==>
              forall p | ChildPair(heap[a], heap[b], p) :: SameTree(heap, rank, p)
  {
    forall p | ChildPair(heap[a], heap[b], p) ensures Holds(heap, rank, p.0) && Holds(heap, rank, p.1) {
      ChildHolds(heap, rank, a, p.0);
      ChildHolds(heap, rank, b, p.1);
    }
    if SameTree(heap, rank, (Container(a), Container(b))) {
      ChildrenOfEqual(heap, rank, a, b);
    }
  }

  lemma ShapesDiffer(heap: Heap, rank: map<Id, nat>, a: Id, b: Id)
    requires Acyclic(heap, rank) && a in heap && b in heap && !SameShape(heap[a], heap[b])
    ensures !SameTree(heap, rank, (Container(a), Container(b)))
  {
    if SameTree(heap, rank, (Container(a), Container(b))) {
      ChildrenOfEqual(heap, rank, a, b);
    }
  }

  lemma KindsDiffer(heap: Heap, rank: map<Id, nat>, a: Id, b: Id)
    requires Acyclic(heap, rank) && a in heap && b in heap && heap[a].ArrayCell? != heap[b].ArrayCell?
    ensures !SameTree(heap, rank, (Container(a), Container(b)))
  {
  }
}

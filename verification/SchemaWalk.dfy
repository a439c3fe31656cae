/**
 The comparisons one comparison of two schemas leads to: how many there can be, and whether each of them can be
 made.  Nothing here is remembered: the comparison does at most this much.
 */
module SchemaWalk {
  import opened Options
  import opened JsonSchema
  import opened SchemaWidening

  const MAX_COMPARE_DEPTH: nat := 200

  /** Two references being compared, in one direction: the reverse comparison is another question. */
  datatype RefPair = RefPair(before: string, after: string, reversed: bool)

  datatype Question = Question(reversed: bool, before: Schema, after: Schema)

  /** What a question about two nodes asks in turn. */
  datatype Slot =
    | Siblings
    | Branch(index: nat, backward: bool)
    | Trial(index: nat, candidate: nat)
    | Listed(name: string)
    | Unlisted(name: string)
    | Others
    | Items
    | Place(index: nat)

  predicate Nodes(q: Question) {
    q.before.Node? && q.after.Node?
  }

  predicate AboutUnions(q: Question) {
    HasUnion(q.before) || HasUnion(q.after)
  }

  function SiblingSlots(q: Question): set<Slot> {
    if HasUnion(q.after) then {Siblings} else {}
  }

  function BranchSlots(q: Question): set<Slot>
    requires Nodes(q)
  {
    if |q.before.oneOf| != |q.after.oneOf| then {}
    else set i: nat, backward: bool | 0 <= i < |q.before.oneOf| :: Branch(i, backward)
  }

  function TrialSlots(q: Question): set<Slot>
    requires Nodes(q)
  {
    if q.before.anyOf == [] && q.after.anyOf == [] then {}
    else
      set i: nat, k: nat | 0 <= i < |Alternatives(q.before)| && 0 <= k < |Alternatives(q.after)| :: Trial(i, k)
  }

  function ListedSlots(q: Question): set<Slot>
    requires Nodes(q)
  {
    set name | name in q.before.properties && name in q.after.properties :: Listed(name)
  }

  function UnlistedSlots(q: Question): set<Slot>
    requires Nodes(q)
  {
    if q.before.additional == CLOSED then {}
    else set name | name in q.after.properties && name !in q.before.properties :: Unlisted(name)
  }

  function OtherSlots(q: Question): set<Slot>
    requires Nodes(q)
  {
    if q.before.additional != CLOSED && q.after.additional.Some? && !q.after.additional.value.Truth? then {Others}
    else {}
  }

  function MemberSlots(q: Question): set<Slot>
    requires Nodes(q)
  {
    ListedSlots(q) + UnlistedSlots(q) + OtherSlots(q)
  }

  function ItemSlots(q: Question): set<Slot>
    requires Nodes(q)
  {
    if q.before.items.Some? && q.after.items.Some? then {Items} else {}
  }

  /** Positions of an array from `low` up to `high`. */
  function PlaceSlots(low: nat, high: nat): set<Slot> {
    set i: nat | low <= i < high :: Place(i)
  }

  function ElementSlots(q: Question): set<Slot>
    requires Nodes(q)
  {
    ItemSlots(q) + PlaceSlots(0, |q.after.prefixItems|)
  }

  function Slots(q: Question): set<Slot>
    requires Nodes(q)
  {
    if AboutUnions(q) then SiblingSlots(q) + BranchSlots(q) + TrialSlots(q)
    else
      MemberSlots(q) + ElementSlots(q)
  }

  /** The question asked at a slot. */
  function Child(q: Question, slot: Slot): Question
    requires Nodes(q) && slot in Slots(q)
  {
    match slot
    case Siblings => Question(q.reversed, WithoutUnions(q.before), WithoutUnions(q.after))
    case Branch(i, backward) =>
      if backward then Question(!q.reversed, q.after.oneOf[i], q.before.oneOf[i])
      else Question(q.reversed, q.before.oneOf[i], q.after.oneOf[i])
    case Trial(i, k) => Question(q.reversed, Alternatives(q.before)[i], Alternatives(q.after)[k])
    case Listed(name) => Question(q.reversed, q.before.properties[name], q.after.properties[name])
    case Unlisted(name) => Question(q.reversed, OldAdditional(q.before), q.after.properties[name])
    case Others => Question(q.reversed, OldAdditional(q.before), q.after.additional.value)
    case Items => Question(q.reversed, q.before.items.value, q.after.items.value)
    case Place(i) =>
      Question(q.reversed, if i < |q.before.prefixItems| then q.before.prefixItems[i] else UNCONSTRAINED,
               q.after.prefixItems[i])
  }

  // ---------------------------------------------------------------- references

  predicate BothRefs(q: Question) {
    q.before.Ref? && q.after.Ref?
  }

  function PairOf(q: Question): RefPair
    requires BothRefs(q)
  {
    RefPair(q.before.name, q.after.name, q.reversed)
  }

  /** A pair of references already being compared is assumed, not asked again. */
  predicate Repeated(active: seq<RefPair>, q: Question) {
    BothRefs(q) && PairOf(q) in active
  }

  function Stacked(active: seq<RefPair>, q: Question): seq<RefPair> {
    if BothRefs(q) then active + [PairOf(q)] else active
  }

  /** The question about what references lead to. */
  function Target(docs: Documents, q: Question): Question {
    Question(q.reversed, Follow(docs.Before(q.reversed), q.before, MAX_HOPS),
             Follow(docs.After(q.reversed), q.after, MAX_HOPS))
  }

  // ---------------------------------------------------------------- questions that cannot be followed

  /** Somewhere below, cut at references being compared, nesting or a reference cannot be followed. */
  ghost predicate Unfollowable(docs: Documents, active: seq<RefPair>, q: Question, depth: nat)
    requires depth <= MAX_COMPARE_DEPTH + 1
    decreases MAX_COMPARE_DEPTH + 1 - depth, 1
  {
    || depth > MAX_COMPARE_DEPTH
    || (!Repeated(active, q)
        && var target := Target(docs, q);
           if Nodes(target) then Blocked(docs, Stacked(active, q), target, depth)
           else !target.before.Truth? && !target.after.Truth?)
  }

  /** Some question that one about two nodes asks cannot be followed. */
  ghost predicate Blocked(docs: Documents, active: seq<RefPair>, q: Question, depth: nat)
    requires Nodes(q) && depth <= MAX_COMPARE_DEPTH
    decreases MAX_COMPARE_DEPTH + 1 - depth, 0
  {
    exists slot | slot in Slots(q) :: Unfollowable(docs, active, Child(q, slot), depth + 1)
  }

  // ---------------------------------------------------------------- how many comparisons there can be

  ghost function Pick(slots: set<Slot>): (slot: Slot)
    requires slots != {}
    ensures slot in slots
  {
    var slot :| slot in slots;
    slot
  }

  /** The sum of some costs. */
  ghost function Sum(costs: map<Slot, nat>, slots: set<Slot>): nat
    requires slots <= costs.Keys
  {
    if slots == {} then 0 else costs[Pick(slots)] + Sum(costs, slots - {Pick(slots)})
  }

  lemma {:induction false} SumOneMore(costs: map<Slot, nat>, slots: set<Slot>, one: Slot)
    requires slots <= costs.Keys && one in costs && one !in slots
    ensures Sum(costs, slots + {one}) == Sum(costs, slots) + costs[one]
    decreases |slots|
  {
    var all := slots + {one};
    var slot := Pick(all);
    if slot == one {
      assert all - {slot} == slots;
    } else {
      var rest := slots - {slot};
      assert all - {slot} == rest + {one} && rest + {slot} == slots;
      assert Sum(costs, all) == costs[slot] + Sum(costs, rest + {one});
      hide Sum;
      SumOneMore(costs, rest, one);
      SumOneMore(costs, rest, slot);
    }
  }

  lemma {:induction false} SumBoth(costs: map<Slot, nat>, some: set<Slot>, more: set<Slot>)
    requires some + more <= costs.Keys && some !! more
    ensures Sum(costs, some + more) == Sum(costs, some) + Sum(costs, more)
    decreases |more|
  {
    if more == {} {
      assert some + more == some;
    } else {
      var slot :| slot in more;
      SumBoth(costs, some, more - {slot});
      SumOneMore(costs, some + (more - {slot}), slot);
      SumOneMore(costs, more - {slot}, slot);
      assert some + (more - {slot}) + {slot} == some + more && more - {slot} + {slot} == more;
    }
  }

  /** The comparisons a question is charged for at most. */
  ghost function Walk(docs: Documents, active: seq<RefPair>, q: Question, depth: nat): nat
    requires depth <= MAX_COMPARE_DEPTH + 1
    decreases MAX_COMPARE_DEPTH + 1 - depth, 1
  {
    if depth > MAX_COMPARE_DEPTH || Repeated(active, q) || !Nodes(Target(docs, q)) then 0
    else 1 + Sum(Costs(docs, Stacked(active, q), Target(docs, q), depth), Slots(Target(docs, q)))
  }

  /** What each question asked in turn may cost: a trial is charged for itself too. */
  ghost function Costs(docs: Documents, active: seq<RefPair>, q: Question, depth: nat): (r: map<Slot, nat>)
    requires Nodes(q) && depth <= MAX_COMPARE_DEPTH
    ensures r.Keys == Slots(q)
    decreases MAX_COMPARE_DEPTH + 1 - depth, 0
  {
    map slot | slot in Slots(q) ::
      (if slot.Trial? then 1 else 0) + Walk(docs, active, Child(q, slot), depth + 1)
  }

  /** What the questions at some slots may cost together. */
  ghost function Cost(docs: Documents, active: seq<RefPair>, q: Question, depth: nat, slots: set<Slot>): nat
    requires Nodes(q) && depth <= MAX_COMPARE_DEPTH && slots <= Slots(q)
  {
    Sum(Costs(docs, active, q, depth), slots)
  }

  lemma NothingCosts(docs: Documents, active: seq<RefPair>, q: Question, depth: nat)
    requires Nodes(q) && depth <= MAX_COMPARE_DEPTH
    ensures Cost(docs, active, q, depth, {}) == 0
  {
  }

  lemma TogetherCost(
    docs: Documents, active: seq<RefPair>, q: Question, depth: nat, some: set<Slot>, more: set<Slot>)
    requires Nodes(q) && depth <= MAX_COMPARE_DEPTH && some + more <= Slots(q) && some !! more
    ensures Cost(docs, active, q, depth, some + more)
            == Cost(docs, active, q, depth, some) + Cost(docs, active, q, depth, more)
  {
    SumBoth(Costs(docs, active, q, depth), some, more);
  }

  /** One more question of a part costs no more than the whole part, and what blocks it blocks all. */
  lemma AskOne(
    docs: Documents, active: seq<RefPair>, q: Question, depth: nat, asked: set<Slot>, slot: Slot, part: set<Slot>)
    requires Nodes(q) && depth <= MAX_COMPARE_DEPTH && part <= Slots(q)
    requires asked <= part && slot in part && slot !in asked
    ensures Cost(docs, active, q, depth, asked) + Walk(docs, active, Child(q, slot), depth + 1)
            + (if slot.Trial? then 1 else 0)
            == Cost(docs, active, q, depth, asked + {slot}) <= Cost(docs, active, q, depth, part)
    ensures Unfollowable(docs, active, Child(q, slot), depth + 1) ==> Blocked(docs, active, q, depth)
  {
    hide Walk, Unfollowable;
    SumOneMore(Costs(docs, active, q, depth), asked, slot);
    PartCosts(docs, active, q, depth, asked + {slot}, part);
  }

  lemma PartCosts(
    docs: Documents, active: seq<RefPair>, q: Question, depth: nat, some: set<Slot>, part: set<Slot>)
    requires Nodes(q) && depth <= MAX_COMPARE_DEPTH && some <= part <= Slots(q)
    ensures Cost(docs, active, q, depth, some) <= Cost(docs, active, q, depth, part)
  {
    TogetherCost(docs, active, q, depth, some, part - some);
    assert some + (part - some) == part;
  }

  lemma KeywordCosts(docs: Documents, active: seq<RefPair>, q: Question, depth: nat)
    requires Nodes(q) && depth <= MAX_COMPARE_DEPTH && !AboutUnions(q)
    ensures Cost(docs, active, q, depth, MemberSlots(q)) + Cost(docs, active, q, depth, ElementSlots(q))
            == Cost(docs, active, q, depth, Slots(q))
  {
    hide Cost;
    TogetherCost(docs, active, q, depth, MemberSlots(q), ElementSlots(q));
  }

  lemma MemberCosts(docs: Documents, active: seq<RefPair>, q: Question, depth: nat)
    requires Nodes(q) && depth <= MAX_COMPARE_DEPTH && !AboutUnions(q)
    ensures MemberSlots(q) <= Slots(q)
    ensures Cost(docs, active, q, depth, ListedSlots(q)) + Cost(docs, active, q, depth, UnlistedSlots(q))
            + Cost(docs, active, q, depth, OtherSlots(q))
            == Cost(docs, active, q, depth, MemberSlots(q))
  {
    hide Cost;
    TogetherCost(docs, active, q, depth, ListedSlots(q), UnlistedSlots(q));
    TogetherCost(docs, active, q, depth, ListedSlots(q) + UnlistedSlots(q), OtherSlots(q));
  }

  lemma UnionCosts(docs: Documents, active: seq<RefPair>, q: Question, depth: nat)
    requires Nodes(q) && depth <= MAX_COMPARE_DEPTH && AboutUnions(q)
    ensures Cost(docs, active, q, depth, SiblingSlots(q)) + Cost(docs, active, q, depth, BranchSlots(q))
            + Cost(docs, active, q, depth, TrialSlots(q))
            == Cost(docs, active, q, depth, Slots(q))
  {
    hide Cost;
    TogetherCost(docs, active, q, depth, SiblingSlots(q), BranchSlots(q));
    TogetherCost(docs, active, q, depth, SiblingSlots(q) + BranchSlots(q), TrialSlots(q));
  }

  /** The positions both list, and those only the new schema does. */
  function SharedPlaces(q: Question): set<Slot>
    requires Nodes(q)
  {
    PlaceSlots(0, if |q.before.prefixItems| < |q.after.prefixItems| then |q.before.prefixItems|
                  else |q.after.prefixItems|)
  }

  function LaterPlaces(q: Question): set<Slot>
    requires Nodes(q)
  {
    PlaceSlots(|q.before.prefixItems|, |q.after.prefixItems|)
  }

  lemma ElementCosts(docs: Documents, active: seq<RefPair>, q: Question, depth: nat)
    requires Nodes(q) && depth <= MAX_COMPARE_DEPTH && !AboutUnions(q)
    ensures ElementSlots(q) <= Slots(q) && SharedPlaces(q) + LaterPlaces(q) <= ElementSlots(q)
    ensures Cost(docs, active, q, depth, ItemSlots(q)) + Cost(docs, active, q, depth, SharedPlaces(q))
            + Cost(docs, active, q, depth, LaterPlaces(q))
            == Cost(docs, active, q, depth, ElementSlots(q))
  {
    hide Cost;
    TogetherCost(docs, active, q, depth, ItemSlots(q), SharedPlaces(q));
    TogetherCost(docs, active, q, depth, ItemSlots(q) + SharedPlaces(q), LaterPlaces(q));
    assert ItemSlots(q) + SharedPlaces(q) + LaterPlaces(q) == ElementSlots(q);
  }

  /** The comparison can be carried through: nothing in it cannot be followed, and it stays within the budget. */
  ghost predicate Followable(docs: Documents, before: Schema, after: Schema, budget: nat) {
    var q := Question(false, before, after);
    !Unfollowable(docs, [], q, 0) && Walk(docs, [], q, 0) <= budget
  }

  /** No reference in `s`, and its nodes nest at most `n` deep, where a node with alternatives counts twice. */
  ghost predicate NestsWithin(s: Schema, n: int)
    decreases s, 1
  {
    match s
    case Truth(_) => n >= 0
    case Ref(_) => false
    case Node(_, _, _, _, _, _, _, _) => Below(s, n) >= 0 && PartsNest(s, Below(s, n))
  }

  /** What is left for the parts of a node. */
  ghost function Below(s: Schema, n: int): int
    requires s.Node?
  {
    if s.anyOf == [] && s.oneOf == [] then n - 1 else n - 2
  }

  ghost predicate PartsNest(s: Schema, n: int)
    requires s.Node?
    decreases s, 0
  {
    && (forall name | name in s.properties :: NestsWithin(s.properties[name], n))
    && (s.additional.Some? ==> NestsWithin(s.additional.value, n))
    && (s.items.Some? ==> NestsWithin(s.items.value, n))
    && (forall i | 0 <= i < |s.prefixItems| :: NestsWithin(s.prefixItems[i], n))
    && (forall i | 0 <= i < |s.anyOf| :: NestsWithin(s.anyOf[i], n))
    && (forall i | 0 <= i < |s.oneOf| :: NestsWithin(s.oneOf[i], n))
  }

  lemma {:induction false} NestsMore(s: Schema, m: int, n: int)
    requires NestsWithin(s, m) && m <= n
    ensures NestsWithin(s, n)
    decreases s, 1
  {
    if s.Node? {
      PartsNestMore(s, Below(s, m), Below(s, n));
    }
  }

  lemma {:induction false} PartsNestMore(s: Schema, m: int, n: int)
    requires s.Node? && PartsNest(s, m) && m <= n
    ensures PartsNest(s, n)
    decreases s, 0
  {
    hide NestsWithin;
    forall name | name in s.properties ensures NestsWithin(s.properties[name], n) {
      NestsMore(s.properties[name], m, n);
    }
    if s.additional.Some? { NestsMore(s.additional.value, m, n); }
    if s.items.Some? { NestsMore(s.items.value, m, n); }
    forall i | 0 <= i < |s.prefixItems| ensures NestsWithin(s.prefixItems[i], n) { NestsMore(s.prefixItems[i], m, n); }
    forall i | 0 <= i < |s.anyOf| ensures NestsWithin(s.anyOf[i], n) { NestsMore(s.anyOf[i], m, n); }
    forall i | 0 <= i < |s.oneOf| ensures NestsWithin(s.oneOf[i], n) { NestsMore(s.oneOf[i], m, n); }
  }

  lemma NodeNests(s: Schema, n: int)
    requires s.Node? && NestsWithin(s, n)
    ensures 0 <= Below(s, n) < n && PartsNest(s, Below(s, n)) && NestsWithin(UNCONSTRAINED, n)
    ensures NestsWithin(OldAdditional(s), n)
  {
    hide PartsNest;
    UnconstrainedNests(n);
    if s.additional.Some? {
      AdditionalNests(s, Below(s, n));
      NestsMore(s.additional.value, Below(s, n), n);
    }
  }

  lemma UnconstrainedNests(n: int)
    requires n > 0
    ensures NestsWithin(UNCONSTRAINED, n)
  {
  }

  lemma AdditionalNests(s: Schema, n: int)
    requires s.Node? && PartsNest(s, n) && s.additional.Some?
    ensures NestsWithin(s.additional.value, n)
  {
    hide NestsWithin;
  }

  lemma SiblingsNest(s: Schema, n: int)
    requires s.Node? && NestsWithin(s, n)
    ensures NestsWithin(WithoutUnions(s), Below(s, n) + 1)
  {
    assert PartsNest(WithoutUnions(s), Below(s, n)) by {
      hide NestsWithin;
      NodeNests(s, n);
    }
  }

  /** Each question asked in turn is about schemas that together nest less deep. */
  lemma ChildNestsLess(q: Question, slot: Slot, m: int, n: int) returns (x: int, y: int)
    requires Nodes(q) && slot in Slots(q) && NestsWithin(q.before, m) && NestsWithin(q.after, n)
    ensures x + y < m + n && x >= 0 && y >= 0
    ensures NestsWithin(Child(q, slot).before, x) && NestsWithin(Child(q, slot).after, y)
  {
    hide NestsWithin;
    var was, is_ := Below(q.before, m), Below(q.after, n);
    NodeNests(q.before, m);
    NodeNests(q.after, n);
    match slot
    case Siblings =>
      SiblingsNest(q.before, m);
      SiblingsNest(q.after, n);
      x, y := was + 1, is_ + 1;
    case Branch(_, backward) =>
      x, y := if backward then is_ else was, if backward then was else is_;
    case Trial(_, _) =>
      x, y := if q.before.anyOf == [] then m else was, if q.after.anyOf == [] then n else is_;
    case Unlisted(_) =>
      x, y := m, is_;
    case Others =>
      x, y := m, is_;
    case Place(i) =>
      if i < |q.before.prefixItems| { NestsMore(q.before.prefixItems[i], was, m); }
      x, y := m, is_;
    case _ =>
      x, y := was, is_;
  }

  /** Schemas without references that together nest no deeper than the limit can be followed. */
  lemma {:induction false} ShallowIsFollowable(
    docs: Documents, active: seq<RefPair>, q: Question, depth: nat, m: int, n: int)
    requires NestsWithin(q.before, m) && NestsWithin(q.after, n) && m >= 0 && n >= 0
    requires depth + m + n <= MAX_COMPARE_DEPTH
    ensures !Unfollowable(docs, active, q, depth)
    decreases m + n
  {
    var target := Target(docs, q);
    assert target == q;
    if Nodes(q) {
      forall slot | slot in Slots(q) ensures !Unfollowable(docs, active, Child(q, slot), depth + 1) {
        var x, y := ChildNestsLess(q, slot, m, n);
        ShallowIsFollowable(docs, active, Child(q, slot), depth + 1, x, y);
      }
    }
  }

  /** Two nodes without subschemas are compared in one step. */
  lemma FlatIsFollowable(docs: Documents, before: Schema, after: Schema, budget: nat)
    requires before.Node? && after.Node? && budget > 0
    requires NestsWithin(before, 1) && NestsWithin(after, 1) && after.properties == map[] && after.prefixItems == []
    requires after.additional == None && (before.items == None || after.items == None)
    ensures Followable(docs, before, after, budget)
  {
    var q := Question(false, before, after);
    ShallowIsFollowable(docs, [], q, 0, 1, 1);
    FollowNode(docs, false, before, after);
    hide Follow;
    assert Slots(q) == {};
  }
}

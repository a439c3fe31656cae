/**
 Which schemas the comparison shows wider than which: a relation on the keywords of two schemas, read in their
 documents, that looks at no identity of a node and knows nothing of memos, stacks or budgets.

 Definitions may refer to themselves, so the relation is given level by level: `Widens(n, ..)` looks `n` levels
 deep, and two schemas are related when it holds at every depth.
 */
module SchemaWidening {
  import opened Options
  import opened JsonSchema
  import opened SchemaNarrowing

  const MAX_HOPS: nat := 32

  /** The definitions of the two documents; a reversed comparison reads the new one as the old. */
  datatype Documents = Documents(old_: Definitions, new_: Definitions) {
    function Before(reversed: bool): Definitions {
      if reversed then new_ else old_
    }

    function After(reversed: bool): Definitions {
      if reversed then old_ else new_
    }
  }

  /** The schema a chain of at most `hops` references leads to (a dangling reference leads nowhere). */
  function Follow(defs: Definitions, s: Schema, hops: nat): Schema
    decreases hops
  {
    if s.Ref? && s.name in defs && hops > 0 then Follow(defs, defs[s.name], hops - 1) else s
  }

  const NO_ASSERTIONS: Assertions := Assertions(None, None, None, map[], None, None, false, {})

  /** The schema `{}`, built during the comparison. */
  const UNCONSTRAINED: Schema := Node(None, NO_ASSERTIONS, map[], None, None, [], [], [])

  const CLOSED: Option<Schema> := Some(Truth(false))

  /** What the old schema made of a member it did not list: `true` and an absent keyword accept anything. */
  function OldAdditional(s: Schema): Schema
    requires s.Node?
  {
    if s.additional.None? || s.additional.value == Truth(true) then UNCONSTRAINED else s.additional.value
  }

  predicate HasUnion(s: Schema) {
    s.Node? && (s.anyOf != [] || s.oneOf != [])
  }

  /** A copy of a node without its unions: a new dictionary, so a node with no identity of its own. */
  function WithoutUnions(s: Schema): Schema
    requires s.Node?
  {
    s.(id := None, anyOf := [], oneOf := [])
  }

  function Alternatives(s: Schema): seq<Schema>
    requires s.Node?
  {
    if s.anyOf != [] then s.anyOf else [s]
  }

  // ---------------------------------------------------------------- the relation

  /**
   `after` is no narrower than `before`, keyword by keyword, as far as `n` levels down; following references on
   both sides at once is a level.
   */
  ghost predicate Widens(n: nat, docs: Documents, reversed: bool, before: Schema, after: Schema)
    decreases n, 1
  {
    n == 0 ||
    TargetWidens(if before.Ref? && after.Ref? then n - 1 else n, docs, reversed,
                 Follow(docs.Before(reversed), before, MAX_HOPS), Follow(docs.After(reversed), after, MAX_HOPS))
  }

  /** What references lead to: the same boolean, the same dangling reference, or two nodes to be compared. */
  ghost predicate TargetWidens(n: nat, docs: Documents, reversed: bool, before: Schema, after: Schema)
    decreases n, 0
  {
    n == 0 || if before.Node? && after.Node? then NodeWidens(n - 1, docs, reversed, before, after) else before == after
  }

  ghost predicate NodeWidens(n: nat, docs: Documents, reversed: bool, before: Schema, after: Schema)
    requires before.Node? && after.Node?
    decreases n, 4
  {
    if HasUnion(before) || HasUnion(after) then UnionsWiden(n, docs, reversed, before, after)
    else
      && NoNarrower(before.assertions, after.assertions)
      && PropertiesWiden(n, docs, reversed, before, after)
      && ElementsWiden(n, docs, reversed, before, after)
  }

  /**
   Beside a new union nothing is narrowed, exactly-one alternatives are as wide as each other one by one, and each
   old alternative has a new one as wide.
   */
  ghost predicate UnionsWiden(n: nat, docs: Documents, reversed: bool, before: Schema, after: Schema)
    requires before.Node? && after.Node?
    decreases n, 3
  {
    && (HasUnion(after) ==> Widens(n, docs, reversed, WithoutUnions(before), WithoutUnions(after)))
    && (before.oneOf != [] || after.oneOf != [] ==>
          before.oneOf != [] && BranchesWiden(n, docs, reversed, before.oneOf, after.oneOf))
    && (before.anyOf != [] || after.anyOf != [] ==>
          forall i | 0 <= i < |Alternatives(before)| ::
            SomeWidens(n, docs, reversed, Alternatives(before)[i], Alternatives(after)))
  }

  ghost predicate BranchesWiden(n: nat, docs: Documents, reversed: bool, before: seq<Schema>, after: seq<Schema>)
    decreases n, 2
  {
    |before| == |after| && forall i | 0 <= i < |before| ::
      Widens(n, docs, reversed, before[i], after[i]) && Widens(n, docs, !reversed, after[i], before[i])
  }

  ghost predicate SomeWidens(n: nat, docs: Documents, reversed: bool, branch: Schema, candidates: seq<Schema>)
    decreases n, 2
  {
    exists k | 0 <= k < |candidates| :: Widens(n, docs, reversed, branch, candidates[k])
  }

  /** Listed properties stay listed and widen; what was not listed may be whatever it could be. */
  ghost predicate PropertiesWiden(n: nat, docs: Documents, reversed: bool, before: Schema, after: Schema)
    requires before.Node? && after.Node?
    decreases n, 2
  {
    && (forall name | name in before.properties ::
          name in after.properties
          && Widens(n, docs, reversed, before.properties[name], after.properties[name]))
    && (before.additional != CLOSED ==>
          forall name | name in after.properties && name !in before.properties ::
            Widens(n, docs, reversed, OldAdditional(before), after.properties[name]))
    && (before.additional != CLOSED && after.additional.Some? && after.additional.value != Truth(true) ==>
          after.additional != CLOSED && Widens(n, docs, reversed, OldAdditional(before), after.additional.value))
  }

  ghost predicate ElementsWiden(n: nat, docs: Documents, reversed: bool, before: Schema, after: Schema)
    requires before.Node? && after.Node?
    decreases n, 2
  {
    && (after.items.Some? ==>
          before.items.Some? && Widens(n, docs, reversed, before.items.value, after.items.value))
    && |before.prefixItems| <= |after.prefixItems|
    && (forall i | 0 <= i < |before.prefixItems| ::
          Widens(n, docs, reversed, before.prefixItems[i], after.prefixItems[i]))
    && (forall i | |before.prefixItems| <= i < |after.prefixItems| ::
          Widens(n, docs, reversed, UNCONSTRAINED, after.prefixItems[i]))
  }

  /** `after` is no narrower than `before`, at every depth. */
  ghost predicate Related(docs: Documents, reversed: bool, before: Schema, after: Schema) {
    forall n: nat :: Widens(n, docs, reversed, before, after)
  }

  // ---------------------------------------------------------------- fewer levels ask less

  /** Whatever widens `n` levels down widens `m` levels down. */
  ghost predicate AsksLess(m: nat, n: nat, docs: Documents) {
    forall reversed, before, after ::
      Widens(n, docs, reversed, before, after) ==> Widens(m, docs, reversed, before, after)
  }

  lemma NodeAsksLess(m: nat, n: nat, docs: Documents, reversed: bool, before: Schema, after: Schema)
    requires AsksLess(m, n, docs) && before.Node? && after.Node? && NodeWidens(n, docs, reversed, before, after)
    ensures NodeWidens(m, docs, reversed, before, after)
  {
    hide Widens, NoNarrower, AsksLess, UnionsWiden, PropertiesWiden, ElementsWiden;
    if HasUnion(before) || HasUnion(after) {
      UnionsAskLess(m, n, docs, reversed, before, after);
    } else {
      PartsAskLess(m, n, docs, reversed, before, after);
    }
  }

  lemma PartsAskLess(m: nat, n: nat, docs: Documents, reversed: bool, before: Schema, after: Schema)
    requires AsksLess(m, n, docs) && before.Node? && after.Node?
    ensures PropertiesWiden(n, docs, reversed, before, after) ==> PropertiesWiden(m, docs, reversed, before, after)
    ensures ElementsWiden(n, docs, reversed, before, after) ==> ElementsWiden(m, docs, reversed, before, after)
  {
    hide Widens;
  }

  lemma UnionsAskLess(m: nat, n: nat, docs: Documents, reversed: bool, before: Schema, after: Schema)
    requires AsksLess(m, n, docs) && before.Node? && after.Node? && UnionsWiden(n, docs, reversed, before, after)
    ensures UnionsWiden(m, docs, reversed, before, after)
  {
    hide Widens;
    if before.oneOf != [] || after.oneOf != [] {
      assert BranchesWiden(m, docs, reversed, before.oneOf, after.oneOf);
    }
    if before.anyOf != [] || after.anyOf != [] {
      forall i | 0 <= i < |Alternatives(before)|
        ensures SomeWidens(m, docs, reversed, Alternatives(before)[i], Alternatives(after))
      {
        SomeAsksLess(m, n, docs, reversed, Alternatives(before)[i], Alternatives(after));
      }
    }
  }

  lemma SomeAsksLess(m: nat, n: nat, docs: Documents, reversed: bool, branch: Schema, candidates: seq<Schema>)
    requires AsksLess(m, n, docs) && SomeWidens(n, docs, reversed, branch, candidates)
    ensures SomeWidens(m, docs, reversed, branch, candidates)
  {
    hide Widens;
    var k :| 0 <= k < |candidates| && Widens(n, docs, reversed, branch, candidates[k]);
    assert Widens(m, docs, reversed, branch, candidates[k]);
  }

  lemma {:induction false} FewerLevels(m: nat, n: nat, docs: Documents, reversed: bool, before: Schema, after: Schema)
    requires m <= n && Widens(n, docs, reversed, before, after)
    ensures Widens(m, docs, reversed, before, after)
    decreases m
  {
    if m > 0 {
      var lost := if before.Ref? && after.Ref? then 1 else 0;
      var b, a := Follow(docs.Before(reversed), before, MAX_HOPS), Follow(docs.After(reversed), after, MAX_HOPS);
      if m - lost > 0 && b.Node? && a.Node? {
        var fewer, more := m - lost - 1, n - lost - 1;
        forall r, s, t | Widens(more, docs, r, s, t) ensures Widens(fewer, docs, r, s, t) {
          FewerLevels(fewer, more, docs, r, s, t);
        }
        assert AsksLess(fewer, more, docs);
        NodeAsksLess(fewer, more, docs, reversed, b, a);
      }
    }
  }

  // ---------------------------------------------------------------- what is related is related keyword by keyword

  /** References are related as their targets are. */
  lemma TargetsRelated(docs: Documents, reversed: bool, before: Schema, after: Schema)
    requires Related(docs, reversed, before, after)
    ensures var b, a := Follow(docs.Before(reversed), before, MAX_HOPS), Follow(docs.After(reversed), after, MAX_HOPS);
            if b.Node? && a.Node? then Related(docs, reversed, b, a) else b == a
  {
    var b, a := Follow(docs.Before(reversed), before, MAX_HOPS), Follow(docs.After(reversed), after, MAX_HOPS);
    hide NodeWidens, Follow;
    assert Widens(2, docs, reversed, before, after);
    if b.Node? && a.Node? {
      forall n: nat ensures Widens(n, docs, reversed, b, a) {
        assert Widens(n + 1, docs, reversed, before, after);
        FollowNode(docs, reversed, b, a);
        if n > 0 {
          FewerLevels(n, n + 1, docs, reversed, before, after);
        }
      }
    }
  }

  lemma FollowNode(docs: Documents, reversed: bool, before: Schema, after: Schema)
    requires before.Node? && after.Node?
    ensures Follow(docs.Before(reversed), before, MAX_HOPS) == before
    ensures Follow(docs.After(reversed), after, MAX_HOPS) == after
  {
  }

  lemma NodesRelated(docs: Documents, reversed: bool, before: Schema, after: Schema, n: nat)
    requires before.Node? && after.Node? && Related(docs, reversed, before, after)
    ensures NodeWidens(n, docs, reversed, before, after)
  {
    hide NodeWidens, Follow;
    FollowNode(docs, reversed, before, after);
    assert Widens(n + 1, docs, reversed, before, after);
    assert TargetWidens(n + 1, docs, reversed, before, after);
  }

  lemma ConstraintsRelated(docs: Documents, reversed: bool, before: Schema, after: Schema)
    requires before.Node? && after.Node? && Related(docs, reversed, before, after)
    requires !HasUnion(before) && !HasUnion(after)
    ensures AssertionsKept(before.assertions, after.assertions)
    ensures after.assertions.required <= before.assertions.required
  {
    hide Related, NoNarrower, AssertionsKept, PropertiesWiden, ElementsWiden;
    NodesRelated(docs, reversed, before, after, 0);
    KeptMeansNoNarrower(before.assertions, after.assertions);
  }

  lemma PropertiesRelated(docs: Documents, reversed: bool, before: Schema, after: Schema, n: nat)
    requires before.Node? && after.Node? && Related(docs, reversed, before, after)
    requires !HasUnion(before) && !HasUnion(after)
    ensures PropertiesWiden(n, docs, reversed, before, after)
  {
    hide Related, NoNarrower, PropertiesWiden, ElementsWiden;
    NodesRelated(docs, reversed, before, after, n);
  }

  lemma ElementsRelated(docs: Documents, reversed: bool, before: Schema, after: Schema, n: nat)
    requires before.Node? && after.Node? && Related(docs, reversed, before, after)
    requires !HasUnion(before) && !HasUnion(after)
    ensures ElementsWiden(n, docs, reversed, before, after)
  {
    hide Related, NoNarrower, PropertiesWiden, ElementsWiden;
    NodesRelated(docs, reversed, before, after, n);
  }

  lemma ListedRelated(docs: Documents, reversed: bool, before: Schema, after: Schema, name: string)
    requires before.Node? && after.Node? && Related(docs, reversed, before, after)
    requires !HasUnion(before) && !HasUnion(after) && name in before.properties
    ensures name in after.properties && Related(docs, reversed, before.properties[name], after.properties[name])
  {
    hide Widens, HasUnion;
    PropertiesRelated(docs, reversed, before, after, 0);
    forall n: nat ensures Widens(n, docs, reversed, before.properties[name], after.properties[name]) {
      PropertiesRelated(docs, reversed, before, after, n);
    }
  }

  lemma UnlistedRelated(docs: Documents, reversed: bool, before: Schema, after: Schema, name: string)
    requires before.Node? && after.Node? && Related(docs, reversed, before, after)
    requires !HasUnion(before) && !HasUnion(after) && before.additional != CLOSED
    requires name in after.properties && name !in before.properties
    ensures Related(docs, reversed, OldAdditional(before), after.properties[name])
  {
    hide Widens, HasUnion;
    forall n: nat ensures Widens(n, docs, reversed, OldAdditional(before), after.properties[name]) {
      PropertiesRelated(docs, reversed, before, after, n);
    }
  }

  lemma AdditionalRelated(docs: Documents, reversed: bool, before: Schema, after: Schema)
    requires before.Node? && after.Node? && Related(docs, reversed, before, after)
    requires !HasUnion(before) && !HasUnion(after) && before.additional != CLOSED
    requires after.additional.Some? && after.additional.value != Truth(true)
    ensures after.additional != CLOSED && Related(docs, reversed, OldAdditional(before), after.additional.value)
  {
    hide Widens, HasUnion;
    PropertiesRelated(docs, reversed, before, after, 0);
    forall n: nat ensures Widens(n, docs, reversed, OldAdditional(before), after.additional.value) {
      PropertiesRelated(docs, reversed, before, after, n);
    }
  }

  lemma ItemsRelated(docs: Documents, reversed: bool, before: Schema, after: Schema)
    requires before.Node? && after.Node? && Related(docs, reversed, before, after)
    requires !HasUnion(before) && !HasUnion(after) && after.items.Some?
    ensures before.items.Some? && Related(docs, reversed, before.items.value, after.items.value)
  {
    hide Widens, HasUnion;
    ElementsRelated(docs, reversed, before, after, 0);
    forall n: nat ensures Widens(n, docs, reversed, before.items.value, after.items.value) {
      ElementsRelated(docs, reversed, before, after, n);
    }
  }

  lemma PositionRelated(docs: Documents, reversed: bool, before: Schema, after: Schema, i: nat)
    requires before.Node? && after.Node? && Related(docs, reversed, before, after)
    requires !HasUnion(before) && !HasUnion(after) && (i < |before.prefixItems| || i < |after.prefixItems|)
    ensures i < |after.prefixItems|
    ensures Related(docs, reversed, if i < |before.prefixItems| then before.prefixItems[i] else UNCONSTRAINED,
                    after.prefixItems[i])
  {
    hide Widens, HasUnion;
    ElementsRelated(docs, reversed, before, after, 0);
    var old_ := if i < |before.prefixItems| then before.prefixItems[i] else UNCONSTRAINED;
    forall n: nat ensures Widens(n, docs, reversed, old_, after.prefixItems[i]) {
      ElementsRelated(docs, reversed, before, after, n);
    }
  }

  lemma UnionsRelated(docs: Documents, reversed: bool, before: Schema, after: Schema, n: nat)
    requires before.Node? && after.Node? && Related(docs, reversed, before, after)
    requires HasUnion(before) || HasUnion(after)
    ensures UnionsWiden(n, docs, reversed, before, after)
  {
    hide Related, NoNarrower, UnionsWiden;
    NodesRelated(docs, reversed, before, after, n);
  }

  lemma SiblingsRelated(docs: Documents, reversed: bool, before: Schema, after: Schema)
    requires before.Node? && after.Node? && Related(docs, reversed, before, after) && HasUnion(after)
    ensures Related(docs, reversed, WithoutUnions(before), WithoutUnions(after))
  {
    hide Widens, HasUnion;
    forall n: nat ensures Widens(n, docs, reversed, WithoutUnions(before), WithoutUnions(after)) {
      UnionsRelated(docs, reversed, before, after, n);
    }
  }

  lemma BranchesAlign(docs: Documents, reversed: bool, before: Schema, after: Schema, n: nat)
    requires before.Node? && after.Node? && Related(docs, reversed, before, after)
    requires before.oneOf != [] || after.oneOf != []
    ensures before.oneOf != [] && BranchesWiden(n, docs, reversed, before.oneOf, after.oneOf)
  {
    hide BranchesWiden, Related;
    UnionsRelated(docs, reversed, before, after, n);
  }

  lemma BranchRelated(docs: Documents, reversed: bool, before: Schema, after: Schema, i: nat)
    requires before.Node? && after.Node? && Related(docs, reversed, before, after)
    requires (before.oneOf != [] || after.oneOf != []) && i < |before.oneOf|
    ensures |before.oneOf| == |after.oneOf|
    ensures Related(docs, reversed, before.oneOf[i], after.oneOf[i])
    ensures Related(docs, !reversed, after.oneOf[i], before.oneOf[i])
  {
    hide Widens;
    BranchesAlign(docs, reversed, before, after, 0);
    forall n: nat ensures Widens(n, docs, reversed, before.oneOf[i], after.oneOf[i]) {
      BranchesAlign(docs, reversed, before, after, n);
    }
    var back := !reversed;
    forall n: nat ensures Widens(n, docs, back, after.oneOf[i], before.oneOf[i]) {
      BranchesAlign(docs, reversed, before, after, n);
    }
  }

  ghost predicate SomeRelated(docs: Documents, reversed: bool, branch: Schema, candidates: seq<Schema>) {
    exists k | 0 <= k < |candidates| :: Related(docs, reversed, branch, candidates[k])
  }

  /** Of finitely many candidates one is as wide at every depth, if at every depth some one is. */
  lemma AlternativeRelated(docs: Documents, reversed: bool, before: Schema, after: Schema, i: nat)
    requires before.Node? && after.Node? && Related(docs, reversed, before, after)
    requires (before.anyOf != [] || after.anyOf != []) && i < |Alternatives(before)|
    ensures SomeRelated(docs, reversed, Alternatives(before)[i], Alternatives(after))
  {
    hide Widens;
    var branch, candidates := Alternatives(before)[i], Alternatives(after);
    if !SomeRelated(docs, reversed, branch, candidates) {
      var n := TooDeepForAll(docs, reversed, branch, candidates, |candidates|);
      assert !SomeWidens(n, docs, reversed, branch, candidates);
      UnionsRelated(docs, reversed, before, after, n);
      assert false;
    }
  }

  /** A depth at which none of the first candidates is as wide, if none is at every depth. */
  lemma {:induction false} TooDeepForAll(
    docs: Documents, reversed: bool, branch: Schema, candidates: seq<Schema>, count: nat) returns (n: nat)
    requires count <= |candidates| && !SomeRelated(docs, reversed, branch, candidates)
    ensures forall k | 0 <= k < count :: !Widens(n, docs, reversed, branch, candidates[k])
  {
    hide Widens;
    n := 0;
    if count > 0 {
      var m := TooDeepForAll(docs, reversed, branch, candidates, count - 1);
      assert !Related(docs, reversed, branch, candidates[count - 1]);
      var l: nat :| !Widens(l, docs, reversed, branch, candidates[count - 1]);
      n := if m < l then l else m;
      forall k | 0 <= k < count ensures !Widens(n, docs, reversed, branch, candidates[k]) {
        if Widens(n, docs, reversed, branch, candidates[k]) {
          FewerLevels(if k < count - 1 then m else l, n, docs, reversed, branch, candidates[k]);
        }
      }
    }
  }

  // ---------------------------------------------------------------- copies of one document, and the promised widenings

  /** Two schemas that say the same, whatever identities their nodes have. */
  ghost predicate Alike(s: Schema, t: Schema) {
    match s
    case Truth(_) => t == s
    case Ref(_) => t == s
    case Node(_, assertions, properties, additional, items, prefixItems, anyOf, oneOf) =>
      && t.Node? && t.assertions == assertions
      && t.properties.Keys == properties.Keys
      && (forall name | name in properties :: Alike(properties[name], t.properties[name]))
      && (additional.Some? <==> t.additional.Some?) && (additional.Some? ==> Alike(additional.value, t.additional.value))
      && (items.Some? <==> t.items.Some?) && (items.Some? ==> Alike(items.value, t.items.value))
      && |t.prefixItems| == |prefixItems| && (forall i | 0 <= i < |prefixItems| :: Alike(prefixItems[i], t.prefixItems[i]))
      && |t.anyOf| == |anyOf| && (forall i | 0 <= i < |anyOf| :: Alike(anyOf[i], t.anyOf[i]))
      && |t.oneOf| == |oneOf| && (forall i | 0 <= i < |oneOf| :: Alike(oneOf[i], t.oneOf[i]))
  }

  lemma {:induction false} AlikeItself(s: Schema)
    ensures Alike(s, s)
  {
    if s.Node? {
      forall name | name in s.properties ensures Alike(s.properties[name], s.properties[name]) {
        AlikeItself(s.properties[name]);
      }
      if s.additional.Some? { AlikeItself(s.additional.value); }
      if s.items.Some? { AlikeItself(s.items.value); }
      forall i | 0 <= i < |s.prefixItems| ensures Alike(s.prefixItems[i], s.prefixItems[i]) {
        AlikeItself(s.prefixItems[i]);
      }
      forall i | 0 <= i < |s.anyOf| ensures Alike(s.anyOf[i], s.anyOf[i]) { AlikeItself(s.anyOf[i]); }
      forall i | 0 <= i < |s.oneOf| ensures Alike(s.oneOf[i], s.oneOf[i]) { AlikeItself(s.oneOf[i]); }
    }
  }

  /** Two documents read separately from one text. */
  ghost predicate Copies(docs: Documents) {
    && docs.old_.Keys == docs.new_.Keys
    && forall name | name in docs.old_ :: Alike(docs.old_[name], docs.new_[name])
  }

  lemma SameIsCopy(docs: Documents)
    requires docs.old_ == docs.new_
    ensures Copies(docs)
  {
    forall name | name in docs.old_ ensures Alike(docs.old_[name], docs.new_[name]) {
      AlikeItself(docs.old_[name]);
    }
  }

  lemma {:induction false} AlikeFollowed(docs: Documents, s: Schema, t: Schema, hops: nat)
    requires Copies(docs) && Alike(s, t)
    ensures Alike(Follow(docs.old_, s, hops), Follow(docs.new_, t, hops))
    decreases hops
  {
    if s.Ref? && s.name in docs.old_ && hops > 0 {
      AlikeFollowed(docs, docs.old_[s.name], docs.new_[s.name], hops - 1);
    }
  }

  /** Whatever is alike widens `n` levels down, in both directions. */
  ghost predicate CopiesWiden(n: nat, docs: Documents) {
    forall s, t | Alike(s, t) :: Widens(n, docs, false, s, t) && Widens(n, docs, true, t, s)
  }

  lemma AlikeWidens(n: nat, docs: Documents, s: Schema, t: Schema)
    requires s.Node? && CopiesWiden(n, docs) && Alike(s, t)
    ensures NodeWidens(n, docs, false, s, t) && NodeWidens(n, docs, true, t, s)
  {
    hide Widens, NoNarrower;
    AssertionsKeptReflexive(s.assertions);
    KeptMeansNoNarrower(s.assertions, s.assertions);
    if HasUnion(s) {
      AlikeUnionsWiden(n, docs, s, t);
    } else {
      AlikePartsWiden(n, docs, s, t);
    }
  }

  lemma AlikePartsWiden(n: nat, docs: Documents, s: Schema, t: Schema)
    requires s.Node? && CopiesWiden(n, docs) && Alike(s, t)
    ensures PropertiesWiden(n, docs, false, s, t) && PropertiesWiden(n, docs, true, t, s)
    ensures ElementsWiden(n, docs, false, s, t) && ElementsWiden(n, docs, true, t, s)
  {
    hide Widens;
  }

  lemma AlikeUnionsWiden(n: nat, docs: Documents, s: Schema, t: Schema)
    requires s.Node? && CopiesWiden(n, docs) && Alike(s, t)
    ensures UnionsWiden(n, docs, false, s, t) && UnionsWiden(n, docs, true, t, s)
  {
    hide Widens;
    assert Alike(WithoutUnions(s), WithoutUnions(t));
    forall i | 0 <= i < |s.anyOf|
      ensures SomeWidens(n, docs, false, s.anyOf[i], t.anyOf) && SomeWidens(n, docs, true, t.anyOf[i], s.anyOf)
    {
      assert Widens(n, docs, false, s.anyOf[i], t.anyOf[i]) && Widens(n, docs, true, t.anyOf[i], s.anyOf[i]);
    }
    assert BranchesWiden(n, docs, false, s.oneOf, t.oneOf) && BranchesWiden(n, docs, true, t.oneOf, s.oneOf);
  }

  lemma {:induction false} CopiesWidenAt(n: nat, docs: Documents, s: Schema, t: Schema)
    requires Copies(docs) && Alike(s, t)
    ensures Widens(n, docs, false, s, t) && Widens(n, docs, true, t, s)
    decreases n
  {
    if n > 0 {
      hide Alike, Follow, NodeWidens;
      var b, a := Follow(docs.old_, s, MAX_HOPS), Follow(docs.new_, t, MAX_HOPS);
      AlikeFollowed(docs, s, t, MAX_HOPS);
      AlikeKinds(s, t);
      AlikeKinds(b, a);
      var m := if s.Ref? then n - 1 else n;
      if m > 0 && b.Node? {
        forall x, y | Alike(x, y) ensures Widens(m - 1, docs, false, x, y) && Widens(m - 1, docs, true, y, x) {
          CopiesWidenAt(m - 1, docs, x, y);
        }
        AlikeWidens(m - 1, docs, b, a);
      }
    }
  }

  lemma AlikeKinds(s: Schema, t: Schema)
    requires Alike(s, t)
    ensures s.Node? <==> t.Node?
    ensures !s.Node? ==> s == t
  {
  }

  /** Two copies of one document are related. */
  lemma CopiesAreRelated(docs: Documents, s: Schema, t: Schema)
    requires Copies(docs) && Alike(s, t)
    ensures Related(docs, false, s, t)
  {
    forall n: nat ensures Widens(n, docs, false, s, t) {
      CopiesWidenAt(n, docs, s, t);
    }
  }

  // ---------------------------------------------------------------- the widenings that are promised

  /** A schema that asks nothing of any value. */
  ghost predicate AsksNothing(s: Schema) {
    && s.Node? && NoNarrower(NO_ASSERTIONS, s.assertions)
    && s.properties == map[] && s.additional == None && s.items == None
    && s.prefixItems == [] && s.anyOf == [] && s.oneOf == []
  }

  /**
   `t` is `s` with constraints widened and optional properties added, at any depth: what was listed is still, what
   is newly listed allows what additional members could be, every alternative has a counterpart, and exactly-one
   alternatives are left as they were.
   */
  ghost predicate Relaxes(docs: Documents, s: Schema, t: Schema)
    decreases s, t
  {
    match s
    case Truth(_) => t == s
    case Ref(name) => t == s && name in docs.old_
    case Node(_, assertions, properties, additional, items, prefixItems, anyOf, oneOf) =>
      && t.Node? && NoNarrower(assertions, t.assertions)
      && (forall name | name in properties ::
            name in t.properties && Relaxes(docs, properties[name], t.properties[name]))
      && (forall name | name in t.properties && name !in properties ::
            || additional == Some(Truth(false))
            || ((additional == None || additional == Some(Truth(true))) && AsksNothing(t.properties[name]))
            || (additional.Some? && additional.value != Truth(true)
                && Relaxes(docs, additional.value, t.properties[name])))
      && (t.additional == None || t.additional == Some(Truth(true)) || additional == Some(Truth(false))
          || (additional.Some? && additional.value != Truth(true) && Relaxes(docs, additional.value, t.additional.value)))
      && (t.items.Some? ==> items.Some? && Relaxes(docs, items.value, t.items.value))
      && |prefixItems| <= |t.prefixItems|
      && (forall i | 0 <= i < |prefixItems| :: Relaxes(docs, prefixItems[i], t.prefixItems[i]))
      && (forall i | |prefixItems| <= i < |t.prefixItems| :: AsksNothing(t.prefixItems[i]))
      && (if anyOf == [] then
            t.anyOf == [] || (oneOf == [] && exists k | 0 <= k < |t.anyOf| :: Relaxes(docs, s, t.anyOf[k]))
          else
            t.anyOf != [] && forall i | 0 <= i < |anyOf| ::
              exists k | 0 <= k < |t.anyOf| :: Relaxes(docs, anyOf[i], t.anyOf[k]))
      && |oneOf| == |t.oneOf| && (oneOf != [] ==> Copies(docs))
      && (forall i | 0 <= i < |oneOf| :: Alike(oneOf[i], t.oneOf[i]))
  }

  /** Every definition is kept, relaxed. */
  ghost predicate DefinitionsRelaxed(docs: Documents) {
    forall name | name in docs.old_ :: name in docs.new_ && Relaxes(docs, docs.old_[name], docs.new_[name])
  }

  lemma {:induction false} RelaxedFollowed(docs: Documents, s: Schema, t: Schema, hops: nat)
    requires DefinitionsRelaxed(docs) && Relaxes(docs, s, t)
    ensures Relaxes(docs, Follow(docs.old_, s, hops), Follow(docs.new_, t, hops))
    decreases hops
  {
    if s.Ref? && hops > 0 {
      RelaxedFollowed(docs, docs.old_[s.name], docs.new_[s.name], hops - 1);
    }
  }

  lemma RelaxedKinds(docs: Documents, s: Schema, t: Schema)
    requires Relaxes(docs, s, t)
    ensures s.Node? <==> t.Node?
    ensures !s.Node? ==> s == t
  {
  }

  lemma NothingWidens(n: nat, docs: Documents, s: Schema)
    requires AsksNothing(s)
    ensures Widens(n, docs, false, UNCONSTRAINED, s)
  {
    FollowNode(docs, false, UNCONSTRAINED, s);
    if n > 0 {
      assert PropertiesWiden(n - 1, docs, false, UNCONSTRAINED, s);
      assert ElementsWiden(n - 1, docs, false, UNCONSTRAINED, s);
      assert NodeWidens(n - 1, docs, false, UNCONSTRAINED, s);
    }
  }

  /** Whatever relaxes widens `n` levels down. */
  ghost predicate RelaxedWiden(n: nat, docs: Documents) {
    forall s, t | Relaxes(docs, s, t) :: Widens(n, docs, false, s, t)
  }

  lemma RelaxedParts(n: nat, docs: Documents, s: Schema, t: Schema)
    requires s.Node? && RelaxedWiden(n, docs) && Relaxes(docs, s, t)
    ensures t.Node? && PropertiesWiden(n, docs, false, s, t) && ElementsWiden(n, docs, false, s, t)
  {
    hide Widens, NoNarrower, Alike, Copies, AsksNothing;
    forall u | AsksNothing(u) ensures Widens(n, docs, false, UNCONSTRAINED, u) {
      NothingWidens(n, docs, u);
    }
    if t.additional.Some? && s.additional.Some? {
      assert s.additional != CLOSED && t.additional.value != Truth(true) ==> t.additional != CLOSED;
    }
  }

  lemma RelaxedUnions(n: nat, docs: Documents, s: Schema, t: Schema)
    requires s.Node? && RelaxedWiden(n, docs) && Relaxes(docs, s, t) && (HasUnion(s) || HasUnion(t))
    ensures t.Node? && UnionsWiden(n, docs, false, s, t)
  {
    hide Widens, NoNarrower, Alike, Copies, AsksNothing;
    RelaxedSiblings(docs, s, t);
    if s.oneOf != [] {
      forall i | 0 <= i < |s.oneOf|
        ensures Widens(n, docs, false, s.oneOf[i], t.oneOf[i]) && Widens(n, docs, true, t.oneOf[i], s.oneOf[i])
      {
        CopiesWidenAt(n, docs, s.oneOf[i], t.oneOf[i]);
      }
      assert BranchesWiden(n, docs, false, s.oneOf, t.oneOf);
    }
    if s.anyOf != [] || t.anyOf != [] {
      forall i | 0 <= i < |Alternatives(s)|
        ensures SomeWidens(n, docs, false, Alternatives(s)[i], Alternatives(t))
      {
        var k :| 0 <= k < |t.anyOf| && Relaxes(docs, Alternatives(s)[i], t.anyOf[k]);
        assert Widens(n, docs, false, Alternatives(s)[i], Alternatives(t)[k]);
      }
    }
  }

  lemma RelaxedSiblings(docs: Documents, s: Schema, t: Schema)
    requires s.Node? && t.Node? && Relaxes(docs, s, t)
    ensures Relaxes(docs, WithoutUnions(s), WithoutUnions(t))
  {
    hide NoNarrower, Alike, Copies, AsksNothing;
  }

  lemma RelaxedNode(n: nat, docs: Documents, s: Schema, t: Schema)
    requires s.Node? && RelaxedWiden(n, docs) && Relaxes(docs, s, t)
    ensures t.Node? && NodeWidens(n, docs, false, s, t)
  {
    hide Widens, NoNarrower, Alike, Copies, AsksNothing, PropertiesWiden, ElementsWiden, UnionsWiden;
    if HasUnion(s) || HasUnion(t) {
      RelaxedUnions(n, docs, s, t);
    } else {
      RelaxedParts(n, docs, s, t);
    }
  }

  lemma {:induction false} RelaxedWidensAt(n: nat, docs: Documents, s: Schema, t: Schema)
    requires DefinitionsRelaxed(docs) && Relaxes(docs, s, t)
    ensures Widens(n, docs, false, s, t)
    decreases n
  {
    if n > 0 {
      hide Relaxes, Follow, NodeWidens;
      var b, a := Follow(docs.old_, s, MAX_HOPS), Follow(docs.new_, t, MAX_HOPS);
      RelaxedFollowed(docs, s, t, MAX_HOPS);
      RelaxedKinds(docs, s, t);
      RelaxedKinds(docs, b, a);
      var m := if s.Ref? && t.Ref? then n - 1 else n;
      if m > 0 && b.Node? {
        forall x, y | Relaxes(docs, x, y) ensures Widens(m - 1, docs, false, x, y) {
          RelaxedWidensAt(m - 1, docs, x, y);
        }
        RelaxedNode(m - 1, docs, b, a);
      }
    }
  }

  /** Adding an optional property or widening a constraint, anywhere, leaves the schemas related. */
  lemma RelaxedIsRelated(docs: Documents, s: Schema, t: Schema)
    requires DefinitionsRelaxed(docs) && Relaxes(docs, s, t)
    ensures Related(docs, false, s, t)
  {
    forall n: nat ensures Widens(n, docs, false, s, t) {
      RelaxedWidensAt(n, docs, s, t);
    }
  }

  // ---------------------------------------------------------------- where references lead

  /** Each schema is a reference to the next. */
  ghost predicate Chain(defs: Definitions, p: seq<Schema>) {
    forall i | 0 <= i < |p| - 1 :: p[i].Ref? && p[i].name in defs && p[i + 1] == defs[p[i].name]
  }

  /** References are followed to the end of their chain, or as far as 32 of them lead. */
  lemma {:induction false} FollowsChain(defs: Definitions, s: Schema, hops: nat) returns (p: seq<Schema>)
    ensures p != [] && p[0] == s && p[|p| - 1] == Follow(defs, s, hops) && Chain(defs, p)
    ensures |p| - 1 <= hops
    ensures |p| - 1 < hops && Follow(defs, s, hops).Ref? ==> Follow(defs, s, hops).name !in defs
    decreases hops
  {
    p := [s];
    if s.Ref? && s.name in defs && hops > 0 {
      var rest := FollowsChain(defs, defs[s.name], hops - 1);
      p := p + rest;
    }
  }
}

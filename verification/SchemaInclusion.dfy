/**
 What it means for one schema to include another while some references are still assumed compatible, and
 the rules by which the comparison may conclude it.

 Everything is indexed by the height of derivations: `Carries(n, ..)` says that what the old schema accepts
 by a derivation of height below `n` is valid under the new one, and that what the new one rejects by such a
 derivation is invalid under the old one, the new derivations being of any height.  An assumption about a
 recursive reference is discharged by induction on `n`.
 */
module SchemaInclusion {
  import opened Options
  import opened JsonSchema
  import opened SchemaNarrowing
  import opened SchemaWidening
  import opened SchemaWalk

  /** What `before` accepts below height `n` is valid under `after`. */
  ghost predicate StaysValid(n: nat, docs: Documents, reversed: bool, before: Schema, after: Schema) {
    forall matches, j, f: nat | f < n && Accepts(matches, docs.Before(reversed), f, before, j) ::
      Valid(matches, docs.After(reversed), after, j)
  }

  /** What `after` rejects below height `n` is invalid under `before`. */
  ghost predicate WasInvalid(n: nat, docs: Documents, reversed: bool, before: Schema, after: Schema) {
    forall matches, j, f: nat | f < n && Rejects(matches, docs.After(reversed), f, after, j) ::
      Invalid(matches, docs.Before(reversed), before, j)
  }

  /** ... and no keyword is narrower as far as `n` levels down. */
  ghost predicate Carries(n: nat, docs: Documents, reversed: bool, before: Schema, after: Schema) {
    && StaysValid(n, docs, reversed, before, after) && WasInvalid(n, docs, reversed, before, after)
    && Widens(n, docs, reversed, before, after)
  }

  /** The references at positions `from..` of the stack being compared carry below height `n`. */
  ghost predicate Assumed(n: nat, docs: Documents, active: seq<RefPair>, from: nat) {
    forall i | from <= i < |active| ::
      Carries(n, docs, active[i].reversed, Ref(active[i].before), Ref(active[i].after))
  }

  /** All that is valid before stays valid after, if the assumptions at positions `from..` hold. */
  ghost predicate Included(
    docs: Documents, active: seq<RefPair>, from: nat, reversed: bool, before: Schema, after: Schema)
  {
    forall n: nat | Assumed(n, docs, active, from) :: Carries(n, docs, reversed, before, after)
  }

  lemma FewerHeights(m: nat, n: nat, docs: Documents, reversed: bool, before: Schema, after: Schema)
    requires m <= n && Carries(n, docs, reversed, before, after)
    ensures Carries(m, docs, reversed, before, after)
  {
    hide Accepts, Rejects, Valid, Invalid, Widens;
    FewerLevels(m, n, docs, reversed, before, after);
  }

  /** Resting on more assumptions is weaker. */
  lemma Weaken(docs: Documents, active: seq<RefPair>, from: nat, to: nat)
    requires to <= from
    ensures forall reversed, before, after ::
              Included(docs, active, from, reversed, before, after) ==>
              Included(docs, active, to, reversed, before, after)
  {
    forall n: nat | Assumed(n, docs, active, to) ensures Assumed(n, docs, active, from) {
    }
  }

  // ---------------------------------------------------------------- references

  /** Following references shortens a derivation. */
  lemma {:induction false} FollowShortens(
    matches: Regex, defs: Definitions, s: Schema, hops: nat, f: nat, j: Json) returns (g: nat)
    requires Accepts(matches, defs, f, s, j) || Rejects(matches, defs, f, s, j)
    ensures g <= f && (s.Ref? && hops > 0 ==> g < f)
    ensures Accepts(matches, defs, f, s, j) ==> Accepts(matches, defs, g, Follow(defs, s, hops), j)
    ensures Rejects(matches, defs, f, s, j) ==> Rejects(matches, defs, g, Follow(defs, s, hops), j)
    decreases hops
  {
    g := f;
    if s.Ref? && hops > 0 {
      g := FollowShortens(matches, defs, defs[s.name], hops - 1, f - 1, j);
    }
  }

  /** What holds of the schema references lead to holds of the references. */
  lemma {:induction false} FollowLengthens(
    matches: Regex, defs: Definitions, s: Schema, hops: nat, f: nat, j: Json) returns (g: nat)
    ensures Accepts(matches, defs, f, Follow(defs, s, hops), j) ==> Accepts(matches, defs, g, s, j)
    ensures Rejects(matches, defs, f, Follow(defs, s, hops), j) ==> Rejects(matches, defs, g, s, j)
    decreases hops
  {
    g := f;
    if s.Ref? && s.name in defs && hops > 0 {
      g := FollowLengthens(matches, defs, defs[s.name], hops - 1, f, j);
      g := g + 1;
    }
  }

  lemma FollowedValid(matches: Regex, defs: Definitions, s: Schema, hops: nat, j: Json)
    ensures Valid(matches, defs, Follow(defs, s, hops), j) ==> Valid(matches, defs, s, j)
    ensures Invalid(matches, defs, Follow(defs, s, hops), j) ==> Invalid(matches, defs, s, j)
  {
    hide Accepts, Rejects, Follow;
    if Valid(matches, defs, Follow(defs, s, hops), j) {
      var f: nat :| Accepts(matches, defs, f, Follow(defs, s, hops), j);
      var g := FollowLengthens(matches, defs, s, hops, f, j);
      assert Accepts(matches, defs, g, s, j);
    }
    if Invalid(matches, defs, Follow(defs, s, hops), j) {
      var f: nat :| Rejects(matches, defs, f, Follow(defs, s, hops), j);
      var g := FollowLengthens(matches, defs, s, hops, f, j);
      assert Rejects(matches, defs, g, s, j);
    }
  }

  /** Targets that carry make references to them that do, one step higher when both are followed. */
  lemma FollowedWidens(n: nat, docs: Documents, reversed: bool, before: Schema, after: Schema, m: nat)
    requires var target := Target(docs, Question(reversed, before, after));
             Widens(n, docs, reversed, target.before, target.after) && !target.before.Ref? && !target.after.Ref?
    requires m <= n || (m == n + 1 && before.Ref? && after.Ref?)
    ensures Widens(m, docs, reversed, before, after)
  {
    var target := Target(docs, Question(reversed, before, after));
    var kept := if m <= n then m else n;
    FewerLevels(kept, n, docs, reversed, target.before, target.after);
    if m > 0 && before.Ref? && after.Ref? {
      FewerLevels(m - 1, n, docs, reversed, target.before, target.after);
    }
    hide NodeWidens;
  }

  lemma FollowedCarries(n: nat, docs: Documents, reversed: bool, before: Schema, after: Schema, m: nat)
    requires var target := Target(docs, Question(reversed, before, after));
             Carries(n, docs, reversed, target.before, target.after) && !target.before.Ref? && !target.after.Ref?
    requires m <= n || (m == n + 1 && before.Ref? && after.Ref?)
    ensures Carries(m, docs, reversed, before, after)
  {
    hide Accepts, Rejects, Valid, Invalid, Follow, Widens;
    FollowedWidens(n, docs, reversed, before, after, m);
    forall matches, j, f: nat | f < m && Accepts(matches, docs.Before(reversed), f, before, j)
      ensures Valid(matches, docs.After(reversed), after, j)
    {
      var g := FollowShortens(matches, docs.Before(reversed), before, MAX_HOPS, f, j);
      FollowedValid(matches, docs.After(reversed), after, MAX_HOPS, j);
    }
    forall matches, j, f: nat | f < m && Rejects(matches, docs.After(reversed), f, after, j)
      ensures Invalid(matches, docs.Before(reversed), before, j)
    {
      var g := FollowShortens(matches, docs.After(reversed), after, MAX_HOPS, f, j);
      FollowedValid(matches, docs.Before(reversed), before, MAX_HOPS, j);
    }
  }

  /** A pair of references shown compatible under an assumption about itself is compatible without it. */
  lemma {:induction false} DischargeBelow(
    n: nat, docs: Documents, active: seq<RefPair>, from: nat, q: Question, m: nat)
    requires BothRefs(q) && m <= n && Assumed(n, docs, active, from)
    requires var target := Target(docs, q);
             && !target.before.Ref? && !target.after.Ref?
             && Included(docs, active + [PairOf(q)], from, q.reversed, target.before, target.after)
    ensures Carries(m, docs, q.reversed, q.before, q.after)
  {
    if m == 0 {
    } else {
      hide Carries, Follow;
      DischargeBelow(n, docs, active, from, q, m - 1);
      var longer := active + [PairOf(q)];
      forall i | from <= i < |longer|
        ensures Carries(m - 1, docs, longer[i].reversed, Ref(longer[i].before), Ref(longer[i].after))
      {
        if i < |active| {
          FewerHeights(m - 1, n, docs, active[i].reversed, Ref(active[i].before), Ref(active[i].after));
        }
      }
      assert Assumed(m - 1, docs, longer, from);
      FollowedCarries(m - 1, docs, q.reversed, q.before, q.after, m);
    }
  }

  lemma Discharge(docs: Documents, active: seq<RefPair>, from: nat, q: Question)
    requires BothRefs(q)
    requires var target := Target(docs, q);
             && !target.before.Ref? && !target.after.Ref?
             && Included(docs, active + [PairOf(q)], from, q.reversed, target.before, target.after)
    ensures var target := Target(docs, q);
            Included(docs, active, from, q.reversed, target.before, target.after)
  {
    hide Carries, Follow;
    var target := Target(docs, q);
    forall n: nat | Assumed(n, docs, active, from)
      ensures Carries(n, docs, q.reversed, target.before, target.after)
    {
      DischargeBelow(n, docs, active, from, q, n);
      assert Assumed(n, docs, active + [PairOf(q)], from);
    }
  }

  lemma FollowedIncluded(
    docs: Documents, active: seq<RefPair>, from: nat, reversed: bool, before: Schema, after: Schema)
    requires var target := Target(docs, Question(reversed, before, after));
             && !target.before.Ref? && !target.after.Ref?
             && Included(docs, active, from, reversed, target.before, target.after)
    ensures Included(docs, active, from, reversed, before, after)
  {
    hide Carries, Follow;
    forall n: nat | Assumed(n, docs, active, from) ensures Carries(n, docs, reversed, before, after) {
      FollowedCarries(n, docs, reversed, before, after, n);
    }
  }

  /** The same boolean on both sides. */
  lemma TruthIncluded(docs: Documents, active: seq<RefPair>, from: nat, reversed: bool, accepting: bool)
    ensures Included(docs, active, from, reversed, Truth(accepting), Truth(accepting))
  {
    forall n: nat ensures Carries(n, docs, reversed, Truth(accepting), Truth(accepting)) {
      forall matches, j
        ensures accepting ==> Valid(matches, docs.After(reversed), Truth(accepting), j)
        ensures !accepting ==> Invalid(matches, docs.Before(reversed), Truth(accepting), j)
      {
        assert accepting ==> Accepts(matches, docs.After(reversed), 1, Truth(accepting), j);
        assert !accepting ==> Rejects(matches, docs.Before(reversed), 1, Truth(accepting), j);
      }
    }
  }

  lemma AssumedIncluded(docs: Documents, active: seq<RefPair>, from: nat, i: nat)
    requires from <= i < |active|
    ensures Included(docs, active, from, active[i].reversed, Ref(active[i].before), Ref(active[i].after))
  {
  }

  // ---------------------------------------------------------------- object schemas

  /** Branch by branch, in both directions. */
  ghost predicate Equivalent(
    docs: Documents, active: seq<RefPair>, from: nat, reversed: bool, before: seq<Schema>, after: seq<Schema>)
  {
    |before| == |after| && forall i | 0 <= i < |before| ::
      && Included(docs, active, from, reversed, before[i], after[i])
      && Included(docs, active, from, !reversed, after[i], before[i])
  }

  ghost predicate SomeIncludes(
    docs: Documents, active: seq<RefPair>, from: nat, reversed: bool, branch: Schema, candidates: seq<Schema>)
  {
    exists k | 0 <= k < |candidates| :: Included(docs, active, from, reversed, branch, candidates[k])
  }

  ghost predicate AllMatched(
    docs: Documents, active: seq<RefPair>, from: nat, reversed: bool, branches: seq<Schema>, candidates: seq<Schema>)
  {
    forall i | 0 <= i < |branches| :: SomeIncludes(docs, active, from, reversed, branches[i], candidates)
  }

  /** What a clean comparison of two schemas with unions has established. */
  ghost predicate UnionsCompared(
    docs: Documents, active: seq<RefPair>, from: nat, reversed: bool, before: Schema, after: Schema)
    requires before.Node? && after.Node?
  {
    && (HasUnion(before) || HasUnion(after))
    && (HasUnion(after) ==> Included(docs, active, from, reversed, WithoutUnions(before), WithoutUnions(after)))
    && ((before.oneOf == [] && after.oneOf == []) ||
        (before.oneOf != [] && Equivalent(docs, active, from, reversed, before.oneOf, after.oneOf)))
    && ((before.anyOf == [] && after.anyOf == []) ||
        AllMatched(docs, active, from, reversed, Alternatives(before), Alternatives(after)))
  }

  // ---------------------------------------------------------------- unions

  /** An alternative that accepts leaves some new one valid. */
  lemma AnyOfCarried(
    n: nat, matches: Regex, docs: Documents, active: seq<RefPair>, from: nat, reversed: bool,
    before: seq<Schema>, after: seq<Schema>, j: Json, f: nat)
    requires Assumed(n, docs, active, from) && f < n
    requires AllMatched(docs, active, from, reversed, before, after)
    ensures SomeAccepts(matches, docs.Before(reversed), f, before, j) ==>
              SomeValid(matches, docs.After(reversed), after, j)
    ensures AllReject(matches, docs.After(reversed), f, after, j) ==>
              AllInvalid(matches, docs.Before(reversed), before, j)
  {
    hide Accepts, Rejects, Valid, Invalid, Assumed;
    if SomeAccepts(matches, docs.Before(reversed), f, before, j) {
      var i :| 0 <= i < |before| && Accepts(matches, docs.Before(reversed), f, before[i], j);
      assert SomeIncludes(docs, active, from, reversed, before[i], after);
      var k :| 0 <= k < |after| && Included(docs, active, from, reversed, before[i], after[k]);
      assert Carries(n, docs, reversed, before[i], after[k]);
      assert Valid(matches, docs.After(reversed), after[k], j);
    }
    if AllReject(matches, docs.After(reversed), f, after, j) {
      forall i | 0 <= i < |before| ensures Invalid(matches, docs.Before(reversed), before[i], j) {
        assert SomeIncludes(docs, active, from, reversed, before[i], after);
        var k :| 0 <= k < |after| && Included(docs, active, from, reversed, before[i], after[k]);
        assert Carries(n, docs, reversed, before[i], after[k]);
        assert Rejects(matches, docs.After(reversed), f, after[k], j);
      }
    }
  }

  /** Branches equivalent one by one, at a height below which assumptions hold. */
  ghost predicate BranchesCarry(n: nat, docs: Documents, reversed: bool, before: seq<Schema>, after: seq<Schema>) {
    |before| == |after| && forall i | 0 <= i < |before| ::
      Carries(n, docs, reversed, before[i], after[i]) && Carries(n, docs, !reversed, after[i], before[i])
  }

  lemma EquivalentCarries(
    n: nat, docs: Documents, active: seq<RefPair>, from: nat, reversed: bool, before: seq<Schema>, after: seq<Schema>)
    requires Assumed(n, docs, active, from) && Equivalent(docs, active, from, reversed, before, after)
    ensures BranchesCarry(n, docs, reversed, before, after)
  {
    hide Assumed, Carries;
  }

  /** What one branch says of a value, its counterpart says too. */
  lemma BranchCarried(
    n: nat, matches: Regex, docs: Documents, reversed: bool, before: seq<Schema>, after: seq<Schema>, j: Json,
    f: nat, i: nat)
    requires BranchesCarry(n, docs, reversed, before, after) && f < n && i < |before|
    ensures Accepts(matches, docs.Before(reversed), f, before[i], j) ==>
              Valid(matches, docs.After(reversed), after[i], j)
    ensures Rejects(matches, docs.Before(reversed), f, before[i], j) ==>
              Invalid(matches, docs.After(reversed), after[i], j)
    ensures Accepts(matches, docs.After(reversed), f, after[i], j) ==>
              Valid(matches, docs.Before(reversed), before[i], j)
    ensures Rejects(matches, docs.After(reversed), f, after[i], j) ==>
              Invalid(matches, docs.Before(reversed), before[i], j)
  {
    hide Accepts, Rejects, Valid, Invalid;
    assert docs.Before(!reversed) == docs.After(reversed) && docs.After(!reversed) == docs.Before(reversed);
    assert Carries(n, docs, reversed, before[i], after[i]) && Carries(n, docs, !reversed, after[i], before[i]);
  }

  lemma OneOfCarried(
    n: nat, matches: Regex, docs: Documents, reversed: bool, before: seq<Schema>, after: seq<Schema>, j: Json,
    f: nat)
    requires BranchesCarry(n, docs, reversed, before, after) && f < n
    ensures OneAccepts(matches, docs.Before(reversed), f, before, j) ==>
              OneValid(matches, docs.After(reversed), after, j)
    ensures AllReject(matches, docs.After(reversed), f, after, j) ==>
              AllInvalid(matches, docs.Before(reversed), before, j)
    ensures TwoAccept(matches, docs.After(reversed), f, after, j) ==>
              TwoValid(matches, docs.Before(reversed), before, j)
  {
    hide Accepts, Rejects, Valid, Invalid, Carries;
    forall i | 0 <= i < |before|
      ensures Accepts(matches, docs.Before(reversed), f, before[i], j) ==>
                Valid(matches, docs.After(reversed), after[i], j)
      ensures Rejects(matches, docs.Before(reversed), f, before[i], j) ==>
                Invalid(matches, docs.After(reversed), after[i], j)
      ensures Accepts(matches, docs.After(reversed), f, after[i], j) ==>
                Valid(matches, docs.Before(reversed), before[i], j)
      ensures Rejects(matches, docs.After(reversed), f, after[i], j) ==>
                Invalid(matches, docs.Before(reversed), before[i], j)
    {
      BranchCarried(n, matches, docs, reversed, before, after, j, f, i);
    }
    if OneAccepts(matches, docs.Before(reversed), f, before, j) {
      var i :| 0 <= i < |before| && Accepts(matches, docs.Before(reversed), f, before[i], j)
        && forall k | 0 <= k < |before| && k != i :: Rejects(matches, docs.Before(reversed), f, before[k], j);
      assert OthersInvalid(matches, docs.After(reversed), after, i, j);
    }
  }

  /** An accepted value is accepted by one of the alternatives, the schema itself when it is not an `anyOf`. */
  lemma AcceptedByAlternative(matches: Regex, defs: Definitions, f: nat, s: Schema, j: Json)
    requires s.Node? && Accepts(matches, defs, f, s, j)
    ensures SomeAccepts(matches, defs, f, Alternatives(s), j)
  {
    if s.anyOf == [] {
      assert Alternatives(s)[0] == s;
    } else {
      var i :| 0 <= i < |s.anyOf| && Accepts(matches, defs, f - 1, s.anyOf[i], j);
      MoreFuel(matches, defs, f - 1, f, s.anyOf[i], j);
    }
  }

  /** What is accepted meets the constraints beside a union. */
  lemma WithoutUnionsAccepts(matches: Regex, defs: Definitions, f: nat, s: Schema, j: Json)
    requires s.Node? && Accepts(matches, defs, f, s, j)
    ensures Accepts(matches, defs, f, WithoutUnions(s), j)
  {
    assert PartsAccepted(matches, defs, f - 1, WithoutUnions(s), j);
  }

  lemma WithoutUnionsRejects(matches: Regex, defs: Definitions, f: nat, s: Schema, j: Json)
    requires s.Node? && f > 0
    requires !Satisfies(matches, s.assertions, j) || SomePartRejected(matches, defs, f - 1, s, j)
    ensures Rejects(matches, defs, f, WithoutUnions(s), j)
  {
    if SomePartRejected(matches, defs, f - 1, s, j) {
      assert SomePartRejected(matches, defs, f - 1, WithoutUnions(s), j);
    }
  }

  lemma WithoutUnionsParts(matches: Regex, defs: Definitions, s: Schema, j: Json)
    requires s.Node?
    ensures PartsValid(matches, defs, WithoutUnions(s), j) <==> PartsValid(matches, defs, s, j)
    ensures SomePartInvalid(matches, defs, WithoutUnions(s), j) <==> SomePartInvalid(matches, defs, s, j)
  {
    hide Valid, Invalid;
    assert forall name :: MemberSchema(WithoutUnions(s), name) == MemberSchema(s, name);
    assert forall i: nat :: ItemSchema(WithoutUnions(s), i) == ItemSchema(s, i);
  }

  /** Constraints beside a union hold on one side as on the other. */
  lemma WithoutUnionsValid(matches: Regex, defs: Definitions, s: Schema, j: Json)
    requires s.Node?
    ensures Valid(matches, defs, WithoutUnions(s), j) ==>
              Satisfies(matches, s.assertions, j) && PartsValid(matches, defs, s, j)
    ensures Invalid(matches, defs, WithoutUnions(s), j) ==> Invalid(matches, defs, s, j)
  {
    hide Satisfies, PartsValid, SomePartInvalid;
    var bare := WithoutUnions(s);
    WithoutUnionsParts(matches, defs, s, j);
    if Valid(matches, defs, bare, j) {
      var f: nat :| Accepts(matches, defs, f, bare, j);
      AcceptedIsNodeValid(matches, defs, f, bare, j);
    }
    if Invalid(matches, defs, bare, j) {
      var f: nat :| Rejects(matches, defs, f, bare, j);
      RejectedIsNodeInvalid(matches, defs, f, bare, j);
      NodeInvalidIsInvalid(matches, defs, s, j);
    }
  }

  lemma UnionsAccepted(
    n: nat, matches: Regex, docs: Documents, active: seq<RefPair>, from: nat, reversed: bool,
    before: Schema, after: Schema, j: Json, f: nat)
    requires before.Node? && after.Node? && UnionsCompared(docs, active, from, reversed, before, after)
    requires Assumed(n, docs, active, from) && f < n && Accepts(matches, docs.Before(reversed), f, before, j)
    ensures Valid(matches, docs.After(reversed), after, j)
  {
    hide Satisfies, PartsValid, PartsAccepted, SomeAccepts, OneAccepts, SomeValid, OneValid, Valid, Assumed, AllMatched;
    AcceptedByAlternative(matches, docs.Before(reversed), f, before, j);
    if after.anyOf != [] || before.anyOf != [] {
      AnyOfCarried(n, matches, docs, active, from, reversed, Alternatives(before), Alternatives(after), j, f);
    }
    if HasUnion(after) {
      WithoutUnionsAccepts(matches, docs.Before(reversed), f, before, j);
      assert Carries(n, docs, reversed, WithoutUnions(before), WithoutUnions(after));
      assert Valid(matches, docs.After(reversed), WithoutUnions(after), j);
      WithoutUnionsValid(matches, docs.After(reversed), after, j);
      if after.oneOf != [] {
        EquivalentCarries(n, docs, active, from, reversed, before.oneOf, after.oneOf);
        OneOfCarried(n, matches, docs, reversed, before.oneOf, after.oneOf, j, f - 1);
      }
      assert NodeValid(matches, docs.After(reversed), after, j);
      NodeValidIsValid(matches, docs.After(reversed), after, j);
    } else {
      OnlyOneValid(matches, docs.After(reversed), after, j);
    }
  }

  lemma OnlyOneValid(matches: Regex, defs: Definitions, s: Schema, j: Json)
    requires SomeValid(matches, defs, [s], j)
    ensures Valid(matches, defs, s, j)
  {
  }

  lemma UnionsRejected(
    n: nat, matches: Regex, docs: Documents, active: seq<RefPair>, from: nat, reversed: bool,
    before: Schema, after: Schema, j: Json, f: nat)
    requires before.Node? && after.Node? && UnionsCompared(docs, active, from, reversed, before, after)
    requires Assumed(n, docs, active, from) && f < n && Rejects(matches, docs.After(reversed), f, after, j)
    ensures Invalid(matches, docs.Before(reversed), before, j)
  {
    hide Satisfies, SomePartRejected, AllReject, TwoAccept, AllInvalid, TwoValid, Invalid, Assumed, AllMatched,
         SomePartInvalid;
    if !HasUnion(after) {
      AllRejectOne(matches, docs.After(reversed), f, after, j);
      AnyOfCarried(n, matches, docs, active, from, reversed, before.anyOf, [after], j, f);
      NodeInvalidIsInvalid(matches, docs.Before(reversed), before, j);
    } else if !Satisfies(matches, after.assertions, j) || SomePartRejected(matches, docs.After(reversed), f - 1, after, j) {
      WithoutUnionsRejects(matches, docs.After(reversed), f, after, j);
      assert Carries(n, docs, reversed, WithoutUnions(before), WithoutUnions(after));
      assert Invalid(matches, docs.Before(reversed), WithoutUnions(before), j);
      WithoutUnionsValid(matches, docs.Before(reversed), before, j);
    } else if after.anyOf != [] && AllReject(matches, docs.After(reversed), f - 1, after.anyOf, j) {
      AnyOfCarried(n, matches, docs, active, from, reversed, Alternatives(before), after.anyOf, j, f - 1);
      AllInvalidAlternatives(matches, docs.Before(reversed), before, j);
    } else {
      EquivalentCarries(n, docs, active, from, reversed, before.oneOf, after.oneOf);
      OneOfCarried(n, matches, docs, reversed, before.oneOf, after.oneOf, j, f - 1);
      NodeInvalidIsInvalid(matches, docs.Before(reversed), before, j);
    }
  }

  lemma AllRejectOne(matches: Regex, defs: Definitions, f: nat, s: Schema, j: Json)
    requires Rejects(matches, defs, f, s, j)
    ensures AllReject(matches, defs, f, [s], j)
  {
  }

  lemma AllInvalidAlternatives(matches: Regex, defs: Definitions, s: Schema, j: Json)
    requires s.Node? && AllInvalid(matches, defs, Alternatives(s), j)
    ensures Invalid(matches, defs, s, j)
  {
    if s.anyOf == [] {
      assert Invalid(matches, defs, Alternatives(s)[0], j);
    } else {
      NodeInvalidIsInvalid(matches, defs, s, j);
    }
  }

  /** What a comparison of unions has established makes the new node as wide. */
  lemma UnionsComparedWiden(
    n: nat, docs: Documents, active: seq<RefPair>, from: nat, reversed: bool, before: Schema, after: Schema)
    requires before.Node? && after.Node? && UnionsCompared(docs, active, from, reversed, before, after)
    requires Assumed(n, docs, active, from)
    ensures Widens(n, docs, reversed, before, after)
  {
    hide StaysValid, WasInvalid, Assumed, NodeWidens, Widens;
    SomeComparedWidens(n, docs, active, from, reversed, before, after);
    if before.oneOf != [] {
      EquivalentCarries(n, docs, active, from, reversed, before.oneOf, after.oneOf);
      assert BranchesWiden(n, docs, reversed, before.oneOf, after.oneOf);
    }
    assert HasUnion(after) ==> Widens(n, docs, reversed, WithoutUnions(before), WithoutUnions(after));
    assert UnionsWiden(n, docs, reversed, before, after);
    UnionNodesWiden(n, docs, reversed, before, after);
  }

  lemma UnionNodesWiden(n: nat, docs: Documents, reversed: bool, before: Schema, after: Schema)
    requires before.Node? && after.Node? && (HasUnion(before) || HasUnion(after))
    requires UnionsWiden(n, docs, reversed, before, after)
    ensures Widens(n, docs, reversed, before, after)
  {
    FollowNode(docs, reversed, before, after);
    hide UnionsWiden, Follow;
    assert NodeWidens(n, docs, reversed, before, after);
    if n > 0 {
      NodeAsksFewer(n - 1, n, docs, reversed, before, after);
    }
  }

  lemma NodeAsksFewer(m: nat, n: nat, docs: Documents, reversed: bool, before: Schema, after: Schema)
    requires before.Node? && after.Node? && m <= n && NodeWidens(n, docs, reversed, before, after)
    ensures NodeWidens(m, docs, reversed, before, after)
  {
    hide NodeWidens, Widens;
    forall r, s, t | Widens(n, docs, r, s, t) ensures Widens(m, docs, r, s, t) {
      FewerLevels(m, n, docs, r, s, t);
    }
    NodeAsksLess(m, n, docs, reversed, before, after);
  }

  lemma SomeComparedWidens(
    n: nat, docs: Documents, active: seq<RefPair>, from: nat, reversed: bool, before: Schema, after: Schema)
    requires before.Node? && after.Node? && UnionsCompared(docs, active, from, reversed, before, after)
    requires Assumed(n, docs, active, from)
    ensures before.anyOf != [] || after.anyOf != [] ==>
              forall i | 0 <= i < |Alternatives(before)| ::
                SomeWidens(n, docs, reversed, Alternatives(before)[i], Alternatives(after))
  {
    hide StaysValid, WasInvalid, Assumed, Widens, HasUnion, Equivalent;
    if before.anyOf != [] || after.anyOf != [] {
      forall i | 0 <= i < |Alternatives(before)|
        ensures SomeWidens(n, docs, reversed, Alternatives(before)[i], Alternatives(after))
      {
        assert SomeIncludes(docs, active, from, reversed, Alternatives(before)[i], Alternatives(after));
        var k :| 0 <= k < |Alternatives(after)| &&
          Included(docs, active, from, reversed, Alternatives(before)[i], Alternatives(after)[k]);
        assert Carries(n, docs, reversed, Alternatives(before)[i], Alternatives(after)[k]);
      }
    }
  }

  lemma UnionsIncluded(
    docs: Documents, active: seq<RefPair>, from: nat, reversed: bool, before: Schema, after: Schema)
    requires before.Node? && after.Node? && UnionsCompared(docs, active, from, reversed, before, after)
    ensures Included(docs, active, from, reversed, before, after)
  {
    hide Accepts, Rejects, Valid, Invalid, UnionsCompared, Assumed, Widens;
    forall n: nat | Assumed(n, docs, active, from) ensures Carries(n, docs, reversed, before, after) {
      UnionsComparedWiden(n, docs, active, from, reversed, before, after);
      forall matches, j, f: nat | f < n && Accepts(matches, docs.Before(reversed), f, before, j)
        ensures Valid(matches, docs.After(reversed), after, j)
      {
        UnionsAccepted(n, matches, docs, active, from, reversed, before, after, j, f);
      }
      forall matches, j, f: nat | f < n && Rejects(matches, docs.After(reversed), f, after, j)
        ensures Invalid(matches, docs.Before(reversed), before, j)
      {
        UnionsRejected(n, matches, docs, active, from, reversed, before, after, j, f);
      }
    }
  }

  // ---------------------------------------------------------------- keywords

  /** What a clean comparison of the properties both schemas list has established. */
  ghost predicate ListedCompared(
    docs: Documents, active: seq<RefPair>, from: nat, reversed: bool, before: Schema, after: Schema)
    requires before.Node? && after.Node?
  {
    forall name | name in before.properties ::
      && name in after.properties
      && Included(docs, active, from, reversed, before.properties[name], after.properties[name])
  }

  /** ... of the properties only the new schema lists ... */
  ghost predicate UnlistedCompared(
    docs: Documents, active: seq<RefPair>, from: nat, reversed: bool, before: Schema, after: Schema)
    requires before.Node? && after.Node?
  {
    before.additional != CLOSED ==>
      forall name | name in after.properties && name !in before.properties ::
        Included(docs, active, from, reversed, OldAdditional(before), after.properties[name])
  }

  /** ... of the members neither lists ... */
  ghost predicate AdditionalCompared(
    docs: Documents, active: seq<RefPair>, from: nat, reversed: bool, before: Schema, after: Schema)
    requires before.Node? && after.Node?
  {
    before.additional == CLOSED ||
    (after.additional.Some? && after.additional.value != Truth(true) ==>
       after.additional != CLOSED
       && Included(docs, active, from, reversed, OldAdditional(before), after.additional.value))
  }

  /** ... and of the positions of an array. */
  ghost predicate ElementsCompared(
    docs: Documents, active: seq<RefPair>, from: nat, reversed: bool, before: Schema, after: Schema)
    requires before.Node? && after.Node?
  {
    && (after.items.Some? ==>
          before.items.Some? && Included(docs, active, from, reversed, before.items.value, after.items.value))
    && |before.prefixItems| <= |after.prefixItems|
    && (forall i | 0 <= i < |before.prefixItems| ::
          Included(docs, active, from, reversed, before.prefixItems[i], after.prefixItems[i]))
    && (forall i | |before.prefixItems| <= i < |after.prefixItems| ::
          Included(docs, active, from, reversed, UNCONSTRAINED, after.prefixItems[i]))
  }

  /** What a clean comparison of two schemas without unions has established. */
  ghost predicate KeywordsCompared(
    docs: Documents, active: seq<RefPair>, from: nat, reversed: bool, before: Schema, after: Schema)
    requires before.Node? && after.Node?
  {
    && !HasUnion(before) && !HasUnion(after)
    && AssertionsKept(before.assertions, after.assertions)
    && after.assertions.required <= before.assertions.required
    && ListedCompared(docs, active, from, reversed, before, after)
    && UnlistedCompared(docs, active, from, reversed, before, after)
    && AdditionalCompared(docs, active, from, reversed, before, after)
    && ElementsCompared(docs, active, from, reversed, before, after)
  }

  lemma UnconstrainedAccepts(matches: Regex, defs: Definitions, f: nat, j: Json)
    requires f > 0
    ensures Accepts(matches, defs, f, UNCONSTRAINED, j)
  {
    assert PartsAccepted(matches, defs, f - 1, UNCONSTRAINED, j);
  }

  lemma UnconstrainedNeverInvalid(matches: Regex, defs: Definitions, j: Json)
    ensures !Invalid(matches, defs, UNCONSTRAINED, j)
  {
    forall f: nat ensures !Rejects(matches, defs, f, UNCONSTRAINED, j) {
      UnconstrainedAccepts(matches, defs, 1, j);
      NeverBoth(matches, defs, 1, f, UNCONSTRAINED, j);
    }
  }

  lemma TruthJudges(matches: Regex, defs: Definitions, j: Json)
    ensures Valid(matches, defs, Truth(true), j) && Invalid(matches, defs, Truth(false), j)
  {
    assert Accepts(matches, defs, 1, Truth(true), j) && Rejects(matches, defs, 1, Truth(false), j);
  }

  /** What one schema asks of a part, given what the other does: `{}` where it asked nothing. */
  ghost predicate PartCarried(
    matches: Regex, docs: Documents, reversed: bool, before: Option<Schema>, after: Option<Schema>, j: Json, f: nat)
  {
    after.Some? ==>
      && ((before.Some? ==> Accepts(matches, docs.Before(reversed), f, before.value, j)) ==>
            Valid(matches, docs.After(reversed), after.value, j))
      && (Rejects(matches, docs.After(reversed), f, after.value, j) ==>
            before.Some? && Invalid(matches, docs.Before(reversed), before.value, j))
  }

  lemma CarriedFromAnything(
    n: nat, matches: Regex, docs: Documents, reversed: bool, before: Option<Schema>, after: Schema, j: Json, f: nat)
    requires f + 1 < n && Carries(n, docs, reversed, UNCONSTRAINED, after)
    ensures PartCarried(matches, docs, reversed, before, Some(after), j, f)
  {
    UnconstrainedAccepts(matches, docs.Before(reversed), 1, j);
    UnconstrainedNeverInvalid(matches, docs.Before(reversed), j);
    hide Accepts, Rejects, Valid, Invalid;
    assert Valid(matches, docs.After(reversed), after, j);
    assert !Rejects(matches, docs.After(reversed), f, after, j);
  }

  lemma CarriedFrom(
    n: nat, matches: Regex, docs: Documents, reversed: bool, before: Schema, after: Schema, j: Json, f: nat)
    requires f < n && Carries(n, docs, reversed, before, after)
    ensures PartCarried(matches, docs, reversed, Some(before), Some(after), j, f)
  {
    hide Accepts, Rejects, Valid, Invalid;
  }

  lemma MemberCarried(
    n: nat, matches: Regex, docs: Documents, active: seq<RefPair>, from: nat, reversed: bool,
    before: Schema, after: Schema, name: string, j: Json, f: nat)
    requires before.Node? && after.Node? && KeywordsCompared(docs, active, from, reversed, before, after)
    requires Assumed(n, docs, active, from) && f + 1 < n
    ensures PartCarried(matches, docs, reversed, MemberSchema(before, name), MemberSchema(after, name), j, f)
  {
    var was, is_ := MemberSchema(before, name), MemberSchema(after, name);
    if is_.None? {
    } else if name in before.properties {
      CarriedFrom(n, matches, docs, reversed, before.properties[name], is_.value, j, f);
    } else if before.additional == CLOSED {
      TruthJudges(matches, docs.Before(reversed), j);
    } else if is_ == Some(Truth(true)) {
      TruthJudges(matches, docs.After(reversed), j);
    } else {
      assert Carries(n, docs, reversed, OldAdditional(before), is_.value);
      if OldAdditional(before) == UNCONSTRAINED {
        CarriedFromAnything(n, matches, docs, reversed, was, is_.value, j, f);
      } else {
        CarriedFrom(n, matches, docs, reversed, before.additional.value, is_.value, j, f);
      }
    }
  }

  lemma ElementCarried(
    n: nat, matches: Regex, docs: Documents, active: seq<RefPair>, from: nat, reversed: bool,
    before: Schema, after: Schema, i: nat, j: Json, f: nat)
    requires before.Node? && after.Node? && KeywordsCompared(docs, active, from, reversed, before, after)
    requires Assumed(n, docs, active, from) && f + 1 < n
    ensures PartCarried(matches, docs, reversed, ItemSchema(before, i), ItemSchema(after, i), j, f)
  {
    var was, is_ := ItemSchema(before, i), ItemSchema(after, i);
    if is_.None? {
    } else if i < |before.prefixItems| || i >= |after.prefixItems| {
      assert Carries(n, docs, reversed, was.value, is_.value);
      CarriedFrom(n, matches, docs, reversed, was.value, is_.value, j, f);
    } else {
      assert Carries(n, docs, reversed, UNCONSTRAINED, is_.value);
      CarriedFromAnything(n, matches, docs, reversed, was, is_.value, j, f);
    }
  }

  lemma PartsCarried(
    n: nat, matches: Regex, docs: Documents, active: seq<RefPair>, from: nat, reversed: bool,
    before: Schema, after: Schema, j: Json, f: nat)
    requires before.Node? && after.Node? && KeywordsCompared(docs, active, from, reversed, before, after)
    requires Assumed(n, docs, active, from) && f + 1 < n
    ensures PartsAccepted(matches, docs.Before(reversed), f, before, j) ==>
              PartsValid(matches, docs.After(reversed), after, j)
    ensures SomePartRejected(matches, docs.After(reversed), f, after, j) ==>
              SomePartInvalid(matches, docs.Before(reversed), before, j)
  {
    hide Accepts, Rejects, Valid, Invalid, KeywordsCompared, Assumed, MemberSchema, ItemSchema;
    if j.Object? {
      forall name | name in j.members
        ensures PartCarried(matches, docs, reversed, MemberSchema(before, name), MemberSchema(after, name),
                            j.members[name], f)
      {
        MemberCarried(n, matches, docs, active, from, reversed, before, after, name, j.members[name], f);
      }
    } else if j.Array? {
      forall i | 0 <= i < |j.elements|
        ensures PartCarried(matches, docs, reversed, ItemSchema(before, i), ItemSchema(after, i), j.elements[i], f)
      {
        ElementCarried(n, matches, docs, active, from, reversed, before, after, i, j.elements[i], f);
      }
    }
  }

  lemma KeywordsCarried(
    n: nat, matches: Regex, docs: Documents, active: seq<RefPair>, from: nat, reversed: bool,
    before: Schema, after: Schema, j: Json, f: nat)
    requires before.Node? && after.Node? && KeywordsCompared(docs, active, from, reversed, before, after)
    requires Assumed(n, docs, active, from) && f < n
    ensures Accepts(matches, docs.Before(reversed), f, before, j) ==> Valid(matches, docs.After(reversed), after, j)
    ensures Rejects(matches, docs.After(reversed), f, after, j) ==> Invalid(matches, docs.Before(reversed), before, j)
  {
    hide Satisfies, PartsAccepted, SomePartRejected, PartsValid, SomePartInvalid, Assumed, Valid, Invalid;
    if f > 0 {
      PartsCarried(n, matches, docs, active, from, reversed, before, after, j, f - 1);
      if Satisfies(matches, before.assertions, j) {
        AssertionsKeptSound(matches, before.assertions, after.assertions, j);
      }
      if Accepts(matches, docs.Before(reversed), f, before, j) {
        NodeValidIsValid(matches, docs.After(reversed), after, j);
      }
      if Rejects(matches, docs.After(reversed), f, after, j) {
        assert !TwoAccept(matches, docs.After(reversed), f - 1, after.oneOf, j);
        NodeInvalidIsInvalid(matches, docs.Before(reversed), before, j);
      }
    }
  }

  lemma KeywordsComparedWiden(
    n: nat, docs: Documents, active: seq<RefPair>, from: nat, reversed: bool, before: Schema, after: Schema)
    requires before.Node? && after.Node? && KeywordsCompared(docs, active, from, reversed, before, after)
    requires Assumed(n, docs, active, from)
    ensures Widens(n, docs, reversed, before, after)
  {
    FollowNode(docs, reversed, before, after);
    hide StaysValid, WasInvalid, Assumed, AssertionsKept, Follow;
    if n > 0 {
      assert forall r, s, t | Included(docs, active, from, r, s, t) :: Carries(n, docs, r, s, t);
      PartsWiden(n, docs, active, from, reversed, before, after);
      NodeAsksFewer(n - 1, n, docs, reversed, before, after);
    }
  }

  lemma PartsWiden(
    n: nat, docs: Documents, active: seq<RefPair>, from: nat, reversed: bool, before: Schema, after: Schema)
    requires before.Node? && after.Node? && KeywordsCompared(docs, active, from, reversed, before, after)
    requires forall r, s, t | Included(docs, active, from, r, s, t) :: Carries(n, docs, r, s, t)
    ensures NodeWidens(n, docs, reversed, before, after)
  {
    hide StaysValid, WasInvalid, AssertionsKept, NoNarrower, Included, Widens;
    KeptMeansNoNarrower(before.assertions, after.assertions);
    assert PropertiesWiden(n, docs, reversed, before, after);
    assert ElementsWiden(n, docs, reversed, before, after);
  }

  lemma KeywordsIncluded(
    docs: Documents, active: seq<RefPair>, from: nat, reversed: bool, before: Schema, after: Schema)
    requires before.Node? && after.Node? && KeywordsCompared(docs, active, from, reversed, before, after)
    ensures Included(docs, active, from, reversed, before, after)
  {
    hide Accepts, Rejects, Valid, Invalid, KeywordsCompared, Assumed, Widens;
    forall n: nat | Assumed(n, docs, active, from) ensures Carries(n, docs, reversed, before, after) {
      KeywordsComparedWiden(n, docs, active, from, reversed, before, after);
      forall matches, j, f: nat | f < n
        ensures Accepts(matches, docs.Before(reversed), f, before, j) ==>
                  Valid(matches, docs.After(reversed), after, j)
        ensures Rejects(matches, docs.After(reversed), f, after, j) ==>
                  Invalid(matches, docs.Before(reversed), before, j)
      {
        KeywordsCarried(n, matches, docs, active, from, reversed, before, after, j, f);
      }
    }
  }
}

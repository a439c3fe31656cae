/**
 The schema compatibility checker: it walks two schemas together, follows references with an assumption on
 re-entry, remembers the node pairs it has settled, and reports every place where the new schema may reject
 what the old one accepted.
 */
module SchemaCompatibility {
  import opened Options
  import opened JsonSchema
  import opened SchemaNarrowing
  import opened SchemaWidening
  import opened SchemaWalk
  import opened SchemaInclusion
  import opened Versions

  const MAX_COMPARISONS: nat := 200_000
  const MAX_PAIR_FINDINGS: nat := 20
  const MAX_FINDINGS: nat := 1000
  const NO_ASSUMPTION: nat := 0x4000_0000

  /** The result of a step of the comparison, or the exhausted budget that ends all of it. */
  datatype Outcome<+T> = Done(value: T) | Exhausted {
    predicate IsFailure() {
      Exhausted?
    }

    function PropagateFailure<U>(): Outcome<U>
      requires Exhausted?
    {
      Exhausted
    }

    function Extract(): T
      requires Done?
    {
      value
    }
  }

  /** Two document nodes compared in one direction. */
  datatype NodePair = NodePair(before: Schema, after: Schema, reversed: bool)

  /** A temporary dictionary has no identity, so nothing remembered can be about it. */
  predicate Remembered(pair: NodePair) {
    pair.before.Node? && pair.before.id.Some? && pair.after.Node? && pair.after.id.Some?
  }

  /** All findings are about `path` or something below it. */
  predicate Under(path: Path, out: seq<Finding>) {
    forall i | 0 <= i < |out| :: path <= out[i].path
  }

  /** The findings below `path`, made relative to it. */
  function Relative(path: Path, out: seq<Finding>): (r: seq<Finding>)
    ensures Under(path, out) ==> |r| == |out|
  {
    if out == [] then []
    else if path <= out[0].path then
      [Finding(out[0].path[|path|..], out[0].what)] + Relative(path, out[1..])
    else Relative(path, out[1..])
  }

  /** Remembered findings reported again at another path. */
  function Placed(path: Path, suffixes: seq<Finding>): (r: seq<Finding>)
    ensures |r| == |suffixes| && Under(path, r)
  {
    seq(|suffixes|, i requires 0 <= i < |suffixes| => Finding(path + suffixes[i].path, suffixes[i].what))
  }

  function Min(a: nat, b: nat): nat {
    if a < b then a else b
  }

  function IndexOf(active: seq<RefPair>, pair: RefPair): (i: nat)
    requires pair in active
    ensures i < |active| && active[i] == pair && pair !in active[..i]
  {
    if active[0] == pair then 0 else 1 + IndexOf(active[1..], pair)
  }

  /** How far a comparison has come: what it spent, what it assumed, and whether it could not follow a schema. */
  datatype Standing = Standing(steps: nat, lowest: nat, unfollowed: bool)

  /**
   From one standing to a later one: at most `most` more steps, and whatever could not be followed is `blocked` or
   due to the budget.
   */
  ghost predicate Goes(from: Standing, to: Standing, done: bool, most: nat, blocked: bool) {
    && from.steps <= to.steps <= from.steps + most
    && (done ==> to.lowest <= from.lowest)
    && (!done ==> to.steps > MAX_COMPARISONS && to.unfollowed)
    && (from.unfollowed ==> to.unfollowed)
    && (to.unfollowed && !from.unfollowed ==> blocked || to.steps > MAX_COMPARISONS)
  }

  /** What is said of a question that is not about two nodes. */
  ghost predicate Says(
    docs: Documents, active: seq<RefPair>, q: Question, path: Path, depth: nat, out: seq<Finding>)
  {
    var target := Target(docs, q);
    if depth > MAX_COMPARE_DEPTH then out == [Finding(path, DepthLimit)]
    else if Repeated(active, q) then out == []
    else if target.before.Truth? || target.after.Truth? then
      out == if target.before == target.after then [] else [Finding(path, ShapeChanged)]
    else !Nodes(target) ==> out == [Finding(path, UnresolvedReference)]
  }

  class Run {
    const docs: Documents

    var steps: nat
    var lowestAssumed: nat
    var clean: set<NodePair>
    var dirty: map<NodePair, seq<Finding>>

    // Whether some schema could not be followed: nested too deeply, a reference that leads to no
    // schema, or the budget spent.
    ghost var unfollowed: bool

    /** The memo tells the truth: a clean pair is an inclusion whatever is assumed, a dirty one has findings. */
    ghost predicate Valid()
      reads this`clean, this`dirty, this`unfollowed
    {
      && (forall pair | pair in clean :: Included(docs, [], 0, pair.reversed, pair.before, pair.after))
      && (forall pair | pair in dirty :: dirty[pair] != [])
      && (forall pair | pair in dirty && Related(docs, pair.reversed, pair.before, pair.after) :: unfollowed)
    }

    ghost function Now(): Standing
      reads this
    {
      Standing(steps, lowestAssumed, unfollowed)
    }

    constructor (docs: Documents)
      ensures this.docs == docs && Valid() && fresh(this)
      ensures steps == 0 && lowestAssumed == NO_ASSUMPTION && clean == {} && dirty == map[] && !unfollowed
    {
      this.docs := docs;
      steps, lowestAssumed, clean, dirty, unfollowed := 0, NO_ASSUMPTION, {}, map[], false;
    }

    /** Spend one comparison. */
    method Charge() returns (r: Outcome<()>)
      requires Valid()
      modifies this`steps, this`unfollowed
      ensures Valid() && steps == old(steps) + 1
      ensures r.Exhausted? <==> steps > MAX_COMPARISONS
      ensures unfollowed == (old(unfollowed) || r.Exhausted?)
    {
      steps := steps + 1;
      if steps > MAX_COMPARISONS {
        unfollowed := true;
        return Exhausted;
      }
      return Done(());
    }

    /** Follow references, at most `MAX_HOPS` of them; a reference to no definition is followed to itself. */
    method Resolve(schema: Schema, defs: Definitions) returns (r: Schema)
      ensures r == Follow(defs, schema, MAX_HOPS)
    {
      r := schema;
      var seen := 0;
      while r.Ref? && seen < MAX_HOPS
        invariant 0 <= seen <= MAX_HOPS
        invariant Follow(defs, r, MAX_HOPS - seen) == Follow(defs, schema, MAX_HOPS)
        decreases MAX_HOPS - seen
      {
        r := if r.name in defs then defs[r.name] else r;
        seen := seen + 1;
      }
    }

    /**
     Compare `before` with `after`, both read in the documents of the direction, under the references being
     compared above (`active`).  A clean result is an inclusion that rests on no assumption below
     `lowestAssumed`; related schemas are clean unless one could not be followed.
     */
    method Compare(
      before: Schema, after: Schema, reversed: bool, path: Path, depth: nat, active: seq<RefPair>)
      returns (r: Outcome<seq<Finding>>)
      requires Valid() && depth <= MAX_COMPARE_DEPTH + 1
      modifies this
      ensures var q := Question(reversed, before, after);
              && Valid()
              && Goes(old(Now()), Now(), r.Done?, Walk(docs, active, q, depth), Unfollowable(docs, active, q, depth))
      ensures r.Done? ==> Under(path, r.value)
      ensures r == Done([]) ==> Included(docs, active, lowestAssumed, reversed, before, after)
      ensures Related(docs, reversed, before, after) && !unfollowed ==> r == Done([])
      ensures r.Done? ==> Says(docs, active, Question(reversed, before, after), path, depth, r.value)
      decreases MAX_COMPARE_DEPTH + 1 - depth, 8
    {
      hide Included, Follow, Related, Blocked, Sum, Costs, Slots, Walk, Unfollowable;
      Follows(docs, active, Question(reversed, before, after), depth);
      if depth > MAX_COMPARE_DEPTH {
        unfollowed := true;
        return Done([Finding(path, DepthLimit)]);
      }
      var stack := active;
      if before.Ref? && after.Ref? {
        var pair := RefPair(before.name, after.name, reversed);
        if pair in active {
          lowestAssumed := Min(lowestAssumed, IndexOf(active, pair));
          AssumedIncluded(docs, active, lowestAssumed, IndexOf(active, pair));
          return Done([]);
        }
        stack := active + [pair];
      }
      var b := Resolve(before, docs.Before(reversed));
      var a := Resolve(after, docs.After(reversed));
      if Related(docs, reversed, before, after) {
        TargetsRelated(docs, reversed, before, after);
      }
      if b.Truth? || a.Truth? {
        if b != a {
          return Done([Finding(path, ShapeChanged)]);
        }
        TruthIncluded(docs, active, lowestAssumed, reversed, b.accepting);
        FollowedIncluded(docs, active, lowestAssumed, reversed, before, after);
        return Done([]);
      }
      if b.Ref? || a.Ref? {
        unfollowed := true;
        return Done([Finding(path, UnresolvedReference)]);
      }
      r := CompareChecked(b, a, reversed, path, depth, stack, |active|);
      assert stack[..|active|] == active;
      if r == Done([]) {
        FollowedIncluded(docs, active, lowestAssumed, reversed, before, after);
      }
    }

    /** The comparison of two resolved nodes, skipped for a pair already settled. */
    method CompareChecked(
      before: Schema, after: Schema, reversed: bool, path: Path, depth: nat, stack: seq<RefPair>, base: nat)
      returns (r: Outcome<seq<Finding>>)
      requires Valid() && depth <= MAX_COMPARE_DEPTH
      requires before.Node? && after.Node?
      requires |stack| == base || (
                 && |stack| == base + 1 && stack[base].reversed == reversed
                 && Question(reversed, before, after) == Target(docs, QuestionOf(stack[base])))
      modifies this
      ensures var q := Question(reversed, before, after);
              && Valid()
              && Goes(old(Now()), Now(), r.Done?, 1 + Sum(Costs(docs, stack, q, depth), Slots(q)),
                      Blocked(docs, stack, q, depth))
      ensures r.Done? ==> Under(path, r.value)
      ensures r == Done([]) ==> Included(docs, stack[..base], lowestAssumed, reversed, before, after)
      ensures Related(docs, reversed, before, after) && !unfollowed ==> r == Done([])
      // A pair settled before costs one step; otherwise it is remembered now.
      ensures var pair := NodePair(before, after, reversed);
              Remembered(pair) ==>
                && (pair in old(clean) || pair in old(dirty) ==> steps == old(steps) + 1)
                && (pair in old(clean) && r.Done? ==> r.value == [])
                && (pair !in old(clean) && pair !in old(dirty) && r.Done? ==> IsRemembered(pair, r.value, base))
      decreases MAX_COMPARE_DEPTH + 1 - depth, 7
    {
      hide Included, Follow, Related, Blocked, Sum, Costs, Slots, Target, Valid, Remembered, Placed, Under;
      var _ :- Charge();
      var pair := NodePair(before, after, reversed);
      var known := Recall(pair, path);
      if known.Some? {
        if known.value == [] {
          Unconditional(docs, stack[..base], lowestAssumed, reversed, before, after);
        }
        return Done(known.value);
      }
      r := CompareAfresh(pair, path, depth, stack, base);
    }

    /** The pair has its findings in the memo, or is clean there unless it rests on an assumption above it. */
    ghost predicate IsRemembered(pair: NodePair, out: seq<Finding>, base: nat)
      reads this
    {
      if out != [] then pair in dirty else base <= lowestAssumed ==> pair in clean
    }

    /** The comparison of a pair that is not settled yet. */
    method CompareAfresh(pair: NodePair, path: Path, depth: nat, stack: seq<RefPair>, base: nat)
      returns (r: Outcome<seq<Finding>>)
      requires Valid() && depth <= MAX_COMPARE_DEPTH
      requires pair.before.Node? && pair.after.Node?
      requires |stack| == base || (
                 && |stack| == base + 1 && stack[base].reversed == pair.reversed
                 && Question(pair.reversed, pair.before, pair.after) == Target(docs, QuestionOf(stack[base])))
      modifies this
      ensures var q := Question(pair.reversed, pair.before, pair.after);
              && Valid()
              && Goes(old(Now()), Now(), r.Done?, Sum(Costs(docs, stack, q, depth), Slots(q)),
                      Blocked(docs, stack, q, depth))
      ensures r.Done? ==> Under(path, r.value)
      ensures r == Done([]) ==> Included(docs, stack[..base], lowestAssumed, pair.reversed, pair.before, pair.after)
      ensures Related(docs, pair.reversed, pair.before, pair.after) && !unfollowed ==> r == Done([])
      ensures r.Done? && Remembered(pair) ==> IsRemembered(pair, r.value, base)
      decreases MAX_COMPARE_DEPTH + 1 - depth, 6
    {
      hide Included, Follow, Related, Blocked, Sum, Costs, Slots, Target, Valid, Remembered, Under;
      var outer := lowestAssumed;
      lowestAssumed := NO_ASSUMPTION;
      var out :- CompareKeywords(pair.before, pair.after, pair.reversed, path, depth, stack);
      var lowest := lowestAssumed;
      if out == [] {
        Settle(docs, stack, base, lowest, pair.reversed, pair.before, pair.after);
      }
      lowestAssumed := Min(outer, lowest);
      Weaken(docs, stack[..base], lowest, lowestAssumed);
      if Remembered(pair) {
        Remember(pair, path, out, lowest >= base);
      }
      return Done(out);
    }

    /** What is remembered of a pair, said of `path`. */
    method Recall(pair: NodePair, path: Path) returns (known: Option<seq<Finding>>)
      requires Valid()
      ensures known.Some? <==> Remembered(pair) && (pair in clean || pair in dirty)
      ensures known.Some? ==> known.value == if pair in clean then [] else Placed(path, dirty[pair])
      ensures known.Some? ==> Under(path, known.value)
      ensures known == Some([]) ==> Included(docs, [], 0, pair.reversed, pair.before, pair.after)
      ensures known.Some? && Related(docs, pair.reversed, pair.before, pair.after) && !unfollowed ==> known.value == []
    {
      hide Included, Related;
      if Remembered(pair) && pair in clean {
        return Some([]);
      }
      if Remembered(pair) && pair in dirty {
        return Some(Placed(path, dirty[pair]));
      }
      return None;
    }

    /** Remember what was found of a pair: clean only when that rests on nothing, dirty with its first findings. */
    method Remember(pair: NodePair, path: Path, out: seq<Finding>, settled: bool)
      requires Valid() && Under(path, out)
      requires out == [] && settled ==> Included(docs, [], 0, pair.reversed, pair.before, pair.after)
      requires Related(docs, pair.reversed, pair.before, pair.after) && !unfollowed ==> out == []
      modifies this`clean, this`dirty
      ensures Valid()
      ensures clean == if out == [] && settled then old(clean) + {pair} else old(clean)
      ensures out == [] ==> dirty == old(dirty)
      ensures out != [] ==> pair in dirty && dirty[pair] != []
                            && |dirty[pair]| == Min(MAX_PAIR_FINDINGS, |out|)
    {
      hide Included, Related;
      if out != [] {
        var first := out[..Min(MAX_PAIR_FINDINGS, |out|)];
        dirty := dirty[pair := Relative(path, first)];
      } else if settled {
        clean := clean + {pair};
      }
    }

    method CompareKeywords(
      before: Schema, after: Schema, reversed: bool, path: Path, depth: nat, active: seq<RefPair>)
      returns (r: Outcome<seq<Finding>>)
      requires Valid() && depth <= MAX_COMPARE_DEPTH
      requires before.Node? && after.Node?
      modifies this
      ensures var q := Question(reversed, before, after);
              && Valid()
              && Goes(old(Now()), Now(), r.Done?, Cost(docs, active, q, depth, Slots(q)), Blocked(docs, active, q, depth))
      ensures r.Done? ==> Under(path, r.value)
      ensures r == Done([]) ==> Included(docs, active, lowestAssumed, reversed, before, after)
      ensures Related(docs, reversed, before, after) && !unfollowed ==> r == Done([])
      decreases MAX_COMPARE_DEPTH + 1 - depth, 5
    {
      hide Included, Valid, Under, Related, Blocked, Cost, Slots, Goes;
      if HasUnion(before) || HasUnion(after) {
        r := CompareUnions(before, after, reversed, path, depth, active);
      } else {
        r := CompareBareKeywords(before, after, reversed, path, depth, active);
      }
    }

    /** The keywords of two schemas without unions. */
    method CompareBareKeywords(
      before: Schema, after: Schema, reversed: bool, path: Path, depth: nat, active: seq<RefPair>)
      returns (r: Outcome<seq<Finding>>)
      requires Valid() && depth <= MAX_COMPARE_DEPTH
      requires before.Node? && after.Node? && !HasUnion(before) && !HasUnion(after)
      modifies this
      ensures var q := Question(reversed, before, after);
              && Valid()
              && Goes(old(Now()), Now(), r.Done?, Cost(docs, active, q, depth, Slots(q)), Blocked(docs, active, q, depth))
      ensures r.Done? ==> Under(path, r.value)
      ensures r == Done([]) ==> Included(docs, active, lowestAssumed, reversed, before, after)
      ensures Related(docs, reversed, before, after) && !unfollowed ==> r == Done([])
      decreases MAX_COMPARE_DEPTH + 1 - depth, 4
    {
      hide Included, Valid, ListedCompared, UnlistedCompared, AdditionalCompared, ElementsCompared, KeywordsCompared,
           MembersCompared, AssertionsKept, Under, HasUnion, Related, Blocked, Cost, Slots, MemberSlots, ElementSlots;
      KeywordCosts(docs, active, Question(reversed, before, after), depth);
      if Related(docs, reversed, before, after) {
        ConstraintsRelated(docs, reversed, before, after);
      }
      var asserted := CompareAssertions(before.assertions, after.assertions, path);
      var members :- CompareMembers(before, after, reversed, path, depth, active);
      var from := lowestAssumed;
      var elements :- CompareElements(before, after, reversed, path, depth, active);
      AllUnder(path, asserted, members, elements);
      if asserted + members + elements == [] {
        KeywordsWeakened(docs, active, from, lowestAssumed, reversed, before, after);
        KeywordsIncluded(docs, active, lowestAssumed, reversed, before, after);
      }
      return Done(asserted + members + elements);
    }

    /** The keywords about members of objects. */
    method CompareMembers(
      before: Schema, after: Schema, reversed: bool, path: Path, depth: nat, active: seq<RefPair>)
      returns (r: Outcome<seq<Finding>>)
      requires Valid() && depth <= MAX_COMPARE_DEPTH
      requires before.Node? && after.Node? && !HasUnion(before) && !HasUnion(after)
      modifies this
      ensures var q := Question(reversed, before, after);
              && Valid() && MemberSlots(q) <= Slots(q)
              && Goes(old(Now()), Now(), r.Done?, Cost(docs, active, q, depth, MemberSlots(q)),
                      Blocked(docs, active, q, depth))
      ensures r.Done? ==> Under(path, r.value)
      ensures r == Done([]) ==> MembersCompared(docs, active, lowestAssumed, reversed, before, after)
      ensures Related(docs, reversed, before, after) && !unfollowed ==> r == Done([])
      decreases MAX_COMPARE_DEPTH + 1 - depth, 3
    {
      hide Included, Valid, ListedCompared, UnlistedCompared, AdditionalCompared, MembersCompared, AssertionsKept, Under,
           HasUnion, Related, Blocked, Cost, Slots, ListedSlots, UnlistedSlots, OtherSlots, MemberSlots;
      MemberCosts(docs, active, Question(reversed, before, after), depth);
      if Related(docs, reversed, before, after) {
        ConstraintsRelated(docs, reversed, before, after);
      }
      var listed :- CompareListed(before, after, reversed, path, depth, active);
      var from1 := lowestAssumed;
      var unlisted :- CompareUnlisted(before, after, reversed, path, depth, active);
      var from2 := lowestAssumed;
      var required := CompareRequired(before.assertions.required, after.assertions.required, path);
      var additional :- CompareAdditional(before, after, reversed, path, depth, active);
      UnderJoined(path, listed, unlisted);
      UnderJoined(path, listed + unlisted, required);
      UnderJoined(path, listed + unlisted + required, additional);
      if listed + unlisted + required + additional == [] {
        MembersWeakened(docs, active, from1, from2, lowestAssumed, reversed, before, after);
      }
      return Done(listed + unlisted + required + additional);
    }

    /** Siblings and alternatives of two schemas of which at least one is a union. */
    method CompareUnions(
      before: Schema, after: Schema, reversed: bool, path: Path, depth: nat, active: seq<RefPair>)
      returns (r: Outcome<seq<Finding>>)
      requires Valid() && depth <= MAX_COMPARE_DEPTH
      requires before.Node? && after.Node? && (HasUnion(before) || HasUnion(after))
      modifies this
      ensures var q := Question(reversed, before, after);
              && Valid()
              && Goes(old(Now()), Now(), r.Done?, Cost(docs, active, q, depth, Slots(q)), Blocked(docs, active, q, depth))
      ensures r.Done? ==> Under(path, r.value)
      ensures r == Done([]) ==> Included(docs, active, lowestAssumed, reversed, before, after)
      ensures Related(docs, reversed, before, after) && !unfollowed ==> r == Done([])
      decreases MAX_COMPARE_DEPTH + 1 - depth, 4
    {
      hide Included, Valid, Equivalent, AllMatched, UnionsCompared, Under, Related, Blocked, Cost, Slots, BranchSlots,
           TrialSlots, SiblingSlots;
      UnionCosts(docs, active, Question(reversed, before, after), depth);
      var beside :- CompareSiblings(before, after, reversed, path, depth, active);
      var from1 := lowestAssumed;
      var oneOf :- CompareOneOf(before, after, reversed, path, depth, active);
      var from2 := lowestAssumed;
      var anyOf :- CompareAnyOf(before, after, reversed, path, depth, active);
      UnderJoined(path, beside, oneOf);
      UnderJoined(path, beside + oneOf, anyOf);
      if beside + oneOf + anyOf == [] {
        UnionsWeakened(docs, active, from1, from2, lowestAssumed, reversed, before, after);
        UnionsIncluded(docs, active, lowestAssumed, reversed, before, after);
      }
      return Done(beside + oneOf + anyOf);
    }

    /** Exactly-one alternatives must be equivalent: widening one could leave two that match. */
    method CompareOneOf(
      before: Schema, after: Schema, reversed: bool, path: Path, depth: nat, active: seq<RefPair>)
      returns (r: Outcome<seq<Finding>>)
      requires Valid() && depth <= MAX_COMPARE_DEPTH
      requires before.Node? && after.Node? && (HasUnion(before) || HasUnion(after))
      modifies this
      ensures var q := Question(reversed, before, after);
              && Valid() && BranchSlots(q) <= Slots(q)
              && Goes(old(Now()), Now(), r.Done?, Cost(docs, active, q, depth, BranchSlots(q)),
                      Blocked(docs, active, q, depth))
      ensures r.Done? ==> Under(path, r.value)
      ensures r.Done? ==> r.value == [] || r.value == [Finding(path, OneOfChanged)]
      ensures r == Done([]) ==>
                (before.oneOf == [] && after.oneOf == [])
                || (before.oneOf != [] && Equivalent(docs, active, lowestAssumed, reversed, before.oneOf, after.oneOf))
      ensures Related(docs, reversed, before, after) && !unfollowed ==> r == Done([])
      decreases MAX_COMPARE_DEPTH + 1 - depth, 3
    {
      hide Included, Valid, Equivalent, Under, Related, Blocked, Cost;
      OneUnder(path, [], OneOfChanged);
      UnderJoined(path, [], []);
      if before.oneOf == [] && after.oneOf == [] {
        return Done([]);
      }
      var same :- AlternativesEquivalent(before.oneOf, after.oneOf, reversed, path, depth, active,
                                         Question(reversed, before, after));
      return Done(if same then [] else [Finding(path, OneOfChanged)]);
    }

    /** Every old alternative (an old single schema is one) must still be accepted by some new one. */
    method CompareAnyOf(
      before: Schema, after: Schema, reversed: bool, path: Path, depth: nat, active: seq<RefPair>)
      returns (r: Outcome<seq<Finding>>)
      requires Valid() && depth <= MAX_COMPARE_DEPTH
      requires before.Node? && after.Node? && (HasUnion(before) || HasUnion(after))
      modifies this
      ensures var q := Question(reversed, before, after);
              && Valid() && TrialSlots(q) <= Slots(q)
              && Goes(old(Now()), Now(), r.Done?, Cost(docs, active, q, depth, TrialSlots(q)),
                      Blocked(docs, active, q, depth))
      ensures r.Done? ==> Under(path, r.value)
      ensures r.Done? ==> forall f | f in r.value :: f == Finding(path, AlternativeDropped)
      ensures r == Done([]) ==>
                (before.anyOf == [] && after.anyOf == [])
                || AllMatched(docs, active, lowestAssumed, reversed, Alternatives(before), Alternatives(after))
      ensures Related(docs, reversed, before, after) && !unfollowed ==> r == Done([])
      decreases MAX_COMPARE_DEPTH + 1 - depth, 3
    {
      hide Included, Valid, AllMatched, Under, Related, Blocked, Cost;
      UnderJoined(path, [], []);
      if before.anyOf == [] && after.anyOf == [] {
        return Done([]);
      }
      r := MatchAlternatives(Alternatives(before), Alternatives(after), reversed, path, depth, active,
                             Question(reversed, before, after));
    }

    /** Constraints beside a new union narrow it whatever its alternatives say. */
    method CompareSiblings(
      before: Schema, after: Schema, reversed: bool, path: Path, depth: nat, active: seq<RefPair>)
      returns (r: Outcome<seq<Finding>>)
      requires Valid() && depth <= MAX_COMPARE_DEPTH
      requires before.Node? && after.Node? && (HasUnion(before) || HasUnion(after))
      modifies this
      ensures var q := Question(reversed, before, after);
              && Valid() && SiblingSlots(q) <= Slots(q)
              && Goes(old(Now()), Now(), r.Done?, Cost(docs, active, q, depth, SiblingSlots(q)),
                      Blocked(docs, active, q, depth))
      ensures r.Done? ==> Under(path, r.value)
      ensures r == Done([]) && HasUnion(after) ==>
                Included(docs, active, lowestAssumed, reversed, WithoutUnions(before), WithoutUnions(after))
      ensures Related(docs, reversed, before, after) && !unfollowed ==> r == Done([])
      decreases MAX_COMPARE_DEPTH + 1 - depth, 2
    {
      hide Included, Valid, Under, Related, Blocked, Cost, Walk, Unfollowable;
      ghost var q := Question(reversed, before, after);
      UnderJoined(path, [], []);
      NothingCosts(docs, active, q, depth);
      if !HasUnion(after) {
        return Done([]);
      }
      AskOne(docs, active, q, depth, {}, Siblings, SiblingSlots(q));
      if Related(docs, reversed, before, after) {
        SiblingsRelated(docs, reversed, before, after);
      }
      r := Compare(WithoutUnions(before), WithoutUnions(after), reversed, path, depth + 1, active);
    }

    /** Whether the branches of two `oneOf` are pairwise equivalent, each compared in both directions. */
    method AlternativesEquivalent(
      before: seq<Schema>, after: seq<Schema>, reversed: bool, path: Path, depth: nat, active: seq<RefPair>,
      ghost q: Question)
      returns (r: Outcome<bool>)
      requires Valid() && depth <= MAX_COMPARE_DEPTH
      requires before != [] || after != []
      requires Nodes(q) && q.reversed == reversed && q.before.oneOf == before && q.after.oneOf == after
      modifies this
      ensures Valid()
      ensures BranchSlots(q) <= Slots(q)
      ensures Goes(old(Now()), Now(), r.Done?, Cost(docs, active, q, depth, BranchSlots(q)),
                   Blocked(docs, active, q, depth))
      ensures r == Done(true) ==>
                before != [] && Equivalent(docs, active, lowestAssumed, reversed, before, after)
      ensures Related(docs, reversed, q.before, q.after) && !unfollowed ==> r == Done(true)
      decreases MAX_COMPARE_DEPTH + 1 - depth, 2
    {
      hide Included, Valid, Related, Blocked, Cost, Walk, Unfollowable, Slots, BranchSlots, Child;
      BranchesAsked(q);
      NothingCosts(docs, active, q, depth);
      if Related(docs, reversed, q.before, q.after) {
        BranchesCounted(docs, reversed, q.before, q.after);
      }
      if before == [] || after == [] || |before| != |after| {
        return Done(false);
      }
      ghost var asked: set<Slot>, start := {}, Now();
      for index := 0 to |before|
        invariant Valid() && asked <= BranchSlots(q)
        invariant forall i: nat, backward | Branch(i, backward) in asked :: i < index
        invariant Goes(start, Now(), true, Cost(docs, active, q, depth, asked), Blocked(docs, active, q, depth))
        invariant forall i | 0 <= i < index ::
                    && Included(docs, active, lowestAssumed, reversed, before[i], after[i])
                    && Included(docs, active, lowestAssumed, !reversed, after[i], before[i])
      {
        var from := lowestAssumed;
        BranchAsked(q, index);
        AskOne(docs, active, q, depth, asked, Branch(index, false), BranchSlots(q));
        AskOne(docs, active, q, depth, asked + {Branch(index, false)}, Branch(index, true), BranchSlots(q));
        if Related(docs, reversed, q.before, q.after) {
          BranchRelated(docs, reversed, q.before, q.after, index);
        }
        var same :- BranchesEquivalent(before[index], after[index], reversed, path + [Alternative(index)], depth, active);
        if !same {
          PartCosts(docs, active, q, depth, asked + {Branch(index, false)} + {Branch(index, true)}, BranchSlots(q));
          return Done(false);
        }
        Weaken(docs, active, from, lowestAssumed);
        asked := asked + {Branch(index, false)} + {Branch(index, true)};
      }
      PartCosts(docs, active, q, depth, asked, BranchSlots(q));
      return Done(true);
    }

    /** Whether two branches are equivalent, compared in both directions. */
    method BranchesEquivalent(
      before: Schema, after: Schema, reversed: bool, path: Path, depth: nat, active: seq<RefPair>)
      returns (r: Outcome<bool>)
      requires Valid() && depth <= MAX_COMPARE_DEPTH
      modifies this
      ensures var q, back := Question(reversed, before, after), Question(!reversed, after, before);
              && Valid()
              && Goes(old(Now()), Now(), r.Done?,
                      Walk(docs, active, q, depth + 1) + Walk(docs, active, back, depth + 1),
                      Unfollowable(docs, active, q, depth + 1) || Unfollowable(docs, active, back, depth + 1))
      ensures r == Done(true) ==>
                && Included(docs, active, lowestAssumed, reversed, before, after)
                && Included(docs, active, lowestAssumed, !reversed, after, before)
      ensures Related(docs, reversed, before, after) && Related(docs, !reversed, after, before) && !unfollowed ==>
                r == Done(true)
      decreases MAX_COMPARE_DEPTH + 1 - depth, 1
    {
      hide Included, Valid, Related, Walk, Unfollowable, Under;
      var forward :- Compare(before, after, reversed, path, depth + 1, active);
      var from := lowestAssumed;
      var backward :- Compare(after, before, !reversed, path, depth + 1, active);
      Weaken(docs, active, from, lowestAssumed);
      return Done(forward == [] && backward == []);
    }

    /** Every old alternative must still be accepted by some new one. */
    method MatchAlternatives(
      branches: seq<Schema>, candidates: seq<Schema>, reversed: bool, path: Path, depth: nat, active: seq<RefPair>,
      ghost q: Question)
      returns (r: Outcome<seq<Finding>>)
      requires Valid() && depth <= MAX_COMPARE_DEPTH
      requires Nodes(q) && q.reversed == reversed && (q.before.anyOf != [] || q.after.anyOf != [])
      requires branches == Alternatives(q.before) && candidates == Alternatives(q.after)
      modifies this
      ensures Valid()
      ensures TrialSlots(q) <= Slots(q)
      ensures Goes(old(Now()), Now(), r.Done?, Cost(docs, active, q, depth, TrialSlots(q)),
                   Blocked(docs, active, q, depth))
      ensures r.Done? ==> Under(path, r.value)
      ensures r.Done? ==> forall f | f in r.value :: f == Finding(path, AlternativeDropped)
      // Every trial is charged, whatever it finds: at least one for each old alternative.
      ensures r.Done? && candidates != [] ==> old(steps) + |branches| <= steps
      ensures r == Done([]) ==> AllMatched(docs, active, lowestAssumed, reversed, branches, candidates)
      ensures Related(docs, reversed, q.before, q.after) && !unfollowed ==> r == Done([])
      decreases MAX_COMPARE_DEPTH + 1 - depth, 2
    {
      hide Included, Valid, Related, Blocked, Cost, Walk, Unfollowable, Under, SomeIncludes, SomeRelated;
      NothingCosts(docs, active, q, depth);
      UnderJoined(path, [], []);
      var out := [];
      ghost var asked: set<Slot>, start := {}, Now();
      for index := 0 to |branches|
        invariant Valid() && asked <= TrialSlots(q)
        invariant forall i: nat, k: nat | Trial(i, k) in asked :: i < index
        invariant Goes(start, Now(), true, Cost(docs, active, q, depth, asked), Blocked(docs, active, q, depth))
        invariant candidates != [] ==> start.steps + index <= steps
        invariant Under(path, out) && forall f | f in out :: f == Finding(path, AlternativeDropped)
        invariant out == [] ==> forall i | 0 <= i < index ::
                    SomeIncludes(docs, active, lowestAssumed, reversed, branches[i], candidates)
        invariant Related(docs, reversed, q.before, q.after) && !unfollowed ==> out == []
      {
        ghost var from := lowestAssumed;
        if Related(docs, reversed, q.before, q.after) {
          AlternativeRelated(docs, reversed, q.before, q.after, index);
        }
        ghost var tried;
        var matched;
        matched, tried :- MatchAlternative(branches, candidates, index, reversed, path, depth, active, q, start, asked);
        asked := tried;
        StillMatched(docs, active, from, lowestAssumed, reversed, branches, index, candidates);
        if !matched {
          UnderJoined(path, out, [Finding(path, AlternativeDropped)]);
          OneUnder(path, [], AlternativeDropped);
          out := out + [Finding(path, AlternativeDropped)];
        }
      }
      PartCosts(docs, active, q, depth, asked, TrialSlots(q));
      return Done(out);
    }

    /** Whether some new alternative accepts what one old alternative did, tried in order, after all done since `start`. */
    method MatchAlternative(
      branches: seq<Schema>, candidates: seq<Schema>, index: nat, reversed: bool, path: Path, depth: nat,
      active: seq<RefPair>, ghost q: Question, ghost start: Standing, ghost asked: set<Slot>)
      returns (r: Outcome<bool>, ghost tried: set<Slot>)
      requires Valid() && depth <= MAX_COMPARE_DEPTH && index < |branches|
      requires Nodes(q) && q.reversed == reversed && (q.before.anyOf != [] || q.after.anyOf != [])
      requires branches == Alternatives(q.before) && candidates == Alternatives(q.after)
      requires asked <= TrialSlots(q) <= Slots(q) && forall i: nat, k: nat | Trial(i, k) in asked :: i < index
      requires Goes(start, Now(), true, Cost(docs, active, q, depth, asked), Blocked(docs, active, q, depth))
      modifies this
      ensures Valid() && (r.Done? ==> lowestAssumed <= old(lowestAssumed)) && (old(unfollowed) ==> unfollowed)
      ensures asked <= tried <= TrialSlots(q) && forall i: nat, k: nat | Trial(i, k) in tried :: i <= index
      ensures r.Done? ==>
                Goes(start, Now(), true, Cost(docs, active, q, depth, tried), Blocked(docs, active, q, depth))
      ensures r.Exhausted? ==>
                Goes(start, Now(), false, Cost(docs, active, q, depth, TrialSlots(q)), Blocked(docs, active, q, depth))
      ensures r.Done? ==> old(steps) + (if candidates == [] then 0 else 1) <= steps
      ensures r == Done(true) ==> SomeIncludes(docs, active, lowestAssumed, reversed, branches[index], candidates)
      ensures SomeRelated(docs, reversed, branches[index], candidates) && !unfollowed ==> r == Done(true)
      decreases MAX_COMPARE_DEPTH + 1 - depth, 1
    {
      hide Included, Valid, Related, Blocked, Cost, Walk, Unfollowable, Under, AboutUnions, Slots, TrialSlots;
      tried := asked;
      var matched, next := false, 0;
      while next < |candidates| && !matched
        invariant 0 <= next <= |candidates|
        invariant Valid() && asked <= tried <= TrialSlots(q)
        invariant forall i: nat, k: nat | Trial(i, k) in tried :: i < index || (i == index && k < next)
        invariant Goes(start, Now(), true, Cost(docs, active, q, depth, tried), Blocked(docs, active, q, depth))
        invariant lowestAssumed <= old(lowestAssumed) && (old(unfollowed) ==> unfollowed) && old(steps) + next <= steps
        invariant matched ==> SomeIncludes(docs, active, lowestAssumed, reversed, branches[index], candidates)
        invariant matched ==> next > 0
        invariant !unfollowed && !matched ==>
                    forall k | 0 <= k < next :: !Related(docs, reversed, branches[index], candidates[k])
      {
        TrialAsked(q, index, next);
        AskOne(docs, active, q, depth, tried, Trial(index, next), TrialSlots(q));
        var _ :- Charge();
        var trial :- Compare(
          branches[index], candidates[next], reversed, path + [Alternative(index)], depth + 1, active);
        matched := trial == [];
        tried := tried + {Trial(index, next)};
        next := next + 1;
      }
      return Done(matched), tried;
    }

    /** The properties the old schema lists: each must still be listed, and accept as much. */
    method CompareListed(
      before: Schema, after: Schema, reversed: bool, path: Path, depth: nat, active: seq<RefPair>)
      returns (r: Outcome<seq<Finding>>)
      requires Valid() && depth <= MAX_COMPARE_DEPTH && before.Node? && after.Node?
      requires !HasUnion(before) && !HasUnion(after)
      modifies this
      ensures var q := Question(reversed, before, after);
              && Valid() && ListedSlots(q) <= Slots(q)
              && Goes(old(Now()), Now(), r.Done?, Cost(docs, active, q, depth, ListedSlots(q)),
                      Blocked(docs, active, q, depth))
      ensures r.Done? ==> Under(path, r.value)
      ensures r == Done([]) ==> ListedCompared(docs, active, lowestAssumed, reversed, before, after)
      ensures r.Done? ==> forall name | name in before.properties && name !in after.properties ::
                Finding(path + [Property(name)], PropertyRemoved) in r.value
      ensures Related(docs, reversed, before, after) && !unfollowed ==> r == Done([])
      decreases MAX_COMPARE_DEPTH + 1 - depth, 0
    {
      hide Included, Valid, Related, Blocked, Cost, Walk, Unfollowable, HasUnion, Under, ListedExcept, ListedCompared,
           Slots, ListedSlots, Child;
      ghost var q := Question(reversed, before, after);
      ghost var asked: set<Slot>, start := {}, Now();
      NothingCosts(docs, active, q, depth);
      NothingListed(q);
      NoneListed(docs, active, lowestAssumed, reversed, before, after);
      UnderJoined(path, [], []);
      var out := [];
      var names := before.properties.Keys;
      while names != {}
        invariant names <= before.properties.Keys
        invariant Valid() && asked <= ListedSlots(q) && forall name | Listed(name) in asked :: name !in names
        invariant Goes(start, Now(), true, Cost(docs, active, q, depth, asked), Blocked(docs, active, q, depth))
        invariant Under(path, out)
        invariant out == [] ==> ListedExcept(docs, active, lowestAssumed, reversed, before, after, names)
        invariant forall name | name in before.properties && name !in after.properties && name !in names ::
                    Finding(path + [Property(name)], PropertyRemoved) in out
        invariant Related(docs, reversed, before, after) && !unfollowed ==> out == []
        decreases |names|
      {
        var name :| name in names;
        ghost var left := names;
        names := names - {name};
        if Related(docs, reversed, before, after) {
          ListedRelated(docs, reversed, before, after, name);
        }
        if name !in after.properties {
          OneUnder(path, [Property(name)], PropertyRemoved);
          UnderJoined(path, out, [Finding(path + [Property(name)], PropertyRemoved)]);
          out := out + [Finding(path + [Property(name)], PropertyRemoved)];
        } else {
          ListedAsked(q, name);
          AskOne(docs, active, q, depth, asked, Listed(name), ListedSlots(q));
          var from := lowestAssumed;
          var found :- Compare(before.properties[name], after.properties[name], reversed,
                               path + [Property(name)], depth + 1, active);
          if out + found == [] {
            OneMoreListed(docs, active, from, lowestAssumed, reversed, before, after, left, name);
          }
          UnderLonger(path, [Property(name)], found);
          UnderJoined(path, out, found);
          asked, out := asked + {Listed(name)}, out + found;
        }
      }
      PartCosts(docs, active, q, depth, asked, ListedSlots(q));
      AllListed(docs, active, lowestAssumed, reversed, before, after);
      return Done(out);
    }

    /** The properties only the new schema lists: each must accept what the old additional members could be. */
    method CompareUnlisted(
      before: Schema, after: Schema, reversed: bool, path: Path, depth: nat, active: seq<RefPair>)
      returns (r: Outcome<seq<Finding>>)
      requires Valid() && depth <= MAX_COMPARE_DEPTH && before.Node? && after.Node?
      requires !HasUnion(before) && !HasUnion(after)
      modifies this
      ensures var q := Question(reversed, before, after);
              && Valid() && UnlistedSlots(q) <= Slots(q)
              && Goes(old(Now()), Now(), r.Done?, Cost(docs, active, q, depth, UnlistedSlots(q)),
                      Blocked(docs, active, q, depth))
      ensures r.Done? ==> Under(path, r.value)
      ensures r == Done([]) ==> UnlistedCompared(docs, active, lowestAssumed, reversed, before, after)
      ensures Related(docs, reversed, before, after) && !unfollowed ==> r == Done([])
      decreases MAX_COMPARE_DEPTH + 1 - depth, 0
    {
      hide Included, Valid, Related, Blocked, Cost, Walk, Unfollowable, HasUnion, Under, UnlistedExcept,
           UnlistedCompared, Slots, UnlistedSlots, Child;
      ghost var q := Question(reversed, before, after);
      ghost var asked: set<Slot>, start := {}, Now();
      NothingCosts(docs, active, q, depth);
      NothingUnlisted(q);
      NoneUnlisted(docs, active, lowestAssumed, reversed, before, after);
      UnderJoined(path, [], []);
      var out := [];
      var names := after.properties.Keys;
      while names != {}
        invariant names <= after.properties.Keys
        invariant Valid() && asked <= UnlistedSlots(q) && forall name | Unlisted(name) in asked :: name !in names
        invariant Goes(start, Now(), true, Cost(docs, active, q, depth, asked), Blocked(docs, active, q, depth))
        invariant Under(path, out)
        invariant out == [] ==> UnlistedExcept(docs, active, lowestAssumed, reversed, before, after, names)
        invariant Related(docs, reversed, before, after) && !unfollowed ==> out == []
        decreases |names|
      {
        var name :| name in names;
        ghost var left, from := names, lowestAssumed;
        names := names - {name};
        if name !in before.properties && before.additional != CLOSED {
          UnlistedAsked(q, name);
          AskOne(docs, active, q, depth, asked, Unlisted(name), UnlistedSlots(q));
          if Related(docs, reversed, before, after) {
            UnlistedRelated(docs, reversed, before, after, name);
          }
          var found :- Compare(OldAdditional(before), after.properties[name], reversed,
                               path + [Property(name)], depth + 1, active);
          UnderLonger(path, [Property(name)], found);
          UnderJoined(path, out, found);
          asked, out := asked + {Unlisted(name)}, out + found;
        }
        if out == [] {
          OneMoreUnlisted(docs, active, from, lowestAssumed, reversed, before, after, left, name);
        }
      }
      AllUnlisted(docs, active, lowestAssumed, reversed, before, after);
      PartCosts(docs, active, q, depth, asked, UnlistedSlots(q));
      return Done(out);
    }

    method CompareRequired(before: set<string>, after: set<string>, path: Path) returns (out: seq<Finding>)
      ensures Under(path, out)
      ensures out == [] <==> after <= before
      ensures forall name :: Finding(path + [Property(name)], NowRequired) in out <==> name in after - before
    {
      out := [];
      var names := after - before;
      while names != {}
        invariant names <= after - before
        invariant Under(path, out)
        invariant out == [] <==> names == after - before
        invariant forall name :: Finding(path + [Property(name)], NowRequired) in out <==> name in after - before - names
        decreases |names|
      {
        var name :| name in names;
        names := names - {name};
        assert forall other :: (path + [Property(other)])[|path|] == Property(other);
        out := out + [Finding(path + [Property(name)], NowRequired)];
      }
      if after - before == {} {
        forall name | name in after ensures name in before {
          assert name !in after - before;
        }
      }
    }

    method CompareAdditional(
      before: Schema, after: Schema, reversed: bool, path: Path, depth: nat, active: seq<RefPair>)
      returns (r: Outcome<seq<Finding>>)
      requires Valid() && depth <= MAX_COMPARE_DEPTH && before.Node? && after.Node?
      requires !HasUnion(before) && !HasUnion(after)
      modifies this
      ensures var q := Question(reversed, before, after);
              && Valid() && OtherSlots(q) <= Slots(q)
              && Goes(old(Now()), Now(), r.Done?, Cost(docs, active, q, depth, OtherSlots(q)),
                      Blocked(docs, active, q, depth))
      ensures r.Done? ==> Under(path, r.value)
      ensures r == Done([]) ==> AdditionalCompared(docs, active, lowestAssumed, reversed, before, after)
      ensures before.additional != CLOSED && after.additional == CLOSED ==> r == Done([Finding(path, AdditionalClosed)])
      ensures Related(docs, reversed, before, after) && !unfollowed ==> r == Done([])
      decreases MAX_COMPARE_DEPTH + 1 - depth, 0
    {
      hide Included, Valid, Related, Blocked, Cost, Walk, Unfollowable, HasUnion, Under;
      ghost var q := Question(reversed, before, after);
      NothingCosts(docs, active, q, depth);
      UnderJoined(path, [], []);
      if && Related(docs, reversed, before, after) && before.additional != CLOSED
         && after.additional.Some? && after.additional.value != Truth(true)
      {
        AdditionalRelated(docs, reversed, before, after);
      }
      if after.additional == CLOSED && before.additional != CLOSED {
        OneUnder(path, [], AdditionalClosed);
        return Done([Finding(path, AdditionalClosed)]);
      }
      if after.additional.Some? && !after.additional.value.Truth? && before.additional != CLOSED {
        AskOne(docs, active, q, depth, {}, Others, OtherSlots(q));
        r := Compare(OldAdditional(before), after.additional.value, reversed,
                     path + [Additional], depth + 1, active);
        if r.Done? {
          UnderLonger(path, [Additional], r.value);
        }
        return;
      }
      return Done([]);
    }

    method CompareElements(
      before: Schema, after: Schema, reversed: bool, path: Path, depth: nat, active: seq<RefPair>)
      returns (r: Outcome<seq<Finding>>)
      requires Valid() && depth <= MAX_COMPARE_DEPTH && before.Node? && after.Node?
      requires !HasUnion(before) && !HasUnion(after)
      modifies this
      ensures var q := Question(reversed, before, after);
              && Valid() && ElementSlots(q) <= Slots(q)
              && Goes(old(Now()), Now(), r.Done?, Cost(docs, active, q, depth, ElementSlots(q)),
                      Blocked(docs, active, q, depth))
      ensures r.Done? ==> Under(path, r.value)
      ensures r == Done([]) ==> ElementsCompared(docs, active, lowestAssumed, reversed, before, after)
      ensures Related(docs, reversed, before, after) && !unfollowed ==> r == Done([])
      decreases MAX_COMPARE_DEPTH + 1 - depth, 0, 1
    {
      hide Included, Valid, PositionsCompared, LaterCompared, ElementsCompared, Under, Related, Blocked, Cost, HasUnion,
           ElementSlots, SharedPlaces, LaterPlaces, Slots, ItemSlots;
      ghost var q := Question(reversed, before, after);
      ElementCosts(docs, active, q, depth);
      var items :- CompareItems(before, after, reversed, path, depth, active);
      var from0 := lowestAssumed;
      var listed :- ComparePositions(before.prefixItems, after.prefixItems, reversed, path, depth, active, q);
      var from1 := lowestAssumed;
      var later :- CompareLaterPositions(|before.prefixItems|, after.prefixItems, reversed, path, depth, active, q);
      UnderJoined(path, items, listed);
      UnderJoined(path, items + listed, later);
      if items + listed + later == [] {
        ElementsWeakened(docs, active, from0, from1, lowestAssumed, reversed, before, after);
      }
      return Done(items + listed + later);
    }

    method CompareItems(
      before: Schema, after: Schema, reversed: bool, path: Path, depth: nat, active: seq<RefPair>)
      returns (r: Outcome<seq<Finding>>)
      requires Valid() && depth <= MAX_COMPARE_DEPTH && before.Node? && after.Node?
      requires !HasUnion(before) && !HasUnion(after)
      modifies this
      ensures var q := Question(reversed, before, after);
              && Valid() && ItemSlots(q) <= Slots(q)
              && Goes(old(Now()), Now(), r.Done?, Cost(docs, active, q, depth, ItemSlots(q)),
                      Blocked(docs, active, q, depth))
      ensures r.Done? ==> Under(path, r.value)
      ensures before.items.None? && after.items.Some? ==> r == Done([Finding(path, ItemSchemaAdded)])
      ensures r == Done([]) && after.items.Some? ==>
                before.items.Some?
                && Included(docs, active, lowestAssumed, reversed, before.items.value, after.items.value)
      ensures Related(docs, reversed, before, after) && !unfollowed ==> r == Done([])
      decreases MAX_COMPARE_DEPTH + 1 - depth, 0, 0
    {
      hide Included, Valid, Under, Related, Blocked, Cost, Walk, Unfollowable, HasUnion;
      ghost var q := Question(reversed, before, after);
      NothingCosts(docs, active, q, depth);
      UnderJoined(path, [], []);
      if Related(docs, reversed, before, after) && after.items.Some? {
        ItemsRelated(docs, reversed, before, after);
      }
      if before.items.Some? && after.items.Some? {
        AskOne(docs, active, q, depth, {}, Items, ItemSlots(q));
        r := Compare(before.items.value, after.items.value, reversed, path + [Elements], depth + 1, active);
        if r.Done? {
          UnderLonger(path, [Elements], r.value);
        }
        return;
      }
      if after.items.Some? {
        OneUnder(path, [], ItemSchemaAdded);
        return Done([Finding(path, ItemSchemaAdded)]);
      }
      return Done([]);
    }

    /** Each position the old schema lists is still listed, with a schema that includes the old one. */
    method ComparePositions(
      before: seq<Schema>, after: seq<Schema>, reversed: bool, path: Path, depth: nat, active: seq<RefPair>,
      ghost q: Question)
      returns (r: Outcome<seq<Finding>>)
      requires Valid() && depth <= MAX_COMPARE_DEPTH
      requires Nodes(q) && !AboutUnions(q) && q.reversed == reversed
      requires q.before.prefixItems == before && q.after.prefixItems == after
      modifies this
      ensures Valid() && SharedPlaces(q) <= Slots(q)
      ensures Goes(old(Now()), Now(), r.Done?, Cost(docs, active, q, depth, SharedPlaces(q)),
                   Blocked(docs, active, q, depth))
      ensures r.Done? ==> Under(path, r.value)
      ensures r == Done([]) ==> PositionsCompared(docs, active, lowestAssumed, reversed, before, after, |before|)
      ensures r.Done? ==> forall i | |after| <= i < |before| ::
                Finding(path + [Position(i)], PositionRemoved) in r.value
      ensures Related(docs, reversed, q.before, q.after) && !unfollowed ==> r == Done([])
      decreases MAX_COMPARE_DEPTH + 1 - depth, 0, 0
    {
      hide Included, Valid, PositionsCompared, Under, Related, Blocked, Cost, Walk, Unfollowable, HasUnion, Slots,
           SharedPlaces, Child;
      PlacesAsked(q);
      NoPositions(docs, active, lowestAssumed, reversed, before, after);
      NothingCosts(docs, active, q, depth);
      UnderJoined(path, [], []);
      var out := [];
      ghost var asked: set<Slot>, start := {}, Now();
      for index := 0 to |before|
        invariant Valid() && asked <= SharedPlaces(q) && forall i: nat | Place(i) in asked :: i < index
        invariant Goes(start, Now(), true, Cost(docs, active, q, depth, asked), Blocked(docs, active, q, depth))
        invariant Under(path, out)
        invariant out == [] ==> PositionsCompared(docs, active, lowestAssumed, reversed, before, after, index)
        invariant forall i | |after| <= i < index :: Finding(path + [Position(i)], PositionRemoved) in out
        invariant Related(docs, reversed, q.before, q.after) && !unfollowed ==> out == []
      {
        var here := [Position(index)];
        if Related(docs, reversed, q.before, q.after) {
          PositionRelated(docs, reversed, q.before, q.after, index);
        }
        if index >= |after| {
          OneUnder(path, here, PositionRemoved);
          UnderJoined(path, out, [Finding(path + here, PositionRemoved)]);
          out := out + [Finding(path + here, PositionRemoved)];
        } else {
          PlaceAsked(q, index);
          AskOne(docs, active, q, depth, asked, Place(index), SharedPlaces(q));
          var from := lowestAssumed;
          var found :- Compare(before[index], after[index], reversed, path + here, depth + 1, active);
          UnderLonger(path, here, found);
          UnderJoined(path, out, found);
          if out + found == [] {
            PositionCompared(docs, active, from, lowestAssumed, reversed, before, after, index);
          }
          asked, out := asked + {Place(index)}, out + found;
        }
      }
      PartCosts(docs, active, q, depth, asked, SharedPlaces(q));
      return Done(out);
    }

    /** A position the old schema did not list accepted anything there. */
    method CompareLaterPositions(
      listed: nat, after: seq<Schema>, reversed: bool, path: Path, depth: nat, active: seq<RefPair>,
      ghost q: Question)
      returns (r: Outcome<seq<Finding>>)
      requires Valid() && depth <= MAX_COMPARE_DEPTH
      requires Nodes(q) && !AboutUnions(q) && q.reversed == reversed
      requires |q.before.prefixItems| == listed && q.after.prefixItems == after
      modifies this
      ensures Valid() && LaterPlaces(q) <= Slots(q)
      ensures Goes(old(Now()), Now(), r.Done?, Cost(docs, active, q, depth, LaterPlaces(q)),
                   Blocked(docs, active, q, depth))
      ensures r.Done? ==> Under(path, r.value)
      ensures r == Done([]) ==> LaterCompared(docs, active, lowestAssumed, reversed, listed, after, |after|)
      ensures Related(docs, reversed, q.before, q.after) && !unfollowed ==> r == Done([])
      decreases MAX_COMPARE_DEPTH + 1 - depth, 0, 0
    {
      hide Included, Valid, LaterCompared, Under, Related, Blocked, Cost, Walk, Unfollowable, HasUnion, Slots,
           LaterPlaces, Child;
      PlacesAsked(q);
      NoLaterPositions(docs, active, lowestAssumed, reversed, listed, after);
      NothingCosts(docs, active, q, depth);
      UnderJoined(path, [], []);
      var out := [];
      var position := listed;
      ghost var asked: set<Slot>, start := {}, Now();
      while position < |after|
        invariant listed <= position
        invariant Valid() && asked <= LaterPlaces(q) && forall i: nat | Place(i) in asked :: i < position
        invariant Goes(start, Now(), true, Cost(docs, active, q, depth, asked), Blocked(docs, active, q, depth))
        invariant Under(path, out)
        invariant out == [] ==> LaterCompared(docs, active, lowestAssumed, reversed, listed, after, position)
        invariant Related(docs, reversed, q.before, q.after) && !unfollowed ==> out == []
      {
        var from, here := lowestAssumed, [Position(position)];
        PlaceAsked(q, position);
        AskOne(docs, active, q, depth, asked, Place(position), LaterPlaces(q));
        if Related(docs, reversed, q.before, q.after) {
          PositionRelated(docs, reversed, q.before, q.after, position);
        }
        var found :- Compare(UNCONSTRAINED, after[position], reversed, path + here, depth + 1, active);
        UnderLonger(path, here, found);
        UnderJoined(path, out, found);
        if out + found == [] {
          LaterPositionCompared(docs, active, from, lowestAssumed, reversed, listed, after, position);
        }
        asked, out := asked + {Place(position)}, out + found;
        position := position + 1;
      }
      PartCosts(docs, active, q, depth, asked, LaterPlaces(q));
      if out == [] {
        AllLaterPositions(docs, active, lowestAssumed, reversed, listed, after, position);
      }
      return Done(out);
    }
  }

  /** The listed properties but those still to be compared. */
  ghost predicate ListedExcept(
    docs: Documents, active: seq<RefPair>, from: nat, reversed: bool, before: Schema, after: Schema, names: set<string>)
    requires before.Node? && after.Node?
  {
    forall name | name in before.properties && name !in names ::
      && name in after.properties
      && Included(docs, active, from, reversed, before.properties[name], after.properties[name])
  }

  lemma NoneListed(
    docs: Documents, active: seq<RefPair>, from: nat, reversed: bool, before: Schema, after: Schema)
    requires before.Node? && after.Node?
    ensures ListedExcept(docs, active, from, reversed, before, after, before.properties.Keys)
  {
  }

  lemma OneMoreListed(
    docs: Documents, active: seq<RefPair>, from: nat, to: nat, reversed: bool, before: Schema, after: Schema,
    names: set<string>, name: string)
    requires before.Node? && after.Node? && to <= from && name in before.properties && name in after.properties
    requires ListedExcept(docs, active, from, reversed, before, after, names)
    requires Included(docs, active, to, reversed, before.properties[name], after.properties[name])
    ensures ListedExcept(docs, active, to, reversed, before, after, names - {name})
  {
    hide Included;
    Weaken(docs, active, from, to);
  }

  lemma AllListed(
    docs: Documents, active: seq<RefPair>, from: nat, reversed: bool, before: Schema, after: Schema)
    requires before.Node? && after.Node?
    ensures ListedExcept(docs, active, from, reversed, before, after, {}) ==>
              ListedCompared(docs, active, from, reversed, before, after)
  {
    hide Included;
  }

  /** The newly listed properties but those still to be compared. */
  ghost predicate UnlistedExcept(
    docs: Documents, active: seq<RefPair>, from: nat, reversed: bool, before: Schema, after: Schema, names: set<string>)
    requires before.Node? && after.Node?
  {
    before.additional != CLOSED ==>
      forall name | name in after.properties && name !in before.properties && name !in names ::
        Included(docs, active, from, reversed, OldAdditional(before), after.properties[name])
  }

  lemma NoneUnlisted(
    docs: Documents, active: seq<RefPair>, from: nat, reversed: bool, before: Schema, after: Schema)
    requires before.Node? && after.Node?
    ensures UnlistedExcept(docs, active, from, reversed, before, after, after.properties.Keys)
  {
  }

  lemma OneMoreUnlisted(
    docs: Documents, active: seq<RefPair>, from: nat, to: nat, reversed: bool, before: Schema, after: Schema,
    names: set<string>, name: string)
    requires before.Node? && after.Node? && to <= from && name in after.properties
    requires UnlistedExcept(docs, active, from, reversed, before, after, names)
    requires name in before.properties || before.additional == CLOSED
             || Included(docs, active, to, reversed, OldAdditional(before), after.properties[name])
    ensures UnlistedExcept(docs, active, to, reversed, before, after, names - {name})
  {
    hide Included;
    Weaken(docs, active, from, to);
  }

  lemma AllUnlisted(
    docs: Documents, active: seq<RefPair>, from: nat, reversed: bool, before: Schema, after: Schema)
    requires before.Node? && after.Node?
    ensures UnlistedExcept(docs, active, from, reversed, before, after, {}) ==>
              UnlistedCompared(docs, active, from, reversed, before, after)
  {
    hide Included;
  }

  lemma BranchesCounted(docs: Documents, reversed: bool, before: Schema, after: Schema)
    requires before.Node? && after.Node? && Related(docs, reversed, before, after)
    requires before.oneOf != [] || after.oneOf != []
    ensures before.oneOf != [] && |before.oneOf| == |after.oneOf|
  {
    BranchesAlign(docs, reversed, before, after, 0);
  }

  /** What becomes of a question: it stops, or asks about the nodes its references lead to. */
  lemma Follows(docs: Documents, active: seq<RefPair>, q: Question, depth: nat)
    requires depth <= MAX_COMPARE_DEPTH + 1
    ensures depth > MAX_COMPARE_DEPTH ==> Unfollowable(docs, active, q, depth)
    ensures depth <= MAX_COMPARE_DEPTH && !Repeated(active, q) ==>
              var target := Target(docs, q);
              if Nodes(target) then
                && Walk(docs, active, q, depth)
                   == 1 + Sum(Costs(docs, Stacked(active, q), target, depth), Slots(target))
                && (Unfollowable(docs, active, q, depth) <==> Blocked(docs, Stacked(active, q), target, depth))
              else !target.before.Truth? && !target.after.Truth? ==> Unfollowable(docs, active, q, depth)
  {
  }

  lemma NothingListed(q: Question)
    requires Nodes(q) && !AboutUnions(q)
    ensures ListedSlots(q) <= Slots(q)
  {
  }

  lemma ListedAsked(q: Question, name: string)
    requires Nodes(q) && !AboutUnions(q) && name in q.before.properties && name in q.after.properties
    ensures Listed(name) in ListedSlots(q) && Listed(name) in Slots(q)
    ensures Child(q, Listed(name)) == Question(q.reversed, q.before.properties[name], q.after.properties[name])
  {
  }

  lemma NothingUnlisted(q: Question)
    requires Nodes(q) && !AboutUnions(q)
    ensures UnlistedSlots(q) <= Slots(q)
  {
  }

  lemma UnlistedAsked(q: Question, name: string)
    requires Nodes(q) && !AboutUnions(q) && q.before.additional != CLOSED
    requires name in q.after.properties && name !in q.before.properties
    ensures Unlisted(name) in UnlistedSlots(q) && Unlisted(name) in Slots(q)
    ensures Child(q, Unlisted(name)) == Question(q.reversed, OldAdditional(q.before), q.after.properties[name])
  {
  }

  lemma PlacesAsked(q: Question)
    requires Nodes(q) && !AboutUnions(q)
    ensures SharedPlaces(q) <= Slots(q) && LaterPlaces(q) <= Slots(q)
  {
  }

  lemma PlaceAsked(q: Question, i: nat)
    requires Nodes(q) && !AboutUnions(q) && i < |q.after.prefixItems|
    ensures Place(i) in Slots(q)
    ensures if i < |q.before.prefixItems|
            then Place(i) in SharedPlaces(q)
                 && Child(q, Place(i)) == Question(q.reversed, q.before.prefixItems[i], q.after.prefixItems[i])
            else Place(i) in LaterPlaces(q)
                 && Child(q, Place(i)) == Question(q.reversed, UNCONSTRAINED, q.after.prefixItems[i])
  {
  }

  lemma BranchesAsked(q: Question)
    requires Nodes(q) && (q.before.oneOf != [] || q.after.oneOf != [])
    ensures BranchSlots(q) <= Slots(q)
  {
  }

  lemma BranchAsked(q: Question, i: nat)
    requires Nodes(q) && i < |q.before.oneOf| == |q.after.oneOf|
    ensures Branch(i, false) in BranchSlots(q) && Branch(i, true) in BranchSlots(q) && BranchSlots(q) <= Slots(q)
    ensures Child(q, Branch(i, false)) == Question(q.reversed, q.before.oneOf[i], q.after.oneOf[i])
    ensures Child(q, Branch(i, true)) == Question(!q.reversed, q.after.oneOf[i], q.before.oneOf[i])
  {
  }

  lemma TrialAsked(q: Question, i: nat, k: nat)
    requires Nodes(q) && (q.before.anyOf != [] || q.after.anyOf != [])
    requires i < |Alternatives(q.before)| && k < |Alternatives(q.after)|
    ensures Trial(i, k) in TrialSlots(q) && AboutUnions(q) && Trial(i, k) in Slots(q)
    ensures Child(q, Trial(i, k)) == Question(q.reversed, Alternatives(q.before)[i], Alternatives(q.after)[k])
  {
  }

  lemma NoPositions(
    docs: Documents, active: seq<RefPair>, from: nat, reversed: bool, before: seq<Schema>, after: seq<Schema>)
    ensures PositionsCompared(docs, active, from, reversed, before, after, 0)
  {
  }

  lemma NoLaterPositions(
    docs: Documents, active: seq<RefPair>, from: nat, reversed: bool, listed: nat, after: seq<Schema>)
    ensures LaterCompared(docs, active, from, reversed, listed, after, listed)
  {
  }

  lemma AllLaterPositions(
    docs: Documents, active: seq<RefPair>, from: nat, reversed: bool, listed: nat, after: seq<Schema>, count: nat)
    requires |after| <= count && LaterCompared(docs, active, from, reversed, listed, after, count)
    ensures LaterCompared(docs, active, from, reversed, listed, after, |after|)
  {
  }

  lemma UnderLonger(path: Path, more: Path, out: seq<Finding>)
    requires Under(path + more, out)
    ensures Under(path, out)
  {
    forall i | 0 <= i < |out| ensures path <= out[i].path {
      assert path <= path + more <= out[i].path;
    }
  }

  lemma OneUnder(path: Path, more: Path, what: What)
    ensures Under(path, [Finding(path + more, what)])
    ensures path + [] == path
  {
  }

  lemma AllUnder(path: Path, here: seq<Finding>, some: seq<Finding>, more: seq<Finding>)
    requires forall x | x in here :: x.path == path
    requires Under(path, some) && Under(path, more)
    ensures Under(path, here + some + more)
  {
    assert Under(path, here) by {
      assert forall i | 0 <= i < |here| :: here[i] in here;
    }
    UnderJoined(path, here, some);
    UnderJoined(path, here + some, more);
  }

  /** What a clean comparison of the keywords about members has established. */
  ghost predicate MembersCompared(
    docs: Documents, active: seq<RefPair>, from: nat, reversed: bool, before: Schema, after: Schema)
    requires before.Node? && after.Node?
  {
    && after.assertions.required <= before.assertions.required
    && ListedCompared(docs, active, from, reversed, before, after)
    && UnlistedCompared(docs, active, from, reversed, before, after)
    && AdditionalCompared(docs, active, from, reversed, before, after)
  }

  /** What its parts have shown, resting on all their assumptions. */
  lemma MembersWeakened(
    docs: Documents, active: seq<RefPair>, listed: nat, unlisted: nat, to: nat, reversed: bool,
    before: Schema, after: Schema)
    requires to <= unlisted <= listed && before.Node? && after.Node?
    requires after.assertions.required <= before.assertions.required
    requires ListedCompared(docs, active, listed, reversed, before, after)
    requires UnlistedCompared(docs, active, unlisted, reversed, before, after)
    requires AdditionalCompared(docs, active, to, reversed, before, after)
    ensures MembersCompared(docs, active, to, reversed, before, after)
  {
    hide Included;
    Weaken(docs, active, listed, to);
    Weaken(docs, active, unlisted, to);
  }

  lemma KeywordsWeakened(
    docs: Documents, active: seq<RefPair>, members: nat, to: nat, reversed: bool, before: Schema, after: Schema)
    requires to <= members && before.Node? && after.Node?
    requires !HasUnion(before) && !HasUnion(after)
    requires AssertionsKept(before.assertions, after.assertions)
    requires MembersCompared(docs, active, members, reversed, before, after)
    requires ElementsCompared(docs, active, to, reversed, before, after)
    ensures KeywordsCompared(docs, active, to, reversed, before, after)
  {
    hide Included, AssertionsKept, ElementsCompared;
    Weaken(docs, active, members, to);
  }

  /** What the parts of a comparison of array keywords have shown, resting on all their assumptions. */
  lemma ElementsWeakened(
    docs: Documents, active: seq<RefPair>, items: nat, listed: nat, to: nat, reversed: bool,
    before: Schema, after: Schema)
    requires to <= listed <= items && before.Node? && after.Node?
    requires after.items.Some? ==>
               before.items.Some? && Included(docs, active, items, reversed, before.items.value, after.items.value)
    requires PositionsCompared(docs, active, listed, reversed, before.prefixItems, after.prefixItems, |before.prefixItems|)
    requires LaterCompared(docs, active, to, reversed, |before.prefixItems|, after.prefixItems, |after.prefixItems|)
    ensures ElementsCompared(docs, active, to, reversed, before, after)
  {
    hide Included;
    Weaken(docs, active, items, to);
    Weaken(docs, active, listed, to);
  }

  /** The first `count` positions of both are listed, each new schema including the old one. */
  ghost predicate PositionsCompared(
    docs: Documents, active: seq<RefPair>, from: nat, reversed: bool, before: seq<Schema>, after: seq<Schema>,
    count: nat)
    requires count <= |before|
  {
    count <= |after| && forall i | 0 <= i < count :: Included(docs, active, from, reversed, before[i], after[i])
  }

  lemma PositionCompared(
    docs: Documents, active: seq<RefPair>, from: nat, to: nat, reversed: bool, before: seq<Schema>,
    after: seq<Schema>, count: nat)
    requires to <= from && count < |before| && count < |after|
    requires PositionsCompared(docs, active, from, reversed, before, after, count)
    requires Included(docs, active, to, reversed, before[count], after[count])
    ensures PositionsCompared(docs, active, to, reversed, before, after, count + 1)
  {
    hide Included;
    Weaken(docs, active, from, to);
  }

  /** The positions from `listed` up to `count` accept anything. */
  ghost predicate LaterCompared(
    docs: Documents, active: seq<RefPair>, from: nat, reversed: bool, listed: nat, after: seq<Schema>, count: nat)
  {
    forall i | listed <= i < count && i < |after| :: Included(docs, active, from, reversed, UNCONSTRAINED, after[i])
  }

  lemma LaterPositionCompared(
    docs: Documents, active: seq<RefPair>, from: nat, to: nat, reversed: bool, listed: nat, after: seq<Schema>,
    count: nat)
    requires to <= from && listed <= count < |after|
    requires LaterCompared(docs, active, from, reversed, listed, after, count)
    requires Included(docs, active, to, reversed, UNCONSTRAINED, after[count])
    ensures LaterCompared(docs, active, to, reversed, listed, after, count + 1)
  {
    hide Included;
    Weaken(docs, active, from, to);
  }

  lemma UnderJoined(path: Path, out: seq<Finding>, more: seq<Finding>)
    ensures Under(path, []) && Under(path, [Finding(path, OneOfChanged)])
    ensures Under(path, out) && Under(path, more) ==> Under(path, out + more)
  {
  }

  /** What the three parts of a comparison of unions have shown, resting on all their assumptions. */
  lemma UnionsWeakened(
    docs: Documents, active: seq<RefPair>, siblings: nat, oneOf: nat, to: nat, reversed: bool,
    before: Schema, after: Schema)
    requires to <= oneOf <= siblings && before.Node? && after.Node? && (HasUnion(before) || HasUnion(after))
    requires HasUnion(after) ==>
               Included(docs, active, siblings, reversed, WithoutUnions(before), WithoutUnions(after))
    requires (before.oneOf == [] && after.oneOf == []) ||
             (before.oneOf != [] && Equivalent(docs, active, oneOf, reversed, before.oneOf, after.oneOf))
    requires (before.anyOf == [] && after.anyOf == []) ||
             AllMatched(docs, active, to, reversed, Alternatives(before), Alternatives(after))
    ensures UnionsCompared(docs, active, to, reversed, before, after)
  {
    hide Included, AllMatched;
    Weaken(docs, active, siblings, to);
    Weaken(docs, active, oneOf, to);
  }

  lemma StillMatched(
    docs: Documents, active: seq<RefPair>, from: nat, to: nat, reversed: bool,
    branches: seq<Schema>, count: nat, candidates: seq<Schema>)
    requires to <= from && count <= |branches|
    ensures forall i | 0 <= i < count && SomeIncludes(docs, active, from, reversed, branches[i], candidates) ::
              SomeIncludes(docs, active, to, reversed, branches[i], candidates)
  {
    Weaken(docs, active, from, to);
  }

  /** What rests on no assumption holds whatever is assumed. */
  lemma Unconditional(
    docs: Documents, active: seq<RefPair>, from: nat, reversed: bool, before: Schema, after: Schema)
    requires Included(docs, [], 0, reversed, before, after)
    ensures Included(docs, active, from, reversed, before, after)
  {
    hide Carries;
    forall n: nat ensures Carries(n, docs, reversed, before, after) {
      assert Assumed(n, docs, [], 0);
    }
  }

  /** The question a pair of references stands for. */
  function QuestionOf(pair: RefPair): Question {
    Question(pair.reversed, Ref(pair.before), Ref(pair.after))
  }

  /** The assumption a pair makes about itself is settled once the pair is. */
  lemma Settle(
    docs: Documents, stack: seq<RefPair>, base: nat, from: nat, reversed: bool, before: Schema, after: Schema)
    requires Included(docs, stack, from, reversed, before, after) && before.Node? && after.Node?
    requires |stack| == base || (
               && |stack| == base + 1 && stack[base].reversed == reversed
               && Question(reversed, before, after) == Target(docs, QuestionOf(stack[base])))
    ensures Included(docs, stack[..base], from, reversed, before, after)
    ensures from >= base ==> Included(docs, [], 0, reversed, before, after)
  {
    if |stack| == base {
      assert stack[..base] == stack;
    } else {
      assert stack == stack[..base] + [stack[base]];
      Discharge(docs, stack[..base], from, QuestionOf(stack[base]));
    }
    if from >= base {
      forall n: nat ensures Assumed(n, docs, stack[..base], from) {
      }
    }
  }

  // ---------------------------------------------------------------- the public check

  /** Each finding once, where it first appears. */
  function Deduplicated(out: seq<Finding>): (r: seq<Finding>)
    ensures forall f :: f in r <==> f in out
    ensures forall i, k | 0 <= i < k < |r| :: r[i] != r[k]
    ensures |r| <= |out|
  {
    if out == [] then []
    else
      var rest := Deduplicated(out[..|out| - 1]);
      var last := out[|out| - 1];
      assert out == out[..|out| - 1] + [last];
      if last in rest then rest else rest + [last]
  }

  /** Past the limit one marker replaces the rest. */
  function Capped(out: seq<Finding>): (r: seq<Finding>)
    ensures |r| <= MAX_FINDINGS && (r == [] <==> out == [])
    ensures |out| <= MAX_FINDINGS ==> r == out
    ensures |out| > MAX_FINDINGS ==>
              && |r| == MAX_FINDINGS && r[MAX_FINDINGS - 1].what == FindingsOmitted
              && r[..MAX_FINDINGS - 1] == out[..MAX_FINDINGS - 1]
  {
    if |out| > MAX_FINDINGS then out[..MAX_FINDINGS - 1] + [Finding([], FindingsOmitted)] else out
  }

  /** Every document valid under the old schema is valid under the new one, whatever patterns mean. */
  ghost predicate Compatible(docs: Documents, before: Schema, after: Schema) {
    forall matches, j | JsonSchema.Valid(matches, docs.old_, before, j) :: JsonSchema.Valid(matches, docs.new_, after, j)
  }

  /** What a clean comparison means for every value, in either direction: valid stays valid, invalid was invalid. */
  lemma CleanMeansStillValid(
    docs: Documents, reversed: bool, before: Schema, after: Schema, matches: Regex, j: Json)
    requires Included(docs, [], 0, reversed, before, after)
    ensures JsonSchema.Valid(matches, docs.Before(reversed), before, j) ==>
              JsonSchema.Valid(matches, docs.After(reversed), after, j)
    ensures Invalid(matches, docs.After(reversed), after, j) ==> Invalid(matches, docs.Before(reversed), before, j)
  {
    if JsonSchema.Valid(matches, docs.Before(reversed), before, j) {
      var f: nat :| Accepts(matches, docs.Before(reversed), f, before, j);
      assert Assumed(f + 1, docs, [], 0);
      assert Carries(f + 1, docs, reversed, before, after);
    }
    if Invalid(matches, docs.After(reversed), after, j) {
      var f: nat :| Rejects(matches, docs.After(reversed), f, after, j);
      assert Assumed(f + 1, docs, [], 0);
      assert Carries(f + 1, docs, reversed, before, after);
    }
  }

  lemma IncludedIsCompatible(docs: Documents, before: Schema, after: Schema)
    requires Included(docs, [], 0, false, before, after)
    ensures Compatible(docs, before, after) && Related(docs, false, before, after)
  {
    forall n: nat ensures Widens(n, docs, false, before, after) {
      assert Assumed(n, docs, [], 0);
      assert Carries(n, docs, false, before, after);
    }
    forall matches, j | JsonSchema.Valid(matches, docs.old_, before, j)
      ensures JsonSchema.Valid(matches, docs.new_, after, j)
    {
      CleanMeansStillValid(docs, false, before, after, matches, j);
    }
  }

  /** The `schema_version` constant a contract schema declares. */
  function DeclaredVersion(schema: Schema): Option<Json> {
    if && schema.Node? && "schema_version" in schema.properties
       && schema.properties["schema_version"].Node?
       && schema.properties["schema_version"].assertions.constant != Some(Null)
    then schema.properties["schema_version"].assertions.constant
    else None
  }

  /** A value as plain equality sees it, to which true is 1 and false is 0. */
  function Plain(j: Json): (r: Json)
    ensures j.Text? || r.Text? ==> r == j
  {
    match j
    case Boolean(b) => Number(if b then 1.0 else 0.0)
    case Array(elements) => Array(seq(|elements|, i requires 0 <= i < |elements| => Plain(elements[i])))
    case Object(members) => Object(map name | name in members :: Plain(members[name]))
    case _ => j
  }

  /** Plain equality, case by case: a boolean is the number 1 or 0, all else is compared with its like. */
  ghost predicate PlainlyEqual(a: Json, b: Json) {
    match (a, b)
    case (Boolean(x), Boolean(y)) => x == y
    case (Boolean(x), Number(y)) => y == if x then 1.0 else 0.0
    case (Number(x), Boolean(y)) => x == if y then 1.0 else 0.0
    case (Array(x), Array(y)) => |x| == |y| && forall i | 0 <= i < |x| :: PlainlyEqual(x[i], y[i])
    case (Object(x), Object(y)) =>
      x.Keys == y.Keys && forall name | name in x && name in y :: PlainlyEqual(x[name], y[name])
    case _ => a == b
  }

  lemma {:induction false} PlainMeaning(a: Json, b: Json)
    ensures Plain(a) == Plain(b) <==> PlainlyEqual(a, b)
    decreases a
  {
    match (a, b)
    case (Array(x), Array(y)) =>
      forall i | 0 <= i < |x| && i < |y| ensures Plain(x[i]) == Plain(y[i]) <==> PlainlyEqual(x[i], y[i]) {
        PlainMeaning(x[i], y[i]);
      }
      var left, right := Plain(a).elements, Plain(b).elements;
      assert |left| == |x| && |right| == |y|;
      assert forall i | 0 <= i < |x| :: left[i] == Plain(x[i]);
      assert forall i | 0 <= i < |y| :: right[i] == Plain(y[i]);
      if PlainlyEqual(a, b) {
        assert left == right;
      }
    case (Object(x), Object(y)) =>
      forall name | name in x && name in y
        ensures Plain(x[name]) == Plain(y[name]) <==> PlainlyEqual(x[name], y[name])
      {
        PlainMeaning(x[name], y[name]);
      }
      var left, right := Plain(a).members, Plain(b).members;
      assert left.Keys == x.Keys && right.Keys == y.Keys;
      assert forall name | name in x :: left[name] == Plain(x[name]);
      assert forall name | name in y :: right[name] == Plain(y[name]);
      if PlainlyEqual(a, b) {
        assert left == right;
      }
    case _ =>
  }

  /** The schema lists `schema_version` with a constant that is not null. */
  ghost predicate Declares(schema: Schema, version: Json) {
    && schema.Node? && "schema_version" in schema.properties
    && schema.properties["schema_version"].Node?
    && schema.properties["schema_version"].assertions.constant == Some(version)
    && version != Null
  }

  /** Both schemas declare a version, and the new one is not the old one nor provably older. */
  ghost predicate Bumped(decimals: Decimals, before: Schema, after: Schema) {
    exists was, is_ ::
      && Declares(before, was) && Declares(after, is_) && !PlainlyEqual(was, is_)
      && (was.Text? && is_.Text? ==> Bumps(decimals, was.s, is_.s))
  }

  lemma DeclaredMeaning(schema: Schema)
    ensures DeclaredVersion(schema).Some? ==> Declares(schema, DeclaredVersion(schema).value)
    ensures forall version :: Declares(schema, version) ==> DeclaredVersion(schema) == Some(version)
  {
  }

  method ExplicitBump(decimals: Decimals, before: Schema, after: Schema) returns (bump: bool)
    ensures bump <==> Bumped(decimals, before, after)
  {
    var was, is_ := DeclaredVersion(before), DeclaredVersion(after);
    DeclaredMeaning(before);
    DeclaredMeaning(after);
    if was.Some? && is_.Some? {
      PlainMeaning(was.value, is_.value);
    }
    bump := was.Some? && is_.Some? && Plain(was.value) != Plain(is_.value);
    if bump && was.value.Text? && is_.value.Text? {
      bump := IsVersionBump(decimals, was.value.s, is_.value.s);
    }
  }

  /**
   The findings from one schema to another: none for an explicit version bump, otherwise none only when every
   document valid under the old schema is valid under the new one and no keyword is narrower; and then there is
   none, if the comparison can be followed within its budget.
   */
  method CheckNative(before: Schema, after: Schema, docs: Documents, decimals: Decimals)
    returns (findings: seq<Finding>, ghost unfollowed: bool)
    ensures Bumped(decimals, before, after) ==> findings == []
    ensures findings == [] ==> Bumped(decimals, before, after) || Compatible(docs, before, after)
    ensures findings == [] ==> Bumped(decimals, before, after) || Related(docs, false, before, after)
    ensures Related(docs, false, before, after) && !unfollowed ==> findings == []
    ensures unfollowed ==> !Followable(docs, before, after, MAX_COMPARISONS)
    ensures DefinitionsRelaxed(docs) && Relaxes(docs, before, after) && !unfollowed ==> findings == []
    ensures Copies(docs) && Alike(before, after) && !unfollowed ==> findings == []
    ensures docs.old_ == docs.new_ && before == after && !unfollowed ==> findings == []
    ensures |findings| <= MAX_FINDINGS
  {
    hide Included, Compatible, Bumped, Deduplicated, Run.Valid, Related, Walk, Unfollowable, Copies, Alike, Relaxes,
         DefinitionsRelaxed;
    KnownRelated(docs, before, after);
    var bumped := ExplicitBump(decimals, before, after);
    if bumped {
      return [], false;
    }
    var run := new Run(docs);
    var r := run.Compare(before, after, false, [], 0, []);
    unfollowed := run.unfollowed;
    var problems := if r.Done? then r.value else [Finding([], BudgetExhausted)];
    if problems == [] {
      Weaken(docs, [], run.lowestAssumed, 0);
      IncludedIsCompatible(docs, before, after);
    }
    findings := Capped(Deduplicated(problems));
    assert problems != [] ==> problems[0] in Deduplicated(problems);
  }

  /** A relaxed document, a copy of one, or the document itself, is related to it. */
  lemma KnownRelated(docs: Documents, before: Schema, after: Schema)
    ensures DefinitionsRelaxed(docs) && Relaxes(docs, before, after) ==> Related(docs, false, before, after)
    ensures Copies(docs) && Alike(before, after) ==> Related(docs, false, before, after)
    ensures docs.old_ == docs.new_ && before == after ==> Related(docs, false, before, after)
  {
    hide Copies, Alike, Related, Relaxes, DefinitionsRelaxed;
    if DefinitionsRelaxed(docs) && Relaxes(docs, before, after) {
      RelaxedIsRelated(docs, before, after);
    }
    if docs.old_ == docs.new_ && before == after {
      SameIsCopy(docs);
      AlikeItself(before);
    }
    if Copies(docs) && Alike(before, after) {
      CopiesAreRelated(docs, before, after);
    }
  }

  /** A schema of nothing but alternatives of which exactly one must match. */
  function OneOf(branches: seq<Schema>): Schema {
    UNCONSTRAINED.(oneOf := branches)
  }

  /** A value is valid under one of several alternatives exactly when one shows it and all others refuse it. */
  lemma OneOfMeaning(matches: Regex, defs: Definitions, branches: seq<Schema>, j: Json)
    requires branches != []
    ensures JsonSchema.Valid(matches, defs, OneOf(branches), j) <==> OneValid(matches, defs, branches, j)
  {
    hide OneValid;
    var s := OneOf(branches);
    if JsonSchema.Valid(matches, defs, s, j) {
      var f: nat :| Accepts(matches, defs, f, s, j);
      AcceptedIsNodeValid(matches, defs, f, s, j);
    } else if OneValid(matches, defs, branches, j) {
      NodeValidIsValid(matches, defs, s, j);
    }
  }

  /** Pairwise equivalent branches make two `oneOf` accept exactly the same documents. */
  lemma EquivalentOneOfAcceptTheSame(
    docs: Documents, before: seq<Schema>, after: seq<Schema>, matches: Regex, j: Json)
    requires before != [] && Equivalent(docs, [], 0, false, before, after)
    ensures JsonSchema.Valid(matches, docs.old_, OneOf(before), j) <==>
              JsonSchema.Valid(matches, docs.new_, OneOf(after), j)
  {
    OneOfMeaning(matches, docs.old_, before, j);
    OneOfMeaning(matches, docs.new_, after, j);
    hide Included, OneOf, JsonSchema.Valid, Invalid;
    forall i | 0 <= i < |before|
      ensures JsonSchema.Valid(matches, docs.old_, before[i], j) <==> JsonSchema.Valid(matches, docs.new_, after[i], j)
      ensures Invalid(matches, docs.old_, before[i], j) <==> Invalid(matches, docs.new_, after[i], j)
    {
      CleanMeansStillValid(docs, false, before[i], after[i], matches, j);
      CleanMeansStillValid(docs, true, after[i], before[i], matches, j);
    }
    forall i | 0 <= i < |before|
      ensures OthersInvalid(matches, docs.old_, before, i, j) <==> OthersInvalid(matches, docs.new_, after, i, j)
    {
    }
  }
}

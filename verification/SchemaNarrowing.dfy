/**
 The keyword-by-keyword comparison of what two schemas assert without subschemas, and the findings a
 comparison reports.
 */
module SchemaNarrowing {
  import opened Options
  import opened JsonSchema
  import opened Numbers

  /** Where in a schema a finding is made. */
  datatype PathStep =
    | Property(name: string)
    | Additional
    | Elements
    | Position(index: nat)
    | Alternative(index: nat)

  type Path = seq<PathStep>

  datatype What =
    | DepthLimit
    | ShapeChanged
    | UnresolvedReference
    | OneOfChanged
    | AlternativeDropped
    | TypeNarrowed
    | TypeAdded
    | ValuesRestricted
    | ConstChanged
    | ValuesRemoved(removed: seq<Json>)
    | BoundNarrowed(bound: Bound)
    | PatternChanged
    | UniqueItemsAdded
    | MultipleOfNarrowed
    | PropertyRemoved
    | NowRequired
    | AdditionalClosed
    | ItemSchemaAdded
    | PositionRemoved
    | BudgetExhausted
    | FindingsOmitted

  datatype Finding = Finding(path: Path, what: What)

  /** The values both `const` and `enum` leave, or none when neither restricts (`[]` allows nothing). */
  function AllowedValues(a: Assertions): (r: Option<seq<Json>>)
    ensures r.None? <==> a.enum.None? && a.constant.None?
    ensures forall j :: ((a.enum.Some? ==> j in a.enum.value) && (a.constant.Some? ==> j == a.constant.value))
                        <==> (r.Some? ==> j in r.value)
  {
    match (a.constant, a.enum)
    case (Some(c), Some(values)) => if c in values then Some([c]) else Some([])
    case (Some(c), None) => Some([c])
    case (None, values) => values
  }

  /** The old values with no JSON-equal counterpart among the new ones, in order. */
  function MissingValues(olds: seq<Json>, news: seq<Json>): (r: seq<Json>)
    ensures forall j :: j in r <==> j in olds && j !in news
  {
    if olds == [] then []
    else if olds[0] in news then MissingValues(olds[1..], news)
    else [olds[0]] + MissingValues(olds[1..], news)
  }

  const LOWER_BOUNDS: seq<Bound> := [Minimum, ExclusiveMinimum, MinLength, MinItems, MinProperties]
  const UPPER_BOUNDS: seq<Bound> := [Maximum, ExclusiveMaximum, MaxLength, MaxItems, MaxProperties]

  lemma BoundsAreListed(b: Bound)
    ensures b in LOWER_BOUNDS <==> b !in UPPER_BOUNDS
  {
    match b
    case Minimum => assert b == LOWER_BOUNDS[0];
    case ExclusiveMinimum => assert b == LOWER_BOUNDS[1];
    case MinLength => assert b == LOWER_BOUNDS[2];
    case MinItems => assert b == LOWER_BOUNDS[3];
    case MinProperties => assert b == LOWER_BOUNDS[4];
    case Maximum => assert b == UPPER_BOUNDS[0];
    case ExclusiveMaximum => assert b == UPPER_BOUNDS[1];
    case MaxLength => assert b == UPPER_BOUNDS[2];
    case MaxItems => assert b == UPPER_BOUNDS[3];
    case MaxProperties => assert b == UPPER_BOUNDS[4];
  }

  predicate Raised(b: Bound, before: Assertions, after: Assertions) {
    b in after.bounds && (b !in before.bounds || after.bounds[b] > before.bounds[b])
  }

  predicate Lowered(b: Bound, before: Assertions, after: Assertions) {
    b in after.bounds && (b !in before.bounds || after.bounds[b] < before.bounds[b])
  }

  /** No listed bound of `after` is tighter than in `before`. */
  predicate BoundsKept(before: Assertions, after: Assertions) {
    && (forall b | b in LOWER_BOUNDS :: !Raised(b, before, after))
    && (forall b | b in UPPER_BOUNDS :: !Lowered(b, before, after))
  }

  predicate TypesKept(before: Assertions, after: Assertions) {
    after.types.Some? ==>
      && before.types.Some?
      && before.types.value <= after.types.value + (if NumberType in after.types.value then {IntegerType} else {})
  }

  predicate ValuesKept(before: Assertions, after: Assertions) {
    var news := AllowedValues(after);
    news.Some? ==> AllowedValues(before).Some? && MissingValues(AllowedValues(before).value, news.value) == []
  }

  /** An old step of which every multiple is a multiple of the new one. */
  predicate MultiplesKept(before: Assertions, after: Assertions) {
    after.multipleOf.Some? ==>
      before.multipleOf.Some? && IsWhole(before.multipleOf.value / after.multipleOf.value)
  }

  /** Exactly when the comparison of the assertion keywords other than `required` is clean. */
  predicate AssertionsKept(before: Assertions, after: Assertions) {
    && TypesKept(before, after)
    && ValuesKept(before, after)
    && BoundsKept(before, after)
    && (after.pattern.Some? ==> before.pattern == after.pattern)
    && (after.uniqueItems ==> before.uniqueItems)
    && MultiplesKept(before, after)
  }

  /** `b` was added, raised if it bounds from below, lowered if from above. */
  predicate Tightened(b: Bound, before: Assertions, after: Assertions) {
    (b in LOWER_BOUNDS && Raised(b, before, after)) || (b in UPPER_BOUNDS && Lowered(b, before, after))
  }

  /** One finding for each bound that was added or tightened, and no other. */
  method CompareBounds(before: Assertions, after: Assertions, path: Path) returns (out: seq<Finding>)
    ensures out == [] <==> BoundsKept(before, after)
    ensures forall f | f in out :: exists b :: f == Finding(path, BoundNarrowed(b))
    ensures forall b :: Finding(path, BoundNarrowed(b)) in out <==> Tightened(b, before, after)
  {
    out := [];
    for i := 0 to |LOWER_BOUNDS|
      invariant forall f | f in out :: exists b :: f == Finding(path, BoundNarrowed(b))
      invariant forall b :: Finding(path, BoundNarrowed(b)) in out <==>
                  b in LOWER_BOUNDS[..i] && Raised(b, before, after)
    {
      var bound := LOWER_BOUNDS[i];
      assert LOWER_BOUNDS[..i + 1] == LOWER_BOUNDS[..i] + [bound];
      if Raised(bound, before, after) {
        out := out + [Finding(path, BoundNarrowed(bound))];
      }
    }
    assert LOWER_BOUNDS[..|LOWER_BOUNDS|] == LOWER_BOUNDS;
    for i := 0 to |UPPER_BOUNDS|
      invariant forall f | f in out :: exists b :: f == Finding(path, BoundNarrowed(b))
      invariant forall b :: Finding(path, BoundNarrowed(b)) in out <==>
                  (b in LOWER_BOUNDS && Raised(b, before, after))
                  || (b in UPPER_BOUNDS[..i] && Lowered(b, before, after))
    {
      var bound := UPPER_BOUNDS[i];
      assert UPPER_BOUNDS[..i + 1] == UPPER_BOUNDS[..i] + [bound];
      if Lowered(bound, before, after) {
        out := out + [Finding(path, BoundNarrowed(bound))];
      }
    }
    assert UPPER_BOUNDS[..|UPPER_BOUNDS|] == UPPER_BOUNDS;
    if out != [] {
      assert out[0] in out;
      var b :| out[0] == Finding(path, BoundNarrowed(b));
      assert Tightened(b, before, after);
    }
  }

  /** When the comparison of assertions reports what: each keyword has its own findings. */
  ghost predicate Reports(what: What, before: Assertions, after: Assertions) {
    match what
    case TypeNarrowed =>
      before.types.Some? && after.types.Some?
      && exists t | t in before.types.value ::
           t !in after.types.value && !(t == IntegerType && NumberType in after.types.value)
    case TypeAdded => before.types.None? && after.types.Some?
    case ValuesRestricted => AllowedValues(before).None? && AllowedValues(after).Some?
    case ConstChanged => before.constant.Some? && after.constant.Some? && !ValuesKept(before, after)
    case ValuesRemoved(removed) =>
      && (before.constant.None? || after.constant.None?)
      && AllowedValues(before).Some? && AllowedValues(after).Some? && removed != []
      && removed == MissingValues(AllowedValues(before).value, AllowedValues(after).value)
    case BoundNarrowed(b) => Tightened(b, before, after)
    case PatternChanged => after.pattern.Some? && before.pattern != after.pattern
    case UniqueItemsAdded => after.uniqueItems && !before.uniqueItems
    case MultipleOfNarrowed => !MultiplesKept(before, after)
    case _ => false
  }

  predicate AboutTypes(what: What) {
    what.TypeNarrowed? || what.TypeAdded?
  }

  predicate AboutValues(what: What) {
    what.ValuesRestricted? || what.ConstChanged? || what.ValuesRemoved?
  }

  method CompareTypes(before: Assertions, after: Assertions, path: Path) returns (out: seq<Finding>)
    ensures out == [] <==> TypesKept(before, after)
    ensures forall f | f in out :: f.path == path && AboutTypes(f.what)
    ensures forall what: What | AboutTypes(what) :: Finding(path, what) in out <==> Reports(what, before, after)
  {
    out := [];
    if after.types.Some? {
      var newTypes := after.types.value + if NumberType in after.types.value then {IntegerType} else {};
      if before.types.Some? && !(before.types.value <= newTypes) {
        out := [Finding(path, TypeNarrowed)];
      }
      if before.types.None? {
        out := [Finding(path, TypeAdded)];
      }
    }
  }

  method CompareValues(before: Assertions, after: Assertions, path: Path) returns (out: seq<Finding>)
    ensures out == [] <==> ValuesKept(before, after)
    ensures forall f | f in out :: f.path == path && AboutValues(f.what)
    ensures forall what: What | AboutValues(what) :: Finding(path, what) in out <==> Reports(what, before, after)
  {
    hide MissingValues;
    out := [];
    var oldAllowed, newAllowed := AllowedValues(before), AllowedValues(after);
    if newAllowed.Some? {
      if oldAllowed.None? {
        out := [Finding(path, ValuesRestricted)];
      } else {
        var removed := MissingValues(oldAllowed.value, newAllowed.value);
        if removed != [] {
          var what := if before.constant.Some? && after.constant.Some? then ConstChanged else ValuesRemoved(removed);
          out := [Finding(path, what)];
        }
      }
    }
  }

  /** The pattern, the uniqueness of items, and the step. */
  method CompareOthers(before: Assertions, after: Assertions, path: Path) returns (out: seq<Finding>)
    ensures out == [] <==>
              && (after.pattern.Some? ==> before.pattern == after.pattern)
              && (after.uniqueItems ==> before.uniqueItems)
              && MultiplesKept(before, after)
    ensures forall f | f in out ::
              f.path == path && (f.what.PatternChanged? || f.what.UniqueItemsAdded? || f.what.MultipleOfNarrowed?)
    ensures forall what: What | what.PatternChanged? || what.UniqueItemsAdded? || what.MultipleOfNarrowed? ::
              Finding(path, what) in out <==> Reports(what, before, after)
  {
    out := [];
    if after.pattern.Some? && after.pattern != before.pattern {
      out := out + [Finding(path, PatternChanged)];
    }
    if after.uniqueItems && !before.uniqueItems {
      out := out + [Finding(path, UniqueItemsAdded)];
    }
    if after.multipleOf.Some?
       && (before.multipleOf.None? || !IsWhole(before.multipleOf.value / after.multipleOf.value)) {
      out := out + [Finding(path, MultipleOfNarrowed)];
    }
  }

  /**
   The findings about assertion keywords, in the order they are reported; `required` is judged after the
   properties and has its own findings.
   */
  method CompareAssertions(before: Assertions, after: Assertions, path: Path) returns (out: seq<Finding>)
    ensures out == [] <==> AssertionsKept(before, after)
    ensures forall f | f in out :: f.path == path
    ensures forall what: What :: Finding(path, what) in out <==> Reports(what, before, after)
  {
    hide BoundsKept, TypesKept, ValuesKept, MultiplesKept, Tightened, AllowedValues, MissingValues;
    var types := CompareTypes(before, after, path);
    var values := CompareValues(before, after, path);
    var bounds := CompareBounds(before, after, path);
    var others := CompareOthers(before, after, path);
    out := types + values + bounds + others;
    forall what: What ensures Finding(path, what) in out <==> Reports(what, before, after) {
      var f := Finding(path, what);
      assert f in out <==> f in types || f in values || f in bounds || f in others;
    }
  }

  // ---------------------------------------------------------------- what a clean comparison means

  lemma WholeProduct(a: real, b: real)
    requires IsWhole(a) && IsWhole(b)
    ensures IsWhole(a * b)
  {
    var m, n := a.Floor, b.Floor;
    assert a * b == m as real * n as real == (m * n) as real;
  }

  lemma WholeQuotients(v: real, coarse: Step, fine: Step)
    requires IsWhole(v / coarse) && IsWhole(coarse / fine)
    ensures IsWhole(v / fine)
  {
    var p, q := v / coarse, coarse / fine;
    WholeProduct(p, q);
    var times, r := p * q, v / fine;
    assert IsWhole(times);
    assert r == times by {
      assert coarse == q * fine && v == p * coarse;
      assert v == times * fine;
    }
  }

  lemma TypesKeptSound(before: Assertions, after: Assertions, j: Json)
    requires TypesKept(before, after) && before.types.Some? && after.types.Some?
    requires exists t | t in before.types.value :: HasType(j, t)
    ensures exists t | t in after.types.value :: HasType(j, t)
  {
    var t :| t in before.types.value && HasType(j, t);
    if t !in after.types.value {
      assert HasType(j, NumberType);
    }
  }

  lemma BoundsKeptSound(before: Assertions, after: Assertions, j: Json, b: Bound)
    requires BoundsKept(before, after) && b in after.bounds
    requires forall c | c in before.bounds :: Within(c, before.bounds[c], j)
    ensures Within(b, after.bounds[b], j)
  {
    BoundsAreListed(b);
    assert b in before.bounds && Within(b, before.bounds[b], j);
  }

  /** Assertion keywords that compare clean accept all they accepted, whatever a pattern means. */
  lemma AssertionsKeptSound(matches: Regex, before: Assertions, after: Assertions, j: Json)
    requires AssertionsKept(before, after) && after.required <= before.required
    requires Satisfies(matches, before, j)
    ensures Satisfies(matches, after, j)
  {
    if after.types.Some? { TypesKeptSound(before, after, j); }
    forall b | b in after.bounds ensures Within(b, after.bounds[b], j) {
      BoundsKeptSound(before, after, j, b);
    }
    if after.multipleOf.Some? && j.Number? {
      WholeQuotients(j.n, before.multipleOf.value, after.multipleOf.value);
    }
    if AllowedValues(after).Some? {
      assert j in AllowedValues(before).value;
      var missing := MissingValues(AllowedValues(before).value, AllowedValues(after).value);
      assert j in missing <==> j !in AllowedValues(after).value;
    }
  }

  /** Assertion keywords are kept by themselves. */
  lemma AssertionsKeptReflexive(a: Assertions)
    ensures AssertionsKept(a, a)
  {
    if AllowedValues(a).Some? {
      var values := AllowedValues(a).value;
      var missing := MissingValues(values, values);
      if missing != [] { assert missing[0] in missing; }
    }
    if a.multipleOf.Some? {
      var step := a.multipleOf.value;
      assert step / step == 1.0;
    }
  }

  // ---------------------------------------------------------------- the same, keyword by keyword

  /** What `enum` and `const` leave. */
  ghost predicate Leaves(a: Assertions, j: Json) {
    (a.enum.Some? ==> j in a.enum.value) && (a.constant.Some? ==> j == a.constant.value)
  }

  /** A bound from below is not raised, one from above not lowered. */
  ghost predicate NoTighter(b: Bound, before: real, after: real) {
    if b.Minimum? || b.ExclusiveMinimum? || b.MinLength? || b.MinItems? || b.MinProperties? then after <= before
    else after >= before
  }

  ghost predicate IsTimes(coarse: real, times: int, fine: real) {
    coarse == times as real * fine
  }

  /**
   No keyword asks for more: a type that was allowed is, an integer where numbers are; a value that was is; a bound
   was there and is no tighter; the pattern and the uniqueness were asked before; the old step is a multiple of the
   new one; what is required was.
   */
  ghost predicate NoNarrower(before: Assertions, after: Assertions) {
    && (after.types.Some? ==> before.types.Some? && forall t | t in before.types.value ::
          t in after.types.value || (t == IntegerType && NumberType in after.types.value))
    && (after.enum.Some? || after.constant.Some? ==>
          (before.enum.Some? || before.constant.Some?) && forall j | Leaves(before, j) :: Leaves(after, j))
    && (forall b | b in after.bounds :: b in before.bounds && NoTighter(b, before.bounds[b], after.bounds[b]))
    && (after.pattern.Some? ==> before.pattern == after.pattern)
    && (after.uniqueItems ==> before.uniqueItems)
    && (after.multipleOf.Some? ==> before.multipleOf.Some? && exists times: int ::
          IsTimes(before.multipleOf.value, times, after.multipleOf.value))
    && (forall name | name in after.required :: name in before.required)
  }

  lemma BoundsKeptMeaning(before: Assertions, after: Assertions)
    ensures BoundsKept(before, after) <==>
              forall b | b in after.bounds :: b in before.bounds && NoTighter(b, before.bounds[b], after.bounds[b])
  {
    if BoundsKept(before, after) {
      forall b | b in after.bounds ensures b in before.bounds && NoTighter(b, before.bounds[b], after.bounds[b]) {
        LowerBounds(b);
        assert if b in LOWER_BOUNDS then !Raised(b, before, after) else !Lowered(b, before, after);
      }
    }
    if forall b | b in after.bounds :: b in before.bounds && NoTighter(b, before.bounds[b], after.bounds[b]) {
      forall b | b in LOWER_BOUNDS ensures !Raised(b, before, after) {
        LowerBounds(b);
      }
      forall b | b in UPPER_BOUNDS ensures !Lowered(b, before, after) {
        LowerBounds(b);
      }
    }
  }

  lemma LowerBounds(b: Bound)
    ensures b in LOWER_BOUNDS <==> b !in UPPER_BOUNDS
    ensures b in LOWER_BOUNDS <==> b.Minimum? || b.ExclusiveMinimum? || b.MinLength? || b.MinItems? || b.MinProperties?
  {
    BoundsAreListed(b);
    assert forall i | 0 <= i < 5 :: LOWER_BOUNDS[i] != Maximum;
  }

  lemma MultiplesKeptMeaning(coarse: Step, fine: Step)
    ensures IsWhole(coarse / fine) <==> exists times: int :: IsTimes(coarse, times, fine)
  {
    var q := coarse / fine;
    assert coarse == q * fine;
    if IsWhole(q) {
      assert IsTimes(coarse, q.Floor, fine);
    }
    if times: int :| IsTimes(coarse, times, fine) {
      SameQuotient(times as real, q, fine);
      assert (times as real).Floor == times;
    }
  }

  lemma SameQuotient(a: real, b: real, fine: Step)
    requires a * fine == b * fine
    ensures a == b
  {
    assert a == a * fine / fine && b == b * fine / fine;
  }

  lemma ValuesKeptMeaning(before: Assertions, after: Assertions)
    ensures ValuesKept(before, after) <==>
              (after.enum.Some? || after.constant.Some? ==>
                 (before.enum.Some? || before.constant.Some?) && forall j | Leaves(before, j) :: Leaves(after, j))
  {
    var olds, news := AllowedValues(before), AllowedValues(after);
    if olds.Some? && news.Some? {
      var missing := MissingValues(olds.value, news.value);
      if missing != [] {
        assert missing[0] in missing;
        assert Leaves(before, missing[0]) && !Leaves(after, missing[0]);
      }
      forall j | Leaves(before, j) && !Leaves(after, j) ensures missing != [] {
        assert j in missing;
      }
    }
  }

  /** The comparison of assertions is clean exactly when no keyword asks for more. */
  lemma KeptMeansNoNarrower(before: Assertions, after: Assertions)
    ensures AssertionsKept(before, after) && after.required <= before.required <==> NoNarrower(before, after)
  {
    hide ValuesKept, BoundsKept, Leaves, NoTighter, AllowedValues, MissingValues;
    BoundsKeptMeaning(before, after);
    ValuesKeptMeaning(before, after);
    if before.multipleOf.Some? && after.multipleOf.Some? {
      MultiplesKeptMeaning(before.multipleOf.value, after.multipleOf.value);
    }
  }
}

/**
 JSON values, the modelled fragment of JSON Schema Draft 2020-12, and what it means for a value to be
 accepted or rejected by a schema.

 A schema may refer to itself through its definitions, and `oneOf` makes acceptance depend on rejection,
 so both are given by derivations of bounded height: `Accepts(.., fuel, ..)` says that a derivation of
 height at most `fuel` shows the value valid, `Rejects(.., fuel, ..)` that one shows it invalid.  An
 evaluation that would never end (Core section 9.4.1) has neither.
 */
module JsonSchema {
  import opened Options
  import opened Collections
  import opened Numbers

  /** A JSON value; equality is JSON equality: a boolean is no number, 1 is 1.0, members are unordered. */
  datatype Json =
    | Null
    | Boolean(b: bool)
    | Number(n: real)
    | Text(s: string)
    | Array(elements: seq<Json>)
    | Object(members: map<string, Json>)

  datatype SimpleType =
    ArrayType | BooleanType | IntegerType | NullType | NumberType | ObjectType | StringType

  /** The keywords that bound a quantity from below or from above. */
  datatype Bound =
    | Minimum | ExclusiveMinimum | MinLength | MinItems | MinProperties
    | Maximum | ExclusiveMaximum | MaxLength | MaxItems | MaxProperties

  type Step = r: real | r > 0.0 witness 1.0

  /** The keywords that judge a value without any subschema (Validation sections 6.1 to 6.5). */
  datatype Assertions = Assertions(
    types: Option<set<SimpleType>>,
    enum: Option<seq<Json>>,
    constant: Option<Json>,
    bounds: map<Bound, real>,
    multipleOf: Option<Step>,
    pattern: Option<string>,
    uniqueItems: bool,
    required: set<string>)

  /**
   A schema: a boolean, a `#/$defs/<name>` reference with nothing beside it, or an object of modelled
   keywords.  `id` is the identity of the document node; a dictionary built during a comparison has none.
   An absent list keyword is the empty list.
   */
  datatype Schema =
    | Truth(accepting: bool)
    | Ref(name: string)
    | Node(
        id: Option<nat>,
        assertions: Assertions,
        properties: map<string, Schema>,
        additional: Option<Schema>,
        items: Option<Schema>,
        prefixItems: seq<Schema>,
        anyOf: seq<Schema>,
        oneOf: seq<Schema>)

  type Definitions = map<string, Schema>

  /** Which texts a pattern matches: regular expressions themselves are not modelled. */
  type Regex = (string, string) -> bool

  // ---------------------------------------------------------------- assertion keywords

  predicate HasType(j: Json, t: SimpleType) {
    match t
    case ArrayType => j.Array?
    case BooleanType => j.Boolean?
    case IntegerType => j.Number? && IsWhole(j.n)
    case NullType => j.Null?
    case NumberType => j.Number?
    case ObjectType => j.Object?
    case StringType => j.Text?
  }

  predicate Within(b: Bound, limit: real, j: Json) {
    match b
    case Minimum => j.Number? ==> j.n >= limit
    case ExclusiveMinimum => j.Number? ==> j.n > limit
    case MinLength => j.Text? ==> |j.s| as real >= limit
    case MinItems => j.Array? ==> |j.elements| as real >= limit
    case MinProperties => j.Object? ==> |j.members| as real >= limit
    case Maximum => j.Number? ==> j.n <= limit
    case ExclusiveMaximum => j.Number? ==> j.n < limit
    case MaxLength => j.Text? ==> |j.s| as real <= limit
    case MaxItems => j.Array? ==> |j.elements| as real <= limit
    case MaxProperties => j.Object? ==> |j.members| as real <= limit
  }

  ghost predicate Satisfies(matches: Regex, a: Assertions, j: Json) {
    && (a.types.Some? ==> exists t | t in a.types.value :: HasType(j, t))
    && (a.enum.Some? ==> j in a.enum.value)
    && (a.constant.Some? ==> j == a.constant.value)
    && (forall b | b in a.bounds :: Within(b, a.bounds[b], j))
    && (a.multipleOf.Some? && j.Number? ==> IsWhole(j.n / a.multipleOf.value))
    && (a.pattern.Some? && j.Text? ==> matches(a.pattern.value, j.s))
    && (a.uniqueItems && j.Array? ==> NoRepeats(j.elements))
    && (j.Object? ==> a.required <= j.members.Keys)
  }

  // ---------------------------------------------------------------- applicator keywords

  /** The schema that judges the member `name`: its property, else the additional ones (Core 10.3.2). */
  function MemberSchema(s: Schema, name: string): Option<Schema>
    requires s.Node?
  {
    if name in s.properties then Some(s.properties[name]) else s.additional
  }

  /** The schema that judges position `i` of an array: its prefix item, else `items` (Core 10.3.1). */
  function ItemSchema(s: Schema, i: nat): Option<Schema>
    requires s.Node?
  {
    if i < |s.prefixItems| then Some(s.prefixItems[i]) else s.items
  }

  /** Every judged member or element of `j` is accepted by derivations of height at most `fuel`. */
  ghost predicate PartsAccepted(matches: Regex, defs: Definitions, fuel: nat, s: Schema, j: Json)
    requires s.Node?
    decreases fuel, 1
  {
    && (j.Object? ==> forall name | name in j.members && MemberSchema(s, name).Some? ::
          Accepts(matches, defs, fuel, MemberSchema(s, name).value, j.members[name]))
    && (j.Array? ==> forall i | 0 <= i < |j.elements| && ItemSchema(s, i).Some? ::
          Accepts(matches, defs, fuel, ItemSchema(s, i).value, j.elements[i]))
  }

  ghost predicate SomePartRejected(matches: Regex, defs: Definitions, fuel: nat, s: Schema, j: Json)
    requires s.Node?
    decreases fuel, 1
  {
    || (j.Object? && exists name | name in j.members && MemberSchema(s, name).Some? ::
          Rejects(matches, defs, fuel, MemberSchema(s, name).value, j.members[name]))
    || (j.Array? && exists i | 0 <= i < |j.elements| && ItemSchema(s, i).Some? ::
          Rejects(matches, defs, fuel, ItemSchema(s, i).value, j.elements[i]))
  }

  ghost predicate SomeAccepts(matches: Regex, defs: Definitions, fuel: nat, branches: seq<Schema>, j: Json)
    decreases fuel, 1
  {
    exists i | 0 <= i < |branches| :: Accepts(matches, defs, fuel, branches[i], j)
  }

  ghost predicate AllReject(matches: Regex, defs: Definitions, fuel: nat, branches: seq<Schema>, j: Json)
    decreases fuel, 1
  {
    forall i | 0 <= i < |branches| :: Rejects(matches, defs, fuel, branches[i], j)
  }

  /** Exactly one branch accepts: it does, and every other one rejects (Core 10.2.1.3). */
  ghost predicate OneAccepts(matches: Regex, defs: Definitions, fuel: nat, branches: seq<Schema>, j: Json)
    decreases fuel, 1
  {
    exists i | 0 <= i < |branches| ::
      && Accepts(matches, defs, fuel, branches[i], j)
      && forall k | 0 <= k < |branches| && k != i :: Rejects(matches, defs, fuel, branches[k], j)
  }

  ghost predicate TwoAccept(matches: Regex, defs: Definitions, fuel: nat, branches: seq<Schema>, j: Json)
    decreases fuel, 1
  {
    exists i, k | 0 <= i < k < |branches| ::
      Accepts(matches, defs, fuel, branches[i], j) && Accepts(matches, defs, fuel, branches[k], j)
  }

  ghost predicate Accepts(matches: Regex, defs: Definitions, fuel: nat, s: Schema, j: Json)
    decreases fuel, 0
  {
    fuel > 0 &&
    match s
    case Truth(accepting) => accepting
    case Ref(name) => name in defs && Accepts(matches, defs, fuel - 1, defs[name], j)
    case Node(_, assertions, _, _, _, _, anyOf, oneOf) =>
      && Satisfies(matches, assertions, j)
      && PartsAccepted(matches, defs, fuel - 1, s, j)
      && (anyOf != [] ==> SomeAccepts(matches, defs, fuel - 1, anyOf, j))
      && (oneOf != [] ==> OneAccepts(matches, defs, fuel - 1, oneOf, j))
  }

  ghost predicate Rejects(matches: Regex, defs: Definitions, fuel: nat, s: Schema, j: Json)
    decreases fuel, 0
  {
    fuel > 0 &&
    match s
    case Truth(accepting) => !accepting
    case Ref(name) => name in defs && Rejects(matches, defs, fuel - 1, defs[name], j)
    case Node(_, assertions, _, _, _, _, anyOf, oneOf) =>
      || !Satisfies(matches, assertions, j)
      || SomePartRejected(matches, defs, fuel - 1, s, j)
      || (anyOf != [] && AllReject(matches, defs, fuel - 1, anyOf, j))
      || (oneOf != [] && AllReject(matches, defs, fuel - 1, oneOf, j))
      || TwoAccept(matches, defs, fuel - 1, oneOf, j)
  }

  /** Some derivation shows the value valid. */
  ghost predicate Valid(matches: Regex, defs: Definitions, s: Schema, j: Json) {
    exists fuel: nat :: Accepts(matches, defs, fuel, s, j)
  }

  /** Some derivation shows the value invalid. */
  ghost predicate Invalid(matches: Regex, defs: Definitions, s: Schema, j: Json) {
    exists fuel: nat :: Rejects(matches, defs, fuel, s, j)
  }

  /** Whatever height `lo` accepts or rejects, height `hi` does too. */
  ghost predicate Lifts(matches: Regex, defs: Definitions, lo: nat, hi: nat) {
    forall s, j ::
      && (Accepts(matches, defs, lo, s, j) ==> Accepts(matches, defs, hi, s, j))
      && (Rejects(matches, defs, lo, s, j) ==> Rejects(matches, defs, hi, s, j))
  }

  lemma PartsLift(matches: Regex, defs: Definitions, lo: nat, hi: nat, s: Schema, j: Json)
    requires s.Node? && Lifts(matches, defs, lo, hi)
    ensures PartsAccepted(matches, defs, lo, s, j) ==> PartsAccepted(matches, defs, hi, s, j)
    ensures SomePartRejected(matches, defs, lo, s, j) ==> SomePartRejected(matches, defs, hi, s, j)
  {
  }

  lemma BranchesLift(matches: Regex, defs: Definitions, lo: nat, hi: nat, branches: seq<Schema>, j: Json)
    requires Lifts(matches, defs, lo, hi)
    ensures SomeAccepts(matches, defs, lo, branches, j) ==> SomeAccepts(matches, defs, hi, branches, j)
    ensures AllReject(matches, defs, lo, branches, j) ==> AllReject(matches, defs, hi, branches, j)
    ensures OneAccepts(matches, defs, lo, branches, j) ==> OneAccepts(matches, defs, hi, branches, j)
    ensures TwoAccept(matches, defs, lo, branches, j) ==> TwoAccept(matches, defs, hi, branches, j)
  {
    hide Lifts, SomeAccepts, AllReject, OneAccepts, TwoAccept;
    SomeLifts(matches, defs, lo, hi, branches, j);
    OneLifts(matches, defs, lo, hi, branches, j);
  }

  lemma SomeLifts(matches: Regex, defs: Definitions, lo: nat, hi: nat, branches: seq<Schema>, j: Json)
    requires Lifts(matches, defs, lo, hi)
    ensures SomeAccepts(matches, defs, lo, branches, j) ==> SomeAccepts(matches, defs, hi, branches, j)
    ensures AllReject(matches, defs, lo, branches, j) ==> AllReject(matches, defs, hi, branches, j)
  {
    hide Accepts, Rejects;
  }

  lemma OneLifts(matches: Regex, defs: Definitions, lo: nat, hi: nat, branches: seq<Schema>, j: Json)
    requires Lifts(matches, defs, lo, hi)
    ensures OneAccepts(matches, defs, lo, branches, j) ==> OneAccepts(matches, defs, hi, branches, j)
    ensures TwoAccept(matches, defs, lo, branches, j) ==> TwoAccept(matches, defs, hi, branches, j)
  {
    hide Accepts, Rejects;
  }

  lemma NodeLifts(matches: Regex, defs: Definitions, f: nat, g: nat, s: Schema, j: Json)
    requires 0 < f <= g && s.Node? && Lifts(matches, defs, f - 1, g - 1)
    ensures Accepts(matches, defs, f, s, j) ==> Accepts(matches, defs, g, s, j)
    ensures Rejects(matches, defs, f, s, j) ==> Rejects(matches, defs, g, s, j)
  {
    hide Lifts, PartsAccepted, SomePartRejected, SomeAccepts, AllReject, OneAccepts, TwoAccept;
    PartsLift(matches, defs, f - 1, g - 1, s, j);
    BranchesLift(matches, defs, f - 1, g - 1, s.anyOf, j);
    BranchesLift(matches, defs, f - 1, g - 1, s.oneOf, j);
  }

  /** A higher derivation can do all a lower one can. */
  lemma {:induction false} MoreFuel(matches: Regex, defs: Definitions, f: nat, g: nat, s: Schema, j: Json)
    requires f <= g
    ensures Accepts(matches, defs, f, s, j) ==> Accepts(matches, defs, g, s, j)
    ensures Rejects(matches, defs, f, s, j) ==> Rejects(matches, defs, g, s, j)
    decreases f
  {
    if f > 0 {
      var lo, hi := f - 1, g - 1;
      match s
      case Truth(_) =>
      case Ref(name) =>
        if name in defs { MoreFuel(matches, defs, lo, hi, defs[name], j); }
      case Node(_, _, _, _, _, _, _, _) =>
        assert Lifts(matches, defs, lo, hi) by {
          forall t, v { MoreFuel(matches, defs, lo, hi, t, v); }
        }
        NodeLifts(matches, defs, f, g, s, j);
    }
  }

  /** Nothing is accepted at height `lo` and rejected at height `hi`. */
  ghost predicate Apart(matches: Regex, defs: Definitions, lo: nat, hi: nat) {
    forall s, j :: !(Accepts(matches, defs, lo, s, j) && Rejects(matches, defs, hi, s, j))
  }

  lemma PartsApart(matches: Regex, defs: Definitions, lo: nat, hi: nat, s: Schema, j: Json)
    requires s.Node? && Apart(matches, defs, lo, hi)
    ensures !(PartsAccepted(matches, defs, lo, s, j) && SomePartRejected(matches, defs, hi, s, j))
  {
    hide Accepts, Rejects;
  }

  lemma BranchesApart(matches: Regex, defs: Definitions, lo: nat, hi: nat, branches: seq<Schema>, j: Json)
    requires Apart(matches, defs, lo, hi) && Apart(matches, defs, hi, lo)
    ensures !(SomeAccepts(matches, defs, lo, branches, j) && AllReject(matches, defs, hi, branches, j))
    ensures !(OneAccepts(matches, defs, lo, branches, j) && AllReject(matches, defs, hi, branches, j))
    ensures !(OneAccepts(matches, defs, lo, branches, j) && TwoAccept(matches, defs, hi, branches, j))
    ensures branches == [] ==> !TwoAccept(matches, defs, hi, branches, j)
  {
    hide Accepts, Rejects;
    OneIsNotTwo(matches, defs, lo, hi, branches, j);
    hide TwoAccept;
    assert forall i | 0 <= i < |branches| ::
      !(Accepts(matches, defs, lo, branches[i], j) && Rejects(matches, defs, hi, branches[i], j));
  }

  lemma OneIsNotTwo(matches: Regex, defs: Definitions, lo: nat, hi: nat, branches: seq<Schema>, j: Json)
    requires Apart(matches, defs, hi, lo)
    ensures !(OneAccepts(matches, defs, lo, branches, j) && TwoAccept(matches, defs, hi, branches, j))
    ensures branches == [] ==> !TwoAccept(matches, defs, hi, branches, j)
  {
    hide Accepts, Rejects;
  }

  lemma NodeApart(matches: Regex, defs: Definitions, f: nat, g: nat, s: Schema, j: Json)
    requires s.Node? && f > 0 && g > 0
    requires Apart(matches, defs, f - 1, g - 1) && Apart(matches, defs, g - 1, f - 1)
    ensures !(Accepts(matches, defs, f, s, j) && Rejects(matches, defs, g, s, j))
  {
    hide Apart, PartsAccepted, SomePartRejected, SomeAccepts, AllReject, OneAccepts, TwoAccept;
    PartsApart(matches, defs, f - 1, g - 1, s, j);
    BranchesApart(matches, defs, f - 1, g - 1, s.anyOf, j);
    BranchesApart(matches, defs, f - 1, g - 1, s.oneOf, j);
  }

  /** No value is both accepted and rejected, however its derivations are built. */
  lemma {:induction false} NeverBoth(matches: Regex, defs: Definitions, f: nat, g: nat, s: Schema, j: Json)
    ensures !(Accepts(matches, defs, f, s, j) && Rejects(matches, defs, g, s, j))
    decreases f + g
  {
    if f > 0 && g > 0 {
      var lo, hi := f - 1, g - 1;
      match s
      case Truth(_) =>
      case Ref(name) =>
        if name in defs { NeverBoth(matches, defs, lo, hi, defs[name], j); }
      case Node(_, _, _, _, _, _, _, _) =>
        assert Apart(matches, defs, lo, hi) && Apart(matches, defs, hi, lo) by {
          forall t, v { NeverBoth(matches, defs, lo, hi, t, v); }
          forall t, v { NeverBoth(matches, defs, hi, lo, t, v); }
        }
        NodeApart(matches, defs, f, g, s, j);
    }
  }

  // ---------------------------------------------------------------- recursion guarded by members and elements

  /**
   `s` never returns to itself without descending into the value: every reference it follows on the same
   value has a rank below `bound`, every one behind a member or an element a rank below `top`.
   */
  ghost predicate Guarded(defs: Definitions, rank: map<string, nat>, top: nat, bound: nat, s: Schema)
    decreases s
  {
    match s
    case Truth(_) => true
    case Ref(name) => name in defs && name in rank && rank[name] < bound
    case Node(_, _, properties, additional, items, prefixItems, anyOf, oneOf) =>
      && (forall name | name in properties :: Guarded(defs, rank, top, top, properties[name]))
      && (additional.Some? ==> Guarded(defs, rank, top, top, additional.value))
      && (items.Some? ==> Guarded(defs, rank, top, top, items.value))
      && (forall i | 0 <= i < |prefixItems| :: Guarded(defs, rank, top, top, prefixItems[i]))
      && (forall i | 0 <= i < |anyOf| :: Guarded(defs, rank, top, bound, anyOf[i]))
      && (forall i | 0 <= i < |oneOf| :: Guarded(defs, rank, top, bound, oneOf[i]))
  }

  ghost predicate GuardedDefinitions(defs: Definitions, rank: map<string, nat>, top: nat) {
    forall name | name in defs ::
      name in rank && rank[name] < top && Guarded(defs, rank, top, rank[name], defs[name])
  }

  /** A document whose references all resolve and whose recursion is guarded. */
  ghost predicate GuardedDocument(defs: Definitions, s: Schema) {
    exists rank, top :: GuardedDefinitions(defs, rank, top) && Guarded(defs, rank, top, top, s)
  }

  ghost predicate Decided(matches: Regex, defs: Definitions, fuel: nat, s: Schema, j: Json) {
    Accepts(matches, defs, fuel, s, j) || Rejects(matches, defs, fuel, s, j)
  }

  lemma StaysDecided(matches: Regex, defs: Definitions, f: nat, g: nat, s: Schema, j: Json)
    requires f <= g && Decided(matches, defs, f, s, j)
    ensures Decided(matches, defs, g, s, j)
  {
    MoreFuel(matches, defs, f, g, s, j);
  }

  /** Every judged member and element of `j` is decided at height `fuel`. */
  ghost predicate PartsDecided(matches: Regex, defs: Definitions, fuel: nat, s: Schema, j: Json)
    requires s.Node?
  {
    && (j.Object? ==> forall name | name in j.members && MemberSchema(s, name).Some? ::
          Decided(matches, defs, fuel, MemberSchema(s, name).value, j.members[name]))
    && (j.Array? ==> forall i | 0 <= i < |j.elements| && ItemSchema(s, i).Some? ::
          Decided(matches, defs, fuel, ItemSchema(s, i).value, j.elements[i]))
  }

  ghost predicate BranchesDecided(matches: Regex, defs: Definitions, fuel: nat, branches: seq<Schema>, j: Json) {
    forall i | 0 <= i < |branches| :: Decided(matches, defs, fuel, branches[i], j)
  }

  /** Branches each decided leave their union decided. */
  lemma UnionDecided(matches: Regex, defs: Definitions, fuel: nat, branches: seq<Schema>, j: Json)
    requires BranchesDecided(matches, defs, fuel, branches, j)
    ensures SomeAccepts(matches, defs, fuel, branches, j) || AllReject(matches, defs, fuel, branches, j)
    ensures OneAccepts(matches, defs, fuel, branches, j) || AllReject(matches, defs, fuel, branches, j)
            || TwoAccept(matches, defs, fuel, branches, j)
  {
    hide Accepts, Rejects;
    if !AllReject(matches, defs, fuel, branches, j) && !TwoAccept(matches, defs, fuel, branches, j) {
      var i :| 0 <= i < |branches| && !Rejects(matches, defs, fuel, branches[i], j);
      assert Accepts(matches, defs, fuel, branches[i], j);
      assert OneAccepts(matches, defs, fuel, branches, j);
    }
  }

  /** A node is decided one step above all it asks about. */
  lemma NodeDecided(matches: Regex, defs: Definitions, fuel: nat, s: Schema, j: Json)
    requires s.Node? && PartsDecided(matches, defs, fuel, s, j)
    requires BranchesDecided(matches, defs, fuel, s.anyOf, j) && BranchesDecided(matches, defs, fuel, s.oneOf, j)
    ensures Decided(matches, defs, fuel + 1, s, j)
  {
    hide BranchesDecided, SomeAccepts, AllReject, OneAccepts, TwoAccept, PartsDecided, PartsAccepted, SomePartRejected;
    UnionDecided(matches, defs, fuel, s.anyOf, j);
    UnionDecided(matches, defs, fuel, s.oneOf, j);
    PartsJudged(matches, defs, fuel, s, j);
  }

  lemma PartsJudged(matches: Regex, defs: Definitions, fuel: nat, s: Schema, j: Json)
    requires s.Node? && PartsDecided(matches, defs, fuel, s, j)
    ensures PartsAccepted(matches, defs, fuel, s, j) || SomePartRejected(matches, defs, fuel, s, j)
  {
    hide Accepts, Rejects, MemberSchema, ItemSchema;
  }

  /** Evaluation of a guarded schema ends: some height decides every value. */
  lemma {:induction false} Decides(
    matches: Regex, defs: Definitions, rank: map<string, nat>, top: nat, bound: nat, s: Schema, j: Json)
    returns (fuel: nat)
    requires GuardedDefinitions(defs, rank, top) && bound <= top
    requires Guarded(defs, rank, top, bound, s)
    ensures Decided(matches, defs, fuel, s, j)
    decreases j, bound, s, 2, 0
  {
    match s
    case Truth(_) => fuel := 1;
    case Ref(name) =>
      fuel := Decides(matches, defs, rank, top, rank[name], defs[name], j);
      fuel := fuel + 1;
    case Node(_, _, _, _, _, _, anyOf, oneOf) =>
      var parts := DecidesParts(matches, defs, rank, top, bound, s, j);
      var some := DecidesBranches(matches, defs, rank, top, bound, s, anyOf, |anyOf|, j);
      var one := DecidesBranches(matches, defs, rank, top, bound, s, oneOf, |oneOf|, j);
      fuel := parts + some + one;
      AllStayDecided(matches, defs, parts, fuel);
      assert PartsDecided(matches, defs, fuel, s, j);
      AllStayDecided(matches, defs, some, fuel);
      AllStayDecided(matches, defs, one, fuel);
      NodeDecided(matches, defs, fuel, s, j);
      fuel := fuel + 1;
  }

  lemma AllStayDecided(matches: Regex, defs: Definitions, f: nat, g: nat)
    requires f <= g
    ensures forall s, j | Decided(matches, defs, f, s, j) :: Decided(matches, defs, g, s, j)
  {
    forall s, j | Decided(matches, defs, f, s, j) ensures Decided(matches, defs, g, s, j) {
      StaysDecided(matches, defs, f, g, s, j);
    }
  }

  lemma {:induction false} DecidesParts(
    matches: Regex, defs: Definitions, rank: map<string, nat>, top: nat, bound: nat, s: Schema, j: Json)
    returns (fuel: nat)
    requires GuardedDefinitions(defs, rank, top) && bound <= top
    requires s.Node? && Guarded(defs, rank, top, bound, s)
    ensures PartsDecided(matches, defs, fuel, s, j)
    decreases j, bound, s, 1, 0
  {
    match j
    case Object(members) =>
      fuel := DecidesMembers(matches, defs, rank, top, bound, s, j, members.Keys);
      assert forall name | name in members :: name in members.Keys;
    case Array(elements) =>
      fuel := DecidesElements(matches, defs, rank, top, bound, s, j, |elements|);
    case _ =>
      fuel := 0;
  }

  lemma {:induction false} DecidesMembers(
    matches: Regex, defs: Definitions, rank: map<string, nat>, top: nat, bound: nat, s: Schema, j: Json,
    names: set<string>)
    returns (fuel: nat)
    requires GuardedDefinitions(defs, rank, top) && bound <= top
    requires s.Node? && Guarded(defs, rank, top, bound, s)
    requires names != {} ==> j.Object? && names <= j.members.Keys
    ensures forall name | name in names && MemberSchema(s, name).Some? ::
              Decided(matches, defs, fuel, MemberSchema(s, name).value, j.members[name])
    decreases j, bound, s, 0, |names|
  {
    fuel := 0;
    if names != {} {
      var name :| name in names;
      var rest := DecidesMembers(matches, defs, rank, top, bound, s, j, names - {name});
      if MemberSchema(s, name).Some? {
        fuel := Decides(matches, defs, rank, top, top, MemberSchema(s, name).value, j.members[name]);
        AllStayDecided(matches, defs, fuel, fuel + rest);
      }
      fuel := fuel + rest;
      AllStayDecided(matches, defs, rest, fuel);
    }
  }

  lemma {:induction false} DecidesElements(
    matches: Regex, defs: Definitions, rank: map<string, nat>, top: nat, bound: nat, s: Schema, j: Json,
    count: nat)
    returns (fuel: nat)
    requires GuardedDefinitions(defs, rank, top) && bound <= top
    requires s.Node? && Guarded(defs, rank, top, bound, s)
    requires count > 0 ==> j.Array? && count <= |j.elements|
    ensures forall i | 0 <= i < count && ItemSchema(s, i).Some? ::
              Decided(matches, defs, fuel, ItemSchema(s, i).value, j.elements[i])
    decreases j, bound, s, 0, count
  {
    fuel := 0;
    if count > 0 {
      fuel := DecidesElements(matches, defs, rank, top, bound, s, j, count - 1);
      if ItemSchema(s, count - 1).Some? {
        var last := Decides(matches, defs, rank, top, top, ItemSchema(s, count - 1).value, j.elements[count - 1]);
        AllStayDecided(matches, defs, last, fuel + last);
        AllStayDecided(matches, defs, fuel, fuel + last);
        fuel := fuel + last;
      }
    }
  }

  lemma {:induction false} DecidesBranches(
    matches: Regex, defs: Definitions, rank: map<string, nat>, top: nat, bound: nat, s: Schema,
    branches: seq<Schema>, count: nat, j: Json)
    returns (fuel: nat)
    requires GuardedDefinitions(defs, rank, top) && bound <= top
    requires s.Node? && Guarded(defs, rank, top, bound, s)
    requires (branches == s.anyOf || branches == s.oneOf) && count <= |branches|
    ensures forall i | 0 <= i < count :: Decided(matches, defs, fuel, branches[i], j)
    decreases j, bound, s, 0, count
  {
    fuel := 0;
    if count > 0 {
      fuel := DecidesBranches(matches, defs, rank, top, bound, s, branches, count - 1, j);
      var last := Decides(matches, defs, rank, top, bound, branches[count - 1], j);
      AllStayDecided(matches, defs, last, fuel + last);
      AllStayDecided(matches, defs, fuel, fuel + last);
      fuel := fuel + last;
    }
  }

  /** In a guarded document every value is exactly one of valid and invalid. */
  lemma GuardedIsTotal(matches: Regex, defs: Definitions, s: Schema, j: Json)
    requires GuardedDocument(defs, s)
    ensures Valid(matches, defs, s, j) <==> !Invalid(matches, defs, s, j)
  {
    var rank, top :| GuardedDefinitions(defs, rank, top) && Guarded(defs, rank, top, top, s);
    var fuel := Decides(matches, defs, rank, top, top, s, j);
    if Valid(matches, defs, s, j) && Invalid(matches, defs, s, j) {
      var f: nat :| Accepts(matches, defs, f, s, j);
      var g: nat :| Rejects(matches, defs, g, s, j);
      NeverBoth(matches, defs, f, g, s, j);
    }
  }

  // ---------------------------------------------------------------- validity, keyword by keyword

  ghost predicate PartsValid(matches: Regex, defs: Definitions, s: Schema, j: Json)
    requires s.Node?
  {
    && (j.Object? ==> forall name | name in j.members && MemberSchema(s, name).Some? ::
          Valid(matches, defs, MemberSchema(s, name).value, j.members[name]))
    && (j.Array? ==> forall i | 0 <= i < |j.elements| && ItemSchema(s, i).Some? ::
          Valid(matches, defs, ItemSchema(s, i).value, j.elements[i]))
  }

  ghost predicate SomePartInvalid(matches: Regex, defs: Definitions, s: Schema, j: Json)
    requires s.Node?
  {
    || (j.Object? && exists name | name in j.members && MemberSchema(s, name).Some? ::
          Invalid(matches, defs, MemberSchema(s, name).value, j.members[name]))
    || (j.Array? && exists i | 0 <= i < |j.elements| && ItemSchema(s, i).Some? ::
          Invalid(matches, defs, ItemSchema(s, i).value, j.elements[i]))
  }

  ghost predicate SomeValid(matches: Regex, defs: Definitions, branches: seq<Schema>, j: Json) {
    exists i | 0 <= i < |branches| :: Valid(matches, defs, branches[i], j)
  }

  ghost predicate AllInvalid(matches: Regex, defs: Definitions, branches: seq<Schema>, j: Json) {
    forall i | 0 <= i < |branches| :: Invalid(matches, defs, branches[i], j)
  }

  ghost predicate OthersInvalid(matches: Regex, defs: Definitions, branches: seq<Schema>, i: nat, j: Json) {
    forall k | 0 <= k < |branches| && k != i :: Invalid(matches, defs, branches[k], j)
  }

  ghost predicate OneValid(matches: Regex, defs: Definitions, branches: seq<Schema>, j: Json) {
    exists i | 0 <= i < |branches| ::
      Valid(matches, defs, branches[i], j) && OthersInvalid(matches, defs, branches, i, j)
  }

  ghost predicate TwoValid(matches: Regex, defs: Definitions, branches: seq<Schema>, j: Json) {
    exists i, k | 0 <= i < k < |branches| ::
      Valid(matches, defs, branches[i], j) && Valid(matches, defs, branches[k], j)
  }

  /** What makes a value valid under an object schema (Core sections 10.2.1 and 10.3). */
  ghost predicate NodeValid(matches: Regex, defs: Definitions, s: Schema, j: Json)
    requires s.Node?
  {
    && Satisfies(matches, s.assertions, j)
    && PartsValid(matches, defs, s, j)
    && (s.anyOf != [] ==> SomeValid(matches, defs, s.anyOf, j))
    && (s.oneOf != [] ==> OneValid(matches, defs, s.oneOf, j))
  }

  /** What makes it invalid. */
  ghost predicate NodeInvalid(matches: Regex, defs: Definitions, s: Schema, j: Json)
    requires s.Node?
  {
    || !Satisfies(matches, s.assertions, j)
    || SomePartInvalid(matches, defs, s, j)
    || (s.anyOf != [] && AllInvalid(matches, defs, s.anyOf, j))
    || (s.oneOf != [] && AllInvalid(matches, defs, s.oneOf, j))
    || TwoValid(matches, defs, s.oneOf, j)
  }

  lemma HeightsLift(matches: Regex, defs: Definitions, lo: nat, hi: nat)
    requires lo <= hi
    ensures Lifts(matches, defs, lo, hi)
  {
    forall s, j { MoreFuel(matches, defs, lo, hi, s, j); }
  }

  /** Finitely many members valid one by one are accepted at one height. */
  lemma {:induction false} MembersAccepted(
    matches: Regex, defs: Definitions, s: Schema, members: map<string, Json>, names: set<string>)
    returns (fuel: nat)
    requires s.Node? && names <= members.Keys
    requires forall name | name in names && MemberSchema(s, name).Some? ::
               Valid(matches, defs, MemberSchema(s, name).value, members[name])
    ensures forall name | name in names && MemberSchema(s, name).Some? ::
              Accepts(matches, defs, fuel, MemberSchema(s, name).value, members[name])
    decreases |names|
  {
    fuel := 0;
    if names != {} {
      var name :| name in names;
      var rest := MembersAccepted(matches, defs, s, members, names - {name});
      var one: nat := 0;
      if MemberSchema(s, name).Some? {
        one :| Accepts(matches, defs, one, MemberSchema(s, name).value, members[name]);
      }
      fuel := one + rest;
      HeightsLift(matches, defs, one, fuel);
      HeightsLift(matches, defs, rest, fuel);
    }
  }

  lemma {:induction false} ElementsAccepted(
    matches: Regex, defs: Definitions, s: Schema, elements: seq<Json>, count: nat)
    returns (fuel: nat)
    requires s.Node? && count <= |elements|
    requires forall i | 0 <= i < count && ItemSchema(s, i).Some? ::
               Valid(matches, defs, ItemSchema(s, i).value, elements[i])
    ensures forall i | 0 <= i < count && ItemSchema(s, i).Some? ::
              Accepts(matches, defs, fuel, ItemSchema(s, i).value, elements[i])
  {
    fuel := 0;
    if count > 0 {
      var rest := ElementsAccepted(matches, defs, s, elements, count - 1);
      var one: nat := 0;
      if ItemSchema(s, count - 1).Some? {
        one :| Accepts(matches, defs, one, ItemSchema(s, count - 1).value, elements[count - 1]);
      }
      fuel := one + rest;
      HeightsLift(matches, defs, one, fuel);
      HeightsLift(matches, defs, rest, fuel);
    }
  }

  lemma PartsValidAccepted(matches: Regex, defs: Definitions, s: Schema, j: Json) returns (fuel: nat)
    requires s.Node? && PartsValid(matches, defs, s, j)
    ensures PartsAccepted(matches, defs, fuel, s, j)
  {
    match j
    case Object(members) => fuel := MembersAccepted(matches, defs, s, members, members.Keys);
    case Array(elements) => fuel := ElementsAccepted(matches, defs, s, elements, |elements|);
    case _ => fuel := 0;
  }

  /** All branches but `skip` are rejected at one height. */
  lemma {:induction false} BranchesRejected(
    matches: Regex, defs: Definitions, branches: seq<Schema>, count: nat, skip: int, j: Json)
    returns (fuel: nat)
    requires count <= |branches|
    requires forall k | 0 <= k < count && k != skip :: Invalid(matches, defs, branches[k], j)
    ensures forall k | 0 <= k < count && k != skip :: Rejects(matches, defs, fuel, branches[k], j)
  {
    fuel := 0;
    if count > 0 {
      var rest := BranchesRejected(matches, defs, branches, count - 1, skip, j);
      var one: nat := 0;
      if count - 1 != skip {
        one :| Rejects(matches, defs, one, branches[count - 1], j);
      }
      fuel := one + rest;
      HeightsLift(matches, defs, one, fuel);
      HeightsLift(matches, defs, rest, fuel);
    }
  }

  lemma SomeValidAccepted(matches: Regex, defs: Definitions, branches: seq<Schema>, j: Json) returns (fuel: nat)
    requires SomeValid(matches, defs, branches, j)
    ensures SomeAccepts(matches, defs, fuel, branches, j)
  {
    var i :| 0 <= i < |branches| && Valid(matches, defs, branches[i], j);
    fuel :| Accepts(matches, defs, fuel, branches[i], j);
  }

  lemma OneValidAccepted(matches: Regex, defs: Definitions, branches: seq<Schema>, j: Json) returns (fuel: nat)
    requires OneValid(matches, defs, branches, j)
    ensures OneAccepts(matches, defs, fuel, branches, j)
  {
    var i :| 0 <= i < |branches| && Valid(matches, defs, branches[i], j)
             && OthersInvalid(matches, defs, branches, i, j);
    var one: nat :| Accepts(matches, defs, one, branches[i], j);
    var others := BranchesRejected(matches, defs, branches, |branches|, i, j);
    fuel := one + others;
    HeightsLift(matches, defs, one, fuel);
    HeightsLift(matches, defs, others, fuel);
  }

  lemma TwoValidAccepted(matches: Regex, defs: Definitions, branches: seq<Schema>, j: Json) returns (fuel: nat)
    requires TwoValid(matches, defs, branches, j)
    ensures TwoAccept(matches, defs, fuel, branches, j)
  {
    var i, k :| 0 <= i < k < |branches|
                && Valid(matches, defs, branches[i], j) && Valid(matches, defs, branches[k], j);
    var one: nat :| Accepts(matches, defs, one, branches[i], j);
    var two: nat :| Accepts(matches, defs, two, branches[k], j);
    fuel := one + two;
    HeightsLift(matches, defs, one, fuel);
    HeightsLift(matches, defs, two, fuel);
  }

  /** Parts accepted at several heights make a node accepted one step above them all. */
  lemma AcceptedAbove(
    matches: Regex, defs: Definitions, parts: nat, some: nat, one: nat, s: Schema, j: Json)
    requires s.Node? && Satisfies(matches, s.assertions, j) && PartsAccepted(matches, defs, parts, s, j)
    requires s.anyOf != [] ==> SomeAccepts(matches, defs, some, s.anyOf, j)
    requires s.oneOf != [] ==> OneAccepts(matches, defs, one, s.oneOf, j)
    ensures Accepts(matches, defs, parts + some + one + 1, s, j)
  {
    hide PartsAccepted, SomeAccepts, OneAccepts, Lifts, Satisfies;
    var fuel := parts + some + one;
    HeightsLift(matches, defs, parts, fuel);
    HeightsLift(matches, defs, some, fuel);
    HeightsLift(matches, defs, one, fuel);
    PartsLift(matches, defs, parts, fuel, s, j);
    BranchesLift(matches, defs, some, fuel, s.anyOf, j);
    BranchesLift(matches, defs, one, fuel, s.oneOf, j);
  }

  /** Validity is what the specification says of it, keyword by keyword, for recursive schemas too. */
  lemma NodeValidIsValid(matches: Regex, defs: Definitions, s: Schema, j: Json)
    requires s.Node? && NodeValid(matches, defs, s, j)
    ensures Valid(matches, defs, s, j)
  {
    hide Satisfies, PartsValid, PartsAccepted, SomeValid, OneValid, SomeAccepts, OneAccepts;
    var parts := PartsValidAccepted(matches, defs, s, j);
    var some, one: nat := 0, 0;
    if s.anyOf != [] { some := SomeValidAccepted(matches, defs, s.anyOf, j); }
    if s.oneOf != [] { one := OneValidAccepted(matches, defs, s.oneOf, j); }
    AcceptedAbove(matches, defs, parts, some, one, s, j);
  }

  lemma NodeInvalidIsInvalid(matches: Regex, defs: Definitions, s: Schema, j: Json)
    requires s.Node? && NodeInvalid(matches, defs, s, j)
    ensures Invalid(matches, defs, s, j)
  {
    var fuel: nat;
    if !Satisfies(matches, s.assertions, j) {
      fuel := 0;
    } else if SomePartInvalid(matches, defs, s, j) {
      fuel := SomePartRejectedAt(matches, defs, s, j);
    } else if s.anyOf != [] && AllInvalid(matches, defs, s.anyOf, j) {
      fuel := BranchesRejected(matches, defs, s.anyOf, |s.anyOf|, -1, j);
      assert AllReject(matches, defs, fuel, s.anyOf, j);
    } else if s.oneOf != [] && AllInvalid(matches, defs, s.oneOf, j) {
      fuel := BranchesRejected(matches, defs, s.oneOf, |s.oneOf|, -1, j);
      assert AllReject(matches, defs, fuel, s.oneOf, j);
    } else {
      fuel := TwoValidAccepted(matches, defs, s.oneOf, j);
    }
    assert Rejects(matches, defs, fuel + 1, s, j);
  }

  lemma SomePartRejectedAt(matches: Regex, defs: Definitions, s: Schema, j: Json) returns (fuel: nat)
    requires s.Node? && SomePartInvalid(matches, defs, s, j)
    ensures SomePartRejected(matches, defs, fuel, s, j)
  {
    if j.Object? {
      var name :| name in j.members && MemberSchema(s, name).Some?
                  && Invalid(matches, defs, MemberSchema(s, name).value, j.members[name]);
      fuel :| Rejects(matches, defs, fuel, MemberSchema(s, name).value, j.members[name]);
    } else {
      var i :| 0 <= i < |j.elements| && ItemSchema(s, i).Some?
               && Invalid(matches, defs, ItemSchema(s, i).value, j.elements[i]);
      fuel :| Rejects(matches, defs, fuel, ItemSchema(s, i).value, j.elements[i]);
    }
  }

  /** What a height accepts is valid and what it rejects invalid. */
  ghost predicate Shows(matches: Regex, defs: Definitions, lo: nat) {
    && (forall s, j | Accepts(matches, defs, lo, s, j) :: Valid(matches, defs, s, j))
    && (forall s, j | Rejects(matches, defs, lo, s, j) :: Invalid(matches, defs, s, j))
  }

  lemma EveryHeightShows(matches: Regex, defs: Definitions, lo: nat)
    ensures Shows(matches, defs, lo)
  {
  }

  lemma PartsShown(matches: Regex, defs: Definitions, lo: nat, s: Schema, j: Json)
    requires s.Node? && Shows(matches, defs, lo)
    ensures PartsAccepted(matches, defs, lo, s, j) ==> PartsValid(matches, defs, s, j)
    ensures SomePartRejected(matches, defs, lo, s, j) ==> SomePartInvalid(matches, defs, s, j)
  {
    hide Valid, Invalid;
  }

  lemma BranchesShown(matches: Regex, defs: Definitions, lo: nat, branches: seq<Schema>, j: Json)
    requires Shows(matches, defs, lo)
    ensures SomeAccepts(matches, defs, lo, branches, j) ==> SomeValid(matches, defs, branches, j)
    ensures AllReject(matches, defs, lo, branches, j) ==> AllInvalid(matches, defs, branches, j)
    ensures OneAccepts(matches, defs, lo, branches, j) ==> OneValid(matches, defs, branches, j)
    ensures TwoAccept(matches, defs, lo, branches, j) ==> TwoValid(matches, defs, branches, j)
  {
    hide Shows, SomeAccepts, AllReject, OneAccepts, TwoAccept, SomeValid, AllInvalid, OneValid, TwoValid;
    SomeShown(matches, defs, lo, branches, j);
    OneShown(matches, defs, lo, branches, j);
    TwoShown(matches, defs, lo, branches, j);
  }

  lemma SomeShown(matches: Regex, defs: Definitions, lo: nat, branches: seq<Schema>, j: Json)
    requires Shows(matches, defs, lo)
    ensures SomeAccepts(matches, defs, lo, branches, j) ==> SomeValid(matches, defs, branches, j)
    ensures AllReject(matches, defs, lo, branches, j) ==> AllInvalid(matches, defs, branches, j)
  {
    hide Valid, Invalid, Accepts, Rejects;
  }

  lemma OneShown(matches: Regex, defs: Definitions, lo: nat, branches: seq<Schema>, j: Json)
    requires Shows(matches, defs, lo)
    ensures OneAccepts(matches, defs, lo, branches, j) ==> OneValid(matches, defs, branches, j)
  {
    hide Valid, Invalid, Accepts, Rejects;
    if OneAccepts(matches, defs, lo, branches, j) {
      var i :| 0 <= i < |branches| && Accepts(matches, defs, lo, branches[i], j)
        && forall k | 0 <= k < |branches| && k != i :: Rejects(matches, defs, lo, branches[k], j);
      assert OthersInvalid(matches, defs, branches, i, j);
    }
  }

  lemma TwoShown(matches: Regex, defs: Definitions, lo: nat, branches: seq<Schema>, j: Json)
    requires Shows(matches, defs, lo)
    ensures TwoAccept(matches, defs, lo, branches, j) ==> TwoValid(matches, defs, branches, j)
  {
    hide Valid, Invalid, Accepts, Rejects;
  }

  lemma AcceptedIsNodeValid(matches: Regex, defs: Definitions, fuel: nat, s: Schema, j: Json)
    requires s.Node? && Accepts(matches, defs, fuel, s, j)
    ensures NodeValid(matches, defs, s, j)
  {
    hide Shows, Satisfies, PartsAccepted, PartsValid, SomeAccepts, SomeValid, OneAccepts, OneValid;
    EveryHeightShows(matches, defs, fuel - 1);
    PartsShown(matches, defs, fuel - 1, s, j);
    BranchesShown(matches, defs, fuel - 1, s.anyOf, j);
    BranchesShown(matches, defs, fuel - 1, s.oneOf, j);
  }

  lemma RejectedIsNodeInvalid(matches: Regex, defs: Definitions, fuel: nat, s: Schema, j: Json)
    requires s.Node? && Rejects(matches, defs, fuel, s, j)
    ensures NodeInvalid(matches, defs, s, j)
  {
    hide Shows, Satisfies, SomePartRejected, SomePartInvalid, AllReject, AllInvalid, TwoAccept, TwoValid;
    EveryHeightShows(matches, defs, fuel - 1);
    PartsShown(matches, defs, fuel - 1, s, j);
    BranchesShown(matches, defs, fuel - 1, s.anyOf, j);
    BranchesShown(matches, defs, fuel - 1, s.oneOf, j);
  }

  /** Where recursion is guarded, `oneOf` may ask that the other branches simply not be valid. */
  ghost predicate ExactlyOneValid(matches: Regex, defs: Definitions, branches: seq<Schema>, j: Json) {
    exists i | 0 <= i < |branches| ::
      && Valid(matches, defs, branches[i], j)
      && forall k | 0 <= k < |branches| && k != i :: !Valid(matches, defs, branches[k], j)
  }

  ghost predicate NodeEquation(matches: Regex, defs: Definitions, s: Schema, j: Json)
    requires s.Node?
  {
    && Satisfies(matches, s.assertions, j)
    && PartsValid(matches, defs, s, j)
    && (s.anyOf != [] ==> SomeValid(matches, defs, s.anyOf, j))
    && (s.oneOf != [] ==> ExactlyOneValid(matches, defs, s.oneOf, j))
  }

  /** The derivations are those of the specification: in a guarded document validity is its fixed point. */
  lemma ValidityIsSpecified(
    matches: Regex, defs: Definitions, rank: map<string, nat>, top: nat, s: Schema, j: Json)
    requires s.Node? && GuardedDefinitions(defs, rank, top) && Guarded(defs, rank, top, top, s)
    ensures Valid(matches, defs, s, j) <==> NodeEquation(matches, defs, s, j)
  {
    forall k | 0 <= k < |s.oneOf|
      ensures Invalid(matches, defs, s.oneOf[k], j) <==> !Valid(matches, defs, s.oneOf[k], j)
    {
      assert Guarded(defs, rank, top, top, s.oneOf[k]);
      GuardedIsTotal(matches, defs, s.oneOf[k], j);
    }
    assert OneValid(matches, defs, s.oneOf, j) <==> ExactlyOneValid(matches, defs, s.oneOf, j) by {
      forall i | 0 <= i < |s.oneOf|
        ensures OthersInvalid(matches, defs, s.oneOf, i, j) <==>
                  forall k | 0 <= k < |s.oneOf| && k != i :: !Valid(matches, defs, s.oneOf[k], j)
      {
      }
    }
    assert NodeValid(matches, defs, s, j) <==> NodeEquation(matches, defs, s, j);
    if Valid(matches, defs, s, j) {
      var fuel: nat :| Accepts(matches, defs, fuel, s, j);
      AcceptedIsNodeValid(matches, defs, fuel, s, j);
    } else if NodeValid(matches, defs, s, j) {
      NodeValidIsValid(matches, defs, s, j);
    }
  }
}

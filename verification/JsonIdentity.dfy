/**
 Hashable identities of JSON values: two values have one identity exactly when JSON Schema calls them equal,
 so hashed `uniqueItems`, `enum` and `const` decide what comparing every pair would.
 */
module JsonIdentity {
  import opened Numbers

  datatype Binary = Finite(value: real) | Infinite(positive: bool) | NotANumber

  datatype Value =
    | NullValue
    | BoolValue(b: bool)
    | TextValue(text: string)
    | IntValue(n: int)
    | FloatValue(f: Binary)
    | ArrayValue(items: seq<Value>)
    | ObjectValue(members: map<string, Value>)

  // ---------------------------------------------------------------- JSON Schema equality

  predicate IsNumber(v: Value) {
    v.IntValue? || v.FloatValue?
  }

  /** A number as mathematics sees it, whether it was written as an integer or not. */
  function Numeric(v: Value): Binary
    requires IsNumber(v)
  {
    match v
    case IntValue(n) => Finite(n as real)
    case FloatValue(f) => f
  }

  /** A boolean is not a number, 1 is 1.0, arrays compare in order and objects by their names. */
  ghost predicate JsonEq(a: Value, b: Value) {
    match a
    case NullValue => b.NullValue?
    case BoolValue(x) => b == BoolValue(x)
    case TextValue(s) => b == TextValue(s)
    case IntValue(_) => IsNumber(b) && Numeric(a) == Numeric(b)
    case FloatValue(_) => IsNumber(b) && Numeric(a) == Numeric(b)
    case ArrayValue(items) =>
      b.ArrayValue? && |items| == |b.items| && forall i | 0 <= i < |items| :: JsonEq(items[i], b.items[i])
    case ObjectValue(members) =>
      b.ObjectValue? && members.Keys == b.members.Keys
      && forall name | name in members :: JsonEq(members[name], b.members[name])
  }

  // ---------------------------------------------------------------- integers of any size as Bytes

  function Pow256(size: nat): (p: nat)
    ensures p > 0
  {
    if size == 0 then 1 else 256 * Pow256(size - 1)
  }

  function Pow2(bits: nat): (p: nat)
    ensures p > 0
  {
    if bits == 0 then 1 else 2 * Pow2(bits - 1)
  }

  function BitLength(n: nat): nat {
    if n == 0 then 0 else 1 + BitLength(n / 2)
  }

  function Magnitude(n: int): nat {
    if n < 0 then -n else n
  }

  /** Bytes enough for the magnitude and one sign bit. */
  function SizeOf(n: int): (size: nat)
    ensures size > 0
  {
    (BitLength(Magnitude(n)) + 8) / 8
  }

  function BigEndian(u: nat, size: nat): (bytes: seq<Byte>)
    ensures |bytes| == size
  {
    if size == 0 then [] else BigEndian(u / 256, size - 1) + [(u % 256) as Byte]
  }

  function Unsigned(bytes: seq<Byte>): (u: nat)
    ensures u < Pow256(|bytes|)
  {
    if bytes == [] then 0
    else
      assert Unsigned(bytes[..|bytes| - 1]) <= Pow256(|bytes| - 1) - 1;
      256 * Unsigned(bytes[..|bytes| - 1]) + bytes[|bytes| - 1] as nat
  }

  /** Two's complement, most significant byte first. */
  function ToBytes(n: int): seq<Byte> {
    SizeSuffices(n);
    BigEndian(if n < 0 then Pow256(SizeOf(n)) + n else n, SizeOf(n))
  }

  function FromBytes(bytes: seq<Byte>): int {
    if bytes != [] && bytes[0] >= 128 then Unsigned(bytes) - Pow256(|bytes|) else Unsigned(bytes)
  }

  lemma {:induction false} BitLengthBounds(n: nat)
    ensures n < Pow2(BitLength(n))
  {
    if n > 0 { BitLengthBounds(n / 2); }
  }

  lemma {:induction false} Pow2Monotone(a: nat, b: nat)
    requires a <= b
    ensures Pow2(a) <= Pow2(b)
  {
    if a < b { Pow2Monotone(a, b - 1); }
  }

  lemma {:induction false} Pow256IsPow2(size: nat)
    ensures Pow256(size) == Pow2(8 * size)
  {
    if size > 0 {
      Pow256IsPow2(size - 1);
      var k := 8 * (size - 1);
      assert Pow2(k + 8) == 2 * Pow2(k + 7) == 4 * Pow2(k + 6) == 8 * Pow2(k + 5) == 16 * Pow2(k + 4);
      assert Pow2(k + 4) == 2 * Pow2(k + 3) == 4 * Pow2(k + 2) == 8 * Pow2(k + 1) == 16 * Pow2(k);
    }
  }

  /** The sign bit is never taken by the magnitude. */
  lemma SizeSuffices(n: int)
    ensures 2 * Magnitude(n) < Pow256(SizeOf(n))
  {
    var bits, size := BitLength(Magnitude(n)), SizeOf(n);
    BitLengthBounds(Magnitude(n));
    Pow2Monotone(bits, 8 * size - 1);
    Pow256IsPow2(size);
    assert Pow2(8 * size) == 2 * Pow2(8 * size - 1);
  }

  lemma {:induction false} BitLengthIsLeast(n: nat)
    requires n > 0
    ensures Pow2(BitLength(n) - 1) <= n
  {
    if n > 1 { BitLengthIsLeast(n / 2); }
  }

  /** No shorter whole number of bytes leaves room for the sign bit. */
  lemma SizeIsLeast(n: int)
    requires SizeOf(n) > 1
    ensures Pow256(SizeOf(n) - 1) <= 2 * Magnitude(n)
  {
    var bits, size := BitLength(Magnitude(n)), SizeOf(n);
    BitLengthIsLeast(Magnitude(n));
    Pow2Monotone(8 * (size - 1), bits);
    Pow256IsPow2(size - 1);
  }

  lemma {:induction false} BigEndianRoundTrip(u: nat, size: nat)
    requires u < Pow256(size)
    ensures Unsigned(BigEndian(u, size)) == u
  {
    if size > 0 {
      BigEndianRoundTrip(u / 256, size - 1);
      var bytes := BigEndian(u, size);
      assert bytes[..size - 1] == BigEndian(u / 256, size - 1);
    }
  }

  /** The first byte holds the top bit. */
  lemma {:induction false} TopBit(u: nat, size: nat)
    requires size > 0 && u < Pow256(size)
    ensures BigEndian(u, size)[0] >= 128 <==> 2 * u >= Pow256(size)
  {
    if size == 1 {
      assert Pow256(1) == 256 * Pow256(0) == 256;
      assert BigEndian(u, 1) == BigEndian(u / 256, 0) + [(u % 256) as Byte];
    } else {
      TopBit(u / 256, size - 1);
      var p := Pow256(size - 2);
      assert Pow256(size - 1) == 256 * p && Pow256(size) == 256 * (256 * p);
      assert 2 * u >= 256 * (256 * p) <==> u >= 128 * (256 * p);
      assert 2 * (u / 256) >= 256 * p <==> u / 256 >= 128 * p;
      assert u / 256 >= 128 * p <==> u >= 256 * (128 * p);
    }
  }

  /** An integer of any size is recovered from its bytes. */
  lemma BytesRoundTrip(n: int)
    ensures FromBytes(ToBytes(n)) == n
  {
    var size := SizeOf(n);
    var u := if n < 0 then Pow256(size) + n else n;
    SizeSuffices(n);
    BigEndianRoundTrip(u, size);
    TopBit(u, size);
  }

  // ---------------------------------------------------------------- identities

  datatype Identity =
    | NullIdentity
    | BoolIdentity(b: bool)
    | TextIdentity(text: string)
    | NaNIdentity
    | FloatIdentity(f: Binary)
    | IntIdentity(bytes: seq<Byte>)
    | ArrayIdentity(items: seq<Identity>)
    | ObjectIdentity(members: set<(string, Identity)>)

  /** Equal numbers share a key; a number that is not integral keeps its own. */
  function NumberKey(v: Value): Identity
    requires IsNumber(v)
  {
    match v
    case IntValue(n) => IntIdentity(ToBytes(n))
    case FloatValue(NotANumber) => NaNIdentity
    case FloatValue(Finite(r)) => if IsWhole(r) then IntIdentity(ToBytes(r.Floor)) else FloatIdentity(Finite(r))
    case FloatValue(f) => FloatIdentity(f)
  }

  function IdentityOf(v: Value): Identity {
    match v
    case NullValue => NullIdentity
    case BoolValue(b) => BoolIdentity(b)
    case TextValue(text) => TextIdentity(text)
    case IntValue(_) => NumberKey(v)
    case FloatValue(_) => NumberKey(v)
    case ArrayValue(items) => ArrayIdentity(seq(|items|, i requires 0 <= i < |items| => IdentityOf(items[i])))
    case ObjectValue(members) => ObjectIdentity(set name | name in members :: (name, IdentityOf(members[name])))
  }

  lemma NumberKeysDecideEquality(a: Value, b: Value)
    requires IsNumber(a) && IsNumber(b)
    ensures NumberKey(a) == NumberKey(b) <==> Numeric(a) == Numeric(b)
  {
    forall n: int, k: int | ToBytes(n) == ToBytes(k) ensures n == k {
      BytesRoundTrip(n);
      BytesRoundTrip(k);
    }
  }

  /** Two values have one identity exactly when they are JSON-equal, at any depth. */
  lemma {:induction false} IdentityDecidesEquality(a: Value, b: Value)
    ensures IdentityOf(a) == IdentityOf(b) <==> JsonEq(a, b)
    decreases a
  {
    match a
    case IntValue(_) => if IsNumber(b) { NumberKeysDecideEquality(a, b); }
    case FloatValue(_) => if IsNumber(b) { NumberKeysDecideEquality(a, b); }
    case ArrayValue(items) =>
      if b.ArrayValue? {
        forall i | 0 <= i < |items| && i < |b.items|
          ensures IdentityOf(items[i]) == IdentityOf(b.items[i]) <==> JsonEq(items[i], b.items[i])
        {
          IdentityDecidesEquality(items[i], b.items[i]);
        }
        ArrayIdentities(items, b.items);
      }
    case ObjectValue(members) =>
      if b.ObjectValue? {
        forall name | name in members && name in b.members
          ensures IdentityOf(members[name]) == IdentityOf(b.members[name]) <==> JsonEq(members[name], b.members[name])
        {
          IdentityDecidesEquality(members[name], b.members[name]);
        }
        ObjectIdentities(members, b.members);
      }
    case _ =>
  }

  lemma ArrayIdentities(a: seq<Value>, b: seq<Value>)
    ensures IdentityOf(ArrayValue(a)) == IdentityOf(ArrayValue(b)) <==>
              |a| == |b| && forall i | 0 <= i < |a| :: IdentityOf(a[i]) == IdentityOf(b[i])
  {
    var left, right := IdentityOf(ArrayValue(a)).items, IdentityOf(ArrayValue(b)).items;
    assert |left| == |a| && |right| == |b|;
    assert forall i | 0 <= i < |a| :: left[i] == IdentityOf(a[i]);
    assert forall i | 0 <= i < |b| :: right[i] == IdentityOf(b[i]);
  }

  /** A set of pairs of one pair per name is a map. */
  lemma ObjectIdentities(a: map<string, Value>, b: map<string, Value>)
    ensures IdentityOf(ObjectValue(a)) == IdentityOf(ObjectValue(b)) <==>
              a.Keys == b.Keys && forall name | name in a && name in b :: IdentityOf(a[name]) == IdentityOf(b[name])
  {
    var left, right := IdentityOf(ObjectValue(a)).members, IdentityOf(ObjectValue(b)).members;
    if left == right {
      forall name ensures name in a ==> name in b && IdentityOf(a[name]) == IdentityOf(b[name]) {
        if name in a { assert (name, IdentityOf(a[name])) in right; }
      }
      forall name | name in b ensures name in a {
        assert (name, IdentityOf(b[name])) in left;
      }
    }
  }

  // ---------------------------------------------------------------- the keywords decided by identities

  /** Whether no two items are equal, each hashed once. */
  method UniqueItems(items: seq<Value>) returns (unique: bool)
    ensures unique <==> forall i, k | 0 <= i < k < |items| :: !JsonEq(items[i], items[k])
  {
    var seen: set<Identity> := {};
    for next := 0 to |items|
      invariant forall identity :: identity in seen <==> exists i | 0 <= i < next :: IdentityOf(items[i]) == identity
      invariant forall i, k | 0 <= i < k < next :: !JsonEq(items[i], items[k])
    {
      var identity := IdentityOf(items[next]);
      forall i | 0 <= i < next ensures IdentityOf(items[i]) == identity <==> JsonEq(items[i], items[next]) {
        IdentityDecidesEquality(items[i], items[next]);
      }
      if identity in seen {
        return false;
      }
      seen := seen + {identity};
    }
    return true;
  }

  /** Whether an instance equals one of the listed values. */
  method Allowed(listed: seq<Value>, instance: Value) returns (allowed: bool)
    ensures allowed <==> exists i | 0 <= i < |listed| :: JsonEq(listed[i], instance)
  {
    var known := set i | 0 <= i < |listed| :: IdentityOf(listed[i]);
    forall i | 0 <= i < |listed| ensures IdentityOf(listed[i]) == IdentityOf(instance) <==> JsonEq(listed[i], instance) {
      IdentityDecidesEquality(listed[i], instance);
    }
    allowed := IdentityOf(instance) in known;
  }
}

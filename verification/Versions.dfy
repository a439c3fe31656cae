/** Declared schema versions, and when one counts as newer than another. */
module Versions {
  import opened Options

  /** The decimal value of a character of any script, or -1. */
  type Decimals = d: char -> int | forall c :: -1 <= d(c) <= 9 witness (c: char) => -1

  type Digits = seq<int>

  ghost predicate AreDigits(s: Digits) {
    forall i | 0 <= i < |s| :: 0 <= s[i] <= 9
  }

  /** A number as it is written: without leading zeros. */
  ghost predicate Canonical(s: Digits) {
    AreDigits(s) && s != [] && (s[0] == 0 ==> |s| == 1)
  }

  ghost function NumberOf(s: Digits): int {
    if s == [] then 0 else 10 * NumberOf(s[..|s| - 1]) + s[|s| - 1]
  }

  /** The length first, then digit by digit. */
  predicate NumberGreater(a: Digits, b: Digits) {
    |a| > |b| || (|a| == |b| && TextGreater(a, b))
  }

  /** The first difference decides; a longer text is greater than its beginning. */
  predicate TextGreater(a: Digits, b: Digits) {
    if a == [] then false
    else if b == [] then true
    else a[0] > b[0] || (a[0] == b[0] && TextGreater(a[1..], b[1..]))
  }

  ghost function Pow10(n: nat): (p: nat)
    ensures p > 0
  {
    if n == 0 then 1 else 10 * Pow10(n - 1)
  }

  lemma {:induction false} NumberBounds(s: Digits)
    requires AreDigits(s)
    ensures 0 <= NumberOf(s) < Pow10(|s|)
  {
    if s != [] { NumberBounds(s[..|s| - 1]); }
  }

  /** The first digit counts for its power of ten. */
  lemma {:induction false} LeadingDigit(s: Digits)
    requires s != []
    ensures NumberOf(s) == s[0] * Pow10(|s| - 1) + NumberOf(s[1..])
  {
    var front := s[..|s| - 1];
    if front != [] {
      LeadingDigit(front);
      assert s[1..][..|s| - 2] == front[1..];
    } else {
      assert s[1..] == [];
    }
  }

  lemma {:induction false} Scaled(x: int, y: int, p: nat)
    requires x > y
    ensures x * p >= y * p + p
    decreases x - y
  {
    assert x * p == (x - 1) * p + p;
    if x > y + 1 { Scaled(x - 1, y, p); }
  }

  lemma {:induction false} SameLength(a: Digits, b: Digits)
    requires AreDigits(a) && AreDigits(b) && |a| == |b|
    ensures TextGreater(a, b) <==> NumberOf(a) > NumberOf(b)
  {
    hide NumberOf, Pow10;
    if a == [] {
      assert b == a;
    } else {
      LeadingDigit(a);
      LeadingDigit(b);
      NumberBounds(a[1..]);
      NumberBounds(b[1..]);
      SameLength(a[1..], b[1..]);
      var p := Pow10(|a| - 1);
      if a[0] > b[0] {
        Scaled(a[0], b[0], p);
      } else if a[0] < b[0] {
        Scaled(b[0], a[0], p);
      }
    }
  }

  lemma LongerIsGreater(a: Digits, b: Digits)
    requires Canonical(a) && Canonical(b) && |a| > |b|
    ensures NumberOf(a) > NumberOf(b)
  {
    hide NumberOf, Pow10;
    LeadingDigit(a);
    NumberBounds(a[1..]);
    NumberBounds(b);
    PowersAscend(|b|, |a| - 1);
    Scaled(a[0], 0, Pow10(|a| - 1));
  }

  lemma {:induction false} PowersAscend(a: nat, b: nat)
    requires a <= b
    ensures Pow10(a) <= Pow10(b)
  {
    if a < b { PowersAscend(a, b - 1); }
  }

  /** Comparing the texts is comparing the numbers, of whatever length. */
  lemma NumberGreaterIsGreater(a: Digits, b: Digits)
    requires Canonical(a) && Canonical(b)
    ensures NumberGreater(a, b) <==> NumberOf(a) > NumberOf(b)
  {
    if |a| > |b| {
      LongerIsGreater(a, b);
    } else if |a| < |b| {
      LongerIsGreater(b, a);
    } else {
      SameLength(a, b);
    }
  }

  // ---------------------------------------------------------------- versions

  /** Where the trailing number of a version begins: its end when it has none. */
  ghost predicate NumberStarts(d: Decimals, version: string, start: nat) {
    && start <= |version|
    && (forall i | start <= i < |version| :: d(version[i]) >= 0)
    && (start > 0 ==> d(version[start - 1]) < 0)
  }

  ghost function ValueFrom(d: Decimals, version: string, start: nat): int
    requires start <= |version|
  {
    NumberOf(seq(|version| - start, i requires 0 <= i < |version| - start => d(version[start + i])))
  }

  /** The prefix of a version and the digits of its trailing number, if it has one. */
  method VersionNumber(d: Decimals, version: string) returns (start: nat, digits: Digits)
    ensures NumberStarts(d, version, start)
    ensures start < |version| ==> Canonical(digits) && NumberOf(digits) == ValueFrom(d, version, start)
  {
    start := |version|;
    while start > 0 && d(version[start - 1]) >= 0
      invariant start <= |version|
      invariant forall i | start <= i < |version| :: d(version[i]) >= 0
    {
      start := start - 1;
    }
    digits := seq(|version| - start, i requires 0 <= i < |version| - start => d(version[start + i]));
    ghost var all := digits;
    while |digits| > 0 && digits[0] == 0
      invariant AreDigits(digits) && NumberOf(digits) == NumberOf(all)
    {
      LeadingDigit(digits);
      digits := digits[1..];
    }
    if digits == [] {
      digits := [0];
      assert [0][..0] == [];
    }
  }

  /** A different version, unless both are numbered after one prefix and the new number is not greater. */
  ghost predicate Bumps(d: Decimals, old_: string, new_: string) {
    && old_ != new_
    && forall i: nat, k: nat |
         NumberStarts(d, old_, i) && NumberStarts(d, new_, k) && i < |old_| && k < |new_| && old_[..i] == new_[..k] ::
         ValueFrom(d, new_, k) > ValueFrom(d, old_, i)
  }

  lemma OneNumber(d: Decimals, version: string, i: nat, k: nat)
    requires NumberStarts(d, version, i) && NumberStarts(d, version, k)
    ensures i == k
  {
  }

  method IsVersionBump(d: Decimals, old_: string, new_: string) returns (bump: bool)
    ensures bump <==> Bumps(d, old_, new_)
  {
    if old_ == new_ {
      return false;
    }
    var i, oldDigits := VersionNumber(d, old_);
    var k, newDigits := VersionNumber(d, new_);
    forall x | NumberStarts(d, old_, x) ensures x == i { OneNumber(d, old_, x, i); }
    forall x | NumberStarts(d, new_, x) ensures x == k { OneNumber(d, new_, x, k); }
    if i < |old_| && k < |new_| && old_[..i] == new_[..k] {
      assert NumberOf(newDigits) == ValueFrom(d, new_, k) && NumberOf(oldDigits) == ValueFrom(d, old_, i);
      NumberGreaterIsGreater(newDigits, oldDigits);
      return NumberGreater(newDigits, oldDigits);
    }
    return true;
  }

  /** Between two numbered versions of one prefix, only one direction can be a bump. */
  lemma BumpsOneWay(d: Decimals, old_: string, new_: string, i: nat, k: nat)
    requires NumberStarts(d, old_, i) && NumberStarts(d, new_, k) && i < |old_| && k < |new_|
    requires old_[..i] == new_[..k] && Bumps(d, old_, new_)
    ensures !Bumps(d, new_, old_)
  {
  }
}

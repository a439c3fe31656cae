/** Stable sorting, and what a chain of stable sorts comes to. */
module StableSorting {
  import opened Collections

  type Order<!T> = (T, T) -> bool

  /** `less` ranks elements into tiers: what is between two of them is told apart from one. */
  ghost predicate Tiers<T(!new)>(less: Order<T>) {
    && (forall x, y | less(x, y) :: !less(y, x))
    && (forall x, y, z | less(x, z) :: less(x, y) || less(y, z))
  }

  /** The first order, and the second where it says nothing. */
  function Then<T>(first: Order<T>, second: Order<T>): Order<T> {
    (x, y) => first(x, y) || (!first(y, x) && second(x, y))
  }

  ghost predicate Earlier<T>(s: seq<T>, x: T, y: T) {
    exists i, k :: 0 <= i < k < |s| && s[i] == x && s[k] == y
  }

  /** `x` goes before `y`: it is less, or nothing tells them apart and it came first. */
  ghost predicate Before<T>(origin: seq<T>, less: Order<T>, x: T, y: T) {
    !less(y, x) && (less(x, y) || Earlier(origin, x, y))
  }

  ghost predicate StablySorted<T>(s: seq<T>, origin: seq<T>, less: Order<T>) {
    forall i, k | 0 <= i < k < |s| :: Before(origin, less, s[i], s[k])
  }

  // ---------------------------------------------------------------- the sort

  /** Where `x` goes: after everything it is not less than. */
  function Slot<T>(sorted: seq<T>, x: T, less: Order<T>): (p: nat)
    ensures p <= |sorted|
    ensures forall k | p <= k < |sorted| :: less(x, sorted[k])
    ensures p > 0 ==> !less(x, sorted[p - 1])
  {
    if sorted == [] || !less(x, sorted[|sorted| - 1]) then |sorted|
    else
      var p := Slot(sorted[..|sorted| - 1], x, less);
      assert forall k | p <= k < |sorted| - 1 :: sorted[k] == sorted[..|sorted| - 1][k];
      p
  }

  function Inserted<T>(sorted: seq<T>, x: T, p: nat): (r: seq<T>)
    requires p <= |sorted|
    ensures |r| == |sorted| + 1 && r[p] == x
    ensures forall i | 0 <= i < p :: r[i] == sorted[i]
    ensures forall i | p < i < |r| :: r[i] == sorted[i - 1]
    ensures multiset(r) == multiset(sorted) + multiset{x}
  {
    assert sorted == sorted[..p] + sorted[p..];
    sorted[..p] + [x] + sorted[p..]
  }

  function StableSort<T>(s: seq<T>, less: Order<T>): (r: seq<T>)
    ensures |r| == |s| && multiset(r) == multiset(s)
  {
    if s == [] then []
    else
      var init, x := s[..|s| - 1], s[|s| - 1];
      var front := StableSort(init, less);
      assert s == init + [x];
      Inserted(front, x, Slot(front, x, less))
  }

  lemma SameElements<T>(s: seq<T>, r: seq<T>)
    requires multiset(s) == multiset(r)
    ensures forall x :: x in s <==> x in r
  {
    forall x ensures x in s <==> x in r {
      assert x in s <==> x in multiset(s);
      assert x in r <==> x in multiset(r);
    }
  }

  lemma EarlierInLonger<T>(s: seq<T>, more: seq<T>, x: T, y: T)
    requires Earlier(s, x, y)
    ensures Earlier(s + more, x, y)
  {
    var i, k :| 0 <= i < k < |s| && s[i] == x && s[k] == y;
    assert (s + more)[i] == x && (s + more)[k] == y;
  }

  lemma InsertSorts<T(!new)>(init: seq<T>, front: seq<T>, x: T, less: Order<T>)
    requires Tiers(less) && StablySorted(front, init, less) && forall y | y in front :: y in init
    ensures StablySorted(Inserted(front, x, Slot(front, x, less)), init + [x], less)
  {
    var s, p := init + [x], Slot(front, x, less);
    var r := Inserted(front, x, p);
    forall k | 0 <= k < |front| ensures Earlier(s, front[k], x) {
      assert front[k] in front;
      var i :| 0 <= i < |init| && init[i] == front[k];
      assert s[i] == front[k] && s[|init|] == x;
    }
    forall k | 0 <= k < p ensures !less(x, front[k]) {
      if k < p - 1 { assert Before(init, less, front[k], front[p - 1]); }
    }
    forall i, k | 0 <= i < k < |r| ensures Before(s, less, r[i], r[k]) {
      if i != p && k != p {
        var a, b := if i < p then i else i - 1, if k < p then k else k - 1;
        assert Before(init, less, front[a], front[b]);
        if Earlier(init, front[a], front[b]) { EarlierInLonger(init, [x], front[a], front[b]); }
      }
    }
  }

  lemma {:induction false} StableSortSorts<T(!new)>(s: seq<T>, less: Order<T>)
    requires Tiers(less)
    ensures StablySorted(StableSort(s, less), s, less)
  {
    hide StablySorted, Tiers, Slot, Inserted;
    if s != [] {
      var init, x := s[..|s| - 1], s[|s| - 1];
      StableSortSorts(init, less);
      SameElements(StableSort(init, less), init);
      InsertSorts(init, StableSort(init, less), x, less);
      assert s == init + [x];
    } else {
      NothingToSort(less);
    }
  }

  lemma NothingToSort<T>(less: Order<T>)
    ensures StablySorted([], [], less)
  {
  }

  /** Sorting again, by what matters more, is sorting once by the two orders together. */
  lemma SortsCompose<T>(origin: seq<T>, once: seq<T>, twice: seq<T>, first: Order<T>, second: Order<T>)
    requires StablySorted(once, origin, second) && StablySorted(twice, once, first)
    ensures StablySorted(twice, origin, Then(first, second))
  {
    forall i, k | 0 <= i < k < |twice| ensures Before(origin, Then(first, second), twice[i], twice[k]) {
      var x, y := twice[i], twice[k];
      assert Before(once, first, x, y);
      if !first(x, y) {
        var a, b :| 0 <= a < b < |once| && once[a] == x && once[b] == y;
        assert Before(origin, second, once[a], once[b]);
      }
    }
  }

  // ---------------------------------------------------------------- the first elements

  /** Everything that goes before `x`. */
  ghost function Ahead<T>(origin: seq<T>, less: Order<T>, x: T): set<T> {
    set y | y in origin && y != x && Before(origin, less, y, x)
  }

  lemma {:induction false} PermutedDistinct<T>(s: seq<T>, r: seq<T>)
    requires NoRepeats(s) && multiset(s) == multiset(r)
    ensures NoRepeats(r)
  {
    forall i, k | 0 <= i < k < |r| ensures r[i] != r[k] {
      if r[i] == r[k] {
        var rest := r[..k] + r[k + 1..];
        assert r == r[..k] + [r[k]] + r[k + 1..];
        assert rest[i] == r[i] && r[i] in multiset(rest);
        assert multiset(s)[r[i]] >= 2;
        AtMostOnce(s, r[i]);
      }
    }
  }

  lemma {:induction false} AtMostOnce<T>(s: seq<T>, x: T)
    requires NoRepeats(s)
    ensures multiset(s)[x] <= 1
  {
    if s != [] {
      var front, last := s[..|s| - 1], s[|s| - 1];
      AtMostOnce(front, x);
      assert s == front + [last];
      if last == x { assert x !in front; }
    }
  }

  /** An element is among the first `count` of a sorted sequence exactly when fewer than `count` go before it. */
  lemma FirstElements<T(!new)>(origin: seq<T>, sorted: seq<T>, less: Order<T>, count: nat, x: T)
    requires Tiers(less) && NoRepeats(origin) && multiset(sorted) == multiset(origin)
    requires StablySorted(sorted, origin, less) && count <= |sorted| && x in origin
    ensures x in sorted[..count] <==> |Ahead(origin, less, x)| < count
  {
    SameElements(sorted, origin);
    PermutedDistinct(origin, sorted);
    var p :| 0 <= p < |sorted| && sorted[p] == x;
    forall i | p < i < |sorted| ensures !Before(origin, less, sorted[i], x) {
      assert Before(origin, less, sorted[p], sorted[i]);
      NotBothBefore(origin, less, x, sorted[i]);
    }
    forall y ensures y in Ahead(origin, less, x) <==> y in sorted[..p] {
      if y in sorted[..p] {
        var i :| 0 <= i < p && sorted[i] == y;
        assert Before(origin, less, sorted[i], sorted[p]);
      }
      if y in Ahead(origin, less, x) {
        var i :| 0 <= i < |sorted| && sorted[i] == y;
        assert i < p && sorted[..p][i] == y;
      }
    }
    assert Ahead(origin, less, x) == set y | y in sorted[..p];
    CountsDistinct(sorted[..p]);
    assert x in sorted[..count] <==> p < count by {
      if p < count { assert sorted[..count][p] == x; }
    }
  }

  lemma NotBothBefore<T>(s: seq<T>, less: Order<T>, x: T, y: T)
    requires NoRepeats(s) && Before(s, less, x, y)
    ensures !Before(s, less, y, x)
  {
  }
}

/** Sequence operations shared by the cache's recency list and the server's
    peer filtering: removing a set of elements while keeping the order of the
    rest, and the "occurs before" relation that order is judged by. */
module Sequences {

  /** No element occurs twice. */
  predicate Distinct<T(==,!new)>(s: seq<T>) {
    forall i, j :: 0 <= i < j < |s| ==> s[i] != s[j]
  }

  /** `s` with every element of `drop` taken out; what remains keeps its order. */
  function Without<T(==,!new)>(s: seq<T>, drop: set<T>): (w: seq<T>)
    ensures |w| <= |s|
    ensures forall x :: x in w <==> x in s && x !in drop
    ensures Distinct(s) ==> Distinct(w)
  {
    if s == [] then []
    else
      var rest := Without(s[1..], drop);
      assert forall x :: x in s[1..] ==> x in s;
      (if s[0] in drop then [] else [s[0]]) + rest
  }

  /** `a` occurs at some position of `s` and `b` at a later one. */
  predicate Precedes<T(==,!new)>(s: seq<T>, a: T, b: T)
    decreases |s|
  {
    |s| > 0 && ((s[0] == a && b in s[1..]) || Precedes(s[1..], a, b))
  }

  /** Removing elements never reorders the ones that stay. */
  lemma {:induction false} WithoutKeepsOrder<T(!new)>(s: seq<T>, drop: set<T>, a: T, b: T)
    requires a !in drop && b !in drop
    ensures Precedes(Without(s, drop), a, b) <==> Precedes(s, a, b)
  {
    if s != [] {
      var rest := Without(s[1..], drop);
      WithoutKeepsOrder(s[1..], drop, a, b);
      if s[0] in drop {
        assert Without(s, drop) == rest;
      } else {
        var w := Without(s, drop);
        assert w == [s[0]] + rest;
        assert w[0] == s[0] && w[1..] == rest;
        assert b in rest <==> b in s[1..];
      }
    }
  }

  /** Every element that stays occurs as often as before; the removed ones
      not at all. */
  lemma {:induction false} WithoutCounts<T(!new)>(s: seq<T>, drop: set<T>)
    ensures forall x :: multiset(Without(s, drop))[x] == if x in drop then 0 else multiset(s)[x]
  {
    if s != [] {
      WithoutCounts(s[1..], drop);
      assert s == [s[0]] + s[1..];
    }
  }

  /** Removing two sets one after the other is removing their union. */
  lemma {:induction false} WithoutTwice<T(!new)>(s: seq<T>, first: set<T>, second: set<T>)
    ensures Without(Without(s, first), second) == Without(s, first + second)
  {
    if s != [] {
      WithoutTwice(s[1..], first, second);
      var rest := Without(s[1..], first);
      if s[0] in first {
        assert Without(s, first) == rest;
      } else {
        var w := Without(s, first);
        assert w == [s[0]] + rest;
        assert w[0] == s[0] && w[1..] == rest;
      }
    }
  }

  /** Filtering a concatenation filters each part. */
  lemma {:induction false} WithoutAppend<T(!new)>(a: seq<T>, b: seq<T>, drop: set<T>)
    ensures Without(a + b, drop) == Without(a, drop) + Without(b, drop)
  {
    if a == [] {
      assert a + b == b;
    } else {
      var ab := a + b;
      assert ab[0] == a[0];
      assert ab[1..] == a[1..] + b;
      WithoutAppend(a[1..], b, drop);
      var head := if a[0] in drop then [] else [a[0]];
      calc {
        Without(ab, drop);
        head + Without(ab[1..], drop);
        head + (Without(a[1..], drop) + Without(b, drop));
        (head + Without(a[1..], drop)) + Without(b, drop);
        Without(a, drop) + Without(b, drop);
      }
    }
  }

  /** Removing an element that does not occur changes nothing. */
  lemma {:induction false} WithoutAbsent<T(!new)>(s: seq<T>, drop: set<T>)
    requires forall x :: x in s ==> x !in drop
    ensures Without(s, drop) == s
  {
    if s != [] {
      assert forall x :: x in s[1..] ==> x in s;
      WithoutAbsent(s[1..], drop);
    }
  }

  /** In a sequence without repetitions, removing one element that occurs
      shortens it by exactly one. */
  lemma {:induction false} WithoutOneLength<T(!new)>(s: seq<T>, x: T)
    requires Distinct(s) && x in s
    ensures |Without(s, {x})| == |s| - 1
  {
    if s[0] == x {
      assert forall y :: y in s[1..] ==> y != x;
      WithoutAbsent(s[1..], {x});
    } else {
      WithoutOneLength(s[1..], x);
    }
  }

  /** A sequence without repetitions is as long as the set of its elements. */
  lemma {:induction false} DistinctCardinality<T(!new)>(s: seq<T>)
    requires Distinct(s)
    ensures |set x | x in s| == |s|
  {
    if s != [] {
      DistinctCardinality(s[1..]);
      assert (set x | x in s) == (set x | x in s[1..]) + {s[0]};
      assert s[0] !in (set x | x in s[1..]);
    }
  }
}

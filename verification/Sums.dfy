/** Sums over finite sets, in which the order of the summands does not matter, and set sizes. */
module Sums {

  ghost function Sum<T(!new)>(s: set<T>, f: T -> int): int
    decreases s
  {
    if s == {} then 0 else
      var x :| x in s;
      f(x) + Sum(s - {x}, f)
  }

  /** Any element can be split off a sum, not only the one the definition picks. */
  lemma {:induction false} SumPick<T(!new)>(s: set<T>, f: T -> int, x: T)
    requires x in s
    ensures Sum(s, f) == f(x) + Sum(s - {x}, f)
    decreases s
  {
    var y :| y in s && Sum(s, f) == f(y) + Sum(s - {y}, f);
    if y != x {
      SumPick(s - {y}, f, x);
      SumPick(s - {x}, f, y);
      assert s - {y} - {x} == s - {x} - {y};
    }
  }

  /** The sum is linear in its summand; with a = b = 0 it is 0, with b = 0 a congruence. */
  lemma {:induction false} SumLinear<T(!new)>(s: set<T>, h: T -> int, a: int, f: T -> int, b: int, g: T -> int)
    requires forall x :: x in s ==> h(x) == a * f(x) + b * g(x)
    ensures Sum(s, h) == a * Sum(s, f) + b * Sum(s, g)
    decreases s
  {
    if s != {} {
      var x :| x in s;
      SumPick(s, h, x);
      SumPick(s, f, x);
      SumPick(s, g, x);
      SumLinear(s - {x}, h, a, f, b, g);
    }
  }

  lemma SumDifference<T(!new)>(s: set<T>, h: T -> int, rest: T -> int, k: int, f: T -> int, g: T -> int)
    requires forall x :: x in s ==> h(x) == rest(x) + k * (f(x) - g(x))
    ensures Sum(s, h) == Sum(s, rest) + k * (Sum(s, f) - Sum(s, g))
  {
    var d := x => f(x) - g(x);
    SumLinear(s, d, 1, f, -1, g);
    SumLinear(s, h, 1, rest, k, d);
  }

  lemma SumCong<T(!new)>(s: set<T>, f: T -> int, g: T -> int)
    requires forall x :: x in s ==> f(x) == g(x)
    ensures Sum(s, f) == Sum(s, g)
  {
    SumLinear(s, f, 1, g, 0, g);
  }

  lemma {:induction false} SumMonotone<T(!new)>(s: set<T>, f: T -> int, g: T -> int)
    requires forall x :: x in s ==> f(x) <= g(x)
    ensures Sum(s, f) <= Sum(s, g)
    decreases s
  {
    if s != {} {
      var x :| x in s;
      SumPick(s, f, x);
      SumPick(s, g, x);
      SumMonotone(s - {x}, f, g);
    }
  }

  lemma SumNonNegative<T(!new)>(s: set<T>, f: T -> int)
    requires forall x :: x in s ==> f(x) >= 0
    ensures Sum(s, f) >= 0
  {
    var zero: T -> int := x => 0;
    SumLinear(s, zero, 0, zero, 0, zero);
    SumMonotone(s, zero, f);
  }

  /** Summing over a disjoint union adds the two sums. */
  lemma {:induction false} SumUnion<T(!new)>(a: set<T>, b: set<T>, f: T -> int)
    requires a !! b
    ensures Sum(a + b, f) == Sum(a, f) + Sum(b, f)
    decreases a
  {
    if a == {} {
      assert a + b == b;
    } else {
      var x :| x in a;
      SumPick(a, f, x);
      SumPick(a + b, f, x);
      assert a + b - {x} == (a - {x}) + b;
      SumUnion(a - {x}, b, f);
    }
  }

  lemma {:induction false} SizeMonotone<T>(a: set<T>, b: set<T>)
    requires a <= b
    ensures |a| <= |b|
    decreases a
  {
    if a != {} {
      var x :| x in a;
      SizeMonotone(a - {x}, b - {x});
    }
  }

  lemma SubsetOfSameSize<T>(a: set<T>, b: set<T>)
    requires a <= b && |a| >= |b|
    ensures a == b
  {
    if x :| x in b && x !in a {
      SizeMonotone(a, b - {x});
    }
  }

  /** Taking an element from what is left to do adds it to what is done. */
  lemma TakeOne<T>(all: set<T>, todo: set<T>, x: T)
    requires todo <= all && x in todo
    ensures all - (todo - {x}) == (all - todo) + {x}
    ensures todo - {x} <= all && x !in all - todo
  {
  }

  /** A list without repetition is no longer than a set it lies in. */
  lemma {:induction false} AllInDistinct<T>(s: seq<T>, S: set<T>)
    requires forall i :: 0 <= i < |s| ==> s[i] in S
    requires forall i, j :: 0 <= i < j < |s| ==> s[i] != s[j]
    ensures |s| <= |S|
  {
    if s != [] {
      var k := |s| - 1;
      AllInDistinct(s[..k], S - {s[k]});
    }
  }

  /** A nonempty set has a member that comes first in an order. */
  lemma {:induction false} First<T>(U: set<T>, place: map<T, real>) returns (u: T)
    requires U != {} && U <= place.Keys
    ensures u in U && forall x :: x in U ==> place[u] <= place[x]
    decreases U
  {
    u :| u in U;
    if U != {u} {
      var rest := U - {u};
      assert U == rest + {u};
      var x := First(rest, place);
      if place[x] < place[u] { u := x; }
    }
  }

  lemma Earliest<T>(U: set<T>, place: map<T, int>) returns (u: T)
    requires U != {} && U <= place.Keys
    ensures u in U && forall x :: x in U ==> place[u] <= place[x]
  {
    u := First(U, map x | x in place :: place[x] as real);
  }

  lemma Latest<T>(U: set<T>, place: map<T, int>) returns (u: T)
    requires U != {} && U <= place.Keys
    ensures u in U && forall x :: x in U ==> place[u] >= place[x]
  {
    u := First(U, map x | x in place :: -place[x] as real);
  }

  lemma Shrinks<T>(todo: set<T>, x: T)
    requires x in todo
    ensures todo - {x} < todo
  {
  }

  lemma UpdateTwice<K, V>(m: map<K, V>, k: K, a: V, b: V)
    ensures m[k := a][k := b] == m[k := b]
  {
  }

  lemma UpdateKeepsKeys<K, V>(m: map<K, V>, k: K, v: V)
    requires k in m
    ensures m[k := v].Keys == m.Keys
  {
  }

  lemma SameSet<T>(a: set<T>, b: set<T>)
    requires a <= b <= a
    ensures a == b
  {
  }

  function MinInt(a: int, b: int): int {
    if a <= b then a else b
  }

  function MaxInt(a: int, b: int): int {
    if a >= b then a else b
  }

  function MinReal(a: real, b: real): real {
    if a <= b then a else b
  }

  function MaxReal(a: real, b: real): real {
    if a >= b then a else b
  }

  /** Says nothing. A fact stated under it is seen by a proof only once the proof mentions it. */
  ghost predicate Look(k: int) {
    true
  }
}

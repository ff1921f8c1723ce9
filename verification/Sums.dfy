/** Finite sums of reals over finite sets, used for path counts, centrality scores,
    degree totals, rank vectors and modularity. Everything here is ghost. */
module Sums {

  ghost function Sum<T(!new)>(s: set<T>, f: T -> real): real
    decreases |s|
  {
    if s == {} then 0.0 else
    var x :| x in s;
    f(x) + Sum(s - {x}, f)
  }

  /** Any element may be taken out first. */
  lemma {:induction false} SumRemove<T(!new)>(s: set<T>, f: T -> real, x: T)
    requires x in s
    ensures Sum(s, f) == f(x) + Sum(s - {x}, f)
    decreases |s|
  {
    var y :| y in s && Sum(s, f) == f(y) + Sum(s - {y}, f);
    if y != x {
      SumRemove(s - {y}, f, x);
      SumRemove(s - {x}, f, y);
      assert s - {y} - {x} == s - {x} - {y};
    }
  }

  lemma SumInsert<T(!new)>(s: set<T>, f: T -> real, x: T)
    requires x !in s
    ensures Sum(s + {x}, f) == f(x) + Sum(s, f)
  {
    SumRemove(s + {x}, f, x);
    assert s + {x} - {x} == s;
  }

  lemma SumOne<T(!new)>(x: T, f: T -> real)
    ensures Sum({x}, f) == f(x)
  {
    SumRemove({x}, f, x);
    assert {x} - {x} == {};
  }

  lemma {:induction false} SumUnion<T(!new)>(a: set<T>, b: set<T>, f: T -> real)
    requires a !! b
    ensures Sum(a + b, f) == Sum(a, f) + Sum(b, f)
    decreases |a|
  {
    if a == {} {
      assert a + b == b;
    } else {
      var x :| x in a;
      SumRemove(a, f, x);
      SumRemove(a + b, f, x);
      assert a + b - {x} == (a - {x}) + b;
      SumUnion(a - {x}, b, f);
    }
  }

  lemma {:induction false} SumCongruent<T(!new)>(s: set<T>, f: T -> real, g: T -> real)
    requires forall x | x in s :: f(x) == g(x)
    ensures Sum(s, f) == Sum(s, g)
    decreases |s|
  {
    if s != {} {
      var x :| x in s;
      SumRemove(s, f, x);
      SumRemove(s, g, x);
      SumCongruent(s - {x}, f, g);
    }
  }

  lemma {:induction false} SumPlus<T(!new)>(s: set<T>, f: T -> real, g: T -> real, h: T -> real)
    requires forall x | x in s :: h(x) == f(x) + g(x)
    ensures Sum(s, h) == Sum(s, f) + Sum(s, g)
    decreases |s|
  {
    if s != {} {
      var x :| x in s;
      SumRemove(s, f, x);
      SumRemove(s, g, x);
      SumRemove(s, h, x);
      SumPlus(s - {x}, f, g, h);
    }
  }

  /** Multiplication under a name, so that it can be hidden from the solver. */
  ghost function Times(c: real, x: real): real {
    c * x
  }

  /** The signs of a product. */
  lemma ProductSign(a: real, b: real)
    requires a >= 0.0 && b >= 0.0
    ensures a * b >= 0.0 && (a > 0.0 && b > 0.0 ==> a * b > 0.0)
  {}

  /** A factor may be pulled out of either side of a quotient. */
  lemma DivideProduct(d: real, x: real, n: real)
    requires n > 0.0
    ensures d * x / n == d * (x / n) && d * x / n == d / n * x
  {
    var q, r := x / n, d / n;
    assert q * n == x && r * n == d;
  }

  lemma Distribute(c: real, x: real, y: real)
    ensures Times(c, x + y) == Times(c, x) + Times(c, y)
  {}

  lemma {:induction false} SumTimes<T(!new)>(s: set<T>, c: real, f: T -> real, h: T -> real)
    requires forall x | x in s :: h(x) == Times(c, f(x))
    ensures Sum(s, h) == Times(c, Sum(s, f))
    decreases |s|
  {
    if s == {} {
      assert Times(c, 0.0) == 0.0;
    } else {
      hide Times;
      var x :| x in s;
      SumRemove(s, f, x);
      SumRemove(s, h, x);
      SumTimes(s - {x}, c, f, h);
      Distribute(c, f(x), Sum(s - {x}, f));
    }
  }

  lemma SumScale<T(!new)>(s: set<T>, c: real, f: T -> real, h: T -> real)
    requires forall x | x in s :: h(x) == c * f(x)
    ensures Sum(s, h) == c * Sum(s, f)
  {
    forall x | x in s ensures h(x) == Times(c, f(x)) {}
    SumTimes(s, c, f, h);
  }

  lemma {:induction false} SumMonotone<T(!new)>(s: set<T>, f: T -> real, g: T -> real)
    requires forall x | x in s :: f(x) <= g(x)
    ensures Sum(s, f) <= Sum(s, g)
    decreases |s|
  {
    if s != {} {
      var x :| x in s;
      SumRemove(s, f, x);
      SumRemove(s, g, x);
      SumMonotone(s - {x}, f, g);
    }
  }

  ghost function Abs(x: real): real {
    if x < 0.0 then -x else x
  }

  /** Sums of close terms are close. */
  lemma {:induction false} SumDistance<T(!new)>(s: set<T>, f: T -> real, g: T -> real, h: T -> real)
    requires forall x | x in s :: Abs(f(x) - g(x)) <= h(x)
    ensures Abs(Sum(s, f) - Sum(s, g)) <= Sum(s, h)
    decreases |s|
  {
    if s != {} {
      var x :| x in s;
      SumRemove(s, f, x);
      SumRemove(s, g, x);
      SumRemove(s, h, x);
      SumDistance(s - {x}, f, g, h);
    }
  }

  /** Term-wise comparison is strict as soon as one term is. */
  lemma SumStrict<T(!new)>(s: set<T>, f: T -> real, g: T -> real, x: T)
    requires forall y | y in s :: f(y) <= g(y)
    requires x in s && f(x) < g(x)
    ensures Sum(s, f) < Sum(s, g)
  {
    SumRemove(s, f, x);
    SumRemove(s, g, x);
    SumMonotone(s - {x}, f, g);
  }

  lemma {:induction false} SumConstant<T(!new)>(s: set<T>, c: real, f: T -> real)
    requires forall x | x in s :: f(x) == c
    ensures Sum(s, f) == c * (|s| as real)
    decreases |s|
  {
    if s != {} {
      var x :| x in s;
      SumRemove(s, f, x);
      SumConstant(s - {x}, c, f);
      Distribute(c, (|s| - 1) as real, 1.0);
      assert Times(c, 1.0) == c;
    }
  }

  /** As many equal terms as `s` has elements. */
  lemma SumEqual<T(!new)>(s: set<T>, c: real, f: T -> real)
    requires forall x | x in s :: f(x) == c
    ensures Sum(s, f) == Times(|s| as real, c)
  {
    SumConstant(s, c, f);
  }

  /** Terms outside `t` vanish, so the sum may be taken over `t` alone. */
  lemma SumRestrict<T(!new)>(s: set<T>, t: set<T>, f: T -> real, g: T -> real)
    requires t <= s
    requires forall x | x in t :: f(x) == g(x)
    requires forall x | x in s - t :: f(x) == 0.0
    ensures Sum(s, f) == Sum(t, g)
  {
    hide Sum;
    assert Sum(s, f) == Sum(t, f) + Sum(s - t, f) by {
      assert t + (s - t) == s;
      SumUnion(t, s - t, f);
    }
    assert Sum(s - t, f) == 0.0 by { SumConstant(s - t, 0.0, f); }
    SumCongruent(t, f, g);
  }

  ghost function Row<T(!new), U(!new)>(k: (T, U) -> real, x: T): U -> real {
    (y: U) => k(x, y)
  }

  ghost function Column<T(!new), U(!new)>(k: (T, U) -> real, y: U): T -> real {
    (x: T) => k(x, y)
  }

  /** Exchange of summation order; `f` and `g` are the two iterated inner sums. */
  lemma {:induction false} SumSwap<T(!new), U(!new)>(a: set<T>, b: set<U>, k: (T, U) -> real, f: T -> real,
                                     g: U -> real)
    requires forall x | x in a :: f(x) == Sum(b, Row(k, x))
    requires forall y | y in b :: g(y) == Sum(a, Column(k, y))
    ensures Sum(a, f) == Sum(b, g)
    decreases |a|
  {
    if a == {} {
      SumConstant(b, 0.0, g);
    } else {
      var x :| x in a;
      var rest := (y: U) => Sum(a - {x}, Column(k, y));
      forall y | y in b
        ensures g(y) == Row(k, x)(y) + rest(y)
      {
        SumRemove(a, Column(k, y), x);
      }
      SumPlus(b, Row(k, x), rest, g);
      SumSwap(a - {x}, b, k, f, rest);
      SumRemove(a, f, x);
    }
  }
}

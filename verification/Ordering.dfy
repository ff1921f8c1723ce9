/** Sorted traversal of finite sets of node ids, and the stable sort used for ranked output. */
module Ordering {

  predicate IsMin(s: set<nat>, m: nat) {
    m in s && forall x | x in s :: m <= x
  }

  function Min(s: set<nat>): (m: nat)
    requires s != {}
    ensures IsMin(s, m)
  {
    MinExists(s);
    var m :| IsMin(s, m);
    m
  }

  lemma {:induction false} MinExists(s: set<nat>)
    requires s != {}
    ensures exists m :: IsMin(s, m)
  {
    var x :| x in s;
    if s == {x} {
      assert IsMin(s, x);
    } else {
      assert s - {x} != {} by { assert s == (s - {x}) + {x}; }
      MinExists(s - {x});
      var m :| IsMin(s - {x}, m);
      var least := if m <= x then m else x;
      forall y | y in s ensures least <= y {
        assert y == x || y in s - {x};
      }
      assert IsMin(s, least);
    }
  }

  ghost predicate Increasing(q: seq<nat>) {
    forall i, j | 0 <= i < j < |q| :: q[i] < q[j]
  }

  /** The elements of `s` in increasing order, each listed once. */
  function Sorted(s: set<nat>): (q: seq<nat>)
    ensures |q| == |s|
    ensures Increasing(q)
    ensures forall x :: x in q <==> x in s
  {
    if s == {} then [] else
    var m := Min(s);
    [m] + Sorted(s - {m})
  }

  function Elements<T(==)>(q: seq<T>): set<T> {
    set x | x in q
  }

  ghost predicate Distinct<T>(q: seq<T>) {
    forall i, j | 0 <= i < j < |q| :: q[i] != q[j]
  }

  /** A list has at most as many elements as entries, and as many exactly when none repeats. */
  lemma {:induction false} ElementsSize<T>(q: seq<T>)
    ensures |Elements(q)| <= |q|
    ensures |Elements(q)| == |q| <==> Distinct(q)
  {
    if q != [] {
      var k := |q| - 1;
      var init := q[..k];
      ElementsSize(init);
      if q[k] in init {
        assert Elements(q) == Elements(init);
      } else {
        assert Elements(q) == Elements(init) + {q[k]};
        assert forall i, j | 0 <= i < j < |q| && j < k :: q[i] == init[i] && q[j] == init[j];
        assert forall i | 0 <= i < k :: q[i] == init[i];
      }
    }
  }

  /** Comparison by the key `(-weight, id)`: heavier first, ties by smaller id. */
  ghost predicate Ranked(x: (real, nat), y: (real, nat)) {
    x.0 > y.0 || (x.0 == y.0 && x.1 <= y.1)
  }

  ghost predicate RankedBy<T>(q: seq<T>, key: T -> (real, nat)) {
    forall i, j | 0 <= i < j < |q| :: Ranked(key(q[i]), key(q[j]))
  }

  /** Puts `x` in front of the first element that does not come strictly before it. */
  function Insert<T>(x: T, q: seq<T>, key: T -> (real, nat)): (r: seq<T>)
    requires RankedBy(q, key)
    ensures multiset(r) == multiset{x} + multiset(q)
    ensures RankedBy(r, key)
  {
    if q == [] then [x]
    else if key(x).0 > key(q[0]).0 || (key(x).0 == key(q[0]).0 && key(x).1 <= key(q[0]).1) then [x] + q
    else
      var rest := Insert(x, q[1..], key);
      InsertBehind(x, q, rest, key);
      [q[0]] + rest
  }

  lemma InsertBehind<T>(x: T, q: seq<T>, rest: seq<T>, key: T -> (real, nat))
    requires q != [] && RankedBy(q, key) && Ranked(key(q[0]), key(x))
    requires RankedBy(rest, key) && multiset(rest) == multiset{x} + multiset(q[1..])
    ensures RankedBy([q[0]] + rest, key) && multiset([q[0]] + rest) == multiset{x} + multiset(q)
  {
    assert q == [q[0]] + q[1..];
    forall j | 0 <= j < |rest| ensures Ranked(key(q[0]), key(rest[j])) {
      assert rest[j] in multiset(rest);
      if rest[j] != x {
        assert rest[j] in q[1..];
      }
    }
  }

  /** The stable sort by key that the analytics apply to their records. */
  function SortBy<T>(q: seq<T>, key: T -> (real, nat)): (r: seq<T>)
    ensures multiset(r) == multiset(q) && |r| == |q|
    ensures RankedBy(r, key)
  {
    if q == [] then []
    else
      assert q == [q[0]] + q[1..];
      var r := Insert(q[0], SortBy(q[1..], key), key);
      assert |multiset(r)| == |r| && |multiset(q)| == |q|;
      r
  }

  lemma SortedMembers<T>(q: seq<T>, key: T -> (real, nat))
    ensures |SortBy(q, key)| == |q| && forall x :: x in q <==> x in SortBy(q, key)
  {
    var r := SortBy(q, key);
    hide SortBy;
    forall x ensures x in q <==> x in r {
      assert x in q <==> x in multiset(q);
      assert x in r <==> x in multiset(r);
    }
  }

  /** Among equal keys the elements stand in an order that the relation `before` allows. */
  ghost predicate TiesInOrder<T(!new)>(q: seq<T>, key: T -> (real, nat), before: (T, T) -> bool) {
    forall i, j | 0 <= i < j < |q| && key(q[i]) == key(q[j]) :: before(q[i], q[j])
  }

  lemma {:induction false} InsertStable<T(!new)>(x: T, q: seq<T>, key: T -> (real, nat), before: (T, T) -> bool)
    requires RankedBy(q, key) && TiesInOrder(q, key, before) && forall y | y in q :: before(x, y)
    ensures TiesInOrder(Insert(x, q, key), key, before)
  {
    var r := Insert(x, q, key);
    if q != [] && r != [x] + q {
      var rest := Insert(x, q[1..], key);
      InsertStable(x, q[1..], key, before);
      forall j | 0 <= j < |rest| && key(q[0]) == key(rest[j]) ensures before(q[0], rest[j]) {
        assert rest[j] in multiset(rest);
        if rest[j] in q[1..] {
          var k :| 0 < k < |q| && q[k] == rest[j];
        }
      }
    }
  }

  /** Stability: whatever holds of every two elements in input order still holds of every two with
      equal keys in the sorted list. */
  lemma {:induction false} SortStable<T(!new)>(q: seq<T>, key: T -> (real, nat), before: (T, T) -> bool)
    requires forall i, j | 0 <= i < j < |q| :: before(q[i], q[j])
    ensures TiesInOrder(SortBy(q, key), key, before)
  {
    if q != [] {
      var rest := SortBy(q[1..], key);
      SortStable(q[1..], key, before);
      forall y | y in rest ensures before(q[0], y) {
        assert y in multiset(rest);
        var k :| 0 < k < |q| && q[k] == y;
      }
      InsertStable(q[0], rest, key, before);
    }
  }

  /** A permutation of a duplicate-free list is duplicate-free, with the same elements. */
  lemma SameElements<T>(q: seq<T>, r: seq<T>)
    requires multiset(q) == multiset(r) && forall i, j | 0 <= i < j < |q| :: q[i] != q[j]
    ensures forall i, j | 0 <= i < j < |r| :: r[i] != r[j]
    ensures forall x :: x in q <==> x in r
  {
    forall x ensures x in q <==> x in r {
      assert x in q <==> x in multiset(q);
      assert x in r <==> x in multiset(r);
    }
    forall i, j | 0 <= i < j < |r| ensures r[i] != r[j] {
      if r[i] == r[j] {
        TwiceIn(r, i, j);
        OnceIn(q, r[i]);
      }
    }
  }

  lemma TwiceIn<T>(r: seq<T>, i: int, j: int)
    requires 0 <= i < j < |r| && r[i] == r[j]
    ensures multiset(r)[r[i]] >= 2
  {
    assert r == r[..j] + [r[j]] + r[j + 1..];
    assert r[i] in r[..j];
    assert multiset(r) == multiset(r[..j]) + multiset{r[j]} + multiset(r[j + 1..]);
  }

  lemma {:induction false} OnceIn<T>(q: seq<T>, x: T)
    requires forall i, j | 0 <= i < j < |q| :: q[i] != q[j]
    ensures multiset(q)[x] <= 1
  {
    if q != [] {
      var k := |q| - 1;
      OnceIn(q[..k], x);
      assert q == q[..k] + [q[k]];
      if x == q[k] {
        assert x !in q[..k];
        assert x !in multiset(q[..k]);
      }
    }
  }
}

/** Turning a finite set of row ids into the ordered list an `ORDER BY` query returns,
    and the maximum an aggregate `MAX(...)` query returns. */
module Ordering {

  /** `a` is listed before `b`: a smaller key, or the same key and a smaller id. */
  predicate Precedes(key: int -> real, a: int, b: int)
  {
    key(a) < key(b) || (key(a) == key(b) && a < b)
  }

  /** Every entry of `xs` precedes every later entry; in particular no id repeats. */
  predicate OrderedBy(xs: seq<int>, key: int -> real)
  {
    forall i, j :: 0 <= i < j < |xs| ==> Precedes(key, xs[i], xs[j])
  }

  /** `x` precedes every other element of `s`. */
  predicate IsLeast(s: set<int>, key: int -> real, x: int)
  {
    x in s && forall y :: y in s && y != x ==> Precedes(key, x, y)
  }

  /** Some element of a non-empty set. */
  lemma Pick<T>(s: set<T>) returns (x: T)
    requires s != {}
    ensures x in s
  {
    if forall y :: y !in s {
      assert false;
    }
    x :| x in s;
  }

  lemma PrecedesTransitive(key: int -> real, a: int, b: int, c: int)
    requires Precedes(key, a, b) && Precedes(key, b, c)
    ensures Precedes(key, a, c)
  {
  }

  /** Every finite non-empty set of ids has a first element in the listing order. */
  lemma {:induction false} LeastExists(s: set<int>, key: int -> real)
    requires s != {}
    ensures exists x :: IsLeast(s, key, x)
  {
    var z := Pick(s);
    if s == {z} {
      assert IsLeast(s, key, z);
    } else {
      LeastExists(s - {z}, key);
      var m :| IsLeast(s - {z}, key, m);
      if Precedes(key, z, m) {
        forall y | y in s && y != z
          ensures Precedes(key, z, y)
        {
          if y != m {
            PrecedesTransitive(key, z, m, y);
          }
        }
        assert IsLeast(s, key, z);
      } else {
        assert IsLeast(s, key, m);
      }
    }
  }

  /** The ids of `s` listed by ascending key, ties broken by ascending id. */
  function OrderBy(s: set<int>, key: int -> real): (r: seq<int>)
    ensures |r| == |s|
    ensures forall x :: x in r <==> x in s
    ensures OrderedBy(r, key)
    decreases |s|
  {
    if s == {} then []
    else
      LeastExists(s, key);
      var x :| IsLeast(s, key, x);
      var rest := OrderBy(s - {x}, key);
      var r := [x] + rest;
      assert OrderedBy(r, key) by {
        forall i, j | 0 <= i < j < |r|
          ensures Precedes(key, r[i], r[j])
        {
          assert r[j] == rest[j - 1];
          if i > 0 {
            assert r[i] == rest[i - 1];
          }
        }
      }
      r
  }

  /** Every finite non-empty set of reals has a maximum. */
  lemma {:induction false} MaxRealExists(s: set<real>)
    requires s != {}
    ensures exists m :: m in s && forall y :: y in s ==> y <= m
  {
    var z := Pick(s);
    if s != {z} {
      MaxRealExists(s - {z});
      var m :| m in s - {z} && forall y :: y in s - {z} ==> y <= m;
      if z <= m {
        forall y | y in s
          ensures y <= m
        {
          if y != z {
            assert y in s - {z};
          }
        }
      } else {
        forall y | y in s
          ensures y <= z
        {
          if y != z {
            assert y in s - {z};
          }
        }
      }
    }
  }

  /** The largest element of a non-empty set of reals. */
  function MaxReal(s: set<real>): (m: real)
    requires s != {}
    ensures m in s
    ensures forall y :: y in s ==> y <= m
  {
    MaxRealExists(s);
    var m :| m in s && forall y :: y in s ==> y <= m;
    m
  }

  /** The largest element of a non-empty set of integers: the maximum of the same
      numbers read as reals. */
  function MaxInt(s: set<int>): (m: int)
    requires s != {}
    ensures m in s
    ensures forall y :: y in s ==> y <= m
  {
    var rs := set x | x in s :: x as real;
    assert forall x :: x in s ==> x as real in rs;
    var mr := MaxReal(rs);
    assert mr.Floor in s && mr.Floor as real == mr by {
      var x :| x in s && x as real == mr;
      assert x == mr.Floor;
    }
    mr.Floor
  }

  /** The entries from index `skip` on, at most `limit` of them: SQL `OFFSET skip LIMIT limit`. */
  function Page<T>(xs: seq<T>, skip: nat, limit: nat): (r: seq<T>)
    ensures |r| == if skip >= |xs| then 0 else if limit < |xs| - skip then limit else |xs| - skip
    ensures forall i :: 0 <= i < |r| ==> r[i] == xs[skip + i]
  {
    if skip >= |xs| then []
    else if limit < |xs| - skip then xs[skip..skip + limit]
    else xs[skip..]
  }

  /** A page of an ordered listing is ordered and holds only entries of the listing. */
  lemma PageKeepsOrder(xs: seq<int>, key: int -> real, skip: nat, limit: nat)
    requires OrderedBy(xs, key)
    ensures OrderedBy(Page(xs, skip, limit), key)
    ensures forall x :: x in Page(xs, skip, limit) ==> x in xs
  {
    var r := Page(xs, skip, limit);
    forall i, j | 0 <= i < j < |r|
      ensures Precedes(key, r[i], r[j])
    {
      assert r[i] == xs[skip + i] && r[j] == xs[skip + j];
    }
    forall x | x in r
      ensures x in xs
    {
      var i :| 0 <= i < |r| && r[i] == x;
      assert x == xs[skip + i];
    }
  }

  /** Two consecutive pages together are the page that spans both. */
  lemma PagesConcatenate<T>(xs: seq<T>, skip: nat, a: nat, b: nat)
    ensures Page(xs, skip, a) + Page(xs, skip + a, b) == Page(xs, skip, a + b)
  {
    var l, r := Page(xs, skip, a), Page(xs, skip + a, b);
    var both := Page(xs, skip, a + b);
    assert |l + r| == |both|;
    forall i | 0 <= i < |both|
      ensures (l + r)[i] == both[i]
    {
      if i >= |l| {
        assert (l + r)[i] == r[i - |l|];
      }
    }
  }

  /** The integers 0 .. n-1. */
  function Range(n: nat): (r: set<int>)
    ensures forall i :: i in r <==> 0 <= i < n
    ensures |r| == n
  {
    if n == 0 then {} else Range(n - 1) + {n - 1}
  }

  /** A subset as large as its superset is the superset. */
  lemma {:induction false} SubsetOfSameSize<T>(a: set<T>, b: set<T>)
    requires a <= b && |a| == |b|
    ensures a == b
    decreases |a|
  {
    if a == {} {
      assert |b| == 0;
    } else {
      var x := Pick(a);
      SubsetOfSameSize(a - {x}, b - {x});
      assert a == (a - {x}) + {x};
      assert b == (b - {x}) + {x};
    }
  }
}

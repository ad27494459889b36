/**
 Sequences seen as lists of distinct elements.
 */
module Lists {

  ghost predicate Distinct<T>(q: seq<T>) {
    forall i, j | 0 <= i < j < |q| :: q[i] != q[j]
  }

  ghost function Elements<T>(q: seq<T>): set<T> {
    set x | x in q
  }

  lemma {:induction false} DistinctSize<T>(q: seq<T>)
    requires Distinct(q)
    ensures |Elements(q)| == |q|
  {
    if q != [] {
      DistinctSize(q[1..]);
      assert q == [q[0]] + q[1..];
      assert Elements(q) == Elements(q[1..]) + {q[0]};
      assert q[0] !in Elements(q[1..]);
    }
  }

  /** q without the elements of drop, in the same order. */
  function Without<T(==)>(q: seq<T>, drop: set<T>): (r: seq<T>)
    ensures |r| <= |q|
  {
    if q == [] then [] else (if q[0] in drop then [] else [q[0]]) + Without(q[1..], drop)
  }

  lemma {:induction false} WithoutMembers<T>(q: seq<T>, drop: set<T>)
    ensures forall x :: x in Without(q, drop) <==> x in q && x !in drop
  {
    if q != [] {
      WithoutMembers(q[1..], drop);
      assert q == [q[0]] + q[1..];
    }
  }

  lemma {:induction false} WithoutConcat<T>(a: seq<T>, b: seq<T>, drop: set<T>)
    ensures Without(a + b, drop) == Without(a, drop) + Without(b, drop)
  {
    if a == [] {
      assert a + b == b;
    } else {
      WithoutConcat(a[1..], b, drop);
      var c := a + b;
      assert c[0] == a[0] && c[1..] == a[1..] + b;
      Associative(if a[0] in drop then [] else [a[0]], Without(a[1..], drop), Without(b, drop));
    }
  }

  lemma Associative<T>(x: seq<T>, y: seq<T>, z: seq<T>)
    ensures (x + y) + z == x + (y + z)
  {
  }

  lemma {:induction false} WithoutNone<T>(q: seq<T>, drop: set<T>)
    requires forall x | x in q :: x !in drop
    ensures Without(q, drop) == q
  {
    if q != [] {
      WithoutNone(q[1..], drop);
      assert q == [q[0]] + q[1..];
    }
  }

  lemma {:induction false} WithoutTwice<T>(q: seq<T>, a: set<T>, b: set<T>)
    ensures Without(Without(q, a), b) == Without(q, a + b)
  {
    if q != [] {
      WithoutTwice(q[1..], a, b);
      var first := if q[0] in a then [] else [q[0]];
      WithoutConcat(first, Without(q[1..], a), b);
      assert Without(first, b) == if q[0] in a + b then [] else [q[0]];
    }
  }

  lemma {:induction false} WithoutDistinct<T>(q: seq<T>, drop: set<T>)
    requires Distinct(q)
    ensures Distinct(Without(q, drop))
  {
    if q != [] {
      WithoutDistinct(q[1..], drop);
      WithoutMembers(q[1..], drop);
      ApartFromRest(q);
      DistinctCons(q[0], Without(q[1..], drop));
    }
  }

  lemma ApartFromRest<T>(q: seq<T>)
    requires Distinct(q) && q != []
    ensures Distinct(q[1..]) && q[0] !in q[1..]
  {
  }

  lemma DistinctCons<T>(x: T, q: seq<T>)
    requires Distinct(q) && x !in q
    ensures Distinct([x] + q)
  {
  }

  /** q without the element at position k. */
  function Removed<T>(q: seq<T>, k: nat): seq<T>
    requires k < |q|
  {
    q[..k] + q[k + 1..]
  }

  /** Taking out one of several distinct elements. */
  lemma WithoutOne<T>(q: seq<T>, k: nat)
    requires Distinct(q) && k < |q|
    ensures Without(q, {q[k]}) == Removed(q, k)
  {
    Around(q, k);
    WithoutOnce(q, q[..k], q[k], q[k + 1..]);
  }

  lemma RemovedDistinct<T>(q: seq<T>, k: nat)
    requires Distinct(q) && k < |q|
    ensures Distinct(Removed(q, k))
    ensures forall x :: x in Removed(q, k) <==> x in q && x != q[k]
  {
    WithoutOne(q, k);
    WithoutDistinct(q, {q[k]});
    WithoutMembers(q, {q[k]});
  }

  lemma Around<T>(q: seq<T>, k: nat)
    requires Distinct(q) && k < |q|
    ensures q == q[..k] + [q[k]] + q[k + 1..] && q[k] !in q[..k] && q[k] !in q[k + 1..]
  {
    assert forall i | 0 <= i < k :: q[..k][i] != q[k];
    var rest := q[k + 1..];
    forall x | x in rest
      ensures x != q[k]
    {
      var i :| 0 <= i < |rest| && rest[i] == x;
    }
  }

  lemma {:induction false} WithoutOnce<T>(q: seq<T>, a: seq<T>, x: T, b: seq<T>)
    requires q == a + [x] + b && x !in a && x !in b
    ensures Without(q, {x}) == a + b
    decreases a
  {
    if a == [] {
      assert q[0] == x && q[1..] == b;
      WithoutNone(b, {x});
    } else {
      assert q[0] == a[0] && q[1..] == a[1..] + [x] + b;
      WithoutOnce(q[1..], a[1..], x, b);
    }
  }
}

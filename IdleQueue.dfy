/**
 * Sequence operations behind the pool's idle queue: filtering it by a
 * liveness probe, and removing one element by value the way
 * `Collection.remove(Object)` does on a Java queue.  The sweep builds a
 * list of the connections that fail the probe and then removes them one by
 * one; the lemmas here prove that this two-phase removal is a filter.
 */
module IdleQueue {

  /** The predicate that holds exactly where `p` does not. */
  function Stale<T>(p: T -> bool): T -> bool
  {
    x => !p(x)
  }

  /** The elements of `q` that satisfy `p`, in queue order. */
  function Filter<T>(q: seq<T>, p: T -> bool): (r: seq<T>)
    ensures |r| <= |q|
    ensures forall i :: 0 <= i < |r| ==> p(r[i])
    ensures forall i :: 0 <= i < |r| ==> r[i] in q
    ensures forall i :: 0 <= i < |q| ==> (q[i] in r <==> p(q[i]))
  {
    if q == [] then []
    else if p(q[0]) then [q[0]] + Filter(q[1..], p)
    else Filter(q[1..], p)
  }

  /** `a` is obtained from `b` by deleting elements; relative order is kept. */
  ghost predicate IsSubsequence<T>(a: seq<T>, b: seq<T>)
    decreases |b|
  {
    a == [] || (b != [] && ((a[0] == b[0] && IsSubsequence(a[1..], b[1..])) || IsSubsequence(a, b[1..])))
  }

  lemma {:induction false} FilterAppend<T>(a: seq<T>, b: seq<T>, p: T -> bool)
    ensures Filter(a + b, p) == Filter(a, p) + Filter(b, p)
  {
    if a == [] {
      assert a + b == b;
    } else {
      assert (a + b)[0] == a[0];
      assert (a + b)[1..] == a[1..] + b;
      FilterAppend(a[1..], b, p);
    }
  }

  /** Filtering keeps the survivors in their original relative order. */
  lemma {:induction false} FilterIsSubsequence<T>(q: seq<T>, p: T -> bool)
    ensures IsSubsequence(Filter(q, p), q)
  {
    if q != [] {
      FilterIsSubsequence(q[1..], p);
      if p(q[0]) {
        var r := Filter(q, p);
        assert r[0] == q[0] && r[1..] == Filter(q[1..], p);
      }
    }
  }

  /** One more element of the queue adds itself to the filter exactly when it passes. */
  lemma FilterStep<T>(q: seq<T>, i: nat, p: T -> bool)
    requires i < |q|
    ensures Filter(q[..i + 1], p) == Filter(q[..i], p) + (if p(q[i]) then [q[i]] else [])
  {
    assert q[..i + 1] == q[..i] + [q[i]];
    FilterAppend(q[..i], [q[i]], p);
  }

  /** When every element fails `p` nothing survives. */
  lemma {:induction false} FilterAllRejected<T>(q: seq<T>, p: T -> bool)
    requires forall i :: 0 <= i < |q| ==> !p(q[i])
    ensures Filter(q, p) == []
  {
    if q != [] {
      assert forall i :: 0 <= i < |q[1..]| ==> q[1..][i] == q[i + 1];
      FilterAllRejected(q[1..], p);
    }
  }

  /** Survivors and rejects together are exactly the original elements. */
  lemma {:induction false} FilterPartition<T>(q: seq<T>, p: T -> bool)
    ensures multiset(Filter(q, p)) + multiset(Filter(q, Stale(p))) == multiset(q)
    ensures |Filter(q, p)| + |Filter(q, Stale(p))| == |q|
  {
    if q != [] {
      FilterPartition(q[1..], p);
      assert q == [q[0]] + q[1..];
    }
  }

  /** Filtering loses something exactly when some element fails `p`. */
  lemma {:induction false} FilterShrinks<T>(q: seq<T>, p: T -> bool)
    ensures |Filter(q, p)| < |q| <==> exists x :: x in q && !p(x)
  {
    if q != [] {
      FilterShrinks(q[1..], p);
      assert forall x :: x in q <==> x == q[0] || x in q[1..];
    }
  }

  /** The position of the first occurrence of `x` in `q`. */
  function FirstIndex<T(==)>(q: seq<T>, x: T): (i: nat)
    requires x in q
    ensures i < |q| && q[i] == x && x !in q[..i]
  {
    if q[0] == x then 0
    else
      var j := FirstIndex(q[1..], x);
      assert q[..j + 1] == [q[0]] + q[1..][..j];
      j + 1
  }

  /**
   * Removal by value as a Java linked queue does it: the first element
   * equal to `x` is unlinked; if there is none the queue is unchanged.
   */
  function RemoveFirst<T(==)>(q: seq<T>, x: T): (r: seq<T>)
    ensures x !in q ==> r == q
    ensures x in q ==> |r| == |q| - 1
  {
    if q == [] then []
    else if q[0] == x then q[1..]
    else [q[0]] + RemoveFirst(q[1..], x)
  }

  /** Exactly one copy of `x` goes, if there is one. */
  lemma {:induction false} RemoveFirstMultiset<T>(q: seq<T>, x: T)
    ensures multiset(RemoveFirst(q, x)) == multiset(q) - multiset{x}
  {
    if q != [] {
      assert q == [q[0]] + q[1..];
      if q[0] != x {
        RemoveFirstMultiset(q[1..], x);
      }
    }
  }

  /** The element unlinked is the first occurrence of `x`; the rest keep their order. */
  lemma {:induction false} RemoveFirstAt<T>(q: seq<T>, x: T)
    requires x in q
    ensures RemoveFirst(q, x) == q[..FirstIndex(q, x)] + q[FirstIndex(q, x) + 1..]
  {
    if q[0] != x {
      var t := q[1..];
      RemoveFirstAt(t, x);
      var j := FirstIndex(t, x);
      assert FirstIndex(q, x) == j + 1;
      assert RemoveFirst(q, x) == [q[0]] + (t[..j] + t[j + 1..]);
      assert q[..j + 1] == [q[0]] + t[..j];
      assert q[j + 2..] == t[j + 1..];
    }
  }

  /** `q` with its first `n` elements that fail `p` deleted. */
  function DropRejected<T>(q: seq<T>, p: T -> bool, n: nat): (r: seq<T>)
    ensures n == 0 ==> r == q
  {
    if q == [] then []
    else if !p(q[0]) && n > 0 then DropRejected(q[1..], p, n - 1)
    else [q[0]] + DropRejected(q[1..], p, n)
  }

  /**
   * Removing, by value, the next reject in the remove list deletes exactly
   * the next rejected position: an earlier equal element would fail `p` as
   * well, so it would already have been deleted.
   */
  lemma {:induction false} RemoveNextRejected<T>(q: seq<T>, p: T -> bool, n: nat)
    requires n < |Filter(q, Stale(p))|
    ensures RemoveFirst(DropRejected(q, p, n), Filter(q, Stale(p))[n]) == DropRejected(q, p, n + 1)
  {
    var x, t := q[0], q[1..];
    var rejects := Filter(q, Stale(p));
    assert Stale(p)(x) == !p(x);
    if !p(x) {
      assert rejects == [x] + Filter(t, Stale(p));
      if n == 0 {
        assert DropRejected(q, p, 0) == q;
        assert DropRejected(q, p, 1) == DropRejected(t, p, 0) == t;
      } else {
        assert rejects[n] == Filter(t, Stale(p))[n - 1];
        assert DropRejected(q, p, n) == DropRejected(t, p, n - 1);
        assert DropRejected(q, p, n + 1) == DropRejected(t, p, n);
        RemoveNextRejected(t, p, n - 1);
      }
    } else {
      assert rejects == Filter(t, Stale(p));
      var y := rejects[n];
      assert Stale(p)(y);
      var d := DropRejected(t, p, n);
      assert DropRejected(q, p, n) == [x] + d;
      assert DropRejected(q, p, n + 1) == [x] + DropRejected(t, p, n + 1);
      RemoveNextRejected(t, p, n);
      assert x != y;
      assert ([x] + d)[0] == x && ([x] + d)[1..] == d;
    }
  }

  /** Deleting every reject leaves exactly the survivors. */
  lemma {:induction false} DropAllRejected<T>(q: seq<T>, p: T -> bool)
    ensures DropRejected(q, p, |Filter(q, Stale(p))|) == Filter(q, p)
  {
    if q != [] {
      DropAllRejected(q[1..], p);
    }
  }
}

/** The pathfinding priority queue, kept abstract: a finite map from item to priority. Dequeue
    removes some item of least priority; ties are broken arbitrarily. */
module PriorityQueue {

  /** `x` is in the queue and no item has a lower priority. */
  predicate IsMin<T(==)>(q: map<T, real>, x: T) {
    x in q && forall y :: y in q ==> q[x] <= q[y]
  }

  /** Every non-empty set of keys holds a key of least priority. */
  lemma {:induction false} MinOf<T>(q: map<T, real>, keys: set<T>)
    requires keys != {} && keys <= q.Keys
    ensures exists x :: x in keys && forall y :: y in keys ==> q[x] <= q[y]
    decreases keys
  {
    var k :| k in keys;
    var rest := keys - {k};
    if rest != {} {
      MinOf(q, rest);
      var m :| m in rest && forall y :: y in rest ==> q[m] <= q[y];
      if q[k] <= q[m] {
        assert forall y :: y in keys ==> q[k] <= q[y];
      } else {
        assert forall y :: y in keys ==> q[m] <= q[y];
      }
    } else {
      assert keys == {k};
    }
  }

  /** Dequeue: the queue must not be empty; it returns an item of least priority and the queue
      without that item. */
  method Dequeue<T(==)>(q: map<T, real>) returns (x: T, rest: map<T, real>)
    requires q != map[]
    ensures IsMin(q, x)
    ensures rest == q - {x} && x !in rest
  {
    assert q.Keys != {} by {
      var k :| k in q;
    }
    MinOf(q, q.Keys);
    ghost var m :| m in q.Keys && forall y :: y in q.Keys ==> q[m] <= q[y];
    assert IsMin(q, m);
    x :| IsMin(q, x);
    rest := q - {x};
  }

  /** Contains: membership. */
  predicate Contains<T(==)>(q: map<T, real>, x: T)
    ensures Contains(q, x) <==> x in q.Keys
  {
    x in q
  }

  /** After an enqueue or update the queue contains exactly the item and what it held before. */
  lemma ContainsAfterEnqueue<T>(q: map<T, real>, x: T, priority: real, y: T)
    ensures Contains(EnqueueOrUpdate(q, x, priority), y) <==> y == x || Contains(q, y)
  {
  }

  /** EnqueueOrUpdate: the item gets the given priority, added when absent; other items keep theirs. */
  function EnqueueOrUpdate<T(==)>(q: map<T, real>, x: T, priority: real): (r: map<T, real>)
    ensures r.Keys == q.Keys + {x} && r[x] == priority
    ensures forall y :: y in q && y != x ==> r[y] == q[y]
  {
    q[x := priority]
  }
}

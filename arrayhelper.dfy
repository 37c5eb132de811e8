/** The in-place Fisher-Yates shuffle of the array helper. The random index of each round is an
    arbitrary choice in range; the choices made are recorded as the round's draws. */
module ArrayHelper {

  /** Exchanging the elements at `i` and `j`. */
  function Swap<T>(s: seq<T>, i: nat, j: nat): (r: seq<T>)
    requires i < |s| && j < |s|
    ensures |r| == |s| && r[i] == s[j] && r[j] == s[i]
    ensures forall k :: 0 <= k < |s| && k != i && k != j ==> r[k] == s[k]
  {
    seq(|s|, k requires 0 <= k < |s| => if k == i then s[j] else if k == j then s[i] else s[k])
  }

  /** Exchanging two elements keeps the elements. */
  lemma SwapPermutes<T>(s: seq<T>, i: nat, j: nat)
    requires i < |s| && j < |s|
    ensures multiset(Swap(s, i, j)) == multiset(s)
  {
    assert Swap(s, i, j) == s[i := s[j]][j := s[i]];
  }

  /** Draws a shuffle of `n` elements can make: round `k` works on position `n - 1 - k` and draws
      an index at or below it, and there is no round for position 0. */
  predicate Draws(n: nat, draws: seq<nat>)
  {
    && (|draws| == 0 || |draws| < n)
    && forall k :: 0 <= k < |draws| ==> draws[k] <= n - 1 - k
  }

  /** The sequence after the first `k` rounds of `draws`, round `k - 1` exchanging position
      `|s| - k` with position `draws[k - 1]`. */
  function Shuffled<T>(s: seq<T>, draws: seq<nat>, k: nat): (r: seq<T>)
    requires Draws(|s|, draws) && k <= |draws|
    ensures |r| == |s|
    decreases k
  {
    if k == 0 then s
    else Swap(Shuffled(s, draws, k - 1), |s| - k, draws[k - 1])
  }

  /** Every run of rounds keeps the elements: the result is a permutation of the input. */
  lemma {:induction false} ShuffledPermutes<T>(s: seq<T>, draws: seq<nat>, k: nat)
    requires Draws(|s|, draws) && k <= |draws|
    ensures multiset(Shuffled(s, draws, k)) == multiset(s)
    decreases k
  {
    if k > 0 {
      ShuffledPermutes(s, draws, k - 1);
      SwapPermutes(Shuffled(s, draws, k - 1), |s| - k, draws[k - 1]);
    }
  }

  /** The first `k` rounds depend on the first `k` draws only. */
  lemma {:induction false} RoundsAgree<T>(s: seq<T>, d: seq<nat>, e: seq<nat>, k: nat)
    requires Draws(|s|, d) && Draws(|s|, e) && k <= |d| && k <= |e|
    requires forall i :: 0 <= i < k ==> d[i] == e[i]
    ensures Shuffled(s, d, k) == Shuffled(s, e, k)
    decreases k
  {
    if k > 0 {
      RoundsAgree(s, d, e, k - 1);
    }
  }

  /** Once a round has placed an element at its position, the later rounds leave it there. */
  lemma {:induction false} PlacedStays<T>(s: seq<T>, draws: seq<nat>, m: nat, k: nat, p: nat)
    requires Draws(|s|, draws) && m <= k <= |draws|
    requires |s| - m <= p < |s|
    ensures Shuffled(s, draws, k)[p] == Shuffled(s, draws, m)[p]
    decreases k
  {
    if k > m {
      PlacedStays(s, draws, m, k - 1, p);
      assert draws[k - 1] <= |s| - k < p;
    }
  }

  /** Drawing an index at or below the next position extends valid draws. */
  lemma DrawsExtend(n: nat, draws: seq<nat>, j: nat)
    requires Draws(n, draws) && |draws| + 1 < n && j <= n - 1 - |draws|
    ensures Draws(n, draws + [j])
  {
    var d := draws + [j];
    forall k | 0 <= k < |d|
      ensures d[k] <= n - 1 - k
    {
      if k < |draws| {
        assert d[k] == draws[k];
      }
    }
  }

  /** One more round: the shuffle then exchanges the next position with the new draw. */
  lemma NextRound<T>(s: seq<T>, draws: seq<nat>, j: nat)
    requires Draws(|s|, draws) && |draws| + 1 < |s| && j <= |s| - 1 - |draws|
    ensures Draws(|s|, draws + [j])
    ensures Shuffled(s, draws + [j], |draws| + 1)
         == Swap(Shuffled(s, draws, |draws|), |s| - 1 - |draws|, j)
  {
    DrawsExtend(|s|, draws, j);
    RoundsAgree(s, draws + [j], draws, |draws|);
  }

  /** Exchanges the elements of `a` at `i` and `j` in place. */
  method Exchange<T>(a: array<T>, i: nat, j: nat)
    requires i < a.Length && j < a.Length
    modifies a
    ensures a[..] == Swap(old(a[..]), i, j)
  {
    var temp := a[j];
    a[j] := a[i];
    a[i] := temp;
  }

  /** Shuffle: for i from the last index down to 1, exchange the elements at i and at an index j
      in [0, i]; gives back the same array, now holding the same elements in the order of the
      draws made. */
  method Shuffle<T>(a: array<T>) returns (r: array<T>, ghost draws: seq<nat>)
    modifies a
    ensures r == a
    ensures multiset(a[..]) == multiset(old(a[..]))
    ensures Draws(a.Length, draws) && |draws| == if a.Length == 0 then 0 else a.Length - 1
    ensures a[..] == Shuffled(old(a[..]), draws, |draws|)
    ensures a.Length <= 1 ==> a[..] == old(a[..])
  {
    ghost var s := a[..];
    draws := [];
    var i := a.Length - 1;
    while i > 0
      invariant -1 <= i < a.Length
      invariant a.Length > 0 ==> i == a.Length - 1 - |draws|
      invariant a.Length == 0 ==> draws == []
      invariant Draws(a.Length, draws)
      invariant a[..] == Shuffled(s, draws, |draws|)
    {
      var j :| 0 <= j <= i;
      Exchange(a, i, j);
      NextRound(s, draws, j);
      draws := draws + [j];
      i := i - 1;
    }
    ShuffledPermutes(s, draws, |draws|);
    r := a;
  }
}

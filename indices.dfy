/**
 * The numpy index operations c.py uses: `np.where(cond)[0]`,
 * `np.unique` on integer labels, and `idxs[np.argsort(keys)]`.
 */
module Indices {

  predicate StrictlyIncreasing(s: seq<int>)
  {
    forall p, q :: 0 <= p < q < |s| ==> s[p] < s[q]
  }

  /** `np.where(f(s))[0]`: the positions of `s` whose element satisfies `f`, ascending. */
  function Where<T>(s: seq<T>, f: T -> bool): (r: seq<nat>)
    ensures forall k :: 0 <= k < |r| ==> r[k] < |s| && f(s[r[k]])
    ensures forall p, q :: 0 <= p < q < |r| ==> r[p] < r[q]
  {
    if |s| == 0 then []
    else
      var init := s[..|s| - 1];
      assert forall i :: 0 <= i < |init| ==> init[i] == s[i];
      Where(init, f) + (if f(s[|s| - 1]) then [|s| - 1] else [])
  }

  /** Every position whose element satisfies `f` is listed. */
  lemma {:induction false} WhereComplete<T>(s: seq<T>, f: T -> bool, i: nat)
    requires i < |s| && f(s[i])
    ensures i in Where(s, f)
  {
    var init := s[..|s| - 1];
    if i < |s| - 1 {
      assert init[i] == s[i];
      WhereComplete(init, f, i);
    } else {
      assert Where(s, f)[|Where(s, f)| - 1] == i;
    }
  }

  /** Adds x to an ascending list of distinct values. */
  function Insert(u: seq<int>, x: int): (r: seq<int>)
    requires StrictlyIncreasing(u)
    ensures StrictlyIncreasing(r)
    ensures forall y :: y in r <==> y in u || y == x
  {
    if |u| == 0 then [x]
    else if x < u[0] then [x] + u
    else if x == u[0] then u
    else
      var rest := Insert(u[1..], x);
      assert forall y :: y in u[1..] ==> u[0] < y;
      assert forall k :: 0 <= k < |rest| ==> rest[k] in rest;
      [u[0]] + rest
  }

  /** `np.unique(s)`: the distinct values of `s`, ascending. */
  function Unique(s: seq<int>): (u: seq<int>)
    ensures StrictlyIncreasing(u)
    ensures forall y :: y in u <==> y in s
  {
    if |s| == 0 then []
    else
      var init := s[..|s| - 1];
      assert forall y :: y in s <==> y in init || y == s[|s| - 1];
      Insert(Unique(init), s[|s| - 1])
  }

  /**
   * `idxs[np.argsort([keys[i] for i in idxs])]`: the same indices, ordered
   * so that their keys do not decrease.  The order among equal keys is left
   * open, as numpy's default sort is not stable.
   */
  method ArgsortBy(keys: seq<int>, idxs: seq<nat>) returns (order: seq<nat>)
    requires forall k :: 0 <= k < |idxs| ==> idxs[k] < |keys|
    ensures multiset(order) == multiset(idxs)
    ensures forall k :: 0 <= k < |order| ==> order[k] < |keys|
    ensures forall p, q :: 0 <= p < q < |order| ==> keys[order[p]] <= keys[order[q]]
  {
    var a := new nat[|idxs|](k requires 0 <= k < |idxs| => idxs[k]);
    assert a[..] == idxs;
    var i := 0;
    while i < a.Length
      invariant 0 <= i <= a.Length
      invariant Bounded(a[..], |keys|) && KeyOrdered(keys, a[..], i)
      invariant multiset(a[..]) == multiset(idxs)
    {
      SiftDown(a, keys, i);
      i := i + 1;
    }
    order := a[..];
  }

  /** Every element of s is below n. */
  ghost predicate Bounded(s: seq<nat>, n: nat)
  {
    forall k :: 0 <= k < |s| ==> s[k] < n
  }

  /** The keys of s[..n] do not decrease. */
  ghost predicate KeyOrdered(keys: seq<int>, s: seq<nat>, n: nat)
    requires n <= |s| && Bounded(s, |keys|)
  {
    forall p, q :: 0 <= p < q < n ==> keys[s[p]] <= keys[s[q]]
  }

  /** One step of the insertion sort: moves a[i] left until the keys of a[..i+1] do not decrease. */
  method SiftDown(a: array<nat>, keys: seq<int>, i: nat)
    requires i < a.Length
    requires Bounded(a[..], |keys|) && KeyOrdered(keys, a[..], i)
    modifies a
    ensures Bounded(a[..], |keys|) && KeyOrdered(keys, a[..], i + 1)
    ensures multiset(a[..]) == multiset(old(a[..]))
  {
    var j := i;
    while j > 0 && keys[a[j - 1]] > keys[a[j]]
      invariant 0 <= j <= i
      invariant Bounded(a[..], |keys|) && Sifting(keys, a[..], j, i)
      invariant multiset(a[..]) == multiset(old(a[..]))
    {
      ghost var before := a[..];
      SiftStep(keys, before, j, i);
      a[j - 1], a[j] := a[j], a[j - 1];
      assert a[..] == Swap(before, j);
      j := j - 1;
    }
    SiftDone(keys, a[..], j, i);
  }

  /** s[j - 1] and s[j] exchanged. */
  function Swap(s: seq<nat>, j: nat): (r: seq<nat>)
    requires 0 < j < |s|
    ensures |r| == |s|
  {
    s[j - 1 := s[j]][j := s[j - 1]]
  }

  /**
   * The state of the sift loop: apart from the moving element at j the
   * keys of s[..i+1] do not decrease, and the moving element's key is below
   * every key after it.
   */
  ghost predicate Sifting(keys: seq<int>, s: seq<nat>, j: nat, i: nat)
    requires j <= i < |s| && Bounded(s, |keys|)
  {
    (forall p, q :: 0 <= p < q <= i && p != j && q != j ==> keys[s[p]] <= keys[s[q]]) &&
    (forall p, q :: 0 <= p < j < q <= i ==> keys[s[p]] <= keys[s[q]]) &&
    (forall q :: j < q <= i ==> keys[s[j]] < keys[s[q]])
  }

  /** Exchanging the moving element with a neighbour of larger key keeps the loop state, one place left. */
  lemma SiftStep(keys: seq<int>, s: seq<nat>, j: nat, i: nat)
    requires 0 < j <= i < |s| && Bounded(s, |keys|)
    requires Sifting(keys, s, j, i) && keys[s[j - 1]] > keys[s[j]]
    ensures Bounded(Swap(s, j), |keys|)
    ensures Sifting(keys, Swap(s, j), j - 1, i)
    ensures multiset(Swap(s, j)) == multiset(s)
  {
    var t := Swap(s, j);
    assert forall k :: 0 <= k < |s| ==> t[k] == if k == j - 1 then s[j] else if k == j then s[j - 1] else s[k];
  }

  /** When the moving element's left neighbour has no larger key, s[..i+1] is in key order. */
  lemma SiftDone(keys: seq<int>, s: seq<nat>, j: nat, i: nat)
    requires j <= i < |s| && Bounded(s, |keys|)
    requires Sifting(keys, s, j, i) && (j == 0 || keys[s[j - 1]] <= keys[s[j]])
    ensures KeyOrdered(keys, s, i + 1)
  {
  }
}

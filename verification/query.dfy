/**
 * Querysets over a table whose primary keys are the row indices 0 .. n-1.
 * `Select` is `.filter(...)`: the keys a condition accepts. `FirstWhere` and
 * `LastWhere` are `.filter(...).first()` and `.filter(...).last()`, which
 * order an unordered queryset by primary key. A queryset that is iterated
 * without `order_by` comes back in whatever order the database chooses;
 * the model fixes primary-key order for those too.
 */
module Query {
  import opened Wrappers

  predicate Increasing(r: seq<nat>) {
    forall j, k :: 0 <= j < k < |r| ==> r[j] < r[k]
  }

  /** Keys below `n` accepted by `p`, each once, in increasing order. */
  function Select(n: nat, p: nat -> bool): (r: seq<nat>)
    ensures forall k :: 0 <= k < |r| ==> r[k] < n && p(r[k])
    ensures forall i: nat :: i < n && p(i) ==> i in r
    ensures Increasing(r)
  {
    if n == 0 then [] else Select(n - 1, p) + (if p(n - 1) then [n - 1] else [])
  }

  /** The least key accepted by `p`, if any. */
  function FirstWhere(n: nat, p: nat -> bool): (o: Option<nat>)
    ensures o.None? <==> forall i: nat :: i < n ==> !p(i)
    ensures o.Some? ==> o.value < n && p(o.value) && forall j: nat :: j < o.value ==> !p(j)
  {
    var r := Select(n, p);
    if r == [] then None else Some(r[0])
  }

  /** The greatest key accepted by `p`, if any. */
  function LastWhere(n: nat, p: nat -> bool): (o: Option<nat>)
    ensures o.None? <==> forall i: nat :: i < n ==> !p(i)
    ensures o.Some? ==> o.value < n && p(o.value) && forall j: nat :: o.value < j < n ==> !p(j)
  {
    var r := Select(n, p);
    if r == [] then None else Some(r[|r| - 1])
  }

  /** Two conditions that agree on every key below `n` select the same keys. */
  lemma {:induction false} SelectExt(n: nat, p: nat -> bool, q: nat -> bool)
    requires forall i: nat :: i < n ==> p(i) == q(i)
    ensures Select(n, p) == Select(n, q)
  {
    if n > 0 {
      SelectExt(n - 1, p, q);
    }
  }

  /**
   * Changing the condition at one key `k` changes the count by at most one,
   * in the direction of the change.
   */
  lemma {:induction false} SelectPointChange(n: nat, p: nat -> bool, q: nat -> bool, k: nat)
    requires forall i: nat :: i != k ==> p(i) == q(i)
    ensures |Select(n, p)| + (if k < n && q(k) then 1 else 0)
         == |Select(n, q)| + (if k < n && p(k) then 1 else 0)
  {
    if n > 0 {
      SelectPointChange(n - 1, p, q, k);
    }
  }

  /** A selection of at most one key cannot hold two different keys. */
  lemma SelectAtMostOne(n: nat, p: nat -> bool, i: nat, j: nat)
    requires |Select(n, p)| <= 1
    requires i < n && p(i) && j < n && p(j)
    ensures i == j
  {
    var r := Select(n, p);
    assert i in r && j in r;
  }

  /** A condition that accepts no key below `n` selects nothing. */
  lemma {:induction false} SelectNone(n: nat, p: nat -> bool)
    requires forall i: nat :: i < n ==> !p(i)
    ensures Select(n, p) == []
  {
    if n > 0 {
      SelectNone(n - 1, p);
    }
  }

  /** `.filter(...)` applied to a queryset: the keys of `r` that `p` accepts, in their order. */
  function Refine(r: seq<nat>, p: nat -> bool): (s: seq<nat>)
    ensures forall x :: x in s <==> x in r && p(x)
    ensures |s| <= |r|
  {
    if r == [] then [] else (if p(r[0]) then [r[0]] else []) + Refine(r[1..], p)
  }

  /** Refining an increasing queryset keeps it increasing. */
  lemma {:induction false} RefineIncreasing(r: seq<nat>, p: nat -> bool)
    requires Increasing(r)
    ensures Increasing(Refine(r, p))
  {
    if r != [] {
      RefineIncreasing(r[1..], p);
      var rest := Refine(r[1..], p);
      forall k | 0 <= k < |rest|
        ensures r[0] < rest[k]
      {
        assert rest[k] in r[1..];
      }
    }
  }

  /** An increasing sequence is determined by the keys it holds. */
  lemma {:induction false} IncreasingUnique(r: seq<nat>, s: seq<nat>)
    requires Increasing(r) && Increasing(s)
    requires forall x :: x in r <==> x in s
    ensures r == s
    decreases |r|
  {
    if r != [] {
      assert r[0] in r;
    }
    if s != [] {
      assert s[0] in s;
    }
    if r != [] && s != [] {
      assert r[0] in s && s[0] in r;
      assert r[0] == s[0];
      forall x
        ensures x in r[1..] <==> x in s[1..]
      {
        assert x in r[1..] <==> x in r && x != r[0];
        assert x in s[1..] <==> x in s && x != s[0];
      }
      IncreasingUnique(r[1..], s[1..]);
      assert r == [r[0]] + r[1..] && s == [s[0]] + s[1..];
    }
  }
}

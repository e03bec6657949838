/** Left folds over sequences, and what a fold leaves in one component of its
    state when each step either overwrites that component or keeps it. */
module Folds {
  import opened Wrappers

  /** `step` applied to each element of `xs` in order, starting from `s`. */
  function FoldLeft<S, T>(step: (S, T) -> S, s: S, xs: seq<T>): S
    decreases |xs|
  {
    if |xs| == 0 then s else step(FoldLeft(step, s, xs[..|xs| - 1]), xs[|xs| - 1])
  }

  /** `i` is the last position of `xs` where `hit` fires. */
  ghost predicate IsLastHit<T, V>(hit: T -> Option<V>, xs: seq<T>, i: int)
  {
    && 0 <= i < |xs|
    && hit(xs[i]).Some?
    && forall j :: i < j < |xs| ==> hit(xs[j]).None?
  }

  ghost predicate NoHit<T, V>(hit: T -> Option<V>, xs: seq<T>)
  {
    forall j :: 0 <= j < |xs| ==> hit(xs[j]).None?
  }

  /** When every step overwrites the observed component `get` with the value
      `hit` gives, or keeps it when `hit` gives none, the fold ends with the
      last value written, or with the starting value if nothing was written. */
  lemma {:induction false} FoldLastHit<S, T, V>(step: (S, T) -> S, get: S -> V, hit: T -> Option<V>, s: S, xs: seq<T>)
    requires forall s', x {:trigger step(s', x)} :: get(step(s', x)) == hit(x).GetOr(get(s'))
    ensures NoHit(hit, xs) ==> get(FoldLeft(step, s, xs)) == get(s)
    ensures forall i :: IsLastHit(hit, xs, i) ==> get(FoldLeft(step, s, xs)) == hit(xs[i]).value
    decreases |xs|
  {
    if |xs| > 0 {
      var n := |xs| - 1;
      var front := xs[..n];
      FoldLastHit(step, get, hit, s, front);
      var before := FoldLeft(step, s, front);
      assert FoldLeft(step, s, xs) == step(before, xs[n]);
      assert get(step(before, xs[n])) == hit(xs[n]).GetOr(get(before));
      if hit(xs[n]).None? {
        forall i | IsLastHit(hit, xs, i)
          ensures IsLastHit(hit, front, i)
        {
          assert forall j :: i < j < n ==> front[j] == xs[j];
        }
        if NoHit(hit, xs) {
          assert forall j :: 0 <= j < n ==> front[j] == xs[j];
        }
      }
    }
  }

  /** If anything is hit, some hit is the last one. */
  lemma {:induction false} LastHitExists<T, V>(hit: T -> Option<V>, xs: seq<T>)
    requires !NoHit(hit, xs)
    ensures exists i :: IsLastHit(hit, xs, i)
    decreases |xs|
  {
    var n := |xs| - 1;
    if hit(xs[n]).Some? {
      assert IsLastHit(hit, xs, n);
    } else {
      var front := xs[..n];
      var j :| 0 <= j < |xs| && hit(xs[j]).Some?;
      assert j < n && front[j] == xs[j];
      LastHitExists(hit, front);
      var i :| IsLastHit(hit, front, i);
      assert forall k :: i < k < n ==> front[k] == xs[k];
      assert IsLastHit(hit, xs, i);
    }
  }

  /** A property every step preserves holds after the whole fold. */
  lemma {:induction false} FoldPreserves<S, T>(step: (S, T) -> S, inv: S -> bool, s: S, xs: seq<T>)
    requires forall s', x :: inv(s') ==> inv(step(s', x))
    requires inv(s)
    ensures inv(FoldLeft(step, s, xs))
    decreases |xs|
  {
    if |xs| > 0 {
      FoldPreserves(step, inv, s, xs[..|xs| - 1]);
    }
  }

  /** `f` applied to each element of `xs`. */
  function Map<A, B>(f: A -> B, xs: seq<A>): (r: seq<B>)
    ensures |r| == |xs|
    ensures forall k :: 0 <= k < |xs| ==> r[k] == f(xs[k])
  {
    seq(|xs|, k requires 0 <= k < |xs| => f(xs[k]))
  }

  /** Mapping a concatenation maps each part. */
  lemma MapAppend<A, B>(f: A -> B, xs: seq<A>, ys: seq<A>)
    ensures Map(f, xs + ys) == Map(f, xs) + Map(f, ys)
  {
    var l := Map(f, xs + ys);
    var r := Map(f, xs) + Map(f, ys);
    forall k | 0 <= k < |l|
      ensures l[k] == r[k]
    {
      if k < |xs| {
        assert (xs + ys)[k] == xs[k];
      } else {
        assert (xs + ys)[k] == ys[k - |xs|];
      }
    }
  }
}

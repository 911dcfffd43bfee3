/**
 * Drawing without replacement. `randrange(len(pool))` becomes a caller-supplied
 * position: draw `k` picks one of the `size - k` elements still in the pool.
 */
module Draws {
  import Lists

  /** Each draw picks a position in what is left of the pool: `randrange(len(available))`. */
  predicate ValidDraws(size: nat, draws: seq<nat>) {
    forall k :: 0 <= k < |draws| ==> draws[k] + k < size
  }

  /** The pairs taken from `pool` by popping the drawn positions one after another. */
  function Picks<T>(pool: seq<T>, draws: seq<nat>): (r: seq<T>)
    requires ValidDraws(|pool|, draws)
    ensures |r| == |draws|
  {
    if draws == [] then []
    else
      assert forall k :: 0 <= k < |draws| - 1 ==> draws[1..][k] == draws[k + 1];
      [pool[draws[0]]] + Picks(pool[..draws[0]] + pool[draws[0] + 1..], draws[1..])
  }

  /** One pick per draw, each taken out of the pool: drawing without replacement. */
  lemma {:induction false} PicksFromPool<T>(pool: seq<T>, draws: seq<nat>)
    requires ValidDraws(|pool|, draws)
    ensures |Picks(pool, draws)| == |draws|
    ensures multiset(Picks(pool, draws)) <= multiset(pool)
  {
    if draws != [] {
      var d := draws[0];
      var rest := pool[..d] + pool[d + 1..];
      PicksStep(pool, draws);
      PicksFromPool(rest, draws[1..]);
      WithoutMultiset(pool, d);
      SubMultisetCons(pool[d], Picks(rest, draws[1..]), rest);
    }
  }

  /** When every pair is drawn, the picks are the pool in some order: each pair exactly once. */
  lemma PicksAll<T>(pool: seq<T>, draws: seq<nat>)
    requires ValidDraws(|pool|, draws) && |draws| == |pool|
    ensures multiset(Picks(pool, draws)) == multiset(pool)
  {
    PicksFromPool(pool, draws);
    SubMultisetSameSize(multiset(Picks(pool, draws)), multiset(pool));
  }

  lemma SubMultisetSameSize<T>(a: multiset<T>, b: multiset<T>)
    requires a <= b && |a| == |b|
    ensures a == b
  {
    var d := b - a;
    assert b == a + d;
    assert |d| == 0;
  }

  /** The first pick, then the picks from what is left. */
  lemma PicksStep<T>(pool: seq<T>, draws: seq<nat>)
    requires ValidDraws(|pool|, draws) && draws != []
    ensures |pool| >= 1 && ValidDraws(|pool| - 1, draws[1..])
    ensures Picks(pool, draws) == [pool[draws[0]]] + Picks(pool[..draws[0]] + pool[draws[0] + 1..], draws[1..])
  {
    assert forall k :: 0 <= k < |draws| - 1 ==> draws[1..][k] == draws[k + 1];
  }

  /** One pop of the selection loop keeps "picked so far, then the picks still to come". */
  lemma SelectStep<T>(picked: seq<T>, available: seq<T>, rest: seq<nat>, whole: seq<T>)
    requires rest != [] && ValidDraws(|available|, rest)
    requires picked + Picks(available, rest) == whole
    ensures |available| >= 1 && ValidDraws(|available| - 1, rest[1..])
    ensures (picked + [available[rest[0]]]) + Picks(available[..rest[0]] + available[rest[0] + 1..], rest[1..]) == whole
  {
    PicksStep(available, rest);
  }

  /** There are never more draws than elements in the pool. */
  lemma DrawsBound(size: nat, draws: seq<nat>)
    requires ValidDraws(size, draws)
    ensures |draws| <= size
  {
    if draws != [] {
      assert draws[|draws| - 1] + (|draws| - 1) < size;
    }
  }

  /**
   * A quiz part-way through its rounds: `asked` are the pairs asked so far, in
   * order, and the pairs still to come are the picks from what is left.
   */
  ghost predicate Draining<T>(pool: seq<T>, draws: seq<nat>, i: nat, asked: seq<T>, whole: seq<T>) {
    && i <= |draws| && |asked| == i && Lists.Distinct(pool)
    && ValidDraws(|pool|, draws[i..]) && asked + Picks(pool, draws[i..]) == whole
  }

  /**
   * One round of a quiz: the pair at the drawn position is asked and then
   * removed with `list.remove`, which, in a pool without repeats, pops exactly
   * that position.
   */
  lemma DrainStep<T>(pool: seq<T>, draws: seq<nat>, i: nat, asked: seq<T>, whole: seq<T>)
    requires Draining(pool, draws, i, asked, whole) && i < |draws|
    ensures draws[i] < |pool| && |Lists.RemoveFirst(pool, pool[draws[i]])| == |pool| - 1
    ensures Draining(Lists.RemoveFirst(pool, pool[draws[i]]), draws, i + 1, asked + [pool[draws[i]]], whole)
  {
    assert draws[i..][0] == draws[i];
    SelectStep(asked, pool, draws[i..], whole);
    Lists.RemoveFirstOfDistinct(pool, draws[i]);
    assert draws[i..][1..] == draws[i + 1..];
  }

  /** The pairs asked so far are the first picks. */
  lemma DrainedPrefix<T>(pool: seq<T>, draws: seq<nat>, i: nat, asked: seq<T>, whole: seq<T>)
    requires Draining(pool, draws, i, asked, whole)
    ensures |whole| >= i && whole[..i] == asked
  {
  }

  /** Picks from a deck without repeated pairs are themselves without repeats. */
  lemma {:induction false} PicksDistinct<T>(pool: seq<T>, draws: seq<nat>)
    requires ValidDraws(|pool|, draws) && Lists.Distinct(pool)
    ensures Lists.Distinct(Picks(pool, draws))
  {
    if draws != [] {
      var d := draws[0];
      var rest := pool[..d] + pool[d + 1..];
      PicksStep(pool, draws);
      Lists.DistinctWithout(pool, d);
      PicksDistinct(rest, draws[1..]);
      PicksFromPool(rest, draws[1..]);
      var tail := Picks(rest, draws[1..]);
      NotInWithout(pool, d);
      assert pool[d] !in multiset(rest);
      assert pool[d] !in multiset(tail);
      ConsDistinct(pool[d], tail);
    }
  }

  lemma WithoutMultiset<T>(xs: seq<T>, d: nat)
    requires d < |xs|
    ensures multiset(xs[..d] + xs[d + 1..]) + multiset{xs[d]} == multiset(xs)
  {
    assert xs == xs[..d] + [xs[d]] + xs[d + 1..];
  }

  lemma SubMultisetCons<T>(x: T, xs: seq<T>, ys: seq<T>)
    requires multiset(xs) <= multiset(ys)
    ensures multiset([x] + xs) <= multiset(ys) + multiset{x}
  {
  }

  /** In a list without repeats, the element at `d` is not among the others. */
  lemma NotInWithout<T>(xs: seq<T>, d: nat)
    requires Lists.Distinct(xs) && d < |xs|
    ensures xs[d] !in xs[..d] + xs[d + 1..]
  {
    var rest := xs[..d] + xs[d + 1..];
    forall k | 0 <= k < |rest| ensures rest[k] != xs[d] {
      if k < d {
        assert rest[k] == xs[k];
      } else {
        assert rest[k] == xs[k + 1];
      }
    }
  }

  lemma ConsDistinct<T>(x: T, xs: seq<T>)
    requires Lists.Distinct(xs) && x !in xs
    ensures Lists.Distinct([x] + xs)
  {
    var ys := [x] + xs;
    forall i, j | 0 <= i < j < |ys| ensures ys[i] != ys[j] {
      assert ys[j] == xs[j - 1];
      if i > 0 {
        assert ys[i] == xs[i - 1];
      }
    }
  }
}

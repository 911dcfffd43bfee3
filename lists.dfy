/** The few Python list operations the flashcard code relies on, over `seq`. */
module Lists {

  /** No element occurs twice. */
  predicate Distinct<T(==)>(xs: seq<T>) {
    forall i, j :: 0 <= i < j < |xs| ==> xs[i] != xs[j]
  }

  /** `xs.index(x)`: the position of the first element equal to `x`. */
  function FirstIndexOf<T(==)>(xs: seq<T>, x: T): (r: nat)
    requires x in xs
    ensures r < |xs| && xs[r] == x
    ensures forall j :: 0 <= j < r ==> xs[j] != x
  {
    if xs[0] == x then 0 else 1 + FirstIndexOf(xs[1..], x)
  }

  /** `xs.remove(x)`: drop the first element equal to `x`, keep the order of the rest. */
  function RemoveFirst<T(==)>(xs: seq<T>, x: T): (r: seq<T>)
    requires x in xs
    ensures |r| == |xs| - 1
    ensures multiset(r) == multiset(xs) - multiset{x}
    ensures forall j :: 0 <= j < FirstIndexOf(xs, x) ==> r[j] == xs[j]
  {
    var i := FirstIndexOf(xs, x);
    assert xs == xs[..i] + [xs[i]] + xs[i + 1..];
    xs[..i] + xs[i + 1..]
  }

  /** In a list without repeats, `index` finds the element's own position. */
  lemma FirstIndexOfDistinct<T>(xs: seq<T>, i: nat)
    requires Distinct(xs) && i < |xs|
    ensures FirstIndexOf(xs, xs[i]) == i
  {
    var k := FirstIndexOf(xs, xs[i]);
    assert xs[k] == xs[i];
  }

  /** Removing one position from a list without repeats leaves a list without repeats. */
  lemma DistinctWithout<T>(xs: seq<T>, i: nat)
    requires Distinct(xs) && i < |xs|
    ensures Distinct(xs[..i] + xs[i + 1..])
  {
    var r := xs[..i] + xs[i + 1..];
    forall a, b | 0 <= a < b < |r| ensures r[a] != r[b] {
      var a' := if a < i then a else a + 1;
      var b' := if b < i then b else b + 1;
      assert r[a] == xs[a'] && r[b] == xs[b'];
    }
  }

  /** In a list without repeats, `remove` takes out exactly the element at `i`. */
  lemma RemoveFirstOfDistinct<T>(xs: seq<T>, i: nat)
    requires Distinct(xs) && i < |xs|
    ensures RemoveFirst(xs, xs[i]) == xs[..i] + xs[i + 1..]
    ensures Distinct(RemoveFirst(xs, xs[i]))
  {
    FirstIndexOfDistinct(xs, i);
    DistinctWithout(xs, i);
  }

  /** Concatenation regrouped. */
  lemma Assoc<T>(a: seq<T>, b: seq<T>, c: seq<T>)
    ensures a + (b + c) == (a + b) + c
  {
  }
}

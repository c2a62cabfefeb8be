/** Counting and first-appearance order on sequences: the behaviour of
    Python's insertion-ordered dictionaries as the pipeline uses them. */
module Collections {

  datatype Option<T> = None | Some(value: T)

  predicate Distinct<T(==)>(xs: seq<T>)
  {
    forall i, j :: 0 <= i < j < |xs| ==> xs[i] != xs[j]
  }

  /** The number of positions of `xs` holding `x`. */
  function Count<T(==)>(xs: seq<T>, x: T): (n: nat)
    ensures n <= |xs|
    ensures n > 0 <==> x in xs
  {
    if |xs| == 0 then 0
    else Count(xs[..|xs| - 1], x) + (if xs[|xs| - 1] == x then 1 else 0)
  }

  lemma {:induction false} CountAppend<T>(a: seq<T>, b: seq<T>, x: T)
    ensures Count(a + b, x) == Count(a, x) + Count(b, x)
  {
    if |b| == 0 {
      assert a + b == a;
    } else {
      assert (a + b)[..|a + b| - 1] == a + b[..|b| - 1];
      CountAppend(a, b[..|b| - 1], x);
    }
  }

  /** A member of a duplicate-free sequence occurs exactly once. */
  lemma {:induction false} DistinctCount<T>(xs: seq<T>, x: T)
    requires Distinct(xs) && x in xs
    ensures Count(xs, x) == 1
  {
    var n := |xs| - 1;
    assert forall i :: 0 <= i < n ==> xs[..n][i] == xs[i];
    if xs[n] == x {
      assert x !in xs[..n];
    } else {
      assert x in xs[..n];
      DistinctCount(xs[..n], x);
    }
  }

  /** The distinct elements of `xs` in order of first appearance: the key
      order of a Python dict filled by assigning `d[x]` for each `x` in turn. */
  function FirstAppearance<T(==)>(xs: seq<T>): (r: seq<T>)
    ensures Distinct(r)
    ensures forall i :: 0 <= i < |xs| ==> xs[i] in r
    ensures forall i :: 0 <= i < |r| ==> r[i] in xs
  {
    if |xs| == 0 then []
    else
      var d := FirstAppearance(xs[..|xs| - 1]);
      assert forall i :: 0 <= i < |xs| - 1 ==> xs[i] == xs[..|xs| - 1][i];
      if xs[|xs| - 1] in d then d else d + [xs[|xs| - 1]]
  }

  /** `f` applied to every element, in order. */
  function MapSeq<A, B>(f: A -> B, xs: seq<A>): (r: seq<B>)
    ensures |r| == |xs|
  {
    if |xs| == 0 then [] else MapSeq(f, xs[..|xs| - 1]) + [f(xs[|xs| - 1])]
  }

  lemma {:induction false} MapSeqAt<A, B>(f: A -> B, xs: seq<A>, k: nat)
    requires k < |xs|
    ensures MapSeq(f, xs)[k] == f(xs[k])
  {
    var n := |xs| - 1;
    if k < n {
      MapSeqAt(f, xs[..n], k);
      assert xs[..n][k] == xs[k];
    }
  }

  lemma MapSeqSnoc<A, B>(f: A -> B, xs: seq<A>, i: nat)
    requires i < |xs|
    ensures MapSeq(f, xs[..i + 1]) == MapSeq(f, xs[..i]) + [f(xs[i])]
  {
    assert xs[..i + 1][..i] == xs[..i];
  }

  /** A nonempty sequence is its front and its last element. */
  lemma SplitLast<T>(xs: seq<T>)
    requires |xs| > 0
    ensures xs == xs[..|xs| - 1] + [xs[|xs| - 1]]
  {
  }

  /** The members of `xs + [x]` are those of `xs` and `x`. */
  lemma InSnoc<T>(xs: seq<T>, x: T)
    ensures forall a :: a in xs + [x] <==> a in xs || a == x
  {
  }

  /** The members of `a + b` are those of `a` and those of `b`. */
  lemma InAppend<T>(a: seq<T>, b: seq<T>, x: T)
    ensures x in a + b <==> x in a || x in b
  {
  }

  /** Adding one element extends the first-appearance order only when it is new. */
  lemma FirstAppearanceSnoc<T>(xs: seq<T>, x: T)
    ensures FirstAppearance(xs + [x]) ==
              if x in FirstAppearance(xs) then FirstAppearance(xs) else FirstAppearance(xs) + [x]
  {
    assert (xs + [x])[..|xs|] == xs;
  }
}

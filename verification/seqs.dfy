/** Sequence operations shared by the queries: the stream stages `filter`, `map`,
    `flatMap` and a left fold that sums. Every recursion peels off the LAST element,
    the order in which a sequential stream feeds its collector. */
module Seqs {

  /** The elements of `s` that satisfy `p`, in encounter order (`Stream.filter`): a
      single element is kept exactly when it passes, and `FilterAppend` extends this
      to every input. */
  function Filter<T(!new)>(s: seq<T>, p: T -> bool): (r: seq<T>)
    ensures |r| <= |s|
    ensures forall i :: 0 <= i < |r| ==> p(r[i])
    ensures |s| == 1 ==> r == if p(s[0]) then s else []
  {
    if |s| == 0 then []
    else
      var r := Filter(s[..|s| - 1], p);
      if p(s[|s| - 1]) then r + [s[|s| - 1]] else r
  }

  /** The filter keeps every occurrence of an element that passes and drops every
      one that fails. */
  lemma {:induction false} FilterContents<T(!new)>(s: seq<T>, p: T -> bool)
    ensures forall x :: multiset(Filter(s, p))[x] == if p(x) then multiset(s)[x] else 0
    ensures forall x :: x in Filter(s, p) <==> x in s && p(x)
  {
    if |s| > 0 {
      FilterContents(s[..|s| - 1], p);
      assert s == s[..|s| - 1] + [s[|s| - 1]];
    }
  }

  /** Filtering a concatenation filters each part: the filter keeps encounter order. */
  lemma {:induction false} FilterAppend<T(!new)>(a: seq<T>, b: seq<T>, p: T -> bool)
    ensures Filter(a + b, p) == Filter(a, p) + Filter(b, p)
    decreases |b|
  {
    if |b| == 0 {
      assert a + b == a;
    } else {
      var b' := b[..|b| - 1];
      assert (a + b)[..|a + b| - 1] == a + b';
      FilterAppend(a, b', p);
    }
  }

  /** A filter that every element passes returns its input unchanged. */
  lemma {:induction false} FilterAll<T(!new)>(s: seq<T>, p: T -> bool)
    requires forall i :: 0 <= i < |s| ==> p(s[i])
    ensures Filter(s, p) == s
  {
    if |s| > 0 {
      FilterAll(s[..|s| - 1], p);
    }
  }

  /** A filter that no element passes returns the empty sequence. */
  lemma FilterNone<T(!new)>(s: seq<T>, p: T -> bool)
    requires forall x :: x in s ==> !p(x)
    ensures Filter(s, p) == []
  {
    FilterContents(s, p);
  }

  /** Filters whose tests agree on every element return the same result. */
  lemma {:induction false} FilterCongruent<T(!new)>(s: seq<T>, p: T -> bool, q: T -> bool)
    requires forall i :: 0 <= i < |s| ==> p(s[i]) == q(s[i])
    ensures Filter(s, p) == Filter(s, q)
  {
    if |s| > 0 {
      FilterCongruent(s[..|s| - 1], p, q);
    }
  }

  /** `f` applied to every element (`Stream.map`). */
  function MapSeq<T, U>(s: seq<T>, f: T -> U): (r: seq<U>)
    ensures |r| == |s|
    ensures forall i :: 0 <= i < |s| ==> r[i] == f(s[i])
  {
    seq(|s|, i requires 0 <= i < |s| => f(s[i]))
  }

  lemma MapSeqAppend<T, U>(a: seq<T>, b: seq<T>, f: T -> U)
    ensures MapSeq(a + b, f) == MapSeq(a, f) + MapSeq(b, f)
  {
  }

  /** The pieces of `ss` laid end to end (`Stream.flatMap`): one piece flattens to
      itself, and `FlattenAppend` extends this to every input. */
  function Flatten<T(!new)>(ss: seq<seq<T>>): (r: seq<T>)
    ensures |ss| == 1 ==> r == ss[0]
    ensures forall x :: x in r <==> exists i :: 0 <= i < |ss| && x in ss[i]
  {
    if |ss| == 0 then []
    else
      var init := ss[..|ss| - 1];
      var r := Flatten(init) + ss[|ss| - 1];
      assert forall i :: 0 <= i < |init| ==> init[i] == ss[i];
      r
  }

  /** Flattening a concatenation concatenates the flattenings: the pieces are laid
      out in their order. */
  lemma {:induction false} FlattenAppend<T(!new)>(a: seq<seq<T>>, b: seq<seq<T>>)
    ensures Flatten(a + b) == Flatten(a) + Flatten(b)
    decreases |b|
  {
    if |b| == 0 {
      assert a + b == a;
    } else {
      var b', last := b[..|b| - 1], b[|b| - 1];
      assert (a + b)[..|a + b| - 1] == a + b' && (a + b)[|a + b| - 1] == last;
      calc {
        Flatten(a + b);
        Flatten(a + b') + last;
        { FlattenAppend(a, b'); }
        Flatten(a) + Flatten(b') + last;
        Flatten(a) + Flatten(b);
      }
    }
  }

  /** The sum of the weights `f(x)` of the elements, folded from zero left to right
      (`reduce(ZERO, add)`). */
  function SeqSum<T>(s: seq<T>, f: T -> real): (r: real)
    ensures |s| == 0 ==> r == 0.0
    ensures |s| == 1 ==> r == f(s[0])
    ensures (forall i :: 0 <= i < |s| ==> f(s[i]) >= 0.0) ==> r >= 0.0
  {
    if |s| == 0 then 0.0 else SeqSum(s[..|s| - 1], f) + f(s[|s| - 1])
  }

  /** Summing a concatenation adds the sums of its parts. */
  lemma {:induction false} SeqSumAppend<T>(a: seq<T>, b: seq<T>, f: T -> real)
    ensures SeqSum(a + b, f) == SeqSum(a, f) + SeqSum(b, f)
    decreases |b|
  {
    if |b| == 0 {
      assert a + b == a;
    } else {
      var b' := b[..|b| - 1];
      assert (a + b)[..|a + b| - 1] == a + b';
      SeqSumAppend(a, b', f);
    }
  }

  /** With every weight one, the sum is the length. */
  lemma {:induction false} SeqSumOnes<T>(s: seq<T>)
    ensures SeqSum(s, _ => 1.0) == |s| as real
  {
    if |s| > 0 {
      SeqSumOnes(s[..|s| - 1]);
    }
  }
}

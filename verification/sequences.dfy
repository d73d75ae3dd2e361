/** Order-preserving selection over sequences: the shape shared by every
    filter pass of the flight program, which walks its list front to back
    and emits some of the elements it meets. */
module Sequences {

  /** The elements of `s` that satisfy `p`, in their original order. */
  function Filter<T>(p: T -> bool, s: seq<T>): (r: seq<T>)
    ensures |r| <= |s|
  {
    if |s| == 0 then []
    else Filter(p, s[..|s| - 1]) + (if p(s[|s| - 1]) then [s[|s| - 1]] else [])
  }

  /** `r` can be obtained from `s` by deleting elements, keeping the order
      of those that remain. */
  predicate SubsequenceOf<T(==)>(r: seq<T>, s: seq<T>)
    decreases |s|
  {
    if |r| == 0 then true
    else if |s| == 0 then false
    else (r[|r| - 1] == s[|s| - 1] && SubsequenceOf(r[..|r| - 1], s[..|s| - 1]))
         || SubsequenceOf(r, s[..|s| - 1])
  }

  /** Appending one element to the input appends it to the output exactly
      when it satisfies `p`. */
  lemma FilterSnoc<T>(p: T -> bool, s: seq<T>, x: T)
    ensures Filter(p, s + [x]) == Filter(p, s) + (if p(x) then [x] else [])
  {
    assert (s + [x])[..|s + [x]| - 1] == s;
  }

  /** Filtering a concatenation filters each part independently. */
  lemma {:induction false} FilterConcat<T>(p: T -> bool, a: seq<T>, b: seq<T>)
    ensures Filter(p, a + b) == Filter(p, a) + Filter(p, b)
    decreases |b|
  {
    if |b| == 0 {
      assert a + b == a;
    } else {
      var b' := b[..|b| - 1];
      var x := b[|b| - 1];
      assert b == b' + [x];
      assert a + b == (a + b') + [x];
      FilterConcat(p, a, b');
      FilterSnoc(p, a + b', x);
      FilterSnoc(p, b', x);
    }
  }

  /** Each element occurs in the output as often as in the input when it
      satisfies `p`, and not at all otherwise: nothing is emitted twice and
      nothing that fails `p` is emitted. */
  lemma {:induction false} FilterMultiset<T>(p: T -> bool, s: seq<T>)
    ensures forall x :: multiset(Filter(p, s))[x] == if p(x) then multiset(s)[x] else 0
    decreases |s|
  {
    if |s| > 0 {
      var s' := s[..|s| - 1];
      var y := s[|s| - 1];
      assert s == s' + [y];
      FilterMultiset(p, s');
      assert multiset(s) == multiset(s') + multiset{y};
    }
  }

  /** An element is in the output exactly when it is in the input and
      satisfies `p`. */
  lemma FilterMembership<T>(p: T -> bool, s: seq<T>)
    ensures forall x :: x in Filter(p, s) <==> x in s && p(x)
  {
    FilterMultiset(p, s);
    forall x
      ensures x in Filter(p, s) <==> x in s && p(x)
    {
      assert x in Filter(p, s) <==> multiset(Filter(p, s))[x] > 0;
      assert x in s <==> multiset(s)[x] > 0;
    }
  }

  /** A sequence is a subsequence of itself with one more element appended. */
  lemma {:induction false} SubsequenceOfSnoc<T>(r: seq<T>, s: seq<T>, x: T)
    requires SubsequenceOf(r, s)
    ensures SubsequenceOf(r, s + [x])
    ensures SubsequenceOf(r + [x], s + [x])
  {
    assert (s + [x])[..|s + [x]| - 1] == s;
    assert (r + [x])[..|r + [x]| - 1] == r;
  }

  /** The output of a filter keeps the input's relative order. */
  lemma {:induction false} FilterSubsequence<T>(p: T -> bool, s: seq<T>)
    ensures SubsequenceOf(Filter(p, s), s)
    decreases |s|
  {
    if |s| > 0 {
      var s' := s[..|s| - 1];
      var y := s[|s| - 1];
      assert s == s' + [y];
      FilterSubsequence(p, s');
      FilterSnoc(p, s', y);
      SubsequenceOfSnoc(Filter(p, s'), s', y);
      if p(y) {
        assert Filter(p, s) == Filter(p, s') + [y];
        assert SubsequenceOf(Filter(p, s') + [y], s' + [y]);
      } else {
        assert Filter(p, s) == Filter(p, s');
        assert SubsequenceOf(Filter(p, s'), s' + [y]);
      }
    }
  }

  /** A second pass with the same predicate removes nothing more. */
  lemma {:induction false} FilterIdempotent<T>(p: T -> bool, s: seq<T>)
    ensures Filter(p, Filter(p, s)) == Filter(p, s)
    decreases |s|
  {
    if |s| > 0 {
      var s' := s[..|s| - 1];
      var y := s[|s| - 1];
      assert s == s' + [y];
      FilterIdempotent(p, s');
      FilterSnoc(p, s', y);
      if p(y) {
        FilterSnoc(p, Filter(p, s'), y);
        assert Filter(p, s) == Filter(p, s') + [y];
        assert Filter(p, Filter(p, s') + [y]) == Filter(p, Filter(p, s')) + [y];
      } else {
        assert Filter(p, s) == Filter(p, s');
      }
    }
  }
}

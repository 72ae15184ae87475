/** Counting the elements of a sequence that satisfy a test: the shape of every
    counter loop in the queries. */
module Counting {

  /** The number of elements of `s` satisfying `p`. */
  function CountWhere<T>(s: seq<T>, p: T -> bool): (n: nat)
    ensures n <= |s|
  {
    if s == [] then 0
    else CountWhere(s[..|s| - 1], p) + (if p(s[|s| - 1]) then 1 else 0)
  }

  /** One more element of the same sequence: the count grows by one exactly when it passes. */
  lemma CountWherePrefix<T>(s: seq<T>, i: int, p: T -> bool)
    requires 0 <= i < |s|
    ensures CountWhere(s[..i + 1], p) == CountWhere(s[..i], p) + (if p(s[i]) then 1 else 0)
  {
    assert s[..i + 1][..i] == s[..i];
  }

  /** Counting distributes over concatenation. */
  lemma {:induction false} CountWhereAppend<T>(s: seq<T>, t: seq<T>, p: T -> bool)
    ensures CountWhere(s + t, p) == CountWhere(s, p) + CountWhere(t, p)
    decreases |t|
  {
    if t == [] {
      assert s + t == s;
    } else {
      var t' := t[..|t| - 1];
      assert (s + t)[..|s + t| - 1] == s + t';
      CountWhereAppend(s, t', p);
    }
  }

  /** An element that fails the test, wherever it stands, does not change the count. */
  lemma CountWhereSkip<T>(s: seq<T>, x: T, t: seq<T>, p: T -> bool)
    requires !p(x)
    ensures CountWhere(s + [x] + t, p) == CountWhere(s + t, p)
  {
    CountWhereAppend(s + [x], t, p);
    CountWhereAppend(s, [x], p);
    CountWhereAppend(s, t, p);
    assert [x][..0] == [];
  }

  /** Two tests that never hold together and both imply a third count no more than the third. */
  lemma {:induction false} CountDisjointBound<T>(s: seq<T>, p: T -> bool, q: T -> bool, r: T -> bool)
    requires forall i :: 0 <= i < |s| ==> !(p(s[i]) && q(s[i]))
    requires forall i :: 0 <= i < |s| ==> (p(s[i]) || q(s[i])) ==> r(s[i])
    ensures CountWhere(s, p) + CountWhere(s, q) <= CountWhere(s, r)
  {
    if s != [] {
      CountDisjointBound(s[..|s| - 1], p, q, r);
    }
  }

  /** Inclusion-exclusion: count(p) + count(q) == count(p or q) + count(p and q). */
  lemma {:induction false} CountInclusionExclusion<T>(s: seq<T>, p: T -> bool, q: T -> bool, either: T -> bool, both: T -> bool)
    requires forall i :: 0 <= i < |s| ==> (either(s[i]) <==> p(s[i]) || q(s[i]))
    requires forall i :: 0 <= i < |s| ==> (both(s[i]) <==> p(s[i]) && q(s[i]))
    ensures CountWhere(s, p) + CountWhere(s, q) == CountWhere(s, either) + CountWhere(s, both)
  {
    if s != [] {
      CountInclusionExclusion(s[..|s| - 1], p, q, either, both);
    }
  }
}

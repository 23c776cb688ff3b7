/**
 * Order-preserving selection from a sequence: the shape shared by the list
 * comprehension of `build_digest`, the skip loop that follows it, and the
 * paragraph filter of enrichment.
 */
module Seqs {

  /** The elements of `s` satisfying `p`, in their order in `s`, each as often as it occurs there. */
  function Filter<T(!new)>(s: seq<T>, p: T -> bool): (r: seq<T>)
    ensures |r| <= |s|
    ensures forall x :: x in r <==> x in s && p(x)
    decreases |s|
  {
    if s == [] then []
    else (if p(s[0]) then [s[0]] else []) + Filter(s[1..], p)
  }

  /** Each element is kept as often as it occurs when it passes the test, and never otherwise. */
  lemma {:induction false} FilterCount<T(!new)>(s: seq<T>, p: T -> bool)
    ensures forall x :: multiset(Filter(s, p))[x] == if p(x) then multiset(s)[x] else 0
    decreases |s|
  {
    if s != [] {
      FilterCount(s[1..], p);
      assert s == [s[0]] + s[1..];
    }
  }

  /**
   * Filtering a concatenation filters each part: together with the one-element
   * case this says the kept elements appear in their original order.
   */
  lemma {:induction false} FilterAppend<T(!new)>(x: seq<T>, y: seq<T>, p: T -> bool)
    ensures Filter(x + y, p) == Filter(x, p) + Filter(y, p)
    decreases |x|
  {
    if x == [] {
      assert x + y == y;
    } else {
      assert (x + y)[1..] == x[1..] + y;
      FilterAppend(x[1..], y, p);
    }
  }

  /** A one-element sequence is kept exactly when its element satisfies the test. */
  lemma FilterOne<T(!new)>(x: T, p: T -> bool)
    ensures Filter([x], p) == if p(x) then [x] else []
  {
    assert [x][1..] == [];
  }

  /** Two filters can be applied in either order. */
  lemma {:induction false} FilterCommutes<T(!new)>(s: seq<T>, p: T -> bool, q: T -> bool)
    ensures Filter(Filter(s, p), q) == Filter(Filter(s, q), p)
    decreases |s|
  {
    if s != [] {
      var x, rest := s[0], s[1..];
      var hp, hq := (if p(x) then [x] else []), (if q(x) then [x] else []);
      FilterCommutes(rest, p, q);
      FilterAppend(hp, Filter(rest, p), q);
      FilterAppend(hq, Filter(rest, q), p);
      FilterOne(x, p);
      FilterOne(x, q);
      assert Filter(hp, q) == Filter(hq, p) == if p(x) && q(x) then [x] else [];
    }
  }

  /** An element occurring twice has a count of at least two. */
  lemma RepeatCounts<T>(s: seq<T>, k: nat, l: nat)
    requires k < l < |s| && s[k] == s[l]
    ensures multiset(s)[s[k]] >= 2
  {
    assert s == s[..l] + s[l..];
    assert s[k] in s[..l];
    assert s[l..][0] == s[l];
  }

  /** Pairwise distinct elements are each counted at most once. */
  lemma {:induction false} DistinctCount<T>(s: seq<T>)
    requires forall k, l :: 0 <= k < l < |s| ==> s[k] != s[l]
    ensures forall x :: multiset(s)[x] <= 1
    decreases |s|
  {
    if s != [] {
      var rest := s[1..];
      DistinctCount(rest);
      assert s == [s[0]] + rest;
      assert s[0] !in rest by {
        forall j | 0 <= j < |rest| ensures rest[j] != s[0] {
          assert rest[j] == s[j + 1];
        }
      }
    }
  }

  /** Elements counted at most once sit at pairwise distinct positions. */
  lemma CountDistinct<T>(s: seq<T>)
    requires forall x :: multiset(s)[x] <= 1
    ensures forall k, l :: 0 <= k < l < |s| ==> s[k] != s[l]
  {
    forall k, l | 0 <= k < l < |s| && s[k] == s[l] ensures multiset(s)[s[k]] >= 2 {
      RepeatCounts(s, k, l);
    }
  }

  /** A sequence with no members is empty. */
  lemma NoMembersEmpty<T>(s: seq<T>)
    ensures (forall x :: x !in s) ==> s == []
  {
    if s != [] {
      assert s[0] in s;
    }
  }
}

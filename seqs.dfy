/**
 Finite-sequence counterparts of the Python iteration building blocks the
 episode pipeline is composed of: `filter`, `map`, `itertools.takewhile`,
 `itertools.islice` and the lexicographic comparison of tuples. Python's lazy,
 one-shot iterators are modelled as finite sequences.
 */
module Seqs {

  /** `r` can be obtained from `s` by deleting elements, keeping the order of the rest. */
  predicate IsSubsequence<T(==)>(r: seq<T>, s: seq<T>)
    decreases |s|
  {
    if r == [] then true
    else if s == [] then false
    else (r[0] == s[0] && IsSubsequence(r[1..], s[1..])) || IsSubsequence(r, s[1..])
  }

  /** Python's `filter(p, s)`: the elements of `s` that satisfy `p`, in their order in `s`. */
  function Filter<T>(p: T -> bool, s: seq<T>): (r: seq<T>)
    ensures |r| <= |s|
    ensures forall i :: 0 <= i < |r| ==> p(r[i])
  {
    if s == [] then []
    else if p(s[0]) then [s[0]] + Filter(p, s[1..])
    else Filter(p, s[1..])
  }

  /** Python's `map(f, s)`: `f` applied to every element, positions preserved. */
  function Map<A, B>(f: A -> B, s: seq<A>): (r: seq<B>)
    ensures |r| == |s|
    ensures forall i :: 0 <= i < |s| ==> r[i] == f(s[i])
  {
    if s == [] then [] else [f(s[0])] + Map(f, s[1..])
  }

  /**
   `itertools.takewhile(p, s)`: the longest prefix of `s` all of whose elements
   satisfy `p`; the element right after it, if any, fails `p`.
   */
  function TakeWhile<T>(p: T -> bool, s: seq<T>): (r: seq<T>)
    ensures |r| <= |s| && r == s[..|r|]
    ensures forall i :: 0 <= i < |r| ==> p(r[i])
    ensures |r| < |s| ==> !p(s[|r|])
  {
    if s == [] || !p(s[0]) then [] else [s[0]] + TakeWhile(p, s[1..])
  }

  /** The three facts `TakeWhile` promises determine its result: the prefix of length `k`. */
  lemma TakeWhileUnique<T>(p: T -> bool, s: seq<T>, k: nat)
    requires k <= |s|
    requires forall i :: 0 <= i < k ==> p(s[i])
    requires k < |s| ==> !p(s[k])
    ensures TakeWhile(p, s) == s[..k]
  {
  }

  /** `itertools.islice(s, n)`: the first `n` elements of `s`, or all of `s` when it is shorter. */
  function Islice<T>(s: seq<T>, n: nat): (r: seq<T>)
    ensures |r| == (if |s| < n then |s| else n)
    ensures r == s[..|r|]
  {
    if n == 0 || s == [] then [] else [s[0]] + Islice(s[1..], n - 1)
  }

  /**
   Python's `<` on tuples of integers: the first position where the two differ
   decides; when one is a prefix of the other, the shorter one is smaller.
   */
  predicate LexLess(a: seq<int>, b: seq<int>): (r: bool)
    ensures r ==> b != []
    ensures a == b ==> !r
  {
    if b == [] then false
    else if a == [] then true
    else if a[0] != b[0] then a[0] < b[0]
    else LexLess(a[1..], b[1..])
  }

  /** An element is kept by `Filter(p, s)` exactly when it occurs in `s` and satisfies `p`. */
  lemma {:induction false} FilterMembers<T(!new)>(p: T -> bool, s: seq<T>)
    ensures forall x :: x in Filter(p, s) <==> x in s && p(x)
  {
    if s != [] {
      FilterMembers(p, s[1..]);
      assert forall x :: x in s <==> x == s[0] || x in s[1..];
    }
  }

  /** Nothing survives a filter that no element passes. */
  lemma {:induction false} FilterNone<T>(p: T -> bool, s: seq<T>)
    requires forall i :: 0 <= i < |s| ==> !p(s[i])
    ensures Filter(p, s) == []
  {
    if s != [] {
      FilterNone(p, s[1..]);
    }
  }

  lemma {:induction false} FilterConcat<T>(p: T -> bool, a: seq<T>, b: seq<T>)
    ensures Filter(p, a + b) == Filter(p, a) + Filter(p, b)
  {
    if a == [] {
      assert a + b == b;
    } else {
      assert (a + b)[0] == a[0];
      assert (a + b)[1..] == a[1..] + b;
      FilterConcat(p, a[1..], b);
    }
  }

  lemma {:induction false} FilterIsSubsequence<T>(p: T -> bool, s: seq<T>)
    ensures IsSubsequence(Filter(p, s), s)
  {
    if s != [] {
      FilterIsSubsequence(p, s[1..]);
      var r := Filter(p, s[1..]);
      if p(s[0]) {
        assert ([s[0]] + r)[1..] == r;
      } else if r != [] {
        SubsequenceDropFirst(r, s);
      }
    }
  }

  /** A subsequence of the tail is a subsequence of the whole. */
  lemma SubsequenceDropFirst<T>(r: seq<T>, s: seq<T>)
    requires s != [] && IsSubsequence(r, s[1..])
    ensures IsSubsequence(r, s)
  {
  }

  /** A subsequence of `s` whose elements all satisfy `p` is no longer than `Filter(p, s)`. */
  lemma {:induction false} SubsequenceBound<T>(p: T -> bool, r: seq<T>, s: seq<T>)
    requires IsSubsequence(r, s)
    requires forall i :: 0 <= i < |r| ==> p(r[i])
    ensures |r| <= |Filter(p, s)|
    decreases |s|
  {
    if r != [] {
      assert s != [];
      if IsSubsequence(r, s[1..]) {
        SubsequenceBound(p, r, s[1..]);
      } else {
        assert r[0] == s[0] && IsSubsequence(r[1..], s[1..]);
        assert p(r[0]);
        SubsequenceBound(p, r[1..], s[1..]);
      }
    }
  }

  /**
   `Filter(p, s)` is the only subsequence of `s` keeping every element that
   satisfies `p` and no other: any subsequence of such elements that is at
   least as long equals it.
   */
  lemma {:induction false} FilterUnique<T>(p: T -> bool, r: seq<T>, s: seq<T>)
    requires IsSubsequence(r, s)
    requires forall i :: 0 <= i < |r| ==> p(r[i])
    requires |Filter(p, s)| <= |r|
    ensures r == Filter(p, s)
    decreases |s|
  {
    if s == [] {
    } else if !p(s[0]) {
      if r != [] {
        FilterUnique(p, r, s[1..]);
      }
    } else {
      assert r != [];
      if IsSubsequence(r, s[1..]) {
        SubsequenceBound(p, r, s[1..]);
        assert false;
      }
      assert r[0] == s[0] && IsSubsequence(r[1..], s[1..]);
      FilterUnique(p, r[1..], s[1..]);
      assert r == [r[0]] + r[1..];
    }
  }

  lemma {:induction false} FilterIdempotent<T>(p: T -> bool, s: seq<T>)
    ensures Filter(p, Filter(p, s)) == Filter(p, s)
  {
    if s != [] {
      FilterIdempotent(p, s[1..]);
      if p(s[0]) {
        assert ([s[0]] + Filter(p, s[1..]))[1..] == Filter(p, s[1..]);
      }
    }
  }

  /** Filtering depends only on what the predicate says about the elements present. */
  lemma {:induction false} FilterCongruent<T>(p: T -> bool, q: T -> bool, s: seq<T>)
    requires forall i :: 0 <= i < |s| ==> p(s[i]) == q(s[i])
    ensures Filter(p, s) == Filter(q, s)
  {
    if s != [] {
      FilterCongruent(p, q, s[1..]);
    }
  }

  lemma {:induction false} MapConcat<A, B>(f: A -> B, a: seq<A>, b: seq<A>)
    ensures Map(f, a + b) == Map(f, a) + Map(f, b)
  {
    if a == [] {
      assert a + b == b;
    } else {
      assert (a + b)[1..] == a[1..] + b;
      MapConcat(f, a[1..], b);
    }
  }

  /** Filtering after a map is mapping after filtering with the composed predicate. */
  lemma {:induction false} FilterMap<A, B>(q: B -> bool, f: A -> B, s: seq<A>)
    ensures Filter(q, Map(f, s)) == Map(f, Filter((x: A) => q(f(x)), s))
  {
    if s != [] {
      var m := Map(f, s);
      assert m[1..] == Map(f, s[1..]);
      FilterMap(q, f, s[1..]);
    }
  }
}

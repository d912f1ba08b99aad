/**
 Order-preserving selection from a sequence: the meaning of `Array.prototype.filter`
 and of a loop that pushes the elements it keeps onto an initially empty array.
 */
module Sequences {

  /** The elements of `s` that satisfy `p`, in their original order. */
  function Keep<T>(s: seq<T>, p: T -> bool): (r: seq<T>)
    ensures |r| <= |s|
  {
    if s == [] then [] else (if p(s[0]) then [s[0]] else []) + Keep(s[1..], p)
  }

  /** The number of elements of `s` that satisfy `p`. */
  function Count<T>(s: seq<T>, p: T -> bool): (n: nat)
    ensures n <= |s|
  {
    if s == [] then 0 else (if p(s[0]) then 1 else 0) + Count(s[1..], p)
  }

  /** `a` is obtained from `b` by deleting elements (an order-preserving embedding). */
  predicate IsSubsequence<T(==)>(a: seq<T>, b: seq<T>)
    decreases |b|
  {
    if a == [] then true
    else if b == [] then false
    else (a[0] == b[0] && IsSubsequence(a[1..], b[1..])) || IsSubsequence(a, b[1..])
  }

  /** Every element of `a` satisfies `p`. */
  predicate All<T>(a: seq<T>, p: T -> bool) {
    forall k :: 0 <= k < |a| ==> p(a[k])
  }

  /** Keeping the elements of a sequence extended at the end extends the kept part at the end. */
  lemma {:induction false} KeepAppend<T>(s: seq<T>, x: T, p: T -> bool)
    ensures Keep(s + [x], p) == Keep(s, p) + (if p(x) then [x] else [])
  {
    if s == [] {
      assert [] + [x] == [x];
      assert Keep([x], p) == (if p(x) then [x] else []) + Keep([x][1..], p);
      assert [x][1..] == [];
    } else {
      var t := s + [x];
      assert t[0] == s[0];
      assert t[1..] == s[1..] + [x];
      var head := if p(s[0]) then [s[0]] else [];
      assert Keep(t, p) == head + Keep(s[1..] + [x], p);
      KeepAppend(s[1..], x, p);
      assert Keep(s, p) == head + Keep(s[1..], p);
    }
  }

  /** A prefix one element longer is the shorter prefix extended by that element. */
  lemma PrefixExtend<T>(s: seq<T>, i: nat)
    requires i < |s|
    ensures s[..i + 1] == s[..i] + [s[i]]
  {
  }

  /**
   `Keep(s, p)` is a subsequence of `s`, holds only elements satisfying `p`,
   and is exactly as long as the number of elements of `s` that satisfy `p`.
   */
  lemma {:induction false} KeepSelects<T>(s: seq<T>, p: T -> bool)
    ensures IsSubsequence(Keep(s, p), s)
    ensures All(Keep(s, p), p)
    ensures |Keep(s, p)| == Count(s, p)
  {
    if s != [] {
      KeepSelects(s[1..], p);
      var rest := Keep(s[1..], p);
      if p(s[0]) {
        assert Keep(s, p) == [s[0]] + rest;
        assert ([s[0]] + rest)[1..] == rest;
      } else {
        assert Keep(s, p) == rest;
        SubsequenceOfTail(rest, s);
      }
    }
  }

  /** A subsequence of the tail of `b` is a subsequence of `b`. */
  lemma SubsequenceOfTail<T>(a: seq<T>, b: seq<T>)
    requires b != [] && IsSubsequence(a, b[1..])
    ensures IsSubsequence(a, b)
  {
  }

  /** A subsequence whose elements all satisfy `p` is no longer than the count of `p` in `b`. */
  lemma {:induction false} SelectionBound<T>(a: seq<T>, b: seq<T>, p: T -> bool)
    requires IsSubsequence(a, b) && All(a, p)
    ensures |a| <= Count(b, p)
    decreases |b|
  {
    if a != [] {
      assert b != [];
      if a[0] == b[0] && IsSubsequence(a[1..], b[1..]) {
        assert All(a[1..], p) by {
          forall k | 0 <= k < |a[1..]| ensures p(a[1..][k]) { assert a[1..][k] == a[k + 1]; }
        }
        assert p(b[0]) by { assert p(a[0]); }
        SelectionBound(a[1..], b[1..], p);
      } else {
        SelectionBound(a, b[1..], p);
      }
    }
  }

  /**
   The three properties of `KeepSelects` determine the result: any subsequence of `b`
   made only of elements satisfying `p` and as long as their count is `Keep(b, p)`.
   */
  lemma {:induction false} SelectionUnique<T>(a: seq<T>, b: seq<T>, p: T -> bool)
    requires IsSubsequence(a, b) && All(a, p) && |a| == Count(b, p)
    ensures a == Keep(b, p)
    decreases |b|
  {
    if a == [] {
      KeepSelects(b, p);
    } else {
      assert b != [];
      assert All(a[1..], p) by {
        forall k | 0 <= k < |a[1..]| ensures p(a[1..][k]) { assert a[1..][k] == a[k + 1]; }
      }
      if a[0] == b[0] && IsSubsequence(a[1..], b[1..]) {
        assert p(b[0]) by { assert p(a[0]); }
        SelectionUnique(a[1..], b[1..], p);
        assert a == [a[0]] + a[1..];
      } else {
        assert IsSubsequence(a, b[1..]);
        SelectionBound(a, b[1..], p);
        if p(b[0]) {
          assert false;
        }
        SelectionUnique(a, b[1..], p);
      }
    }
  }

  /** An element is kept exactly when it occurs in `s` and satisfies `p`. */
  lemma {:induction false} KeepMembership<T>(s: seq<T>, p: T -> bool, x: T)
    ensures x in Keep(s, p) <==> x in s && p(x)
  {
    if s != [] {
      KeepMembership(s[1..], p, x);
      assert x in s <==> x == s[0] || x in s[1..];
    }
  }

  /**
   `a` holds, in their order in `b`, exactly the elements of `b` that satisfy `p`:
   an order-preserving subsequence of them, one per element of `b` satisfying `p`.
   */
  ghost predicate SelectsExactly<T>(a: seq<T>, b: seq<T>, p: T -> bool) {
    && IsSubsequence(a, b)
    && All(a, p)
    && |a| == Count(b, p)
    && (forall k :: 0 <= k < |b| && p(b[k]) ==> b[k] in a)
  }

  /** `Keep(s, p)` selects exactly the elements of `s` that satisfy `p`. */
  lemma KeepSelectsExactly<T>(s: seq<T>, p: T -> bool)
    ensures SelectsExactly(Keep(s, p), s, p)
  {
    KeepSelects(s, p);
    forall k | 0 <= k < |s| && p(s[k]) ensures s[k] in Keep(s, p) {
      KeepMembership(s, p, s[k]);
    }
  }
}

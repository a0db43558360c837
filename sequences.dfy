/** Sequence helpers: JavaScript's `Array.prototype.indexOf`, and order-preserving
    subsequences described by a keep-mask. */
module Sequences {

  /** `s.indexOf(x)`: the first index holding `x`, or -1 when there is none. */
  function IndexOf<T(==)>(s: seq<T>, x: T): (i: int)
    ensures -1 <= i < |s|
    ensures i == -1 <==> x !in s
    ensures 0 <= i ==> s[i] == x && forall k :: 0 <= k < i ==> s[k] != x
  {
    if s == [] then -1
    else if s[0] == x then 0
    else
      var j := IndexOf(s[1..], x);
      if j == -1 then -1 else j + 1
  }

  /** `s` begins with `p`. */
  predicate StartsWith<T(==)>(s: seq<T>, p: seq<T>) {
    |p| <= |s| && s[..|p|] == p
  }

  /** `s` ends with `p`. */
  predicate EndsWith<T(==)>(s: seq<T>, p: seq<T>) {
    |p| <= |s| && s[|s| - |p|..] == p
  }

  /** The elements of `b` whose mask entry is true, in their order in `b`. */
  function Select<T>(b: seq<T>, keep: seq<bool>): seq<T>
    requires |keep| == |b|
  {
    if b == [] then []
    else
      var rest := Select(b[..|b| - 1], keep[..|keep| - 1]);
      if keep[|keep| - 1] then rest + [b[|b| - 1]] else rest
  }

  /** `a` is obtained from `b` by dropping elements, keeping the order of the rest. */
  ghost predicate IsSubsequence<T>(a: seq<T>, b: seq<T>) {
    exists keep: seq<bool> :: |keep| == |b| && a == Select(b, keep)
  }

  /** The mask that keeps everything. */
  function AllKept(n: nat): (keep: seq<bool>)
    ensures |keep| == n
  {
    seq(n, _ => true)
  }

  lemma {:induction false} SelectAll<T>(b: seq<T>)
    ensures Select(b, AllKept(|b|)) == b
  {
    if b != [] {
      assert AllKept(|b|)[..|b| - 1] == AllKept(|b| - 1);
      SelectAll(b[..|b| - 1]);
      assert b[..|b| - 1] + [b[|b| - 1]] == b;
    }
  }

  lemma {:induction false} SelectConcat<T>(p: seq<T>, q: seq<T>, kp: seq<bool>, kq: seq<bool>)
    requires |kp| == |p| && |kq| == |q|
    ensures Select(p + q, kp + kq) == Select(p, kp) + Select(q, kq)
    decreases |q|
  {
    if q == [] {
      assert p + q == p && kp + kq == kp;
    } else {
      var q', kq' := q[..|q| - 1], kq[..|kq| - 1];
      assert (p + q)[..|p + q| - 1] == p + q';
      assert (kp + kq)[..|kp + kq| - 1] == kp + kq';
      SelectConcat(p, q', kp, kq');
    }
  }

  lemma {:induction false} SelectLength<T>(b: seq<T>, keep: seq<bool>)
    requires |keep| == |b|
    ensures |Select(b, keep)| <= |b|
  {
    if b != [] {
      SelectLength(b[..|b| - 1], keep[..|keep| - 1]);
    }
  }

  /** Every element of a subsequence is an element of the whole. */
  lemma {:induction false} SelectElements<T>(b: seq<T>, keep: seq<bool>, x: T)
    requires |keep| == |b|
    requires x in Select(b, keep)
    ensures x in b
  {
    if b != [] {
      var rest := Select(b[..|b| - 1], keep[..|keep| - 1]);
      if x in rest {
        SelectElements(b[..|b| - 1], keep[..|keep| - 1], x);
      }
    }
  }

  lemma SubsequenceElements<T>(a: seq<T>, b: seq<T>)
    requires IsSubsequence(a, b)
    ensures |a| <= |b|
    ensures forall x :: x in a ==> x in b
  {
    var keep :| |keep| == |b| && a == Select(b, keep);
    SelectLength(b, keep);
    forall x | x in a ensures x in b {
      SelectElements(b, keep, x);
    }
  }
}

/** Facts about sequences shared by the filters, the de-duplication, the grouping and the splitting into words. */
module Sequences {

  /** `xs` is `ys` with some elements left out, the rest in their original order. */
  predicate IsSubsequence<T(==)>(xs: seq<T>, ys: seq<T>)
    decreases |ys|
  {
    if xs == [] then true
    else if ys == [] then false
    else (xs[|xs| - 1] == ys[|ys| - 1] && IsSubsequence(xs[..|xs| - 1], ys[..|ys| - 1]))
         || IsSubsequence(xs, ys[..|ys| - 1])
  }

  /** Appending an element to the whole keeps a subsequence a subsequence. */
  lemma SubsequenceExtend<T>(xs: seq<T>, ys: seq<T>, y: T)
    requires IsSubsequence(xs, ys)
    ensures IsSubsequence(xs, ys + [y])
  {
    if xs != [] {
      assert (ys + [y])[..|ys|] == ys;
    }
  }

  /** A sequence is its first `n` elements followed by the rest. */
  lemma Split<T>(s: seq<T>, n: nat)
    requires n <= |s|
    ensures s == s[..n] + s[n..]
  {
  }

  /** Dropping `n` elements from `u + v`, with `n` at most `|u|`, drops them from `u`. */
  lemma DropAppend<T>(u: seq<T>, v: seq<T>, n: nat)
    requires n <= |u|
    ensures (u + v)[n..] == u[n..] + v
  {
  }

  /** Dropping past the end of `u` from `u + v` drops the rest from `v`. */
  lemma DropPast<T>(u: seq<T>, v: seq<T>, n: nat)
    requires |u| <= n <= |u| + |v|
    ensures (u + v)[n..] == v[n - |u|..]
  {
  }

  /** A non-empty sequence is its first element followed by its tail. */
  lemma HeadTail<T>(s: seq<T>)
    requires s != []
    ensures s == [s[0]] + s[1..]
  {
  }

  /** Concatenation is associative. */
  lemma AppendAssoc<T>(a: seq<T>, b: seq<T>, c: seq<T>)
    ensures (a + b) + c == a + (b + c)
  {
  }
}

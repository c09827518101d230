/**
 * Small facts about sequences, stated on plain variables so that the
 * encoders' proofs can regroup concatenations without unfolding the
 * functions that built their parts.
 */
module Sequences {
  /** Regrouping a concatenation of four parts. */
  lemma Regroup<T>(a: seq<T>, b: seq<T>, c: seq<T>, d: seq<T>)
    ensures a + (b + c + d) == (a + b) + c + d
    ensures a + b + (c + d) == a + b + c + d
    ensures a + b + c + d == a + (b + (c + d))
  {
  }

  /** `a` is `h` before `b`, and `b` is `m`, `c`, `t`; so `a` is `h + m` followed by `c` and `t`. */
  lemma PrependStep<T>(a: seq<T>, b: seq<T>, h: seq<T>, m: seq<T>, c: seq<T>, t: seq<T>)
    requires a == h + b && b == m + c + t
    ensures a == (h + m) + c + t
  {
  }

  /** Appending after a non-empty sequence keeps its head and appends to its tail. */
  lemma DropSnoc<T>(s: seq<T>, x: T)
    requires s != []
    ensures (s + [x])[0] == s[0] && (s + [x])[1..] == s[1..] + [x]
  {
  }

  /** Associativity of concatenation. */
  lemma Assoc<T>(a: seq<T>, b: seq<T>, c: seq<T>)
    ensures a + b + c == a + (b + c)
  {
  }

  /** Some element of a non-empty sequence satisfies `p` exactly when some element before the last one does, or the last one does. */
  lemma ExistsInSnoc<T>(s: seq<T>, init: seq<T>, p: T -> bool)
    requires s != [] && init == s[..|s| - 1]
    ensures (exists i :: 0 <= i < |s| && p(s[i])) <==> (exists i :: 0 <= i < |init| && p(init[i])) || p(s[|s| - 1])
  {
    if exists i :: 0 <= i < |s| && p(s[i]) {
      var i :| 0 <= i < |s| && p(s[i]);
      if i < |init| {
        assert init[i] == s[i];
      }
    }
    if exists i :: 0 <= i < |init| && p(init[i]) {
      var i :| 0 <= i < |init| && p(init[i]);
      assert s[i] == init[i];
    }
  }

  /** A prefix of a concatenation that lies inside its first part. */
  lemma PrefixOfConcat<T>(a: seq<T>, b: seq<T>, n: nat)
    requires n <= |a|
    ensures (a + b)[..n] == a[..n]
  {
  }

  /** The tail of a concatenation is its second part. */
  lemma SuffixOfConcat<T>(a: seq<T>, b: seq<T>)
    ensures |a + b| >= |b| && (a + b)[|a + b| - |b|..] == b
  {
  }

  /** A prefix one longer is the shorter prefix followed by the next element. */
  lemma TakeSnoc<T>(s: seq<T>, i: nat)
    requires i < |s|
    ensures s[..i + 1] == s[..i] + [s[i]]
  {
  }

  /** Appending after a non-empty sequence keeps its head in front. */
  lemma ConsSnoc<T>(s: seq<T>, x: T)
    requires s != []
    ensures s + [x] == [s[0]] + (s[1..] + [x])
  {
  }

  /** Moving the first two parts of a concatenation to its end keeps its multiset. */
  lemma SwapHalves<T>(p: seq<T>, q: seq<T>, r: seq<T>, t: seq<T>)
    ensures multiset(p + q + r + t) == multiset(r + t + p + q)
  {
    assert p + q + r + t == (p + q) + (r + t);
    assert r + t + p + q == (r + t) + (p + q);
  }

  /** The three parts of a concatenation are found again at their offsets. */
  lemma Frame3<T>(a: seq<T>, b: seq<T>, c: seq<T>)
    ensures |a + b + c| == |a| + |b| + |c|
    ensures (a + b + c)[..|a|] == a
    ensures (a + b + c)[|a|..|a| + |b|] == b
    ensures (a + b + c)[|a| + |b|..] == c
  {
  }
}

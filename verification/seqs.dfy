/** Order-preserving filtering and subsequences, the vocabulary of every row selection. */
module Seqs {

  /** The elements of `xs` that satisfy `p`, in their original order. */
  function Where<T>(xs: seq<T>, p: T -> bool): (r: seq<T>)
    ensures |r| <= |xs|
    ensures forall i :: 0 <= i < |r| ==> p(r[i])
  {
    if xs == [] then []
    else (if p(xs[0]) then [xs[0]] else []) + Where(xs[1..], p)
  }

  /** `idx` places each element of `a` at a strictly later position of `b`. */
  ghost predicate Embeds<T>(idx: seq<nat>, a: seq<T>, b: seq<T>)
  {
    && |idx| == |a|
    && (forall i :: 0 <= i < |idx| ==> idx[i] < |b| && a[i] == b[idx[i]])
    && (forall i, j :: 0 <= i < j < |idx| ==> idx[i] < idx[j])
  }

  /** `a` is `b` with some elements dropped and the rest kept in order. */
  ghost predicate IsSubseq<T>(a: seq<T>, b: seq<T>)
  {
    exists idx: seq<nat> :: Embeds(idx, a, b)
  }

  /** Membership in a filtered sequence: exactly the members that pass the test. */
  lemma {:induction false} WhereMembers<T>(xs: seq<T>, p: T -> bool, x: T)
    ensures x in Where(xs, p) <==> x in xs && p(x)
  {
    if xs != [] {
      WhereMembers(xs[1..], p, x);
      assert xs == [xs[0]] + xs[1..];
    }
  }

  lemma {:induction false} WhereAppend<T>(xs: seq<T>, ys: seq<T>, p: T -> bool)
    ensures Where(xs + ys, p) == Where(xs, p) + Where(ys, p)
  {
    if xs == [] {
      assert xs + ys == ys;
    } else {
      assert (xs + ys)[1..] == xs[1..] + ys;
      WhereAppend(xs[1..], ys, p);
    }
  }

  /** Filtering by a test that holds for every element changes nothing. */
  lemma {:induction false} WhereAll<T>(xs: seq<T>, p: T -> bool)
    requires forall i :: 0 <= i < |xs| ==> p(xs[i])
    ensures Where(xs, p) == xs
  {
    if xs != [] {
      WhereAll(xs[1..], p);
    }
  }

  /** Filtering by a test that no element passes leaves nothing. */
  lemma {:induction false} WhereNone<T>(xs: seq<T>, p: T -> bool)
    requires forall i :: 0 <= i < |xs| ==> !p(xs[i])
    ensures Where(xs, p) == []
  {
    if xs != [] {
      WhereNone(xs[1..], p);
    }
  }

  /** Filtering a concatenation whose left part passes and whose right part fails leaves the left part. */
  lemma WhereLeft<T>(xs: seq<T>, ys: seq<T>, p: T -> bool)
    requires forall i :: 0 <= i < |xs| ==> p(xs[i])
    requires forall i :: 0 <= i < |ys| ==> !p(ys[i])
    ensures Where(xs + ys, p) == xs
  {
    WhereAppend(xs, ys, p);
    WhereAll(xs, p);
    WhereNone(ys, p);
    assert xs + [] == xs;
  }

  /** Filtering a concatenation whose left part fails and whose right part passes leaves the right part. */
  lemma WhereRight<T>(xs: seq<T>, ys: seq<T>, p: T -> bool)
    requires forall i :: 0 <= i < |xs| ==> !p(xs[i])
    requires forall i :: 0 <= i < |ys| ==> p(ys[i])
    ensures Where(xs + ys, p) == ys
  {
    WhereAppend(xs, ys, p);
    WhereNone(xs, p);
    WhereAll(ys, p);
    assert [] + ys == ys;
  }

  /** Two tests that agree on every element select the same elements. */
  lemma {:induction false} WhereCongruent<T>(xs: seq<T>, p: T -> bool, q: T -> bool)
    requires forall i :: 0 <= i < |xs| ==> p(xs[i]) == q(xs[i])
    ensures Where(xs, p) == Where(xs, q)
  {
    if xs != [] {
      WhereCongruent(xs[1..], p, q);
    }
  }

  /** Filtering twice is filtering once by the conjunction `r` of the two tests. */
  lemma {:induction false} WhereFusion<T>(xs: seq<T>, p: T -> bool, q: T -> bool, r: T -> bool)
    requires forall i :: 0 <= i < |xs| ==> r(xs[i]) == (p(xs[i]) && q(xs[i]))
    ensures Where(Where(xs, p), q) == Where(xs, r)
  {
    if xs != [] {
      assert forall i :: 1 <= i < |xs| ==> xs[1..][i - 1] == xs[i];
      WhereFusion(xs[1..], p, q, r);
      var head := if p(xs[0]) then [xs[0]] else [];
      WhereAppend(head, Where(xs[1..], p), q);
      if p(xs[0]) {
        assert Where(head, q) == (if q(xs[0]) then [xs[0]] else []) + Where(head[1..], q);
        assert head[1..] == [];
      }
    }
  }

  /** An embedding into `b` shifts to one into `[x] + b`, and extends to `x` itself at the front. */
  lemma EmbedsCons<T>(idx: seq<nat>, a: seq<T>, b: seq<T>, x: T) returns (shifted: seq<nat>)
    requires Embeds(idx, a, b)
    ensures Embeds(shifted, a, [x] + b)
    ensures Embeds([0] + shifted, [x] + a, [x] + b)
  {
    shifted := seq(|idx|, i requires 0 <= i < |idx| => idx[i] + 1);
  }

  /** A filtered sequence is a subsequence of its source; `idx` says where each kept element came from. */
  lemma {:induction false} WhereEmbeds<T>(xs: seq<T>, p: T -> bool) returns (idx: seq<nat>)
    ensures Embeds(idx, Where(xs, p), xs)
  {
    if xs == [] {
      idx := [];
    } else {
      var rest := WhereEmbeds(xs[1..], p);
      var shifted := EmbedsCons(rest, Where(xs[1..], p), xs[1..], xs[0]);
      assert [xs[0]] + xs[1..] == xs;
      if p(xs[0]) {
        assert Where(xs, p) == [xs[0]] + Where(xs[1..], p);
        idx := [0] + shifted;
      } else {
        assert Where(xs, p) == Where(xs[1..], p);
        idx := shifted;
      }
    }
  }

  lemma WhereIsSubseq<T>(xs: seq<T>, p: T -> bool)
    ensures IsSubseq(Where(xs, p), xs)
  {
    var idx := WhereEmbeds(xs, p);
  }

  /** Embeddings compose: a subsequence of a subsequence is a subsequence. */
  lemma EmbedsTrans<T>(i1: seq<nat>, a: seq<T>, i2: seq<nat>, b: seq<T>, c: seq<T>) returns (idx: seq<nat>)
    requires Embeds(i1, a, b) && Embeds(i2, b, c)
    ensures Embeds(idx, a, c)
  {
    idx := seq(|i1|, i requires 0 <= i < |i1| => i2[i1[i]]);
  }

  /** A property of the head and of the first `k` elements of the tail holds on the first `k + 1` elements. */
  lemma PrefixCons<T>(xs: seq<T>, p: T -> bool, k: nat)
    requires k < |xs| && p(xs[0])
    requires forall j :: 0 <= j < k ==> p(xs[1..][j])
    ensures forall j :: 0 <= j <= k ==> p(xs[j])
  {
    forall j | 0 < j <= k
      ensures p(xs[j])
    {
      assert xs[j] == xs[1..][j - 1];
    }
  }

  /** A property holds everywhere on a non-empty sequence exactly when it holds on the head and everywhere on the tail. */
  lemma AllCons<T>(xs: seq<T>, p: T -> bool)
    requires |xs| > 0
    ensures (forall j :: 0 <= j < |xs| ==> p(xs[j])) <==> p(xs[0]) && (forall j :: 0 <= j < |xs| - 1 ==> p(xs[1..][j]))
  {
    if p(xs[0]) && (forall j :: 0 <= j < |xs| - 1 ==> p(xs[1..][j])) {
      forall j | 0 < j < |xs|
        ensures p(xs[j])
      {
        assert xs[j] == xs[1..][j - 1];
      }
    }
  }

  /** Two sequences with the same members satisfy a property everywhere together. */
  lemma SameMembersAll<T>(xs: seq<T>, ys: seq<T>, p: T -> bool)
    requires forall e :: e in xs <==> e in ys
    ensures (forall j :: 0 <= j < |xs| ==> p(xs[j])) <==> (forall j :: 0 <= j < |ys| ==> p(ys[j]))
  {
    if forall j :: 0 <= j < |xs| ==> p(xs[j]) {
      forall j | 0 <= j < |ys|
        ensures p(ys[j])
      {
        assert ys[j] in xs;
      }
    }
    if forall j :: 0 <= j < |ys| ==> p(ys[j]) {
      forall j | 0 <= j < |xs|
        ensures p(xs[j])
      {
        assert xs[j] in ys;
      }
    }
  }

  /** Applying `f` to every element. */
  function Map<T, U>(xs: seq<T>, f: T -> U): (r: seq<U>)
    ensures |r| == |xs|
    ensures forall i :: 0 <= i < |xs| ==> r[i] == f(xs[i])
  {
    seq(|xs|, i requires 0 <= i < |xs| => f(xs[i]))
  }

  /** An embedding survives mapping both sequences through the same function. */
  lemma EmbedsMap<T, U>(idx: seq<nat>, a: seq<T>, b: seq<T>, f: T -> U)
    requires Embeds(idx, a, b)
    ensures Embeds(idx, Map(a, f), Map(b, f))
  {
  }
}

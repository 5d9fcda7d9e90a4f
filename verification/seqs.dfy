/**
 Sequence operations shared by the views: JavaScript's `Array.prototype.filter`
 and the `[...new Set(xs)]` idiom that removes repeated values.
 */
module Seqs {

  /**
   `idx` picks out `r` inside `s`: strictly increasing positions of `s`
   holding the elements of `r` in turn.
   */
  ghost predicate IsEmbedding<T>(idx: seq<nat>, r: seq<T>, s: seq<T>) {
    && |idx| == |r|
    && (forall i :: 0 <= i < |idx| ==> idx[i] < |s| && r[i] == s[idx[i]])
    && (forall i, j :: 0 <= i < j < |idx| ==> idx[i] < idx[j])
  }

  /** `r` is `s` with some elements left out and the rest in their original order. */
  ghost predicate IsSubsequence<T>(r: seq<T>, s: seq<T>) {
    exists idx: seq<nat> :: IsEmbedding(idx, r, s)
  }

  /** An embedding still works after appending to the larger sequence. */
  lemma EmbeddingSkip<T>(idx: seq<nat>, r: seq<T>, s: seq<T>, x: T)
    requires IsEmbedding(idx, r, s)
    ensures IsEmbedding(idx, r, s + [x])
  {
    assert forall i :: 0 <= i < |idx| ==> (s + [x])[idx[i]] == s[idx[i]];
  }

  /** An embedding extends by matching a new last element with a new last position. */
  lemma EmbeddingTake<T>(idx: seq<nat>, r: seq<T>, s: seq<T>, x: T)
    requires IsEmbedding(idx, r, s)
    ensures IsEmbedding(idx + [|s|], r + [x], s + [x])
  {
    assert forall i :: 0 <= i < |idx| ==> (s + [x])[idx[i]] == s[idx[i]];
  }

  /** A witness embedding establishes the subsequence relation. */
  lemma EmbeddingIsSubsequence<T>(idx: seq<nat>, r: seq<T>, s: seq<T>)
    requires IsEmbedding(idx, r, s)
    ensures IsSubsequence(r, s)
  {
  }

  /** Every position moved `d` places to the right. */
  function Shift(idx: seq<nat>, d: nat): (r: seq<nat>)
    ensures |r| == |idx| && forall i :: 0 <= i < |idx| ==> r[i] == idx[i] + d
  {
    seq(|idx|, i requires 0 <= i < |idx| => idx[i] + d)
  }

  /** An embedding into a suffix is an embedding into the whole, shifted by the cut. */
  lemma EmbeddingInSuffix<T>(idx: seq<nat>, r: seq<T>, s: seq<T>, d: nat)
    requires d <= |s| && IsEmbedding(idx, r, s[d..])
    ensures IsEmbedding(Shift(idx, d), r, s)
  {
  }

  /** Keeping the first element in front of an embedding into the tail. */
  lemma EmbeddingCons<T>(idx: seq<nat>, r: seq<T>, s: seq<T>)
    requires |s| > 0 && IsEmbedding(idx, r, s[1..])
    ensures IsEmbedding([0] + Shift(idx, 1), [s[0]] + r, s)
  {
    var idx' := [0] + Shift(idx, 1);
    assert forall i :: 1 <= i < |idx'| ==> idx'[i] == idx[i - 1] + 1;
  }

  /** A slice sits in the sequence at consecutive positions. */
  lemma SliceEmbedding<T>(s: seq<T>, lo: nat, hi: nat) returns (idx: seq<nat>)
    requires lo <= hi <= |s|
    ensures IsEmbedding(idx, s[lo..hi], s)
  {
    idx := seq(hi - lo, i requires 0 <= i < hi - lo => lo + i);
  }

  /** Embeddings compose: a subsequence of a subsequence is a subsequence. */
  lemma EmbeddingCompose<T>(inner: seq<nat>, r: seq<T>, m: seq<T>, outer: seq<nat>, s: seq<T>) returns (idx: seq<nat>)
    requires IsEmbedding(inner, r, m) && IsEmbedding(outer, m, s)
    ensures IsEmbedding(idx, r, s)
  {
    idx := seq(|inner|, i requires 0 <= i < |inner| => outer[inner[i]]);
    forall i, j | 0 <= i < j < |idx|
      ensures idx[i] < idx[j]
    {
      assert inner[i] < inner[j];
    }
  }

  /** Keeps the elements satisfying `p`, in their original order. */
  function Filter<T>(s: seq<T>, p: T -> bool): (r: seq<T>)
    ensures |r| <= |s|
    ensures forall i :: 0 <= i < |r| ==> r[i] in s && p(r[i])
    ensures forall i :: 0 <= i < |s| && p(s[i]) ==> s[i] in r
    decreases |s|
  {
    if |s| == 0 then []
    else
      var init := s[..|s| - 1];
      assert s == init + [s[|s| - 1]];
      Filter(init, p) + (if p(s[|s| - 1]) then [s[|s| - 1]] else [])
  }

  /** The positions of `s` that `Filter` keeps: the result is a subsequence of the input. */
  lemma {:induction false} FilterEmbedding<T>(s: seq<T>, p: T -> bool) returns (idx: seq<nat>)
    ensures IsEmbedding(idx, Filter(s, p), s)
    ensures IsSubsequence(Filter(s, p), s)
    decreases |s|
  {
    if |s| == 0 {
      idx := [];
    } else {
      var init := s[..|s| - 1];
      var last := s[|s| - 1];
      assert s == init + [last];
      var before := FilterEmbedding(init, p);
      if p(last) {
        EmbeddingTake(before, Filter(init, p), init, last);
        idx := before + [|init|];
      } else {
        EmbeddingSkip(before, Filter(init, p), init, last);
        idx := before;
      }
    }
    EmbeddingIsSubsequence(idx, Filter(s, p), s);
  }

  /** Filtering keeps every copy of an element that passes and no copy of one that does not. */
  lemma {:induction false} FilterMultiset<T>(s: seq<T>, p: T -> bool)
    ensures forall x :: multiset(Filter(s, p))[x] == if p(x) then multiset(s)[x] else 0
    decreases |s|
  {
    if |s| > 0 {
      var init := s[..|s| - 1];
      var last := s[|s| - 1];
      FilterMultiset(init, p);
      assert s == init + [last];
      assert multiset(s) == multiset(init) + multiset{last};
    }
  }

  /**
   `r` is what filtering `s` by `p` must give: a subsequence of `s` holding
   every copy of each element that satisfies `p` and no other element.
   */
  ghost predicate KeepsExactly<T(!new)>(r: seq<T>, s: seq<T>, p: T -> bool) {
    && IsSubsequence(r, s)
    && (forall x :: multiset(r)[x] == if p(x) then multiset(s)[x] else 0)
  }

  /** `Filter` meets its description. */
  lemma FilterKeepsExactly<T(!new)>(s: seq<T>, p: T -> bool)
    ensures KeepsExactly(Filter(s, p), s, p)
  {
    var _ := FilterEmbedding(s, p);
    FilterMultiset(s, p);
  }

  /** Filtering distributes over concatenation: the relative order of kept elements is unchanged. */
  lemma {:induction false} FilterAppend<T>(a: seq<T>, b: seq<T>, p: T -> bool)
    ensures Filter(a + b, p) == Filter(a, p) + Filter(b, p)
    decreases |b|
  {
    if |b| == 0 {
      assert a + b == a;
    } else {
      var init := b[..|b| - 1];
      assert (a + b)[..|a + b| - 1] == a + init;
      FilterAppend(a, init, p);
    }
  }

  /** Filtering one element keeps it exactly when it satisfies `p`. */
  lemma FilterSingleton<T>(x: T, p: T -> bool)
    ensures Filter([x], p) == if p(x) then [x] else []
  {
    assert [x][..0] == [];
  }

  /** A filter that accepts every element is the identity. */
  lemma {:induction false} FilterAll<T>(s: seq<T>, p: T -> bool)
    requires forall i :: 0 <= i < |s| ==> p(s[i])
    ensures Filter(s, p) == s
    decreases |s|
  {
    if |s| > 0 {
      FilterAll(s[..|s| - 1], p);
      assert s == s[..|s| - 1] + [s[|s| - 1]];
    }
  }

  /** A filter that rejects every element yields nothing. */
  lemma {:induction false} FilterNone<T>(s: seq<T>, p: T -> bool)
    requires forall i :: 0 <= i < |s| ==> !p(s[i])
    ensures Filter(s, p) == []
    decreases |s|
  {
    if |s| > 0 {
      FilterNone(s[..|s| - 1], p);
    }
  }

  /** Filtering keeps the whole sequence exactly when every element passes. */
  lemma {:induction false} FilterFull<T>(s: seq<T>, p: T -> bool)
    ensures |Filter(s, p)| == |s| <==> forall i :: 0 <= i < |s| ==> p(s[i])
    decreases |s|
  {
    if |s| > 0 {
      var init := s[..|s| - 1];
      FilterFull(init, p);
      assert forall i :: 0 <= i < |init| ==> init[i] == s[i];
    }
  }

  /** True when no value occurs twice. */
  predicate NoDuplicates<T(==)>(s: seq<T>) {
    forall i, j :: 0 <= i < j < |s| ==> s[i] != s[j]
  }

  /**
   The distinct values of `s`, each at the position of its first occurrence
   (the iteration order of a JavaScript `Set` built from `s`).
   */
  function Dedupe<T(==)>(s: seq<T>): (r: seq<T>)
    ensures forall i :: 0 <= i < |r| ==> r[i] in s
    ensures forall i :: 0 <= i < |s| ==> s[i] in r
    ensures NoDuplicates(r)
    ensures |r| <= |s|
    decreases |s|
  {
    if |s| == 0 then []
    else
      var init := s[..|s| - 1];
      assert s == init + [s[|s| - 1]];
      var d := Dedupe(init);
      if s[|s| - 1] in d then d else d + [s[|s| - 1]]
  }

  /**
   `d` lists values of `s` in the order of their first occurrences: the
   embedding of `d` into `s` hits each value where it first appears.
   */
  ghost predicate InFirstOccurrenceOrder<T>(d: seq<T>, s: seq<T>) {
    exists idx: seq<nat> :: IsEmbedding(idx, d, s) && FirstOccurrences(idx, d, s)
  }

  ghost predicate FirstOccurrences<T>(idx: seq<nat>, d: seq<T>, s: seq<T>)
    requires |idx| == |d|
  {
    forall i, j :: 0 <= i < |idx| && 0 <= j < idx[i] && j < |s| ==> s[j] != d[i]
  }

  /** A witness embedding at first occurrences establishes the first-occurrence order. */
  lemma FirstOccurrenceWitness<T>(idx: seq<nat>, d: seq<T>, s: seq<T>)
    requires IsEmbedding(idx, d, s) && FirstOccurrences(idx, d, s)
    ensures InFirstOccurrenceOrder(d, s)
  {
  }

  /** Appending a value already seen keeps the first-occurrence witness. */
  lemma FirstOccurrencesSkip<T>(idx: seq<nat>, d: seq<T>, s: seq<T>, x: T)
    requires IsEmbedding(idx, d, s) && FirstOccurrences(idx, d, s)
    ensures IsEmbedding(idx, d, s + [x]) && FirstOccurrences(idx, d, s + [x])
  {
    EmbeddingSkip(idx, d, s, x);
    forall i, j | 0 <= i < |idx| && 0 <= j < idx[i] && j < |s + [x]|
      ensures (s + [x])[j] != d[i]
    {
      assert (s + [x])[j] == s[j];
    }
  }

  /** Appending a value not seen before extends the first-occurrence witness by its position. */
  lemma FirstOccurrencesTake<T>(idx: seq<nat>, d: seq<T>, s: seq<T>, x: T)
    requires IsEmbedding(idx, d, s) && FirstOccurrences(idx, d, s)
    requires x !in s
    ensures IsEmbedding(idx + [|s|], d + [x], s + [x])
    ensures FirstOccurrences(idx + [|s|], d + [x], s + [x])
  {
    EmbeddingTake(idx, d, s, x);
    var idx', d', s' := idx + [|s|], d + [x], s + [x];
    forall i, j | 0 <= i < |idx'| && 0 <= j < idx'[i] && j < |s'|
      ensures s'[j] != d'[i]
    {
      assert s'[j] == s[j];
      if i == |idx| {
        assert s[j] in s;
      } else {
        assert idx'[i] == idx[i] && d'[i] == d[i];
      }
    }
  }

  /** `Dedupe` keeps each value at its first occurrence, in that order. */
  lemma {:induction false} DedupeFirstOccurrences<T>(s: seq<T>) returns (idx: seq<nat>)
    ensures IsEmbedding(idx, Dedupe(s), s) && FirstOccurrences(idx, Dedupe(s), s)
    ensures InFirstOccurrenceOrder(Dedupe(s), s)
    decreases |s|
  {
    if |s| == 0 {
      idx := [];
    } else {
      var init := s[..|s| - 1];
      var last := s[|s| - 1];
      assert s == init + [last];
      var before := DedupeFirstOccurrences(init);
      if last in Dedupe(init) {
        FirstOccurrencesSkip(before, Dedupe(init), init, last);
        idx := before;
      } else {
        FirstOccurrencesTake(before, Dedupe(init), init, last);
        idx := before + [|init|];
      }
    }
    FirstOccurrenceWitness(idx, Dedupe(s), s);
  }
}

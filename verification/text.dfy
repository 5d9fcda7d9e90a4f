/**
 String operations the JavaScript and Python code relies on: whitespace
 classes, `trim`/`strip`, lower-casing, substring search (`includes`),
 `join`, and global removal of a literal pattern (`replace(/lit/g, '')`).
 */
module Text {
  import Seqs

  /** ECMAScript WhiteSpace and LineTerminator code points: what `String.prototype.trim` and `\s` match. */
  predicate IsJsSpace(c: char) {
    || c == '\t' || c == '\n' || c == '\U{000B}' || c == '\U{000C}' || c == '\r' || c == ' '
    || c == '\U{00A0}' || c == '\U{1680}' || ('\U{2000}' <= c <= '\U{200A}')
    || c == '\U{2028}' || c == '\U{2029}' || c == '\U{202F}' || c == '\U{205F}'
    || c == '\U{3000}' || c == '\U{FEFF}'
  }

  /** The characters for which Python's `str.isspace` holds: what `str.strip()` removes. */
  predicate IsPySpace(c: char) {
    || ('\t' <= c <= '\r') || ('\U{001C}' <= c <= '\U{001F}') || c == ' '
    || c == '\U{0085}' || c == '\U{00A0}' || c == '\U{1680}' || ('\U{2000}' <= c <= '\U{200A}')
    || c == '\U{2028}' || c == '\U{2029}' || c == '\U{202F}' || c == '\U{205F}' || c == '\U{3000}'
  }

  predicate AllSatisfy(s: string, p: char -> bool) {
    forall k :: 0 <= k < |s| ==> p(s[k])
  }

  /** The first index at or after `i` whose character is kept: where trimming the start stops. */
  function StartIndex(s: string, ws: char -> bool, i: nat): (e: nat)
    requires i <= |s|
    ensures i <= e <= |s|
    ensures forall k :: i <= k < e ==> ws(s[k])
    ensures e < |s| ==> !ws(s[e])
    decreases |s| - i
  {
    if i < |s| && ws(s[i]) then StartIndex(s, ws, i + 1) else i
  }

  /** The end, at most `hi` and at least `lo`, after which only trimmed characters follow up to `hi`. */
  function EndIndex(s: string, ws: char -> bool, lo: nat, hi: nat): (e: nat)
    requires lo <= hi <= |s|
    ensures lo <= e <= hi
    ensures forall k :: e <= k < hi ==> ws(s[k])
    ensures e > lo ==> !ws(s[e - 1])
    decreases hi - lo
  {
    if hi > lo && ws(s[hi - 1]) then EndIndex(s, ws, lo, hi - 1) else hi
  }

  /** Where trimming the start stops is the one index after a run of trimmed characters. */
  lemma StartIndexUnique(s: string, ws: char -> bool, i: nat, e: nat)
    requires i <= e <= |s| && (forall k :: i <= k < e ==> ws(s[k])) && (e < |s| ==> !ws(s[e]))
    ensures StartIndex(s, ws, i) == e
  {
  }

  /** Where trimming the end stops is the one index before a run of trimmed characters. */
  lemma EndIndexUnique(s: string, ws: char -> bool, lo: nat, hi: nat, e: nat)
    requires lo <= e <= hi <= |s| && (forall k :: e <= k < hi ==> ws(s[k])) && (e > lo ==> !ws(s[e - 1]))
    ensures EndIndex(s, ws, lo, hi) == e
  {
  }

  /** Drops the characters satisfying `ws` from both ends. */
  function Trim(s: string, ws: char -> bool): (r: string)
    ensures |r| <= |s|
    ensures |r| > 0 ==> !ws(r[0]) && !ws(r[|r| - 1])
  {
    var lo := StartIndex(s, ws, 0);
    s[lo..EndIndex(s, ws, lo, |s|)]
  }

  /** The trimmed text is a middle slice with only trimmed characters on either side. */
  lemma TrimIsMiddle(s: string, ws: char -> bool)
    ensures var r := Trim(s, ws);
      exists lo :: 0 <= lo <= |s| - |r| && r == s[lo..lo + |r|]
                   && AllSatisfy(s[..lo], ws) && AllSatisfy(s[lo + |r|..], ws)
  {
    var lo := StartIndex(s, ws, 0);
    var hi := EndIndex(s, ws, lo, |s|);
    assert AllSatisfy(s[..lo], ws) by {
      forall k | 0 <= k < lo
        ensures ws(s[..lo][k])
      {
        assert s[..lo][k] == s[k];
      }
    }
    assert AllSatisfy(s[hi..], ws) by {
      forall k | 0 <= k < |s| - hi
        ensures ws(s[hi..][k])
      {
        assert s[hi..][k] == s[hi + k];
      }
    }
    assert Trim(s, ws) == s[lo..lo + (hi - lo)];
  }

  /** JavaScript's `String.prototype.trim`. */
  function JsTrim(s: string): string {
    Trim(s, IsJsSpace)
  }

  /** Python's `str.strip()` with no argument. */
  function PyStrip(s: string): string {
    Trim(s, IsPySpace)
  }

  /** Trimming leaves nothing exactly when every character is trimmed. */
  lemma TrimEmptyIff(s: string, ws: char -> bool)
    ensures Trim(s, ws) == "" <==> AllSatisfy(s, ws)
  {
    var lo := StartIndex(s, ws, 0);
    if lo < |s| {
      assert !ws(s[lo]);
      assert EndIndex(s, ws, lo, |s|) > lo;
    }
  }

  /** Leading whitespace shifts where trimming the start stops. */
  lemma StartAfterSpace(w: string, x: string, ws: char -> bool)
    requires AllSatisfy(w, ws)
    ensures StartIndex(w + x, ws, 0) == |w| + StartIndex(x, ws, 0)
  {
    var u := w + x;
    var lo := StartIndex(x, ws, 0);
    forall k | 0 <= k < |w| + lo
      ensures ws(u[k])
    {
      if k < |w| { assert u[k] == w[k]; } else { assert u[k] == x[k - |w|]; }
    }
    StartIndexUnique(u, ws, 0, |w| + lo);
  }

  /** Leading whitespace shifts where trimming the end stops. */
  lemma EndAfterSpace(w: string, x: string, ws: char -> bool, lo: nat)
    requires lo <= |x|
    ensures EndIndex(w + x, ws, |w| + lo, |w| + |x|) == |w| + EndIndex(x, ws, lo, |x|)
  {
    var u := w + x;
    var hi := EndIndex(x, ws, lo, |x|);
    forall k | |w| + hi <= k < |u|
      ensures ws(u[k])
    {
      assert u[k] == x[k - |w|];
    }
    if hi > lo {
      assert u[|w| + hi - 1] == x[hi - 1];
    }
    EndIndexUnique(u, ws, |w| + lo, |u|, |w| + hi);
  }

  /** Whitespace before a text never changes what trimming yields. */
  lemma TrimAfterSpace(w: string, x: string, ws: char -> bool)
    requires AllSatisfy(w, ws)
    ensures Trim(w + x, ws) == Trim(x, ws)
  {
    var u := w + x;
    var lo := StartIndex(x, ws, 0);
    var hi := EndIndex(x, ws, lo, |x|);
    StartAfterSpace(w, x, ws);
    EndAfterSpace(w, x, ws, lo);
    assert |u| == |w| + |x|;
    assert Trim(u, ws) == u[|w| + lo..|w| + hi];
    SliceAfter(w, x, lo, hi);
  }

  /** A slice of the second part of a concatenation. */
  lemma SliceAfter(w: string, x: string, a: nat, b: nat)
    requires a <= b <= |x|
    ensures (w + x)[|w| + a..|w| + b] == x[a..b]
  {
    assert (w + x)[|w|..] == x;
  }

  /** The concatenation of two texts of trimmed characters consists of trimmed characters. */
  lemma AppendAllSatisfy(x: string, w: string, ws: char -> bool)
    requires AllSatisfy(x, ws) && AllSatisfy(w, ws)
    ensures AllSatisfy(x + w, ws)
  {
    var u := x + w;
    forall k | 0 <= k < |u|
      ensures ws(u[k])
    {
      if k < |x| { assert u[k] == x[k]; } else { assert u[k] == w[k - |x|]; }
    }
  }

  /** Appending text does not move where trimming the start stops, once a kept character is found. */
  lemma StartBeforeSpace(x: string, w: string, ws: char -> bool)
    requires StartIndex(x, ws, 0) < |x|
    ensures StartIndex(x + w, ws, 0) == StartIndex(x, ws, 0)
  {
    var u := x + w;
    var lo := StartIndex(x, ws, 0);
    forall k | 0 <= k < lo
      ensures ws(u[k])
    {
      assert u[k] == x[k];
    }
    assert u[lo] == x[lo];
    StartIndexUnique(u, ws, 0, lo);
  }

  /** Trailing whitespace is trimmed along with the trailing run of `x`. */
  lemma EndBeforeSpace(x: string, w: string, ws: char -> bool, lo: nat)
    requires AllSatisfy(w, ws) && lo < |x| && !ws(x[lo])
    ensures EndIndex(x + w, ws, lo, |x| + |w|) == EndIndex(x, ws, lo, |x|)
  {
    var u := x + w;
    var hi := EndIndex(x, ws, lo, |x|);
    assert lo < hi;
    TrimmedTail(x, w, ws, hi);
    assert u[hi - 1] == x[hi - 1];
    EndIndexUnique(u, ws, lo, |u|, hi);
  }

  /** A trimmed run at the end of `x` stays one when trimmed characters are appended. */
  lemma TrimmedTail(x: string, w: string, ws: char -> bool, hi: nat)
    requires hi <= |x| && AllSatisfy(w, ws) && forall k :: hi <= k < |x| ==> ws(x[k])
    ensures forall k :: hi <= k < |x + w| ==> ws((x + w)[k])
  {
    var u := x + w;
    forall k | hi <= k < |u|
      ensures ws(u[k])
    {
      if k < |x| { assert u[k] == x[k]; } else { assert u[k] == w[k - |x|]; }
    }
  }

  /** A slice of the first part of a concatenation. */
  lemma SliceBefore(x: string, w: string, a: nat, b: nat)
    requires a <= b <= |x|
    ensures (x + w)[a..b] == x[a..b]
  {
    assert (x + w)[..|x|] == x;
  }

  /** Whitespace after a text never changes what trimming yields. */
  lemma TrimBeforeSpace(x: string, w: string, ws: char -> bool)
    requires AllSatisfy(w, ws)
    ensures Trim(x + w, ws) == Trim(x, ws)
  {
    var lo := StartIndex(x, ws, 0);
    if lo == |x| {
      assert AllSatisfy(x, ws);
      AppendAllSatisfy(x, w, ws);
      TrimEmptyIff(x + w, ws);
      TrimEmptyIff(x, ws);
    } else {
      StartBeforeSpace(x, w, ws);
      EndBeforeSpace(x, w, ws, lo);
      SliceBefore(x, w, lo, EndIndex(x, ws, lo, |x|));
    }
  }

  /** Surrounding whitespace never changes what trimming yields. */
  lemma TrimPadded(w1: string, s: string, w2: string, ws: char -> bool)
    requires AllSatisfy(w1, ws) && AllSatisfy(w2, ws)
    ensures Trim(w1 + s + w2, ws) == Trim(s, ws)
  {
    assert w1 + s + w2 == w1 + (s + w2);
    TrimAfterSpace(w1, s + w2, ws);
    TrimBeforeSpace(s, w2, ws);
  }

  /** The case mapping of `toLowerCase` on Basic Latin and Latin-1 letters. */
  function LowerChar(c: char): char {
    if 'A' <= c <= 'Z' || ('\U{00C0}' <= c <= '\U{00DE}' && c != '\U{00D7}') then
      (c as int + 32) as char
    else c
  }

  function ToLower(s: string): (r: string)
    ensures |r| == |s|
  {
    seq(|s|, i requires 0 <= i < |s| => LowerChar(s[i]))
  }

  /** Lower-casing is idempotent, so comparing two lower-cased strings is stable. */
  lemma ToLowerIdempotent(s: string)
    ensures ToLower(ToLower(s)) == ToLower(s)
  {
  }

  predicate StartsWith(s: string, prefix: string) {
    |prefix| <= |s| && s[..|prefix|] == prefix
  }

  /** `needle` occurs at position `i` of `hay`. */
  predicate OccursAt(hay: string, needle: string, i: int) {
    0 <= i <= |hay| - |needle| && hay[i..i + |needle|] == needle
  }

  ghost predicate Occurs(hay: string, needle: string) {
    exists i :: OccursAt(hay, needle, i)
  }

  /** JavaScript's `String.prototype.includes`, by a left-to-right scan. */
  function Contains(hay: string, needle: string): bool
    decreases |hay|
  {
    if StartsWith(hay, needle) then true
    else if |hay| == 0 then false
    else Contains(hay[1..], needle)
  }

  /** The scan finds `needle` exactly when it occurs somewhere in `hay`. */
  lemma {:induction false} ContainsIffOccurs(hay: string, needle: string)
    ensures Contains(hay, needle) <==> Occurs(hay, needle)
    decreases |hay|
  {
    if StartsWith(hay, needle) {
      assert OccursAt(hay, needle, 0);
    } else if |hay| == 0 {
      assert forall i :: !OccursAt(hay, needle, i);
    } else {
      ContainsIffOccurs(hay[1..], needle);
      if Occurs(hay[1..], needle) {
        var i :| OccursAt(hay[1..], needle, i);
        var a, b := hay[1..][i..i + |needle|], hay[i + 1..i + 1 + |needle|];
        forall t | 0 <= t < |needle|
          ensures a[t] == b[t]
        {
          assert a[t] == hay[1..][i + t] == hay[i + 1 + t];
        }
        assert a == b;
        assert OccursAt(hay, needle, i + 1);
      }
      if Occurs(hay, needle) {
        var i :| OccursAt(hay, needle, i);
        assert i != 0;
        var a, b := hay[1..][i - 1..i - 1 + |needle|], hay[i..i + |needle|];
        forall t | 0 <= t < |needle|
          ensures a[t] == b[t]
        {
          assert a[t] == hay[1..][i - 1 + t] == hay[i + t];
        }
        assert a == b;
        assert OccursAt(hay[1..], needle, i - 1);
      }
    }
  }

  /** `parts` joined with `sep` between neighbours (`Array.prototype.join`, Python `str.join`). */
  function Join(parts: seq<string>, sep: string): string
    decreases |parts|
  {
    if |parts| == 0 then ""
    else if |parts| == 1 then parts[0]
    else parts[0] + sep + Join(parts[1..], sep)
  }

  /** Splits at every occurrence of `c`; the inverse of joining with `[c]`. */
  function Split(s: string, c: char): (r: seq<string>)
    ensures |r| > 0
    decreases |s|
  {
    if |s| == 0 then [""]
    else
      var rest := Split(s[1..], c);
      if s[0] == c then [""] + rest else [[s[0]] + rest[0]] + rest[1..]
  }

  lemma {:induction false} SplitNoSeparator(p: string, c: char)
    requires c !in p
    ensures Split(p, c) == [p]
    decreases |p|
  {
    if |p| > 0 {
      SplitNoSeparator(p[1..], c);
      assert [p[0]] + p[1..] == p;
    }
  }

  lemma {:induction false} SplitAtSeparator(p: string, c: char, t: string)
    requires c !in p
    ensures Split(p + [c] + t, c) == [p] + Split(t, c)
    decreases |p|
  {
    if |p| == 0 {
      assert p + [c] + t == [c] + t;
      assert ([c] + t)[1..] == t;
    } else {
      assert (p + [c] + t)[1..] == p[1..] + [c] + t;
      SplitAtSeparator(p[1..], c, t);
      assert [p[0]] + p[1..] == p;
    }
  }

  /** Joining with a one-character separator that no part contains can be undone by splitting. */
  lemma {:induction false} SplitJoin(parts: seq<string>, c: char)
    requires |parts| > 0
    requires forall i :: 0 <= i < |parts| ==> c !in parts[i]
    ensures Split(Join(parts, [c]), c) == parts
    decreases |parts|
  {
    if |parts| == 1 {
      SplitNoSeparator(parts[0], c);
    } else {
      SplitJoin(parts[1..], c);
      SplitAtSeparator(parts[0], c, Join(parts[1..], [c]));
      assert [parts[0]] + parts[1..] == parts;
    }
  }

  /**
   Removes every occurrence of `pat`, scanning left to right and resuming after
   each removed occurrence (`s.replace(/pat/g, '')` for a literal `pat`).
   */
  function RemoveAll(s: string, pat: string): (r: string)
    requires |pat| > 0
    ensures |r| <= |s|
    decreases |s|
  {
    if |s| == 0 then ""
    else if StartsWith(s, pat) then RemoveAll(s[|pat|..], pat)
    else [s[0]] + RemoveAll(s[1..], pat)
  }

  /** Characters before the first place a match could start are kept unchanged. */
  lemma {:induction false} RemoveAllKeepsUnmatchedPrefix(s: string, pat: string, i: nat)
    requires |pat| > 0 && i <= |s|
    requires forall j :: 0 <= j < i ==> !OccursAt(s, pat, j)
    ensures RemoveAll(s, pat) == s[..i] + RemoveAll(s[i..], pat)
    decreases i
  {
    if i > 0 {
      assert !OccursAt(s, pat, 0);
      assert !StartsWith(s, pat);
      forall j | 0 <= j < i - 1
        ensures !OccursAt(s[1..], pat, j)
      {
        assert !OccursAt(s, pat, j + 1);
        if j <= |s[1..]| - |pat| {
          assert s[1..][j..j + |pat|] == s[j + 1..j + 1 + |pat|];
        }
      }
      RemoveAllKeepsUnmatchedPrefix(s[1..], pat, i - 1);
      assert s[1..][i - 1..] == s[i..];
      assert [s[0]] + s[1..][..i - 1] == s[..i];
    }
  }

  /**
   The removal's first step: the text before the first occurrence is kept,
   that occurrence is dropped, and the rest is processed in the same way.
   */
  lemma RemoveAllFirstMatch(a: string, pat: string, b: string)
    requires |pat| > 0
    requires forall j :: 0 <= j < |a| ==> !OccursAt(a + pat + b, pat, j)
    ensures RemoveAll(a + pat + b, pat) == a + RemoveAll(b, pat)
  {
    var s := a + pat + b;
    RemoveAllKeepsUnmatchedPrefix(s, pat, |a|);
    assert s[..|a|] == a;
    assert s[|a|..] == pat + b;
    assert (pat + b)[..|pat|] == pat;
    assert (pat + b)[|pat|..] == b;
  }

  /** The characters `RemoveAll` keeps, in order: the result is a subsequence of the input. */
  lemma {:induction false} RemoveAllEmbedding(s: string, pat: string) returns (idx: seq<nat>)
    requires |pat| > 0
    ensures Seqs.IsEmbedding(idx, RemoveAll(s, pat), s)
    decreases |s|
  {
    if |s| == 0 {
      idx := [];
    } else if StartsWith(s, pat) {
      var rest := RemoveAllEmbedding(s[|pat|..], pat);
      Seqs.EmbeddingInSuffix(rest, RemoveAll(s[|pat|..], pat), s, |pat|);
      idx := Seqs.Shift(rest, |pat|);
    } else {
      var rest := RemoveAllEmbedding(s[1..], pat);
      Seqs.EmbeddingCons(rest, RemoveAll(s[1..], pat), s);
      idx := [0] + Seqs.Shift(rest, 1);
    }
  }

  /** A string without any occurrence of the pattern passes through unchanged. */
  lemma RemoveAllNoOccurrence(s: string, pat: string)
    requires |pat| > 0
    requires forall j :: 0 <= j < |s| ==> !OccursAt(s, pat, j)
    ensures RemoveAll(s, pat) == s
  {
    RemoveAllKeepsUnmatchedPrefix(s, pat, |s|);
    assert s[|s|..] == "";
  }
}

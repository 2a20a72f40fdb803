/**
  String primitives with ECMAScript semantics: the whitespace class used by
  `String.prototype.trim` and by `\s` in regular expressions, `trim` itself,
  and a global replacement of a literal (regex-escaped) key, which is what
  `s.replace(new RegExp(escaped, 'g'), value)` computes.
 */
module JsText {

  /** ECMAScript WhiteSpace and LineTerminator code points. */
  predicate IsSpace(c: char) {
    || c == '\t' || c == '\n' || c == '\U{000B}' || c == '\U{000C}' || c == '\r' || c == ' '
    || c == '\U{00A0}' || c == '\U{1680}' || ('\U{2000}' <= c <= '\U{200A}')
    || c == '\U{2028}' || c == '\U{2029}' || c == '\U{202F}' || c == '\U{205F}'
    || c == '\U{3000}' || c == '\U{FEFF}'
  }

  /** Drops leading whitespace: the result is the longest suffix that does not start with whitespace. */
  function TrimStart(s: string): (r: string)
    ensures |r| <= |s| && r == s[|s| - |r|..]
    ensures forall k :: 0 <= k < |s| - |r| ==> IsSpace(s[k])
    ensures r == [] || !IsSpace(r[0])
    decreases |s|
  {
    if s != [] && IsSpace(s[0]) then TrimStart(s[1..]) else s
  }

  /** Drops trailing whitespace: the result is the longest prefix that does not end with whitespace. */
  function TrimEnd(s: string): (r: string)
    ensures |r| <= |s| && r == s[..|r|]
    ensures forall k :: |r| <= k < |s| ==> IsSpace(s[k])
    ensures r == [] || !IsSpace(r[|r| - 1])
    decreases |s|
  {
    if s != [] && IsSpace(s[|s| - 1]) then TrimEnd(s[..|s| - 1]) else s
  }

  /** `String.prototype.trim`. */
  function Trim(s: string): string {
    TrimEnd(TrimStart(s))
  }

  /** The trimmed string is the slice `s[i..i + |r|]` of the input with only
      whitespace cut off on either side, and it neither starts nor ends with
      whitespace. */
  lemma TrimSpec(s: string) returns (i: nat)
    ensures var r := Trim(s);
      && IsTrimmed(r)
      && i + |r| <= |s| && r == s[i..i + |r|]
      && (forall k :: 0 <= k < i ==> IsSpace(s[k]))
      && (forall k :: i + |r| <= k < |s| ==> IsSpace(s[k]))
  {
    i := TrimSlice(s);
    TrimEnds(s);
  }

  /** Only whitespace is cut, on either side of a slice of the input. */
  lemma TrimSlice(s: string) returns (i: nat)
    ensures var r := Trim(s);
      && i + |r| <= |s| && r == s[i..i + |r|]
      && (forall k :: 0 <= k < i ==> IsSpace(s[k]))
      && (forall k :: i + |r| <= k < |s| ==> IsSpace(s[k]))
  {
    i := SliceOfSlice(s, TrimStart(s), Trim(s));
  }

  /** A prefix `r` of a suffix `t` of `s` is a slice of `s`; what `t` drops in
      front and `r` drops at the back of `t` are the parts of `s` around it. */
  lemma SliceOfSlice(s: string, t: string, r: string) returns (i: nat)
    requires |t| <= |s| && t == s[|s| - |t|..]
    requires forall k :: 0 <= k < |s| - |t| ==> IsSpace(s[k])
    requires |r| <= |t| && r == t[..|r|]
    requires forall k :: |r| <= k < |t| ==> IsSpace(t[k])
    ensures i == |s| - |t| && i + |r| <= |s| && r == s[i..i + |r|]
    ensures forall k :: 0 <= k < i ==> IsSpace(s[k])
    ensures forall k :: i + |r| <= k < |s| ==> IsSpace(s[k])
  {
    i := |s| - |t|;
    assert r == s[i..i + |r|];
    forall k | i + |r| <= k < |s|
      ensures IsSpace(s[k])
    {
      assert s[k] == t[k - i];
    }
  }

  /** `s` neither starts nor ends with whitespace. */
  predicate IsTrimmed(s: string) {
    s == [] || (!IsSpace(s[0]) && !IsSpace(s[|s| - 1]))
  }

  /** The trimmed string neither starts nor ends with whitespace. */
  lemma TrimEnds(s: string)
    ensures IsTrimmed(Trim(s))
  {
    var t := TrimStart(s);
    if Trim(s) != [] {
      assert Trim(s)[0] == t[0];
    }
  }

  /** Trimming twice is trimming once. */
  lemma TrimIdempotent(s: string)
    ensures Trim(Trim(s)) == Trim(s)
  {
    var r := Trim(s);
    var _ := TrimSpec(s);
    if r != [] {
      assert TrimStart(r) == r;
    }
  }

  /** Global replacement of the literal `k` by `v`, scanning left to right and
      resuming after each match, so matches never overlap. The empty key
      (`new RegExp('', 'g')`) matches before every character and at the end. */
  function ReplaceAll(s: string, k: string, v: string): string
    decreases |s|
  {
    if k == [] then
      if s == [] then v else v + [s[0]] + ReplaceAll(s[1..], k, v)
    else if |s| < |k| then s
    else if k <= s then v + ReplaceAll(s[|k|..], k, v)
    else [s[0]] + ReplaceAll(s[1..], k, v)
  }

  /** Replacing a non-empty key by text no longer than it never lengthens the
      text, and by text no shorter than it never shortens it. */
  lemma {:induction false} ReplaceAllLength(s: string, k: string, v: string)
    requires k != []
    ensures |v| <= |k| ==> |ReplaceAll(s, k, v)| <= |s|
    ensures |v| >= |k| ==> |ReplaceAll(s, k, v)| >= |s|
    decreases |s|
  {
    if |s| >= |k| {
      if k <= s {
        ReplaceAllLength(s[|k|..], k, v);
      } else {
        ReplaceAllLength(s[1..], k, v);
      }
    }
  }

  /** Every character of the result comes from the text or from the replacement. */
  lemma {:induction false} ReplaceAllChars(s: string, k: string, v: string)
    ensures forall c :: c in ReplaceAll(s, k, v) ==> c in s || c in v
    decreases |s|
  {
    if k == [] {
      if s != [] {
        ReplaceAllChars(s[1..], k, v);
      }
    } else if |s| >= |k| {
      if k <= s {
        ReplaceAllChars(s[|k|..], k, v);
        forall c | c in s[|k|..] ensures c in s {
          var j :| 0 <= j < |s| - |k| && s[|k|..][j] == c;
          assert s[|k| + j] == c;
        }
      } else {
        ReplaceAllChars(s[1..], k, v);
      }
    }
  }

  /** `k` occurs in `s` at some position. */
  predicate Occurs(s: string, k: string)
    decreases |s|
  {
    k <= s || (s != [] && Occurs(s[1..], k))
  }

  /** A key that does not occur leaves the text unchanged. */
  lemma {:induction false} ReplaceAbsent(s: string, k: string, v: string)
    requires !Occurs(s, k)
    ensures ReplaceAll(s, k, v) == s
    decreases |s|
  {
    if |s| >= |k| && k != [] {
      ReplaceAbsent(s[1..], k, v);
    }
  }

  /** Replacing a key by itself is the identity. */
  lemma {:induction false} ReplaceSelf(s: string, k: string)
    ensures ReplaceAll(s, k, k) == s
    decreases |s|
  {
    if k == [] {
      if s != [] {
        ReplaceSelf(s[1..], k);
      }
    } else if |s| >= |k| {
      if k <= s {
        ReplaceSelf(s[|k|..], k);
        assert s == k + s[|k|..];
      } else {
        ReplaceSelf(s[1..], k);
        assert s == [s[0]] + s[1..];
      }
    }
  }

  /** The key occurs in `s` at position `p`. */
  predicate MatchAt(s: string, k: string, p: nat) {
    p <= |s| && k <= s[p..]
  }

  /** Matches are found left to right and never overlap: the text before the
      first occurrence of the key is kept as it is, that occurrence is
      replaced, and the scan resumes right after it. */
  lemma {:induction false} ReplaceFirst(a: string, k: string, b: string, v: string)
    requires k != []
    requires forall p: nat :: p < |a| ==> !MatchAt(a + k + b, k, p)
    ensures ReplaceAll(a + k + b, k, v) == a + v + ReplaceAll(b, k, v)
    decreases |a|
  {
    var s := a + k + b;
    if a == [] {
      assert s == k + b;
      assert k <= s && |s| >= |k|;
      assert s[|k|..] == b;
      assert ReplaceAll(s, k, v) == v + ReplaceAll(b, k, v);
    } else {
      var t := a[1..] + k + b;
      assert !MatchAt(s, k, 0) && s[0..] == s;
      assert !(k <= s) && |s| >= |k|;
      assert s[1..] == t;
      assert ReplaceAll(s, k, v) == [a[0]] + ReplaceAll(t, k, v);
      forall p: nat | p < |a[1..]|
        ensures !MatchAt(t, k, p)
      {
        assert !MatchAt(s, k, p + 1);
        assert t[p..] == s[p + 1..];
      }
      ReplaceFirst(a[1..], k, b, v);
      assert [a[0]] + (a[1..] + v + ReplaceAll(b, k, v)) == a + v + ReplaceAll(b, k, v);
    }
  }

  /** `r` is `s` with some characters deleted: the characters of `r` occur in
      `s` in the same order. */
  predicate IsSubsequence(r: string, s: string)
    decreases |s|
  {
    if r == [] then true
    else if s == [] then false
    else (r[0] == s[0] && IsSubsequence(r[1..], s[1..])) || IsSubsequence(r, s[1..])
  }

  /** A subsequence of a suffix is a subsequence of the whole. */
  lemma {:induction false} SubsequenceOfSuffix(r: string, s: string, m: nat)
    requires m <= |s| && IsSubsequence(r, s[m..])
    ensures IsSubsequence(r, s)
    decreases m
  {
    if m > 0 {
      assert s[1..][m - 1..] == s[m..];
      SubsequenceOfSuffix(r, s[1..], m - 1);
    }
  }
}

/**
  `cleanOCRText`: the fixed sequence of regular-expression replacements applied
  to text read from an image. Every step is a global left-to-right scan, and
  each is written as a recursive function over the remaining text.
 */
module OcrCleanup {
  import opened JsText

  /** `[\u200B-\u200D\uFEFF]` */
  predicate IsZeroWidth(c: char) {
    ('\U{200B}' <= c <= '\U{200D}') || c == '\U{FEFF}'
  }

  /** `[^\x00-\x7F]` */
  predicate IsNonAscii(c: char) {
    c > '\U{7F}'
  }

  /** `[ぁ-ん]` */
  predicate IsHiragana(c: char) {
    'ぁ' <= c <= 'ん'
  }

  /** `w` under the `i` flag. */
  predicate IsW(c: char) {
    c == 'w' || c == 'W'
  }

  /** `.replace(/[\u200B-\u200D\uFEFF]/g, '')` */
  function RemoveZeroWidth(s: string): string {
    if s == [] then []
    else (if IsZeroWidth(s[0]) then [] else [s[0]]) + RemoveZeroWidth(s[1..])
  }

  /** Only characters of the text remain, and none of them is zero-width. */
  lemma {:induction false} RemoveZeroWidthChars(s: string)
    ensures forall c :: c in RemoveZeroWidth(s) ==> c in s && !IsZeroWidth(c)
  {
    if s != [] {
      RemoveZeroWidthChars(s[1..]);
    }
  }

  /** Length of the `https?://` that `s` starts with, or 0, read character by
      character. */
  function SchemeLength(s: string): nat {
    if |s| >= 7 && s[0] == 'h' && s[1] == 't' && s[2] == 't' && s[3] == 'p' then
      if |s| >= 8 && s[4] == 's' && s[5] == ':' && s[6] == '/' && s[7] == '/' then 8
      else if s[4] == ':' && s[5] == '/' && s[6] == '/' then 7
      else 0
    else 0
  }

  /** The scheme is recognised exactly when `s` starts with `https://` or `http://`. */
  lemma SchemeLengthMeans(s: string)
    ensures SchemeLength(s) == 8 <==> "https://" <= s
    ensures SchemeLength(s) == 7 <==> "http://" <= s
    ensures SchemeLength(s) == 0 <==> !("https://" <= s) && !("http://" <= s)
  {
    if "https://" <= s {
      assert s[..8] == "https://";
    }
    if "http://" <= s {
      assert s[..7] == "http://";
    }
  }

  /** Length of the maximal run of non-whitespace characters at the start (`\S+`). */
  function NonSpaceRun(s: string): (n: nat)
    ensures n <= |s|
    ensures forall k :: 0 <= k < n ==> !IsSpace(s[k])
    ensures n < |s| ==> IsSpace(s[n])
  {
    if s != [] && !IsSpace(s[0]) then 1 + NonSpaceRun(s[1..]) else 0
  }

  /** `.replace(/https?:\/\/\S+/g, '')` */
  function RemoveUrls(s: string): (r: string)
    ensures |r| <= |s|
    decreases |s|
  {
    if s == [] then []
    else
      var n := SchemeLength(s);
      if 0 < n < |s| && !IsSpace(s[n]) then RemoveUrls(s[n + NonSpaceRun(s[n..])..])
      else [s[0]] + RemoveUrls(s[1..])
  }

  /** Removing URLs only removes characters. */
  lemma {:induction false} RemoveUrlsChars(s: string)
    ensures forall c :: c in RemoveUrls(s) ==> c in s
    decreases |s|
  {
    if s != [] {
      var n := SchemeLength(s);
      if 0 < n < |s| && !IsSpace(s[n]) {
        var m := n + NonSpaceRun(s[n..]);
        RemoveUrlsChars(s[m..]);
        SliceChars(s, m, |s|);
      } else {
        RemoveUrlsChars(s[1..]);
      }
    }
  }

  /** A match of `https?:\/\/\S+` starts at the front of `t`. */
  predicate UrlAt(t: string) {
    var n := SchemeLength(t);
    0 < n < |t| && !IsSpace(t[n])
  }

  /** Removing URLs only deletes characters: the result is a subsequence of the text. */
  lemma {:induction false} RemoveUrlsSubsequence(s: string)
    ensures IsSubsequence(RemoveUrls(s), s)
    decreases |s|
  {
    if s != [] {
      var n := SchemeLength(s);
      if 0 < n < |s| && !IsSpace(s[n]) {
        var m := n + NonSpaceRun(s[n..]);
        RemoveUrlsSubsequence(s[m..]);
        SubsequenceOfSuffix(RemoveUrls(s[m..]), s, m);
      } else {
        RemoveUrlsSubsequence(s[1..]);
        var r := [s[0]] + RemoveUrls(s[1..]);
        assert r[0] == s[0] && r[1..] == RemoveUrls(s[1..]);
      }
    }
  }

  /** Text that starts with whitespace keeps it in front. */
  lemma RemoveUrlsSpaceFront(u: string)
    requires u != [] && IsSpace(u[0])
    ensures RemoveUrls(u) != [] && RemoveUrls(u)[0] == u[0]
  {
    assert SchemeLength(u) == 0;
  }

  /** A removed URL leaves whitespace or nothing in front. */
  lemma RemoveUrlsAfterUrl(s: string)
    requires UrlAt(s)
    ensures NonSpaceRun(RemoveUrls(s)) == 0
  {
    var n := SchemeLength(s);
    var m := n + NonSpaceRun(s[n..]);
    assert RemoveUrls(s) == RemoveUrls(s[m..]);
    if m < |s| {
      assert s[n..][m - n] == s[m];
      RemoveUrlsSpaceFront(s[m..]);
    }
  }

  /** Putting the same character in front of two strings that agree up to the
      first whitespace of the first keeps them agreeing. */
  lemma HeadCons(c: char, r: string, s: string)
    requires NonSpaceRun(r) <= |s| && r[..NonSpaceRun(r)] == s[..NonSpaceRun(r)]
    ensures var q := NonSpaceRun([c] + r);
      q <= |[c] + s| && ([c] + r)[..q] == ([c] + s)[..q]
  {
    if !IsSpace(c) {
      var q := NonSpaceRun(r);
      assert ([c] + r)[1..] == r;
      assert NonSpaceRun([c] + r) == 1 + q;
      assert ([c] + r)[..1 + q] == [c] + r[..q];
      assert ([c] + s)[..1 + q] == [c] + s[..q];
    }
  }

  /** Up to its first whitespace the result reads as the text does. */
  lemma {:induction false} RemoveUrlsHead(s: string)
    ensures var r := RemoveUrls(s);
      NonSpaceRun(r) <= |s| && r[..NonSpaceRun(r)] == s[..NonSpaceRun(r)]
    decreases |s|
  {
    if s != [] {
      if UrlAt(s) {
        RemoveUrlsAfterUrl(s);
      } else {
        RemoveUrlsHead(s[1..]);
        assert RemoveUrls(s) == [s[0]] + RemoveUrls(s[1..]);
        HeadCons(s[0], RemoveUrls(s[1..]), s[1..]);
        assert s == [s[0]] + s[1..];
      }
    }
  }

  /** Whether a URL starts at the front depends only on the text before the
      first whitespace. */
  lemma UrlAtAgrees(t: string, u: string)
    requires NonSpaceRun(t) <= |u| && t[..NonSpaceRun(t)] == u[..NonSpaceRun(t)]
    ensures UrlAt(t) ==> UrlAt(u)
  {
    if UrlAt(t) {
      var n := SchemeLength(t);
      var q := NonSpaceRun(t);
      forall k | 0 <= k <= n
        ensures !IsSpace(t[k])
      {
      }
      assert q > n;
      forall k | 0 <= k <= n
        ensures t[k] == u[k]
      {
        assert t[..q][k] == u[..q][k];
      }
    }
  }

  /** No match of `https?:\/\/\S+` is left anywhere in the result. */
  lemma {:induction false} RemoveUrlsLeavesNone(s: string)
    ensures forall i :: 0 <= i < |RemoveUrls(s)| ==> !UrlAt(RemoveUrls(s)[i..])
    decreases |s|
  {
    if s != [] {
      var n := SchemeLength(s);
      if 0 < n < |s| && !IsSpace(s[n]) {
        var m := n + NonSpaceRun(s[n..]);
        RemoveUrlsLeavesNone(s[m..]);
      } else {
        var r' := RemoveUrls(s[1..]);
        var r := [s[0]] + r';
        assert RemoveUrls(s) == r;
        assert !UrlAt(s);
        RemoveUrlsHead(s);
        UrlAtAgrees(r, s);
        assert r[0..] == r;
        RemoveUrlsLeavesNone(s[1..]);
        forall i | 1 <= i < |r|
          ensures !UrlAt(r[i..])
        {
          assert r[i..] == r'[i - 1..];
        }
      }
    }
  }

  /** `.replace(/([lead])pat/g, '$1rep')`: a character of the class `lead` followed by
      `pat` keeps the character and has `pat` replaced by `rep`. */
  function ReplaceAfter(s: string, lead: char -> bool, pat: string, rep: string): string
    decreases |s|
  {
    if s == [] then []
    else if lead(s[0]) && pat <= s[1..] then
      [s[0]] + rep + ReplaceAfter(s[1 + |pat|..], lead, pat, rep)
    else [s[0]] + ReplaceAfter(s[1..], lead, pat, rep)
  }

  /** Every character of the result comes from the text or from the replacement. */
  lemma {:induction false} ReplaceAfterChars(s: string, lead: char -> bool, pat: string, rep: string)
    ensures forall c :: c in ReplaceAfter(s, lead, pat, rep) ==> c in s || c in rep
    decreases |s|
  {
    if s != [] {
      if lead(s[0]) && pat <= s[1..] {
        ReplaceAfterChars(s[1 + |pat|..], lead, pat, rep);
        SliceChars(s, 1 + |pat|, |s|);
      } else {
        ReplaceAfterChars(s[1..], lead, pat, rep);
      }
    }
  }

  /** A character of the class `lead` at position `p`, followed by `pat`. */
  predicate LeadMatchAt(s: string, lead: char -> bool, pat: string, p: nat) {
    p < |s| && lead(s[p]) && pat <= s[p + 1..]
  }

  /** The first match decides: the text before it is kept, the class character
      of the match is kept, `pat` becomes `rep`, and the scan resumes after it. */
  lemma {:induction false} ReplaceAfterFirst(a: string, c: char, pat: string, b: string,
                                             lead: char -> bool, rep: string)
    requires lead(c)
    requires forall p: nat :: p < |a| ==> !LeadMatchAt(a + [c] + pat + b, lead, pat, p)
    ensures ReplaceAfter(a + [c] + pat + b, lead, pat, rep) == a + [c] + rep + ReplaceAfter(b, lead, pat, rep)
    decreases |a|
  {
    var s := a + [c] + pat + b;
    if a == [] {
      assert s[0] == c && s[1..] == pat + b;
      assert s[1 + |pat|..] == b;
      assert ReplaceAfter(s, lead, pat, rep) == [c] + rep + ReplaceAfter(b, lead, pat, rep);
    } else {
      var t := a[1..] + [c] + pat + b;
      assert !LeadMatchAt(s, lead, pat, 0);
      assert s[0] == a[0] && s[1..] == t;
      assert ReplaceAfter(s, lead, pat, rep) == [a[0]] + ReplaceAfter(t, lead, pat, rep);
      forall p: nat | p < |a[1..]|
        ensures !LeadMatchAt(t, lead, pat, p)
      {
        assert !LeadMatchAt(s, lead, pat, p + 1);
        assert t[p] == s[p + 1] && t[p + 1..] == s[p + 2..];
      }
      ReplaceAfterFirst(a[1..], c, pat, b, lead, rep);
      assert [a[0]] + (a[1..] + [c] + rep + ReplaceAfter(b, lead, pat, rep))
          == a + [c] + rep + ReplaceAfter(b, lead, pat, rep);
    }
  }

  /** Text without a match is left as it is. */
  lemma {:induction false} ReplaceAfterAbsent(s: string, lead: char -> bool, pat: string, rep: string)
    requires forall p: nat :: p < |s| ==> !LeadMatchAt(s, lead, pat, p)
    ensures ReplaceAfter(s, lead, pat, rep) == s
    decreases |s|
  {
    if s != [] {
      assert !LeadMatchAt(s, lead, pat, 0);
      forall p: nat | p < |s[1..]|
        ensures !LeadMatchAt(s[1..], lead, pat, p)
      {
        assert !LeadMatchAt(s, lead, pat, p + 1);
        assert s[1..][p + 1..] == s[p + 2..];
      }
      ReplaceAfterAbsent(s[1..], lead, pat, rep);
      assert s == [s[0]] + s[1..];
    }
  }

  /** Number of `w`/`W` characters at the start of `s`. */
  function LeadW(s: string): (n: nat)
    ensures n <= |s|
    ensures forall k :: 0 <= k < n ==> IsW(s[k])
    ensures n < |s| ==> !IsW(s[n])
  {
    if s != [] && IsW(s[0]) then 1 + LeadW(s[1..]) else 0
  }

  /** `.replace(/w{3,}/gi, 'www')`: every maximal run of three or more becomes `www`. */
  function CollapseW(s: string): (r: string)
    ensures |r| <= |s|
    decreases |s|
  {
    if s == [] then []
    else
      var n := LeadW(s);
      if n >= 3 then "www" + CollapseW(s[n..]) else [s[0]] + CollapseW(s[1..])
  }

  /** Collapsing adds no character other than `w`. */
  lemma {:induction false} CollapseWChars(s: string)
    ensures forall c :: c in CollapseW(s) ==> c in s || c == 'w'
    decreases |s|
  {
    if s != [] {
      var n := LeadW(s);
      if n >= 3 {
        CollapseWChars(s[n..]);
        SliceChars(s, n, |s|);
      } else {
        CollapseWChars(s[1..]);
      }
    }
  }

  /** `.replace(/^[0°]+/, '')` */
  function StripLeadingNoise(s: string): (r: string)
    ensures |r| <= |s| && r == s[|s| - |r|..]
    ensures r == [] || (r[0] != '0' && r[0] != '°')
  {
    if s != [] && (s[0] == '0' || s[0] == '°') then StripLeadingNoise(s[1..]) else s
  }

  /** The replacements up to and including the `w` collapse, in source order. */
  function EarlyFixes(t0: string): string {
    var t1 := RemoveZeroWidth(t0);
    var t2 := RemoveUrls(t1);
    var t3 := ReplaceAfter(t2, IsNonAscii, "かルー", "から");
    var t4 := ReplaceAfter(t3, IsNonAscii, "かル", "から");
    var t5 := ReplaceAll(t4, "でルー", "で");
    CollapseW(t5)
  }

  /** The replacements after the `w` collapse, in source order. */
  function LateFixes(t6: string): string {
    var t7 := StripLeadingNoise(t6);
    var t8 := ReplaceAll(t7, "0だから", "男だから");
    var t9 := ReplaceAll(t8, "さーんく", "さーん♡");
    ReplaceAfter(t9, IsHiragana, "ーんく", "ーん♡")
  }

  /** `cleanOCRText`. Empty input gives the empty string; otherwise the input is
      trimmed, put through the replacements in source order, and trimmed again. */
  function CleanOcrText(text: string): string {
    if text == [] then "" else Trim(LateFixes(EarlyFixes(Trim(text))))
  }

  // ---------------------------------------------------------------------
  // Runs of `w`

  /** Four `w`/`W` characters start at position `i`. */
  predicate RunOf4At(s: string, i: int)
    requires 0 <= i <= |s| - 4
  {
    IsW(s[i]) && IsW(s[i + 1]) && IsW(s[i + 2]) && IsW(s[i + 3])
  }

  /** No four consecutive `w`/`W` characters, stated position by position. */
  ghost predicate NoRunOf4(s: string) {
    forall i :: 0 <= i <= |s| - 4 ==> !RunOf4At(s, i)
  }

  /** The same property, stated suffix by suffix; the proofs use this form. */
  ghost predicate RunsShort(s: string)
    decreases |s|
  {
    s == [] || (LeadW(s) < 4 && RunsShort(s[1..]))
  }

  lemma {:induction false} RunsShortMeansNoRunOf4(s: string)
    ensures RunsShort(s) <==> NoRunOf4(s)
    decreases |s|
  {
    if s != [] {
      RunsShortMeansNoRunOf4(s[1..]);
      var t := s[1..];
      assert |s| >= 4 ==> (LeadW(s) >= 4 <==> RunOf4At(s, 0));
      assert forall i :: 1 <= i <= |s| - 4 ==> (RunOf4At(s, i) <==> RunOf4At(t, i - 1));
      if NoRunOf4(t) && LeadW(s) < 4 {
        forall i | 0 <= i <= |s| - 4 ensures !RunOf4At(s, i) {
          if i > 0 {
            assert !RunOf4At(t, i - 1);
          }
        }
      }
      if NoRunOf4(s) {
        forall i | 0 <= i <= |t| - 4 ensures !RunOf4At(t, i) {
          assert !RunOf4At(s, i + 1);
        }
      }
    }
  }

  lemma {:induction false} RunsShortSuffix(s: string, i: nat)
    requires RunsShort(s) && i <= |s|
    ensures RunsShort(s[i..])
    decreases i
  {
    if i > 0 {
      RunsShortSuffix(s[1..], i - 1);
      assert s[1..][i - 1..] == s[i..];
    }
  }

  lemma {:induction false} LeadWPrefix(s: string, j: nat)
    requires j <= |s|
    ensures LeadW(s[..j]) <= LeadW(s)
    decreases j
  {
    if j > 0 && IsW(s[0]) {
      LeadWPrefix(s[1..], j - 1);
      assert s[..j][1..] == s[1..][..j - 1];
    }
  }

  lemma {:induction false} RunsShortPrefix(s: string, j: nat)
    requires RunsShort(s) && j <= |s|
    ensures RunsShort(s[..j])
    decreases j
  {
    if j > 0 {
      LeadWPrefix(s, j);
      RunsShortPrefix(s[1..], j - 1);
      assert s[..j][1..] == s[1..][..j - 1];
    }
  }

  /** A `w`-free piece in front keeps runs short. */
  lemma {:induction false} RunsShortAfterWFree(v: string, t: string)
    requires forall c :: c in v ==> !IsW(c)
    requires RunsShort(t)
    ensures RunsShort(v + t)
    decreases |v|
  {
    if v == [] {
      assert v + t == t;
    } else {
      assert v[0] in v;
      assert (v + t)[0] == v[0];
      assert (v + t)[1..] == v[1..] + t;
      RunsShortAfterWFree(v[1..], t);
    }
  }

  /** Any run of three or more becomes exactly three; shorter runs stay as they are. */
  lemma {:induction false} CollapseLeadW(s: string)
    ensures LeadW(CollapseW(s)) == if LeadW(s) >= 3 then 3 else LeadW(s)
    decreases |s|
  {
    if s != [] {
      var n := LeadW(s);
      if n >= 3 {
        var rest := s[n..];
        CollapseLeadW(rest);
        assert LeadW(rest) == 0;
        var r := CollapseW(rest);
        var a := ['w'] + r;
        var b := ['w'] + a;
        assert a[1..] == r && b[1..] == a;
        assert "www" + r == ['w'] + b;
        assert (['w'] + b)[1..] == b;
      } else {
        CollapseLeadW(s[1..]);
      }
    }
  }

  /** After the collapse, no run of four or more `w`/`W` remains. */
  lemma {:induction false} CollapseRunsShort(s: string)
    ensures RunsShort(CollapseW(s))
    decreases |s|
  {
    if s != [] {
      var n := LeadW(s);
      CollapseLeadW(s);
      if n >= 3 {
        var rest := s[n..];
        CollapseRunsShort(rest);
        CollapseLeadW(rest);
        var r := CollapseW(rest);
        var ww := ['w'] + r;
        assert LeadW(ww) == 1;
        assert LeadW(['w'] + ww) == 2;
        assert ("www" + r)[1..] == ['w'] + ww;
        assert (['w'] + ww)[1..] == ww;
        assert ww[1..] == r;
      } else {
        CollapseRunsShort(s[1..]);
        CollapseLeadW(s[1..]);
      }
    }
  }

  /** Collapsing is idempotent: collapsed text has no run left to collapse. */
  lemma {:induction false} CollapseIdempotent(s: string)
    ensures CollapseW(CollapseW(s)) == CollapseW(s)
    decreases |s|
  {
    if s != [] {
      var n := LeadW(s);
      var r := CollapseW(s);
      CollapseLeadW(s);
      if n >= 3 {
        var rest := s[n..];
        CollapseLeadW(rest);
        CollapseIdempotent(rest);
        assert r[3..] == CollapseW(rest);
      } else {
        CollapseIdempotent(s[1..]);
        assert r[1..] == CollapseW(s[1..]);
      }
    }
  }

  lemma LeadWCons(c: char, t: string)
    ensures LeadW([c] + t) == if IsW(c) then 1 + LeadW(t) else 0
  {
    assert ([c] + t)[1..] == t;
  }

  /** Replacing a literal by `w`-free, non-empty text creates no run. */
  lemma {:induction false} ReplaceAllRunsShort(s: string, k: string, v: string)
    requires k != [] && v != [] && forall c :: c in v ==> !IsW(c)
    requires RunsShort(s)
    ensures RunsShort(ReplaceAll(s, k, v)) && LeadW(ReplaceAll(s, k, v)) <= LeadW(s)
    decreases |s|
  {
    if |s| >= |k| {
      if k <= s {
        var rest := ReplaceAll(s[|k|..], k, v);
        RunsShortSuffix(s, |k|);
        ReplaceAllRunsShort(s[|k|..], k, v);
        RunsShortAfterWFree(v, rest);
        assert v[0] in v;
        assert (v + rest)[0] == v[0];
      } else {
        ReplaceAllRunsShort(s[1..], k, v);
        LeadWCons(s[0], ReplaceAll(s[1..], k, v));
        assert ([s[0]] + ReplaceAll(s[1..], k, v))[1..] == ReplaceAll(s[1..], k, v);
      }
    }
  }

  /** The same for `ReplaceAfter` when the kept character cannot be a `w`. */
  lemma {:induction false} ReplaceAfterRunsShort(s: string, lead: char -> bool, pat: string, rep: string)
    requires forall c :: lead(c) ==> !IsW(c)
    requires forall c :: c in rep ==> !IsW(c)
    requires RunsShort(s)
    ensures RunsShort(ReplaceAfter(s, lead, pat, rep)) && LeadW(ReplaceAfter(s, lead, pat, rep)) <= LeadW(s)
    decreases |s|
  {
    if s != [] {
      if lead(s[0]) && pat <= s[1..] {
        var rest := ReplaceAfter(s[1 + |pat|..], lead, pat, rep);
        RunsShortSuffix(s, 1 + |pat|);
        ReplaceAfterRunsShort(s[1 + |pat|..], lead, pat, rep);
        RunsShortAfterWFree([s[0]] + rep, rest);
        assert ([s[0]] + rep + rest)[0] == s[0];
      } else {
        var rest := ReplaceAfter(s[1..], lead, pat, rep);
        ReplaceAfterRunsShort(s[1..], lead, pat, rep);
        LeadWCons(s[0], rest);
        assert ([s[0]] + rest)[1..] == rest;
      }
    }
  }

  lemma SliceChars(s: string, i: nat, j: nat)
    requires i <= j <= |s|
    ensures forall c :: c in s[i..j] ==> c in s
  {
    forall c | c in s[i..j] ensures c in s {
      var k :| 0 <= k < j - i && s[i..j][k] == c;
      assert s[i + k] == c;
    }
  }

  lemma TrimChars(s: string)
    ensures forall c :: c in Trim(s) ==> c in s
  {
    var i := TrimSpec(s);
    SliceChars(s, i, i + |Trim(s)|);
  }

  lemma EarlyFixesNoZeroWidth(t0: string)
    ensures forall c :: c in EarlyFixes(t0) ==> !IsZeroWidth(c)
  {
    var t1 := RemoveZeroWidth(t0);
    var t2 := RemoveUrls(t1);
    var t3 := ReplaceAfter(t2, IsNonAscii, "かルー", "から");
    var t4 := ReplaceAfter(t3, IsNonAscii, "かル", "から");
    var t5 := ReplaceAll(t4, "でルー", "で");
    RemoveZeroWidthChars(t0);
    RemoveUrlsChars(t1);
    ReplaceAfterChars(t2, IsNonAscii, "かルー", "から");
    ReplaceAfterChars(t3, IsNonAscii, "かル", "から");
    ReplaceAllChars(t4, "でルー", "で");
    CollapseWChars(t5);
    assert forall c :: c in "から" + "で" ==> !IsZeroWidth(c);
  }

  lemma LateFixesChars(t6: string)
    ensures forall c :: c in LateFixes(t6) ==> c in t6 || c in "男だから" + "さーん♡" + "ーん♡"
  {
    var t7 := StripLeadingNoise(t6);
    var t8 := ReplaceAll(t7, "0だから", "男だから");
    var t9 := ReplaceAll(t8, "さーんく", "さーん♡");
    SliceChars(t6, |t6| - |t7|, |t6|);
    ReplaceAllChars(t7, "0だから", "男だから");
    ReplaceAllChars(t8, "さーんく", "さーん♡");
    ReplaceAfterChars(t9, IsHiragana, "ーんく", "ーん♡");
  }

  lemma EarlyFixesRunsShort(t0: string)
    ensures RunsShort(EarlyFixes(t0))
  {
    var t1 := RemoveZeroWidth(t0);
    var t2 := RemoveUrls(t1);
    var t3 := ReplaceAfter(t2, IsNonAscii, "かルー", "から");
    var t4 := ReplaceAfter(t3, IsNonAscii, "かル", "から");
    var t5 := ReplaceAll(t4, "でルー", "で");
    CollapseRunsShort(t5);
  }

  lemma LateFixesRunsShort(t6: string)
    requires RunsShort(t6)
    ensures RunsShort(LateFixes(t6))
  {
    var t7 := StripLeadingNoise(t6);
    var t8 := ReplaceAll(t7, "0だから", "男だから");
    var t9 := ReplaceAll(t8, "さーんく", "さーん♡");
    RunsShortSuffix(t6, |t6| - |t7|);
    ReplaceAllRunsShort(t7, "0だから", "男だから");
    ReplaceAllRunsShort(t8, "さーんく", "さーん♡");
    ReplaceAfterRunsShort(t9, IsHiragana, "ーんく", "ーん♡");
    assert LateFixes(t6) == ReplaceAfter(t9, IsHiragana, "ーんく", "ーん♡");
  }

  lemma TrimRunsShort(s: string)
    requires RunsShort(s)
    ensures RunsShort(Trim(s))
  {
    var u := TrimStart(s);
    RunsShortSuffix(s, |s| - |u|);
    RunsShortPrefix(u, |TrimEnd(u)|);
  }

  /** `cleanOCRText` returns a string that neither starts nor ends with
      whitespace. */
  lemma CleanOcrTextTrimmed(text: string)
    ensures IsTrimmed(CleanOcrText(text))
  {
    if text != [] {
      TrimEnds(LateFixes(EarlyFixes(Trim(text))));
    }
  }

  /** The result holds no zero-width character (U+200B to U+200D, U+FEFF):
      they are all removed early and no later step introduces one. */
  lemma CleanOcrTextNoZeroWidth(text: string)
    ensures forall c :: c in CleanOcrText(text) ==> !IsZeroWidth(c)
  {
    if text != [] {
      var t6 := EarlyFixes(Trim(text));
      var t10 := LateFixes(t6);
      EarlyFixesNoZeroWidth(Trim(text));
      LateFixesChars(t6);
      LateConstantsNoZeroWidth();
      TrimChars(t10);
    }
  }

  lemma LateConstantsNoZeroWidth()
    ensures forall c :: c in "男だから" + "さーん♡" + "ーん♡" ==> !IsZeroWidth(c)
  {
  }

  /** The result has no run of four or more `w`/`W`: every run of three or more
      was collapsed to `www`, and no later step joins runs. */
  lemma CleanOcrTextNoRunOf4(text: string)
    ensures NoRunOf4(CleanOcrText(text))
  {
    if text != [] {
      var t6 := EarlyFixes(Trim(text));
      var t10 := LateFixes(t6);
      EarlyFixesRunsShort(Trim(text));
      LateFixesRunsShort(t6);
      TrimRunsShort(t10);
      RunsShortMeansNoRunOf4(Trim(t10));
    } else {
      RunsShortMeansNoRunOf4([]);
    }
  }
}

/**
  Quote-image handling after OCR: recognising a "Make it a Quote" image by its
  branding, and filtering the already grouped text lines of such an image
  (rules A to D). Both copies of the engine are covered; they differ in the
  branding alternatives and in the `(Fake)` line rule.
 */
module QuoteLines {
  import opened JsText

  /** Which copy of the engine: `dist_unified/index.js` or the top-level `index.js`. */
  datatype Variant = Dist | Root

  /** One element of a branding pattern: a literal letter matched without
      regard to ASCII case, `\s*`, or `[ \t]*`. */
  datatype Tok = Letter(c: char) | AnySpaces | Blanks

  /** ASCII case folding, which is what the `i` flag does for ASCII letters. */
  function Lower(c: char): char {
    if 'A' <= c <= 'Z' then (c as int + 32) as char else c
  }

  predicate InGap(c: char, t: Tok)
    requires !t.Letter?
  {
    if t.AnySpaces? then IsSpace(c) else c == ' ' || c == '\t'
  }

  /** The pattern matches some prefix of `s`. */
  predicate MatchesPrefix(s: string, p: seq<Tok>)
    decreases |s| + |p|
  {
    if p == [] then true
    else match p[0]
      case Letter(c) => s != [] && Lower(s[0]) == Lower(c) && MatchesPrefix(s[1..], p[1..])
      case _ => MatchesPrefix(s, p[1..]) || (s != [] && InGap(s[0], p[0]) && MatchesPrefix(s[1..], p))
  }

  /** The pattern matches somewhere in `s` (`RegExp.prototype.test` without anchors). */
  predicate Contains(s: string, p: seq<Tok>)
    decreases |s|
  {
    MatchesPrefix(s, p) || (s != [] && Contains(s[1..], p))
  }

  function Letters(w: string): seq<Tok> {
    if w == [] then [] else [Letter(w[0])] + Letters(w[1..])
  }

  /** `Make<gap>it<gap>a<gap>Quote` */
  function MakeItAQuote(gap: Tok): seq<Tok> {
    Letters("Make") + [gap] + Letters("it") + [gap] + Letters("a") + [gap] + Letters("Quote")
  }

  /** `Quote<gap>Maker` */
  function QuoteMaker(gap: Tok): seq<Tok> {
    Letters("Quote") + [gap] + Letters("Maker")
  }

  /** `Fake<gap>Quote<gap>Maker` */
  function FakeQuoteMaker(gap: Tok): seq<Tok> {
    Letters("Fake") + [gap] + QuoteMaker(gap)
  }

  /** The quote-image test on the full OCR text. */
  predicate IsQuoteImage(fullText: string, v: Variant) {
    || Contains(fullText, MakeItAQuote(AnySpaces))
    || Contains(fullText, QuoteMaker(AnySpaces))
    || (v == Dist && Contains(fullText, FakeQuoteMaker(AnySpaces)))
  }

  // ---------------------------------------------------------------------
  // The extra `Fake...Maker` alternative is subsumed by `Quote...Maker`

  lemma {:induction false} DropLetters(s: string, w: string, q: seq<Tok>)
    requires MatchesPrefix(s, Letters(w) + q)
    ensures |w| <= |s| && MatchesPrefix(s[|w|..], q)
    decreases |w|
  {
    var p := Letters(w) + q;
    if w == [] {
      assert p == q;
    } else {
      assert p[0] == Letter(w[0]) && p[1..] == Letters(w[1..]) + q;
      DropLetters(s[1..], w[1..], q);
      assert s[1..][|w| - 1..] == s[|w|..];
    }
  }

  lemma {:induction false} DropGap(s: string, gap: Tok, q: seq<Tok>) returns (j: nat)
    requires !gap.Letter?
    requires MatchesPrefix(s, [gap] + q)
    ensures j <= |s| && MatchesPrefix(s[j..], q)
    decreases |s|
  {
    assert ([gap] + q)[1..] == q;
    if MatchesPrefix(s, q) {
      j := 0;
    } else {
      var k := DropGap(s[1..], gap, q);
      j := k + 1;
      assert s[1..][k..] == s[j..];
    }
  }

  lemma {:induction false} ContainsAt(s: string, j: nat, q: seq<Tok>)
    requires j <= |s| && MatchesPrefix(s[j..], q)
    ensures Contains(s, q)
    decreases j
  {
    if j > 0 {
      ContainsAt(s[1..], j - 1, q);
      assert s[1..][j - 1..] == s[j..];
    }
  }

  lemma {:induction false} FakeImpliesQuoteMaker(s: string, gap: Tok)
    requires !gap.Letter?
    requires Contains(s, FakeQuoteMaker(gap))
    ensures Contains(s, QuoteMaker(gap))
    decreases |s|
  {
    if MatchesPrefix(s, FakeQuoteMaker(gap)) {
      assert FakeQuoteMaker(gap) == Letters("Fake") + ([gap] + QuoteMaker(gap));
      DropLetters(s, "Fake", [gap] + QuoteMaker(gap));
      var t := s[4..];
      var j := DropGap(t, gap, QuoteMaker(gap));
      assert t[j..] == s[4 + j..];
      ContainsAt(s, 4 + j, QuoteMaker(gap));
    } else {
      FakeImpliesQuoteMaker(s[1..], gap);
    }
  }

  /** Both copies classify every image the same way: any text that matches
      `Fake\s*Quote\s*Maker` also matches `Quote\s*Maker`. */
  lemma QuoteDetectionAgrees(fullText: string)
    ensures IsQuoteImage(fullText, Dist) == IsQuoteImage(fullText, Root)
  {
    if Contains(fullText, FakeQuoteMaker(AnySpaces)) {
      FakeImpliesQuoteMaker(fullText, AnySpaces);
    }
  }

  // ---------------------------------------------------------------------
  // Line rules A to D

  /** `^\(Fake\)$` with the `i` flag. */
  predicate IsFakeTag(t: string) {
    |t| == 6 && MatchesPrefix(t, Letters("(Fake)"))
  }

  /** Rule A: a branding line. The `dist_unified` copy also drops a line that
      reads `(Fake)` once trimmed. */
  predicate IsBrandingLine(line: string, v: Variant) {
    || Contains(line, MakeItAQuote(Blanks))
    || Contains(line, QuoteMaker(Blanks))
    || (v == Dist && (Contains(line, FakeQuoteMaker(Blanks)) || IsFakeTag(Trim(line))))
  }

  /** Rule B: `^[-—|]`, a signature line. */
  predicate IsSignatureLine(line: string) {
    line != [] && (line[0] == '-' || line[0] == '—' || line[0] == '|')
  }

  /** Rule C: `^@`, a handle line. */
  predicate IsHandleLine(line: string) {
    line != [] && line[0] == '@'
  }

  /** Rule D: a short line directly above a handle line is a display name. The
      next line is taken from the unfiltered list. */
  predicate IsDisplayName(lines: seq<string>, i: nat)
    requires i < |lines|
  {
    i < |lines| - 1 && IsHandleLine(lines[i + 1]) && |lines[i]| < 30
  }

  /** Whether line `i` survives: every line of an ordinary image does, and a
      line of a quote image does when none of the rules A to D drops it. */
  predicate Keep(lines: seq<string>, i: nat, isQuote: bool, v: Variant)
    requires i < |lines|
  {
    !isQuote ||
    !(IsBrandingLine(lines[i], v) || IsSignatureLine(lines[i]) || IsHandleLine(lines[i]) || IsDisplayName(lines, i))
  }

  /** The verdict of `Keep` for every line. */
  function Verdicts(lines: seq<string>, isQuote: bool, v: Variant): seq<bool> {
    seq(|lines|, i requires 0 <= i < |lines| => Keep(lines, i, isQuote, v))
  }

  /** The lines among the first `n` whose verdict is true, in their original order. */
  function Select(lines: seq<string>, keep: seq<bool>, n: nat): (r: seq<string>)
    requires |keep| == |lines| && n <= |lines|
    ensures |r| <= n
  {
    if n == 0 then []
    else Select(lines, keep, n - 1) + (if keep[n - 1] then [lines[n - 1]] else [])
  }

  /** `lines.map(getLineText).filter((lineText, i, arr) => ...)` */
  function FilterLines(lines: seq<string>, isQuote: bool, v: Variant): (r: seq<string>)
    ensures |r| <= |lines|
  {
    Select(lines, Verdicts(lines, isQuote, v), |lines|)
  }

  /** The `for` loop that pushes the surviving lines onto `validLines`. */
  method FilterLinesLoop(lines: seq<string>, isQuote: bool, v: Variant) returns (validLines: seq<string>)
    ensures validLines == FilterLines(lines, isQuote, v)
  {
    ghost var keep := Verdicts(lines, isQuote, v);
    validLines := [];
    for i := 0 to |lines|
      invariant validLines == Select(lines, keep, i)
    {
      var lineText := lines[i];
      assert keep[i] == Keep(lines, i, isQuote, v);
      assert Select(lines, keep, i + 1) == validLines + (if keep[i] then [lineText] else []);
      if isQuote {
        if IsBrandingLine(lineText, v) { continue; }
        if IsSignatureLine(lineText) { continue; }
        if IsHandleLine(lineText) { continue; }
        if i < |lines| - 1 {
          if IsHandleLine(lines[i + 1]) {
            if |lineText| < 30 { continue; }
          }
        }
      }
      validLines := validLines + [lineText];
    }
  }

  lemma {:induction false} SelectAll(lines: seq<string>, keep: seq<bool>, n: nat)
    requires |keep| == |lines| && n <= |lines|
    requires forall i :: 0 <= i < |keep| ==> keep[i]
    ensures Select(lines, keep, n) == lines[..n]
  {
    if n > 0 {
      SelectAll(lines, keep, n - 1);
      assert lines[..n] == lines[..n - 1] + [lines[n - 1]];
    }
  }

  /** Every line of an image without quote branding is kept. */
  lemma OrdinaryImageKeepsAllLines(lines: seq<string>, v: Variant)
    ensures FilterLines(lines, false, v) == lines
  {
    SelectAll(lines, Verdicts(lines, false, v), |lines|);
  }

  /** `Select` is the subsequence of exactly the lines whose verdict is true:
      `idx` lists their positions in increasing order. */
  lemma {:induction false} SelectIndices(lines: seq<string>, keep: seq<bool>, n: nat)
      returns (idx: seq<nat>)
    requires |keep| == |lines| && n <= |lines|
    ensures var r := Select(lines, keep, n);
      && |idx| == |r|
      && (forall j :: 0 <= j < |idx| ==> idx[j] < n && r[j] == lines[idx[j]])
      && (forall j, k :: 0 <= j < k < |idx| ==> idx[j] < idx[k])
      && (forall i :: 0 <= i < n ==> (i in idx <==> keep[i]))
  {
    if n == 0 {
      idx := [];
    } else {
      var prev := SelectIndices(lines, keep, n - 1);
      var rp := Select(lines, keep, n - 1);
      assert n - 1 !in prev;
      if keep[n - 1] {
        idx := prev + [n - 1];
        var r := rp + [lines[n - 1]];
        assert Select(lines, keep, n) == r;
        forall j | 0 <= j < |idx|
          ensures idx[j] < n && r[j] == lines[idx[j]]
        {
          if j < |prev| {
            assert idx[j] == prev[j] && r[j] == rp[j];
          }
        }
        forall j, k | 0 <= j < k < |idx|
          ensures idx[j] < idx[k]
        {
          assert idx[j] == prev[j];
        }
        forall i | 0 <= i < n
          ensures i in idx <==> keep[i]
        {
          assert i in idx <==> i in prev || i == n - 1;
        }
      } else {
        idx := prev;
        assert Select(lines, keep, n) == rp;
      }
    }
  }

  /** The filter keeps, in their original order, exactly the lines that no rule
      drops: `idx` lists the positions of the kept lines. In particular a line
      shorter than 30 characters directly above a line starting with `@` is
      dropped, while rule D never drops a line of 30 or more characters. */
  lemma FilterIsOrderedSelection(lines: seq<string>, isQuote: bool, v: Variant) returns (idx: seq<nat>)
    ensures var r := FilterLines(lines, isQuote, v);
      && |idx| == |r|
      && (forall j :: 0 <= j < |idx| ==> idx[j] < |lines| && r[j] == lines[idx[j]])
      && (forall j, k :: 0 <= j < k < |idx| ==> idx[j] < idx[k])
      && (forall i :: 0 <= i < |lines| ==> (i in idx <==> Keep(lines, i, isQuote, v)))
  {
    idx := SelectIndices(lines, Verdicts(lines, isQuote, v), |lines|);
  }

  /** No line kept from a quote image is branding or starts with `@`, `-`, `—` or `|`. */
  lemma KeptLinesAreClean(lines: seq<string>, v: Variant)
    ensures forall x :: x in FilterLines(lines, true, v) ==>
      !IsBrandingLine(x, v) && !IsSignatureLine(x) && !IsHandleLine(x)
  {
    var r := FilterLines(lines, true, v);
    var idx := FilterIsOrderedSelection(lines, true, v);
    forall x | x in r
      ensures !IsBrandingLine(x, v) && !IsSignatureLine(x) && !IsHandleLine(x)
    {
      var j :| 0 <= j < |r| && r[j] == x;
      assert idx[j] in idx;
      assert Keep(lines, idx[j], true, v);
    }
  }

  /** Without a line reading `(Fake)`, both copies keep the same lines. */
  lemma FilterVariantsAgree(lines: seq<string>, isQuote: bool)
    requires forall i :: 0 <= i < |lines| ==> !IsFakeTag(Trim(lines[i]))
    ensures FilterLines(lines, isQuote, Dist) == FilterLines(lines, isQuote, Root)
  {
    forall i | 0 <= i < |lines|
      ensures IsBrandingLine(lines[i], Dist) == IsBrandingLine(lines[i], Root)
    {
      if Contains(lines[i], FakeQuoteMaker(Blanks)) {
        FakeImpliesQuoteMaker(lines[i], Blanks);
      }
    }
    assert Verdicts(lines, isQuote, Dist) == Verdicts(lines, isQuote, Root);
  }
}

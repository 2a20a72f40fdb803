/**
  Length limits on outgoing text: the 200-character cap on each spoken segment,
  the 2000-character cap on the "文章：" reply, and the splitting of the
  `/dict list` reply into chunks of at most 1900 characters.
 */
module Limits {

  /** `if (s.length > limit) s = s.substring(0, limit - 3) + "..."` */
  function Ellipsize(s: string, limit: nat): (r: string)
    requires limit >= 3
    ensures |r| <= limit
    ensures |s| <= limit ==> r == s
    ensures |s| > limit ==> |r| == limit && r[..limit - 3] == s[..limit - 3] && r[limit - 3..] == "..."
  {
    if |s| > limit then s[..limit - 3] + "..." else s
  }

  /** Ellipsizing a second time changes nothing. */
  lemma EllipsizeIdempotent(s: string, limit: nat)
    requires limit >= 3
    ensures Ellipsize(Ellipsize(s, limit), limit) == Ellipsize(s, limit)
  {
  }

  const SegmentLimit: nat := 200
  const ReplyLimit: nat := 2000

  /** A segment sent to speech synthesis. */
  function SpeechText(segment: string): (r: string)
    ensures |r| <= 200
    ensures |segment| <= 200 ==> r == segment
    ensures |segment| > 200 ==> |r| == 200 && r[..197] == segment[..197] && r[197..] == "..."
    ensures r == [] <==> segment == []
  {
    Ellipsize(segment, SegmentLimit)
  }

  /** The reply to a mention: the recognised text behind the "文章：" label. */
  function ReplyMessage(replyText: string): (r: string)
    ensures |r| <= 2000
    ensures 3 + |replyText| <= 2000 ==> r == "文章：" + replyText
    ensures 3 + |replyText| > 2000 ==> |r| == 2000 && r[..3] == "文章：" && r[3..1997] == replyText[..1994] && r[1997..] == "..."
  {
    var full := "文章：" + replyText;
    assert full[3..] == replyText;
    Ellipsize(full, ReplyLimit)
  }

  /** The segments that are spoken, in order: each one capped, the empty ones skipped. */
  function SpokenSegments(segments: seq<string>): (r: seq<string>)
    ensures |r| <= |segments|
    ensures forall t :: t in r ==> 0 < |t| <= 200
  {
    if segments == [] then []
    else
      var text := SpeechText(segments[0]);
      (if text != [] then [text] else []) + SpokenSegments(segments[1..])
  }

  /** The positions of the non-empty segments, in order. */
  function NonEmptyIndices(segments: seq<string>): (r: seq<nat>)
    ensures |r| <= |segments|
    ensures forall j :: 0 <= j < |r| ==> r[j] < |segments|
    decreases |segments|
  {
    if segments == [] then []
    else (if segments[0] != [] then [0] else []) + Shift(NonEmptyIndices(segments[1..]))
  }

  /** The positions listed are increasing, and a position is listed exactly
      when its segment is non-empty. */
  lemma {:induction false} NonEmptyIndicesFacts(segments: seq<string>)
    ensures var idx := NonEmptyIndices(segments);
      && (forall j, k :: 0 <= j < k < |idx| ==> idx[j] < idx[k])
      && (forall i :: 0 <= i < |segments| ==> (i in idx <==> segments[i] != []))
    decreases |segments|
  {
    if segments != [] {
      var tail := segments[1..];
      NonEmptyIndicesFacts(tail);
      ShiftedIndices(NonEmptyIndices(tail), segments[0] != []);
      forall i | 1 <= i < |segments|
        ensures i in NonEmptyIndices(segments) <==> segments[i] != []
      {
        assert segments[i] == tail[i - 1];
      }
    }
  }

  /** The `j`th spoken text is the capped segment at the `j`th non-empty position. */
  lemma {:induction false} SpokenSegmentsAt(segments: seq<string>)
    ensures var idx := NonEmptyIndices(segments);
      var r := SpokenSegments(segments);
      |r| == |idx| && forall j :: 0 <= j < |r| ==> r[j] == SpeechText(segments[idx[j]])
    decreases |segments|
  {
    if segments != [] {
      var tail := segments[1..];
      SpokenSegmentsAt(tail);
      var rest := NonEmptyIndices(tail);
      var r' := SpokenSegments(tail);
      var text := SpeechText(segments[0]);
      var r := SpokenSegments(segments);
      var idx := NonEmptyIndices(segments);
      var h := if segments[0] != [] then 1 else 0;
      assert r == (if text != [] then [text] else []) + r';
      assert idx == (if segments[0] != [] then [0] else []) + Shift(rest);
      assert (text != []) == (segments[0] != []);
      forall j | 0 <= j < |r|
        ensures r[j] == SpeechText(segments[idx[j]])
      {
        if j >= h {
          assert r[j] == r'[j - h];
          assert idx[j] == rest[j - h] + 1;
          assert segments[idx[j]] == tail[rest[j - h]];
        }
      }
    }
  }

  /** The spoken segments are exactly the non-empty segments, each capped, in
      their original order. */
  lemma SpokenSegmentsSelect(segments: seq<string>)
    ensures var idx := NonEmptyIndices(segments);
      var r := SpokenSegments(segments);
      && |r| == |idx|
      && (forall j :: 0 <= j < |r| ==> r[j] == SpeechText(segments[idx[j]]))
      && (forall j, k :: 0 <= j < k < |idx| ==> idx[j] < idx[k])
      && (forall i :: 0 <= i < |segments| ==> (i in idx <==> segments[i] != []))
  {
    SpokenSegmentsAt(segments);
    NonEmptyIndicesFacts(segments);
  }

  /** Putting an optional 0 in front of indices shifted by one keeps them
      increasing and moves every index up by one. */
  lemma ShiftedIndices(rest: seq<nat>, zero: bool)
    requires forall j, k :: 0 <= j < k < |rest| ==> rest[j] < rest[k]
    ensures var idx := (if zero then [0] else []) + Shift(rest);
      && (forall j, k :: 0 <= j < k < |idx| ==> idx[j] < idx[k])
      && (0 in idx <==> zero)
      && (forall i: nat :: 1 <= i ==> (i in idx <==> i - 1 in rest))
  {
    var shifted := Shift(rest);
    var idx := (if zero then [0] else []) + shifted;
    var h := if zero then 1 else 0;
    forall j | h <= j < |idx|
      ensures idx[j] == rest[j - h] + 1
    {
      assert idx[j] == shifted[j - h];
    }
    ShiftedMembers(rest);
    assert 0 !in shifted;
  }

  lemma ShiftedMembers(rest: seq<nat>)
    ensures forall i: nat :: 1 <= i ==> (i in Shift(rest) <==> i - 1 in rest)
  {
    var shifted := Shift(rest);
    forall i: nat | 1 <= i
      ensures i in shifted <==> i - 1 in rest
    {
      if i - 1 in rest {
        var k :| 0 <= k < |rest| && rest[k] == i - 1;
        assert shifted[k] == i;
      }
    }
  }

  /** Adds one to every index. */
  function Shift(xs: seq<nat>): seq<nat> {
    seq(|xs|, i requires 0 <= i < |xs| => xs[i] + 1)
  }

  // ---------------------------------------------------------------------
  // `/dict list`

  const Header: string := "登録単語一覧:\n"
  const ChunkLimit: nat := 1900

  /** One listed entry, `${k} -> ${v}`. */
  function FormatEntry(word: string, reading: string): (r: string)
    ensures |r| == |word| + 4 + |reading|
    ensures r[..|word|] == word && r[|word|..|word| + 4] == " -> " && r[|word| + 4..] == reading
  {
    word + " -> " + reading
  }

  /** The chunks produced from the chunk being built, `cur`, and the entries
      still to add: a chunk is closed only when appending the next entry and its
      newline would take it past 1900 characters. */
  function ChunksFrom(cur: string, entries: seq<string>): (r: seq<string>)
    ensures r != [] && cur <= r[0]
    decreases |entries|
  {
    if entries == [] then [cur]
    else if |cur| + |entries[0]| + 1 > ChunkLimit then [cur] + ChunksFrom(entries[0] + "\n", entries[1..])
    else ChunksFrom(cur + entries[0] + "\n", entries[1..])
  }

  /** The `/dict list` chunks: at least one, the first opening with the header. */
  function Chunks(entries: seq<string>): (r: seq<string>)
    ensures r != [] && Header <= r[0]
  {
    ChunksFrom(Header, entries)
  }

  /** The loop that fills `chunks`. The final push is guarded by `if (currentChunk)`
      in `dist_unified/index.js` and unconditional in `index.js`; `guardFinal`
      selects the copy, and both give the same chunks. */
  method ChunkEntries(entries: seq<string>, guardFinal: bool) returns (chunks: seq<string>)
    ensures chunks == Chunks(entries)
  {
    chunks := [];
    var currentChunk := Header;
    for i := 0 to |entries|
      invariant currentChunk != []
      invariant chunks + ChunksFrom(currentChunk, entries[i..]) == Chunks(entries)
    {
      var entry := entries[i];
      assert entries[i..][0] == entry && entries[i..][1..] == entries[i + 1..];
      if |currentChunk| + |entry| + 1 > ChunkLimit {
        assert ChunksFrom(currentChunk, entries[i..]) == [currentChunk] + ChunksFrom(entry + "\n", entries[i + 1..]);
        chunks := chunks + [currentChunk];
        currentChunk := "";
        assert currentChunk + entry + "\n" == entry + "\n";
      }
      currentChunk := currentChunk + entry + "\n";
    }
    if !guardFinal || currentChunk != [] {
      chunks := chunks + [currentChunk];
    }
  }

  /** `Object.entries(dictionary).map(([k, v]) => `${k} -> ${v}`)` */
  function Formatted(dict: seq<(string, string)>): seq<string> {
    seq(|dict|, i requires 0 <= i < |dict| => FormatEntry(dict[i].0, dict[i].1))
  }

  /** The whole `/dict list` reply for the dictionary's entries: a single notice
      for an empty dictionary, the chunks of the listed entries otherwise. */
  function ListReply(dict: seq<(string, string)>): (r: seq<string>)
    ensures r != []
    ensures dict == [] ==> r == ["辞書は空です。"]
    ensures dict != [] ==> r == Chunks(Formatted(dict))
  {
    if dict == [] then ["辞書は空です。"] else Chunks(Formatted(dict))
  }

  /** Each entry followed by a newline, all joined. */
  function Lines(entries: seq<string>): string {
    if entries == [] then "" else entries[0] + "\n" + Lines(entries[1..])
  }

  function Concat(chunks: seq<string>): string {
    if chunks == [] then "" else chunks[0] + Concat(chunks[1..])
  }

  lemma {:induction false} ConcatAppend(a: seq<string>, b: seq<string>)
    ensures Concat(a + b) == Concat(a) + Concat(b)
  {
    if a != [] {
      assert (a + b)[0] == a[0] && (a + b)[1..] == a[1..] + b;
      calc {
        Concat(a + b);
        a[0] + Concat(a[1..] + b);
        { ConcatAppend(a[1..], b); }
        a[0] + (Concat(a[1..]) + Concat(b));
        (a[0] + Concat(a[1..])) + Concat(b);
      }
    } else {
      assert a + b == b;
    }
  }

  lemma {:induction false} ChunksFromConcat(cur: string, entries: seq<string>)
    ensures Concat(ChunksFrom(cur, entries)) == cur + Lines(entries)
    decreases |entries|
  {
    if entries == [] {
      assert Concat([cur]) == cur + Concat([]);
    } else {
      var e := entries[0];
      if |cur| + |e| + 1 > ChunkLimit {
        ChunksFromConcat(e + "\n", entries[1..]);
        ConcatAppend([cur], ChunksFrom(e + "\n", entries[1..]));
        assert Concat([cur]) == cur + Concat([]);
      } else {
        ChunksFromConcat(cur + e + "\n", entries[1..]);
      }
    }
  }

  /** Nothing is lost or added: the chunks joined are the header followed by
      every entry and its newline. */
  lemma ChunksConcat(entries: seq<string>)
    ensures Concat(Chunks(entries)) == Header + Lines(entries)
  {
    ChunksFromConcat(Header, entries);
  }

  lemma {:induction false} ChunksFromBounded(cur: string, entries: seq<string>)
    requires |cur| <= ChunkLimit
    ensures (forall c :: c in ChunksFrom(cur, entries) ==> |c| <= ChunkLimit)
        <==> (forall e :: e in entries ==> |e| < ChunkLimit)
    decreases |entries|
  {
    if entries != [] {
      var e := entries[0];
      assert forall x :: x in entries <==> x == e || x in entries[1..] by {
        assert entries == [e] + entries[1..];
      }
      if |cur| + |e| + 1 > ChunkLimit {
        var rest := ChunksFrom(e + "\n", entries[1..]);
        assert |rest[0]| >= |e| + 1;
        assert rest[0] in [cur] + rest;
        if |e| < ChunkLimit {
          ChunksFromBounded(e + "\n", entries[1..]);
        }
      } else {
        ChunksFromBounded(cur + e + "\n", entries[1..]);
      }
    }
  }

  /** Every chunk fits in 1900 characters exactly when every entry is at most
      1899 characters long (room for its newline). */
  lemma ChunksBounded(entries: seq<string>)
    ensures (forall c :: c in Chunks(entries) ==> |c| <= ChunkLimit)
        <==> (forall e :: e in entries ==> |e| < ChunkLimit)
  {
    ChunksFromBounded(Header, entries);
  }

  /** No chunk is empty. */
  predicate NoEmptyChunk(cs: seq<string>) {
    forall c :: c in cs ==> c != []
  }

  /** No two neighbouring chunks would fit in one. */
  predicate NeighboursOverflow(cs: seq<string>) {
    forall j :: 0 <= j < |cs| - 1 ==> |cs[j]| + |cs[j + 1]| > ChunkLimit
  }

  lemma {:induction false} ChunksFromGreedy(cur: string, entries: seq<string>)
    requires cur != []
    ensures NoEmptyChunk(ChunksFrom(cur, entries))
    ensures NeighboursOverflow(ChunksFrom(cur, entries))
    decreases |entries|
  {
    if entries != [] {
      var e := entries[0];
      if |cur| + |e| + 1 > ChunkLimit {
        var rest := ChunksFrom(e + "\n", entries[1..]);
        ChunksFromGreedy(e + "\n", entries[1..]);
        var cs := [cur] + rest;
        assert ChunksFrom(cur, entries) == cs;
        assert |cs[0]| + |cs[1]| > ChunkLimit;
        forall j | 0 <= j < |cs| - 1
          ensures |cs[j]| + |cs[j + 1]| > ChunkLimit
        {
          if j > 0 {
            assert cs[j] == rest[j - 1] && cs[j + 1] == rest[j];
          }
        }
      } else {
        assert ChunksFrom(cur, entries) == ChunksFrom(cur + e + "\n", entries[1..]);
        ChunksFromGreedy(cur + e + "\n", entries[1..]);
      }
    }
  }

  /** The chunks start with the header, none is empty, and no two neighbouring
      chunks could have been one: a chunk is closed only when the next entry
      would not fit. */
  lemma ChunksGreedy(entries: seq<string>)
    ensures Header <= Chunks(entries)[0]
    ensures NoEmptyChunk(Chunks(entries))
    ensures NeighboursOverflow(Chunks(entries))
  {
    ChunksFromGreedy(Header, entries);
  }

  /** Dictionary order is kept and nothing is lost: the reply to a non-empty
      dictionary is the header followed by every word, ` -> `, its reading and a
      newline, in dictionary order; every chunk fits in 1900 characters exactly
      when every word and reading together take under 1896. */
  lemma ListReplyContents(dict: seq<(string, string)>)
    requires dict != []
    ensures Header <= ListReply(dict)[0]
    ensures Concat(ListReply(dict)) == Header + Lines(Formatted(dict))
    ensures (forall c :: c in ListReply(dict) ==> |c| <= ChunkLimit)
        <==> (forall e :: e in dict ==> |e.0| + |e.1| + 4 < ChunkLimit)
  {
    var fs := Formatted(dict);
    ChunksConcat(fs);
    ChunksGreedy(fs);
    ChunksBounded(fs);
    assert (forall f :: f in fs ==> |f| < ChunkLimit)
        <==> (forall e :: e in dict ==> |e.0| + |e.1| + 4 < ChunkLimit) by {
      if forall f :: f in fs ==> |f| < ChunkLimit {
        forall e | e in dict
          ensures |e.0| + |e.1| + 4 < ChunkLimit
        {
          var i :| 0 <= i < |dict| && dict[i] == e;
          assert fs[i] in fs;
        }
      }
      if forall e :: e in dict ==> |e.0| + |e.1| + 4 < ChunkLimit {
        forall f | f in fs
          ensures |f| < ChunkLimit
        {
          var i :| 0 <= i < |fs| && fs[i] == f;
          assert dict[i] in dict;
        }
      }
    }
  }

  // ---------------------------------------------------------------------
  // Where the chunks break

  /** One past the last entry of chunk `j`, given the index of the first entry
      of every chunk after the first. */
  function ChunkEnd(starts: seq<nat>, j: nat, n: nat): nat
    requires j < |starts|
  {
    if j + 1 < |starts| then starts[j + 1] else n
  }

  /** Start positions that cut `n` entries into `m` chunks: the first chunk is
      given 0, every later chunk starts at an entry and all but the last hold at
      least one entry before the next starts. */
  predicate WellCut(s: seq<nat>, m: nat, n: nat) {
    && |s| == m
    && s != []
    && s[0] == 0
    && (forall j :: 1 <= j < |s| ==> s[j] < n)
    && (forall j, k :: 1 <= j < k < |s| ==> s[j] < s[k])
  }

  predicate Overflows(cur: string, entries: seq<string>)
    requires entries != []
  {
    |cur| + |entries[0]| + 1 > ChunkLimit
  }

  /** The chunk being built once the first entry has been handled. */
  function Next(cur: string, entries: seq<string>): string
    requires entries != []
  {
    if Overflows(cur, entries) then entries[0] + "\n" else cur + entries[0] + "\n"
  }

  /** The cut positions of `entries` from those of its tail: on an overflow the
      first entry opens the second chunk, otherwise it joins the first. */
  function Recut(s': seq<nat>, overflow: bool): seq<nat>
    requires s' != []
  {
    if overflow then [0, 0] + Shift(s'[1..]) else [0] + Shift(s'[1..])
  }

  /** The first chunk of `r` is the chunk being built followed by the lines of
      the entries before the second chunk's first entry. */
  predicate FirstIsLines(cur: string, entries: seq<string>, r: seq<string>, s: seq<nat>) {
    && WellCut(s, |r|, |entries|)
    && r[0] == cur + Lines(entries[..ChunkEnd(s, 0, |entries|)])
  }

  /** Every chunk of `r` after the first is the lines of the entries from its
      start to the next chunk's start. */
  predicate LaterAreLines(entries: seq<string>, r: seq<string>, s: seq<nat>) {
    && WellCut(s, |r|, |entries|)
    && forall j {:trigger r[j]} :: 1 <= j < |r| ==> r[j] == Lines(entries[s[j]..ChunkEnd(s, j, |entries|)])
  }

  /** A chunk of `r` is closed only when the next chunk's first entry and its
      newline would not fit after it. */
  predicate BreaksOnOverflow(entries: seq<string>, r: seq<string>, s: seq<nat>) {
    && WellCut(s, |r|, |entries|)
    && forall j :: 1 <= j < |r| ==> |r[j - 1]| + |entries[s[j]]| + 1 > ChunkLimit
  }

  /** A chunk of `r` to which an entry was added while it already held text is
      within the limit. */
  predicate AddedWithin(entries: seq<string>, r: seq<string>, s: seq<nat>) {
    && WellCut(s, |r|, |entries|)
    && forall j {:trigger r[j]} :: 0 <= j < |r| && ChunkEnd(s, j, |entries|) > (if j == 0 then 0 else s[j] + 1) ==>
         |r[j]| <= ChunkLimit
  }

  lemma SliceOfTail(xs: seq<string>, a: nat, b: nat)
    requires a <= b < |xs|
    ensures xs[a + 1..b + 1] == xs[1..][a..b]
  {
    assert |xs[a + 1..b + 1]| == b - a == |xs[1..][a..b]|;
    forall i | 0 <= i < b - a
      ensures xs[a + 1..b + 1][i] == xs[1..][a..b][i]
    {
    }
  }

  /** The lines of entries `a + 1` to `b + 1` of `[e] + tail` are those of
      entries `a` to `b` of `tail`. */
  lemma ShiftedLines(e: string, tail: seq<string>, a: nat, b: nat)
    requires a <= b <= |tail|
    ensures Lines(([e] + tail)[a + 1..b + 1]) == Lines(tail[a..b])
  {
    SliceOfTail([e] + tail, a, b);
    assert ([e] + tail)[1..] == tail;
  }

  /** The lines of the first `b + 1` entries of `[e] + tail` are `e`'s line
      followed by those of the first `b` entries of `tail`. */
  lemma HeadLines(e: string, tail: seq<string>, b: nat)
    requires b <= |tail|
    ensures Lines(([e] + tail)[0..b + 1]) == e + "\n" + Lines(tail[..b])
  {
    assert ([e] + tail)[0..b + 1] == [e] + tail[..b];
    LinesCons(e, tail[..b]);
  }

  lemma LinesCons(x: string, xs: seq<string>)
    ensures Lines([x] + xs) == x + "\n" + Lines(xs)
  {
    assert ([x] + xs)[0] == x && ([x] + xs)[1..] == xs;
  }

  /** How the positions move when the first entry is put in front. */
  lemma RecutIndices(s': seq<nat>, overflow: bool, n: nat)
    requires n >= 1 && s' != [] && s'[0] == 0
    ensures var s := Recut(s', overflow);
      var d := if overflow then 1 else 0;
      && |s| == |s'| + d
      && s[0] == 0
      && (overflow ==> |s| >= 2 && s[1] == 0 && ChunkEnd(s, 0, n) == 0)
      && (forall j :: 1 + d <= j < |s| ==> s[j] == s'[j - d] + 1)
      && (forall j :: d <= j < |s| ==> ChunkEnd(s, j, n) == ChunkEnd(s', j - d, n - 1) + 1)
  {
    var s := Recut(s', overflow);
    var d := if overflow then 1 else 0;
    var tail := Shift(s'[1..]);
    assert s == (if overflow then [0, 0] else [0]) + tail;
    assert |s| == |s'| + d;
    forall j | 1 + d <= j < |s|
      ensures s[j] == s'[j - d] + 1
    {
      assert s[j] == tail[j - 1 - d] == s'[1..][j - 1 - d] + 1;
    }
    forall j | d <= j < |s|
      ensures ChunkEnd(s, j, n) == ChunkEnd(s', j - d, n - 1) + 1
    {
      if j + 1 < |s| {
        assert s[j + 1] == s'[j + 1 - d] + 1;
      }
    }
  }

  lemma RecutWell(s': seq<nat>, m: nat, n: nat, overflow: bool)
    requires WellCut(s', m, n)
    ensures WellCut(Recut(s', overflow), m + (if overflow then 1 else 0), n + 1)
  {
    var s := Recut(s', overflow);
    RecutIndices(s', overflow, n + 1);
    forall j, k | 1 <= j < k < |s|
      ensures s[j] < s[k]
    {
      if overflow && j == 1 {
        assert s[k] == s'[k - 1] + 1;
      }
    }
  }

  /** A chunk `c` closed before entry `e` is the first chunk, with no entry. */
  lemma FirstOverflow(e: string, tail: seq<string>, c: string, r': seq<string>, s': seq<nat>)
    requires WellCut(s', |r'|, |tail|)
    ensures FirstIsLines(c, [e] + tail, [c] + r', Recut(s', true))
  {
    RecutWell(s', |r'|, |tail|, true);
    RecutIndices(s', true, |tail| + 1);
    assert ([e] + tail)[..0] == [];
  }

  /** An entry `e` that joins the chunk `c` being built is its first line. */
  lemma FirstFit(c: string, e: string, tail: seq<string>, r': seq<string>, s': seq<nat>)
    requires FirstIsLines(c + e + "\n", tail, r', s')
    ensures FirstIsLines(c, [e] + tail, r', Recut(s', false))
  {
    RecutWell(s', |r'|, |tail|, false);
    RecutIndices(s', false, |tail| + 1);
    var end0 := ChunkEnd(s', 0, |tail|);
    HeadLines(e, tail, end0);
  }

  /** A chunk `c` closed before entry `e` leaves `e` to open the next chunk. */
  lemma LinesOverflow(e: string, tail: seq<string>, c: string, r': seq<string>, s': seq<nat>)
    requires LaterAreLines(tail, r', s')
    requires r'[0] == e + "\n" + Lines(tail[..ChunkEnd(s', 0, |tail|)])
    ensures LaterAreLines([e] + tail, [c] + r', Recut(s', true))
  {
    var entries := [e] + tail;
    var n := |entries|;
    var r := [c] + r';
    var s := Recut(s', true);
    RecutWell(s', |r'|, |tail|, true);
    RecutIndices(s', true, n);
    assert entries[1..] == tail;
    if 1 < |r| {
      var end' := ChunkEnd(s', 0, n - 1);
      assert r[1] == r'[0] && s[1] == 0 && ChunkEnd(s, 1, n) == end' + 1;
      HeadLines(e, tail, end');
    }
    forall j | 2 <= j < |r|
      ensures r[j] == Lines(entries[s[j]..ChunkEnd(s, j, n)])
    {
      var end' := ChunkEnd(s', j - 1, n - 1);
      assert r[j] == r'[j - 1] == Lines(tail[s'[j - 1]..end']);
      assert s[j] == s'[j - 1] + 1 && ChunkEnd(s, j, n) == end' + 1;
      ShiftedLines(e, tail, s'[j - 1], end');
    }
  }

  /** An entry `e` that joins the first chunk moves every later chunk along. */
  lemma LinesFit(e: string, tail: seq<string>, r': seq<string>, s': seq<nat>)
    requires LaterAreLines(tail, r', s')
    ensures LaterAreLines([e] + tail, r', Recut(s', false))
  {
    var entries := [e] + tail;
    var n := |entries|;
    var s := Recut(s', false);
    RecutWell(s', |r'|, |tail|, false);
    RecutIndices(s', false, n);
    assert entries[1..] == tail;
    forall j | 1 <= j < |r'|
      ensures r'[j] == Lines(entries[s[j]..ChunkEnd(s, j, n)])
    {
      var end' := ChunkEnd(s', j, n - 1);
      assert r'[j] == Lines(tail[s'[j]..end']);
      assert s[j] == s'[j] + 1 && ChunkEnd(s, j, n) == end' + 1;
      ShiftedLines(e, tail, s'[j], end');
    }
  }

  lemma BreaksOverflow(e: string, tail: seq<string>, c: string, r': seq<string>, s': seq<nat>)
    requires BreaksOnOverflow(tail, r', s')
    requires |c| + |e| + 1 > ChunkLimit
    ensures BreaksOnOverflow([e] + tail, [c] + r', Recut(s', true))
  {
    var entries := [e] + tail;
    var r := [c] + r';
    var s := Recut(s', true);
    RecutWell(s', |r'|, |tail|, true);
    RecutIndices(s', true, |entries|);
    forall j | 2 <= j < |r|
      ensures |r[j - 1]| + |entries[s[j]]| + 1 > ChunkLimit
    {
      assert r[j - 1] == r'[j - 2] && r'[j - 2] == r'[(j - 1) - 1];
      assert entries[s[j]] == tail[s'[j - 1]];
    }
  }

  lemma BreaksFit(e: string, tail: seq<string>, r': seq<string>, s': seq<nat>)
    requires BreaksOnOverflow(tail, r', s')
    ensures BreaksOnOverflow([e] + tail, r', Recut(s', false))
  {
    var entries := [e] + tail;
    var s := Recut(s', false);
    RecutWell(s', |r'|, |tail|, false);
    RecutIndices(s', false, |entries|);
    forall j | 1 <= j < |r'|
      ensures |r'[j - 1]| + |entries[s[j]]| + 1 > ChunkLimit
    {
      assert entries[s[j]] == tail[s'[j]];
    }
  }

  lemma AddedOverflow(e: string, tail: seq<string>, c: string, r': seq<string>, s': seq<nat>)
    requires AddedWithin(tail, r', s')
    ensures AddedWithin([e] + tail, [c] + r', Recut(s', true))
  {
    var entries := [e] + tail;
    var n := |entries|;
    var r := [c] + r';
    var s := Recut(s', true);
    RecutWell(s', |r'|, |tail|, true);
    RecutIndices(s', true, n);
    forall j | 1 <= j < |r| && ChunkEnd(s, j, n) > s[j] + 1
      ensures |r[j]| <= ChunkLimit
    {
      assert r[j] == r'[j - 1] && ChunkEnd(s, j, n) == ChunkEnd(s', j - 1, n - 1) + 1;
      if j > 1 {
        assert s[j] == s'[j - 1] + 1;
      }
    }
  }

  lemma AddedFit(e: string, tail: seq<string>, r': seq<string>, s': seq<nat>)
    requires AddedWithin(tail, r', s')
    requires ChunkEnd(s', 0, |tail|) == 0 ==> |r'[0]| <= ChunkLimit
    ensures AddedWithin([e] + tail, r', Recut(s', false))
  {
    var entries := [e] + tail;
    var n := |entries|;
    var s := Recut(s', false);
    RecutWell(s', |r'|, |tail|, false);
    RecutIndices(s', false, n);
    forall j | 0 <= j < |r'| && ChunkEnd(s, j, n) > (if j == 0 then 0 else s[j] + 1)
      ensures |r'[j]| <= ChunkLimit
    {
      assert ChunkEnd(s, j, n) == ChunkEnd(s', j, n - 1) + 1;
      if j > 0 {
        assert s[j] == s'[j] + 1;
      }
    }
  }

  /** The chunks of `entries` after the chunk being built, described by the
      index of the first entry of each chunk. */
  lemma {:induction false} ChunkCuts(cur: string, entries: seq<string>) returns (s: seq<nat>)
    ensures FirstIsLines(cur, entries, ChunksFrom(cur, entries), s)
    ensures LaterAreLines(entries, ChunksFrom(cur, entries), s)
    ensures BreaksOnOverflow(entries, ChunksFrom(cur, entries), s)
    ensures AddedWithin(entries, ChunksFrom(cur, entries), s)
    decreases |entries|
  {
    if entries == [] {
      s := [0];
      assert entries[..0] == [];
    } else {
      var e := entries[0];
      var tail := entries[1..];
      var cur' := Next(cur, entries);
      var s' := ChunkCuts(cur', tail);
      var r' := ChunksFrom(cur', tail);
      assert entries == [e] + tail;
      s := Recut(s', Overflows(cur, entries));
      if Overflows(cur, entries) {
        assert ChunksFrom(cur, entries) == [cur] + r';
        FirstOverflow(e, tail, cur, r', s');
        LinesOverflow(e, tail, cur, r', s');
        BreaksOverflow(e, tail, cur, r', s');
        AddedOverflow(e, tail, cur, r', s');
      } else {
        assert ChunksFrom(cur, entries) == r';
        FirstFit(cur, e, tail, r', s');
        LinesFit(e, tail, r', s');
        BreaksFit(e, tail, r', s');
        if ChunkEnd(s', 0, |tail|) == 0 {
          assert tail[..0] == [];
        }
        AddedFit(e, tail, r', s');
      }
    }
  }

  /** The `/dict list` chunks, stated entry by entry: with `s` the index of the
      first entry of each chunk after the first, the first chunk is the header
      and the entries before `s[1]`; every other chunk is whole entry lines from
      its start to the next; a chunk is closed only when the next entry and its
      newline would not fit; and a chunk that took an entry while holding text
      is within 1900 characters. */
  lemma ChunksBreakBetweenEntries(entries: seq<string>) returns (s: seq<nat>)
    ensures var r := Chunks(entries);
      var n := |entries|;
      && |s| == |r|
      && (forall j :: 1 <= j < |s| ==> s[j] < n)
      && (forall j, k :: 1 <= j < k < |s| ==> s[j] < s[k])
      && r[0] == Header + Lines(entries[..ChunkEnd(s, 0, n)])
      && (forall j {:trigger r[j]} :: 1 <= j < |r| ==> r[j] == Lines(entries[s[j]..ChunkEnd(s, j, n)]))
      && (forall j :: 1 <= j < |r| ==> |r[j - 1]| + |entries[s[j]]| + 1 > ChunkLimit)
      && (forall j {:trigger r[j]} :: 0 <= j < |r| && ChunkEnd(s, j, n) > (if j == 0 then 0 else s[j] + 1) ==> |r[j]| <= ChunkLimit)
  {
    s := ChunkCuts(Header, entries);
  }
}

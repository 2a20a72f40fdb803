/**
  The pronunciation dictionary as it is applied to text before synthesis:
  keys are sorted by length, longest first (a stable sort, as
  `Array.prototype.sort` is), and each key's occurrences are then replaced
  globally, one key after the other.
 */
module Dictionary {
  import opened JsText

  /** One dictionary entry: the word and its reading. The dictionary is the
      sequence of its entries in `Object.keys` order. */
  type Entry = (string, string)

  /** Every entry's key is at least as long as the key of every entry after it. */
  ghost predicate LongestFirst(es: seq<Entry>) {
    forall i, j :: 0 <= i < j < |es| ==> |es[i].0| >= |es[j].0|
  }

  /** Inserts `e` before the first entry whose key is not longer than its own. */
  function InsertByLength(e: Entry, es: seq<Entry>): (r: seq<Entry>)
    ensures |r| == |es| + 1
  {
    if es == [] || |es[0].0| <= |e.0| then [e] + es
    else [es[0]] + InsertByLength(e, es[1..])
  }

  /** Insertion adds exactly `e`, puts `e` or the old first entry in front, and
      keeps a longest-first sequence longest-first. */
  lemma InsertByLengthFacts(e: Entry, es: seq<Entry>)
    ensures var r := InsertByLength(e, es);
      && multiset(r) == multiset(es) + multiset{e}
      && (r[0] == e || (es != [] && r[0] == es[0]))
      && (LongestFirst(es) ==> LongestFirst(r))
  {
    InsertByLengthCount(e, es);
    if LongestFirst(es) {
      InsertByLengthOrdered(e, es);
    }
  }

  lemma {:induction false} InsertByLengthCount(e: Entry, es: seq<Entry>)
    ensures var r := InsertByLength(e, es);
      && multiset(r) == multiset(es) + multiset{e}
      && (r[0] == e || (es != [] && r[0] == es[0]))
  {
    if es != [] && |es[0].0| > |e.0| {
      InsertByLengthCount(e, es[1..]);
      assert es == [es[0]] + es[1..];
      assert InsertByLength(e, es) == [es[0]] + InsertByLength(e, es[1..]);
    }
  }

  /** No key is longer than `n`. */
  ghost predicate KeysAtMost(es: seq<Entry>, n: nat) {
    forall i :: 0 <= i < |es| ==> |es[i].0| <= n
  }

  lemma LongestFirstCons(x: Entry, xs: seq<Entry>)
    ensures LongestFirst([x] + xs) <==> KeysAtMost(xs, |x.0|) && LongestFirst(xs)
  {
    var r := [x] + xs;
    if KeysAtMost(xs, |x.0|) && LongestFirst(xs) {
      forall i, j | 0 <= i < j < |r|
        ensures |r[i].0| >= |r[j].0|
      {
        assert r[j] == xs[j - 1];
        if i > 0 {
          assert r[i] == xs[i - 1];
        }
      }
    }
    if LongestFirst(r) {
      forall i | 0 <= i < |xs|
        ensures |xs[i].0| <= |x.0|
      {
        assert r[0] == x && r[i + 1] == xs[i];
      }
      forall i, j | 0 <= i < j < |xs|
        ensures |xs[i].0| >= |xs[j].0|
      {
        assert r[i + 1] == xs[i] && r[j + 1] == xs[j];
      }
    }
  }

  lemma {:induction false} InsertKeysAtMost(e: Entry, es: seq<Entry>, n: nat)
    requires KeysAtMost(es, n) && |e.0| <= n
    ensures KeysAtMost(InsertByLength(e, es), n)
  {
    if es == [] || |es[0].0| <= |e.0| {
      var r := [e] + es;
      forall i | 1 <= i < |r|
        ensures |r[i].0| <= n
      {
        assert r[i] == es[i - 1];
      }
    } else {
      var rest := InsertByLength(e, es[1..]);
      var r := [es[0]] + rest;
      assert KeysAtMost(es[1..], n) by {
        forall i | 0 <= i < |es[1..]|
          ensures |es[1..][i].0| <= n
        {
          assert es[1..][i] == es[i + 1];
        }
      }
      InsertKeysAtMost(e, es[1..], n);
      forall i | 1 <= i < |r|
        ensures |r[i].0| <= n
      {
        assert r[i] == rest[i - 1];
      }
    }
  }

  lemma {:induction false} InsertByLengthOrdered(e: Entry, es: seq<Entry>)
    requires LongestFirst(es)
    ensures LongestFirst(InsertByLength(e, es))
  {
    if es == [] {
      LongestFirstCons(e, es);
    } else {
      var x := es[0];
      var tail := es[1..];
      assert es == [x] + tail;
      LongestFirstCons(x, tail);
      if |x.0| <= |e.0| {
        assert KeysAtMost(es, |e.0|) by {
          forall i | 0 <= i < |es|
            ensures |es[i].0| <= |e.0|
          {
            if i > 0 {
              assert es[i] == tail[i - 1];
            }
          }
        }
        LongestFirstCons(e, es);
      } else {
        var rest := InsertByLength(e, tail);
        InsertByLengthOrdered(e, tail);
        InsertKeysAtMost(e, tail, |x.0|);
        LongestFirstCons(x, rest);
      }
    }
  }

  /** The entries with a key of exactly `n` characters, in their original order. */
  function WithKeyLength(es: seq<Entry>, n: nat): seq<Entry> {
    if es == [] then []
    else (if |es[0].0| == n then [es[0]] else []) + WithKeyLength(es[1..], n)
  }

  /** `keys.sort((a, b) => b.length - a.length)`: a stable sort, longest key first. */
  function SortByKeyLength(es: seq<Entry>): (r: seq<Entry>)
    ensures |r| == |es|
  {
    if es == [] then [] else InsertByLength(es[0], SortByKeyLength(es[1..]))
  }

  /** The sort is a permutation of its input, longest key first. */
  lemma {:induction false} SortByKeyLengthFacts(es: seq<Entry>)
    ensures multiset(SortByKeyLength(es)) == multiset(es)
    ensures LongestFirst(SortByKeyLength(es))
  {
    if es != [] {
      SortByKeyLengthFacts(es[1..]);
      InsertByLengthFacts(es[0], SortByKeyLength(es[1..]));
      assert es == [es[0]] + es[1..];
    }
  }

  /** `WithKeyLength` on a sequence with a known first entry. */
  lemma WithKeyLengthCons(x: Entry, xs: seq<Entry>, n: nat)
    ensures WithKeyLength([x] + xs, n) == (if |x.0| == n then [x] else []) + WithKeyLength(xs, n)
  {
    assert ([x] + xs)[0] == x && ([x] + xs)[1..] == xs;
  }

  lemma {:induction false} InsertKeepsLengthClasses(e: Entry, es: seq<Entry>, n: nat)
    ensures WithKeyLength(InsertByLength(e, es), n)
         == (if |e.0| == n then [e] else []) + WithKeyLength(es, n)
  {
    if es == [] || |es[0].0| <= |e.0| {
      WithKeyLengthCons(e, es, n);
    } else {
      var x := es[0];
      var tail := es[1..];
      var rest := InsertByLength(e, tail);
      assert InsertByLength(e, es) == [x] + rest;
      assert es == [x] + tail;
      WithKeyLengthCons(x, rest, n);
      WithKeyLengthCons(x, tail, n);
      InsertKeepsLengthClasses(e, tail, n);
      if |x.0| != n {
        assert WithKeyLength(InsertByLength(e, es), n) == WithKeyLength(rest, n);
        assert WithKeyLength(es, n) == WithKeyLength(tail, n);
      } else {
        assert |e.0| != n;
        assert WithKeyLength(rest, n) == WithKeyLength(tail, n);
        assert WithKeyLength(InsertByLength(e, es), n) == [x] + WithKeyLength(tail, n);
        assert WithKeyLength(es, n) == [x] + WithKeyLength(tail, n);
      }
    }
  }

  /** The sort is stable: entries whose keys have the same length keep their
      relative order. */
  lemma {:induction false} SortIsStable(es: seq<Entry>, n: nat)
    ensures WithKeyLength(SortByKeyLength(es), n) == WithKeyLength(es, n)
  {
    if es != [] {
      SortIsStable(es[1..], n);
      InsertKeepsLengthClasses(es[0], SortByKeyLength(es[1..]), n);
    }
  }

  /** Applies the entries' replacements one after the other, first entry first. */
  function ApplyInOrder(text: string, es: seq<Entry>): string
    decreases |es|
  {
    if es == [] then text
    else
      var last := es[|es| - 1];
      ReplaceAll(ApplyInOrder(text, es[..|es| - 1]), last.0, last.1)
  }

  /** What `applyDictionary` returns: empty text is returned as it is, any other
      text has every entry applied, longest key first. */
  function Applied(text: string, dict: seq<Entry>): string {
    if text == [] then text else ApplyInOrder(text, SortByKeyLength(dict))
  }

  /** `applyDictionary`: the loop over the sorted keys that reassigns `processed`. */
  method ApplyDictionary(text: string, dict: seq<Entry>) returns (processed: string)
    ensures processed == Applied(text, dict)
    ensures text == [] ==> processed == []
    ensures dict == [] ==> processed == text
  {
    if text == [] {
      return text;
    }
    processed := text;
    var keys := SortByKeyLength(dict);
    for i := 0 to |keys|
      invariant processed == ApplyInOrder(text, keys[..i])
    {
      assert keys[..i + 1][..i] == keys[..i];
      processed := ReplaceAll(processed, keys[i].0, keys[i].1);
    }
    assert keys[..|keys|] == keys;
  }

  lemma {:induction false} ApplyIdentityEntries(text: string, es: seq<Entry>)
    requires forall e :: e in es ==> e.0 == e.1
    ensures ApplyInOrder(text, es) == text
    decreases |es|
  {
    if es != [] {
      var init := es[..|es| - 1];
      assert forall e :: e in init ==> e in es;
      ApplyIdentityEntries(text, init);
      ReplaceSelf(text, es[|es| - 1].0);
    }
  }

  /** A dictionary in which every word reads as itself changes nothing. */
  lemma IdentityDictionary(text: string, dict: seq<Entry>)
    requires forall e :: e in dict ==> e.0 == e.1
    ensures Applied(text, dict) == text
  {
    var sorted := SortByKeyLength(dict);
    SortByKeyLengthFacts(dict);
    forall e | e in sorted ensures e.0 == e.1 {
      assert e in multiset(sorted);
    }
    ApplyIdentityEntries(text, sorted);
  }

  lemma {:induction false} ApplyAbsentEntries(text: string, es: seq<Entry>)
    requires forall e :: e in es ==> !Occurs(text, e.0)
    ensures ApplyInOrder(text, es) == text
    decreases |es|
  {
    if es != [] {
      var init := es[..|es| - 1];
      assert forall e :: e in init ==> e in es;
      ApplyAbsentEntries(text, init);
      ReplaceAbsent(text, es[|es| - 1].0, es[|es| - 1].1);
    }
  }

  /** Text in which no dictionary word occurs is returned unchanged. */
  lemma NoWordOccurs(text: string, dict: seq<Entry>)
    requires forall e :: e in dict ==> !Occurs(text, e.0)
    ensures Applied(text, dict) == text
  {
    var sorted := SortByKeyLength(dict);
    SortByKeyLengthFacts(dict);
    forall e | e in sorted ensures !Occurs(text, e.0) {
      assert e in multiset(sorted);
    }
    ApplyAbsentEntries(text, sorted);
  }
}

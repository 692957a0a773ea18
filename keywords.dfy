/**
 * Keyword derivation: the topic followed by up to three words of the reference summary.
 *
 * The summary's words are lower-cased, stripped of punctuation, split on white space, filtered by
 * length and a stop-word list and deduplicated; only then are they counted. Every count is
 * therefore 1, the frequency sort leaves the order alone and the words come out in the order in
 * which the engine lists the keys of the counting object: canonical array-index keys (such as
 * "12345") first in ascending numeric order, then the other keys in insertion order.
 *
 * Assigning to the key "__proto__" of a plain object changes its prototype instead of adding a
 * key, so that word never reaches the key list. The inherited "constructor" entry does become a
 * key, with a value that is not a number; the comparator then yields NaN, which the sort treats
 * as a tie, exactly as for the equal counts of every other key.
 */
module Keywords {
  import opened Seqs
  import opened Text
  import opened Sorting

  function StopWords(): seq<string>
  {
    [
    "the", "and", "or", "but", "in", "on", "at", "to", "for", "of", "with", "by", "is", "are",
    "was", "were", "be", "been", "have", "has", "had", "do", "does", "did", "will", "would",
    "could", "should", "may", "might", "must", "can", "cannot", "a", "an", "this", "that",
    "these", "those", "from", "into", "through", "during", "before", "after", "above", "below",
    "between", "among", "also", "such", "other", "used", "using", "use"
  ]
  }

  /** `replace(/[^\w\s]/g, ' ')`: every character that is neither a word character nor white space becomes a space. */
  function PunctuationToSpace(s: string): (r: string)
    ensures |r| == |s|
    ensures forall i :: 0 <= i < |r| ==> IsWordChar(r[i]) || IsSpace(r[i])
    ensures forall i :: 0 <= i < |s| && (IsWordChar(s[i]) || IsSpace(s[i])) ==> r[i] == s[i]
    ensures forall i :: 0 <= i < |s| && !IsWordChar(s[i]) && !IsSpace(s[i]) ==> r[i] == ' '
  {
    seq(|s|, i requires 0 <= i < |s| => if IsWordChar(s[i]) || IsSpace(s[i]) then s[i] else ' ')
  }

  /** The length and stop-word filter. */
  predicate Qualifies(w: string)
  {
    |w| > 4 && w !in StopWords()
  }

  predicate IsLowerWord(w: string)
  {
    forall i :: 0 <= i < |w| ==> IsLowerWordChar(w[i])
  }

  /** The words of the summary that pass the filter, repetitions included. */
  function CandidateWords(summary: string): seq<string>
  {
    Filter(Tokens(PunctuationToSpace(Lower(summary))), Qualifies)
  }

  /** Position of the first occurrence of `w`. */
  function FirstIndex(ws: seq<string>, w: string): (i: nat)
    requires w in ws
    ensures i < |ws| && ws[i] == w
    ensures forall j :: 0 <= j < i ==> ws[j] != w
  {
    if ws[0] == w then 0 else 1 + FirstIndex(ws[1..], w)
  }

  lemma {:induction false} FirstIndexInPrefix(ws: seq<string>, w: string, n: nat)
    requires n <= |ws| && w in ws[..n]
    ensures FirstIndex(ws, w) == FirstIndex(ws[..n], w)
  {
    if ws[0] != w {
      assert ws[..n][1..] == ws[1..][..n - 1];
      FirstIndexInPrefix(ws[1..], w, n - 1);
    }
  }

  lemma FirstIndexOfNew(ws: seq<string>)
    requires ws != [] && ws[|ws| - 1] !in ws[..|ws| - 1]
    ensures FirstIndex(ws, ws[|ws| - 1]) == |ws| - 1
  {
    forall j | 0 <= j < |ws| - 1 ensures ws[j] != ws[|ws| - 1] {
      assert ws[..|ws| - 1][j] == ws[j];
    }
  }

  /**
   * `arr.filter((w, i) => arr.indexOf(w) === i)`: each word once, at its first occurrence.
   */
  function Dedup(ws: seq<string>): (r: seq<string>)
    ensures Distinct(r)
    ensures forall w :: w in r <==> w in ws
  {
    if ws == [] then []
    else
      var init := ws[..|ws| - 1];
      var w := ws[|ws| - 1];
      assert ws == init + [w];
      Dedup(init) + (if w in init then [] else [w])
  }

  /** `Dedup` lists the words in the order of their first occurrence. */
  lemma {:induction false} DedupFirstOccurrenceOrder(ws: seq<string>)
    ensures forall i, j :: 0 <= i < j < |Dedup(ws)| ==> FirstIndex(ws, Dedup(ws)[i]) < FirstIndex(ws, Dedup(ws)[j])
  {
    if ws != [] {
      var init := ws[..|ws| - 1];
      var w := ws[|ws| - 1];
      var d := Dedup(init);
      DedupFirstOccurrenceOrder(init);
      forall i, j | 0 <= i < j < |d|
        ensures d[i] in init && d[j] in init && FirstIndex(init, d[i]) < FirstIndex(init, d[j])
      {
        assert d[i] in d && d[j] in d;
      }
      assert ws == init + [w];
      DedupOrder(init, w, d);
    }
  }

  /** The order fact of `Dedup`'s step: adding the last word keeps first occurrences ordered. */
  lemma DedupOrder(init: seq<string>, w: string, d: seq<string>)
    requires forall x :: x in d ==> x in init
    requires forall i, j :: 0 <= i < j < |d| ==> d[i] in init && d[j] in init && FirstIndex(init, d[i]) < FirstIndex(init, d[j])
    ensures var ws := init + [w]; var r := d + (if w in init then [] else [w]);
      forall i, j :: 0 <= i < j < |r| ==> r[i] in ws && r[j] in ws && FirstIndex(ws, r[i]) < FirstIndex(ws, r[j])
  {
    var ws := init + [w];
    assert ws[..|ws| - 1] == init;
    forall x | x in d ensures x in ws && FirstIndex(ws, x) == FirstIndex(init, x) {
      FirstIndexInPrefix(ws, x, |ws| - 1);
    }
    if w !in init {
      FirstIndexOfNew(ws);
    }
  }

  /** The deduplicated words of line 113. */
  function DistinctWords(summary: string): seq<string>
  {
    Dedup(CandidateWords(summary))
  }

  /** The one lower-case word whose assignment adds no key to a plain object. */
  const ProtoKey: string := "__proto__"

  predicate IsOwnKey(w: string)
  {
    w != ProtoKey
  }

  /** A canonical array index: the decimal form, without leading zero, of an integer below 2^32 - 1. */
  predicate IsArrayIndex(w: string)
  {
    && w != []
    && (forall i :: 0 <= i < |w| ==> IsDigit(w[i]))
    && (|w| == 1 || w[0] != '0')
    && DecimalValue(w) < 4294967295
  }

  /** Sort key that puts array indices in ascending numeric order under `SortDesc`. */
  function IndexOrder(w: string): real
  {
    if IsArrayIndex(w) then -(DecimalValue(w) as real) else 0.0
  }

  predicate NotArrayIndex(w: string)
  {
    !IsArrayIndex(w)
  }

  /** `Object.keys` of an object whose keys were added in the order `insertion`. */
  function ObjectKeys(insertion: seq<string>): seq<string>
  {
    SortDesc(Filter(insertion, IsArrayIndex), IndexOrder) + Filter(insertion, NotArrayIndex)
  }

  /** `Object.keys` lists every key once: a reordering of the insertion order. */
  lemma ObjectKeysPermutes(insertion: seq<string>)
    ensures multiset(ObjectKeys(insertion)) == multiset(insertion)
    ensures Distinct(insertion) ==> Distinct(ObjectKeys(insertion))
  {
    FilterPartition(insertion, IsArrayIndex, NotArrayIndex);
    if Distinct(insertion) {
      PermutationDistinct(insertion, ObjectKeys(insertion));
    }
  }

  /** Without array-index keys `Object.keys` gives the insertion order. */
  lemma ObjectKeysInsertionOrder(insertion: seq<string>)
    requires forall w :: w in insertion ==> !IsArrayIndex(w)
    ensures ObjectKeys(insertion) == insertion
  {
    FilterNone(insertion, IsArrayIndex);
    FilterAll(insertion, NotArrayIndex);
  }

  /** The keys of the counting dictionary, in the order they were added. */
  function KeyWords(summary: string): seq<string>
  {
    Filter(DistinctWords(summary), IsOwnKey)
  }

  /** The keyword list of `extractTopKeywords`: the topic, then the first three keys. */
  function TopKeywords(summary: string, topic: string): seq<string>
  {
    [topic] + Take(ObjectKeys(KeyWords(summary)), 3)
  }

  /** Deduplicating a sequence without repetitions changes nothing. */
  lemma {:induction false} DedupOfDistinct(ws: seq<string>)
    requires Distinct(ws)
    ensures Dedup(ws) == ws
  {
    if ws != [] {
      var init := ws[..|ws| - 1];
      assert Distinct(init) by {
        forall i, j | 0 <= i < j < |init| ensures init[i] != init[j] {
          assert init[i] == ws[i] && init[j] == ws[j];
        }
      }
      DedupOfDistinct(init);
      forall j | 0 <= j < |init| ensures init[j] != ws[|ws| - 1] {
        assert init[j] == ws[j];
      }
      assert ws == init + [ws[|ws| - 1]];
    }
  }

  lemma DedupSnoc(ws: seq<string>, w: string)
    ensures Dedup(ws + [w]) == Dedup(ws) + (if w in ws then [] else [w])
  {
    assert (ws + [w])[..|ws|] == ws;
  }

  /** One step of the counting loop keeps the dictionary equal to the occurrence counts. */
  lemma CountStep(prefix: seq<string>, w: string, freq: map<string, int>)
    requires forall x :: x in freq <==> x in prefix && IsOwnKey(x)
    requires forall x :: x in freq ==> freq[x] == multiset(prefix)[x]
    ensures IsOwnKey(w) ==> var f := freq[w := (if w in freq then freq[w] else 0) + 1];
      && (forall x :: x in f <==> x in prefix + [w] && IsOwnKey(x))
      && (forall x :: x in f ==> f[x] == multiset(prefix + [w])[x])
    ensures !IsOwnKey(w) ==>
      && (forall x :: x in freq <==> x in prefix + [w] && IsOwnKey(x))
      && (forall x :: x in freq ==> freq[x] == multiset(prefix + [w])[x])
  {
    assert multiset(prefix + [w]) == multiset(prefix) + multiset{w};
  }

  /** One step of the counting loop keeps the key list equal to the first occurrences. */
  lemma KeyOrderStep(prefix: seq<string>, w: string, freq: map<string, int>, insertion: seq<string>)
    requires forall x :: x in freq <==> x in prefix && IsOwnKey(x)
    requires insertion == Dedup(Filter(prefix, IsOwnKey))
    ensures IsOwnKey(w) ==> insertion + (if w in freq then [] else [w]) == Dedup(Filter(prefix + [w], IsOwnKey))
    ensures !IsOwnKey(w) ==> insertion == Dedup(Filter(prefix + [w], IsOwnKey))
  {
    var own := Filter(prefix, IsOwnKey);
    FilterSnoc(prefix, w, IsOwnKey);
    if IsOwnKey(w) {
      DedupSnoc(own, w);
      assert w in freq <==> w in own;
    } else {
      assert own + [] == own;
    }
  }

  /**
   * The counting loop of `extractTopKeywords`: how often each word occurs, and the words in the
   * order in which they first became keys of the dictionary.
   */
  method CountWords(words: seq<string>) returns (wordFreq: map<string, int>, insertion: seq<string>)
    ensures forall w :: w in wordFreq <==> w in words && IsOwnKey(w)
    ensures forall w :: w in wordFreq ==> wordFreq[w] == multiset(words)[w]
    ensures insertion == Dedup(Filter(words, IsOwnKey))
  {
    wordFreq := map[];
    insertion := [];
    for i := 0 to |words|
      invariant insertion == Dedup(Filter(words[..i], IsOwnKey))
      invariant forall w :: w in wordFreq <==> w in words[..i] && IsOwnKey(w)
      invariant forall w :: w in wordFreq ==> wordFreq[w] == multiset(words[..i])[w]
    {
      var w := words[i];
      PrefixSnoc(words, i);
      KeyOrderStep(words[..i], w, wordFreq, insertion);
      CountStep(words[..i], w, wordFreq);
      if IsOwnKey(w) {
        if w !in wordFreq {
          insertion := insertion + [w];
        }
        wordFreq := wordFreq[w := (if w in wordFreq then wordFreq[w] else 0) + 1];
      }
    }
    assert words[..|words|] == words;
  }

  /** The sort key of `extractTopKeywords`: a word's count, as a number. */
  function ByCount(wordFreq: map<string, int>): string -> real
  {
    w => if w in wordFreq then wordFreq[w] as real else 0.0
  }

  /** Counting distinct words gives every word the count 1. */
  lemma DistinctCountsAreOne(words: seq<string>, wordFreq: map<string, int>)
    requires Distinct(words)
    requires forall w :: w in wordFreq <==> w in words && IsOwnKey(w)
    requires forall w :: w in wordFreq ==> wordFreq[w] == multiset(words)[w]
    ensures forall w :: w in wordFreq ==> wordFreq[w] == 1
  {
    DistinctMultiset(words);
  }

  /** When every word occurs once, sorting the keys by count leaves `Object.keys` order alone. */
  lemma UnitCountsKeepKeyOrder(words: seq<string>, wordFreq: map<string, int>)
    requires Distinct(words)
    requires forall w :: w in wordFreq <==> w in words && IsOwnKey(w)
    requires forall w :: w in wordFreq ==> wordFreq[w] == multiset(words)[w]
    ensures SortDesc(ObjectKeys(Dedup(Filter(words, IsOwnKey))), ByCount(wordFreq))
         == ObjectKeys(Filter(words, IsOwnKey))
  {
    var own := Filter(words, IsOwnKey);
    FilterDistinct(words, IsOwnKey);
    DedupOfDistinct(own);
    DistinctCountsAreOne(words, wordFreq);
    ObjectKeysPermutes(own);
    SortByUnitCounts(ObjectKeys(own), own, wordFreq);
  }

  /** Sorting words that all have the count 1 changes nothing. */
  lemma SortByUnitCounts(keys: seq<string>, own: seq<string>, wordFreq: map<string, int>)
    requires multiset(keys) == multiset(own)
    requires forall w :: w in own ==> w in wordFreq && wordFreq[w] == 1
    ensures SortDesc(keys, ByCount(wordFreq)) == keys
  {
    forall w | w in keys ensures ByCount(wordFreq)(w) == 1.0 {
      assert w in multiset(own);
    }
    SortDescConstantKey(keys, ByCount(wordFreq), 1.0);
  }

  lemma KeywordsOfUnitCounts(words: seq<string>, wordFreq: map<string, int>, topic: string)
    requires Distinct(words)
    requires forall w :: w in wordFreq <==> w in words && IsOwnKey(w)
    requires forall w :: w in wordFreq ==> wordFreq[w] == multiset(words)[w]
    ensures Take([topic] + Take(SortDesc(ObjectKeys(Dedup(Filter(words, IsOwnKey))), ByCount(wordFreq)), 3), 5)
         == [topic] + Take(ObjectKeys(Filter(words, IsOwnKey)), 3)
  {
    UnitCountsKeepKeyOrder(words, wordFreq);
  }

  /**
   * `extractTopKeywords`: counts the deduplicated words in a dictionary, sorts its keys by
   * descending count, and puts the topic before the first three. Every count is 1, so the sort
   * keeps the order `Object.keys` gives.
   */
  method ExtractTopKeywords(wikiSummary: string, originalTopic: string) returns (keywords: seq<string>)
    ensures keywords == TopKeywords(wikiSummary, originalTopic)
  {
    var words := DistinctWords(wikiSummary);
    var wordFreq, insertion := CountWords(words);
    KeywordsOfUnitCounts(words, wordFreq, originalTopic);
    var sorted := SortDesc(ObjectKeys(insertion), ByCount(wordFreq));
    var topWords := Take(sorted, 3);
    keywords := Take([originalTopic] + topWords, 5);
  }

  /** Every character of the split text is a lower-case word character or white space. */
  lemma NormalizedChars(summary: string, t: string)
    requires t == PunctuationToSpace(Lower(summary))
    ensures forall i :: 0 <= i < |t| ==> IsLowerWordChar(t[i]) || IsSpace(t[i])
  {
    LowerAt(summary);
  }

  /** The words derived from a summary are distinct, qualifying, lower-case word strings. */
  lemma DistinctWordsShape(summary: string)
    ensures Distinct(DistinctWords(summary))
    ensures forall w :: w in DistinctWords(summary) ==> Qualifies(w) && IsLowerWord(w)
  {
    var t := PunctuationToSpace(Lower(summary));
    NormalizedChars(summary, t);
    TokenChars(t, IsLowerWordChar);
  }

  /** The dictionary's keys are distinct qualifying lower-case words, none of them "__proto__". */
  lemma KeyWordsShape(summary: string)
    ensures Distinct(KeyWords(summary))
    ensures forall w :: w in KeyWords(summary) <==> w in DistinctWords(summary) && w != ProtoKey
  {
    DistinctWordsShape(summary);
    FilterDistinct(DistinctWords(summary), IsOwnKey);
  }

  /**
   * The keyword list has one to four entries; the first is the topic exactly and the others are
   * distinct, qualifying, lower-case words of the summary.
   */
  lemma TopKeywordsShape(summary: string, topic: string)
    ensures var k := TopKeywords(summary, topic);
      && 1 <= |k| <= 4
      && k[0] == topic
      && |k| == 1 + (if |KeyWords(summary)| < 3 then |KeyWords(summary)| else 3)
      && Distinct(k[1..])
      && forall i :: 1 <= i < |k| ==> k[i] in DistinctWords(summary) && Qualifies(k[i]) && IsLowerWord(k[i])
  {
    var d := KeyWords(summary);
    var t := Take(ObjectKeys(d), 3);
    var k := TopKeywords(summary, topic);
    DistinctWordsShape(summary);
    KeyWordsShape(summary);
    FirstKeysShape(d);
    assert k[1..] == t;
    forall i | 1 <= i < |k| ensures k[i] in t {
      assert k[i] == t[i - 1];
    }
  }

  /** The first three keys are distinct keys of the object. */
  lemma FirstKeysShape(d: seq<string>)
    requires Distinct(d)
    ensures var t := Take(ObjectKeys(d), 3);
      && |t| == (if |d| < 3 then |d| else 3)
      && Distinct(t)
      && forall x :: x in t ==> x in d
  {
    var keys := ObjectKeys(d);
    ObjectKeysPermutes(d);
    forall x | x in Take(keys, 3) ensures x in d {
      assert x in multiset(keys);
    }
  }

  /**
   * When the summary has no number-like word and no "__proto__", the keywords are the topic
   * followed by the first three distinct qualifying words in order of first appearance.
   */
  lemma TopKeywordsFirstAppearance(summary: string, topic: string)
    requires forall w :: w in DistinctWords(summary) ==> !IsArrayIndex(w) && w != ProtoKey
    ensures TopKeywords(summary, topic) == [topic] + Take(DistinctWords(summary), 3)
  {
    FilterAll(DistinctWords(summary), IsOwnKey);
    ObjectKeysInsertionOrder(DistinctWords(summary));
  }

  /** A number-like word anywhere in the summary takes the first place after the topic. */
  lemma NumericWordComesFirst(summary: string, topic: string)
    requires exists w :: w in DistinctWords(summary) && IsArrayIndex(w)
    ensures |TopKeywords(summary, topic)| > 1 && IsArrayIndex(TopKeywords(summary, topic)[1])
  {
    ArrayIndexKeyFirst(DistinctWords(summary), topic);
  }

  lemma ArrayIndexKeyFirst(ws: seq<string>, topic: string)
    requires exists w :: w in ws && IsArrayIndex(w)
    ensures var k := [topic] + Take(ObjectKeys(Filter(ws, IsOwnKey)), 3);
      |k| > 1 && IsArrayIndex(k[1])
  {
    var w :| w in ws && IsArrayIndex(w);
    assert ProtoKey[0] !in "0123456789";
    assert w in Filter(ws, IsOwnKey);
    ArrayIndexKeysFirst(Filter(ws, IsOwnKey));
  }

  /** The word "__proto__" never becomes a keyword. */
  lemma ProtoNeverAKeyword(summary: string, topic: string)
    ensures forall i :: 1 <= i < |TopKeywords(summary, topic)| ==> TopKeywords(summary, topic)[i] != ProtoKey
  {
    var d := KeyWords(summary);
    FilterDistinct(DistinctWords(summary), IsOwnKey);
    FirstKeysAvoid(d, ProtoKey);
  }

  /** A word that is not a key is not among the first three keys. */
  lemma FirstKeysAvoid(d: seq<string>, w: string)
    requires Distinct(d) && w !in d
    ensures w !in Take(ObjectKeys(d), 3)
  {
    FirstKeysShape(d);
  }

  /** An object with an array-index key lists such a key first. */
  lemma ArrayIndexKeysFirst(d: seq<string>)
    requires exists w :: w in d && IsArrayIndex(w)
    ensures |ObjectKeys(d)| > 0 && IsArrayIndex(ObjectKeys(d)[0])
  {
    var w :| w in d && IsArrayIndex(w);
    var nums := Filter(d, IsArrayIndex);
    assert w in nums;
    var sorted := SortDesc(nums, IndexOrder);
    assert sorted[0] in multiset(nums);
    assert ObjectKeys(d)[0] == sorted[0];
  }
}

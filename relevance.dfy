/**
 * Relevance of a paper to the topic (`calculateRelevanceScore`) and the selection of the papers
 * worth reporting (`filterAndSummarizeResearch`): the share of the topic's words the paper's text
 * contains, raised to one half when it contains the whole topic; a paper is kept on the exact
 * phrase, on a word match with some score, or on a high score; the kept ones are ranked by score
 * and the first five reported.
 */
module Relevance {
  import opened Seqs
  import opened Text
  import opened Sorting
  import opened Arxiv

  /** A kept paper with its relevance attached. */
  datatype ScoredPaper = ScoredPaper(paper: Paper, relevanceScore: real)

  const MaxReported: nat := 5

  predicate LongWord(w: string)
  {
    |w| > 3
  }

  /** `topic.toLowerCase().split(/\s+/).filter(word => word.length > 3)`. */
  function TopicWords(topic: string): seq<string>
  {
    Filter(Tokens(Lower(topic)), LongWord)
  }

  /** Each topic word is longer than three characters, has no white space and occurs in the lower-cased topic. */
  lemma TopicWordsShape(topic: string)
    ensures forall w :: w in TopicWords(topic) ==> |w| > 3 && NoSpace(w) && Contains(Lower(topic), w)
  {
  }

  /** The lower-cased title and summary the topic is looked for in. */
  function PaperText(p: Paper): string
  {
    Lower(p.title + " " + p.summary)
  }

  /** The topic words the text contains. */
  function MatchingWords(topicWords: seq<string>, paperText: string): (r: seq<string>)
    ensures |r| <= |topicWords|
  {
    Filter(topicWords, (w: string) => Contains(paperText, Lower(w)))
  }

  /** The matching words are the topic words the text contains. */
  lemma MatchingWordsExact(topicWords: seq<string>, paperText: string)
    ensures forall w :: w in MatchingWords(topicWords, paperText) <==> w in topicWords && Contains(paperText, Lower(w))
  {
  }

  /**
   * The share `m / t` of the topic's words that matched, with the facts about it the rest of the
   * model relies on.
   */
  function Ratio(m: nat, t: nat): (r: real)
    requires 0 < t
    ensures 0.0 <= r
    ensures m <= t ==> r <= 1.0
    ensures m == t ==> r == 1.0
    ensures r > 0.05 <==> 20 * m > t
    ensures r > 0.3 ==> 20 * m > t
  {
    var r := m as real / t as real;
    var tr := t as real;
    assert r * tr == m as real;
    ProductSign(r, tr);
    ProductSign(r - 1.0, tr);
    ProductSign(r - 0.05, tr);
    ProductSign(r - 0.3, tr);
    r
  }

  /** Multiplying by a positive number keeps the sign. */
  lemma ProductSign(a: real, b: real)
    requires b > 0.0
    ensures a > 0.0 <==> a * b > 0.0
    ensures a == 0.0 <==> a * b == 0.0
  {
  }

  function Max(a: real, b: real): real
  {
    if a >= b then a else b
  }

  /** `calculateRelevanceScore`. */
  function RelevanceScore(topic: string, paperText: string): (r: real)
    ensures 0.0 <= r <= 1.0
    ensures TopicWords(topic) == [] ==> r == 0.0
  {
    var topicWords := TopicWords(topic);
    var matchingWords := MatchingWords(topicWords, paperText);
    if |topicWords| == 0 then 0.0
    else
      var fullTopicMatch := if Contains(paperText, Lower(topic)) then 0.5 else 0.0;
      var wordMatchScore := Ratio(|matchingWords|, |topicWords|);
      Max(wordMatchScore, fullTopicMatch)
  }

  /** The words of a lower-cased topic are unchanged by lower-casing. */
  lemma TopicWordsLowered(topic: string)
    ensures forall w :: w in TopicWords(topic) ==> Lower(w) == w
  {
    TopicWordsShape(topic);
    forall w | w in TopicWords(topic) ensures Lower(w) == w {
      LowerIsLowered(topic);
      ContainedChars(Lower(topic), w, (c: char) => LowerChar(c) == c);
      LoweredFixed(w);
    }
  }

  /**
   * A text holding the whole lower-cased topic holds every one of its words, so the score is
   * then exactly one, above the half the phrase alone would give.
   */
  lemma ExactPhraseFullScore(topic: string, paperText: string)
    requires TopicWords(topic) != []
    requires Contains(paperText, Lower(topic))
    ensures RelevanceScore(topic, paperText) == 1.0
    ensures RelevanceScore(topic, paperText) >= 0.5
  {
    var topicWords := TopicWords(topic);
    TopicWordsLowered(topic);
    forall w | w in topicWords ensures Contains(paperText, Lower(w)) {
      ContainsTransitive(paperText, Lower(topic), w);
    }
    FilterAll(topicWords, (w: string) => Contains(paperText, Lower(w)));
  }

  /** `hasRelevantContent`: some topic word occurs in the text. */
  predicate HasRelevantContent(topicWords: seq<string>, paperText: string)
  {
    exists w :: w in topicWords && Contains(paperText, Lower(w))
  }

  /** `hasExactPhrase`: the whole lower-cased topic occurs in the text. */
  predicate HasExactPhrase(topic: string, paperText: string)
  {
    Contains(paperText, Lower(topic))
  }

  /** The acceptance test of `filterAndSummarizeResearch`. */
  predicate Accepted(topic: string, paperText: string)
  {
    var score := RelevanceScore(topic, paperText);
    || HasExactPhrase(topic, paperText)
    || (HasRelevantContent(TopicWords(topic), paperText) && score > 0.05)
    || score > 0.3
  }

  /**
   * What the acceptance test comes to: a paper is kept exactly when it holds the whole topic or
   * more than one in twenty of the topic's words.
   */
  lemma AcceptedIff(topic: string, paperText: string)
    ensures Accepted(topic, paperText) <==>
      HasExactPhrase(topic, paperText)
      || 20 * |MatchingWords(TopicWords(topic), paperText)| > |TopicWords(topic)|
  {
    var topicWords := TopicWords(topic);
    var m := |MatchingWords(topicWords, paperText)|;
    var t := |topicWords|;
    RelevantContentIff(topicWords, paperText);
  }

  /** A word match is a non-empty list of matching words. */
  lemma RelevantContentIff(topicWords: seq<string>, paperText: string)
    ensures HasRelevantContent(topicWords, paperText) <==> |MatchingWords(topicWords, paperText)| > 0
  {
    var matching := MatchingWords(topicWords, paperText);
    MatchingWordsExact(topicWords, paperText);
    if |matching| > 0 {
      assert matching[0] in matching;
    }
  }

  /** The `score > 0.3` clause never keeps a paper the other two clauses reject. */
  lemma HighScoreClauseRedundant(topic: string, paperText: string)
    ensures Accepted(topic, paperText) <==>
      HasExactPhrase(topic, paperText)
      || (HasRelevantContent(TopicWords(topic), paperText) && RelevanceScore(topic, paperText) > 0.05)
  {
    var topicWords := TopicWords(topic);
    var m := |MatchingWords(topicWords, paperText)|;
    var t := |topicWords|;
    RelevantContentIff(topicWords, paperText);
  }

  /** The score the ranking uses. */
  function Score(topic: string, p: Paper): real
  {
    RelevanceScore(topic, PaperText(p))
  }

  function RelevanceOf(s: ScoredPaper): real
  {
    s.relevanceScore
  }

  /** `relevantPapers` after the loop: the accepted papers in input order, each with its score. */
  function Relevant(topic: string, papers: seq<Paper>): seq<ScoredPaper>
  {
    FilterMap(papers, (p: Paper) => Accepted(topic, PaperText(p)), (p: Paper) => ScoredPaper(p, Score(topic, p)))
  }

  /** The result of `filterAndSummarizeResearch`. */
  function Ranked(topic: string, papers: seq<Paper>): seq<ScoredPaper>
  {
    Take(SortDesc(Relevant(topic, papers), RelevanceOf), MaxReported)
  }

  /** The relevant papers are exactly the accepted input papers, each with its own score. */
  lemma RelevantExact(topic: string, papers: seq<Paper>)
    ensures |Relevant(topic, papers)| <= |papers|
    ensures forall x :: x in Relevant(topic, papers) <==>
      x.paper in papers && Accepted(topic, PaperText(x.paper)) && x.relevanceScore == Score(topic, x.paper)
  {
    var keep := (p: Paper) => Accepted(topic, PaperText(p));
    var score := (p: Paper) => ScoredPaper(p, Score(topic, p));
    FilterMapExact(papers, keep, score);
    forall x: ScoredPaper | x.paper in papers && Accepted(topic, PaperText(x.paper)) && x.relevanceScore == Score(topic, x.paper)
      ensures x in Relevant(topic, papers)
    {
      assert x == score(x.paper);
    }
  }

  /** A paper holding the whole topic is always among the relevant ones. */
  lemma ExactPhraseAccepted(topic: string, papers: seq<Paper>, p: Paper)
    requires p in papers
    requires HasExactPhrase(topic, PaperText(p))
    ensures ScoredPaper(p, Score(topic, p)) in Relevant(topic, papers)
  {
    RelevantExact(topic, papers);
  }

  /**
   * The reported papers: at most five, in non-increasing score order, each an accepted input
   * paper with its score; no accepted paper left out scores higher than one reported, and when
   * there are at most five accepted papers all of them are reported.
   */
  lemma RankedShape(topic: string, papers: seq<Paper>)
    ensures var r := Ranked(topic, papers);
      && |r| <= MaxReported
      && SortedDesc(r, RelevanceOf)
      && (forall x :: x in r ==>
            x.paper in papers && Accepted(topic, PaperText(x.paper)) && x.relevanceScore == Score(topic, x.paper))
      && (|Relevant(topic, papers)| <= MaxReported ==> multiset(r) == multiset(Relevant(topic, papers)))
  {
    var rel := Relevant(topic, papers);
    var sorted := SortDesc(rel, RelevanceOf);
    RelevantExact(topic, papers);
    SortDescSorted(rel, RelevanceOf);
    TakeOfSortedKeepsLargest(sorted, RelevanceOf, MaxReported);
    forall x | x in Ranked(topic, papers) ensures x in rel {
      assert x in multiset(sorted);
    }
  }

  /** Papers with equal scores are reported in input order. */
  lemma RankedStable(topic: string, papers: seq<Paper>, k: real)
    ensures WithKey(SortDesc(Relevant(topic, papers), RelevanceOf), RelevanceOf, k)
         == WithKey(Relevant(topic, papers), RelevanceOf, k)
  {
    SortDescStable(Relevant(topic, papers), RelevanceOf, k);
  }

  /** Nothing reported and nothing left out scores higher than what is reported. */
  lemma RankedKeepsBest(topic: string, papers: seq<Paper>)
    ensures var sorted := SortDesc(Relevant(topic, papers), RelevanceOf);
      forall i, j :: 0 <= i < |Ranked(topic, papers)| <= j < |sorted| ==>
        sorted[j].relevanceScore <= Ranked(topic, papers)[i].relevanceScore
  {
    var sorted := SortDesc(Relevant(topic, papers), RelevanceOf);
    SortDescSorted(Relevant(topic, papers), RelevanceOf);
    TakeOfSortedKeepsLargest(sorted, RelevanceOf, MaxReported);
  }

  /**
   * `filterAndSummarizeResearch`: no papers give none; otherwise each paper is scored and judged
   * in turn, the accepted ones are collected, sorted by score and the first five returned.
   */
  method FilterAndSummarizeResearch(topic: string, papers: seq<Paper>) returns (ranked: seq<ScoredPaper>)
    ensures ranked == Ranked(topic, papers)
  {
    if |papers| == 0 {
      return [];
    }
    var relevantPapers: seq<ScoredPaper> := [];
    for i := 0 to |papers|
      invariant relevantPapers == Relevant(topic, papers[..i])
    {
      var paper := papers[i];
      assert papers[..i + 1][..i] == papers[..i];
      var paperText := PaperText(paper);
      var topicRelevanceScore := RelevanceScore(topic, paperText);
      if Accepted(topic, paperText) {
        relevantPapers := relevantPapers + [ScoredPaper(paper, topicRelevanceScore)];
      }
    }
    assert papers[..|papers|] == papers;
    var sorted := SortDesc(relevantPapers, RelevanceOf);
    ranked := Take(sorted, MaxReported);
  }
}

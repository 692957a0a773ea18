/**
 * The answer `combineIntoFinalResponse` writes: a heading with the topic, the encyclopaedia
 * summary, then either the numbered list of reported papers with a synthesis and key insights,
 * or a paragraph saying no recent papers were found. How a date and a percentage are displayed
 * (`toLocaleDateString`, `toFixed(0)`) is given as functions.
 */
module Compose {
  import opened Seqs
  import opened Text
  import opened Arxiv
  import opened Relevance

  /** The fixed wording of the answer: its headings and the sentences around the topic and the count. */
  datatype Wording = Wording(
    header: string,
    backgroundHeading: string,
    findingsHeading: string,
    synthesisHeading: string,
    synthesisLead: string,
    synthesisMiddle: string,
    synthesisEnd: string,
    insightsHeading: string,
    insightsLead: string,
    insightsEnd: string,
    statusHeading: string,
    statusLead: string,
    statusEnd: string)

  /** The wording `combineIntoFinalResponse` writes. */
  const SourceWording: Wording := Wording(
    "Research Analysis: ",
    "\U{1F4D6} Background Overview:\n",
    "\U{1F52C} Recent Research Findings (Last 6 Years):\n\n",
    "\U{1F4CA} Research Synthesis:\n",
    "Analysis of ",
    " highly relevant papers from the last 6 years shows active ongoing research in ",
    ". These studies contribute to advancing our understanding through various methodological approaches and findings, "
    + "indicating this remains an important and evolving field of study.\n\n",
    "\U{1F4A1} Key Insights:\n",
    "The combination of established knowledge from Wikipedia and cutting-edge research from arXiv provides "
    + "a comprehensive view of ",
    ", covering both foundational concepts and the latest academic developments. "
    + "This dual approach ensures both accessibility for general understanding and depth for advanced research purposes.",
    "\U{1F50D} Research Status:\n",
    "While ",
    " has a solid foundation of established knowledge, no recent academic papers were found in the arXiv database "
    + "for the last 6 years that directly match this topic. This could indicate either a mature field with established knowledge "
    + "or research published in other venues not covered by arXiv.")

  /** `Research Analysis: {topic}` and a blank line. */
  function Header(w: Wording, topic: string): string
  {
    w.header + topic + "\n\n"
  }

  function Background(w: Wording, wikiSummary: string): string
  {
    w.backgroundHeading + wikiSummary + "\n\n"
  }

  /** The three lines written for the paper at `index`, numbered from one. */
  function PaperEntry(index: nat, p: ScoredPaper, formatDate: int -> string, formatPercent: real -> string): string
  {
    NatToString(index + 1) + ". " + p.paper.title + "\n"
    + "   Published: " + formatDate(p.paper.published) + " | Relevance: " + formatPercent(p.relevanceScore * 100.0) + "%\n"
    + "   " + p.paper.summary + "\n\n"
  }

  /** The entries of all the papers, in list order. */
  function PaperEntries(papers: seq<ScoredPaper>, formatDate: int -> string, formatPercent: real -> string): string
  {
    if papers == [] then []
    else
      PaperEntries(papers[..|papers| - 1], formatDate, formatPercent)
      + PaperEntry(|papers| - 1, papers[|papers| - 1], formatDate, formatPercent)
  }

  function Synthesis(w: Wording, topic: string, count: nat): string
  {
    w.synthesisHeading + w.synthesisLead + NatToString(count) + w.synthesisMiddle + topic + w.synthesisEnd
  }

  function Insights(w: Wording, topic: string): string
  {
    w.insightsHeading + w.insightsLead + topic + w.insightsEnd
  }

  function Status(w: Wording, topic: string): string
  {
    w.statusHeading + w.statusLead + topic + w.statusEnd
  }

  /** The heading and the summary, with which every answer opens. */
  function Opening(w: Wording, topic: string, wikiSummary: string): string
  {
    Header(w, topic) + Background(w, wikiSummary)
  }

  /** The result of `combineIntoFinalResponse`, in the given wording. */
  function FinalResponse(w: Wording, topic: string, wikiSummary: string, papers: seq<ScoredPaper>,
                         formatDate: int -> string, formatPercent: real -> string): string
  {
    if |papers| > 0 then
      Opening(w, topic, wikiSummary) + w.findingsHeading + PaperEntries(papers, formatDate, formatPercent)
      + Synthesis(w, topic, |papers|) + Insights(w, topic)
    else
      Opening(w, topic, wikiSummary) + Status(w, topic)
  }

  /** `combineIntoFinalResponse`, in the given wording: the answer built piece by piece with `+=`. */
  method CombineIntoFinalResponse(w: Wording, topic: string, wikiSummary: string, relevantPapers: seq<ScoredPaper>,
                                  formatDate: int -> string, formatPercent: real -> string) returns (response: string)
    ensures response == FinalResponse(w, topic, wikiSummary, relevantPapers, formatDate, formatPercent)
  {
    response := Header(w, topic);
    response := response + Background(w, wikiSummary);
    if |relevantPapers| > 0 {
      response := response + w.findingsHeading;
      ghost var listStart := response;
      for index := 0 to |relevantPapers|
        invariant response == listStart + PaperEntries(relevantPapers[..index], formatDate, formatPercent)
      {
        var paper := relevantPapers[index];
        assert relevantPapers[..index + 1][..index] == relevantPapers[..index];
        AppendAssoc(listStart, PaperEntries(relevantPapers[..index], formatDate, formatPercent),
          PaperEntry(index, paper, formatDate, formatPercent));
        response := response + PaperEntry(index, paper, formatDate, formatPercent);
      }
      assert relevantPapers[..|relevantPapers|] == relevantPapers;
      response := response + Synthesis(w, topic, |relevantPapers|);
      response := response + Insights(w, topic);
    } else {
      response := response + Status(w, topic);
    }
  }

  /** The answer opens with the heading naming the topic, and holds the summary as given. */
  lemma OpensWithTopicAndSummary(w: Wording, topic: string, wikiSummary: string, papers: seq<ScoredPaper>,
                                 formatDate: int -> string, formatPercent: real -> string)
    ensures var r := FinalResponse(w, topic, wikiSummary, papers, formatDate, formatPercent);
      && StartsWith(r, Header(w, topic))
      && StartsWith(r, Opening(w, topic, wikiSummary))
      && Contains(r, wikiSummary)
  {
    var h := Header(w, topic);
    var o := Opening(w, topic, wikiSummary);
    PrefixAppended(h, Background(w, wikiSummary));
    ContainsSelf(wikiSummary);
    ContainsAppended(wikiSummary, w.backgroundHeading, wikiSummary);
    ContainsAppended(w.backgroundHeading + wikiSummary, "\n\n", wikiSummary);
    ContainsAppended(Background(w, wikiSummary), h, wikiSummary);
    if |papers| > 0 {
      var f := w.findingsHeading;
      var e := PaperEntries(papers, formatDate, formatPercent);
      var s := Synthesis(w, topic, |papers|);
      var i := Insights(w, topic);
      PrefixAppended(o, f);
      StartsWithAppended(o + f, e, o);
      StartsWithAppended(o + f + e, s, o);
      StartsWithAppended(o + f + e + s, i, o);
      StartsWithAppended(o, f, h);
      StartsWithAppended(o + f, e, h);
      StartsWithAppended(o + f + e, s, h);
      StartsWithAppended(o + f + e + s, i, h);
      ContainsAppended(o, f, wikiSummary);
      ContainsAppended(o + f, e, wikiSummary);
      ContainsAppended(o + f + e, s, wikiSummary);
      ContainsAppended(o + f + e + s, i, wikiSummary);
    } else {
      PrefixAppended(o, Status(w, topic));
      StartsWithAppended(o, Status(w, topic), h);
      ContainsAppended(o, Status(w, topic), wikiSummary);
    }
  }

  /** The entries of a non-empty list: those before the last paper's, then its own. */
  lemma EntriesSnoc(papers: seq<ScoredPaper>, formatDate: int -> string, formatPercent: real -> string)
    requires papers != []
    ensures PaperEntries(papers, formatDate, formatPercent)
      == PaperEntries(papers[..|papers| - 1], formatDate, formatPercent)
         + PaperEntry(|papers| - 1, papers[|papers| - 1], formatDate, formatPercent)
  {
  }

  /** The entry of each paper is in the list, right before the entry of the next one. */
  lemma {:induction false} EntriesInOrder(papers: seq<ScoredPaper>, formatDate: int -> string, formatPercent: real -> string)
    ensures forall i :: 0 <= i < |papers| ==>
      Contains(PaperEntries(papers, formatDate, formatPercent), PaperEntry(i, papers[i], formatDate, formatPercent))
    ensures forall i :: 0 <= i < |papers| - 1 ==>
      Contains(PaperEntries(papers, formatDate, formatPercent),
               PaperEntry(i, papers[i], formatDate, formatPercent) + PaperEntry(i + 1, papers[i + 1], formatDate, formatPercent))
  {
    if papers != [] {
      var n := |papers| - 1;
      var init := papers[..n];
      var prev := PaperEntries(init, formatDate, formatPercent);
      var last := PaperEntry(n, papers[n], formatDate, formatPercent);
      EntriesInOrder(init, formatDate, formatPercent);
      EntriesSnoc(papers, formatDate, formatPercent);
      forall i | 0 <= i < n
        ensures Contains(prev + last, PaperEntry(i, papers[i], formatDate, formatPercent))
      {
        assert init[i] == papers[i];
        ContainsAppended(prev, last, PaperEntry(i, papers[i], formatDate, formatPercent));
      }
      ContainsSelf(last);
      ContainsAppended(last, prev, last);
      forall i | 0 <= i < n
        ensures Contains(prev + last, PaperEntry(i, papers[i], formatDate, formatPercent) + PaperEntry(i + 1, papers[i + 1], formatDate, formatPercent))
      {
        var pair := PaperEntry(i, papers[i], formatDate, formatPercent) + PaperEntry(i + 1, papers[i + 1], formatDate, formatPercent);
        if i < n - 1 {
          assert init[i] == papers[i] && init[i + 1] == papers[i + 1];
          ContainsAppended(prev, last, pair);
        } else {
          var before := PaperEntries(init[..n - 1], formatDate, formatPercent);
          var beside := PaperEntry(n - 1, init[n - 1], formatDate, formatPercent);
          EntriesSnoc(init, formatDate, formatPercent);
          assert init[n - 1] == papers[n - 1];
          AppendAssoc(before, beside, last);
          ContainsSelf(beside + last);
          ContainsAppended(beside + last, before, beside + last);
        }
      }
    }
  }

  /**
   * With papers to report, the answer holds the findings heading, each paper's numbered entry,
   * and the synthesis stating how many there are, and it closes with the key insights.
   */
  lemma FindingsReported(w: Wording, topic: string, wikiSummary: string, papers: seq<ScoredPaper>,
                         formatDate: int -> string, formatPercent: real -> string)
    requires |papers| > 0
    ensures var r := FinalResponse(w, topic, wikiSummary, papers, formatDate, formatPercent);
      && Contains(r, w.findingsHeading)
      && (forall i :: 0 <= i < |papers| ==> Contains(r, PaperEntry(i, papers[i], formatDate, formatPercent)))
      && Contains(r, Synthesis(w, topic, |papers|))
      && EndsWith(r, Insights(w, topic))
  {
    var o := Opening(w, topic, wikiSummary);
    var f := w.findingsHeading;
    var e := PaperEntries(papers, formatDate, formatPercent);
    var s := Synthesis(w, topic, |papers|);
    var i := Insights(w, topic);
    ContainsSelf(f);
    ContainsAppended(f, o, f);
    ContainsAppended(o + f, e, f);
    ContainsAppended(o + f + e, s, f);
    ContainsAppended(o + f + e + s, i, f);
    EntriesInOrder(papers, formatDate, formatPercent);
    forall k | 0 <= k < |papers|
      ensures Contains(o + f + e + s + i, PaperEntry(k, papers[k], formatDate, formatPercent))
    {
      var entry := PaperEntry(k, papers[k], formatDate, formatPercent);
      ContainsAppended(e, o + f, entry);
      ContainsAppended(o + f + e, s, entry);
      ContainsAppended(o + f + e + s, i, entry);
    }
    ContainsSelf(s);
    ContainsAppended(s, o + f + e, s);
    ContainsAppended(o + f + e + s, i, s);
    SuffixAppended(o + f + e + s, i);
  }

  /** The synthesis states the number of papers: reading its count back gives the list's length. */
  lemma SynthesisCount(w: Wording, topic: string, count: nat)
    ensures StartsWith(Synthesis(w, topic, count), w.synthesisHeading + w.synthesisLead + NatToString(count))
    ensures DecimalValue(NatToString(count)) == count
  {
    NatToStringRoundTrip(count);
    var p := w.synthesisHeading + w.synthesisLead + NatToString(count);
    PrefixAppended(p, w.synthesisMiddle);
    StartsWithAppended(p + w.synthesisMiddle, topic, p);
    StartsWithAppended(p + w.synthesisMiddle + topic, w.synthesisEnd, p);
  }

  /** With no papers to report, the answer is the opening followed by the research-status paragraph. */
  lemma StatusWhenNoPapers(w: Wording, topic: string, wikiSummary: string, formatDate: int -> string, formatPercent: real -> string)
    ensures var r := FinalResponse(w, topic, wikiSummary, [], formatDate, formatPercent);
      && StartsWith(r, Opening(w, topic, wikiSummary))
      && EndsWith(r, Status(w, topic))
      && |r| == |Opening(w, topic, wikiSummary)| + |Status(w, topic)|
  {
    PrefixAppended(Opening(w, topic, wikiSummary), Status(w, topic));
    SuffixAppended(Opening(w, topic, wikiSummary), Status(w, topic));
  }
}

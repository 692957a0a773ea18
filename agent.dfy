/**
 * The agent's entry point: `process` sends a query down one of five routes, and the definition
 * route runs the whole research pipeline. The two network lookups are given functions from the
 * request URL to the response (`None` when the request fails or the answer is not ok); the
 * answer is paired with the list of lookups it made, so that which route reaches the network is
 * part of what is stated.
 */
module Agent {
  import opened Seqs
  import opened Text
  import opened Topic
  import Keywords
  import Search
  import opened Arxiv
  import Relevance
  import Compose

  /** The phrases that send a query to the definition route when it starts with one. */
  const DefinitionPrefixes: seq<string> := [
    "what is", "define", "explain", "describe", "summarize", "summary",
    "who is", "who are", "tell me about"
  ]

  /** The phrases that send a query to the how-to guide when it starts with one. */
  const HowToPrefixes: seq<string> := ["how to", "how do"]

  /** The phrases that send a query anywhere in it to the news answer. */
  const NewsPhrases: seq<string> := ["news", "current events"]

  /** The phrases that send a query anywhere in it to the historical overview. */
  const HistoryPhrases: seq<string> := ["history", "historical"]

  /** The five branches of `process`; `Other` is the final `else`. */
  datatype Route = Definition | HowTo | News | History | Other

  /** `s.startsWith(ps[0]) || s.startsWith(ps[1]) || …`. */
  predicate StartsWithAny(s: string, ps: seq<string>)
  {
    ps != [] && (StartsWith(s, ps[0]) || StartsWithAny(s, ps[1..]))
  }

  /** `s.includes(ps[0]) || s.includes(ps[1]) || …`. */
  predicate ContainsAny(s: string, ps: seq<string>)
  {
    ps != [] && (Contains(s, ps[0]) || ContainsAny(s, ps[1..]))
  }

  /** The chain of tests holds exactly when one of the phrases begins the text. */
  lemma {:induction false} StartsWithAnyIff(s: string, ps: seq<string>)
    ensures StartsWithAny(s, ps) <==> exists p :: p in ps && StartsWith(s, p)
  {
    if ps != [] {
      StartsWithAnyIff(s, ps[1..]);
      assert forall p :: p in ps <==> p == ps[0] || p in ps[1..];
    }
  }

  /** The chain of tests holds exactly when one of the phrases occurs in the text. */
  lemma {:induction false} ContainsAnyIff(s: string, ps: seq<string>)
    ensures ContainsAny(s, ps) <==> exists p :: p in ps && Contains(s, p)
  {
    if ps != [] {
      ContainsAnyIff(s, ps[1..]);
      assert forall p :: p in ps <==> p == ps[0] || p in ps[1..];
    }
  }

  /** The branch `process` takes: the tests on the lower-cased query, in order, the first that holds. */
  function Classify(query: string): Route
  {
    var lowerQuery := Lower(query);
    if StartsWithAny(lowerQuery, DefinitionPrefixes) then Definition
    else if StartsWithAny(lowerQuery, HowToPrefixes) then HowTo
    else if ContainsAny(lowerQuery, NewsPhrases) then News
    else if ContainsAny(lowerQuery, HistoryPhrases) then History
    else Other
  }

  /**
   * The fixed paragraphs of the three template answers, which are given: what follows the
   * opening sentence of the how-to guide, the whole news answer, and the three stretches of the
   * historical overview between the later mentions of the topic.
   */
  datatype Templates = Templates(
    howToGuide: string,
    news: string,
    historyOverview: string,
    historySignificance: string,
    historyClosing: string)

  /** `handleHowToQuery`: the guide, with the topic in its title and its first sentence. */
  function HowToAnswer(t: Templates, topic: string): string
  {
    "How to " + topic + ":\n\nHere's a step-by-step guide for " + topic + t.howToGuide
  }

  /** `handleHistoryQuery`: the overview, with the topic in its title and three more places. */
  function HistoryAnswer(t: Templates, topic: string): string
  {
    "Historical Context of " + topic + ":\n\nLet me provide you with the historical background of " + topic
    + t.historyOverview + topic + t.historySignificance + topic + t.historyClosing
  }

  /** The network lookups the agent makes, each with its request URL. */
  datatype Call = SummaryLookup(url: string) | PaperSearch(url: string)

  /** An answer and the lookups made to reach it, in order. */
  datatype Reply = Reply(response: string, calls: seq<Call>)

  /**
   * What the agent is given: the two lookups, `encodeURIComponent`, the date parser, the start of
   * the six-year window and the display of dates and percentages.
   */
  datatype Services = Services(
    summaryFetch: string -> Option<string>,
    paperFetch: string -> Option<string>,
    encode: string -> string,
    parseDate: string -> Option<int>,
    minDate: int,
    formatDate: int -> string,
    formatPercent: real -> string)

  const SummaryUrlPrefix: string := "https://en.wikipedia.org/api/rest_v1/page/summary/"

  function SummaryUrl(topic: string, encode: string -> string): string
  {
    SummaryUrlPrefix + encode(topic)
  }

  /** `getWikipediaOverview`: the extract, where an empty one counts as none. */
  function Overview(topic: string, s: Services): Option<string>
  {
    match s.summaryFetch(SummaryUrl(topic, s.encode))
    case Some(extract) => if extract == [] then None else Some(extract)
    case None => None
  }

  /** The answer when there is no summary to start from. */
  function NoInformation(topic: string): string
  {
    "No information found for \"" + topic + "\"."
  }

  /** The URL of the paper search for a topic and its summary. */
  function SearchUrl(s: Services, topic: string, wikiSummary: string): string
  {
    var keywords := Keywords.TopKeywords(wikiSummary, topic);
    Keywords.TopKeywordsShape(wikiSummary, topic);
    Search.QueryUrl(Search.SearchQuery(keywords, s.encode))
  }

  /**
   * The research answer for a topic with a summary: its keywords, the recent papers they find,
   * the relevant ones among them and the answer composed of them.
   */
  function Researched(w: Compose.Wording, s: Services, topic: string, wikiSummary: string): string
  {
    var keywords := Keywords.TopKeywords(wikiSummary, topic);
    var papers := Search.SearchResult(keywords, s.encode, s.paperFetch, s.parseDate, s.minDate);
    Compose.FinalResponse(w, topic, wikiSummary, Relevance.Ranked(topic, papers), s.formatDate, s.formatPercent)
  }

  /** The result of `handleDefinitionQuery`, with the lookups made. */
  function DefinitionAnswer(w: Compose.Wording, s: Services, topic: string): Reply
  {
    var lookup := SummaryLookup(SummaryUrl(topic, s.encode));
    var overview := Overview(topic, s);
    if overview.None? then Reply(NoInformation(topic), [lookup])
    else Reply(Researched(w, s, topic, overview.value), [lookup, PaperSearch(SearchUrl(s, topic, overview.value))])
  }

  /**
   * What the handler of each route answers; every handler starts from the extracted topic, except
   * the news answer, which does not depend on the query.
   */
  function RouteAnswer(t: Templates, w: Compose.Wording, s: Services, route: Route, topic: string): Reply
  {
    match route
    case Definition => DefinitionAnswer(w, s, topic)
    case HowTo => Reply(HowToAnswer(t, topic), [])
    case News => Reply(t.news, [])
    case History => Reply(HistoryAnswer(t, topic), [])
    case Other => DefinitionAnswer(w, s, topic)
  }

  /** The result of `process`. */
  function Answer(t: Templates, w: Compose.Wording, s: Services, query: string): Reply
  {
    RouteAnswer(t, w, s, Classify(query), ExtractTopic(query))
  }

  /** The stages of `handleDefinitionQuery` after the summary lookup, run one by one. */
  method Research(w: Compose.Wording, s: Services, topic: string, wikiSummary: string)
    returns (response: string, searchUrl: string)
    ensures response == Researched(w, s, topic, wikiSummary)
    ensures searchUrl == SearchUrl(s, topic, wikiSummary)
  {
    var keywords := Keywords.ExtractTopKeywords(wikiSummary, topic);
    Keywords.TopKeywordsShape(wikiSummary, topic);
    var searchQuery := Search.BuildSearchQuery(keywords, s.encode);
    searchUrl := Search.QueryUrl(searchQuery);
    var arxivPapers := Search.SearchArxivWithKeywords(keywords, s.encode, s.paperFetch, s.parseDate, s.minDate);
    var relevantPapers := Relevance.FilterAndSummarizeResearch(topic, arxivPapers);
    response := Compose.CombineIntoFinalResponse(w, topic, wikiSummary, relevantPapers, s.formatDate, s.formatPercent);
  }

  /** `handleDefinitionQuery`: the topic, its summary, and the research when there is one. */
  method HandleDefinitionQuery(w: Compose.Wording, s: Services, query: string) returns (response: string, calls: seq<Call>)
    ensures Reply(response, calls) == DefinitionAnswer(w, s, ExtractTopic(query))
  {
    var topic := ExtractTopic(query);
    var lookup := SummaryLookup(SummaryUrl(topic, s.encode));
    var wikiSummary := Overview(topic, s);
    if wikiSummary.None? {
      return NoInformation(topic), [lookup];
    }
    var searchUrl;
    response, searchUrl := Research(w, s, topic, wikiSummary.value);
    calls := [lookup, PaperSearch(searchUrl)];
  }

  /** `process`, with the answers' fixed text given: the route taken, then its handler. */
  method Process(t: Templates, w: Compose.Wording, s: Services, query: string) returns (response: string, calls: seq<Call>)
    ensures Reply(response, calls) == Answer(t, w, s, query)
  {
    var route := Classify(query);
    match route
    case Definition =>
      response, calls := HandleDefinitionQuery(w, s, query);
    case HowTo =>
      response, calls := HowToAnswer(t, ExtractTopic(query)), [];
    case News =>
      response, calls := t.news, [];
    case History =>
      response, calls := HistoryAnswer(t, ExtractTopic(query)), [];
    case Other =>
      response, calls := HandleDefinitionQuery(w, s, query);
  }

  /** `process` as the agent runs it, with the wording of its research answers. */
  method Respond(t: Templates, s: Services, query: string) returns (response: string, calls: seq<Call>)
    ensures Reply(response, calls) == Answer(t, Compose.SourceWording, s, query)
  {
    response, calls := Process(t, Compose.SourceWording, s, query);
  }

  /** Two phrases that differ at position `k` cannot both begin the same text. */
  lemma DifferentPrefixes(s: string, p: string, q: string, k: nat)
    requires StartsWith(s, p) && k < |p| && k < |q| && p[k] != q[k]
    ensures !StartsWith(s, q)
  {
    assert s[k] == s[..|p|][k];
  }

  /**
   * A query starting with "summary" takes the definition route, yet `extractTopic` does not
   * remove the word: no phrase it strips begins such a query.
   */
  lemma SummaryRoutedButKept(query: string)
    requires HasPrefix(query, "summary")
    ensures Classify(query) == Definition
    ensures StripPrefix(query) == query
  {
    var lowerQuery := Lower(query);
    assert DefinitionPrefixes[5] == "summary";
    StartsWithAnyIff(lowerQuery, DefinitionPrefixes);
    forall p | p in TopicPrefixes ensures !HasPrefix(query, p) {
      if p == "summarize" {
        DifferentPrefixes(lowerQuery, "summary", p, 6);
      } else {
        DifferentPrefixes(lowerQuery, "summary", p, 0);
      }
    }
    FirstPrefixIsFirst(query, TopicPrefixes);
  }

  /** A query starting with "what are" starts with none of the definition or how-to phrases. */
  lemma WhatAreNotListed(query: string)
    requires HasPrefix(query, "what are")
    ensures Classify(query) != Definition && Classify(query) != HowTo
  {
    var lowerQuery := Lower(query);
    forall p | p in DefinitionPrefixes ensures !StartsWith(lowerQuery, p) {
      if p == "what is" {
        DifferentPrefixes(lowerQuery, "what are", p, 5);
      } else if p == "who is" || p == "who are" {
        DifferentPrefixes(lowerQuery, "what are", p, 2);
      } else {
        DifferentPrefixes(lowerQuery, "what are", p, 0);
      }
    }
    forall p | p in HowToPrefixes ensures !StartsWith(lowerQuery, p) {
      DifferentPrefixes(lowerQuery, "what are", p, 0);
    }
    StartsWithAnyIff(lowerQuery, DefinitionPrefixes);
    StartsWithAnyIff(lowerQuery, HowToPrefixes);
  }

  /** `extractTopic` removes a leading "what are" and the white space after it. */
  lemma WhatAreStripped(query: string)
    requires HasPrefix(query, "what are")
    ensures StripPrefix(query) == TrimStart(query[|"what are"|..])
  {
    DifferentPrefixes(Lower(query), "what are", "what is", 5);
    assert TopicPrefixes[1..][0] == "what are";
    assert FirstPrefix(query, TopicPrefixes) == FirstPrefix(query, TopicPrefixes[1..]) == Some("what are");
  }

  /**
   * A query starting with "what are" is not a definition or how-to query, although
   * `extractTopic` removes the phrase; with no news or history word in it, it still gets the
   * definition answer, by the final `else`.
   */
  lemma WhatAreByDefault(t: Templates, w: Compose.Wording, s: Services, query: string)
    requires HasPrefix(query, "what are")
    ensures !ContainsAny(Lower(query), NewsPhrases) && !ContainsAny(Lower(query), HistoryPhrases) ==>
      Classify(query) == Other && Answer(t, w, s, query) == DefinitionAnswer(w, s, ExtractTopic(query))
  {
    WhatAreNotListed(query);
    DefinitionRoutes(t, w, s, query);
  }

  /**
   * The tests run in order and the first that holds decides: a query starting with a definition
   * phrase gets the definition answer even when it mentions news or history, and a how-to query
   * gets the guide even when it does.
   */
  lemma FirstMatchWins(t: Templates, w: Compose.Wording, s: Services, query: string)
    ensures StartsWithAny(Lower(query), DefinitionPrefixes) ==>
      Answer(t, w, s, query) == DefinitionAnswer(w, s, ExtractTopic(query))
    ensures !StartsWithAny(Lower(query), DefinitionPrefixes) && StartsWithAny(Lower(query), HowToPrefixes) ==>
      Answer(t, w, s, query) == Reply(HowToAnswer(t, ExtractTopic(query)), [])
  {
  }

  /**
   * Only the definition route and the final `else` reach the network: the templates make no
   * lookup, and the research makes the summary lookup first and at most one paper search after it.
   */
  lemma LookupsOnlyForDefinitions(t: Templates, w: Compose.Wording, s: Services, query: string)
    ensures var r := Answer(t, w, s, query);
      && (r.calls == [] <==> !(Classify(query) == Definition || Classify(query) == Other))
      && |r.calls| <= 2
      && (r.calls != [] ==> r.calls[0] == SummaryLookup(SummaryUrl(ExtractTopic(query), s.encode)))
      && (forall i :: 1 <= i < |r.calls| ==> r.calls[i].PaperSearch?)
  {
    var topic := ExtractTopic(query);
    assert Answer(t, w, s, query) == RouteAnswer(t, w, s, Classify(query), topic);
    RouteCalls(t, w, s, Classify(query), topic);
  }

  /** The lookups each route makes for a topic. */
  lemma RouteCalls(t: Templates, w: Compose.Wording, s: Services, route: Route, topic: string)
    ensures var r := RouteAnswer(t, w, s, route, topic);
      && (r.calls == [] <==> !(route == Definition || route == Other))
      && |r.calls| <= 2
      && (r.calls != [] ==> r.calls[0] == SummaryLookup(SummaryUrl(topic, s.encode)))
      && (forall i :: 1 <= i < |r.calls| ==> r.calls[i].PaperSearch?)
  {
    DefinitionCalls(w, s, topic);
  }

  /** The definition route and the final `else` both answer with the research. */
  lemma DefinitionRoutes(t: Templates, w: Compose.Wording, s: Services, query: string)
    ensures Classify(query) == Definition || Classify(query) == Other ==>
      Answer(t, w, s, query) == DefinitionAnswer(w, s, ExtractTopic(query))
  {
  }

  /** The research makes the summary lookup, then at most a paper search. */
  lemma DefinitionCalls(w: Compose.Wording, s: Services, topic: string)
    ensures var calls := DefinitionAnswer(w, s, topic).calls;
      && 1 <= |calls| <= 2
      && calls[0] == SummaryLookup(SummaryUrl(topic, s.encode))
      && (|calls| == 2 ==> calls[1].PaperSearch?)
  {
  }

  /**
   * Without a summary the answer says that nothing was found, and no paper search, keyword
   * extraction, filtering or composition takes place.
   */
  lemma NoSummaryNoResearch(t: Templates, w: Compose.Wording, s: Services, query: string)
    requires Classify(query) == Definition || Classify(query) == Other
    requires Overview(ExtractTopic(query), s).None?
    ensures Answer(t, w, s, query)
      == Reply("No information found for \"" + ExtractTopic(query) + "\".", [SummaryLookup(SummaryUrl(ExtractTopic(query), s.encode))])
  {
    var topic := ExtractTopic(query);
    assert Answer(t, w, s, query) == DefinitionAnswer(w, s, topic);
    assert DefinitionAnswer(w, s, topic) == Reply(NoInformation(topic), [SummaryLookup(SummaryUrl(topic, s.encode))]);
  }

  /** The search URL holds the query as it is, between the fixed prefix and suffix. */
  lemma QueryInUrl(query: string, clause: string)
    requires Contains(query, clause)
    ensures Contains(Search.QueryUrl(query), clause)
  {
    ContainsInContext(Search.QueryUrlPrefix, query, Search.QueryUrlSuffix, clause);
  }

  /**
   * With a summary, the research answer opens with the topic's heading and holds the summary as
   * given; the lookups are the summary and one paper search, whose URL searches the keywords
   * derived from the summary.
   */
  lemma ResearchedWhenSummary(t: Templates, w: Compose.Wording, s: Services, query: string, wikiSummary: string)
    requires Classify(query) == Definition || Classify(query) == Other
    requires Overview(ExtractTopic(query), s) == Some(wikiSummary)
    ensures var topic := ExtractTopic(query);
      var r := Answer(t, w, s, query);
      var keywords := Keywords.TopKeywords(wikiSummary, topic);
      && StartsWith(r.response, Compose.Header(w, topic))
      && Contains(r.response, wikiSummary)
      && r.calls == [SummaryLookup(SummaryUrl(topic, s.encode)), PaperSearch(SearchUrl(s, topic, wikiSummary))]
      && (forall i :: 1 <= i < |keywords| && i < 3 ==>
            Contains(SearchUrl(s, topic, wikiSummary), Search.FieldClause(keywords[i], s.encode)))
  {
    var topic := ExtractTopic(query);
    var r := Answer(t, w, s, query);
    assert r == DefinitionAnswer(w, s, topic) by {
      DefinitionRoutes(t, w, s, query);
    }
    assert r.response == Researched(w, s, topic, wikiSummary);
    ResearchOpensWithSummary(w, s, topic, wikiSummary);
    SearchUrlHoldsKeywords(s, topic, wikiSummary);
  }

  /** The research answer opens with the topic's heading and holds the summary as given. */
  lemma ResearchOpensWithSummary(w: Compose.Wording, s: Services, topic: string, wikiSummary: string)
    ensures StartsWith(Researched(w, s, topic, wikiSummary), Compose.Header(w, topic))
    ensures Contains(Researched(w, s, topic, wikiSummary), wikiSummary)
  {
    var keywords := Keywords.TopKeywords(wikiSummary, topic);
    var papers := Search.SearchResult(keywords, s.encode, s.paperFetch, s.parseDate, s.minDate);
    Compose.OpensWithTopicAndSummary(w, topic, wikiSummary, Relevance.Ranked(topic, papers), s.formatDate, s.formatPercent);
  }

  /** The search URL holds the clause of each derived keyword after the topic. */
  lemma SearchUrlHoldsKeywords(s: Services, topic: string, wikiSummary: string)
    ensures var keywords := Keywords.TopKeywords(wikiSummary, topic);
      forall i :: 1 <= i < |keywords| && i < 3 ==>
        Contains(SearchUrl(s, topic, wikiSummary), Search.FieldClause(keywords[i], s.encode))
  {
    var keywords := Keywords.TopKeywords(wikiSummary, topic);
    Keywords.TopKeywordsShape(wikiSummary, topic);
    Search.DerivedKeywordsSearched(wikiSummary, topic, s.encode);
    forall i | 1 <= i < |keywords| && i < 3
      ensures Contains(SearchUrl(s, topic, wikiSummary), Search.FieldClause(keywords[i], s.encode))
    {
      QueryInUrl(Search.SearchQuery(keywords, s.encode), Search.FieldClause(keywords[i], s.encode));
    }
  }

  /** The how-to guide opens with its title naming the topic. */
  lemma HowToNamesTopic(t: Templates, topic: string)
    ensures StartsWith(HowToAnswer(t, topic), "How to " + topic)
  {
    PrefixAppended("How to " + topic, ":\n\nHere's a step-by-step guide for " + topic + t.howToGuide);
  }

  /** The historical overview opens with its title naming the topic. */
  lemma HistoryNamesTopic(t: Templates, topic: string)
    ensures StartsWith(HistoryAnswer(t, topic), "Historical Context of " + topic)
  {
    PrefixAppended("Historical Context of " + topic,
      ":\n\nLet me provide you with the historical background of " + topic
      + t.historyOverview + topic + t.historySignificance + topic + t.historyClosing);
  }

  /** The template routes answer with their template, filled in with the extracted topic. */
  lemma TemplateRoutes(t: Templates, w: Compose.Wording, s: Services, query: string)
    ensures Classify(query) == HowTo ==> Answer(t, w, s, query) == Reply(HowToAnswer(t, ExtractTopic(query)), [])
    ensures Classify(query) == News ==> Answer(t, w, s, query) == Reply(t.news, [])
    ensures Classify(query) == History ==> Answer(t, w, s, query) == Reply(HistoryAnswer(t, ExtractTopic(query)), [])
  {
  }
}

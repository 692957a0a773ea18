/**
 * The arXiv query of `searchArxivWithKeywords`: two phrase clauses for a primary topic with a
 * space in it, one `all:` clause per long keyword among the first three, joined by " OR ". The
 * request itself is a given function from the request URL to the response text, `None` when the
 * response is not ok or the request fails.
 */
module Search {
  import opened Seqs
  import opened Text
  import opened Arxiv
  import Keywords

  const Separator: string := " OR "
  const QueryUrlPrefix: string := "http://export.arxiv.org/api/query?search_query="
  const QueryUrlSuffix: string := "&start=0&max_results=20&sortBy=submittedDate&sortOrder=descending"

  /** `ti:"…"`, the title phrase clause. */
  function TitleClause(topic: string, encode: string -> string): string
  {
    "ti:\"" + encode(topic) + "\""
  }

  /** `abs:"…"`, the abstract phrase clause. */
  function AbstractClause(topic: string, encode: string -> string): string
  {
    "abs:\"" + encode(topic) + "\""
  }

  /** `all:…`, the clause for one keyword. */
  function FieldClause(keyword: string, encode: string -> string): string
  {
    "all:" + encode(keyword)
  }

  /** The keywords that get a clause of their own. */
  predicate LongKeyword(k: string)
  {
    |k| > 4
  }

  /** The phrase clauses, present when the primary topic has a space in it. */
  function PhraseClauses(primaryTopic: string, encode: string -> string): seq<string>
  {
    if ' ' in primaryTopic then [TitleClause(primaryTopic, encode), AbstractClause(primaryTopic, encode)] else []
  }

  /** One field clause per long keyword, in keyword order. */
  function FieldClauses(keywords: seq<string>, encode: string -> string): seq<string>
  {
    if keywords == [] then []
    else
      var k := keywords[|keywords| - 1];
      FieldClauses(keywords[..|keywords| - 1], encode) + (if LongKeyword(k) then [FieldClause(k, encode)] else [])
  }

  /** `searchTerms` once both stages have pushed their clauses. */
  function SearchTerms(keywords: seq<string>, encode: string -> string): seq<string>
    requires keywords != []
  {
    PhraseClauses(keywords[0], encode) + FieldClauses(Take(keywords, 3), encode)
  }

  /** `parts.join(sep)`. */
  function Join(parts: seq<string>, sep: string): string
  {
    if parts == [] then []
    else if |parts| == 1 then parts[0]
    else parts[0] + sep + Join(parts[1..], sep)
  }

  /** The `search_query` parameter. */
  function SearchQuery(keywords: seq<string>, encode: string -> string): string
    requires keywords != []
  {
    Join(SearchTerms(keywords, encode), Separator)
  }

  /** The request URL; the query goes into it as it is. */
  function QueryUrl(query: string): string
  {
    QueryUrlPrefix + query + QueryUrlSuffix
  }

  /**
   * The query construction of `searchArxivWithKeywords`: the phrase clauses, then a loop over the
   * first three keywords pushing a clause for each long one, then the join.
   */
  method BuildSearchQuery(keywords: seq<string>, encode: string -> string) returns (searchQuery: string)
    requires keywords != []
    ensures searchQuery == SearchQuery(keywords, encode)
  {
    var primaryTopic := keywords[0];
    var searchTerms: seq<string> := [];
    if ' ' in primaryTopic {
      searchTerms := searchTerms + [TitleClause(primaryTopic, encode)];
      searchTerms := searchTerms + [AbstractClause(primaryTopic, encode)];
    }
    var first := Take(keywords, 3);
    var i := 0;
    while i < |first|
      invariant 0 <= i <= |first|
      invariant searchTerms == PhraseClauses(primaryTopic, encode) + FieldClauses(first[..i], encode)
    {
      var keyword := first[i];
      assert first[..i + 1][..i] == first[..i];
      if LongKeyword(keyword) {
        searchTerms := searchTerms + [FieldClause(keyword, encode)];
      }
      i := i + 1;
    }
    assert first[..|first|] == first;
    searchQuery := Join(searchTerms, Separator);
  }

  /** Every field clause comes from a long keyword of the list, and every long keyword has one. */
  lemma {:induction false} FieldClausesExact(keywords: seq<string>, encode: string -> string)
    ensures |FieldClauses(keywords, encode)| == |Filter(keywords, LongKeyword)|
    ensures forall t :: t in FieldClauses(keywords, encode) ==>
      exists k :: k in keywords && LongKeyword(k) && t == FieldClause(k, encode)
    ensures forall k :: k in keywords && LongKeyword(k) ==> FieldClause(k, encode) in FieldClauses(keywords, encode)
  {
    if keywords != [] {
      var init := keywords[..|keywords| - 1];
      var k := keywords[|keywords| - 1];
      FieldClausesExact(init, encode);
      assert keywords == init + [k];
      FilterSnoc(init, k, LongKeyword);
    }
  }

  /** Every field clause starts with `all:`. */
  lemma {:induction false} FieldClausesAreAll(keywords: seq<string>, encode: string -> string)
    ensures forall t :: t in FieldClauses(keywords, encode) ==> StartsWith(t, "all:")
  {
    if keywords != [] {
      FieldClausesAreAll(keywords[..|keywords| - 1], encode);
      var k := keywords[|keywords| - 1];
      assert FieldClause(k, encode)[..4] == "all:";
    }
  }

  /**
   * The title and abstract phrase clauses are among the search terms exactly when the primary
   * topic has a space in it.
   */
  lemma PhraseClausesIff(keywords: seq<string>, encode: string -> string)
    requires keywords != []
    ensures TitleClause(keywords[0], encode) in SearchTerms(keywords, encode) <==> ' ' in keywords[0]
    ensures AbstractClause(keywords[0], encode) in SearchTerms(keywords, encode) <==> ' ' in keywords[0]
  {
    var fields := FieldClauses(Take(keywords, 3), encode);
    FieldClausesAreAll(Take(keywords, 3), encode);
    if ' ' !in keywords[0] {
      assert SearchTerms(keywords, encode) == fields;
      forall t | t in fields ensures t[0] == 'a' {
        assert StartsWith(t, "all:");
      }
      assert TitleClause(keywords[0], encode)[0] == 't';
      assert AbstractClause(keywords[0], encode)[0] == 'a' && AbstractClause(keywords[0], encode)[1] == 'b';
      forall t | t in fields ensures t[1] == 'l' {
        assert StartsWith(t, "all:");
      }
    }
  }

  /** Every part of a join is a substring of it. */
  lemma {:induction false} JoinContains(parts: seq<string>, sep: string)
    ensures forall p :: p in parts ==> Contains(Join(parts, sep), p)
  {
    if |parts| == 1 {
      SliceContained(parts[0], 0, |parts[0]|);
      assert parts[0][0..|parts[0]|] == parts[0];
    } else if |parts| > 1 {
      JoinContains(parts[1..], sep);
      var rest := Join(parts[1..], sep);
      forall p | p in parts ensures Contains(Join(parts, sep), p) {
        if p == parts[0] {
          assert OccursAt(Join(parts, sep), p, 0);
        } else {
          assert p in parts[1..];
          ContainsInContext(parts[0] + sep, rest, [], p);
          assert parts[0] + sep + rest + [] == Join(parts, sep);
        }
      }
    }
  }

  /** Each long keyword among the first three puts its `all:` clause into the query. */
  lemma LongKeywordsSearched(keywords: seq<string>, encode: string -> string)
    requires keywords != []
    ensures forall i :: 0 <= i < |keywords| && i < 3 && LongKeyword(keywords[i]) ==>
      Contains(SearchQuery(keywords, encode), FieldClause(keywords[i], encode))
  {
    var first := Take(keywords, 3);
    FieldClausesExact(first, encode);
    JoinContains(SearchTerms(keywords, encode), Separator);
    forall i | 0 <= i < |keywords| && i < 3 && LongKeyword(keywords[i])
      ensures FieldClause(keywords[i], encode) in SearchTerms(keywords, encode)
    {
      assert first[i] == keywords[i];
    }
  }

  /**
   * In the pipeline, the keywords derived from the summary that fall among the first three
   * (the topic takes the first place) each put an `all:` clause into the query; the third
   * derived keyword, fourth in the list, never does.
   */
  lemma DerivedKeywordsSearched(summary: string, topic: string, encode: string -> string)
    ensures var keywords := Keywords.TopKeywords(summary, topic);
      forall i :: 1 <= i < |keywords| && i < 3 ==>
        Contains(SearchQuery(keywords, encode), FieldClause(keywords[i], encode))
  {
    var keywords := Keywords.TopKeywords(summary, topic);
    Keywords.TopKeywordsShape(summary, topic);
    LongKeywordsSearched(keywords, encode);
  }

  /**
   * The result of `searchArxivWithKeywords`. An empty keyword list makes the first step throw,
   * and the handler answers with no papers; so does a failed request.
   */
  function SearchResult(keywords: seq<string>, encode: string -> string, fetch: string -> Option<string>,
                        parseDate: string -> Option<int>, minDate: int): seq<Paper>
  {
    if keywords == [] then []
    else
      match fetch(QueryUrl(SearchQuery(keywords, encode)))
      case None => []
      case Some(xmlText) => Recent(xmlText, parseDate, minDate)
  }

  /** `searchArxivWithKeywords`: builds the query, requests it and parses the response. */
  method SearchArxivWithKeywords(keywords: seq<string>, encode: string -> string, fetch: string -> Option<string>,
                                 parseDate: string -> Option<int>, minDate: int) returns (papers: seq<Paper>)
    ensures papers == SearchResult(keywords, encode, fetch, parseDate, minDate)
    ensures |papers| <= 5
    ensures forall p :: p in papers ==> WellFormed(p, minDate)
  {
    if keywords == [] {
      return [];
    }
    var searchQuery := BuildSearchQuery(keywords, encode);
    var response := fetch(QueryUrl(searchQuery));
    if response.None? {
      return [];
    }
    papers := ParseArxivXml(response.value, parseDate, minDate);
    RecentShape(response.value, parseDate, minDate);
  }
}

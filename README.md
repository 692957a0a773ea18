# Research agent pipeline in Dafny

This project models the research agent of a small question-answering chat server
(`agents/researchAgent.js`). The agent takes a user query and routes it on its wording:

- Definition-style questions, and anything no other rule catches, get a researched answer:
  - a topic is extracted from the query;
  - its Wikipedia summary is looked up;
  - keywords are derived from that summary;
  - an arXiv query is built from the keywords;
  - the arXiv Atom feed is parsed into at most five recent papers;
  - the papers are scored for relevance, filtered and ranked;
  - everything is composed into one answer.
- How-to, news and history questions get fixed template answers.

Modules follow the stages of that pipeline:

| module | file | stage |
|---|---|---|
| `Text` | text.dfy | ECMAScript whitespace (`\s`, `trim`), `\w`, lowering, `startsWith`/`includes`/`endsWith`, splitting on whitespace, decimal rendering |
| `Seqs` | seqs.dfy | `Option`, `filter`, `slice(0, n)`, distinctness |
| `Sorting` | sorting.dfy | the stable descending sort that `Array.prototype.sort` performs with a difference comparator |
| `Topic` | topic.dfy | `extractTopic` |
| `Keywords` | keywords.dfy | `extractTopKeywords`, including the key order of `Object.keys` |
| `Search` | search.dfy | the arXiv query built in `searchArxivWithKeywords`, and that function's result |
| `Arxiv` | arxiv.dfy | `parseArxivXML`: the lazy global-regex scan over `<entry>` blocks and the per-entry tests |
| `Relevance` | relevance.dfy | `calculateRelevanceScore` and `filterAndSummarizeResearch` |
| `Compose` | compose.dfy | `combineIntoFinalResponse` |
| `Agent` | agent.dfy | `process`, `handleDefinitionQuery`, the topic substitution of the template handlers |

The agent's stages are modelled as follows:

- Stages that loop and push into a list or object in the source are methods with loops:
  - `ParseArxivXml`, `FilterAndSummarizeResearch`, `CountWords`, `BuildSearchQuery` and `CombineIntoFinalResponse`.
  - Each method is proved equal to a specification function.
  - The properties are then proved as lemmas about those functions.
- The pure parts of the source are functions: the dispatcher, `extractTopic` and the relevance score.
- The world outside is given in a `Services` value:
  - the two HTTP lookups, as functions from URL to an optional body;
  - `encodeURIComponent`;
  - date parsing;
  - the start of the six-year window;
  - the display of dates and percentages.
- `Agent.Process` returns its answer together with the list of lookups it made. This lets the
  model state which routes reach the network.

Lowering is ASCII-only (`Text.Lower`). For routing and topic extraction this is exact:
- The case-insensitive prefix regex of `extractTopic` never matches a non-ASCII character against an ASCII one.
- Every prefix and phrase that `process` tests is ASCII and contains no `k`.
- `toLowerCase` turns a non-ASCII capital into ASCII only for U+212A (to `k`) and U+0130 (to `i` followed by U+0307, which no listed word contains).

Where lowering does change results, the gap is listed below.

## Model

| member | source | states |
|---|---|---|
| Agent.Process | agents/researchAgent.js:3-26 | the answer and the lookups are those of the first matching rule on the lower-cased query (`Answer`) |
| Agent.Respond | agents/researchAgent.js:3-26 | `process` with the agent's own wording gives the same reply as `Answer` |
| Agent.FirstMatchWins | agents/researchAgent.js:5-18 | a query starting with a definition phrase gets the definition answer whatever else it mentions; otherwise a how-to prefix gets the how-to guide |
| Agent.TemplateRoutes | agents/researchAgent.js:17-22 | how-to, news and history queries get their template answers with the extracted topic and make no lookup |
| Agent.DefinitionRoutes | agents/researchAgent.js:5-25 | the definition route and the final `else` both answer with the research for the extracted topic |
| Agent.LookupsOnlyForDefinitions | agents/researchAgent.js:3-44 | a query causes lookups iff it takes the definition route or the default; it causes at most two, the summary lookup first and only paper searches after it |
| Agent.RouteCalls | agents/researchAgent.js:3-44 | for every route and topic, the same facts about lookups as `LookupsOnlyForDefinitions` |
| Agent.SummaryRoutedButKept | agents/researchAgent.js:401 | a query starting with `summary` takes the definition route, but topic extraction leaves it whole |
| Agent.WhatAreNotListed | agents/researchAgent.js:5-17 | a `what are` query matches neither the definition phrases nor the how-to prefixes |
| Agent.WhatAreStripped | agents/researchAgent.js:401 | a `what are` query loses that prefix and the whitespace after it |
| Agent.WhatAreByDefault | agents/researchAgent.js:19-25 | a `what are` query that mentions neither news nor history reaches the research through the final `else` |
| Agent.HandleDefinitionQuery | agents/researchAgent.js:28-44 | the answer and lookups equal `DefinitionAnswer`: summary lookup, then either the "no information" answer or the research |
| Agent.Research | agents/researchAgent.js:36-43 | the stages after the summary, run one by one, give `Researched` and the search URL `SearchUrl` |
| Agent.DefinitionCalls | agents/researchAgent.js:28-44 | the definition path looks up the topic's summary first and makes at most one paper search after it |
| Agent.NoSummaryNoResearch | agents/researchAgent.js:31-34 | without a summary the answer is exactly `No information found for "topic".`, and the summary lookup is the only lookup |
| Agent.ResearchedWhenSummary | agents/researchAgent.js:31-43 | with a summary the answer opens with the topic heading and holds the summary; the lookups are the summary and one paper search; that search's URL holds an `all:` clause for each derived keyword among the first three |
| Agent.ResearchOpensWithSummary | agents/researchAgent.js:219-221 | the research answer opens with `Research Analysis: topic` and contains the summary as given |
| Agent.SearchUrlHoldsKeywords | agents/researchAgent.js:140-155 | the request URL contains the `all:` clause of every derived keyword among the first three |
| Agent.StartsWithAnyIff | agents/researchAgent.js:5-17 | the chained `startsWith` tests hold iff some listed prefix starts the query |
| Agent.ContainsAnyIff | agents/researchAgent.js:19-21 | the chained `includes` tests hold iff some listed phrase occurs in the query |
| Agent.DifferentPrefixes | agents/researchAgent.js:6-17 | two prefixes that differ at a position cannot both start the same query |
| Topic.ExtractTopic | agents/researchAgent.js:399-405 | the topic is non-empty and trimmed; it is the placeholder `this topic` or occurs in the query; it is the placeholder whenever only whitespace is left after stripping |
| Topic.CleanTopicUnchanged | agents/researchAgent.js:399-405 | a trimmed, non-empty query with no listed prefix and no final `?` is its own topic |
| Topic.CleanedIsSlice | agents/researchAgent.js:400-403 | what is left after stripping and trimming is a substring of the query |
| Topic.FirstPrefix | agents/researchAgent.js:401 | the chosen prefix starts the query, ignoring case |
| Topic.FirstPrefixIsFirst | agents/researchAgent.js:401 | the alternation picks the first listed prefix that matches, and none exactly when no listed prefix matches |
| Topic.StripPrefix | agents/researchAgent.js:401 | with no listed phrase at the start (case-insensitively) the query is kept whole; otherwise exactly the first matching phrase and the white-space run after it are removed, so what is left is a suffix of the query that starts with no white space |
| Topic.StripQuestion | agents/researchAgent.js:402 | a text ending in `?` loses exactly that last character; any other text is returned unchanged |
| Keywords.ExtractTopKeywords | agents/researchAgent.js:103-128 | the keywords are `TopKeywords` of the summary and topic |
| Keywords.CountWords | agents/researchAgent.js:115-118 | the object holds one key per word (apart from `__proto__`), each with its number of occurrences (see `constructor` under Left out), and its keys were inserted in first-appearance order |
| Keywords.TopKeywordsShape | agents/researchAgent.js:103-128 | 1 to 4 keywords; the first is the topic as given; the rest are distinct, lower-case, qualifying words of the summary, as many as there are (up to 3) |
| Keywords.TopKeywordsFirstAppearance | agents/researchAgent.js:113-124 | when no word is an array index or `__proto__`, the keywords are the topic and the first three distinct qualifying words in order of appearance |
| Keywords.NumericWordComesFirst | agents/researchAgent.js:120 | if a qualifying word is an array index such as `12345`, the second keyword is an array index |
| Keywords.ArrayIndexKeyFirst | agents/researchAgent.js:120-124 | with an array-index key among the words, the first key after the topic is an array index |
| Keywords.ArrayIndexKeysFirst | agents/researchAgent.js:120 | `Object.keys` lists an array-index key first when there is one |
| Keywords.ProtoNeverAKeyword | agents/researchAgent.js:117-124 | `__proto__` is never among the derived keywords, because assigning to it creates no own key |
| Keywords.DistinctWordsShape | agents/researchAgent.js:108-113 | the deduplicated words are distinct, longer than 4 characters, not stop words, and made of lower-case word characters only |
| Keywords.KeyWordsShape | agents/researchAgent.js:113-120 | the object's keys are the deduplicated words without `__proto__` |
| Keywords.DedupFirstOccurrenceOrder | agents/researchAgent.js:113 | deduplication keeps each word's first occurrence, in order of first occurrence |
| Keywords.Dedup | agents/researchAgent.js:113 | the deduplicated list is distinct and has the same words as its input |
| Keywords.PunctuationToSpace | agents/researchAgent.js:110 | the result has the input's length and holds only word characters and whitespace; the input's word characters and whitespace keep their places, and every other character becomes a space |
| Keywords.ObjectKeysPermutes | agents/researchAgent.js:120 | `Object.keys` lists each own key once |
| Keywords.ObjectKeysInsertionOrder | agents/researchAgent.js:120 | without array-index keys, `Object.keys` gives insertion order |
| Keywords.DistinctCountsAreOne | agents/researchAgent.js:113-118 | counting after deduplication gives every word the count 1 |
| Keywords.SortByUnitCounts | agents/researchAgent.js:121 | sorting keys that all have count 1 leaves their order unchanged |
| Keywords.KeywordsOfUnitCounts | agents/researchAgent.js:115-124 | the object the loop builds gives exactly `TopKeywords` |
| Search.BuildSearchQuery | agents/researchAgent.js:132-146 | the query is `SearchQuery`: the phrase clauses, then the `all:` clauses, joined by ` OR ` |
| Search.PhraseClausesIff | agents/researchAgent.js:135-138 | the `ti:` and `abs:` clauses are searched iff the first keyword contains a space |
| Search.FieldClausesExact | agents/researchAgent.js:140-144 | one `all:` clause per keyword longer than 4 characters, and no others |
| Search.FieldClausesAreAll | agents/researchAgent.js:142 | every keyword clause starts with `all:` |
| Search.LongKeywordsSearched | agents/researchAgent.js:140-146 | every keyword among the first three that is longer than 4 characters has its clause in the query |
| Search.DerivedKeywordsSearched | agents/researchAgent.js:140-146 | every derived keyword among the first three has its clause in the query |
| Search.JoinContains | agents/researchAgent.js:146 | every joined part occurs in the joined string |
| Search.SearchArxivWithKeywords | agents/researchAgent.js:130-174 | the papers are `SearchResult`: none on a failed request or an empty keyword list, otherwise the parsed feed; at most 5, each well formed |
| Arxiv.ParseArxivXml | agents/researchAgent.js:176-214 | the papers are `Recent`: the first five kept entries, in document order |
| Arxiv.ScanEntries | agents/researchAgent.js:179-210 | the `exec` loop yields `Scan`, which stops at the fifth paper or the last match |
| Arxiv.ScanTakesFive | agents/researchAgent.js:182 | stopping at five papers gives the first five papers of all entries |
| Arxiv.RecentShape | agents/researchAgent.js:176-214 | at most 5 papers, each with a trimmed, collapsed title of length at least 5, a non-empty summary of at most 303 characters, and a date at or after `minDate` |
| Arxiv.KeptWellFormed | agents/researchAgent.js:203-209 | every kept paper is well formed |
| Arxiv.ParseEntry | agents/researchAgent.js:183-209 | an entry yields a paper only if the paper is well formed |
| Arxiv.NextEntryIsFirstMatch | agents/researchAgent.js:179-182 | the next match is the first `<entry>` from the current position and the first `</entry>` after it; without a match, no `<entry>` is followed by `</entry>` |
| Arxiv.EntriesContained | agents/researchAgent.js:179-183 | every entry body occurs between `<entry>` and `</entry>` in the feed |
| Arxiv.EntriesHaveNoClose | agents/researchAgent.js:179 | the lazy match never lets an entry body contain `</entry>` |
| Arxiv.IndexOfIsFirst | agents/researchAgent.js:179 | the search finds the first occurrence at or after the start, or none exists |
| Arxiv.FirstTag | agents/researchAgent.js:185-198 | the tag content occurs in the entry and comes from a matching position with no matching position before it; no position matches when there is none |
| Arxiv.TagAt | agents/researchAgent.js:198 | the `(.*?)` date match never spans a line terminator |
| Arxiv.Normalize | agents/researchAgent.js:186-196 | the normalised title or summary is trimmed and has no whitespace runs |
| Arxiv.NormalizeKeepsWords | agents/researchAgent.js:186-196 | normalising keeps the words of the text, in order, and every character other than whitespace |
| Arxiv.NormalizeIsUnwords | agents/researchAgent.js:186-196 | the normalised text is exactly the words of the original joined by single spaces |
| Arxiv.CollapsedIsUnwords | agents/researchAgent.js:188 | a trimmed text without whitespace runs is its words joined by single spaces |
| Arxiv.NormalizeIdempotent | agents/researchAgent.js:186-188 | normalising twice equals normalising once |
| Arxiv.NormalizeFixed | agents/researchAgent.js:186-188 | normalising leaves trimmed, collapsed text unchanged |
| Arxiv.CollapseSpace | agents/researchAgent.js:188 | replacing whitespace runs leaves no two spaces in a row and empties only the empty string |
| Arxiv.CollapseKeepsTokens | agents/researchAgent.js:188 | collapsing whitespace runs keeps the words: only the whitespace between them changes |
| Arxiv.CollapseSpaceKeepsWords | agents/researchAgent.js:188 | `replace(/\s+/g, ' ')` keeps the words and every character other than whitespace |
| Arxiv.NewlinesToSpaces | agents/researchAgent.js:186 | the result has the input's length and no newline; newlines become spaces and every other character keeps its place |
| Arxiv.NewlinesKeepTokens | agents/researchAgent.js:186 | replacing newlines keeps the words |
| Arxiv.Truncate | agents/researchAgent.js:206 | summaries of at most 300 characters are kept; longer ones keep their first 300 characters and end in `...`, 303 characters in all |
| Relevance.RelevanceScore | agents/researchAgent.js:293-304 | the score lies in [0, 1] and is 0 when the topic has no word longer than 3 characters |
| Relevance.ExactPhraseFullScore | agents/researchAgent.js:297-303 | when the lower-cased topic occurs and the topic has long words, the score is 1, hence at least 0.5 |
| Relevance.Ratio | agents/researchAgent.js:301 | the word ratio lies in [0, 1], is 1 when every word matches, and exceeds 0.05 iff more than one word in twenty matches |
| Relevance.TopicWordsShape | agents/researchAgent.js:294 | every topic word is longer than 3 characters, has no whitespace and occurs in the lower-cased topic |
| Relevance.TopicWordsLowered | agents/researchAgent.js:295 | lowering a topic word again changes nothing |
| Relevance.MatchingWordsExact | agents/researchAgent.js:295 | a word matches iff it is a topic word that occurs in the paper text |
| Relevance.RelevantContentIff | agents/researchAgent.js:266-268 | a paper has relevant content iff at least one topic word matches |
| Relevance.AcceptedIff | agents/researchAgent.js:277 | a paper is accepted iff the exact phrase occurs or more than one topic word in twenty matches |
| Relevance.HighScoreClauseRedundant | agents/researchAgent.js:277 | the `score > 0.3` clause accepts nothing the other two reject |
| Relevance.FilterAndSummarizeResearch | agents/researchAgent.js:252-292 | the result is `Ranked`: the accepted papers with their scores, stably sorted by descending score, the first five |
| Relevance.RelevantExact | agents/researchAgent.js:263-286 | a scored paper is collected iff it is an input paper, accepted, carrying its own score |
| Relevance.ExactPhraseAccepted | agents/researchAgent.js:272-281 | any paper containing the exact topic phrase is collected |
| Relevance.RankedShape | agents/researchAgent.js:288-291 | at most 5 papers, sorted by descending score, each an accepted input paper with its score; all of them when at most 5 were accepted |
| Relevance.RankedStable | agents/researchAgent.js:288 | papers with equal scores keep their input order |
| Relevance.RankedKeepsBest | agents/researchAgent.js:288-291 | no paper left out scores higher than a paper reported |
| Compose.CombineIntoFinalResponse | agents/researchAgent.js:216-250 | the response is `FinalResponse`, built by appending in the source's order |
| Compose.OpensWithTopicAndSummary | agents/researchAgent.js:219-221 | the response starts with `Research Analysis: topic`, then the background section, and contains the summary as given |
| Compose.FindingsReported | agents/researchAgent.js:223-240 | with papers, the response has the findings heading, every numbered paper entry, the synthesis with the paper count, and ends with the key insights |
| Compose.EntriesInOrder | agents/researchAgent.js:226-230 | every paper entry is listed, and each is directly followed by the next |
| Compose.SynthesisCount | agents/researchAgent.js:233 | the synthesis states the paper count in decimal, and that decimal reads back as the count |
| Compose.StatusWhenNoPapers | agents/researchAgent.js:241-246 | without papers the response is exactly the opening followed by the research-status paragraph |
| Sorting.SortDesc | agents/researchAgent.js:288 | sorting permutes its input |
| Sorting.SortDescSorted | agents/researchAgent.js:288 | the sorted list is in descending key order |
| Sorting.SortDescStable | agents/researchAgent.js:288 | elements with equal keys keep their order |
| Sorting.SortDescConstantKey | agents/researchAgent.js:121 | a list whose keys are all equal is left as it is |
| Sorting.TakeOfSortedKeepsLargest | agents/researchAgent.js:288-291 | the first n of a descending list are sorted and at least as large as every later element |
| Text.Trim | agents/researchAgent.js:403 | `trim` leaves a trimmed slice of its input, which is empty iff the input is all whitespace, and leaves trimmed text unchanged |
| Text.Tokens | agents/researchAgent.js:111 | splitting on whitespace runs gives non-empty, space-free substrings of the input |
| Text.TokensContent | agents/researchAgent.js:111 | the tokens, written one after the other, are exactly the input's characters other than whitespace, in order |
| Text.TokensCons | agents/researchAgent.js:111 | a character other than whitespace in front of a text is a token of its own when the text is empty or starts with whitespace, and otherwise joins the text's first token |
| Text.TokensFirstWord | agents/researchAgent.js:111 | the first token is the leading run of characters other than whitespace, and the rest are the tokens after the whitespace that ends it |
| Text.TokensSnocSpace | agents/researchAgent.js:111 | whitespace at the end of a text adds no token |
| Text.TokensTrim | agents/researchAgent.js:403 | `trim()` changes no token |
| Text.SameWordsTokens | agents/researchAgent.js:111 | texts that differ only in which whitespace characters they use have the same tokens |
| Text.NatToStringRoundTrip | agents/researchAgent.js:233 | the decimal rendering of a count reads back as that count |
| Text.LowerAt | agents/researchAgent.js:109 | lowering maps each character on its own and keeps the length |
| Text.LowerIsLowered | agents/researchAgent.js:4 | lowered text has no upper-case ASCII letter |

## Left out

- The network: `getWikipediaOverview` (agents/researchAgent.js:87-101) and the `fetch` of the arXiv search are given functions from URL to an optional body. A failed request, a non-`ok` status and a thrown error all become `None`. An empty extract counts as none (line 32 tests it as falsy).
- The clock: the start of the six-year window (agents/researchAgent.js:151-152) is the parameter `minDate`. Dates are integers.
- Date parsing: `new Date(string)` (agents/researchAgent.js:199) is the given `parseDate`. A missing date is time 0. A date it cannot read is `None`, and such an entry is never kept, as an invalid `Date` compares false.
- Formatting: `toLocaleDateString`, `toDateString` and the `toFixed(0)` percentage (agents/researchAgent.js:207, 228) are the given `formatDate` and `formatPercent`. A paper keeps its date as a number until composition.
- `Relevance.RelevanceScore`: the score is an exact `real`, not an IEEE double. The ratio `m / t` is compared with 0.05 and 0.3 exactly. No input with a ratio that rounds across a threshold is modelled.
- `Search.BuildSearchQuery`: `encodeURIComponent` is the given function `encode`. The model never throws the `URIError` the source raises on a lone surrogate (agents/researchAgent.js:136, 142). The same holds for `Agent.SummaryUrl` (agents/researchAgent.js:90).
- `Search.BuildSearchQuery`: the keyword length test `keyword.length > 4` (agents/researchAgent.js:141) counts Unicode characters. The source counts UTF-16 units, so a keyword with characters outside the Basic Multilingual Plane can pass in the source and fail in the model.
- `Arxiv.ParseArxivXml`: the title test `title.length < 5` (agents/researchAgent.js:189) counts Unicode characters, not UTF-16 units. For example, a title of three emoji is kept by the source (length 6) and skipped by the model.
- `Arxiv.Truncate`: the 300-character cut (agents/researchAgent.js:206) counts Unicode characters. The source's `substring(0, 300)` counts UTF-16 units and can split a surrogate pair; the model keeps 300 whole characters.
- `Relevance.RelevanceScore`: the word-length filter `word.length > 3` (agents/researchAgent.js:260, 294) counts Unicode characters, not UTF-16 units.
- `Relevance.RelevanceScore`: `toLowerCase` (agents/researchAgent.js:264, 272, 294, 299) is modelled as ASCII-only lowering (A–Z). Topics and papers with non-ASCII capitals score differently: "Энтропия" does not match "энтропия", and "Élan vital" scores 0.5 where the source gives 1.
- `Relevance.FilterAndSummarizeResearch`: acceptance rests on the same ASCII-only lowering (agents/researchAgent.js:260, 264, 272). A paper that contains a non-ASCII topic only in another letter case is rejected by the model but accepted by the source.
- `Keywords.ExtractTopKeywords`: `toLowerCase` (agents/researchAgent.js:109) is ASCII-only lowering here. Other non-ASCII capitals make no difference, because every non-ASCII character becomes a space at line 110 either way. The exceptions are U+0130 and U+212A, the only capitals whose lower case holds an ASCII word character. Tokens containing them differ: for example, "abcdeİfghij" yields the keyword "abcdei" in the source and "abcde" in the model.
- `Keywords.CountWords`: the source counts in a plain object (agents/researchAgent.js:115-118), and the word `constructor` is different there. Its first `wordFreq[word] || 0` finds the inherited `Object` function, so `+ 1` stores the string "function Object() { [native code] }1" instead of the count 1. The model stores 1. The keywords are the same either way. The comparator at line 121 then subtracts with a string and gets NaN, which `sort` treats as a tie, just as it treats the counts of every other key: the words were deduplicated at line 113, so every other count is 1 and every comparison is a tie. `constructor` therefore keeps its insertion place in the key order, as in the model. Of the other properties that a plain object inherits, only `__proto__` is a lower-case word that passes the filters, and it is modelled.
- Template prose: the fixed text of the how-to, news and history answers (agents/researchAgent.js:48-77, 306-330, 332-365) is the given `Templates`. Only the places where the topic is substituted are modelled. The wording of the research answer is the constant `Compose.SourceWording`.
- Logging: every `console.log` is left out.
- Dead code: `handleExplanationQuery`, `handleSummaryQuery` and `handleGeneralQuery` (agents/researchAgent.js:80-86, 368-397) are never called and are not modelled.
- agents/router.js, server.js and the client are not part of this model. The router only labels results. The server is transport and a shared conversation map. The client is user-interface state.
- Keyword counting: the code deduplicates the words (agents/researchAgent.js:113) before counting them (115-118), so every count is 1 and the sort at line 121 leaves the key order unchanged; the keywords are the first distinct qualifying words in order of appearance, not the most frequent ones. The model follows the code and proves this (`Keywords.DistinctCountsAreOne`, `Keywords.TopKeywordsFirstAppearance`).

/**
 * Parsing the arXiv Atom feed: the `<entry>` blocks in document order; for each, the title, the
 * summary and the publication date; white space normalised; entries with a short title, an empty
 * summary or an old (or unreadable) date skipped; long summaries cut; at most five papers kept.
 */
module Arxiv {
  import opened Seqs
  import opened Text

  /** A kept paper. `published` is the date as a time value; its display form is made when the answer is composed. */
  datatype Paper = Paper(title: string, summary: string, published: int)

  const EntryOpen: string := "<entry>"
  const EntryClose: string := "</entry>"

  /** The characters of `p` from its `k`-th on appear in `s` from position `i + k` on. */
  predicate MatchesFrom(s: string, p: string, i: nat, k: nat)
    decreases |s| - (i + k)
  {
    if k >= |p| then i + k <= |s|
    else i + k < |s| && s[i + k] == p[k] && MatchesFrom(s, p, i, k + 1)
  }

  lemma {:induction false} MatchesFromIff(s: string, p: string, i: nat, k: nat)
    requires k <= |p|
    ensures MatchesFrom(s, p, i, k) <==> i + |p| <= |s| && forall j :: k <= j < |p| ==> s[i + j] == p[j]
    decreases |s| - (i + k)
  {
    if k < |p| && i + k < |s| {
      MatchesFromIff(s, p, i, k + 1);
    }
  }

  /** Comparing character by character is `OccursAt`. */
  lemma MatchesIff(s: string, p: string, i: nat)
    ensures MatchesFrom(s, p, i, 0) <==> OccursAt(s, p, i)
  {
    MatchesFromIff(s, p, i, 0);
    if i + |p| <= |s| {
      if forall j :: 0 <= j < |p| ==> s[i + j] == p[j] {
        assert s[i..i + |p|] == p;
      }
      if s[i..i + |p|] == p {
        forall j | 0 <= j < |p| ensures s[i + j] == p[j] {
          assert s[i..i + |p|][j] == s[i + j];
        }
      }
    }
  }

  /** `s.indexOf(p, from)` when `p` occurs: the first position at or after `from` where it does. */
  function IndexOf(s: string, p: string, from: nat): (r: Option<nat>)
    ensures r.Some? ==> from <= r.value && r.value + |p| <= |s|
    decreases |s| - from
  {
    if from + |p| > |s| then None
    else if MatchesFrom(s, p, from, 0) then Some(from)
    else IndexOf(s, p, from + 1)
  }

  /** The position found is where `p` first occurs from `from` on; when none is found, `p` occurs nowhere from there. */
  lemma {:induction false} IndexOfIsFirst(s: string, p: string, from: nat)
    ensures var r := IndexOf(s, p, from);
      && (r.Some? ==> OccursAt(s, p, r.value) && forall k :: from <= k < r.value ==> !OccursAt(s, p, k))
      && (r.None? ==> forall k :: from <= k ==> !OccursAt(s, p, k))
    decreases |s| - from
  {
    MatchesIff(s, p, from);
    if from + |p| <= |s| && !MatchesFrom(s, p, from, 0) {
      IndexOfIsFirst(s, p, from + 1);
    }
  }

  /** Where one match of `<entry>([\s\S]*?)<\/entry>` starts and where its closing tag is. */
  datatype Block = Block(open: nat, close: nat)

  /**
   * One `exec` of the global entry pattern with `lastIndex` at `pos`: the first `<entry>` at or
   * after `pos` and the first `</entry>` after it. When that opening tag has no closing tag after
   * it, no later one has either, and the search fails.
   */
  function NextEntry(xml: string, pos: nat): (r: Option<Block>)
    ensures r.Some? ==>
      && pos <= r.value.open && r.value.open + |EntryOpen| <= r.value.close
      && r.value.close + |EntryClose| <= |xml|
  {
    match IndexOf(xml, EntryOpen, pos)
    case None => None
    case Some(i) =>
      match IndexOf(xml, EntryClose, i + |EntryOpen|)
      case None => None
      case Some(c) => Some(Block(i, c))
  }

  /**
   * What the match found: the first opening tag at or after `pos` and the first closing tag after
   * it; or, when the search fails, no opening tag from `pos` on has a closing tag after it.
   */
  lemma {:induction false} NextEntryIsFirstMatch(xml: string, pos: nat)
    ensures var r := NextEntry(xml, pos);
      r.Some? ==>
        && OccursAt(xml, EntryOpen, r.value.open) && OccursAt(xml, EntryClose, r.value.close)
        && (forall k :: pos <= k < r.value.open ==> !OccursAt(xml, EntryOpen, k))
        && (forall k :: r.value.open + |EntryOpen| <= k < r.value.close ==> !OccursAt(xml, EntryClose, k))
    ensures NextEntry(xml, pos).None? ==>
      forall i, k :: pos <= i && i + |EntryOpen| <= k && OccursAt(xml, EntryOpen, i) ==> !OccursAt(xml, EntryClose, k)
  {
    IndexOfIsFirst(xml, EntryOpen, pos);
    match IndexOf(xml, EntryOpen, pos)
    case None =>
    case Some(i) =>
      IndexOfIsFirst(xml, EntryClose, i + |EntryOpen|);
  }

  /** The captured bodies of all successive matches of the entry pattern from `pos`. */
  function Entries(xml: string, pos: nat): seq<string>
    decreases |xml| - pos
  {
    match NextEntry(xml, pos)
    case None => []
    case Some(b) => [xml[b.open + |EntryOpen|..b.close]] + Entries(xml, b.close + |EntryClose|)
  }

  /** Every captured body sits in the document between an opening and a closing entry tag. */
  lemma {:induction false} EntriesContained(xml: string, pos: nat)
    ensures forall e :: e in Entries(xml, pos) ==> Contains(xml, EntryOpen + e + EntryClose)
    decreases |xml| - pos
  {
    match NextEntry(xml, pos)
    case None =>
    case Some(b) =>
      NextEntryIsFirstMatch(xml, pos);
      BlockContained(xml, b);
      EntriesContained(xml, b.close + |EntryClose|);
  }

  lemma {:induction false} BlockContained(xml: string, b: Block)
    requires b.open + |EntryOpen| <= b.close && b.close + |EntryClose| <= |xml|
    requires OccursAt(xml, EntryOpen, b.open) && OccursAt(xml, EntryClose, b.close)
    ensures Contains(xml, EntryOpen + xml[b.open + |EntryOpen|..b.close] + EntryClose)
  {
    var whole := xml[b.open..b.close + |EntryClose|];
    assert whole == EntryOpen + xml[b.open + |EntryOpen|..b.close] + EntryClose;
    SliceContained(xml, b.open, b.close + |EntryClose|);
  }

  /** An entry's body never holds a closing entry tag: the lazy body stops at the first one. */
  lemma {:induction false} EntriesHaveNoClose(xml: string, pos: nat)
    ensures forall e :: e in Entries(xml, pos) ==> !Contains(e, EntryClose)
    decreases |xml| - pos
  {
    match NextEntry(xml, pos)
    case None =>
    case Some(b) =>
      EntriesHaveNoClose(xml, b.close + |EntryClose|);
      NextEntryIsFirstMatch(xml, pos);
      BodyHasNoClose(xml, b);
  }

  lemma {:induction false} BodyHasNoClose(xml: string, b: Block)
    requires b.open + |EntryOpen| <= b.close <= |xml|
    requires forall k :: b.open + |EntryOpen| <= k < b.close ==> !OccursAt(xml, EntryClose, k)
    ensures !Contains(xml[b.open + |EntryOpen|..b.close], EntryClose)
  {
    var start := b.open + |EntryOpen|;
    var body := xml[start..b.close];
    forall k | 0 <= k <= |body| - |EntryClose| ensures !OccursAt(body, EntryClose, k) {
      assert body[k..k + |EntryClose|] == xml[start + k..start + k + |EntryClose|];
      assert !OccursAt(xml, EntryClose, start + k);
    }
  }

  /**
   * The content captured by `<tag[^>]*>(…)<\/tag>` when the match starts at `p`: after the
   * opening text, everything up to the first `>`, then everything up to the first closing tag.
   * With `singleLine` the capture is `(.*?)`, which cannot cross a line terminator.
   */
  function TagAt(s: string, open: string, close: string, singleLine: bool, p: nat): (r: Option<string>)
    ensures r.Some? ==> Contains(s, r.value)
    ensures r.Some? && singleLine ==> forall i :: 0 <= i < |r.value| ==> !IsLineTerminator(r.value[i])
  {
    if !OccursAt(s, open, p) then None
    else
      match IndexOf(s, ">", p + |open|)
      case None => None
      case Some(q) =>
        match IndexOf(s, close, q + 1)
        case None => None
        case Some(c) =>
          if singleLine && exists k :: q + 1 <= k < c && IsLineTerminator(s[k]) then None
          else
            SliceContained(s, q + 1, c);
            Some(s[q + 1..c])
  }

  /** `s.match(pattern)` without the `g` flag: the capture of the match at the first start position that has one. */
  function FirstTag(s: string, open: string, close: string, singleLine: bool, from: nat): (r: Option<string>)
    ensures r.Some? ==> Contains(s, r.value)
    ensures r.Some? ==> exists p :: from <= p <= |s| && TagAt(s, open, close, singleLine, p) == r
                                     && forall q :: from <= q < p ==> TagAt(s, open, close, singleLine, q).None?
    ensures r.None? ==> forall p :: from <= p <= |s| ==> TagAt(s, open, close, singleLine, p).None?
    decreases |s| - from
  {
    if from > |s| then None
    else
      match TagAt(s, open, close, singleLine, from)
      case Some(c) => Some(c)
      case None => FirstTag(s, open, close, singleLine, from + 1)
  }

  function OrEmpty(m: Option<string>): string
  {
    if m.Some? then m.value else ""
  }

  /** `replace(/\n/g, ' ')`. */
  function NewlinesToSpaces(s: string): (r: string)
    ensures |r| == |s| && '\n' !in r
    ensures forall i :: 0 <= i < |s| && s[i] != '\n' ==> r[i] == s[i]
    ensures forall i :: 0 <= i < |s| && s[i] == '\n' ==> r[i] == ' '
  {
    seq(|s|, i requires 0 <= i < |s| => if s[i] == '\n' then ' ' else s[i])
  }

  /** Every white-space character is a plain space and is followed by no other white space. */
  predicate Collapsed(s: string)
  {
    forall i :: 0 <= i < |s| && IsSpace(s[i]) ==> s[i] == ' ' && (i + 1 < |s| ==> !IsSpace(s[i + 1]))
  }

  /**
   * `replace(/\s+/g, ' ')` over the rest of a text: a run of white space becomes one space, and
   * white space right after a run already replaced (`afterSpace`) disappears.
   */
  function Collapse(s: string, afterSpace: bool): (r: string)
    ensures Collapsed(r)
    ensures afterSpace ==> r == [] || !IsSpace(r[0])
    ensures !afterSpace ==> (s == [] <==> r == [])
    ensures !afterSpace && s != [] ==> r[0] == (if IsSpace(s[0]) then ' ' else s[0])
  {
    if s == [] then []
    else if IsSpace(s[0]) then (if afterSpace then [] else [' ']) + Collapse(s[1..], true)
    else [s[0]] + Collapse(s[1..], false)
  }

  function CollapseSpace(s: string): (r: string)
    ensures Collapsed(r)
    ensures s == [] <==> r == []
  {
    Collapse(s, false)
  }

  lemma CollapsedSlice(s: string, i: nat, j: nat)
    requires Collapsed(s) && i <= j <= |s|
    ensures Collapsed(s[i..j])
  {
    forall k | 0 <= k < j - i && IsSpace(s[i..j][k])
      ensures s[i..j][k] == ' ' && (k + 1 < j - i ==> !IsSpace(s[i..j][k + 1]))
    {
      assert s[i..j][k] == s[i + k];
      if k + 1 < j - i {
        assert s[i..j][k + 1] == s[i + k + 1];
      }
    }
  }

  lemma TrimKeepsCollapsed(c: string)
    requires Collapsed(c)
    ensures Collapsed(Trim(c))
  {
    CollapsedSlice(c, TrimOffset(c), TrimOffset(c) + |Trim(c)|);
  }

  /** The two `replace` and two `trim` calls applied to a title or a summary. */
  function Normalize(s: string): (r: string)
    ensures Trimmed(r) && Collapsed(r)
  {
    var c := CollapseSpace(Trim(NewlinesToSpaces(s)));
    TrimKeepsCollapsed(c);
    Trim(c)
  }

  /** Collapsing white space leaves a collapsed string alone. */
  lemma {:induction false} CollapseCollapsed(s: string, afterSpace: bool)
    requires Collapsed(s)
    requires afterSpace ==> s == [] || !IsSpace(s[0])
    ensures Collapse(s, afterSpace) == s
  {
    if s != [] {
      CollapsedSlice(s, 1, |s|);
      CollapseCollapsed(s[1..], IsSpace(s[0]));
      assert s == [s[0]] + s[1..];
    }
  }

  /** Normalising is idempotent: a trimmed, collapsed text is its own normal form. */
  lemma NormalizeFixed(s: string)
    requires Trimmed(s) && Collapsed(s)
    ensures Normalize(s) == s
  {
    assert NewlinesToSpaces(s) == s;
    CollapseCollapsed(s, false);
  }

  lemma NormalizeIdempotent(s: string)
    ensures Normalize(Normalize(s)) == Normalize(s)
  {
    NormalizeFixed(Normalize(s));
  }

  /** Collapsing white space keeps the words: only the white space between them changes. */
  lemma {:induction false} CollapseKeepsTokens(s: string, afterSpace: bool)
    ensures Tokens(Collapse(s, afterSpace)) == Tokens(s)
    decreases |s|
  {
    if s != [] {
      var rest := s[1..];
      if IsSpace(s[0]) {
        var x := Collapse(rest, true);
        CollapseKeepsTokens(rest, true);
        assert Tokens(s) == Tokens(rest) by {
          assert s == [s[0]] + rest;
          TokensSpaceCons(s[0], rest);
        }
        assert Tokens(Collapse(s, afterSpace)) == Tokens(x) by {
          if !afterSpace {
            assert Collapse(s, afterSpace) == [' '] + x;
            TokensSpaceCons(' ', x);
          } else {
            assert Collapse(s, afterSpace) == [] + x;
            assert [] + x == x;
          }
        }
      } else {
        var x := Collapse(rest, false);
        CollapseKeepsTokens(rest, false);
        assert Collapse(s, afterSpace) == [s[0]] + x;
        assert s == [s[0]] + rest;
        TokensConsSame(s[0], x, rest);
      }
    }
  }

  /** `replace(/\s+/g, ' ')` keeps the words and every character other than white space. */
  lemma CollapseSpaceKeepsWords(s: string)
    ensures Tokens(CollapseSpace(s)) == Tokens(s)
    ensures Visible(CollapseSpace(s)) == Visible(s)
  {
    CollapseKeepsTokens(s, false);
    TokensContent(s);
    TokensContent(CollapseSpace(s));
  }

  /** `replace(/\n/g, ' ')` keeps the words. */
  lemma NewlinesKeepTokens(s: string)
    ensures Tokens(NewlinesToSpaces(s)) == Tokens(s)
  {
    SameWordsTokens(s, NewlinesToSpaces(s));
  }

  /** Normalising a title or a summary keeps its words, in order, and every character other than white space. */
  lemma NormalizeKeepsWords(s: string)
    ensures Tokens(Normalize(s)) == Tokens(s)
    ensures Visible(Normalize(s)) == Visible(s)
  {
    var n := NewlinesToSpaces(s);
    var c := CollapseSpace(Trim(n));
    NewlinesKeepTokens(s);
    TokensTrim(n);
    CollapseKeepsTokens(Trim(n), false);
    TokensTrim(c);
    TokensContent(s);
    TokensContent(Normalize(s));
  }

  /** A trimmed text without white-space runs is its words joined by single spaces. */
  lemma {:induction false} CollapsedIsUnwords(r: string)
    requires Trimmed(r) && Collapsed(r)
    ensures r == Unwords(Tokens(r))
    decreases |r|
  {
    if r != [] {
      var n := WordLength(r);
      TokensFirstWord(r);
      if n < |r| {
        var tail := r[n + 1..];
        CollapsedAfterWord(r, n);
        CollapsedIsUnwords(tail);
        TokensFirstWord(tail);
        assert Unwords(Tokens(r)) == r[..n] + " " + Unwords(Tokens(tail)) by {
          assert ([r[..n]] + Tokens(tail))[1..] == Tokens(tail);
        }
        SplitAt(r, n);
      }
    }
  }

  /** After the first word of a trimmed text without white-space runs come one space and another such text. */
  lemma CollapsedAfterWord(r: string, n: nat)
    requires Trimmed(r) && Collapsed(r) && n < |r| && IsSpace(r[n])
    ensures r[n] == ' ' && n + 1 < |r|
    ensures var tail := r[n + 1..]; Trimmed(tail) && Collapsed(tail) && !IsSpace(tail[0])
  {
    CollapsedSlice(r, n + 1, |r|);
    assert r[n + 1..|r|] == r[n + 1..];
  }

  /** A normalised title or summary is exactly its words, joined by single spaces. */
  lemma NormalizeIsUnwords(s: string)
    ensures Normalize(s) == Unwords(Tokens(s))
  {
    NormalizeKeepsWords(s);
    CollapsedIsUnwords(Normalize(s));
  }

  const SummaryLimit: nat := 300

  /** `summary.length > 300 ? summary.substring(0, 300) + '...' : summary`. */
  function Truncate(s: string): (r: string)
    ensures |r| <= SummaryLimit + 3
    ensures s != [] ==> r != []
    ensures |s| <= SummaryLimit ==> r == s
    ensures |s| > SummaryLimit ==> |r| == SummaryLimit + 3 && r[..SummaryLimit] == s[..SummaryLimit] && EndsWith(r, "...")
  {
    if |s| > SummaryLimit then s[..SummaryLimit] + "..." else s
  }

  /** What a kept paper looks like. */
  predicate WellFormed(p: Paper, minDate: int)
  {
    && |p.title| >= 5 && Trimmed(p.title) && Collapsed(p.title)
    && p.summary != [] && |p.summary| <= SummaryLimit + 3
    && p.published >= minDate
  }

  /**
   * The body of the parsing loop for one entry: the paper it contributes, if any. A missing date
   * counts as time 0; a date `parseDate` cannot read is never at or after `minDate`.
   */
  function ParseEntry(entry: string, parseDate: string -> Option<int>, minDate: int): (r: Option<Paper>)
    ensures r.Some? ==> WellFormed(r.value, minDate)
  {
    var title := Normalize(OrEmpty(FirstTag(entry, "<title", "</title>", false, 0)));
    if |title| < 5 then None
    else
      var summary := Normalize(OrEmpty(FirstTag(entry, "<summary", "</summary>", false, 0)));
      var published := match FirstTag(entry, "<published", "</published>", true, 0)
        case None => Some(0)
        case Some(d) => parseDate(d);
      if published.Some? && published.value >= minDate && summary != [] then
        Some(Paper(title, Truncate(summary), published.value))
      else None
  }

  function AsSeq<T>(o: Option<T>): seq<T>
  {
    if o.Some? then [o.value] else []
  }

  /** Appending an optional value is pushing it when present. */
  lemma {:induction false} AppendOption<T>(s: seq<T>, o: Option<T>)
    ensures s + AsSeq(o) == if o.Some? then s + [o.value] else s
  {
    if o.None? { assert s + [] == s; }
  }

  /** `ParseEntry` with the date reader and the cut-off fixed: the work done for one captured entry. */
  function EntryParser(parseDate: string -> Option<int>, minDate: int): (parse: string -> Option<Paper>)
    ensures forall e :: parse(e) == ParseEntry(e, parseDate, minDate)
  {
    e => ParseEntry(e, parseDate, minDate)
  }

  /** The papers the entries contribute under `parse`, in entry order. */
  function Kept(entries: seq<string>, parse: string -> Option<Paper>): seq<Paper>
  {
    if entries == [] then []
    else AsSeq(parse(entries[0])) + Kept(entries[1..], parse)
  }

  /** Every paper the entries contribute passed the checks of `ParseEntry`. */
  lemma {:induction false} KeptWellFormed(entries: seq<string>, parseDate: string -> Option<int>, minDate: int)
    ensures forall p :: p in Kept(entries, EntryParser(parseDate, minDate)) ==> WellFormed(p, minDate)
  {
    if entries != [] {
      KeptWellFormed(entries[1..], parseDate, minDate);
      var parse := EntryParser(parseDate, minDate);
      assert Kept(entries, parse) == AsSeq(ParseEntry(entries[0], parseDate, minDate)) + Kept(entries[1..], parse);
    }
  }

  /** The result of `parseArxivXML`: the first five papers the feed's entries contribute. */
  function Recent(xml: string, parseDate: string -> Option<int>, minDate: int): seq<Paper>
  {
    Take(Kept(Entries(xml, 0), EntryParser(parseDate, minDate)), 5)
  }

  /** At most five papers, each well formed. */
  lemma {:induction false} RecentShape(xml: string, parseDate: string -> Option<int>, minDate: int)
    ensures |Recent(xml, parseDate, minDate)| <= 5
    ensures forall p :: p in Recent(xml, parseDate, minDate) ==> WellFormed(p, minDate)
  {
    var all := Kept(Entries(xml, 0), EntryParser(parseDate, minDate));
    KeptWellFormed(Entries(xml, 0), parseDate, minDate);
    forall p | p in Recent(xml, parseDate, minDate) ensures p in all {
      var i :| 0 <= i < |Recent(xml, parseDate, minDate)| && Recent(xml, parseDate, minDate)[i] == p;
      assert all[i] == p;
    }
  }

  /** The entries from `pos` are the entry the next match captures followed by those after it. */
  lemma {:induction false} KeptStep(xml: string, pos: nat, b: Block, parse: string -> Option<Paper>)
    requires NextEntry(xml, pos) == Some(b)
    ensures Kept(Entries(xml, pos), parse)
      == AsSeq(parse(xml[b.open + |EntryOpen|..b.close])) + Kept(Entries(xml, b.close + |EntryClose|), parse)
  {
    var body := xml[b.open + |EntryOpen|..b.close];
    var tail := Entries(xml, b.close + |EntryClose|);
    assert Entries(xml, pos) == [body] + tail by {
      EntriesStep(xml, pos);
    }
    KeptCons(body, tail, parse);
  }

  lemma {:induction false} EntriesStep(xml: string, pos: nat)
    requires NextEntry(xml, pos).Some?
    ensures var b := NextEntry(xml, pos).value;
      Entries(xml, pos) == [xml[b.open + |EntryOpen|..b.close]] + Entries(xml, b.close + |EntryClose|)
  {
  }

  lemma {:induction false} KeptCons(e: string, rest: seq<string>, parse: string -> Option<Paper>)
    ensures Kept([e] + rest, parse) == AsSeq(parse(e)) + Kept(rest, parse)
  {
    assert ([e] + rest)[1..] == rest;
  }

  /**
   * What the parsing loop returns when it resumes holding `papers`, with `m` the match the entry
   * pattern has just made: it stops once five papers are kept or the pattern finds no match.
   */
  function Scan(xml: string, m: Option<Block>, papers: seq<Paper>, parse: string -> Option<Paper>): seq<Paper>
    requires m.Some? ==> m.value.open + |EntryOpen| <= m.value.close && m.value.close + |EntryClose| <= |xml|
    decreases if m.Some? then |xml| - m.value.open else 0
  {
    if |papers| >= 5 then papers
    else
      match m
      case None => papers
      case Some(b) =>
        var paper := parse(xml[b.open + |EntryOpen|..b.close]);
        Scan(xml, NextEntry(xml, b.close + |EntryClose|), if paper.Some? then papers + [paper.value] else papers, parse)
  }

  /** Resuming the loop gives the first five of the papers held and those the rest of the feed contributes. */
  lemma {:induction false} ScanTakesFive(xml: string, pos: nat, papers: seq<Paper>, parse: string -> Option<Paper>)
    requires |papers| <= 5
    ensures Scan(xml, NextEntry(xml, pos), papers, parse) == Take(papers + Kept(Entries(xml, pos), parse), 5)
    decreases |xml| - pos, 1
  {
    var rest := Kept(Entries(xml, pos), parse);
    if |papers| >= 5 {
      TakeOfLongPrefix(papers, rest, 5);
    } else if NextEntry(xml, pos).None? {
      assert rest == [];
      TakeOfLongPrefix(papers, rest, 5);
    } else {
      ScanTakesFiveStep(xml, pos, NextEntry(xml, pos).value, papers, parse);
    }
  }

  /** `ScanTakesFive` when the pattern matches at `b` and fewer than five papers are held. */
  lemma {:induction false} ScanTakesFiveStep(xml: string, pos: nat, b: Block, papers: seq<Paper>, parse: string -> Option<Paper>)
    requires NextEntry(xml, pos) == Some(b) && |papers| < 5
    ensures Scan(xml, Some(b), papers, parse) == Take(papers + Kept(Entries(xml, pos), parse), 5)
    decreases |xml| - pos, 0
  {
    var paper := parse(xml[b.open + |EntryOpen|..b.close]);
    var next := b.close + |EntryClose|;
    var held := if paper.Some? then papers + [paper.value] else papers;
    var all := Kept(Entries(xml, pos), parse);
    var rest := Kept(Entries(xml, next), parse);
    var after := Scan(xml, NextEntry(xml, next), held, parse);
    assert Scan(xml, Some(b), papers, parse) == after by {
      ScanSome(xml, b, papers, parse);
    }
    assert after == Take(held + rest, 5) by {
      ScanTakesFive(xml, next, held, parse);
    }
    assert papers + all == held + rest by {
      KeptStep(xml, pos, b, parse);
      Advance(papers, all, paper, rest);
    }
  }

  /** One turn of the loop: the captured entry is parsed and its paper, if any, is kept. */
  lemma {:induction false} ScanSome(xml: string, b: Block, papers: seq<Paper>, parse: string -> Option<Paper>)
    requires b.open + |EntryOpen| <= b.close && b.close + |EntryClose| <= |xml| && |papers| < 5
    ensures var paper := parse(xml[b.open + |EntryOpen|..b.close]);
      Scan(xml, Some(b), papers, parse)
      == Scan(xml, NextEntry(xml, b.close + |EntryClose|), if paper.Some? then papers + [paper.value] else papers, parse)
  {
  }

  /**
   * `parseArxivXML`: runs the entry pattern over the feed, parses each entry and keeps the papers
   * that pass, stopping at the first failed match or once five are kept.
   */
  method ParseArxivXml(xmlText: string, parseDate: string -> Option<int>, minDate: int) returns (papers: seq<Paper>)
    ensures papers == Recent(xmlText, parseDate, minDate)
  {
    var parse := EntryParser(parseDate, minDate);
    papers := ScanEntries(xmlText, parse);
    ScanTakesFive(xmlText, 0, [], parse);
  }

  /** The loop of `parseArxivXML`, with the work done for one captured entry given as `parse`. */
  method ScanEntries(xmlText: string, parse: string -> Option<Paper>) returns (papers: seq<Paper>)
    ensures papers == Scan(xmlText, NextEntry(xmlText, 0), [], parse)
  {
    papers := [];
    var pos: nat := 0;
    var m := NextEntry(xmlText, pos);
    while m.Some? && |papers| < 5
      invariant pos <= |xmlText|
      invariant |papers| <= 5
      invariant m == NextEntry(xmlText, pos)
      invariant Scan(xmlText, m, papers, parse) == Scan(xmlText, NextEntry(xmlText, 0), [], parse)
      decreases |xmlText| - pos
    {
      var paper := parse(xmlText[m.value.open + |EntryOpen|..m.value.close]);
      pos := m.value.close + |EntryClose|;
      if paper.Some? {
        papers := papers + [paper.value];
      }
      m := NextEntry(xmlText, pos);
    }
  }

  /** One turn of the scan: the entry's paper, when it passes, moves from the rest of the feed onto the result. */
  lemma {:induction false} Advance<T>(papers: seq<T>, all: seq<T>, paper: Option<T>, rest: seq<T>)
    requires all == AsSeq(paper) + rest
    ensures papers + all == (if paper.Some? then papers + [paper.value] else papers) + rest
  {
    Regroup(papers, AsSeq(paper), rest);
    AppendOption(papers, paper);
  }

  /** Moving one entry's contribution from the rest of the feed onto the result. */
  lemma {:induction false} Regroup<T>(papers: seq<T>, o: seq<T>, rest: seq<T>)
    ensures papers + (o + rest) == (papers + o) + rest
  {
  }

  lemma {:induction false} TakeOfLongPrefix<T>(a: seq<T>, b: seq<T>, n: nat)
    requires |a| <= n && (b == [] || |a| >= n)
    ensures Take(a + b, n) == a
  {
    if b == [] {
      assert a + b == a;
    }
  }
}

/**
 * Topic extraction: the bare subject of a question, obtained by removing one interrogative phrase
 * at the start, one question mark at the very end and the surrounding white space.
 */
module Topic {
  import opened Seqs
  import opened Text

  /** The alternatives of the leading-phrase pattern, in the order the regular expression tries them. */
  const TopicPrefixes: seq<string> := [
    "what is", "what are", "how to", "how do", "explain", "describe",
    "tell me about", "summarize", "define", "who is", "who are"
  ]

  /** What a query reduces to when nothing is left of it. */
  const Placeholder: string := "this topic"

  lemma PlaceholderTrimmed()
    ensures Placeholder != [] && Trimmed(Placeholder)
  {
  }

  /**
   * `q` begins with the lower-case phrase `p`, ignoring case. Case-insensitive regular-expression
   * matching (without the `u` flag) never maps a non-ASCII character onto an ASCII one, so for
   * these ASCII phrases it agrees with comparing against the ASCII-lowered query.
   */
  predicate HasPrefix(q: string, p: string)
  {
    StartsWith(Lower(q), p)
  }

  /** The first phrase of `ps` that begins `q`. */
  function FirstPrefix(q: string, ps: seq<string>): (r: Option<string>)
    ensures r.Some? ==> HasPrefix(q, r.value)
  {
    if ps == [] then None
    else if HasPrefix(q, ps[0]) then Some(ps[0])
    else FirstPrefix(q, ps[1..])
  }

  /** The phrase found is the first listed one that begins the query; none is found only when none does. */
  lemma {:induction false} FirstPrefixIsFirst(q: string, ps: seq<string>)
    ensures FirstPrefix(q, ps).Some? ==>
      exists i :: 0 <= i < |ps| && ps[i] == FirstPrefix(q, ps).value
                  && forall j :: 0 <= j < i ==> !HasPrefix(q, ps[j])
    ensures FirstPrefix(q, ps).None? <==> forall p :: p in ps ==> !HasPrefix(q, p)
  {
    if ps != [] && !HasPrefix(q, ps[0]) {
      FirstPrefixIsFirst(q, ps[1..]);
      if FirstPrefix(q, ps).Some? {
        var i :| 0 <= i < |ps[1..]| && ps[1..][i] == FirstPrefix(q, ps).value
                 && forall j :: 0 <= j < i ==> !HasPrefix(q, ps[1..][j]);
        assert ps[i + 1] == FirstPrefix(q, ps).value;
        forall j | 0 <= j < i + 1 ensures !HasPrefix(q, ps[j]) {
          if j > 0 { assert ps[j] == ps[1..][j - 1]; }
        }
      }
      assert ps == [ps[0]] + ps[1..];
    }
  }

  /**
   * The first `replace`: a listed phrase at the very start, with all white space after it. Without
   * such a phrase the query is kept; with one, exactly the phrase and the white space run after it
   * are removed.
   */
  function StripPrefix(q: string): (r: string)
    ensures |r| <= |q| && r == q[|q| - |r|..]
    ensures FirstPrefix(q, TopicPrefixes).None? ==> r == q
    ensures FirstPrefix(q, TopicPrefixes).Some? ==>
      var p := FirstPrefix(q, TopicPrefixes).value;
      |p| <= |q| - |r| && AllSpace(q[|p|..|q| - |r|]) && (r == [] || !IsSpace(r[0]))
  {
    match FirstPrefix(q, TopicPrefixes)
    case None => q
    case Some(p) =>
      TrimStartAfter(q, |p|);
      TrimStart(q[|p|..])
  }

  /** The second `replace`: a question mark that is the very last character. */
  function StripQuestion(s: string): (r: string)
    ensures |r| <= |s| && r == s[..|r|]
    ensures r == [] || r[|r| - 1] != '?' || s[|s| - 1] == '?'
    ensures (s == [] || s[|s| - 1] != '?') ==> r == s
    ensures s != [] && s[|s| - 1] == '?' ==> r == s[..|s| - 1]
  {
    if |s| > 0 && s[|s| - 1] == '?' then s[..|s| - 1] else s
  }

  /**
   * `extractTopic`: the query without its leading phrase and final question mark, trimmed;
   * `Placeholder` when nothing is left.
   */
  function ExtractTopic(q: string): (r: string)
    ensures r != [] && Trimmed(r)
    ensures r == Placeholder || Contains(q, r)
    ensures AllSpace(StripQuestion(StripPrefix(q))) ==> r == Placeholder
  {
    var cleaned := Trim(StripQuestion(StripPrefix(q)));
    if cleaned == [] then PlaceholderTrimmed(); Placeholder
    else
      CleanedIsSlice(q);
      cleaned
  }

  /** A query that is already a bare topic is its own topic. */
  lemma CleanTopicUnchanged(q: string)
    requires q != [] && Trimmed(q) && q[|q| - 1] != '?'
    requires forall p :: p in TopicPrefixes ==> !HasPrefix(q, p)
    ensures ExtractTopic(q) == q
  {
    FirstPrefixIsFirst(q, TopicPrefixes);
    assert StripPrefix(q) == q;
    assert StripQuestion(q) == q;
  }

  /** What survives the two replacements and the trim is a slice of the query. */
  lemma CleanedIsSlice(q: string)
    ensures Contains(q, Trim(StripQuestion(StripPrefix(q))))
  {
    var a := StripPrefix(q);
    var b := StripQuestion(a);
    assert OccursAt(q, a, |q| - |a|);
    OccursContained(q, a, |q| - |a|);
    assert OccursAt(a, b, 0);
    OccursContained(a, b, 0);
    TrimContained(b);
    ContainsTransitive(q, a, b);
    ContainsTransitive(q, b, Trim(b));
  }
}

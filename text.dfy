/**
 * Character classes and string operations of the JavaScript built-ins the research agent relies on:
 * `\s` and `\w` of regular expressions, `toLowerCase`, `trim`, `split(/\s+/)`, `includes`,
 * `startsWith`, and decimal rendering of numbers.
 */
module Text {

  /** ECMAScript WhiteSpace and LineTerminator: the class `\s` matches and the set `trim()` removes. */
  predicate IsSpace(c: char)
  {
    || c == ' ' || c == '\t' || c == '\n' || c == '\U{B}' || c == '\U{C}' || c == '\r'
    || c == '\U{A0}' || c == '\U{1680}' || ('\U{2000}' <= c <= '\U{200A}')
    || c == '\U{2028}' || c == '\U{2029}' || c == '\U{202F}' || c == '\U{205F}'
    || c == '\U{3000}' || c == '\U{FEFF}'
  }

  /** The characters that `.` in a regular expression does not match. */
  predicate IsLineTerminator(c: char)
  {
    c == '\n' || c == '\r' || c == '\U{2028}' || c == '\U{2029}'
  }

  /** The class `\w`. */
  predicate IsWordChar(c: char)
  {
    ('a' <= c <= 'z') || ('A' <= c <= 'Z') || ('0' <= c <= '9') || c == '_'
  }

  predicate IsDigit(c: char)
  {
    '0' <= c <= '9'
  }

  /** Characters that lower-casing leaves unchanged and that `\w` matches. */
  predicate IsLowerWordChar(c: char)
  {
    ('a' <= c <= 'z') || ('0' <= c <= '9') || c == '_'
  }

  /** Lower-casing of one character; only the ASCII letters are mapped. */
  function LowerChar(c: char): char
  {
    if 'A' <= c <= 'Z' then (c as int + 32) as char else c
  }

  /** `toLowerCase()`, character by character. */
  function Lower(s: string): (r: string)
    ensures |r| == |s|
  {
    if s == [] then [] else [LowerChar(s[0])] + Lower(s[1..])
  }

  /** Each character of the lowered string is the lowered character. */
  lemma {:induction false} LowerAt(s: string)
    ensures forall i :: 0 <= i < |s| ==> Lower(s)[i] == LowerChar(s[i])
  {
    if s != [] {
      LowerAt(s[1..]);
      forall i | 0 < i < |s| ensures Lower(s)[i] == LowerChar(s[i]) {
        assert Lower(s)[i] == Lower(s[1..])[i - 1];
      }
    }
  }

  /** A string every character of which lower-casing leaves alone. */
  predicate IsLowered(s: string)
  {
    forall i :: 0 <= i < |s| ==> LowerChar(s[i]) == s[i]
  }

  lemma LowerIsLowered(s: string)
    ensures IsLowered(Lower(s))
  {
    LowerAt(s);
  }

  lemma LoweredFixed(s: string)
    requires IsLowered(s)
    ensures Lower(s) == s
  {
    LowerAt(s);
  }

  predicate StartsWith(s: string, p: string)
  {
    |p| <= |s| && s[..|p|] == p
  }

  predicate EndsWith(s: string, p: string)
  {
    |p| <= |s| && s[|s| - |p|..] == p
  }

  predicate OccursAt(s: string, p: string, i: nat)
  {
    i + |p| <= |s| && s[i..i + |p|] == p
  }

  /** `s.includes(p)`. */
  predicate Contains(s: string, p: string)
  {
    exists i | 0 <= i <= |s| - |p| :: OccursAt(s, p, i)
  }

  lemma OccursContained(s: string, p: string, i: nat)
    requires OccursAt(s, p, i)
    ensures Contains(s, p)
  {
  }

  /** Every slice of a string is contained in it. */
  lemma SliceContained(s: string, i: nat, j: nat)
    requires i <= j <= |s|
    ensures Contains(s, s[i..j])
  {
    assert OccursAt(s, s[i..j], i);
  }

  /** `includes` is transitive. */
  lemma ContainsTransitive(a: string, b: string, c: string)
    requires Contains(a, b) && Contains(b, c)
    ensures Contains(a, c)
  {
    var i :| 0 <= i <= |a| - |b| && OccursAt(a, b, i);
    var j :| 0 <= j <= |b| - |c| && OccursAt(b, c, j);
    forall k | 0 <= k < |c| ensures a[i + j + k] == c[k] {
      assert c[k] == b[j + k];
    }
    assert a[i + j..i + j + |c|] == c;
    assert OccursAt(a, c, i + j);
  }

  /** A string occurring in `s` occurs in `s` with anything attached on either side. */
  lemma ContainsInContext(l: string, s: string, r: string, p: string)
    requires Contains(s, p)
    ensures Contains(l + s + r, p)
  {
    SliceContained(l + s + r, |l|, |l| + |s|);
    assert (l + s + r)[|l|..|l| + |s|] == s;
    ContainsTransitive(l + s + r, s, p);
  }

  lemma ContainsSelf(s: string)
    ensures Contains(s, s)
  {
    assert OccursAt(s, s, 0);
  }

  /** Attaching text on either side keeps an occurrence. */
  lemma ContainsAppended(s: string, t: string, p: string)
    requires Contains(s, p)
    ensures Contains(s + t, p) && Contains(t + s, p)
  {
    var i :| 0 <= i <= |s| - |p| && OccursAt(s, p, i);
    assert (s + t)[i..i + |p|] == s[i..i + |p|];
    assert OccursAt(s + t, p, i);
    assert (t + s)[|t| + i..|t| + i + |p|] == s[i..i + |p|];
    assert OccursAt(t + s, p, |t| + i);
  }

  lemma PrefixAppended(a: string, b: string)
    ensures StartsWith(a + b, a)
  {
    assert (a + b)[..|a|] == a;
  }

  /** Attaching text at the end keeps a prefix. */
  lemma StartsWithAppended(s: string, t: string, p: string)
    requires StartsWith(s, p)
    ensures StartsWith(s + t, p)
  {
    assert (s + t)[..|p|] == s[..|p|];
  }

  lemma SuffixAppended(a: string, b: string)
    ensures EndsWith(a + b, b)
  {
    assert (a + b)[|a|..] == b;
  }

  /** A string `p` occurring in `s` is made of characters of `s`. */
  lemma ContainedChars(s: string, p: string, P: char -> bool)
    requires Contains(s, p)
    requires forall i :: 0 <= i < |s| ==> P(s[i])
    ensures forall i :: 0 <= i < |p| ==> P(p[i])
  {
    var k :| 0 <= k <= |s| - |p| && OccursAt(s, p, k);
    forall i | 0 <= i < |p| ensures P(p[i]) {
      assert p[i] == s[k + i];
    }
  }

  predicate AllSpace(s: string)
  {
    forall i :: 0 <= i < |s| ==> IsSpace(s[i])
  }

  /** No leading and no trailing white space. */
  predicate Trimmed(s: string)
  {
    s == [] || (!IsSpace(s[0]) && !IsSpace(s[|s| - 1]))
  }

  /** `trimStart()`: the suffix left after the leading white space. */
  function TrimStart(s: string): (r: string)
    ensures |r| <= |s| && r == s[|s| - |r|..]
    ensures r == [] || !IsSpace(r[0])
    ensures (s == [] || !IsSpace(s[0])) ==> r == s
    ensures AllSpace(s[..|s| - |r|])
    decreases |s|
  {
    if |s| > 0 && IsSpace(s[0]) then
      var r := TrimStart(s[1..]);
      assert s[..|s| - |r|] == [s[0]] + s[1..][..|s| - 1 - |r|];
      r
    else s
  }

  /** Trimming the start of a suffix of `s` keeps a suffix of `s` and removes only white space. */
  lemma TrimStartAfter(s: string, k: nat)
    requires k <= |s|
    ensures var r := TrimStart(s[k..]);
      k + |r| <= |s| && r == s[|s| - |r|..] && AllSpace(s[k..|s| - |r|])
  {
    var r := TrimStart(s[k..]);
    assert s[k..][|s| - k - |r|..] == s[|s| - |r|..];
    assert s[k..][..|s| - k - |r|] == s[k..|s| - |r|];
  }

  /** `trimEnd()`: the prefix left before the trailing white space. */
  function TrimEnd(s: string): (r: string)
    ensures |r| <= |s| && r == s[..|r|]
    ensures r == [] || !IsSpace(r[|r| - 1])
    ensures (s == [] || !IsSpace(s[|s| - 1])) ==> r == s
    decreases |s|
  {
    if |s| > 0 && IsSpace(s[|s| - 1]) then TrimEnd(s[..|s| - 1]) else s
  }

  /** `trimStart()` removes white space only: nothing is left exactly when all of it was white space. */
  lemma {:induction false} TrimStartEmpty(s: string)
    ensures TrimStart(s) == [] <==> AllSpace(s)
    decreases |s|
  {
    if |s| > 0 && IsSpace(s[0]) {
      TrimStartEmpty(s[1..]);
      assert AllSpace(s) <==> AllSpace(s[1..]) by {
        if AllSpace(s[1..]) {
          forall i | 0 <= i < |s| ensures IsSpace(s[i]) {
            if i > 0 { assert s[i] == s[1..][i - 1]; }
          }
        }
      }
    }
  }

  /** `trimEnd()` keeps a string that starts with a character other than white space non-empty. */
  lemma {:induction false} TrimEndKeepsFirst(s: string)
    requires s != [] && !IsSpace(s[0])
    ensures TrimEnd(s) != []
    decreases |s|
  {
    if |s| > 1 && IsSpace(s[|s| - 1]) {
      TrimEndKeepsFirst(s[..|s| - 1]);
    }
  }

  /** Where the result of `Trim(s)` starts in `s`. */
  function TrimOffset(s: string): (k: nat)
    ensures k <= |s|
  {
    |s| - |TrimStart(s)|
  }

  /** `trim()`: the slice of `s` between its leading and its trailing white space. */
  function Trim(s: string): (r: string)
    ensures Trimmed(r)
    ensures TrimOffset(s) + |r| <= |s| && r == s[TrimOffset(s)..TrimOffset(s) + |r|]
    ensures r == [] <==> AllSpace(s)
    ensures Trimmed(s) ==> r == s
  {
    TrimIsTrimmed(s);
    TrimIsSlice(s);
    TrimEmpty(s);
    TrimEnd(TrimStart(s))
  }

  lemma TrimIsTrimmed(s: string)
    ensures Trimmed(TrimEnd(TrimStart(s)))
  {
    var a := TrimStart(s);
    var r := TrimEnd(a);
    if r != [] {
      assert r[0] == a[0];
    }
  }

  lemma TrimIsSlice(s: string)
    ensures var r := TrimEnd(TrimStart(s)); var k := TrimOffset(s);
      k + |r| <= |s| && r == s[k..k + |r|]
  {
    var a := TrimStart(s);
    var r := TrimEnd(a);
    var k := TrimOffset(s);
    assert a == s[k..];
    assert r == a[..|r|];
  }

  lemma TrimEmpty(s: string)
    ensures TrimEnd(TrimStart(s)) == [] <==> AllSpace(s)
  {
    var a := TrimStart(s);
    TrimStartEmpty(s);
    if a != [] {
      TrimEndKeepsFirst(a);
    }
  }

  /** Every character of a trimmed string that is not white space stays in it. */
  lemma TrimContained(s: string)
    ensures Contains(s, Trim(s))
  {
    SliceContained(s, TrimOffset(s), TrimOffset(s) + |Trim(s)|);
  }

  /** No white space. */
  predicate NoSpace(s: string)
  {
    forall i :: 0 <= i < |s| ==> !IsSpace(s[i])
  }

  /** Length of the leading run of characters other than white space. */
  function WordLength(s: string): (n: nat)
    ensures n <= |s|
    ensures NoSpace(s[..n])
    ensures n < |s| ==> IsSpace(s[n])
  {
    if s == [] || IsSpace(s[0]) then 0 else 1 + WordLength(s[1..])
  }

  /**
   * The fields of `s.split(/\s+/)`, without the empty fields that a leading or trailing run of
   * white space produces (every caller drops them by a length filter).
   */
  function Tokens(s: string): (r: seq<string>)
    ensures forall t :: t in r ==> t != [] && NoSpace(t) && Contains(s, t)
    decreases |s|
  {
    if s == [] then []
    else if IsSpace(s[0]) then
      var r := Tokens(s[1..]);
      SuffixTokensContained(s, 1, r);
      r
    else
      var n := WordLength(s);
      var rest := Tokens(s[n..]);
      SliceContained(s, 0, n);
      SuffixTokensContained(s, n, rest);
      [s[..n]] + rest
  }

  lemma SuffixTokensContained(s: string, n: nat, r: seq<string>)
    requires n <= |s|
    requires forall t :: t in r ==> Contains(s[n..], t)
    ensures forall t :: t in r ==> Contains(s, t)
  {
    forall t | t in r ensures Contains(s, t) {
      SliceContained(s, n, |s|);
      assert s[n..|s|] == s[n..];
      ContainsTransitive(s, s[n..], t);
    }
  }

  /** Every character of a token is a character of the split string. */
  lemma TokenChars(s: string, P: char -> bool)
    requires forall i :: 0 <= i < |s| ==> P(s[i]) || IsSpace(s[i])
    ensures forall t, i :: t in Tokens(s) && 0 <= i < |t| ==> P(t[i])
  {
    forall t, i | t in Tokens(s) && 0 <= i < |t| ensures P(t[i]) {
      var k :| 0 <= k <= |s| - |t| && OccursAt(s, t, k);
      assert t[i] == s[k + i];
    }
  }

  /** The characters of `s` other than white space, in order. */
  function Visible(s: string): (r: string)
    ensures NoSpace(r)
  {
    if s == [] then [] else (if IsSpace(s[0]) then [] else [s[0]]) + Visible(s[1..])
  }

  /** A list of tokens written one after the other. */
  function Concat(ws: seq<string>): string
  {
    if ws == [] then [] else ws[0] + Concat(ws[1..])
  }

  /** `ws.join(' ')`. */
  function Unwords(ws: seq<string>): string
  {
    if ws == [] then [] else if |ws| == 1 then ws[0] else ws[0] + " " + Unwords(ws[1..])
  }

  lemma {:induction false} VisibleAppend(a: string, b: string)
    ensures Visible(a + b) == Visible(a) + Visible(b)
    decreases |a|
  {
    if a == [] {
      assert a + b == b;
    } else {
      assert (a + b)[1..] == a[1..] + b;
      VisibleAppend(a[1..], b);
    }
  }

  lemma {:induction false} VisibleOfWord(a: string)
    requires NoSpace(a)
    ensures Visible(a) == a
    decreases |a|
  {
    if a != [] {
      assert NoSpace(a[1..]) by {
        forall i | 0 <= i < |a| - 1 ensures !IsSpace(a[1..][i]) {
          assert a[1..][i] == a[i + 1];
        }
      }
      VisibleOfWord(a[1..]);
    }
  }

  /** Splitting keeps every character other than white space, in order, and adds none. */
  lemma {:induction false} TokensContent(s: string)
    ensures Concat(Tokens(s)) == Visible(s)
    decreases |s|
  {
    if s != [] {
      if IsSpace(s[0]) {
        TokensContent(s[1..]);
      } else {
        var n := WordLength(s);
        var rest := Tokens(s[n..]);
        TokensContent(s[n..]);
        assert Tokens(s) == [s[..n]] + rest;
        assert ([s[..n]] + rest)[1..] == rest;
        assert s == s[..n] + s[n..];
        VisibleAppend(s[..n], s[n..]);
        VisibleOfWord(s[..n]);
      }
    }
  }

  /**
   * A character other than white space in front of a text either forms a token of its own (when
   * the text is empty or starts with white space) or joins the text's first token.
   */
  lemma TokensCons(c: char, s: string)
    requires !IsSpace(c)
    ensures s == [] || IsSpace(s[0]) ==> Tokens([c] + s) == [[c]] + Tokens(s)
    ensures s != [] && !IsSpace(s[0]) ==>
      Tokens(s) != [] && Tokens([c] + s) == [[c] + Tokens(s)[0]] + Tokens(s)[1..]
  {
    var x := [c] + s;
    assert x[1..] == s;
    var m := WordLength(s);
    assert WordLength(x) == 1 + m;
    assert x[..1 + m] == [c] + s[..m];
    assert x[1 + m..] == s[m..];
    if s != [] && !IsSpace(s[0]) {
      assert Tokens(s) == [s[..m]] + Tokens(s[m..]);
    }
  }

  /** A text is what comes before a position, the character there and what comes after. */
  lemma SplitAt(s: string, n: nat)
    requires n < |s|
    ensures s == s[..n] + [s[n]] + s[n + 1..]
    ensures s[n..] == [s[n]] + s[n + 1..]
  {
  }

  /** White space in front of a text adds no token. */
  lemma TokensSpaceCons(c: char, s: string)
    requires IsSpace(c)
    ensures Tokens([c] + s) == Tokens(s)
  {
    assert ([c] + s)[1..] == s;
  }

  /** The same first character in front of two texts with the same tokens and the same start. */
  lemma TokensConsSame(c: char, a: string, b: string)
    requires !IsSpace(c) && Tokens(a) == Tokens(b)
    requires (a == [] || IsSpace(a[0])) <==> (b == [] || IsSpace(b[0]))
    ensures Tokens([c] + a) == Tokens([c] + b)
  {
    TokensCons(c, a);
    TokensCons(c, b);
  }

  /** The first token of a text that starts with one, and the tokens after the white space that ends it. */
  lemma TokensFirstWord(s: string)
    requires s != [] && !IsSpace(s[0])
    ensures var n := WordLength(s);
      && 0 < n
      && (n == |s| ==> Tokens(s) == [s])
      && (n < |s| ==> Tokens(s) == [s[..n]] + Tokens(s[n + 1..]))
  {
    var n := WordLength(s);
    assert Tokens(s) == [s[..n]] + Tokens(s[n..]);
    if n == |s| {
      assert s[..n] == s && s[n..] == [];
    } else {
      SplitAt(s, n);
      TokensSpaceCons(s[n], s[n + 1..]);
    }
  }

  /** White space at the end of a text adds no token. */
  lemma {:induction false} TokensSnocSpace(s: string, c: char)
    requires IsSpace(c)
    ensures Tokens(s + [c]) == Tokens(s)
    decreases |s|
  {
    var x := s + [c];
    if s == [] {
      assert x[1..] == [];
    } else if IsSpace(s[0]) {
      assert x[1..] == s[1..] + [c];
      TokensSnocSpace(s[1..], c);
    } else {
      var n := WordLength(s);
      WordLengthSnocSpace(s, c);
      assert x[..n] == s[..n];
      assert x[n..] == s[n..] + [c];
      TokensSnocSpace(s[n..], c);
    }
  }

  lemma {:induction false} WordLengthSnocSpace(s: string, c: char)
    requires IsSpace(c)
    ensures WordLength(s + [c]) == WordLength(s)
    decreases |s|
  {
    if s != [] && !IsSpace(s[0]) {
      assert (s + [c])[1..] == s[1..] + [c];
      WordLengthSnocSpace(s[1..], c);
    }
  }

  /** `trim()` changes no token. */
  lemma TokensTrim(s: string)
    ensures Tokens(Trim(s)) == Tokens(s)
  {
    TokensTrimStart(s);
    TokensTrimEnd(TrimStart(s));
  }

  lemma {:induction false} TokensTrimStart(s: string)
    ensures Tokens(TrimStart(s)) == Tokens(s)
    decreases |s|
  {
    if |s| > 0 && IsSpace(s[0]) {
      TokensTrimStart(s[1..]);
    }
  }

  lemma {:induction false} TokensTrimEnd(s: string)
    ensures Tokens(TrimEnd(s)) == Tokens(s)
    decreases |s|
  {
    if |s| > 0 && IsSpace(s[|s| - 1]) {
      TokensTrimEnd(s[..|s| - 1]);
      assert s == s[..|s| - 1] + [s[|s| - 1]];
      TokensSnocSpace(s[..|s| - 1], s[|s| - 1]);
    }
  }

  /** Two texts with white space at the same places and the same characters elsewhere. */
  predicate SameWords(a: string, b: string)
  {
    && |a| == |b|
    && forall i :: 0 <= i < |a| ==> (IsSpace(a[i]) <==> IsSpace(b[i])) && (!IsSpace(a[i]) ==> a[i] == b[i])
  }

  /** Replacing white space by other white space changes no token. */
  lemma {:induction false} SameWordsTokens(a: string, b: string)
    requires SameWords(a, b)
    ensures Tokens(a) == Tokens(b)
    decreases |a|
  {
    if a != [] {
      assert SameWords(a[1..], b[1..]) by {
        forall i | 0 <= i < |a| - 1
          ensures (IsSpace(a[1..][i]) <==> IsSpace(b[1..][i])) && (!IsSpace(a[1..][i]) ==> a[1..][i] == b[1..][i])
        {
          assert a[1..][i] == a[i + 1] && b[1..][i] == b[i + 1];
        }
      }
      SameWordsTokens(a[1..], b[1..]);
      if !IsSpace(a[0]) {
        assert a == [a[0]] + a[1..] && b == [a[0]] + b[1..];
        TokensConsSame(a[0], a[1..], b[1..]);
      }
    }
  }

  /** Value of a string of decimal digits. */
  function DecimalValue(s: string): nat
    requires forall i :: 0 <= i < |s| ==> IsDigit(s[i])
  {
    if s == [] then 0
    else assert IsDigit(s[|s| - 1]); 10 * DecimalValue(s[..|s| - 1]) + (s[|s| - 1] as int - '0' as int)
  }

  function DigitChar(d: nat): (c: char)
    requires d < 10
    ensures IsDigit(c)
  {
    ('0' as int + d) as char
  }

  /** Decimal rendering of a natural number, as template literals print it. */
  function NatToString(n: nat): (r: string)
    ensures r != []
    ensures forall i :: 0 <= i < |r| ==> IsDigit(r[i])
    ensures |r| > 1 ==> r[0] != '0'
  {
    if n < 10 then [DigitChar(n)] else NatToString(n / 10) + [DigitChar(n % 10)]
  }

  /** Reading back a rendered number gives the number. */
  lemma {:induction false} NatToStringRoundTrip(n: nat)
    ensures DecimalValue(NatToString(n)) == n
  {
    var r := NatToString(n);
    if n >= 10 {
      NatToStringRoundTrip(n / 10);
      assert r[..|r| - 1] == NatToString(n / 10);
    }
  }
}

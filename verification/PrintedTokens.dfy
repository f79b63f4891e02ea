// The tokens of printed text.
module PrintedTokens {
  import opened Options
  import opened CString
  import opened Strtok
  import opened Aliases

  // A name that the tokeniser, the table name test and the bracket test leave alone.
  predicate Plain(name: string) {
    name != [] && forall i | 0 <= i < |name| :: name[i] !in {' ', ',', ';', '.', '(', ')', NUL}
  }

  // The text goes on with a delimiter, or ends.
  predicate Apart(rest: string) {
    rest == [] || rest[0] in DELIMS
  }

  lemma {:induction false} TokenOfWord(w: string, rest: string)
    requires Apart(rest) && forall i | 0 <= i < |w| :: w[i] !in DELIMS
    ensures TokenOf(w + rest, DELIMS) == w
  {
    TokenInFront(w, rest, DELIMS);
    assert TokenOf(rest, DELIMS) == [];
  }

  lemma {:induction false} TokensWord(w: string, rest: string)
    requires w != [] && Apart(rest) && forall i | 0 <= i < |w| :: w[i] !in DELIMS
    ensures Tokens(w + rest, DELIMS) == [w] + Tokens(rest, DELIMS)
  {
    var u := w + rest;
    assert u[0] == w[0];
    assert SkipDelims(u, DELIMS) == u;
    TokenOfWord(w, rest);
    if rest == [] {
      assert Tokens([], DELIMS) == [];
    } else {
      assert u[|w| + 1..] == rest[1..];
      assert Tokens(rest, DELIMS) == Tokens(rest[1..], DELIMS);
    }
  }

  lemma TokensDelim(c: char, rest: string)
    requires c in DELIMS
    ensures Tokens([c] + rest, DELIMS) == Tokens(rest, DELIMS)
  {
    assert ([c] + rest)[1..] == rest;
  }

  lemma {:induction false} FirstToken(s: string, rest: string, t: string, others: string)
    requires s != [] && s[0] !in DELIMS && Apart(rest) && t == TokenOf(s, DELIMS) && others == s[|t|..]
    ensures t != [] && s == t + others && Tokens(s + rest, DELIMS) == [t] + Tokens(others + rest, DELIMS)
  {
    assert s == t + others && Apart(others + rest) && s + rest == t + (others + rest) by {
      TokenIsPrefix(s, DELIMS);
    }
    assert forall i | 0 <= i < |t| :: t[i] in t;
    TokensWord(t, others + rest);
  }

  // Text that goes on with a delimiter is cut up piece by piece.
  lemma {:induction false} TokensAppend(a: string, rest: string)
    requires Apart(rest)
    ensures Tokens(a + rest, DELIMS) == Tokens(a, DELIMS) + Tokens(rest, DELIMS)
    decreases |a|
  {
    if a == [] {
      assert a + rest == rest && Tokens(a, DELIMS) == [];
    } else if a[0] in DELIMS {
      SkipFirst(a, rest);
      SkipFirst(a, []);
      assert a + [] == a && a[1..] + [] == a[1..];
      TokensAppend(a[1..], rest);
    } else {
      var t := TokenOf(a, DELIMS);
      AppendBehind(a, rest, t);
      TokensAppend(a[|t|..], rest);
    }
  }

  // The tokens behind the first are those of the rest of the piece and of the text behind it.
  lemma {:induction false} AppendBehind(a: string, rest: string, t: string)
    requires a != [] && a[0] !in DELIMS && Apart(rest) && t == TokenOf(a, DELIMS)
    ensures 0 < |t| <= |a|
    ensures var others := a[|t|..];
      Tokens(others + rest, DELIMS) == Tokens(others, DELIMS) + Tokens(rest, DELIMS)
      ==> Tokens(a + rest, DELIMS) == Tokens(a, DELIMS) + Tokens(rest, DELIMS)
  {
    hide Tokens, TokenOf;
    var others := a[|t|..];
    FirstToken(a, rest, t, others);
    FirstToken(a, [], t, others);
    assert a + [] == a && others + [] == others;
  }

  lemma SkipFirst(a: string, rest: string)
    requires a != [] && a[0] in DELIMS
    ensures Tokens(a + rest, DELIMS) == Tokens(a[1..] + rest, DELIMS)
  {
    assert a + rest == [a[0]] + (a[1..] + rest);
    TokensDelim(a[0], a[1..] + rest);
  }

  // Words, with a gap behind each; only the last gap may be empty.
  function Spaced(words: seq<string>, gaps: seq<string>): string
    requires |words| == |gaps|
  {
    if words == [] then "" else words[0] + (gaps[0] + Spaced(words[1..], gaps[1..]))
  }

  predicate IsGap(gap: string) {
    forall c | c in gap :: c == ' ' || c == ',' || c == ';'
  }

  predicate Parted(words: seq<string>, gaps: seq<string>) {
    && |words| == |gaps|
    && (forall i | 0 <= i < |words| :: words[i] != [] && forall c | c in words[i] :: c != ' ' && c != ',' && c != ';')
    && forall i | 0 <= i < |gaps| :: IsGap(gaps[i]) && (i < |gaps| - 1 ==> gaps[i] != [])
  }

  lemma {:induction false} TokensGap(gap: string, rest: string)
    requires IsGap(gap)
    ensures Tokens(gap + rest, DELIMS) == Tokens(rest, DELIMS)
  {
    if gap == [] {
      assert gap + rest == rest;
    } else {
      assert gap[0] in gap && forall c | c in gap[1..] :: c in gap;
      assert gap + rest == [gap[0]] + (gap[1..] + rest);
      TokensDelim(gap[0], gap[1..] + rest);
      TokensGap(gap[1..], rest);
    }
  }

  /** The tokens of words with gaps between them are the words. */
  lemma {:induction false} TokensOfWords(words: seq<string>, gaps: seq<string>)
    requires Parted(words, gaps)
    ensures Tokens(Spaced(words, gaps), DELIMS) == words
    decreases |words|
  {
    if words == [] {
      assert Tokens("", DELIMS) == [];
    } else {
      var w, rest := words[0], gaps[0] + Spaced(words[1..], gaps[1..]);
      TokensOfWords(words[1..], gaps[1..]);
      TokensGap(gaps[0], Spaced(words[1..], gaps[1..]));
      assert Apart(rest) by {
        if gaps[0] != [] {
          assert rest[0] == gaps[0][0] && gaps[0][0] in gaps[0];
        }
      }
      assert forall i | 0 <= i < |w| :: w[i] in w;
      TokensWord(w, rest);
      assert words == [w] + words[1..];
    }
  }

  lemma PlainWord(name: string)
    requires Plain(name)
    ensures Unqualify(name) == name && BehindChar(name, '(') == None
    ensures forall rest :: ItemEnd(name, rest) == Some((name, rest))
    ensures forall i | 0 <= i < |name| :: name[i] !in DELIMS
  {
    NoChar(name, '.');
    NoChar(name, '(');
  }
}

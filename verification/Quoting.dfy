// String quoting as each driver writes it: Ingres, Firebird and FreeTDS double every quote,
// SQLite, SQLite3 and Oracle also replace the bytes 0x00 and 0x1A.
module Quoting {
  import opened Options
  import opened CString

  const SUB := '\U{001A}'

  // ----- What is written -----

  function Encode(s: string, code: char -> string): string {
    if s == [] then [] else code(s[0]) + Encode(s[1..], code)
  }

  function DoubleQuote(c: char): string {
    if c == '\'' then "''" else [c]
  }

  function EscapeControl(c: char): string {
    if c == NUL then "\\0" else if c == '\'' then "''" else if c == SUB then "\\Z" else [c]
  }

  // The SQL literal for s: the text between quotes, each quote in it doubled.
  function Literal(s: string): string {
    "'" + Encode(s, DoubleQuote) + "'"
  }

  // The literal that the drivers with the escape loop write.
  function EscapedLiteral(s: string): string {
    "'" + Encode(s, EscapeControl) + "'"
  }

  lemma {:induction false} EncodeSnoc(s: string, c: char, code: char -> string)
    ensures Encode(s + [c], code) == Encode(s, code) + code(c)
  {
    if s == [] {
      assert Encode([c], code) == code(c) + Encode([], code);
    } else {
      EncodeSnoc(s[1..], c, code);
      assert (s + [c])[1..] == s[1..] + [c];
    }
  }

  lemma EncodeNext(s: string, i: nat, code: char -> string)
    requires i < |s|
    ensures Encode(s[..i + 1], code) == Encode(s[..i], code) + code(s[i])
  {
    EncodeSnoc(s[..i], s[i], code);
    assert s[..i + 1] == s[..i] + [s[i]];
  }

  // A prefix is never encoded by more than the whole.
  lemma {:induction false} EncodePrefix(s: string, i: nat, code: char -> string)
    requires i <= |s|
    ensures |Encode(s[..i], code)| <= |Encode(s, code)|
    decreases |s| - i
  {
    if i < |s| {
      EncodeNext(s, i, code);
      EncodePrefix(s, i + 1, code);
    } else {
      assert s[..i] == s;
    }
  }

  lemma {:induction false} EncodeSame(s: string, f: char -> string, g: char -> string)
    requires forall i | 0 <= i < |s| :: f(s[i]) == g(s[i])
    ensures Encode(s, f) == Encode(s, g)
  {
    if s != [] {
      EncodeSame(s[1..], f, g);
    }
  }

  lemma {:induction false} EncodeNoNul(s: string, code: char -> string)
    requires forall i | 0 <= i < |s| :: NUL !in code(s[i])
    ensures NUL !in Encode(s, code)
  {
    if s != [] {
      EncodeNoNul(s[1..], code);
    }
  }

  // The number of characters of s in a set.
  function Count(s: string, these: set<char>): nat {
    if s == [] then 0 else (if s[0] in these then 1 else 0) + Count(s[1..], these)
  }

  /** A quoted text and its NUL take at most 2n+3 bytes; the exact length follows from the
      number of characters written as two. */
  lemma {:induction false} EncodedLength(s: string)
    ensures |Encode(s, DoubleQuote)| == |s| + Count(s, {'\''})
    ensures |Encode(s, EscapeControl)| == |s| + Count(s, {'\'', NUL, SUB})
    ensures |Literal(s)| + 1 <= 2 * |s| + 3 && |EscapedLiteral(s)| + 1 <= 2 * |s| + 3
  {
    if s != [] {
      EncodedLength(s[1..]);
    }
  }

  // ----- Reading a literal back -----

  /** A reader of SQL character string literals (section 5.3 of ISO/IEC 9075-2:2003): the
      text denoted by the literal that starts t, and the position behind its closing quote. */
  function ReadLiteral(t: string): Option<(string, nat)> {
    if t == [] || t[0] != '\'' then None else ReadBody(t, 1)
  }

  function ReadBody(t: string, i: nat): Option<(string, nat)>
    decreases |t| - i
  {
    if i >= |t| then
      None
    else if t[i] == '\'' && i + 1 < |t| && t[i + 1] == '\'' then
      match ReadBody(t, i + 2) case None => None case Some(r) => Some(("'" + r.0, r.1))
    else if t[i] == '\'' then
      Some(([], i + 1))
    else
      match ReadBody(t, i + 1) case None => None case Some(r) => Some(([t[i]] + r.0, r.1))
  }

  lemma SplitPiece(t: string, i: nat, piece: string, others: string, rest: string)
    requires i <= |t| && t[i..] == piece + others + rest
    ensures i + |piece| <= |t| && t[i + |piece|..] == others + rest
    ensures forall k | 0 <= k < |piece| :: t[i + k] == piece[k]
  {
    assert t[i + |piece|..] == t[i..][|piece|..];
    assert forall k | 0 <= k < |piece| :: t[i + k] == t[i..][k];
  }

  lemma ReadPiece(t: string, i: nat, c: char, s: string, end: nat)
    requires i + |DoubleQuote(c)| <= |t| && forall k | 0 <= k < |DoubleQuote(c)| :: t[i + k] == DoubleQuote(c)[k]
    requires ReadBody(t, i + |DoubleQuote(c)|) == Some((s, end))
    ensures ReadBody(t, i) == Some(([c] + s, end))
  {
    assert t[i + 0] == DoubleQuote(c)[0];
    assert c == '\'' ==> t[i + 1] == DoubleQuote(c)[1];
  }

  lemma ReadEnd(t: string, i: nat, rest: string)
    requires i <= |t| && t[i..] == "'" + rest && (rest == [] || rest[0] != '\'')
    ensures ReadBody(t, i) == Some(([], |t| - |rest|))
  {
    assert t[i] == t[i..][0];
    assert i + 1 < |t| ==> t[i + 1] == t[i..][1] == rest[0];
  }

  lemma {:induction false} ReadEncoded(t: string, i: nat, s: string, rest: string)
    requires i <= |t| && t[i..] == Encode(s, DoubleQuote) + ("'" + rest)
    requires rest == [] || rest[0] != '\''
    ensures ReadBody(t, i) == Some((s, |t| - |rest|))
    decreases |s|
  {
    if s == [] {
      assert [] + ("'" + rest) == "'" + rest;
      ReadEnd(t, i, rest);
    } else {
      var piece := DoubleQuote(s[0]);
      SplitPiece(t, i, piece, Encode(s[1..], DoubleQuote), "'" + rest);
      ReadEncoded(t, i + |piece|, s[1..], rest);
      ReadPiece(t, i, s[0], s[1..], |t| - |rest|);
      assert s == [s[0]] + s[1..];
    }
  }

  /** Quoting is inverted by reading: the reader stops exactly behind the literal and returns
      the text, for every text and whatever follows (but a quote). */
  lemma LiteralRoundTrip(s: string, rest: string)
    requires rest == [] || rest[0] != '\''
    ensures ReadLiteral(Literal(s) + rest) == Some((s, |Literal(s)|))
  {
    var t := Literal(s) + rest;
    assert t[1..] == Encode(s, DoubleQuote) + "'" + rest;
    ReadEncoded(t, 1, s, rest);
  }

  // The text that the escape loop in effect quotes: 0x00 and 0x1A become two characters.
  function NameControl(c: char): string {
    if c == NUL then "\\0" else if c == SUB then "\\Z" else [c]
  }

  lemma {:induction false} EncodeAppend(s: string, t: string, code: char -> string)
    ensures Encode(s + t, code) == Encode(s, code) + Encode(t, code)
  {
    if s == [] {
      assert s + t == t;
    } else {
      EncodeAppend(s[1..], t, code);
      assert (s + t)[1..] == s[1..] + t;
      Regroup(code(s[0]), Encode(s[1..], code), Encode(t, code));
    }
  }

  lemma Regroup(a: string, b: string, c: string)
    ensures a + (b + c) == a + b + c
  {
  }

  lemma {:induction false} EscapeIsNameThenDouble(s: string)
    ensures Encode(s, EscapeControl) == Encode(Encode(s, NameControl), DoubleQuote)
  {
    if s != [] {
      EscapeIsNameThenDouble(s[1..]);
      EncodeAppend(NameControl(s[0]), Encode(s[1..], NameControl), DoubleQuote);
      EscapeOne(s[0]);
    }
  }

  lemma EscapeOne(c: char)
    ensures Encode(NameControl(c), DoubleQuote) == EscapeControl(c)
  {
    var u := NameControl(c);
    assert |u| == 1 ==> u[1..] == [];
    assert |u| == 2 ==> u[1..] == [u[1]] && u[1..][1..] == [];
    assert |u| == 2 ==> Encode(u[1..], DoubleQuote) == DoubleQuote(u[1]);
  }

  lemma {:induction false} NamingChanges(s: string)
    ensures |Encode(s, NameControl)| == |s| + Count(s, {NUL, SUB})
    ensures Count(s, {NUL, SUB}) == 0 <==> NUL !in s && SUB !in s
    ensures Count(s, {NUL, SUB}) == 0 ==> Encode(s, NameControl) == s
  {
    if s != [] {
      NamingChanges(s[1..]);
      assert s == [s[0]] + s[1..];
    }
  }

  /** The drivers with the escape loop write a literal that reads back as the text if and
      only if the text holds neither 0x00 nor 0x1A. */
  lemma EscapedRoundTrip(s: string, rest: string)
    requires rest == [] || rest[0] != '\''
    ensures ReadLiteral(EscapedLiteral(s) + rest) == Some((s, |EscapedLiteral(s)|))
        <==> NUL !in s && SUB !in s
  {
    EscapeIsNameThenDouble(s);
    LiteralRoundTrip(Encode(s, NameControl), rest);
    NamingChanges(s);
  }

  // A reader that knows `\0` and `\Z`, and takes every other backslash for itself.
  function Unname(t: string): string {
    if t == [] then []
    else if |t| > 1 && t[0] == '\\' && t[1] == '0' then ['\U{0000}'] + Unname(t[2..])
    else if |t| > 1 && t[0] == '\\' && t[1] == 'Z' then ['\U{001A}'] + Unname(t[2..])
    else [t[0]] + Unname(t[1..])
  }

  // The text itself holds a backslash in front of a '0' or a 'Z'.
  predicate HoldsName(s: string) {
    exists i :: 0 <= i < |s| - 1 && s[i] == '\\' && (s[i + 1] == '0' || s[i + 1] == 'Z')
  }

  /** For such a reader 0x00 is `\0` and 0x1A is `\Z`: it gets the text back if and only if the text
      does not hold a `\0` or `\Z` of its own. */
  lemma EscapedNamesReadBack(s: string, rest: string)
    requires rest == [] || rest[0] != '\''
    ensures var r := ReadLiteral(EscapedLiteral(s) + rest);
      && r.Some? && r.value.1 == |EscapedLiteral(s)|
      && (Unname(r.value.0) == s <==> !HoldsName(s))
  {
    EscapeIsNameThenDouble(s);
    LiteralRoundTrip(Encode(s, NameControl), rest);
    NamesReadBack(s);
  }

  lemma {:induction false} NamesReadBack(s: string)
    ensures Unname(Encode(s, NameControl)) == s <==> !HoldsName(s)
    decreases |s|
  {
    if s != [] {
      if |s| > 1 && s[0] == '\\' && (s[1] == '0' || s[1] == 'Z') {
        NamePair(s);
      } else {
        NamesReadBack(s[1..]);
        NameOne(s);
        HoldsBehind(s);
      }
    }
  }

  // A backslash and a '0' or a 'Z' are read as one character.
  lemma NamePair(s: string)
    requires |s| > 1 && s[0] == '\\' && (s[1] == '0' || s[1] == 'Z')
    ensures Unname(Encode(s, NameControl)) != s && HoldsName(s)
  {
    var t := Encode(s, NameControl);
    assert Encode(s[1..], NameControl) == [s[1]] + Encode(s[1..][1..], NameControl);
    assert t == [s[0]] + ([s[1]] + Encode(s[1..][1..], NameControl));
    assert t[0] == '\\' && t[1] == s[1];
  }

  // Any other character is read back from what is written for it.
  lemma {:induction false} NameOne(s: string)
    requires s != [] && !(|s| > 1 && s[0] == '\\' && (s[1] == '0' || s[1] == 'Z'))
    ensures Unname(Encode(s, NameControl)) == [s[0]] + Unname(Encode(s[1..], NameControl))
  {
    var others := Encode(s[1..], NameControl);
    hide Unname;
    assert Encode(s, NameControl) == NameControl(s[0]) + others;
    if s[0] == NUL {
      UnnamePair('0', others);
    } else if s[0] == SUB {
      UnnamePair('Z', others);
    } else {
      NamesStart(s[1..]);
      UnnamePlain(s[0], others);
    }
  }

  lemma UnnamePair(c: char, others: string)
    requires c == '0' || c == 'Z'
    ensures Unname(['\\', c] + others) == [if c == '0' then NUL else SUB] + Unname(others)
  {
    assert (['\\', c] + others)[2..] == others;
  }

  lemma UnnamePlain(c: char, others: string)
    requires c == '\\' && others != [] ==> others[0] != '0' && others[0] != 'Z'
    ensures Unname([c] + others) == [c] + Unname(others)
  {
    assert ([c] + others)[1..] == others;
  }

  lemma NamesStart(s: string)
    ensures s == [] <==> Encode(s, NameControl) == []
    ensures s != [] ==> (Encode(s, NameControl)[0] == if s[0] == NUL || s[0] == SUB then '\\' else s[0])
  {
  }

  lemma HoldsBehind(s: string)
    requires s != [] && !(|s| > 1 && s[0] == '\\' && (s[1] == '0' || s[1] == 'Z'))
    ensures HoldsName(s) <==> HoldsName(s[1..])
  {
    if HoldsName(s[1..]) {
      var i :| 0 <= i < |s[1..]| - 1 && s[1..][i] == '\\' && (s[1..][i + 1] == '0' || s[1..][i + 1] == 'Z');
      assert s[i + 1] == '\\' && s[i + 1 + 1] == s[1..][i + 1];
    }
    if HoldsName(s) {
      var i :| 0 <= i < |s| - 1 && s[i] == '\\' && (s[i + 1] == '0' || s[i + 1] == 'Z');
      assert s[1..][i - 1] == '\\' && s[1..][i - 1 + 1] == s[i + 1];
    }
  }

  // ----- The quoters -----

  // dest[..len] holds the text, a NUL follows, and nothing behind it was written.
  ghost predicate Wrote(now: seq<char>, was: seq<char>, text: string)
  {
    |now| == |was| && |text| < |was| && now == text + [NUL] + was[|text| + 1..]
  }

  // One more character of the input, as text behind what was written before.
  lemma Advance(s: string, i: nat, code: char -> string, before: string, text: string)
    requires i < |s| && text == before + Encode(s[..i], code)
    ensures text + code(s[i]) == before + Encode(s[..i + 1], code)
    ensures |text| + |code(s[i])| <= |before| + |Encode(s, code)|
  {
    EncodeNext(s, i, code);
    EncodePrefix(s, i + 1, code);
  }

  // The text written so far stands at the start of dest and nothing behind it was written.
  ghost predicate Writing(now: seq<char>, was: seq<char>, text: string)
  {
    |text| <= |now| == |was| && now[..|text|] == text && now[|text|..] == was[|text|..]
  }

  lemma WriteOne(before: seq<char>, after: seq<char>, was: seq<char>, text: string, c: char)
    requires Writing(before, was, text) && |text| < |before| && after == before[|text| := c]
    ensures Writing(after, was, text + [c])
  {
    assert after[..|text| + 1] == before[..|text|] + [c];
    assert after[|text| + 1..] == before[|text|..][1..];
  }

  // `*p++ = c`
  method Put(dest: array<char>, p: nat, c: char, ghost was: seq<char>, ghost text: string) returns (p': nat)
    requires Writing(dest[..], was, text) && p == |text| < dest.Length
    modifies dest
    ensures Writing(dest[..], was, text + [c]) && p' == p + 1
  {
    WriteOne(dest[..], dest[..][p := c], was, text, c);
    dest[p] := c;
    p' := p + 1;
  }

  method Put2(dest: array<char>, p: nat, c: char, d: char, ghost was: seq<char>, ghost text: string) returns (p': nat)
    requires Writing(dest[..], was, text) && p == |text| && p + 1 < dest.Length
    modifies dest
    ensures Writing(dest[..], was, text + [c, d]) && p' == p + 2
  {
    p' := Put(dest, p, c, was, text);
    p' := Put(dest, p', d, was, text + [c]);
    assert text + [c, d] == text + [c] + [d];
  }

  /** `dbd_quote_string` of the Ingres driver; `orig` is NUL-terminated memory. */
  method IngresQuoteString(orig: seq<char>, dest: array<char>) returns (len: nat)
    requires Terminated(orig, 0) && |Literal(Str(orig, 0))| < dest.Length
    modifies dest
    ensures len == |Literal(Str(orig, 0))|
    ensures Wrote(dest[..], old(dest[..]), Literal(Str(orig, 0)))
  {
    ghost var s, was := Str(orig, 0), dest[..];
    var p := 0;
    p := Put(dest, p, '\'', was, []);
    var q := 0;
    ghost var text := "'";
    while orig[q] != NUL
      invariant q <= |s| && p == |text| && text == "'" + Encode(s[..q], DoubleQuote)
      invariant Writing(dest[..], was, text)
      decreases |s| - q
    {
      Advance(s, q, DoubleQuote, "'", text);
      if orig[q] == '\'' {
        p := Put2(dest, p, '\'', '\'', was, text);
      } else {
        p := Put(dest, p, orig[q], was, text);
      }
      text, q := text + DoubleQuote(orig[q]), q + 1;
    }
    assert s[..q] == s;
    p := Put(dest, p, '\'', was, text);
    PutNul(dest, p, was, text + "'");
    return p;
  }

  // `*p = '\0'`
  method PutNul(dest: array<char>, p: nat, ghost was: seq<char>, ghost text: string)
    requires Writing(dest[..], was, text) && p == |text| < dest.Length
    modifies dest
    ensures Wrote(dest[..], was, text)
  {
    dest[p] := NUL;
    assert dest[..] == text + [NUL] + was[p + 1..];
  }

  // A character, behind a quote if it is one.
  method PutDoubled(dest: array<char>, p: nat, c: char, ghost was: seq<char>, ghost text: string) returns (p': nat)
    requires Writing(dest[..], was, text) && p == |text| && p + |DoubleQuote(c)| <= dest.Length
    modifies dest
    ensures Writing(dest[..], was, text + DoubleQuote(c)) && p' == p + |DoubleQuote(c)|
  {
    p' := p;
    if c == '\'' {
      p' := Put(dest, p, '\'', was, text);
      assert text + "'" + [c] == text + DoubleQuote(c);
      p' := Put(dest, p', c, was, text + "'");
    } else {
      p' := Put(dest, p, c, was, text);
    }
  }

  /** `dbd_quote_string` of the Firebird driver: the loop copies the NUL too and counts it,
      and `strcat` then puts the closing quote in its place. */
  method FirebirdQuoteString(orig: seq<char>, dest: array<char>) returns (j: nat)
    requires Terminated(orig, 0) && |Literal(Str(orig, 0))| < dest.Length
    modifies dest
    ensures j == |Literal(Str(orig, 0))|
    ensures Wrote(dest[..], old(dest[..]), Literal(Str(orig, 0)))
  {
    ghost var s := Str(orig, 0);
    ghost var z := s + [NUL];
    var length := |Str(orig, 0)|;
    OpenLiteral(dest);
    ghost var was := dest[..];
    ghost var text := "'";
    var i := 0;
    j := 1;
    EncodeSnoc(s, NUL, DoubleQuote);
    while i <= length
      invariant 0 <= i <= length + 1 && j == |text| && text == "'" + Encode(z[..i], DoubleQuote)
      invariant Writing(dest[..], was, text)
    {
      Advance(z, i, DoubleQuote, "'", text);
      j := PutDoubled(dest, j, orig[i], was, text);
      text, i := text + DoubleQuote(orig[i]), i + 1;
    }
    assert z[..i] == z;
    assert text == "'" + Encode(s, DoubleQuote) + [NUL];
    EncodeNoNul(s, DoubleQuote);
    CloseLiteral(dest, was, s, DoubleQuote);
  }

  // `strcpy(dest, "'")`
  method OpenLiteral(dest: array<char>)
    requires dest.Length >= 2
    modifies dest
    ensures dest[..] == old(dest[..])[0 := '\''][1 := NUL]
    ensures Writing(dest[..], dest[..], "'")
  {
    dest[0], dest[1] := '\'', NUL;
  }

  // `strcat(dest, "'")` behind an opened literal
  method CloseLiteral(dest: array<char>, ghost was: seq<char>, ghost s: string, ghost code: char -> string)
    requires NUL !in Encode(s, code) && |Encode(s, code)| + 2 < dest.Length
    requires Writing(dest[..], was, "'" + Encode(s, code) + [NUL])
    modifies dest
    ensures Wrote(dest[..], was, "'" + Encode(s, code) + "'")
  {
    ghost var body := "'" + Encode(s, code);
    assert dest[..][..|body|] == (body + [NUL])[..|body|] == body;
    assert dest[|body|] == (body + [NUL])[|body|];
    StrIs(dest[..], 0, body);
    StrCat(dest, '\'');
  }

  /** `_dbd_freetds_escape_chars(dest + start, orig, orig_size, toescape)`: `toescape` is a
      NUL-terminated list of characters that get a quote in front. */
  method EscapeChars(dest: array<char>, start: nat, orig: seq<char>, origSize: nat, toescape: seq<char>)
    returns (len: nat)
    requires origSize <= |orig| && Terminated(toescape, 0) && start <= dest.Length
    requires start + |Encode(orig[..origSize], Prefixing(Str(toescape, 0)))| < dest.Length
    modifies dest
    ensures len == |Encode(orig[..origSize], Prefixing(Str(toescape, 0)))|
    ensures Writing(dest[..], old(dest[..]),
                    old(dest[..start]) + Encode(orig[..origSize], Prefixing(Str(toescape, 0))) + [NUL])
  {
    ghost var s, code, was := orig[..origSize], Prefixing(Str(toescape, 0)), dest[..];
    ghost var text := dest[..start];
    var curdest, curorig := start, 0;
    len := 0;
    while curorig < origSize
      invariant curorig <= origSize && curdest == start + len == |text|
      invariant text == was[..start] + Encode(s[..curorig], code)
      invariant Writing(dest[..], was, text)
    {
      Advance(s, curorig, code, was[..start], text);
      var found := Listed(orig[curorig], toescape);
      ghost var next := text + code(orig[curorig]);
      if found {
        curdest := Put(dest, curdest, '\'', was, text);
        text, len := text + "'", len + 1;
      }
      assert text + [orig[curorig]] == next;
      curdest := Put(dest, curdest, orig[curorig], was, text);
      text, curorig, len := next, curorig + 1, len + 1;
    }
    assert s[..curorig] == s;
    curdest := Put(dest, curdest, NUL, was, text);
  }

  // The inner loop of `_dbd_freetds_escape_chars`.
  method Listed(c: char, toescape: seq<char>) returns (found: bool)
    requires Terminated(toescape, 0)
    ensures found <==> c in Str(toescape, 0)
  {
    var curescaped := 0;
    while toescape[curescaped] != NUL
      invariant curescaped <= |Str(toescape, 0)| && c !in Str(toescape, 0)[..curescaped]
      decreases |Str(toescape, 0)| - curescaped
    {
      if c == toescape[curescaped] {
        return true;
      }
      curescaped := curescaped + 1;
    }
    return false;
  }

  function Prefixing(these: string): char -> string {
    c => if c in these then ['\'', c] else [c]
  }

  /** `dbd_quote_string` of the FreeTDS driver. */
  method FreetdsQuoteString(orig: seq<char>, dest: array<char>) returns (len: nat)
    requires Terminated(orig, 0) && |Literal(Str(orig, 0))| < dest.Length
    modifies dest
    ensures len == |Literal(Str(orig, 0))|
    ensures Wrote(dest[..], old(dest[..]), Literal(Str(orig, 0)))
  {
    hide Encode;
    ghost var s := Str(orig, 0);
    var escaped := ['\'', NUL];
    StrIs(escaped, 0, "'");
    EncodeSame(s, Prefixing("'"), DoubleQuote);
    OpenLiteral(dest);
    ghost var was := dest[..];
    len := EscapeChars(dest, 1, orig, |Str(orig, 0)|, escaped);
    EncodeNoNul(s, DoubleQuote);
    CloseLiteral(dest, was, s, DoubleQuote);
    len := len + 2;
  }

  /** `sqlite3_escape_string(to + start, from, length)`; the SQLite and Oracle drivers carry
      the same code. `from` may hold any bytes. */
  method EscapeString(to: array<char>, start: nat, from: seq<char>, length: nat) returns (len: nat)
    requires length <= |from| && start <= to.Length
    requires start + |Encode(from[..length], EscapeControl)| < to.Length
    modifies to
    ensures len == |Encode(from[..length], EscapeControl)|
    ensures Writing(to[..], old(to[..]), old(to[..start]) + Encode(from[..length], EscapeControl) + [NUL])
  {
    ghost var s, was := from[..length], to[..];
    ghost var text := to[..start];
    var p, i := start, 0;
    while i != length
      invariant i <= length && p == |text| && text == was[..start] + Encode(s[..i], EscapeControl)
      invariant Writing(to[..], was, text)
    {
      Advance(s, i, EscapeControl, was[..start], text);
      if from[i] == NUL {
        p := Put2(to, p, '\\', '0', was, text);
      } else if from[i] == '\'' {
        p := Put2(to, p, '\'', '\'', was, text);
      } else if from[i] == SUB {
        p := Put2(to, p, '\\', 'Z', was, text);
      } else {
        p := Put(to, p, from[i], was, text);
      }
      text, i := text + EscapeControl(from[i]), i + 1;
    }
    assert s[..i] == s;
    len := p - start;
    p := Put(to, p, NUL, was, text);
  }

  /** `dbd_quote_string` of the SQLite, SQLite3 and Oracle drivers. */
  method EscapingQuoteString(orig: seq<char>, dest: array<char>) returns (len: nat)
    requires Terminated(orig, 0) && |EscapedLiteral(Str(orig, 0))| < dest.Length
    modifies dest
    ensures len == |EscapedLiteral(Str(orig, 0))|
    ensures Wrote(dest[..], old(dest[..]), EscapedLiteral(Str(orig, 0)))
  {
    ghost var s := Str(orig, 0);
    OpenLiteral(dest);
    ghost var was := dest[..];
    len := EscapeString(dest, 1, orig, |Str(orig, 0)|);
    EncodeNoNul(s, EscapeControl);
    CloseLiteral(dest, was, s, EscapeControl);
    len := len + 2;
  }

  // ----- Binary literals of the Ingres driver -----

  const HEX := "0123456789ABCDEF"

  function HexPair(b: int): string
    requires 0 <= b < 256
  {
    [HEX[b / 16], HEX[b % 16]]
  }

  predicate Bytes(s: seq<int>) {
    forall i | 0 <= i < |s| :: 0 <= s[i] < 256
  }

  function HexBody(s: seq<int>): (t: string)
    requires Bytes(s)
    ensures |t| == 2 * |s|
  {
    if s == [] then [] else HexBody(s[..|s| - 1]) + HexPair(s[|s| - 1])
  }

  function HexLiteral(s: seq<int>): string
    requires Bytes(s)
  {
    "X'" + HexBody(s) + "'"
  }

  function HexDigit(c: char): Option<int> {
    if '0' <= c <= '9' then Some(c as int - '0' as int)
    else if 'A' <= c <= 'F' then Some(c as int - 'A' as int + 10)
    else None
  }

  // The bytes denoted by the hexadecimal digits t; None when t is not a list of digit pairs.
  function DecodeHex(t: string): Option<seq<int>> {
    if t == [] then
      Some([])
    else if |t| == 1 then
      None
    else
      match (DecodeHex(t[..|t| - 2]), HexDigit(t[|t| - 2]), HexDigit(t[|t| - 1]))
      case (Some(s), Some(hi), Some(lo)) => Some(s + [16 * hi + lo])
      case _ => None
  }

  // A reader of binary literals: X, and digit pairs between two quotes.
  function ReadHexLiteral(t: string): Option<seq<int>> {
    if |t| >= 3 && t[0] == 'X' && t[1] == '\'' && t[|t| - 1] == '\'' then DecodeHex(t[2..|t| - 1]) else None
  }

  /** A binary literal reads back as the bytes. */
  lemma HexLiteralRoundTrip(s: seq<int>)
    requires Bytes(s)
    ensures ReadHexLiteral(HexLiteral(s)) == Some(s)
  {
    var t := HexLiteral(s);
    HexRoundTrip(s);
    assert t[2..|t| - 1] == HexBody(s);
  }

  lemma HexDigitOf(d: int)
    requires 0 <= d < 16
    ensures HexDigit(HEX[d]) == Some(d)
  {
  }

  lemma DecodePair(t: string, b: int)
    requires 0 <= b < 256 && DecodeHex(t).Some?
    ensures DecodeHex(t + HexPair(b)) == Some(DecodeHex(t).value + [b])
  {
    hide HexDigit;
    var u, hi, lo := t + HexPair(b), b / 16, b % 16;
    assert u[..|u| - 2] == t && u[|u| - 2] == HEX[hi] && u[|u| - 1] == HEX[lo];
    HexDigitOf(hi);
    HexDigitOf(lo);
  }

  lemma DecodeLast(front: seq<int>, last: int)
    requires Bytes(front) && 0 <= last < 256 && DecodeHex(HexBody(front)) == Some(front)
    ensures Bytes(front + [last]) && DecodeHex(HexBody(front + [last])) == Some(front + [last])
  {
    hide DecodeHex, HexPair;
    var s := front + [last];
    assert s[..|s| - 1] == front && s[|s| - 1] == last;
    DecodePair(HexBody(front), last);
  }

  lemma {:induction false} HexRoundTrip(s: seq<int>)
    requires Bytes(s)
    ensures DecodeHex(HexBody(s)) == Some(s)
  {
    if s != [] {
      HexRoundTrip(s[..|s| - 1]);
      DecodeWhole(s);
    }
  }

  lemma {:induction false} DecodeWhole(s: seq<int>)
    requires Bytes(s) && s != [] && DecodeHex(HexBody(s[..|s| - 1])) == Some(s[..|s| - 1])
    ensures DecodeHex(HexBody(s)) == Some(s)
  {
    hide DecodeHex, HexBody;
    var front, last := s[..|s| - 1], s[|s| - 1];
    DecodeLast(front, last);
    assert s == front + [last];
  }

  /** `dbd_quote_binary` of the Ingres driver: the block it allocates is filled exactly. */
  method IngresQuoteBinary(orig: seq<int>, fromLength: nat) returns (dest: array<char>, toLength: nat)
    requires fromLength <= |orig| && Bytes(orig)
    ensures fresh(dest) && toLength == dest.Length == 2 * fromLength + 4
    ensures dest[..] == HexLiteral(orig[..fromLength]) + [NUL]
  {
    toLength := fromLength * 2 + 4;
    dest := new char[toLength];
    ghost var was := dest[..];
    ghost var text: string := [];
    var p := Put2(dest, 0, 'X', '\'', was, text);
    var q := 0;
    text := "X'";
    while q < fromLength
      invariant q <= fromLength && p == |text| && text == "X'" + HexBody(orig[..q])
      invariant Writing(dest[..], was, text)
    {
      p := Put2(dest, p, HEX[orig[q] / 16], HEX[orig[q] % 16], was, text);
      assert orig[..q + 1][..q] == orig[..q];
      assert text + HexPair(orig[q]) == "X'" + HexBody(orig[..q + 1]);
      text, q := text + HexPair(orig[q]), q + 1;
    }
    p := Put(dest, p, '\'', was, text);
    p := Put(dest, p, NUL, was, text + "'");
    assert dest[..] == dest[..p];
  }
}

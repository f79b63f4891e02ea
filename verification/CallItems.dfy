// Items of a select list that are function calls or bracketed expressions: how the alias loop
// finds their end, and what it keeps of them.
module CallItems {
  import opened Options
  import opened CString
  import opened Strtok
  import opened Aliases
  import opened PrintedTokens
  import ST = SelectTables

  // ----- Brackets that the last character closes -----

  function Step(c: char, opens: nat): nat
    requires opens > 0
  {
    if c == '(' then opens + 1 else if c == ')' then opens - 1 else opens
  }

  // The open brackets are closed by the last character of s, and not before.
  predicate Shut(s: string, opens: nat) {
    s != [] && opens > 0 &&
    if |s| == 1 then Step(s[0], opens) == 0 else Shut(s[1..], Step(s[0], opens))
  }

  // Fewer brackets are closed as well.
  lemma {:induction false} ShutOpens(s: string, opens: nat, fewer: nat)
    requires Shut(s, opens) && fewer <= opens
    ensures Opens(s, fewer) == 0
  {
    if |s| > 1 && fewer > 0 {
      ShutOpens(s[1..], Step(s[0], opens), Step(s[0], fewer));
    }
  }

  lemma {:induction false} OpensClosed(s: string, t: string, opens: nat)
    requires Opens(s, opens) == 0
    ensures Opens(s + t, opens) == 0
  {
    if s != [] && opens > 0 {
      assert (s + t)[1..] == s[1..] + t;
      OpensClosed(s[1..], t, Step(s[0], opens));
    }
  }

  lemma {:induction false} ShutSplit(a: string, b: string, opens: nat)
    requires Shut(a + b, opens) && b != []
    ensures Opens(a, opens) > 0 && Shut(b, Opens(a, opens))
  {
    if a == [] {
      assert a + b == b;
    } else {
      assert (a + b)[1..] == a[1..] + b;
      ShutSplit(a[1..], b, Step(a[0], opens));
    }
  }

  // Any text with balanced brackets is shut by one more bracket.
  lemma {:induction false} BalancedIsShut(a: string, d: nat)
    requires ST.Depth(a, d) == Some(0)
    ensures Shut(a + ")", d + 1)
    decreases |a|
  {
    if a == [] {
      assert a + ")" == ")";
    } else {
      assert (a + ")")[1..] == a[1..] + ")";
      BalancedIsShut(a[1..], Step(a[0], d + 1) - 1);
    }
  }

  lemma {:induction false} LastChar(s: string, opens: nat)
    requires Shut(s, opens)
    ensures s[|s| - 1] == ')'
  {
    if |s| > 1 {
      LastChar(s[1..], Step(s[0], opens));
    }
  }

  predicate EndsShut(s: string) {
    s != [] && s[|s| - 1] == ')'
  }

  lemma ClosingStep(t: string, tokens: seq<string>, opens: nat)
    ensures Closing([t] + tokens, opens)
         == if Opens(t, opens) == 0 then Some((t, tokens)) else Closing(tokens, Opens(t, opens))
  {
    assert ([t] + tokens)[1..] == tokens;
  }

  // The tokens from here on close the brackets with their last one, in front of `rest`.
  ghost predicate ClosedBefore(s: string, rest: string, opens: nat) {
    var c := Closing(Tokens(s + rest, DELIMS), opens);
    c.Some? && c.value.1 == Tokens(rest, DELIMS) && EndsShut(c.value.0)
  }

  // The tokens up to the one that closes the brackets are those of the text that they shut.
  lemma {:induction false} ClosingOfShut(s: string, rest: string, opens: nat)
    requires Shut(s, opens) && Apart(rest)
    ensures ClosedBefore(s, rest, opens)
    decreases |s|
  {
    if s[0] in DELIMS {
      ClosingOfShut(s[1..], rest, opens);
      ClosedAtDelim(s, rest, opens);
    } else {
      var t := TokenOf(s, DELIMS);
      var others := s[|t|..];
      FirstToken(s, rest, t, others);
      if others == [] {
        assert t == s;
        ClosedAtEnd(s, rest, opens);
      } else {
        ShutSplit(t, others, opens);
        ClosingOfShut(others, rest, Opens(t, opens));
        ClosingStep(t, Tokens(others + rest, DELIMS), opens);
      }
    }
  }

  lemma ClosedAtDelim(s: string, rest: string, opens: nat)
    requires s != [] && s[0] in DELIMS && ClosedBefore(s[1..], rest, opens)
    ensures ClosedBefore(s, rest, opens)
  {
    assert s + rest == [s[0]] + (s[1..] + rest);
    TokensDelim(s[0], s[1..] + rest);
  }

  lemma {:induction false} ClosedAtEnd(s: string, rest: string, opens: nat)
    requires Shut(s, opens) && Tokens(s + rest, DELIMS) == [s] + Tokens([] + rest, DELIMS)
    ensures ClosedBefore(s, rest, opens)
  {
    assert [] + rest == rest;
    ShutOpens(s, opens, opens);
    LastChar(s, opens);
    ClosingStep(s, Tokens(rest, DELIMS), opens);
  }

  // ----- Brackets that are never closed -----

  lemma {:induction false} OpensSplit(a: string, b: string, opens: nat)
    requires Opens(a, opens) > 0
    ensures Opens(a + b, opens) == Opens(b, Opens(a, opens))
  {
    if a == [] {
      assert a + b == b;
    } else {
      assert (a + b)[1..] == a[1..] + b;
      OpensSplit(a[1..], b, Step(a[0], opens));
    }
  }

  lemma {:induction false} DepthOpens(s: string, d: nat)
    requires ST.Depth(s, d).Some?
    ensures Opens(s, d + 1) == ST.Depth(s, d).value + 1
  {
    if s != [] {
      DepthOpens(s[1..], if s[0] == '(' then d + 1 else if s[0] == ')' then d - 1 else d);
    }
  }

  lemma {:induction false} ClosingOfOpen(s: string, opens: nat)
    requires Opens(s, opens) > 0
    ensures Closing(Tokens(s, DELIMS), opens) == None
    decreases |s|
  {
    if s == [] {
      assert Tokens(s, DELIMS) == [];
    } else if s[0] in DELIMS {
      assert s == [s[0]] + s[1..];
      TokensDelim(s[0], s[1..]);
      ClosingOfOpen(s[1..], opens);
    } else {
      var t := TokenOf(s, DELIMS);
      TokensOf(s);
      OpensBefore(t, s[|t|..], opens);
      OpensSplit(t, s[|t|..], opens);
      ClosingOfOpen(s[|t|..], Opens(t, opens));
      ClosingStep(t, Tokens(s[|t|..], DELIMS), opens);
    }
  }

  lemma OpensBefore(a: string, b: string, opens: nat)
    requires Opens(a + b, opens) > 0
    ensures Opens(a, opens) > 0
  {
    if Opens(a, opens) == 0 {
      OpensClosed(a, b, opens);
    }
  }

  // The item that starts with an open bracket in front of this text has no end.
  lemma {:induction false} OpenNeverCloses(inside: string)
    requires ST.Depth(inside, 0).Some?
    ensures var t := TokenOf(inside, DELIMS);
      Opens(t, 1) > 0 && Closing(Tokens(inside[|t|..], DELIMS), Opens(t, 1)) == None
  {
    var t := TokenOf(inside, DELIMS);
    TokenIsPrefix(inside, DELIMS);
    DepthOpens(inside, 0);
    assert inside == t + inside[|t|..];
    OpensBefore(t, inside[|t|..], 1);
    OpensSplit(t, inside[|t|..], 1);
    ClosingOfOpen(inside[|t|..], Opens(t, 1));
  }

  lemma {:induction false} OpenTokens(head: string, inside: string)
    requires ValidHead(head)
    ensures var t := TokenOf(inside, DELIMS);
      Tokens(head + ("(" + inside), DELIMS) == [head + ("(" + t)] + Tokens(inside[|t|..], DELIMS)
  {
    var t := TokenOf(inside, DELIMS);
    var kept, others := head + ("(" + t), inside[|t|..];
    TokenIsPrefix(inside, DELIMS);
    assert head + ("(" + inside) == kept + others;
    assert "(" == ['('] && '(' !in DELIMS;
    TokensWord(kept, others);
  }

  // ----- Calls -----

  // A call, or with an empty head a bracketed expression.
  function CallText(head: string, inside: string): string {
    head + ("(" + (inside + ")"))
  }

  // Its first token.
  function Kept(head: string, inside: string): string {
    head + ("(" + TokenOf(inside + ")", DELIMS))
  }

  // What is behind the first token, up to the last bracket.
  function Others(inside: string): string {
    (inside + ")")[|TokenOf(inside + ")", DELIMS)|..]
  }

  predicate ValidHead(head: string) {
    head == [] || Plain(head)
  }

  /** A call in which the loop reads nothing as a keyword. */
  predicate ValidCall(head: string, inside: string) {
    ValidHead(head) && ST.Balanced(inside) && OnlyStores(CallTokens(head, inside))
  }

  function CallTokens(head: string, inside: string): seq<string> {
    Tokens(CallText(head, inside), DELIMS)
  }

  // What the loop stores last of the tokens.
  function LastStored(tokens: seq<string>): string
    decreases |tokens|
  {
    if tokens == [] then ""
    else
      var token := Unqualify(tokens[0]);
      match ItemEnd(token, tokens[1..])
      case None => ""
      case Some((_, others)) => if others == [] then token else LastStored(others)
  }

  // The loop stores one item after the other, and reads no token as "as" or "from".
  predicate OnlyStores(tokens: seq<string>)
    decreases |tokens|
  {
    tokens == [] ||
    var token := Unqualify(tokens[0]);
    match ItemEnd(token, tokens[1..])
    case None => false
    case Some((last, others)) => token !in ASES && last !in FROMS && OnlyStores(others)
  }

  lemma SplitCall(head: string, inside: string, rest: string)
    ensures CallText(head, inside) + rest == Kept(head, inside) + (Others(inside) + rest)
    ensures Others(inside) == [] || Others(inside)[0] in DELIMS
  {
    var t := TokenOf(inside + ")", DELIMS);
    TokenAndOthers(inside);
    assert head + ("(" + (t + Others(inside))) + rest == head + ("(" + t) + (Others(inside) + rest);
  }

  lemma TokenAndOthers(inside: string)
    ensures inside + ")" == TokenOf(inside + ")", DELIMS) + Others(inside)
    ensures Others(inside) == [] || Others(inside)[0] in DELIMS
  {
    TokenIsPrefix(inside + ")", DELIMS);
  }

  lemma FirstOfCall(head: string, inside: string)
    requires ValidHead(head)
    ensures CallTokens(head, inside) == [Kept(head, inside)] + Tokens(Others(inside), DELIMS)
  {
    SplitCall(head, inside, "");
    assert CallText(head, inside) + "" == CallText(head, inside) && Others(inside) + "" == Others(inside);
    assert "(" == ['('] && '(' !in DELIMS;
    TokensWord(Kept(head, inside), Others(inside));
  }

  lemma KeptEnd(head: string, inside: string, tokens: seq<string>)
    requires ValidHead(head)
    ensures var t := TokenOf(inside + ")", DELIMS);
      ItemEnd(Kept(head, inside), tokens)
      == if Opens(t, 1) == 0 then Some((Kept(head, inside), tokens)) else Closing(tokens, Opens(t, 1))
  {
    CharBehind(head, '(', TokenOf(inside + ")", DELIMS));
  }

  // Without a '.' in front, the item ends with the bracket that closes it, over all its tokens.
  lemma UndottedEnd(head: string, inside: string, rest: string)
    requires ValidHead(head) && ST.Balanced(inside) && Apart(rest)
    ensures var end := ItemEnd(Kept(head, inside), Tokens(Others(inside) + rest, DELIMS));
      end.Some? && end.value.1 == Tokens(rest, DELIMS) && EndsShut(end.value.0)
  {
    var t, others := TokenOf(inside + ")", DELIMS), Others(inside);
    BalancedIsShut(inside, 0);
    TokenAndOthers(inside);
    KeptEnd(head, inside, Tokens(others + rest, DELIMS));
    if others == [] {
      assert t == inside + ")" && others + rest == rest;
      ShutOpens(t, 1, 1);
    } else {
      ShutSplit(t, others, 1);
      ClosingOfShut(others, rest, Opens(t, 1));
      assert ClosedBefore(others, rest, Opens(t, 1));
    }
  }

  lemma {:induction false} BehindIs(s: string, c: char)
    requires BehindChar(s, c).Some?
    ensures var t := BehindChar(s, c).value;
      var a := s[..|s| - |t| - 1];
      c !in a && s == a + ([c] + t)
  {
    if s[0] != c {
      BehindIs(s[1..], c);
    }
  }

  lemma {:induction false} BehindSkips(a: string, b: string, c: char)
    requires c !in a
    ensures BehindChar(a + b, c) == BehindChar(b, c)
  {
    if a == [] {
      assert a + b == b;
    } else {
      assert (a + b)[1..] == a[1..] + b;
      BehindSkips(a[1..], b, c);
    }
  }

  lemma {:induction false} HasChar(s: string, c: char)
    requires c in s
    ensures BehindChar(s, c).Some?
  {
    if s[0] != c {
      HasChar(s[1..], c);
    }
  }

  // ----- What is stored of a call -----

  /** Without a '.' in its first token a call is one item, which that token stands for. */
  lemma UndottedStores(head: string, inside: string)
    requires ValidHead(head) && ST.Balanced(inside) && '.' !in Kept(head, inside)
    ensures OnlyStores(CallTokens(head, inside)) && LastStored(CallTokens(head, inside)) == Kept(head, inside)
  {
    var kept, tokens := Kept(head, inside), Tokens(Others(inside), DELIMS);
    FirstOfCall(head, inside);
    assert CallTokens(head, inside)[1..] == tokens;
    NoChar(kept, '.');
    UndottedEnd(head, inside, "");
    assert Others(inside) + "" == Others(inside) && Tokens("", DELIMS) == [];
    NotAKeyword(kept, '(');
    NotAKeyword(ItemEnd(kept, tokens).value.0, ')');
  }

  lemma NotAKeyword(token: string, c: char)
    requires c in token && (c == '(' || c == ')')
    ensures token !in ASES && token !in FROMS
  {
    assert forall w | w in ASES + FROMS :: '(' !in w && ')' !in w;
  }

  lemma {:induction false} StoredIsToken(tokens: seq<string>)
    ensures LastStored(tokens) != [] ==> exists token | token in tokens :: Unqualify(token) == LastStored(tokens)
    decreases |tokens|
  {
    if tokens != [] {
      var end := ItemEnd(Unqualify(tokens[0]), tokens[1..]);
      if end.Some? && end.value.1 != [] {
        StoredIsToken(end.value.1);
        OthersAreTokens(Unqualify(tokens[0]), tokens[1..]);
      }
    }
  }

  lemma OthersAreTokens(token: string, tokens: seq<string>)
    requires ItemEnd(token, tokens).Some?
    ensures forall t | t in ItemEnd(token, tokens).value.1 :: t in tokens
  {
    var inside := BehindChar(token, '(');
    if inside.Some? && Opens(inside.value, 1) > 0 {
      ClosingIsSuffix(tokens, Opens(inside.value, 1));
    }
  }

  lemma {:induction false} ClosingIsSuffix(tokens: seq<string>, opens: nat)
    requires Closing(tokens, opens).Some?
    ensures forall t | t in Closing(tokens, opens).value.1 :: t in tokens
  {
    if Opens(tokens[0], opens) > 0 {
      ClosingIsSuffix(tokens[1..], Opens(tokens[0], opens));
    }
  }

  // Without a bracket, what is stored last is the last token.
  lemma {:induction false} StoredWithoutBracket(tokens: seq<string>)
    requires tokens != [] && OnlyStores(tokens) && BehindChar(LastStored(tokens), '(') == None
    ensures LastStored(tokens) == Unqualify(tokens[|tokens| - 1])
    decreases |tokens|
  {
    var (last, others) := ItemEnd(Unqualify(tokens[0]), tokens[1..]).value;
    if others == [] {
      assert others == tokens[1..];
    } else {
      StoredWithoutBracket(others);
      LastOfOthers(Unqualify(tokens[0]), tokens[1..]);
    }
  }

  lemma LastOfOthers(token: string, tokens: seq<string>)
    requires ItemEnd(token, tokens).Some? && ItemEnd(token, tokens).value.1 != []
    ensures var others := ItemEnd(token, tokens).value.1;
      tokens != [] && others[|others| - 1] == tokens[|tokens| - 1]
  {
    var inside := BehindChar(token, '(');
    if inside.Some? && Opens(inside.value, 1) > 0 {
      LastOfClosing(tokens, Opens(inside.value, 1));
    }
  }

  lemma {:induction false} LastOfClosing(tokens: seq<string>, opens: nat)
    requires Closing(tokens, opens).Some? && Closing(tokens, opens).value.1 != []
    ensures var others := Closing(tokens, opens).value.1; others[|others| - 1] == tokens[|tokens| - 1]
  {
    if Opens(tokens[0], opens) > 0 {
      LastOfClosing(tokens[1..], Opens(tokens[0], opens));
    }
  }

  // The last token of a text that ends with a bracket ends with it.
  lemma {:induction false} LastToken(s: string)
    requires EndsShut(s)
    ensures var tokens := Tokens(s, DELIMS); tokens != [] && EndsShut(tokens[|tokens| - 1])
    decreases |s|
  {
    if s[0] in DELIMS {
      assert s == [s[0]] + s[1..];
      TokensDelim(s[0], s[1..]);
      LastToken(s[1..]);
    } else {
      var t := TokenOf(s, DELIMS);
      var others := s[|t|..];
      FirstToken(s, "", t, others);
      assert s + "" == s && others + "" == others;
      if others == [] {
        assert Tokens(others, DELIMS) == [];
      } else {
        LastToken(others);
      }
    }
  }

  lemma UnqualifiedEnds(token: string)
    requires EndsShut(token)
    ensures EndsShut(Unqualify(token))
  {
    if BehindChar(token, '.').Some? {
      BehindIs(token, '.');
      var t := BehindChar(token, '.').value;
      assert token == token[..|token| - |t| - 1] + (['.'] + t);
    }
  }

  // What is stored of a call without a bracket ends with the call's last one.
  lemma StoredEnds(head: string, inside: string)
    requires ValidCall(head, inside) && BehindChar(LastStored(CallTokens(head, inside)), '(') == None
    ensures EndsShut(LastStored(CallTokens(head, inside)))
  {
    var call, tokens := CallText(head, inside), CallTokens(head, inside);
    assert call[|call| - 1] == ')';
    LastToken(call);
    StoredWithoutBracket(tokens);
    UnqualifiedEnds(tokens[|tokens| - 1]);
  }

  // ----- Calls without keywords -----

  predicate NoKeyword(token: string) {
    token !in FROMS && Unqualify(token) !in ASES + FROMS
  }

  predicate NoKeywords(tokens: seq<string>) {
    forall token | token in tokens :: NoKeyword(token)
  }

  lemma {:induction false} OpensMore(s: string, fewer: nat, opens: nat)
    requires fewer <= opens
    ensures Opens(s, fewer) <= Opens(s, opens)
  {
    if s != [] && fewer > 0 {
      OpensMore(s[1..], Step(s[0], fewer), Step(s[0], opens));
    }
  }

  // A text that its brackets shut, or nothing.
  ghost predicate ShutOrEmpty(s: string) {
    s == [] || exists n: nat :: Shut(s, n)
  }

  lemma ShutBehind(a: string, b: string, opens: nat)
    requires Shut(a + b, opens)
    ensures ShutOrEmpty(b)
  {
    if b != [] {
      ShutSplit(a, b, opens);
    }
  }

  // In a text that is shut, fewer open brackets are closed by some token, in front of a text that
  // is shut again.
  lemma {:induction false} ClosesWithin(s: string, opens: nat, fewer: nat) returns (left: string)
    requires Shut(s, opens) && 0 < fewer <= opens
    ensures |left| < |s| && ShutOrEmpty(left)
    ensures var c := Closing(Tokens(s, DELIMS), fewer); c.Some? && c.value.1 == Tokens(left, DELIMS)
    ensures Closing(Tokens(s, DELIMS), fewer).value.0 in Tokens(s, DELIMS)
    decreases |s|
  {
    if s[0] in DELIMS {
      assert s == [s[0]] + s[1..];
      TokensDelim(s[0], s[1..]);
      left := ClosesWithin(s[1..], opens, fewer);
    } else {
      var t := TokenOf(s, DELIMS);
      left := s[|t|..];
      TokensOf(s);
      ClosingStep(t, Tokens(left, DELIMS), fewer);
      if Opens(t, fewer) == 0 {
        ShutBehind(t, left, opens);
      } else {
        if left == [] {
          assert t == s;
          ShutOpens(s, opens, fewer);
        }
        ShutSplit(t, left, opens);
        OpensMore(t, fewer, opens);
        left := ClosesWithin(left, Opens(t, opens), Opens(t, fewer));
      }
    }
  }

  lemma {:induction false} TokensOf(s: string)
    requires s != [] && s[0] !in DELIMS
    ensures var t := TokenOf(s, DELIMS);
      s == t + s[|t|..] && Tokens(s, DELIMS) == [t] + Tokens(s[|t|..], DELIMS) && t != []
  {
    var t := TokenOf(s, DELIMS);
    FirstToken(s, "", t, s[|t|..]);
    assert s + "" == s && s[|t|..] + "" == s[|t|..];
  }

  // The item that starts with what is left of a token t ends in front of a text that is shut.
  lemma ItemWithin(y: string, token: string, others: string, opens: nat) returns (left: string)
    requires Shut(y + (token + others), opens) && token + others != []
    requires others == [] || others[0] in DELIMS
    ensures |left| <= |others| && ShutOrEmpty(left)
    ensures var end := ItemEnd(token, Tokens(others, DELIMS));
      end.Some? && end.value.1 == Tokens(left, DELIMS)
      && (end.value.0 == token || end.value.0 in Tokens(others, DELIMS))
  {
    ShutSplit(y, token + others, opens);
    var n := Opens(y, opens);
    left := others;
    var inside := BehindChar(token, '(');
    if inside == None {
      ShutBehind(token, others, n);
    } else {
      BehindIs(token, '(');
      left := BracketWithin(token[..|token| - |inside.value| - 1], inside.value, others, n);
    }
  }

  lemma BracketWithin(a: string, b: string, others: string, opens: nat) returns (left: string)
    requires Shut(a + (['('] + b) + others, opens) && (others == [] || others[0] in DELIMS)
    ensures |left| <= |others| && ShutOrEmpty(left)
    ensures if Opens(b, 1) == 0 then left == others
            else var c := Closing(Tokens(others, DELIMS), Opens(b, 1));
              c.Some? && c.value.1 == Tokens(left, DELIMS) && c.value.0 in Tokens(others, DELIMS)
  {
    var rest := ['('] + (b + others);
    assert a + (['('] + b) + others == a + rest;
    ShutSplit(a, rest, opens);
    var n := Opens(a, opens) + 1;
    assert rest[1..] == b + others;
    assert Shut(b + others, n);
    left := others;
    if Opens(b, 1) == 0 {
      ShutBehind(b, others, n);
    } else {
      if others == [] {
        assert b + others == b;
        ShutOpens(b, n, 1);
      }
      ShutSplit(b, others, n);
      OpensMore(b, 1, n);
      left := ClosesWithin(others, Opens(b, n), Opens(b, 1));
    }
  }

  lemma {:induction false} ShutStores(s: string)
    requires ShutOrEmpty(s) && NoKeywords(Tokens(s, DELIMS))
    ensures OnlyStores(Tokens(s, DELIMS))
    decreases |s|
  {
    if s == [] {
      assert Tokens(s, DELIMS) == [];
    } else {
      var n: nat :| Shut(s, n);
      if s[0] in DELIMS {
        assert s == [s[0]] + s[1..];
        TokensDelim(s[0], s[1..]);
        assert |s| > 1;
        assert Shut(s[1..], n);
        ShutStores(s[1..]);
      } else {
        ShutStoresToken(s, n);
      }
    }
  }

  lemma {:induction false} ShutStoresToken(s: string, n: nat)
    requires Shut(s, n) && s[0] !in DELIMS && NoKeywords(Tokens(s, DELIMS))
    ensures OnlyStores(Tokens(s, DELIMS))
    decreases |s|, 0
  {
    var t := TokenOf(s, DELIMS);
    var others := s[|t|..];
    TokensOf(s);
    var left := FirstItemWithin(s, n, t, others);
    ShutStores(left);
    FirstStored(t, Tokens(others, DELIMS), Tokens(left, DELIMS));
  }

  lemma FirstItemWithin(s: string, n: nat, t: string, others: string) returns (left: string)
    requires Shut(s, n) && s[0] !in DELIMS && t == TokenOf(s, DELIMS) && others == s[|t|..] && s == t + others
    requires NoKeywords([t] + Tokens(others, DELIMS))
    ensures |left| < |s| && ShutOrEmpty(left) && NoKeywords(Tokens(left, DELIMS))
    ensures var end := ItemEnd(Unqualify(t), Tokens(others, DELIMS));
      end.Some? && end.value.1 == Tokens(left, DELIMS) && end.value.0 !in FROMS
  {
    hide Tokens, TokenOf, ItemEnd, Unqualify;
    var token, tokens := Unqualify(t), Tokens(others, DELIMS);
    TokenIsPrefix(s, DELIMS);
    LastChar(s, n);
    var y := CutFront(t);
    assert s == y + (token + others);
    assert token + others == [] ==> s == y;
    left := ItemWithin(y, token, others, n);
    OthersAreTokens(token, tokens);
    assert forall x | x in tokens :: x in [t] + tokens;
    assert NoKeyword(([t] + tokens)[0]);
  }

  lemma FirstStored(t: string, tokens: seq<string>, others: seq<string>)
    requires NoKeyword(t) && OnlyStores(others)
    requires var end := ItemEnd(Unqualify(t), tokens);
      end.Some? && end.value.1 == others && end.value.0 !in FROMS
    ensures OnlyStores([t] + tokens)
  {
    assert ([t] + tokens)[1..] == tokens;
  }

  lemma CutFront(t: string) returns (y: string)
    ensures t == y + Unqualify(t) && (y != [] ==> y[|y| - 1] == '.')
  {
    y := [];
    if BehindChar(t, '.').Some? {
      BehindIs(t, '.');
      y := t[..|t| - |Unqualify(t)|];
    }
  }

  /** A balanced call without the words "as" and "from" is one in which nothing is read as a
      keyword, wherever its points and brackets stand. */
  lemma KeywordFreeIsValid(head: string, inside: string)
    requires ValidHead(head) && ST.Balanced(inside) && NoKeywords(CallTokens(head, inside))
    ensures ValidCall(head, inside)
  {
    if '.' !in Kept(head, inside) {
      UndottedStores(head, inside);
    } else {
      DottedIsValid(head, inside);
    }
  }

  lemma DottedIsValid(head: string, inside: string)
    requires ValidHead(head) && ST.Balanced(inside) && NoKeywords(CallTokens(head, inside))
    requires '.' in Kept(head, inside)
    ensures ValidCall(head, inside)
  {
    hide Tokens, Unqualify, OnlyStores, Kept, CallTokens, NoKeywords;
    var body := Tokens(inside + ")", DELIMS);
    BalancedIsShut(inside, 0);
    SameFirst(head, inside);
    SameKeywords(CallTokens(head, inside), body);
    ShutStoresToken(inside + ")", 1);
    SameStores(body, CallTokens(head, inside));
  }

  lemma SameKeywords(ts: seq<string>, us: seq<string>)
    requires ts != [] && us != [] && Unqualify(ts[0]) == Unqualify(us[0]) && ts[1..] == us[1..]
    requires '.' in us[0] && NoKeywords(ts)
    ensures NoKeywords(us)
  {
    assert forall w | w in FROMS :: '.' !in w;
    assert NoKeyword(ts[0]) && forall x | x in us :: x == us[0] || x in ts[1..];
  }

  lemma SameStores(ts: seq<string>, us: seq<string>)
    requires ts != [] && us != [] && Unqualify(ts[0]) == Unqualify(us[0]) && ts[1..] == us[1..]
    requires OnlyStores(ts)
    ensures OnlyStores(us)
  {
  }

  // With a '.' in the first token, its front makes no difference.
  lemma SameFirst(head: string, inside: string)
    requires ValidHead(head) && '.' in Kept(head, inside)
    ensures var body := inside + ")";
      var (call, tokens) := (CallTokens(head, inside), Tokens(body, DELIMS));
      && body[0] !in DELIMS && tokens != [] && call != []
      && Unqualify(tokens[0]) == Unqualify(call[0]) && tokens[1..] == call[1..] && '.' in tokens[0]
  {
    var body := inside + ")";
    var t := TokenOf(body, DELIMS);
    FirstOfCall(head, inside);
    assert Kept(head, inside) == (head + "(") + t;
    assert '.' !in head + "(";
    assert '.' in t;
    BehindSkips(head + "(", t, '.');
    HasChar(t, '.');
    TokensOf(body);
  }
}

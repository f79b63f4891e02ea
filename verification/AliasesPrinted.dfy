// What the alias loop makes of printed nested selects.
module AliasesPrinted {
  import opened Options
  import opened CString
  import opened Strtok
  import opened Aliases
  import opened PrintedTokens
  import opened CallItems
  import opened NestedSelects
  import ST = SelectTables

  // A token that is taken for the start of a select.
  predicate StartsSelect(token: string) {
    token == "select" || token == "SELECT" || token == "(select" || token == "(SELECT"
  }

  // No token of the text is one.
  ghost predicate Quiet(text: string) {
    forall token | token in Tokens(text, DELIMS) :: !StartsSelect(Unqualify(token))
  }

  ghost predicate Valid(sel: Select) {
    ValidLevels(sel) && Quiet(Innermost(sel, ""))
  }

  // ----- The loop on printed text -----

  function WalkText(text: string, s: State): Outcome {
    Walk(Tokens(text, DELIMS), s)
  }

  // The state behind an item of which the token was stored.
  function Holding(field: string, token: string): State {
    StoreItem(State(field, None, false, false, false, false), token, token)
  }

  // The walk on with what was found so far, or the end of it.
  function WalkOn(rest: string, found: Outcome, token: string): Outcome {
    if found.Field? then WalkText(rest, Holding(found.name, token)) else found
  }

  lemma WalkWord(w: string, rest: string, s: State)
    requires w != [] && Apart(rest) && forall i | 0 <= i < |w| :: w[i] !in DELIMS
    requires !s.fromFlag && !s.asFlag && Plain(Unqualify(w)) && Unqualify(w) !in ASES
    ensures WalkText(w + rest, s) == WalkText(rest, Holding(s.field, Unqualify(w)))
  {
    TokensWord(w, rest);
    PlainWord(Unqualify(w));
    assert ([w] + Tokens(rest, DELIMS))[1..] == Tokens(rest, DELIMS);
  }

  lemma WalkDelim(c: char, rest: string, s: State)
    requires c in DELIMS
    ensures WalkText([c] + rest, s) == WalkText(rest, s)
  {
    TokensDelim(c, rest);
  }

  lemma WalkAs(word: string, rest: string, s: State)
    requires (word == "as" || word == "AS") && !s.fromFlag && !s.asFlag
    ensures WalkText(" " + word + " " + rest, s) == WalkText(rest, s.(asFlag := true))
  {
    var after := [' '] + rest;
    WordBetween(word, rest);
    WalkDelim(' ', word + after, s);
    WalkAsWord(word, after, s);
    WalkDelim(' ', rest, s.(asFlag := true));
  }

  lemma WordBetween(word: string, rest: string)
    ensures " " + word + " " + rest == [' '] + (word + ([' '] + rest))
  {
  }

  lemma WalkAsWord(word: string, after: string, s: State)
    requires (word == "as" || word == "AS") && !s.fromFlag && !s.asFlag && Apart(after)
    ensures WalkText(word + after, s) == WalkText(after, s.(asFlag := true))
  {
    hide Tokens;
    TokensWord(word, after);
    NoChar(word, '.');
    assert ([word] + Tokens(after, DELIMS))[1..] == Tokens(after, DELIMS);
  }

  // The name behind an "as".
  lemma WalkAlias(name: string, rest: string, s: State)
    requires Plain(name) && Apart(rest) && s.asFlag && !s.fromFlag && s.item.Some?
    ensures WalkText(name + rest, s)
         == if name != s.field then WalkText(rest, s.(asFlag := false))
            else if s.expressionFlag then Expression
            else if s.functionFlag then Function(s.item.value)
            else WalkText(rest, s.(asFlag := false, field := Unqualify(s.item.value)))
  {
    TokensWord(name, rest);
    PlainWord(name);
    assert ([name] + Tokens(rest, DELIMS))[1..] == Tokens(rest, DELIMS);
  }

  // ----- Items -----

  predicate Storable(token: string) {
    token !in ASES && token !in FROMS
  }

  lemma WalkColumn(item: Item, rest: string, s: State)
    requires ValidItem(item) && item.Column? && Apart(rest) && !s.fromFlag && !s.asFlag
    ensures WalkText(ItemText(item) + rest, s) == WalkText(rest, Holding(s.field, Token(item)))
    ensures Storable(Token(item))
  {
    var Column(table, column, _, _) := item;
    PlainWord(column);
    if table.Some? {
      PlainWord(table.value);
      CharBehind(table.value, '.', column);
    }
    WalkWord(ItemText(item), rest, s);
  }

  lemma EndsStorable(token: string)
    requires EndsShut(token)
    ensures Storable(token)
  {
    assert forall w | w in ASES + FROMS :: w[|w| - 1] != ')';
  }

  // Tokens that are only stored leave the last one stored.
  lemma {:induction false} WalkStores(tokens: seq<string>, rest: seq<string>, s: State)
    requires tokens != [] && OnlyStores(tokens) && !s.fromFlag && !s.asFlag
    ensures Walk(tokens + rest, s) == Walk(rest, Holding(s.field, LastStored(tokens)))
    ensures Storable(LastStored(tokens))
    decreases |tokens|
  {
    var token := Unqualify(tokens[0]);
    var (last, others) := ItemEnd(token, tokens[1..]).value;
    StepStores(tokens, rest, s);
    NotFrom(token, tokens[1..]);
    if others == [] {
      assert others + rest == rest;
    } else {
      WalkStores(others, rest, StoreItem(s, token, last));
    }
  }

  lemma StepStores(tokens: seq<string>, rest: seq<string>, s: State)
    requires tokens != [] && OnlyStores(tokens) && !s.fromFlag && !s.asFlag
    ensures var token := Unqualify(tokens[0]);
      var (last, others) := ItemEnd(token, tokens[1..]).value;
      Walk(tokens + rest, s) == Walk(others + rest, StoreItem(s, token, last))
  {
    hide Closing, ItemEnd, Opens;
    assert (tokens + rest)[0] == tokens[0] && (tokens + rest)[1..] == tokens[1..] + rest;
    ItemEndAppend(Unqualify(tokens[0]), tokens[1..], rest);
  }

  lemma NotFrom(token: string, tokens: seq<string>)
    requires ItemEnd(token, tokens).Some? && ItemEnd(token, tokens).value.0 !in FROMS
    ensures token !in FROMS
  {
    assert forall w | w in FROMS :: '(' !in w;
    if BehindChar(token, '(').Some? {
      BehindIs(token, '(');
    }
  }

  lemma ItemEndAppend(token: string, tokens: seq<string>, rest: seq<string>)
    requires ItemEnd(token, tokens).Some?
    ensures ItemEnd(token, tokens + rest)
         == Some((ItemEnd(token, tokens).value.0, ItemEnd(token, tokens).value.1 + rest))
  {
    var inside := BehindChar(token, '(');
    if inside.Some? && Opens(inside.value, 1) > 0 {
      ClosingAppend(tokens, rest, Opens(inside.value, 1));
    }
  }

  lemma {:induction false} ClosingAppend(tokens: seq<string>, rest: seq<string>, opens: nat)
    requires Closing(tokens, opens).Some?
    ensures Closing(tokens + rest, opens)
         == Some((Closing(tokens, opens).value.0, Closing(tokens, opens).value.1 + rest))
  {
    assert (tokens + rest)[0] == tokens[0] && (tokens + rest)[1..] == tokens[1..] + rest;
    if Opens(tokens[0], opens) > 0 {
      ClosingAppend(tokens[1..], rest, Opens(tokens[0], opens));
    }
  }

  /** What a call leaves is the token that was stored last of it. */
  lemma WalkCall(item: Item, rest: string, s: State)
    requires ValidItem(item) && item.Call? && Apart(rest) && !s.fromFlag && !s.asFlag
    ensures WalkText(ItemText(item) + rest, s) == WalkText(rest, Holding(s.field, Token(item)))
    ensures Storable(Token(item))
  {
    var Call(head, inside, _, _) := item;
    TokensAppend(CallText(head, inside), rest);
    FirstOfCall(head, inside);
    WalkStores(CallTokens(head, inside), Tokens(rest, DELIMS), s);
  }

  lemma WalkStored(item: Item, rest: string, s: State)
    requires ValidItem(item) && Apart(rest) && !s.fromFlag && !s.asFlag
    ensures WalkText(ItemText(item) + rest, s) == WalkText(rest, Holding(s.field, Token(item)))
    ensures Storable(Token(item))
  {
    if item.Call? {
      WalkCall(item, rest, s);
    } else {
      WalkColumn(item, rest, s);
    }
  }

  function Renamed(item: Item, field: string): Outcome {
    if item.alias == Some(field) then Taken(item) else Field(field)
  }

  lemma WalkAsAlias(word: string, name: string, rest: string, field: string, token: string)
    requires (word == "as" || word == "AS") && Plain(name) && Apart(rest) && Storable(token)
    ensures WalkText(" " + word + " " + name + rest, Holding(field, token))
         == WalkOn(rest, if name == field then OfToken(token) else Field(field), token)
  {
    var s := Holding(field, token);
    assert " " + word + " " + name + rest == " " + word + " " + (name + rest);
    WalkAs(word, name + rest, s);
    WalkAlias(name, rest, s.(asFlag := true));
  }

  lemma {:induction false} WalkItem(item: Item, rest: string, s: State)
    requires ValidItem(item) && Apart(rest) && !s.fromFlag && !s.asFlag
    ensures WalkText(ItemText(item) + (PrintAlias(item) + rest), s)
         == WalkOn(rest, Renamed(item, s.field), Token(item))
    ensures Storable(Token(item))
  {
    WalkStored(item, PrintAlias(item) + rest, s);
    match item.alias {
      case None =>
        assert PrintAlias(item) + rest == rest;
      case Some(name) =>
        WalkAsAlias(item.word, name, rest, s.field, Token(item));
    }
  }

  lemma WalkComma(rest: string, s: State)
    ensures WalkText(", " + rest, s) == WalkText(rest, s)
  {
    CommaText(rest);
    WalkDelim(',', [' '] + rest, s);
    WalkDelim(' ', rest, s);
  }

  lemma CommaText(rest: string)
    ensures ", " + rest == [','] + ([' '] + rest)
  {
  }

  lemma {:induction false} WalkOne(item: Item, others: string, s: State)
    requires ValidItem(item) && !s.fromFlag && !s.asFlag
    ensures WalkText(ItemText(item) + (PrintAlias(item) + (", " + others)), s)
         == WalkOn(others, Renamed(item, s.field), Token(item))
    ensures Storable(Token(item))
  {
    WalkItem(item, ", " + others, s);
    var found := Renamed(item, s.field);
    if found.Field? {
      WalkComma(others, Holding(found.name, Token(item)));
    }
  }

  lemma {:induction false} WalkList(items: seq<Item>, rest: string, s: State)
    requires ValidItems(items) && Apart(rest) && !s.fromFlag && !s.asFlag
    ensures WalkText(List(items, rest), s)
         == WalkOn(rest, Through(items, Field(s.field)), Token(items[|items| - 1]))
    ensures Storable(Token(items[|items| - 1]))
    decreases |items|, 0
  {
    if |items| == 1 {
      WalkOnlyItem(items, rest, s);
    } else {
      var others := items[1..];
      assert ValidItems(others) && others[|others| - 1] == items[|items| - 1];
      ThroughFirst(items, s.field);
      WalkFirstItem(items, rest, s);
      WalkOthers(others, rest, Renamed(items[0], s.field), Token(items[0]));
    }
  }

  lemma {:induction false} WalkOnlyItem(items: seq<Item>, rest: string, s: State)
    requires |items| == 1 && ValidItem(items[0]) && Apart(rest) && !s.fromFlag && !s.asFlag
    ensures WalkText(List(items, rest), s) == WalkOn(rest, Through(items, Field(s.field)), Token(items[0]))
    ensures Storable(Token(items[0]))
  {
    ThroughFirst(items, s.field);
    WalkItem(items[0], rest, s);
  }

  lemma WalkFirstItem(items: seq<Item>, rest: string, s: State)
    requires |items| > 1 && ValidItem(items[0]) && !s.fromFlag && !s.asFlag
    ensures WalkText(List(items, rest), s)
         == WalkOn(List(items[1..], rest), Renamed(items[0], s.field), Token(items[0]))
    ensures Storable(Token(items[0]))
  {
    ListFirst(items, rest);
    WalkOne(items[0], List(items[1..], rest), s);
  }

  lemma ThroughFirst(items: seq<Item>, field: string)
    requires items != []
    ensures Through(items, Field(field)) == Through(items[1..], Renamed(items[0], field))
    ensures |items| == 1 ==> Through(items, Field(field)) == Renamed(items[0], field)
  {
  }

  lemma ListFirst(items: seq<Item>, rest: string)
    requires |items| > 1
    ensures List(items, rest) == ItemText(items[0]) + (PrintAlias(items[0]) + (", " + List(items[1..], rest)))
  {
  }

  lemma {:induction false} WalkOthers(items: seq<Item>, rest: string, found: Outcome, token: string)
    requires ValidItems(items) && Apart(rest) && Storable(token)
    ensures WalkOn(List(items, rest), found, token) == WalkOn(rest, Through(items, found), Token(items[|items| - 1]))
    ensures Storable(Token(items[|items| - 1]))
    decreases |items|, 1
  {
    WalkList(items, rest, Holding(if found.Field? then found.name else "", token));
  }

  // ----- Selects -----

  // The text of a select behind its "select ", in front of `rest`.
  function Level(sel: Select, rest: string): string
    decreases sel, 0
  {
    List(sel.items, ST.Keyword(sel.words.from) + match sel.from
                                                 case Base(sources) => ST.PrintSources(sources) + (sel.tail + rest)
                                                 case Sub(inner, alias) => SubText(inner, Behind(sel, rest)))
  }

  // The text of a sub-select from its bracket on.
  function SubText(inner: Select, rest: string): string
    decreases inner, 1
  {
    "(" + inner.words.select + (" " + Level(inner, rest))
  }

  // The text behind a sub-select.
  function Behind(sel: Select, rest: string): string
    requires sel.from.Sub?
  {
    ")" + (ST.PrintAlias(sel.from.alias) + (sel.tail + rest))
  }

  lemma {:induction false} ListRest(items: seq<Item>, a: string, b: string)
    ensures List(items, a) + b == List(items, a + b)
  {
    if |items| > 1 {
      ListRest(items[1..], a, b);
    }
  }

  lemma {:induction false} TextIsLevel(sel: Select, rest: string)
    ensures Text(sel) + rest == sel.words.select + (" " + Level(sel, rest))
    decreases sel
  {
    match sel.from {
      case Base(sources) =>
        JoinText(sel, ST.PrintSources(sources), rest);
      case Sub(inner, alias) =>
        TextIsLevel(inner, Behind(sel, rest));
        var source := "(" + (Text(inner) + ")") + ST.PrintAlias(alias);
        SourceText(Text(inner), ST.PrintAlias(alias), sel.tail, rest);
        assert "(" + (inner.words.select + (" " + Level(inner, Behind(sel, rest))))
            == SubText(inner, Behind(sel, rest));
        var what := ST.Nested(ToQuery(inner));
        assert ST.PrintWhat(what) == "(" + (Text(inner) + ")");
        assert ST.PrintSource(ST.Source(what, alias)) == source;
        assert ToQuery(sel).sources == ST.Last(ST.Source(what, alias));
        assert ST.PrintSources(ToQuery(sel).sources) == source;
        JoinText(sel, source, rest);
        assert source + (sel.tail + rest) == SubText(inner, Behind(sel, rest));
    }
  }

  lemma SourceText(text: string, alias: string, tail: string, rest: string)
    ensures "(" + (text + ")") + alias + (tail + rest) == "(" + (text + (")" + (alias + (tail + rest))))
  {
  }

  lemma JoinText(sel: Select, source: string, rest: string)
    ensures sel.words.select + (" " + List(sel.items, "")) + (ST.Keyword(sel.words.from) + (source + sel.tail)) + rest
         == sel.words.select + (" " + List(sel.items, ST.Keyword(sel.words.from) + (source + (sel.tail + rest))))
  {
    hide ST.Keyword, List;
    var from, list := ST.Keyword(sel.words.from), List(sel.items, "");
    var end := from + (source + (sel.tail + rest));
    ListRest(sel.items, "", end);
    NothingInFront(end);
    JoinParts(sel.words.select, list, from, source, sel.tail, rest);
  }

  lemma NothingInFront(end: string)
    ensures "" + end == end
  {
  }

  lemma JoinParts(a: string, b: string, c: string, d: string, e: string, f: string)
    ensures a + (" " + b) + (c + (d + e)) + f == a + (" " + (b + (c + (d + (e + f)))))
  {
    FourParts(a + (" " + b), c, d, e, f);
    ThreeParts(a, " ", b, c + (d + (e + f)));
  }

  lemma FourParts(a: string, b: string, c: string, d: string, e: string)
    ensures a + (b + (c + d)) + e == a + (b + (c + (d + e)))
  {
  }

  lemma ThreeParts(a: string, b: string, c: string, d: string)
    ensures a + (b + c) + d == a + (b + (c + d))
  {
  }

  lemma WalkFrom(word: string, rest: string, s: State)
    requires (word == "from" || word == "FROM") && !s.fromFlag && !s.asFlag
    ensures WalkText(ST.Keyword(word) + rest, s) == WalkText(rest, Holding(s.field, word))
  {
    var after := [' '] + rest;
    KeywordText(word, rest);
    WalkDelim(' ', word + after, s);
    WalkKeyword(word, after, s);
    WalkDelim(' ', rest, Holding(s.field, word));
  }

  lemma WalkKeyword(word: string, after: string, s: State)
    requires word == "from" || word == "FROM" || word == "select" || word == "SELECT"
    requires !s.fromFlag && !s.asFlag && Apart(after)
    ensures WalkText(word + after, s) == WalkText(after, Holding(s.field, word))
  {
    hide Walk, Tokens, Holding, StoreItem;
    NoChar(word, '.');
    WalkWord(word, after, s);
  }

  lemma KeywordText(word: string, rest: string)
    ensures ST.Keyword(word) + rest == [' '] + (word + ([' '] + rest))
  {
  }

  lemma WalkListFrom(items: seq<Item>, word: string, source: string, s: State)
    requires (word == "from" || word == "FROM") && ValidItems(items) && !s.asFlag && !s.fromFlag
    ensures WalkText(List(items, ST.Keyword(word) + source), s)
         == WalkOn(source, Through(items, Field(s.field)), word)
  {
    var found := Through(items, Field(s.field));
    WalkList(items, ST.Keyword(word) + source, s);
    if found.Field? {
      WalkFrom(word, source, Holding(found.name, Token(items[|items| - 1])));
    }
  }

  // The state at the start of a sub-select's list: the "from" stays stored.
  function Inside(field: string, from: string): (s: State)
    ensures !s.asFlag && !s.fromFlag && s.field == field
  {
    Holding(field, from).(fromFlag := false)
  }

  // Behind a "from" the start of a sub-select begins its list.
  lemma WalkSelect(start: string, rest: string, field: string, from: string)
    requires StartsSelect(start) && (from == "from" || from == "FROM")
    ensures WalkText(start + (" " + rest), Holding(field, from))
         == WalkText(rest, Inside(field, from))
  {
    var after := [' '] + rest;
    assert start + (" " + rest) == start + after;
    WalkStart(start, after, field, from);
    WalkDelim(' ', rest, Inside(field, from));
  }

  lemma WalkStart(start: string, after: string, field: string, from: string)
    requires StartsSelect(start) && (from == "from" || from == "FROM") && Apart(after)
    ensures WalkText(start + after, Holding(field, from)) == WalkText(after, Inside(field, from))
  {
    hide Tokens;
    TokensWord(start, after);
    NoChar(start, '.');
    assert ([start] + Tokens(after, DELIMS))[1..] == Tokens(after, DELIMS);
  }

  // Behind a "from", tokens that start no select are skipped.
  lemma {:induction false} WalkQuiet(tokens: seq<string>, rest: seq<string>, s: State)
    requires s.fromFlag && forall token | token in tokens :: !StartsSelect(Unqualify(token))
    ensures Walk(tokens + rest, s) == Walk(rest, s)
    ensures rest == [] ==> Walk(tokens, s) == Field(s.field)
  {
    if tokens == [] {
      assert tokens + rest == rest;
    } else {
      assert tokens[0] in tokens;
      assert (tokens + rest)[1..] == tokens[1..] + rest;
      WalkQuiet(tokens[1..], rest, s);
    }
  }

  // The word in front of the innermost sources.
  function LastFrom(sel: Select): string {
    if sel.from.Sub? then LastFrom(sel.from.select) else sel.words.from
  }

  lemma {:induction false} LastFromIsFrom(sel: Select)
    requires ValidLevels(sel)
    ensures LastFrom(sel) == "from" || LastFrom(sel) == "FROM"
    decreases sel
  {
    if sel.from.Sub? {
      LastFromIsFrom(sel.from.select);
    }
  }

  // The lists of all levels, up to what is behind the innermost "from".
  lemma {:induction false} WalkLevel(sel: Select, rest: string, s: State)
    requires ValidLevels(sel) && !s.asFlag && !s.fromFlag
    ensures WalkText(Level(sel, rest), s)
         == WalkOn(Innermost(sel, rest), ThroughAll(sel, Field(s.field)), LastFrom(sel))
    decreases sel
  {
    hide WalkText, Through, Holding, Inside, List, ValidItems;
    var word := sel.words.from;
    var source := match sel.from
      case Base(sources) => ST.PrintSources(sources) + (sel.tail + rest)
      case Sub(inner, alias) => SubText(inner, Behind(sel, rest));
    var found := Through(sel.items, Field(s.field));
    WalkListFrom(sel.items, word, source, s);
    if !found.Field? {
      ThroughStops(sel, found);
      if sel.from.Sub? {
        ThroughStops(sel.from.select, found);
      }
    } else if sel.from.Sub? {
      var inner := sel.from.select;
      WalkSelect("(" + inner.words.select, Level(inner, Behind(sel, rest)), found.name, word);
      WalkLevel(inner, Behind(sel, rest), Inside(found.name, word));
    }
  }

  lemma WalkFirst(word: string, rest: string, field: string)
    requires word == "select" || word == "SELECT"
    ensures WalkText(word + (" " + rest), Start(field)) == WalkText(rest, Holding(Unqualify(field), word))
  {
    var after := [' '] + rest;
    assert word + (" " + rest) == word + after;
    WalkKeyword(word, after, Start(field));
    WalkDelim(' ', rest, Holding(Unqualify(field), word));
  }

  // The whole statement, up to what is behind the innermost "from".
  lemma WalkStatement(sel: Select, field: string)
    requires ValidLevels(sel)
    ensures FieldOf(Text(sel), field)
         == WalkOn(Innermost(sel, ""), ThroughAll(sel, Field(Unqualify(field))), LastFrom(sel))
  {
    hide Tokens, Level, Text, Innermost, ThroughAll, ValidItems;
    TextIsLevel(sel, "");
    assert Text(sel) + "" == Text(sel);
    WalkFirst(sel.words.select, Level(sel, ""), field);
    WalkLevel(sel, "", Holding(Unqualify(field), sel.words.select));
  }

  /** On every printed select the loop applies the aliases one after the other, list by list. */
  lemma FieldOfPrinted(sel: Select, field: string)
    requires Valid(sel)
    ensures FieldOf(Text(sel), field) == ThroughAll(sel, Field(Unqualify(field)))
  {
    var found := ThroughAll(sel, Field(Unqualify(field)));
    WalkStatement(sel, field);
    LastFromIsFrom(sel);
    if found.Field? {
      WalkQuiet(Tokens(Innermost(sel, ""), DELIMS), [], Holding(found.name, LastFrom(sel)));
    }
  }

  /** A further select behind the innermost "from", in a condition or behind a "union", is taken for
      one more level: its aliases are applied to what the lists in front of it gave. */
  lemma FieldOfCondition(sel: Select, quiet: string, start: string, inner: Select, rest: string, field: string)
    requires StartsSelect(start) && ValidLevels(sel) && ValidLevels(inner)
    requires Innermost(sel, "") == quiet + (" " + (start + (" " + Level(inner, rest))))
    requires Quiet(quiet) && Quiet(Innermost(inner, rest))
    ensures FieldOf(Text(sel), field) == ThroughAll(inner, ThroughAll(sel, Field(Unqualify(field))))
  {
    var found := ThroughAll(sel, Field(Unqualify(field)));
    WalkStatement(sel, field);
    LastFromIsFrom(sel);
    if found.Field? {
      WalkCondition(quiet, start, inner, rest, found.name, LastFrom(sel));
    } else {
      ThroughStops(inner, found);
    }
  }

  lemma WalkCondition(quiet: string, start: string, inner: Select, rest: string, field: string, from: string)
    requires StartsSelect(start) && (from == "from" || from == "FROM")
    requires Quiet(quiet) && ValidLevels(inner) && Quiet(Innermost(inner, rest))
    ensures WalkText(quiet + (" " + (start + (" " + Level(inner, rest)))), Holding(field, from))
         == ThroughAll(inner, Field(field))
  {
    hide Tokens, Level, Innermost;
    var list := start + (" " + Level(inner, rest));
    var found := ThroughAll(inner, Field(field));
    assert " " + list == [' '] + list;
    TokensAppend(quiet, [' '] + list);
    WalkQuiet(Tokens(quiet, DELIMS), Tokens([' '] + list, DELIMS), Holding(field, from));
    WalkDelim(' ', list, Holding(field, from));
    WalkSelect(start, Level(inner, rest), field, from);
    WalkLevel(inner, rest, Inside(field, from));
    LastFromIsFrom(inner);
    if found.Field? {
      WalkQuiet(Tokens(Innermost(inner, rest), DELIMS), [], Holding(found.name, LastFrom(inner)));
    }
  }

  /** Alias resolution is the composition of the alias maps, when nothing stands in a name's way. */
  lemma ResolutionComposes(sel: Select, field: string)
    requires Valid(sel) && CleanFor(sel, Unqualify(field))
    ensures FieldOf(Text(sel), field) == Origin(sel, Unqualify(field))
  {
    FieldOfPrinted(sel, field);
    CleanLevelsAreRight(sel, Unqualify(field));
  }

  /** The column that is found is the one whose value the result column shows. */
  lemma ResolvedColumnIsShown<V>(sel: Select, row: map<string, V>, eval: (Item, map<string, V>) -> V, name: string)
    requires Valid(sel) && CleanFor(sel, name) && DistinctLevels(sel)
    requires name in Result(sel, row, eval) && Unqualify(name) == name
    ensures var found := FieldOf(Text(sel), name);
      found.Field? ==> found.name in row && Result(sel, row, eval)[name] == row[found.name]
  {
    ResolutionComposes(sel, name);
    ResultShows(sel, row, eval, name);
  }

  // Every list with what it is selected from is a statement of its own.
  ghost predicate ValidStatements(sel: Select) {
    Valid(sel) && (sel.from.Sub? ==> ValidStatements(sel.from.select))
  }

  // In each of these statements, the loop takes every alias for what it means.
  ghost predicate ResolvedLevels(sel: Select) {
    && (forall k | 0 <= k < |sel.items| && sel.items[k].alias.Some? ::
          FieldOf(Text(sel), sel.items[k].alias.value) == Origin(sel, sel.items[k].alias.value))
    && (sel.from.Sub? ==> ResolvedLevels(sel.from.select))
  }

  // A function call whose first token holds a '.' and which therefore is not found. Unlike in the
  // other calls, "as" and "from" may stand in it.
  ghost predicate LostCall(sel: Select, item: Item) {
    && item.Call? && item.alias.Some? && item.head != [] && ValidHead(item.head) && ST.Balanced(item.inside)
    && var kept := Kept(item.head, item.inside);
      '.' in kept && Unspelled(Text(sel), kept) && Unspelled(CallText(item.head, item.inside), kept)
  }

  ghost predicate LostLevel(sel: Select) {
    || (exists k | 0 <= k < |sel.items| :: LostCall(sel, sel.items[k]))
    || (sel.from.Sub? && LostLevel(sel.from.select))
  }

  /** A nested select and its sub-selects are resolved rightly if and only if every list is clean and
      every call with an alias is recognised. */
  lemma ResolvedIffClean(sel: Select)
    requires (ValidStatements(sel) || LostLevel(sel)) && DistinctAliasLevels(sel)
    ensures ResolvedLevels(sel) <==> CleanLevels(sel) && RecognisedLevels(sel)
  {
    if LostLevel(sel) {
      LostIsWrong(sel);
    } else {
      ResolvedIsRight(sel);
      RightIffClean(sel);
    }
  }

  lemma {:induction false} LostIsWrong(sel: Select)
    requires LostLevel(sel) && DistinctAliasLevels(sel)
    ensures !ResolvedLevels(sel) && !RecognisedLevels(sel)
    decreases sel
  {
    if k :| 0 <= k < |sel.items| && LostCall(sel, sel.items[k]) {
      var Call(head, inside, alias, _) := sel.items[k];
      RecognisedIffUndotted(head, inside);
      DottedIsNotFound(Text(sel), alias.value, head, inside);
      ThroughAt(sel.items, k);
      assert Origin(sel, alias.value) == Function(Kept(head, inside));
    } else {
      LostIsWrong(sel.from.select);
    }
  }

  lemma AliasOfPrinted(sel: Select, k: nat)
    requires Valid(sel) && k < |sel.items| && sel.items[k].alias.Some?
    ensures FieldOf(Text(sel), sel.items[k].alias.value) == ThroughAll(sel, Field(sel.items[k].alias.value))
  {
    FieldOfPrinted(sel, sel.items[k].alias.value);
    PlainWord(sel.items[k].alias.value);
  }

  lemma {:induction false} ResolvedIsRight(sel: Select)
    requires ValidStatements(sel)
    ensures ResolvedLevels(sel) <==> RightLevels(sel)
    decreases sel
  {
    forall k | 0 <= k < |sel.items| && sel.items[k].alias.Some?
      ensures FieldOf(Text(sel), sel.items[k].alias.value) == ThroughAll(sel, Field(sel.items[k].alias.value))
    {
      AliasOfPrinted(sel, k);
    }
    if sel.from.Sub? {
      ResolvedIsRight(sel.from.select);
    }
  }

  // ----- Statements of any words -----

  /** A statement is read word by word, whatever blanks, commas and semicolons part the words. */
  lemma ReadsWords(lead: string, words: seq<string>, gaps: seq<string>, field: string)
    requires IsGap(lead) && Parted(words, gaps)
    ensures FieldOf(lead + Spaced(words, gaps), field) == Walk(words, Start(field))
  {
    TokensGap(lead, Spaced(words, gaps));
    TokensOfWords(words, gaps);
  }

  /** An "as" in front of any item, with the field as its alias, leaves the outcome undefined. */
  lemma AliasOfNothing(word: string, name: string, others: seq<string>, lead: string, gaps: seq<string>, field: string)
    requires (word == "as" || word == "AS") && Unqualify(name) == Unqualify(field)
    requires IsGap(lead) && Parted([word, name] + others, gaps)
    ensures FieldOf(lead + Spaced([word, name] + others, gaps), field) == Undefined
  {
    var words := [word, name] + others;
    ReadsWords(lead, words, gaps, field);
    NoChar(word, '.');
    assert words[1..] == [name] + others;
  }

  /** So does a call that is never closed, when its first token holds no '.'. */
  lemma UnclosedIsUndefined(select: string, head: string, inside: string, field: string)
    requires (select == "select" || select == "SELECT") && ValidHead(head) && ST.Depth(inside, 0).Some?
    requires '.' !in head + ("(" + TokenOf(inside, DELIMS))
    ensures FieldOf(select + (" " + (head + ("(" + inside))), field) == Undefined
  {
    hide Closing, Opens, Tokens, TokenOf, ItemEnd, Unqualify, ST.Depth;
    var t := TokenOf(inside, DELIMS);
    WalkFirst(select, head + ("(" + inside), field);
    OpenTokens(head, inside);
    OpenNeverCloses(inside);
    StartHasNoEnd(head, t, Tokens(inside[|t|..], DELIMS));
    WalkEndless(head + ("(" + t), Tokens(inside[|t|..], DELIMS), Holding(Unqualify(field), select));
  }

  lemma WalkEndless(token: string, tokens: seq<string>, s: State)
    requires !s.asFlag && !s.fromFlag && Unqualify(token) !in ASES && ItemEnd(Unqualify(token), tokens) == None
    ensures Walk([token] + tokens, s) == Undefined
  {
    assert ([token] + tokens)[1..] == tokens;
  }

  lemma StartHasNoEnd(head: string, t: string, tokens: seq<string>)
    requires ValidHead(head) && '.' !in head + ("(" + t) && Opens(t, 1) > 0 && Closing(tokens, Opens(t, 1)) == None
    ensures var token := head + ("(" + t);
      Unqualify(token) == token && token !in ASES && ItemEnd(token, tokens) == None
  {
    NoChar(head + ("(" + t), '.');
    CharBehind(head, '(', t);
    StartIsKept(head, t);
  }

  lemma StartIsKept(head: string, t: string)
    requires ValidHead(head)
    ensures head + ("(" + t) !in ASES
  {
    assert (head + ("(" + t))[|head|] == '(';
    assert forall w | w in ASES :: '(' !in w;
  }

  // ----- Calls -----

  /** Whatever the statement, the outcome is a function only if the loop had its text stored, so
      only if some token is that text, or that text behind a '.'. */
  lemma FunctionIsToken(statement: string, field: string, call: string)
    requires FieldOf(statement, field) == Function(call)
    ensures exists token | token in Tokens(statement, DELIMS) :: Unqualify(token) == call
  {
    StoredFunction(Tokens(statement, DELIMS), Start(field), call);
  }

  ghost predicate Mentioned(tokens: seq<string>, call: string) {
    exists token | token in tokens :: Unqualify(token) == call
  }

  lemma {:induction false} StoredFunction(tokens: seq<string>, s: State, call: string)
    requires Walk(tokens, s) == Function(call)
    ensures s.item == Some(call) || Mentioned(tokens, call)
    decreases |tokens|
  {
    if tokens != [] {
      var rest := tokens[1..];
      assert forall token | token in rest :: token in tokens;
      if s.fromFlag {
        StoredFunction(rest, s.(fromFlag := Unqualify(tokens[0]) !in SELECTS), call);
      } else if s.asFlag {
        StoredBehindAs(tokens, s, call);
      } else if Unqualify(tokens[0]) in ASES {
        StoredFunction(rest, s.(asFlag := true), call);
      } else {
        StoredItem(tokens, s, call);
      }
    }
  }

  lemma {:induction false} StoredBehindAs(tokens: seq<string>, s: State, call: string)
    requires tokens != [] && s.asFlag && !s.fromFlag && Walk(tokens, s) == Function(call)
    ensures s.item == Some(call) || Mentioned(tokens[1..], call)
    decreases |tokens|, 0
  {
    if Unqualify(tokens[0]) != s.field {
      StoredFunction(tokens[1..], s.(asFlag := false), call);
    } else if !s.functionFlag {
      StoredFunction(tokens[1..], s.(field := Unqualify(s.item.value), asFlag := false), call);
    }
  }

  lemma {:induction false} StoredItem(tokens: seq<string>, s: State, call: string)
    requires tokens != [] && !s.fromFlag && !s.asFlag && Unqualify(tokens[0]) !in ASES
    requires Walk(tokens, s) == Function(call)
    ensures Mentioned(tokens, call)
    decreases |tokens|, 0
  {
    var token, rest := Unqualify(tokens[0]), tokens[1..];
    var (last, others) := ItemEnd(token, rest).value;
    StoredFunction(others, StoreItem(s, token, last), call);
    OthersAreTokens(token, rest);
    assert tokens[0] in tokens && forall t | t in others :: t in tokens;
  }

  // No token spells the text behind a '.'.
  ghost predicate Unspelled(statement: string, text: string) {
    forall token | token in Tokens(statement, DELIMS) && '.' in token :: Unqualify(token) != text
  }

  /** In any statement, a call with a '.' in its first token is never found, unless some token
      spells that first token behind a '.' of its own. */
  lemma DottedIsNotFound(statement: string, field: string, head: string, inside: string)
    requires '.' in Kept(head, inside) && Unspelled(statement, Kept(head, inside))
    ensures FieldOf(statement, field) != Function(Kept(head, inside))
  {
    if FieldOf(statement, field) == Function(Kept(head, inside)) {
      FunctionIsToken(statement, field, Kept(head, inside));
      var token :| token in Tokens(statement, DELIMS) && Unqualify(token) == Kept(head, inside);
      NoDot(token);
    }
  }

  lemma NoDot(token: string)
    ensures '.' in Unqualify(token) ==> '.' in token
  {
    if '.' !in token {
      NoChar(token, '.');
    }
  }

  /** The alias of a function call, of any number of tokens and anywhere in a nested select, gets
      the type of the call if and only if there is no '.' in its first token. */
  lemma CallIffUndotted(sel: Select, k: nat)
    requires k < |sel.items| && sel.items[k].Call? && sel.items[k].alias.Some? && sel.items[k].head != []
    requires var kept := Kept(sel.items[k].head, sel.items[k].inside);
      if '.' in kept then Unspelled(Text(sel), kept) else Valid(sel) && DistinctAliases(sel.items)
    ensures var Call(head, inside, alias, _) := sel.items[k];
      FieldOf(Text(sel), alias.value) == Function(Kept(head, inside)) <==> '.' !in Kept(head, inside)
  {
    var Call(head, inside, alias, _) := sel.items[k];
    if '.' in Kept(head, inside) {
      DottedIsNotFound(Text(sel), alias.value, head, inside);
    } else {
      UndottedCallIsFound(sel, k);
    }
  }

  /** In every list of calls in which nothing is read as a keyword, the alias of a call is taken for
      the token that is stored last of the call. */
  lemma CallOfPrinted(sel: Select, k: nat)
    requires Valid(sel) && DistinctAliases(sel.items) && k < |sel.items|
    requires sel.items[k].Call? && sel.items[k].alias.Some?
    ensures FieldOf(Text(sel), sel.items[k].alias.value)
         == OfToken(LastStored(CallTokens(sel.items[k].head, sel.items[k].inside)))
  {
    AliasOfPrinted(sel, k);
    CallIsTaken(sel, k);
  }

  /** There the alias gets the type of the call if and only if the call is recognised. */
  lemma CallIffRecognised(sel: Select, k: nat)
    requires Valid(sel) && DistinctAliases(sel.items) && k < |sel.items|
    requires sel.items[k].Call? && sel.items[k].alias.Some?
    ensures FieldOf(Text(sel), sel.items[k].alias.value) == Meant(sel.items[k])
       <==> Recognised(sel.items[k].head, sel.items[k].inside)
  {
    AliasOfPrinted(sel, k);
    CallIsTaken(sel, k);
    TakenCall(sel.items[k]);
  }

  /** The alias of a call without a '.' in its first token gets the type of the call, wherever it
      stands and however many tokens it has. */
  lemma UndottedCallIsFound(sel: Select, k: nat)
    requires Valid(sel) && DistinctAliases(sel.items) && k < |sel.items|
    requires sel.items[k].Call? && sel.items[k].alias.Some? && '.' !in Kept(sel.items[k].head, sel.items[k].inside)
    ensures FieldOf(Text(sel), sel.items[k].alias.value) == Meant(sel.items[k])
  {
    CallIffRecognised(sel, k);
    UndottedIsRecognised(sel.items[k].head, sel.items[k].inside);
  }

  // A call's start up to a column with its table, and a call with the bracket that closes both.
  function OpenCall(head: string, table: string, column: string): string {
    head + ("(" + (table + ("." + column)))
  }

  function LastArgument(g: string, a: string): string {
    g + ("(" + (a + "))"))
  }

  lemma WalkOpenCall(head: string, table: string, column: string, rest: string, s: State)
    requires Plain(head) && Plain(table) && Plain(column) && column !in KEYWORDS && Apart(rest)
    requires !s.fromFlag && !s.asFlag
    ensures WalkText(OpenCall(head, table, column) + rest, s) == WalkText(rest, Holding(s.field, column))
  {
    var front := head + ("(" + table);
    assert OpenCall(head, table, column) == front + (['.'] + column);
    CharBehind(front, '.', column);
    WalkWord(OpenCall(head, table, column), rest, s);
  }

  lemma WalkLastArgument(g: string, a: string, rest: string, s: State)
    requires Plain(g) && Plain(a) && Apart(rest) && !s.fromFlag && !s.asFlag
    ensures WalkText(LastArgument(g, a) + rest, s) == WalkText(rest, Holding(s.field, LastArgument(g, a)))
    ensures Storable(LastArgument(g, a)) && OfToken(LastArgument(g, a)) == Function(LastArgument(g, a))
  {
    var token := LastArgument(g, a);
    TokensWord(token, rest);
    NoChar(token, '.');
    CharBehind(g, '(', a + "))");
    ClosedTwice(a);
    EndsStorable(token);
    assert ([token] + Tokens(rest, DELIMS))[1..] == Tokens(rest, DELIMS);
  }

  lemma ClosedTwice(a: string)
    requires Plain(a)
    ensures Opens(a + "))", 1) == 0
  {
    ST.Flat(a);
    BalancedIsShut(a, 0);
    ShutOpens(a + ")", 1, 1);
    OpensClosed(a + ")", ")", 1);
    assert a + ")" + ")" == a + "))";
  }

  /** With a '.' in the first of several tokens the arguments are read as items of their own: in
      "select f(t.c, g(a)) as m from ..." the alias gets the type of g. */
  lemma DottedCallIsSplit(head: string, table: string, column: string, g: string, a: string, m: string, rest: string)
    requires Plain(head) && Plain(table) && Plain(column) && Plain(g) && Plain(a) && Plain(m)
    requires column !in KEYWORDS && Apart(rest)
    ensures var last := LastArgument(g, a) + (" as " + m + rest);
      FieldOf("select" + (" " + (OpenCall(head, table, column) + (", " + last))), m)
         == Function(LastArgument(g, a))
  {
    var last := LastArgument(g, a) + (" as " + m + rest);
    WalkFirst("select", OpenCall(head, table, column) + (", " + last), m);
    PlainWord(m);
    WalkOpenCall(head, table, column, ", " + last, Holding(m, "select"));
    WalkComma(last, Holding(m, column));
    WalkLastArgument(g, a, " as " + m + rest, Holding(m, column));
    AsText(m, rest);
    WalkAsAlias("as", m, rest, m, LastArgument(g, a));
  }

  lemma AsText(m: string, rest: string)
    ensures " as " + m + rest == " " + "as" + " " + m + rest
  {
  }

  // The arguments of the call in "f(t.a, x.f(t.a, b))".
  function TwoDots(head: string, table: string, column: string, x: string, b: string): string {
    table + ("." + column) + (", " + (x + "." + CallText(head, table + ("." + column) + (", " + b))))
  }

  /** The exception: a later token that spells the first one behind a '.' of its own is taken for
      the call. */
  lemma TwoDotsAreRecognised(head: string, table: string, column: string, x: string, b: string)
    requires Plain(head) && Plain(table) && Plain(column) && Plain(x) && Plain(b)
    requires column !in KEYWORDS
    ensures var inside := TwoDots(head, table, column, x, b);
      ValidCall(head, inside) && '.' in Kept(head, inside) && Recognised(head, inside)
  {
    var inside := TwoDots(head, table, column, x, b);
    TwoDotsBalance(head, table, column, x, b);
    TwoDotsTokens(head, table, column, x, b);
    FirstOfCall(head, inside);
    TwoDotsStored(head, table, column, x, b);
  }

  lemma TwoDotsBalance(head: string, table: string, column: string, x: string, b: string)
    requires Plain(head) && Plain(table) && Plain(column) && Plain(x) && Plain(b)
    ensures ST.Balanced(TwoDots(head, table, column, x, b))
  {
    var argument := table + ("." + column);
    ST.Flat(argument + (", " + b));
    ST.Flat(head);
    CallIsBalanced(head, argument + (", " + b));
    ST.Flat(x + ".");
    ST.BalancedAppend(x + ".", CallText(head, argument + (", " + b)));
    ST.Flat(", ");
    ST.BalancedAppend(", ", x + "." + CallText(head, argument + (", " + b)));
    ST.Flat(argument);
    ST.BalancedAppend(argument, ", " + (x + "." + CallText(head, argument + (", " + b))));
  }

  lemma CallIsBalanced(head: string, inside: string)
    requires ST.Balanced(head) && ST.Balanced(inside)
    ensures ST.Balanced(CallText(head, inside))
  {
    ST.DepthShift(inside, 0, 1);
    ST.DepthAppend(inside, ")", 1);
    assert ("(" + (inside + ")"))[1..] == inside + ")";
    ST.BalancedAppend(head, "(" + (inside + ")"));
  }

  lemma TwoDotsTokens(head: string, table: string, column: string, x: string, b: string)
    requires Plain(head) && Plain(table) && Plain(column) && Plain(x) && Plain(b)
    ensures var open := OpenCall(head, table, column);
      CallTokens(head, TwoDots(head, table, column, x, b)) == [open, x + "." + open, b + "))"]
  {
    var open, second, last := OpenCall(head, table, column), x + "." + OpenCall(head, table, column), b + "))";
    TwoDotsText(head, table, column, x, b);
    TwoDotsWords(head, table, column, x, b);
    CommaTokens(open, second + (", " + last));
    CommaTokens(second, last);
    assert forall i | 0 <= i < |last| :: last[i] in last;
    TokensWord(last, "");
    assert last + "" == last && Tokens("", DELIMS) == [];
  }

  lemma TwoDotsWords(head: string, table: string, column: string, x: string, b: string)
    requires Plain(head) && Plain(table) && Plain(column) && Plain(x) && Plain(b)
    ensures forall c | c in OpenCall(head, table, column) :: c !in DELIMS
    ensures forall c | c in x + "." + OpenCall(head, table, column) :: c !in DELIMS
    ensures forall c | c in b + "))" :: c !in DELIMS
  {
  }

  lemma TwoDotsText(head: string, table: string, column: string, x: string, b: string)
    ensures var open := OpenCall(head, table, column);
      CallText(head, TwoDots(head, table, column, x, b)) == open + (", " + (x + "." + open + (", " + (b + "))"))))
  {
  }

  lemma CommaTokens(w: string, rest: string)
    requires w != [] && forall c | c in w :: c !in DELIMS
    ensures Tokens(w + (", " + rest), DELIMS) == [w] + Tokens(rest, DELIMS)
  {
    assert forall i | 0 <= i < |w| :: w[i] in w;
    TokensWord(w, ", " + rest);
    CommaText(rest);
    TokensDelim(',', [' '] + rest);
    TokensDelim(' ', rest);
  }

  lemma TwoDotsStored(head: string, table: string, column: string, x: string, b: string)
    requires Plain(head) && Plain(table) && Plain(column) && Plain(x) && Plain(b) && column !in KEYWORDS
    ensures var open := OpenCall(head, table, column);
      var tokens := [open, x + "." + open, b + "))"];
      OnlyStores(tokens) && LastStored(tokens) == open
  {
    hide Closing, ItemEnd, OnlyStores, LastStored;
    var open, last := OpenCall(head, table, column), b + "))";
    var second := x + "." + open;
    OpenCallParts(head, table, column);
    PlainWord(column);
    assert Unqualify(second) == open by {
      CharBehind(x, '.', open);
      assert second == x + (['.'] + open);
    }
    OpenCallEnds(head, table, column, b);
    StoresFirst(second, [last], last, []);
    assert [second] + [last] == [second, last] && [open] + [second, last] == [open, second, last];
    StoresFirst(open, [second, last], column, [second, last]);
  }

  lemma OpenCallEnds(head: string, table: string, column: string, b: string)
    requires Plain(head) && Plain(table) && Plain(column) && Plain(b)
    ensures var open, last := OpenCall(head, table, column), b + "))";
      ItemEnd(open, [last]) == Some((last, [])) && open !in ASES && last !in FROMS
  {
    var open, last := OpenCall(head, table, column), b + "))";
    OpenCallParts(head, table, column);
    ClosedTwice(b);
    NotAKeyword(open, '(');
    NotAKeyword(last, ')');
    assert Closing([last], 1) == Some((last, []));
  }

  // One item is stored, and then the others.
  lemma StoresFirst(t: string, tokens: seq<string>, last: string, others: seq<string>)
    requires ItemEnd(Unqualify(t), tokens) == Some((last, others)) && Unqualify(t) !in ASES && last !in FROMS
    requires others == [] || OnlyStores(others)
    ensures OnlyStores([t] + tokens)
    ensures LastStored([t] + tokens) == if others == [] then Unqualify(t) else LastStored(others)
  {
    assert ([t] + tokens)[1..] == tokens;
  }

  lemma OpenCallParts(head: string, table: string, column: string)
    requires Plain(head) && Plain(table) && Plain(column)
    ensures var open := OpenCall(head, table, column);
      Unqualify(open) == column && BehindChar(open, '(') == Some(table + ("." + column))
    ensures Opens(table + ("." + column), 1) == 1
  {
    var front := head + ("(" + table);
    assert OpenCall(head, table, column) == front + (['.'] + column);
    CharBehind(front, '.', column);
    CharBehind(head, '(', table + ("." + column));
    OpensFlat(table + ("." + column), 1);
  }

  lemma {:induction false} OpensFlat(s: string, opens: nat)
    requires forall i | 0 <= i < |s| :: s[i] != '(' && s[i] != ')'
    ensures Opens(s, opens) == opens
  {
    if s != [] && opens > 0 {
      OpensFlat(s[1..], opens);
    }
  }
}

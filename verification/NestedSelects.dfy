// Nested selects: how they are printed, what their result columns mean, and what the alias loop
// takes them for.
module NestedSelects {
  import opened Options
  import opened CString
  import opened Strtok
  import opened Aliases
  import opened PrintedTokens
  import opened CallItems
  import ST = SelectTables

  /** A select of columns, calls and bracketed expressions from one source: base tables, or another
      select. */
  datatype Select = Select(words: Words, items: seq<Item>, from: From, tail: string)
  datatype Item =
    | Column(table: Option<string>, column: string, alias: Option<string>, word: string)
    | Call(head: string, inside: string, alias: Option<string>, word: string)
  datatype From = Base(sources: ST.Sources) | Sub(select: Select, alias: ST.Alias)

  // How the keywords of a list are spelled; `word` in an item is the one in front of its alias.
  datatype Words = Words(select: string, from: string)

  predicate ValidWords(words: Words) {
    (words.select == "select" || words.select == "SELECT") && (words.from == "from" || words.from == "FROM")
  }

  const KEYWORDS := {"as", "AS", "from", "FROM"}

  predicate ValidItem(item: Item) {
    && (item.alias == None || (Plain(item.alias.value) && item.alias.value !in KEYWORDS))
    && (item.word == "as" || item.word == "AS")
    && match item
       case Column(table, column, _, _) =>
         Plain(column) && column !in KEYWORDS && (table == None || Plain(table.value))
       case Call(head, inside, _, _) => ValidCall(head, inside)
  }

  predicate ValidItems(items: seq<Item>) {
    items != [] && forall i | 0 <= i < |items| :: ValidItem(items[i])
  }

  predicate ValidLevels(sel: Select) {
    ValidWords(sel.words) && ValidItems(sel.items) && (sel.from.Sub? ==> ValidLevels(sel.from.select))
  }

  // ----- Printing -----

  function ItemText(item: Item): string {
    match item
    case Column(None, column, _, _) => column
    case Column(Some(table), column, _, _) => table + ("." + column)
    case Call(head, inside, _, _) => CallText(head, inside)
  }

  function PrintAlias(item: Item): string {
    match item.alias
    case None => ""
    case Some(name) => " " + item.word + " " + name
  }

  // The list of items in front of `rest`.
  function List(items: seq<Item>, rest: string): string {
    if items == [] then rest
    else ItemText(items[0]) + (PrintAlias(items[0])
                               + if |items| == 1 then rest else ", " + List(items[1..], rest))
  }

  function ToQuery(sel: Select): ST.Query {
    ST.Query(sel.words.select + (" " + List(sel.items, "")),
             sel.words.from,
             match sel.from
             case Base(sources) => sources
             case Sub(inner, alias) => ST.Last(ST.Source(ST.Nested(ToQuery(inner)), alias)),
             sel.tail)
  }

  function Text(sel: Select): string {
    ST.Print(ToQuery(sel))
  }

  // What stands behind the innermost "from".
  function Innermost(sel: Select, rest: string): string {
    match sel.from
    case Base(sources) => ST.PrintSources(sources) + (sel.tail + rest)
    case Sub(inner, alias) => Innermost(inner, ")" + (ST.PrintAlias(alias) + (sel.tail + rest)))
  }

  // ----- What a result column means -----

  // What an item is: a column of the source, or a call, known by its first token.
  function Meant(item: Item): Outcome {
    match item
    case Column(_, column, _, _) => Field(column)
    case Call(head, inside, _, _) => if head == [] then Expression else Function(Kept(head, inside))
  }

  // What the list shows under the name.
  function Source(items: seq<Item>, name: string): Outcome {
    if items == [] then Field(name)
    else if items[0].alias == Some(name) then Meant(items[0])
    else Source(items[1..], name)
  }

  // The alias maps composed, from the outermost to the innermost.
  function Origin(sel: Select, name: string): Outcome
    decreases sel, 1
  {
    OriginOf(sel, Source(sel.items, name))
  }

  // Where something comes from that the list takes from its source.
  function OriginOf(sel: Select, found: Outcome): Outcome
    decreases sel, 0
  {
    if found.Field? && sel.from.Sub? then Origin(sel.from.select, found.name) else found
  }

  // The name under which an item is shown.
  function Shown(item: Item): string {
    match item
    case Column(_, column, None, _) => column
    case Call(head, inside, None, _) => CallText(head, inside)
    case _ => item.alias.value
  }

  // One row of the result of a select list on one row of its source; `eval` computes the calls.
  function Project<V>(items: seq<Item>, row: map<string, V>, eval: (Item, map<string, V>) -> V): map<string, V> {
    if items == [] then map[]
    else
      var others := Project(items[1..], row, eval);
      match items[0]
      case Column(_, column, _, _) =>
        if column in row then others[Shown(items[0]) := row[column]] else others
      case Call(_, _, _, _) => others[Shown(items[0]) := eval(items[0], row)]
  }

  // One row of the result of a nested select on one row of its base tables.
  function Result<V>(sel: Select, row: map<string, V>, eval: (Item, map<string, V>) -> V): map<string, V> {
    Project(sel.items, if sel.from.Base? then row else Result(sel.from.select, row, eval), eval)
  }

  // ----- What the loop takes a name for -----

  // What a stored token is taken for when its alias is found.
  function OfToken(token: string): Outcome {
    if BehindChar(token, '(') == None then Field(Unqualify(token))
    else if token[0] == '(' then Expression
    else Function(token)
  }

  function Token(item: Item): string {
    match item
    case Column(_, column, _, _) => column
    case Call(head, inside, _, _) => LastStored(CallTokens(head, inside))
  }

  function Taken(item: Item): Outcome {
    OfToken(Token(item))
  }

  // The list's aliases applied one after the other, until a call is found.
  function Through(items: seq<Item>, found: Outcome): Outcome {
    if items == [] || !found.Field? then found
    else Through(items[1..], if items[0].alias == Some(found.name) then Taken(items[0]) else found)
  }

  function ThroughAll(sel: Select, found: Outcome): Outcome {
    var o := Through(sel.items, found);
    if sel.from.Sub? then ThroughAll(sel.from.select, o) else o
  }

  // ----- When the loop is right -----

  // What the loop stores last of a call stands for it: its first token, or for a bracketed
  // expression a token that starts with a bracket.
  predicate Recognised(head: string, inside: string) {
    var stored := LastStored(CallTokens(head, inside));
    if head == [] then FirstOf(stored) == '(' else stored == Kept(head, inside)
  }

  // Every call with an alias is recognised.
  predicate RecognisedCalls(items: seq<Item>) {
    forall k | 0 <= k < |items| && items[k].Call? && items[k].alias.Some? :: Recognised(items[k].head, items[k].inside)
  }

  predicate RecognisedLevels(sel: Select) {
    RecognisedCalls(sel.items) && (sel.from.Sub? ==> RecognisedLevels(sel.from.select))
  }

  // An alias that is the source column of an earlier item comes from where that column comes from.
  ghost predicate Clean(sel: Select) {
    forall i, k | 0 <= i < k < |sel.items| && Renames(sel.items[i])
                  && sel.items[k].alias == Some(sel.items[i].column) ::
      OriginOf(sel, Meant(sel.items[k])) == OriginOf(sel, Field(sel.items[i].column))
  }

  predicate Renames(item: Item) {
    item.Column? && item.alias.Some?
  }

  ghost predicate CleanLevels(sel: Select) {
    Clean(sel) && (sel.from.Sub? ==> CleanLevels(sel.from.select))
  }

  // Nothing stands in the way of a name: the lists are clean, and the calls are recognised unless
  // the name means a column.
  ghost predicate CleanFor(sel: Select, name: string) {
    CleanLevels(sel) && (RecognisedLevels(sel) || Origin(sel, name).Field?)
  }

  ghost predicate DistinctAliases(items: seq<Item>) {
    forall i, k | 0 <= i < k < |items| && items[i].alias.Some? :: items[i].alias != items[k].alias
  }

  ghost predicate DistinctAliasLevels(sel: Select) {
    DistinctAliases(sel.items) && (sel.from.Sub? ==> DistinctAliasLevels(sel.from.select))
  }

  // In every list, taken as a statement of its own, every alias is taken for what it means.
  ghost predicate RightLevels(sel: Select) {
    && (forall k | 0 <= k < |sel.items| && sel.items[k].alias.Some? ::
          ThroughAll(sel, Field(sel.items[k].alias.value)) == Origin(sel, sel.items[k].alias.value))
    && (sel.from.Sub? ==> RightLevels(sel.from.select))
  }

  lemma TakenColumn(item: Item)
    requires ValidItem(item) && item.Column?
    ensures Taken(item) == Meant(item)
  {
    PlainWord(item.column);
  }

  lemma CallToken(head: string, inside: string)
    requires ValidHead(head)
    ensures BehindChar(Kept(head, inside), '(') == Some(TokenOf(inside + ")", DELIMS))
    ensures Kept(head, inside)[0] == '(' <==> head == []
  {
    CharBehind(head, '(', TokenOf(inside + ")", DELIMS));
  }

  /** A call is taken for what it is if and only if it is recognised. */
  lemma TakenCall(item: Item)
    requires ValidItem(item) && item.Call?
    ensures Taken(item) == Meant(item) <==> Recognised(item.head, item.inside)
    ensures Taken(item).Field? ==> EndsShut(Taken(item).name)
  {
    var stored := Token(item);
    CallToken(item.head, item.inside);
    if BehindChar(stored, '(') == None {
      StoredEnds(item.head, item.inside);
      UnqualifiedEnds(stored);
    }
  }

  lemma UndottedIsRecognised(head: string, inside: string)
    requires ValidHead(head) && ST.Balanced(inside) && '.' !in Kept(head, inside)
    ensures Recognised(head, inside)
  {
    UndottedStores(head, inside);
    CallToken(head, inside);
  }

  /** A function call is recognised if and only if its first token holds no '.'; only a later token
      that spells the first one behind a '.' of its own, and so holds two, can undo that. */
  lemma RecognisedIffUndotted(head: string, inside: string)
    requires ValidHead(head) && ST.Balanced(inside) && head != []
    requires forall token | token in CallTokens(head, inside) && '.' in token :: Unqualify(token) != Kept(head, inside)
    ensures Recognised(head, inside) <==> '.' !in Kept(head, inside)
  {
    var tokens, kept := CallTokens(head, inside), Kept(head, inside);
    if '.' in kept {
      FirstOfCall(head, inside);
      StoredIsToken(tokens);
      if LastStored(tokens) == kept {
        var token :| token in tokens && Unqualify(token) == kept;
        NoChar(token, '.');
      }
    } else {
      UndottedIsRecognised(head, inside);
    }
  }

  // ----- Clean lists -----

  lemma {:induction false} ThroughStops(sel: Select, found: Outcome)
    requires !found.Field?
    ensures ThroughAll(sel, found) == found
    decreases sel
  {
    if sel.from.Sub? {
      ThroughStops(sel.from.select, found);
    }
  }

  // On a clean list the loop may rename a column further, but only to one from the same place.
  lemma {:induction false} ThroughKeepsOrigin(sel: Select, i: nat, j: nat)
    requires ValidItems(sel.items) && Clean(sel) && i < j <= |sel.items| && Renames(sel.items[i])
    requires RecognisedCalls(sel.items) || OriginOf(sel, Field(sel.items[i].column)).Field?
    ensures var column := Field(sel.items[i].column);
      OriginOf(sel, Through(sel.items[j..], column)) == OriginOf(sel, column)
    decreases |sel.items| - j
  {
    if j < |sel.items| {
      assert sel.items[j..][1..] == sel.items[j + 1..];
      var item := sel.items[j];
      if item.alias == Some(sel.items[i].column) {
        assert OriginOf(sel, Meant(item)) == OriginOf(sel, Field(sel.items[i].column));
        CleanTaken(sel, j);
        if item.Column? {
          ThroughKeepsOrigin(sel, j, j + 1);
        }
      } else {
        ThroughKeepsOrigin(sel, i, j + 1);
      }
    }
  }

  lemma CleanTaken(sel: Select, k: nat)
    requires ValidItems(sel.items) && k < |sel.items| && sel.items[k].alias.Some?
    requires RecognisedCalls(sel.items) || OriginOf(sel, Meant(sel.items[k])).Field?
    ensures Taken(sel.items[k]) == Meant(sel.items[k])
  {
    if sel.items[k].Call? {
      TakenCall(sel.items[k]);
    } else {
      TakenColumn(sel.items[k]);
    }
  }

  lemma {:induction false} CleanIsRight(sel: Select, j: nat, name: string)
    requires ValidItems(sel.items) && Clean(sel) && j <= |sel.items|
    requires RecognisedCalls(sel.items) || OriginOf(sel, Source(sel.items[j..], name)).Field?
    ensures OriginOf(sel, Through(sel.items[j..], Field(name))) == OriginOf(sel, Source(sel.items[j..], name))
    decreases |sel.items| - j
  {
    if j < |sel.items| {
      assert sel.items[j..][1..] == sel.items[j + 1..];
      if sel.items[j].alias == Some(name) {
        CleanTaken(sel, j);
        if sel.items[j].Column? {
          ThroughKeepsOrigin(sel, j, j + 1);
        }
      } else {
        CleanIsRight(sel, j + 1, name);
      }
    }
  }

  /** When nothing stands in its way, the loop takes a name for what it means. */
  lemma {:induction false} CleanLevelsAreRight(sel: Select, name: string)
    requires ValidLevels(sel) && CleanFor(sel, name)
    ensures ThroughAll(sel, Field(name)) == Origin(sel, name)
    decreases sel
  {
    assert sel.items[0..] == sel.items;
    CleanIsRight(sel, 0, name);
    CleanBelow(sel, Through(sel.items, Field(name)));
  }

  // Below a list, the loop is right about whatever the list gives.
  lemma {:induction false} CleanBelow(sel: Select, found: Outcome)
    requires ValidLevels(sel) && (sel.from.Sub? ==> CleanLevels(sel.from.select))
    requires OriginOf(sel, found).Field? || (sel.from.Sub? ==> RecognisedLevels(sel.from.select))
    ensures (if sel.from.Sub? then ThroughAll(sel.from.select, found) else found) == OriginOf(sel, found)
    decreases sel, 0
  {
    if sel.from.Sub? {
      if found.Field? {
        CleanLevelsAreRight(sel.from.select, found.name);
      } else {
        ThroughStops(sel.from.select, found);
      }
    }
  }

  // ----- Lists that are right -----

  // An alias is not changed in front of its item, and is taken for it there.
  lemma {:induction false} ThroughAt(items: seq<Item>, k: nat)
    requires k < |items| && DistinctAliases(items) && items[k].alias.Some?
    ensures Through(items, Field(items[k].alias.value)) == Through(items[k + 1..], Taken(items[k]))
    ensures Source(items, items[k].alias.value) == Meant(items[k])
  {
    if k > 0 {
      ThroughAt(items[1..], k - 1);
      assert items[1..][k..] == items[k + 1..];
    }
  }

  lemma {:induction false} ThroughBetween(items: seq<Item>, i: nat, k: nat, name: string)
    requires i <= k <= |items| && forall j | i <= j < k :: items[j].alias != Some(name)
    ensures Through(items[i..], Field(name)) == Through(items[k..], Field(name))
    decreases k - i
  {
    if i < k {
      assert items[i..][1..] == items[i + 1..];
      ThroughBetween(items, i + 1, k, name);
    }
  }

  // A name with a bracket is no alias.
  lemma {:induction false} ThroughBracket(items: seq<Item>, name: string)
    requires (forall i | 0 <= i < |items| :: ValidItem(items[i])) && EndsShut(name)
    ensures Through(items, Field(name)) == Field(name)
  {
    if items != [] {
      ThroughBracket(items[1..], name);
    }
  }

  lemma {:induction false} ThroughAllBracket(sel: Select, name: string)
    requires ValidLevels(sel) && EndsShut(name)
    ensures ThroughAll(sel, Field(name)) == Field(name)
    decreases sel
  {
    ThroughBracket(sel.items, name);
    if sel.from.Sub? {
      ThroughAllBracket(sel.from.select, name);
    }
  }

  /** What becomes of the alias of a call, in lists of any depth: it is what the call is taken for. */
  lemma CallIsTaken(sel: Select, k: nat)
    requires ValidLevels(sel) && DistinctAliases(sel.items)
    requires k < |sel.items| && sel.items[k].Call? && sel.items[k].alias.Some?
    ensures ThroughAll(sel, Field(sel.items[k].alias.value)) == Taken(sel.items[k])
    ensures Origin(sel, sel.items[k].alias.value) == Meant(sel.items[k])
  {
    var taken := Taken(sel.items[k]);
    ThroughAt(sel.items, k);
    TakenCall(sel.items[k]);
    if taken.Field? {
      ThroughBracket(sel.items[k + 1..], taken.name);
      if sel.from.Sub? {
        ThroughAllBracket(sel.from.select, taken.name);
      }
    } else if sel.from.Sub? {
      ThroughStops(sel.from.select, taken);
    }
  }

  // Two items of which the second's alias is the first's source column share their outcome.
  lemma {:induction false} SharedOutcome(items: seq<Item>, i: nat, k: nat)
    requires ValidItems(items) && DistinctAliases(items) && i < k < |items|
    requires Renames(items[i]) && items[k].alias == Some(items[i].column)
    ensures Through(items, Field(items[i].alias.value)) == Through(items, Field(items[k].alias.value))
  {
    ThroughAt(items, i);
    ThroughAt(items, k);
    TakenColumn(items[i]);
    ThroughBetween(items, i + 1, k, items[i].column);
    assert items[k..][1..] == items[k + 1..];
  }

  lemma RightIsClean(sel: Select)
    requires ValidLevels(sel) && DistinctAliases(sel.items)
    requires forall k | 0 <= k < |sel.items| && sel.items[k].alias.Some? ::
               ThroughAll(sel, Field(sel.items[k].alias.value)) == Origin(sel, sel.items[k].alias.value)
    ensures Clean(sel) && RecognisedCalls(sel.items)
  {
    var items := sel.items;
    forall k | 0 <= k < |items| && items[k].Call? && items[k].alias.Some?
      ensures Recognised(items[k].head, items[k].inside)
    {
      CallIsTaken(sel, k);
      TakenCall(items[k]);
    }
    forall i, k | 0 <= i < k < |items| && Renames(items[i]) && items[k].alias == Some(items[i].column)
      ensures OriginOf(sel, Meant(items[k])) == OriginOf(sel, Field(items[i].column))
    {
      SharedOutcome(items, i, k);
      ThroughAt(items, i);
      ThroughAt(items, k);
      assert Origin(sel, items[i].alias.value) == Origin(sel, items[k].alias.value);
    }
  }

  /** In the lists of a nested select, every alias is taken for what it means if and only if every
      list is clean and every call recognised. */
  lemma {:induction false} RightIffClean(sel: Select)
    requires ValidLevels(sel) && DistinctAliasLevels(sel)
    ensures RightLevels(sel) <==> CleanLevels(sel) && RecognisedLevels(sel)
    decreases sel
  {
    if sel.from.Sub? {
      RightIffClean(sel.from.select);
    }
    if RightLevels(sel) {
      RightIsClean(sel);
    }
    if CleanLevels(sel) && RecognisedLevels(sel) {
      forall k | 0 <= k < |sel.items| && sel.items[k].alias.Some?
        ensures ThroughAll(sel, Field(sel.items[k].alias.value)) == Origin(sel, sel.items[k].alias.value)
      {
        CleanLevelsAreRight(sel, sel.items[k].alias.value);
      }
    }
  }

  // ----- Examples -----

  // "select b as a, a as b" shows each column under the other's name; the loop undoes the swap.
  lemma SwapIsLost(a: string, b: string, sources: ST.Sources, words: Words)
    requires a != b && Plain(a) && Plain(b)
    ensures var items := [Column(None, b, Some(a), "as"), Column(None, a, Some(b), "as")];
      var sel := Select(words, items, Base(sources), "");
      ThroughAll(sel, Field(a)) == Field(a) && Origin(sel, a) == Field(b)
  {
    var items := [Column(None, b, Some(a), "as"), Column(None, a, Some(b), "as")];
    PlainWord(a);
    PlainWord(b);
    assert items[1..] == [items[1]] && items[1..][1..] == [];
    assert Through(items[1..], Field(b)) == Through([], Field(a));
  }

  // In "select b as a, c as b from (select x as b, x as c from t) as s" the loop confuses b and c,
  // but both are the same column of t.
  lemma ConfusionCanCancel(a: string, b: string, c: string, x: string, sources: ST.Sources, words: Words)
    requires a != b && a != c && b != c && b != x && c != x && Plain(a) && Plain(b) && Plain(c) && Plain(x)
    ensures var outer := [Column(None, b, Some(a), "as"), Column(None, c, Some(b), "as")];
      var inner := Select(words, [Column(None, x, Some(b), "as"), Column(None, x, Some(c), "as")], Base(sources), "");
      CleanLevels(Select(words, outer, Sub(inner, ST.As("as", "s")), ""))
  {
    var outer := [Column(None, b, Some(a), "as"), Column(None, c, Some(b), "as")];
    var items := [Column(None, x, Some(b), "as"), Column(None, x, Some(c), "as")];
    var inner := Select(words, items, Base(sources), "");
    var sel := Select(words, outer, Sub(inner, ST.As("as", "s")), "");
    SourceOfTwo(items, b);
    SourceOfTwo(items, c);
    assert Clean(inner);
    assert OriginOf(sel, Field(b)) == Origin(inner, b) == OriginOf(inner, Field(x));
    assert OriginOf(sel, Field(c)) == Origin(inner, c) == OriginOf(inner, Field(x));
  }

  lemma SourceOfTwo(items: seq<Item>, name: string)
    requires |items| == 2
    ensures Source(items, name) == if items[0].alias == Some(name) then Meant(items[0])
                                   else if items[1].alias == Some(name) then Meant(items[1])
                                   else Field(name)
  {
    assert items[1..] == [items[1]] && items[1..][1..] == [];
    assert Source(items[1..], name) == if items[1].alias == Some(name) then Meant(items[1]) else Field(name);
  }

  // ----- Rows -----

  // Every item is shown under a name of its own, and every call has an alias.
  ghost predicate DistinctShown(items: seq<Item>) {
    && (forall i, k | 0 <= i < k < |items| :: Shown(items[i]) != Shown(items[k]))
    && forall i | 0 <= i < |items| :: items[i].Call? ==> items[i].alias.Some?
  }

  ghost predicate DistinctLevels(sel: Select) {
    DistinctShown(sel.items) && (sel.from.Sub? ==> DistinctLevels(sel.from.select))
  }

  lemma {:induction false} NotAnAlias(items: seq<Item>, name: string)
    requires forall i | 0 <= i < |items| :: Shown(items[i]) != name
    ensures Source(items, name) == Field(name)
  {
    if items != [] {
      NotAnAlias(items[1..], name);
    }
  }

  lemma {:induction false} ProjectShows<V>(items: seq<Item>, row: map<string, V>, eval: (Item, map<string, V>) -> V,
                                           name: string)
    requires DistinctShown(items) && name in Project(items, row, eval)
    ensures var found := Source(items, name);
      found.Field? ==> found.name in row && Project(items, row, eval)[name] == row[found.name]
    ensures exists i | 0 <= i < |items| :: Shown(items[i]) == name
  {
    var others := Project(items[1..], row, eval);
    if name == Shown(items[0]) && (items[0].Column? ==> items[0].column in row) {
      if items[0].alias == None {
        NotAnAlias(items[1..], name);
      }
    } else {
      ProjectShows(items[1..], row, eval, name);
      var i :| 0 <= i < |items[1..]| && Shown(items[1..][i]) == name;
      assert Shown(items[i + 1]) == name;
    }
  }

  /** A result column that comes from a column of the base tables shows that column's value. */
  lemma {:induction false} ResultShows<V>(sel: Select, row: map<string, V>, eval: (Item, map<string, V>) -> V,
                                          name: string)
    requires DistinctLevels(sel) && name in Result(sel, row, eval)
    ensures var origin := Origin(sel, name);
      origin.Field? ==> origin.name in row && Result(sel, row, eval)[name] == row[origin.name]
    decreases sel
  {
    match sel.from {
      case Base(_) =>
        ProjectShows(sel.items, row, eval, name);
      case Sub(inner, _) =>
        ProjectShows(sel.items, Result(inner, row, eval), eval, name);
        var found := Source(sel.items, name);
        if found.Field? {
          ResultShows(inner, row, eval, found.name);
        }
    }
  }
}

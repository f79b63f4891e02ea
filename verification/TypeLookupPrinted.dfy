// The declared type that is found for a result field of a printed nested select.
module TypeLookupPrinted {
  import opened Options
  import opened CString
  import opened Strtok
  import opened Aliases
  import opened PrintedTokens
  import opened CallItems
  import opened NestedSelects
  import opened AliasesPrinted
  import ST = SelectTables
  import TL = TypeLookup

  // One row of the table_info pragma, and the columns of every table of a database.
  datatype Info = Info(cid: string, name: string, kind: string, notnull: string, initial: string, key: string)
  type Database = map<string, seq<Info>>

  function Cells(rows: seq<Info>): (c: seq<string>)
    ensures |c| == 6 * |rows|
  {
    if rows == [] then []
    else
      var row := rows[0];
      [row.cid, row.name, row.kind, row.notnull, row.initial, row.key] + Cells(rows[1..])
  }

  // The answer for a table: its rows behind any titles, and no rows for an unknown table.
  ghost predicate Answers(a: TL.Answer, rows: seq<Info>) {
    if rows == [] then a == TL.Failed || a.numrows == 0
    else a.Answer? && a.numrows == |rows| && |a.cells| == 6 + 6 * |rows| && a.cells[6..] == Cells(rows)
  }

  function RowsOf(db: Database, table: string): seq<Info> {
    if table in db then db[table] else []
  }

  ghost predicate Serves(server: TL.Server, db: Database) {
    forall table :: Answers(server(table), RowsOf(db, table))
  }

  ghost predicate HasColumn(rows: seq<Info>, name: string) {
    exists i | 0 <= i < |rows| :: rows[i].name == name
  }

  // The rows declare the column with this type.
  ghost predicate Typed(rows: seq<Info>, name: string, kind: string) {
    exists i | 0 <= i < |rows| :: rows[i].name == name && rows[i].kind == kind
  }

  // Table t is the first of the tables that has the column, and declares it with this type.
  ghost predicate FoundAt(tables: seq<string>, db: Database, name: string, kind: string, t: nat) {
    && t < |tables| && Typed(RowsOf(db, tables[t]), name, kind)
    && forall u | 0 <= u < t :: !HasColumn(RowsOf(db, tables[u]), name)
  }

  ghost predicate NoneHas(tables: seq<string>, db: Database, name: string) {
    forall t | 0 <= t < |tables| :: !HasColumn(RowsOf(db, tables[t]), name)
  }

  ghost predicate DistinctColumns(rows: seq<Info>) {
    forall i, k | 0 <= i < k < |rows| :: rows[i].name != rows[k].name
  }

  // ----- One table -----

  lemma {:induction false} CellOf(rows: seq<Info>, i: nat)
    requires i < |rows|
    ensures Cells(rows)[6 * i + 1] == rows[i].name && Cells(rows)[6 * i + 2] == rows[i].kind
  {
    if i > 0 {
      CellOf(rows[1..], i - 1);
      assert Cells(rows)[6..] == Cells(rows[1..]);
      assert Cells(rows)[6 * i + 1] == Cells(rows)[6..][6 * (i - 1) + 1];
      assert Cells(rows)[6 * i + 2] == Cells(rows)[6..][6 * (i - 1) + 2];
    }
  }

  /** The scan in steps of six sees the name and the type of every row, and nothing else. */
  lemma ScanSeesRows(a: TL.Answer, rows: seq<Info>, name: string)
    requires Answers(a, rows) && TL.WellFormed(a)
    ensures match TL.DeclaredIn(a, name)
      case None => forall i | 0 <= i < |rows| :: rows[i].name != name
      case Some(kind) => exists i | 0 <= i < |rows| ::
        rows[i].name == name && rows[i].kind == kind && forall k | i < k < |rows| :: rows[k].name != name
  {
    if rows != [] {
      forall i | 0 <= i < |rows|
        ensures TL.NameIn(a.cells, i) == rows[i].name && TL.KindIn(a.cells, i) == rows[i].kind
      {
        CellOf(rows, i);
        assert a.cells[6 + 6 * i + 1] == a.cells[6..][6 * i + 1];
        assert a.cells[6 + 6 * i + 2] == a.cells[6..][6 * i + 2];
      }
    }
  }

  lemma OneTable(server: TL.Server, db: Database, table: string, name: string)
    requires Serves(server, db)
    ensures match TL.DeclaredIn(server(table), name)
      case None => !HasColumn(RowsOf(db, table), name)
      case Some(kind) => Typed(RowsOf(db, table), name, kind)
  {
    ScanSeesRows(server(table), RowsOf(db, table), name);
  }

  /** The search gives the type in the first table that has the column. */
  lemma {:induction false} SearchFindsFirst(tables: seq<string>, server: TL.Server, db: Database, name: string)
    returns (t: nat)
    requires Serves(server, db)
    ensures match TL.FirstDeclared(tables, server, name)
      case None => NoneHas(tables, db, name)
      case Some(kind) => FoundAt(tables, db, name, kind, t)
  {
    hide FoundAt;
    t := 0;
    if tables != [] {
      OneTable(server, db, tables[0], name);
      if TL.DeclaredIn(server(tables[0]), name) == None {
        t := SearchFindsFirst(tables[1..], server, db, name);
        var found := TL.FirstDeclared(tables[1..], server, name);
        if found.Some? {
          FoundBehind(tables, db, name, found.value, t);
          t := t + 1;
        } else {
          NoneBehind(tables, db, name);
        }
      } else {
        FoundFirst(tables, db, name, TL.DeclaredIn(server(tables[0]), name).value);
      }
    }
  }

  lemma FoundFirst(tables: seq<string>, db: Database, name: string, kind: string)
    requires tables != [] && Typed(RowsOf(db, tables[0]), name, kind)
    ensures FoundAt(tables, db, name, kind, 0)
  {
  }

  lemma NoneBehind(tables: seq<string>, db: Database, name: string)
    requires tables != [] && !HasColumn(RowsOf(db, tables[0]), name) && NoneHas(tables[1..], db, name)
    ensures NoneHas(tables, db, name)
  {
    assert forall u | 0 < u < |tables| :: tables[u] == tables[1..][u - 1];
  }

  lemma FoundBehind(tables: seq<string>, db: Database, name: string, kind: string, t: nat)
    requires tables != [] && !HasColumn(RowsOf(db, tables[0]), name) && FoundAt(tables[1..], db, name, kind, t)
    ensures FoundAt(tables, db, name, kind, t + 1)
  {
    assert forall u | 0 < u < t + 1 :: tables[u] == tables[1..][u - 1];
  }

  // ----- The printed statement for getTables -----

  // The statement is one that getTables is made for, no call in it holds the keyword that its list
  // ends with, and one with an upper-case keyword holds no " from " at all.
  predicate ValidFrom(sel: Select) {
    && ST.ValidTail(sel.tail)
    && CallsAreFree(sel.items, sel.words.from)
    && (sel.words.from == "FROM" ==> FromFree(Text(sel), "from"))
    && match sel.from
       case Base(sources) => ST.ValidSources(sources)
       case Sub(inner, alias) => ValidFrom(inner) && ST.ValidAlias(alias)
  }

  predicate CallsAreFree(items: seq<Item>, from: string) {
    items == [] || ((items[0].Call? ==> FromFree(" " + ItemText(items[0]), from)) && CallsAreFree(items[1..], from))
  }

  predicate IsFrom(from: string) {
    from == "from" || from == "FROM"
  }

  // The text does not hold the keyword.
  predicate FromFree(text: string, from: string) {
    ST.Behind(text, ST.Keyword(from)) == None
  }

  lemma {:induction false} FreeBehindWord(w: string, rest: string, from: string)
    requires IsFrom(from) && ' ' !in w && FromFree(rest, from)
    ensures FromFree(w + rest, from)
  {
    if w == [] {
      assert w + rest == rest;
    } else {
      var s := w + rest;
      assert s[0] == w[0] && s[1..] == w[1..] + rest;
      assert |s| >= 6 ==> s[..6][0] != ST.Keyword(from)[0];
      FreeBehindWord(w[1..], rest, from);
    }
  }

  lemma FreeBehindBlank(w: string, rest: string, from: string)
    requires IsFrom(from) && w != [] && ' ' !in w && w != from && (rest == [] || rest[0] == ' ') && FromFree(rest, from)
    ensures FromFree(" " + (w + rest), from)
  {
    FreeBehindWord(w, rest, from);
    NotFrom(w, rest, from);
    assert (" " + (w + rest))[1..] == w + rest;
  }

  lemma NotFrom(w: string, rest: string, from: string)
    requires IsFrom(from) && ' ' !in w && w != from && (rest == [] || rest[0] == ' ')
    ensures var s := " " + (w + rest); |s| >= 6 ==> s[..6] != ST.Keyword(from)
  {
    var s := " " + (w + rest);
    if |s| >= 6 {
      if |w| == 4 {
        FourLetters(w, rest, from);
      } else if |w| < 4 {
        assert s[..6][1 + |w|] == rest[0] && ST.Keyword(from)[1 + |w|] != ' ';
      } else {
        assert s[..6][5] == w[4] && ST.Keyword(from)[5] == ' ';
      }
    }
  }

  lemma FourLetters(w: string, rest: string, from: string)
    requires |w| == |from| == 4 && rest != []
    ensures (" " + (w + rest))[..6][1..5] == w && ST.Keyword(from)[1..5] == from
  {
    assert (" " + (w + rest))[1..5] == w;
  }

  // What follows the first item of the list.
  function After(items: seq<Item>, from: string): string
    requires items != []
  {
    if |items| == 1 then " " + from else ", " + List(items[1..], " " + from)
  }

  // A word of the list with what follows the item.
  lemma FreeAtEnd(w: string, items: seq<Item>, from: string)
    requires IsFrom(from) && items != [] && w != [] && ' ' !in w && ',' !in w && w != from
    requires |items| > 1 ==> FromFree(" " + List(items[1..], " " + from), from)
    ensures FromFree(" " + (w + After(items, from)), from)
  {
    if |items| == 1 {
      FreeBehindBlank(w, " " + from, from);
    } else {
      var others := " " + List(items[1..], " " + from);
      var w' := w + ",";
      assert w'[|w|] == ',' && ',' !in from;
      FreeBehindBlank(w', others, from);
      WordAndComma(w, List(items[1..], " " + from));
    }
  }

  lemma WordAndComma(w: string, others: string)
    ensures w + (", " + others) == w + "," + (" " + others)
  {
  }

  // What follows the text of the first item.
  lemma RestIsFree(items: seq<Item>, from: string)
    requires IsFrom(from) && ValidItems(items)
    requires |items| > 1 ==> FromFree(" " + List(items[1..], " " + from), from)
    ensures FromFree(PrintAlias(items[0]) + After(items, from), from)
  {
    assert ValidItem(items[0]);
    match items[0].alias {
      case None =>
        assert "" + After(items, from) == After(items, from);
        AfterIsFree(items, from);
      case Some(name) =>
        FreeAtEnd(name, items, from);
        FreeBehindBlank(items[0].word, " " + (name + After(items, from)), from);
        AsAndAlias(items[0].word, name, After(items, from));
    }
  }

  lemma AfterIsFree(items: seq<Item>, from: string)
    requires IsFrom(from) && items != [] && (|items| > 1 ==> FromFree(" " + List(items[1..], " " + from), from))
    ensures FromFree(After(items, from), from)
  {
    if |items| > 1 {
      var others := List(items[1..], " " + from);
      FreeBehindWord(",", " " + others, from);
      CommaAndBlank(others);
    }
  }

  lemma CommaAndBlank(others: string)
    ensures ", " + others == "," + (" " + others)
  {
  }

  lemma AsAndAlias(word: string, name: string, rest: string)
    ensures " " + word + " " + name + rest == " " + (word + (" " + (name + rest)))
  {
  }

  // What ends with a bracket cannot start a " from " that goes on behind it.
  lemma {:induction false} FreeShut(a: string, rest: string, from: string)
    requires IsFrom(from) && EndsShut(a) && FromFree(a, from) && FromFree(rest, from)
    ensures FromFree(a + rest, from)
  {
    if |a| == 1 {
      FreeBehindWord(a, rest, from);
    } else {
      var s := a + rest;
      assert s[1..] == a[1..] + rest;
      FreeShut(a[1..], rest, from);
      if |a| < 6 <= |s| {
        assert s[..6][|a| - 1] == ')';
      } else if |a| >= 6 {
        assert s[..6] == a[..6];
      }
    }
  }

  lemma ColumnIsFree(items: seq<Item>, from: string)
    requires IsFrom(from) && ValidItems(items) && items[0].Column?
    requires |items| > 1 ==> FromFree(" " + List(items[1..], " " + from), from)
    ensures FromFree(" " + (ItemText(items[0]) + (PrintAlias(items[0]) + After(items, from))), from)
  {
    var w := ItemText(items[0]);
    WordOfColumn(items[0]);
    match items[0].alias {
      case None =>
        assert "" + After(items, from) == After(items, from);
        FreeAtEnd(w, items, from);
      case Some(name) =>
        RestIsFree(items, from);
        FreeBehindBlank(w, PrintAlias(items[0]) + After(items, from), from);
    }
  }

  lemma WordOfColumn(item: Item)
    requires ValidItem(item) && item.Column?
    ensures var w := ItemText(item); w != [] && ' ' !in w && ',' !in w && w != "from" && w != "FROM"
  {
    assert '.' !in "from" && '.' !in "FROM";
    if item.table.Some? {
      assert ItemText(item)[|item.table.value|] == '.';
    }
  }

  lemma CallIsFree(items: seq<Item>, from: string)
    requires IsFrom(from) && ValidItems(items) && items[0].Call? && FromFree(" " + ItemText(items[0]), from)
    requires |items| > 1 ==> FromFree(" " + List(items[1..], " " + from), from)
    ensures FromFree(" " + (ItemText(items[0]) + (PrintAlias(items[0]) + After(items, from))), from)
  {
    hide FromFree, After, PrintAlias, List, ItemText, EndsShut, ValidItem;
    var call, rest := ItemText(items[0]), PrintAlias(items[0]) + After(items, from);
    RestIsFree(items, from);
    CallEndsShut(items[0]);
    FreeShut(" " + call, rest, from);
    BlankInFront(call, rest);
  }

  lemma BlankInFront(a: string, rest: string)
    ensures " " + (a + rest) == " " + a + rest
  {
  }

  lemma CallEndsShut(item: Item)
    requires ValidItem(item) && item.Call?
    ensures EndsShut(" " + ItemText(item))
  {
  }

  lemma {:induction false} ListIsFree(items: seq<Item>, from: string)
    requires IsFrom(from) && ValidItems(items)
    requires CallsAreFree(items, from)
    ensures FromFree(" " + List(items, " " + from), from)
    decreases |items|
  {
    if |items| > 1 {
      ListIsFree(items[1..], from);
    }
    if items[0].Column? {
      ColumnIsFree(items, from);
    } else {
      CallIsFree(items, from);
    }
  }

  lemma ItemIsBalanced(item: Item)
    requires ValidItem(item)
    ensures ST.Balanced(ItemText(item)) && ST.Balanced(PrintAlias(item))
  {
    ST.Flat(PrintAlias(item));
    match item {
      case Column(_, _, _, _) =>
        ST.Flat(ItemText(item));
      case Call(head, inside, _, _) =>
        ST.Flat(head);
        CallIsBalanced(head, inside);
    }
  }

  lemma {:induction false} ListIsBalanced(items: seq<Item>)
    requires ValidItems(items)
    ensures ST.Balanced(List(items, ""))
    decreases |items|
  {
    ItemIsBalanced(items[0]);
    var rest := if |items| == 1 then "" else ", " + List(items[1..], "");
    if |items| > 1 {
      ListIsBalanced(items[1..]);
      ST.Flat(", ");
      ST.BalancedAppend(", ", List(items[1..], ""));
    }
    ST.BalancedAppend(PrintAlias(items[0]), rest);
    ST.BalancedAppend(ItemText(items[0]), PrintAlias(items[0]) + rest);
  }

  lemma SelectIsFree(words: Words, list: string)
    requires ValidWords(words) && FromFree(" " + (list + (" " + words.from)), words.from)
    ensures FromFree(words.select + (" " + list) + (" " + words.from), words.from)
  {
    FreeBehindWord(words.select, " " + (list + (" " + words.from)), words.from);
    SelectText(words.select, list, " " + words.from);
  }

  lemma SelectText(select: string, list: string, from: string)
    ensures select + (" " + list) + from == select + (" " + (list + from))
  {
  }

  lemma ColumnsAreBalanced(words: Words, items: seq<Item>)
    requires ValidWords(words) && ValidItems(items)
    ensures ST.Balanced(words.select + (" " + List(items, "")))
  {
    ListIsBalanced(items);
    ST.Flat(words.select);
    ST.Flat(" ");
    ST.BalancedAppend(" ", List(items, ""));
    ST.BalancedAppend(words.select, " " + List(items, ""));
  }

  lemma {:induction false} ColumnsAreFree(words: Words, items: seq<Item>)
    requires ValidWords(words) && ValidItems(items) && CallsAreFree(items, words.from)
    ensures FromFree(words.select + (" " + List(items, "")) + (" " + words.from), words.from)
  {
    ListAndFrom(items, " " + words.from);
    ListIsFree(items, words.from);
    SelectIsFree(words, List(items, ""));
  }

  lemma ListAndFrom(items: seq<Item>, from: string)
    ensures List(items, "") + from == List(items, from)
  {
    ListRest(items, "", from);
    assert "" + from == from;
  }

  // The keyword behind the list is the first that getTables looks for.
  lemma SelectStarts(sel: Select)
    requires ValidWords(sel.words) && ValidItems(sel.items) && CallsAreFree(sel.items, sel.words.from)
    requires sel.words.from == "FROM" ==> FromFree(Text(sel), "from")
    ensures var query := ToQuery(sel);
      ST.StartsList(query.columns, query.from, ST.PrintSources(query.sources) + query.tail)
  {
    ColumnsAreFree(sel.words, sel.items);
    assert ST.Keyword("from") == " from " && Text(sel) == ST.Print(ToQuery(sel));
  }

  lemma {:induction false} QueryIsValid(sel: Select)
    requires ValidLevels(sel) && ValidFrom(sel)
    ensures ST.Valid(ToQuery(sel))
    decreases sel
  {
    ColumnsAreBalanced(sel.words, sel.items);
    SelectStarts(sel);
    match sel.from {
      case Base(_) =>
      case Sub(inner, alias) =>
        QueryIsValid(inner);
        var source := ST.Source(ST.Nested(ToQuery(inner)), alias);
        assert ST.ValidSource(source);
        assert ST.ValidSources(ST.Last(source));
    }
  }

  // ----- The whole lookup -----

  lemma Unqualified(name: string)
    requires '.' !in name
    ensures Unqualify(name) == name && TL.TableOf(name) == ""
  {
    NoChar(name, '.');
  }

  lemma TablesOfSelect(sel: Select)
    requires ValidLevels(sel) && ValidFrom(sel)
    ensures ST.GetTables(Text(sel), []) == ST.Tables(ST.Found(ToQuery(sel)))
  {
    QueryIsValid(sel);
    ST.FoundInPrinted(ToQuery(sel), []);
    assert [] + ST.Found(ToQuery(sel)) == ST.Found(ToQuery(sel));
  }

  // What the lookup makes of what a name means.
  function TypeOf(origin: Outcome, tables: seq<string>, server: TL.Server): TL.Result {
    match origin
    case Field(column) => TL.OrFallback(TL.FirstDeclared(tables, server, column))
    case Expression => TL.Fallback
    case Function(call) => TL.Call(call)
    case Undefined => TL.Unclear
  }

  lemma {:induction false} LookupOfPrinted(sel: Select, name: string, server: TL.Server)
    requires Valid(sel) && ValidFrom(sel) && CleanFor(sel, name) && '.' !in name
    ensures TL.FieldType(Text(sel), name, server) == TypeOf(Origin(sel, name), ST.Found(ToQuery(sel)), server)
  {
    hide CleanFor, Origin, Text, ToQuery, ValidLevels, FieldOf;
    Unqualified(name);
    ResolutionComposes(sel, name);
    TablesOfSelect(sel);
  }

  // One list over base tables, of which the scan does not see the end.
  ghost predicate Ragged(sel: Select, name: string) {
    && Valid(sel) && CleanFor(sel, name) && Origin(sel, name).Field? && '.' !in name
    && sel.from.Base? && ST.ValidSources(sel.from.sources) && CallsAreFree(sel.items, sel.words.from)
    && (sel.words.from == "FROM" ==> FromFree(Text(sel), "from"))
  }

  /** A field that means a column stays undefined when a bracket behind the sources is never closed. */
  lemma TypeBesideUnclosed(sel: Select, name: string, separator: string, inner: string, server: TL.Server)
    requires Ragged(sel, name) && ST.Depth(inner, 0).Some? && sel.tail == separator + ("(" + inner)
    requires separator != [] && forall i | 0 <= i < |separator| :: separator[i] == ',' || separator[i] == ' '
    ensures TL.FieldType(Text(sel), name, server) == TL.Unclear
  {
    hide ST.Depth, ST.ValidSources, CleanFor, Origin, ST.StartsList;
    Unqualified(name);
    ResolutionComposes(sel, name);
    SelectStarts(sel);
    ST.UnclosedIsOverrun(ToQuery(sel).columns, sel.words.from, sel.from.sources, separator, inner, []);
  }

  /** And it ends at the part that is left out when a join follows the sources. */
  lemma {:induction false} TypeBesideJoin(sel: Select, name: string, words: seq<string>, join: string, table: string,
                                          rest: string, server: TL.Server)
    requires Ragged(sel, name) && sel.tail == " " + (ST.PrintWords(words) + ST.JoinTo(join, table, rest))
    requires ST.ValidName(table) && ST.Stops(rest) && Lower(join) == "join"
    requires forall i | 0 <= i < |words| :: ST.StartsJoin(words[i])
    ensures TL.FieldType(Text(sel), name, server) == TL.JoinSkip
  {
    hide ST.ValidName, ST.PrintWords, ST.StartsJoin, Lower, ST.ValidSources, CleanFor, Origin, ST.StartsList, ST.Stops;
    Unqualified(name);
    ResolutionComposes(sel, name);
    SelectStarts(sel);
    ST.TableBehindJoin(ToQuery(sel).columns, sel.words.from, sel.from.sources, words, join, table, rest, []);
  }

  /** A call that is never closed leaves any field undefined. */
  lemma {:induction false} TypeInUnclosed(select: string, head: string, inside: string, field: string,
                                          server: TL.Server)
    requires (select == "select" || select == "SELECT") && ValidHead(head) && ST.Depth(inside, 0).Some?
    requires '.' !in head + ("(" + TokenOf(inside, DELIMS))
    ensures TL.FieldType(select + (" " + (head + ("(" + inside))), field, server) == TL.Unclear
  {
    UnclosedIsUndefined(select, head, inside, field);
  }

  // The result is the type of the column in the first table that has it, or none has it.
  ghost predicate LookedUp(found: TL.Result, tables: seq<string>, db: Database, column: string, t: nat) {
    match found
    case Declared(kind) => FoundAt(tables, db, column, kind, t)
    case Fallback => NoneHas(tables, db, column)
    case _ => false
  }

  /** For every printed nested select in which nothing stands in a field's way, its type is that of
      the call it means, or that of the composed column in the first table, in getTables order, that
      has it. */
  lemma TypeOfPrinted(sel: Select, name: string, server: TL.Server, db: Database) returns (t: nat)
    requires Valid(sel) && ValidFrom(sel) && CleanFor(sel, name) && Serves(server, db) && '.' !in name
    ensures var found := TL.FieldType(Text(sel), name, server);
      match Origin(sel, name)
      case Field(column) => LookedUp(found, ST.Found(ToQuery(sel)), db, column, t)
      case Expression => found == TL.Fallback
      case Function(call) => found == TL.Call(call)
      case Undefined => false
  {
    t := 0;
    LookupOfPrinted(sel, name, server);
    OriginIsDefined(sel, name);
    var origin := Origin(sel, name);
    if origin.Field? {
      t := SearchLooksUp(ST.Found(ToQuery(sel)), server, db, origin.name);
    }
  }

  lemma SearchLooksUp(tables: seq<string>, server: TL.Server, db: Database, column: string) returns (t: nat)
    requires Serves(server, db)
    ensures LookedUp(TL.OrFallback(TL.FirstDeclared(tables, server, column)), tables, db, column, t)
  {
    t := SearchFindsFirst(tables, server, db, column);
  }

  lemma {:induction false} OriginIsDefined(sel: Select, name: string)
    ensures Origin(sel, name) != Undefined
    decreases sel
  {
    SourceIsDefined(sel.items, name);
    var found := Source(sel.items, name);
    if found.Field? && sel.from.Sub? {
      OriginIsDefined(sel.from.select, found.name);
    }
  }

  lemma {:induction false} SourceIsDefined(items: seq<Item>, name: string)
    ensures Source(items, name) != Undefined
  {
    if items != [] {
      SourceIsDefined(items[1..], name);
    }
  }

  lemma QualifiedType(sel: Select, table: string, name: string, server: TL.Server)
    requires Valid(sel) && CleanFor(sel, name) && '.' !in table && table != ""
    ensures TL.FieldType(Text(sel), table + ("." + name), server)
         == match Origin(sel, name)
            case Field(column) => TL.OrFallback(TL.DeclaredIn(server(table), column))
            case other => TypeOf(other, [], server)
  {
    var field := table + ("." + name);
    Qualified(table, name);
    ResolutionComposes(sel, field);
  }

  lemma Qualified(table: string, name: string)
    requires '.' !in table
    ensures var field := table + ("." + name); Unqualify(field) == name && TL.TableOf(field) == table
  {
    CharBehind(table, '.', name);
    assert (table + ("." + name))[..|table|] == table;
  }

  /** With a table name in front of the field, only that table is asked for a column. */
  lemma TypeOfQualified(sel: Select, table: string, name: string, server: TL.Server, db: Database)
    requires Valid(sel) && CleanFor(sel, name) && Serves(server, db) && '.' !in table && table != ""
    ensures var found := TL.FieldType(Text(sel), table + ("." + name), server);
      match Origin(sel, name)
      case Field(column) => LookedUp(found, [table], db, column, 0)
      case Expression => found == TL.Fallback
      case Function(call) => found == TL.Call(call)
      case Undefined => false
  {
    QualifiedType(sel, table, name, server);
    OriginIsDefined(sel, name);
    var origin := Origin(sel, name);
    if origin.Field? {
      OneLookedUp(server, db, table, origin.name);
    }
  }

  lemma OneLookedUp(server: TL.Server, db: Database, table: string, column: string)
    requires Serves(server, db)
    ensures LookedUp(TL.OrFallback(TL.DeclaredIn(server(table), column)), [table], db, column, 0)
  {
    OneTable(server, db, table, column);
  }

  /** In a nested select over one base table, the type of a result field is the declared type of
      the column whose value the field shows. */
  lemma TypeOfShownColumn<V>(sel: Select, name: string, server: TL.Server, db: Database, table: string,
                             row: map<string, V>, eval: (Item, map<string, V>) -> V)
    requires Valid(sel) && ValidFrom(sel) && CleanLevels(sel) && DistinctLevels(sel) && Serves(server, db)
    requires ST.BaseTables(ToQuery(sel)) == [table] && DistinctColumns(RowsOf(db, table))
    requires forall column | column in row :: HasColumn(RowsOf(db, table), column)
    requires '.' !in name && name in Result(sel, row, eval)
    ensures var rows := RowsOf(db, table);
      Origin(sel, name).Field? ==> exists i | 0 <= i < |rows| ::
        && rows[i].name in row && Result(sel, row, eval)[name] == row[rows[i].name]
        && TL.FieldType(Text(sel), name, server) == TL.Declared(rows[i].kind)
  {
    var tables, origin := ST.Found(ToQuery(sel)), Origin(sel, name);
    ResultShows(sel, row, eval, name);
    ST.FoundTables(ToQuery(sel));
    if origin.Field? {
      var t := TypeOfPrinted(sel, name, server, db);
      var i := TypeInFirst(tables, db, origin.name, TL.FieldType(Text(sel), name, server), t);
    }
  }

  // When the first table has the column, it decides.
  lemma TypeInFirst(tables: seq<string>, db: Database, column: string, found: TL.Result, t: nat) returns (i: nat)
    requires tables != [] && LookedUp(found, tables, db, column, t)
    requires HasColumn(RowsOf(db, tables[0]), column) && DistinctColumns(RowsOf(db, tables[0]))
    ensures var rows := RowsOf(db, tables[0]);
      i < |rows| && rows[i].name == column && found == TL.Declared(rows[i].kind)
  {
    var rows := RowsOf(db, tables[0]);
    i :| 0 <= i < |rows| && rows[i].name == column;
  }

  // "select column from table"
  function PlainSelect(words: Words, table: string, column: string): Select {
    Select(words, [Column(None, column, None, "as")], Base(ST.Last(ST.Source(ST.Base(table), ST.NoAlias))), "")
  }

  function PlainText(words: Words, table: string, column: string): string {
    words.select + (" " + column) + (ST.Keyword(words.from) + table)
  }

  lemma PlainSelectText(words: Words, table: string, column: string)
    ensures var sel := PlainSelect(words, table, column);
      && Innermost(sel, "") == table && Text(sel) == PlainText(words, table, column)
      && ST.BaseTables(ToQuery(sel)) == [table]
  {
    var sel := PlainSelect(words, table, column);
    assert ST.PrintSource(sel.from.sources.source) == table + "";
    assert table + "" + ("" + "") == table && table + "" + "" == table;
    assert ST.PrintSources(sel.from.sources) == table + "";
    assert ToQuery(sel).sources == sel.from.sources;
    assert List(sel.items, "") == column + ("" + "");
    assert column + ("" + "") == column;
    assert ST.SourceTables(sel.from.sources) == ST.WhatTables(sel.from.sources.source.what) == [table];
  }

  // Apart from its keyword the statement holds no other.
  lemma PlainTextIsFree(words: Words, table: string, column: string)
    requires ValidWords(words) && words.from == "FROM" && Plain(table) && Plain(column) && column !in KEYWORDS
    ensures FromFree(PlainText(words, table, column), "from")
  {
    var last := " " + table;
    assert FromFree(last, "from") by {
      LastIsFree(table, "from");
    }
    FreeBehindBlank("FROM", last, "from");
    var keyword := " " + ("FROM" + last);
    FreeBehindBlank(column, keyword, "from");
    FreeBehindWord(words.select, " " + (column + keyword), "from");
    PlainParts(words.select, column, table);
  }

  lemma PlainParts(select: string, column: string, table: string)
    ensures select + (" " + column) + (ST.Keyword("FROM") + table)
         == select + (" " + (column + (" " + ("FROM" + (" " + table)))))
  {
  }

  lemma LastIsFree(w: string, from: string)
    requires IsFrom(from) && ' ' !in w
    ensures FromFree(" " + w, from)
  {
    var s := " " + w;
    assert FromFree([], from);
    FreeBehindWord(w, [], from);
    assert w + [] == w && s[1..] == w;
    if |s| >= 6 {
      assert s[..6][5] == w[4] && ST.Keyword(from)[5] == ' ';
    }
  }

  lemma PlainSelectIsValid(words: Words, table: string, column: string)
    requires ValidWords(words) && Plain(table) && !StartsSelect(table) && ST.ValidName(table)
    requires Plain(column) && column !in KEYWORDS
    ensures var sel := PlainSelect(words, table, column);
      Valid(sel) && ValidFrom(sel) && CleanLevels(sel) && DistinctLevels(sel)
  {
    PlainSelectText(words, table, column);
    OneQuietToken(table);
    if words.from == "FROM" {
      PlainTextIsFree(words, table, column);
    }
  }

  lemma OneQuietToken(table: string)
    requires Plain(table) && !StartsSelect(table)
    ensures Quiet(table)
  {
    PlainWord(table);
    TokensWord(table, "");
    assert table + "" == table;
    assert Tokens("", DELIMS) == [];
  }

  lemma PlainResult(words: Words, table: string, column: string, row: map<string, int>,
                    eval: (Item, map<string, int>) -> int)
    requires column in row
    ensures column in Result(PlainSelect(words, table, column), row, eval)
    ensures Origin(PlainSelect(words, table, column), column) == Field(column)
  {
    var items := PlainSelect(words, table, column).items;
    assert items[1..] == [];
    assert Source(items, column) == Source(items[1..], column);
  }

  /** The simplest statement, in lower or upper case: the declared type of the one column of the one
      table. */
  lemma TypeOfPlainSelect(words: Words, table: string, column: string, info: Info, server: TL.Server, db: Database)
    requires ValidWords(words) && Plain(table) && !StartsSelect(table) && ST.ValidName(table)
    requires Plain(column) && column !in KEYWORDS
    requires info.name == column && RowsOf(db, table) == [info] && Serves(server, db)
    ensures TL.FieldType(PlainText(words, table, column), column, server) == TL.Declared(info.kind)
  {
    hide Result, StartsSelect, ValidFrom, CleanLevels, DistinctLevels, ST.BaseTables, Text;
    var sel, row := PlainSelect(words, table, column), map[column := 0];
    var eval := (item: Item, row: map<string, int>) => 0;
    PlainSelectIsValid(words, table, column);
    PlainSelectText(words, table, column);
    PlainResult(words, table, column, row, eval);
    OneColumn(db, table, info);
    TypeOfShownColumn(sel, column, server, db, table, row, eval);
  }

  lemma OneColumn(db: Database, table: string, info: Info)
    requires RowsOf(db, table) == [info]
    ensures HasColumn(RowsOf(db, table), info.name) && DistinctColumns(RowsOf(db, table))
  {
    assert RowsOf(db, table)[0].name == info.name;
  }
}

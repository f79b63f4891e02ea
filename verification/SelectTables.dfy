// `getTables` of the SQLite3 driver: the base tables named in a select statement.
module SelectTables {
  import opened Options
  import opened CString

  // `Overrun`: the scan for a closing bracket leaves the statement. `JoinSkip`: a table behind a
  // "join" was reached, whose skipping loop is not part of this model.
  datatype Outcome = Tables(names: seq<string>) | Overrun | JoinSkip

  const END_WORDS := {"where", "group", "having", "union", "intersect", "except", "order", "limit"}
  const NOT_TABLES := {"natural", "left", "right", "full", "outer", "inner", "cross", "join", "as"}

  predicate IsEndWord(w: string) { Lower(w) in END_WORDS }

  predicate IsNotTable(w: string) { Lower(w) in NOT_TABLES }

  // strstr: the text behind the first occurrence of the pattern
  function Behind(s: string, pattern: string): Option<string> {
    if |s| < |pattern| then None
    else if s[..|pattern|] == pattern then Some(s[|pattern|..])
    else if s == [] then None
    else Behind(s[1..], pattern)
  }

  // Where `opens` open brackets are closed in u.
  function Matching(u: string, opens: nat): (r: Option<nat>)
    requires opens > 0
    ensures r.Some? ==> r.value < |u|
  {
    if u == [] then
      None
    else
      var still := if u[0] == '(' then opens + 1 else if u[0] == ')' then opens - 1 else opens;
      if still == 0 then Some(0)
      else match Matching(u[1..], still) case None => None case Some(k) => Some(k + 1)
  }

  predicate EndsWord(c: char) {
    c == ',' || c == ' ' || c == ')' || c == ';'
  }

  // The word that starts u.
  function Word(u: string): (w: string)
    ensures |w| <= |u| && w == u[..|w|]
  {
    if u == [] || EndsWord(u[0]) then [] else [u[0]] + Word(u[1..])
  }

  // The text behind the first " from ", or else behind the first " FROM ".
  function TableList(statement: string): (list: Option<string>)
    ensures list.Some? ==> |list.value| < |statement|
  {
    match Behind(statement, " from ")
    case Some(list) => BehindShorter(statement, " from "); Some(list)
    case None =>
      match Behind(statement, " FROM ")
      case Some(list) => BehindShorter(statement, " FROM "); Some(list)
      case None => None
  }

  // The pattern stands in the text at i.
  predicate At(s: string, pattern: string, i: nat) {
    i <= |s| && pattern <= s[i..]
  }

  ghost predicate NotBefore(s: string, pattern: string, n: nat) {
    forall i: nat | i < n :: !At(s, pattern, i)
  }

  lemma {:induction false} BehindIsFirst(s: string, pattern: string)
    requires pattern != []
    ensures match Behind(s, pattern)
      case None => NotBefore(s, pattern, |s|)
      case Some(rest) =>
        var i := |s| - |rest| - |pattern|;
        i >= 0 && At(s, pattern, i) && rest == s[i + |pattern|..] && NotBefore(s, pattern, i)
  {
    hide At, NotBefore;
    AtStart(s, pattern);
    if |s| < |pattern| {
      AtNone(s, pattern);
    } else if s[..|pattern|] == pattern {
      NothingBefore(s, pattern);
    } else {
      var rest := Behind(s[1..], pattern);
      BehindIsFirst(s[1..], pattern);
      AtBehind(s, pattern, if rest.Some? then |s| - |rest.value| - |pattern| else |s|);
    }
  }

  lemma AtStart(s: string, pattern: string)
    ensures At(s, pattern, 0) <==> |pattern| <= |s| && s[..|pattern|] == pattern
  {
    assert s[0..] == s;
  }

  lemma AtNone(s: string, pattern: string)
    requires |s| < |pattern|
    ensures NotBefore(s, pattern, |s|)
  {
  }

  lemma NothingBefore(s: string, pattern: string)
    ensures NotBefore(s, pattern, 0)
  {
  }

  lemma AtBehind(s: string, pattern: string, n: nat)
    requires s != [] && n > 0 && !At(s, pattern, 0)
    ensures At(s, pattern, n) <==> At(s[1..], pattern, n - 1)
    ensures NotBefore(s, pattern, n) <==> NotBefore(s[1..], pattern, n - 1)
    ensures n <= |s| ==> s[n..] == s[1..][n - 1..]
  {
    forall i: nat | i > 0
      ensures At(s, pattern, i) == At(s[1..], pattern, i - 1)
    {
      assert i <= |s| ==> s[i..] == s[1..][i - 1..];
    }
    forall i: nat | i < n - 1
      ensures At(s[1..], pattern, i) == At(s, pattern, i + 1)
    {
    }
  }

  /** The table list is what stands behind the first " from ", or behind the first " FROM " when there
      is no " from "; without either there is no list, and no table is found. */
  lemma TableListIs(statement: string, tables: seq<string>)
    ensures match TableList(statement)
      case None =>
        && (forall i: nat :: !At(statement, " from ", i) && !At(statement, " FROM ", i))
        && GetTables(statement, tables) == Tables(tables)
      case Some(list) =>
        var i := |statement| - |list| - 6;
        && i >= 0 && list == statement[i + 6..]
        && if exists k: nat :: At(statement, " from ", k) then
             At(statement, " from ", i) && forall k: nat | k < i :: !At(statement, " from ", k)
           else
             At(statement, " FROM ", i) && forall k: nat | k < i :: !At(statement, " FROM ", k)
  {
    BehindIsFirst(statement, " from ");
    BehindIsFirst(statement, " FROM ");
  }

  function GetTables(statement: string, tables: seq<string>): Outcome
    decreases |statement|, 1
  {
    match TableList(statement)
    case Some(list) => Scan(list, false, false, tables)
    case None => Tables(tables)
  }

  lemma {:induction false} BehindShorter(s: string, pattern: string)
    requires Behind(s, pattern).Some?
    ensures |Behind(s, pattern).value| + |pattern| <= |s|
  {
    if s[..|pattern|] != pattern {
      BehindShorter(s[1..], pattern);
    }
  }

  // The scan of the table list from u on.
  function Scan(u: string, joinFlag: bool, asFlag: bool, tables: seq<string>): Outcome
    decreases |u|, 0
  {
    if u == [] then
      Tables(tables)
    else if u[0] == ' ' || u[0] == ',' then
      Scan(u[1..], joinFlag, asFlag, tables)
    else if u[0] == '(' then
      match Matching(u[1..], 1)
      case None => Overrun
      case Some(k) =>
        match GetTables(u[1..k + 1], tables)
        case Tables(more) => Scan(u[k + 2..], joinFlag, asFlag, more)
        case other => other
    else
      var w := Word(u);
      match OnWord(w, joinFlag, asFlag, tables)
      case Stop(outcome) => outcome
      case Go(join', as', more) => Scan(if |w| == |u| then [] else u[|w| + 1..], join', as', more)
  }

  // What a word decides: the end of the scan, or the flags and tables that it goes on with.
  datatype Next = Stop(outcome: Outcome) | Go(joinFlag: bool, asFlag: bool, tables: seq<string>)

  function OnWord(w: string, joinFlag: bool, asFlag: bool, tables: seq<string>): Next {
    if IsEndWord(w) then Stop(Tables(tables))
    else if IsNotTable(w) then Go(joinFlag || Lower(w) == "join", asFlag || Lower(w) == "as", tables)
    else if asFlag then Go(joinFlag, false, tables)
    else if joinFlag then Stop(JoinSkip)
    else Go(false, false, tables + [w])
  }

  // The bracket loop: the position of the bracket that closes the one at u[0].
  method ClosingBracket(u: string) returns (r: Option<nat>)
    requires u != [] && u[0] == '('
    ensures r == match Matching(u[1..], 1) case None => None case Some(k) => Some(k + 1)
    ensures r.Some? ==> 0 < r.value < |u|
  {
    var opens, k := 1, 0;
    while opens > 0
      invariant k < |u| && (opens > 0 || k > 0)
      invariant Matching(u[1..], 1) ==
                if opens == 0 then Some(k - 1)
                else match Matching(u[k + 1..], opens) case None => None case Some(j) => Some(k + j)
      decreases if opens > 0 then |u| - k else 0
    {
      k := k + 1;
      if k == |u| {
        return None;
      }
      assert u[k..][0] == u[k] && u[k..][1..] == u[k + 1..];
      if u[k] == '(' {
        opens := opens + 1;
      }
      if u[k] == ')' {
        opens := opens - 1;
      }
    }
    return Some(k);
  }

  // The loop to the end of a word.
  method ReadWord(u: string) returns (w: string)
    ensures w == Word(u)
  {
    var k := 0;
    while k < |u| && !EndsWord(u[k])
      invariant k <= |u| && Word(u) == u[..k] + Word(u[k..])
    {
      assert u[k..][1..] == u[k + 1..];
      k := k + 1;
    }
    w := u[..k];
  }

  // The part of the loop that decides about a word.
  method TakeWord(word: string, joinFlag0: bool, asFlag0: bool, tables0: seq<string>) returns (next: Next)
    ensures next == OnWord(word, joinFlag0, asFlag0, tables0)
  {
    var joinFlag, asFlag, tables := joinFlag0, asFlag0, tables0;
    if IsEndWord(word) {
      return Stop(Tables(tables));
    }
    if IsNotTable(word) {
      if Lower(word) == "join" {
        joinFlag := true;
      }
      if Lower(word) == "as" {
        asFlag := true;
      }
    } else if asFlag {
      asFlag := false;
    } else {
      tables := tables + [word];
      if joinFlag {
        return Stop(JoinSkip);
      }
    }
    return Go(joinFlag, asFlag, tables);
  }

  /** `getTables(tables, index, statement)`, with `tables0` the entries so far. */
  method GetTablesOf(statement: string, tables0: seq<string>) returns (r: Outcome)
    ensures r == GetTables(statement, tables0)
    decreases |statement|
  {
    var list := TableList(statement);
    if list == None {
      return Tables(tables0);
    }
    var tables, item := tables0, list.value;
    var joinFlag, asFlag := false, false;
    while item != []
      invariant |item| < |statement|
      invariant GetTables(statement, tables0) == Scan(item, joinFlag, asFlag, tables)
      decreases |item|
    {
      if item[0] == ' ' || item[0] == ',' {
        item := item[1..];
      } else if item[0] == '(' {
        var close := ClosingBracket(item);
        if close == None {
          return Overrun;
        }
        r := GetTablesOf(item[1..close.value], tables);
        if !r.Tables? {
          return;
        }
        tables := r.names;
        item := item[close.value + 1..];
      } else {
        var word := ReadWord(item);
        var next := TakeWord(word, joinFlag, asFlag, tables);
        if next.Stop? {
          return next.outcome;
        }
        joinFlag, asFlag, tables := next.joinFlag, next.asFlag, next.tables;
        if |word| == |item| {
          return Tables(tables);
        }
        item := item[|word| + 1..];
      }
    }
    return Tables(tables);
  }

  // ----- Join-free statements and how they are printed -----

  /** A select statement: the text up to the from, the sources, and what follows them. */
  datatype Query = Query(columns: string, from: string, sources: Sources, tail: string)
  datatype Sources = Last(source: Source) | More(source: Source, separator: string, others: Sources)
  datatype Source = Source(what: What, alias: Alias)
  datatype What = Base(name: string) | Nested(query: Query)
  datatype Alias = NoAlias | As(word: string, name: string) | Bare(name: string)

  function Print(q: Query): string {
    q.columns + (Keyword(q.from) + (PrintSources(q.sources) + q.tail))
  }

  function Keyword(word: string): string {
    " " + word + " "
  }

  function PrintSources(s: Sources): string {
    match s
    case Last(source) => PrintSource(source)
    case More(source, separator, others) => PrintSource(source) + (separator + PrintSources(others))
  }

  function PrintSource(s: Source): string {
    PrintWhat(s.what) + PrintAlias(s.alias)
  }

  function PrintWhat(w: What): string {
    match w
    case Base(name) => name
    case Nested(query) => "(" + (Print(query) + ")")
  }

  function PrintAlias(alias: Alias): string {
    match alias
    case NoAlias => ""
    case As(word, name) => " " + word + " " + name
    case Bare(name) => " " + name
  }

  // The base tables of a statement, from left to right.
  function BaseTables(q: Query): seq<string> {
    SourceTables(q.sources)
  }

  function SourceTables(s: Sources): seq<string> {
    match s
    case Last(source) => WhatTables(source.what)
    case More(source, _, others) => WhatTables(source.what) + SourceTables(others)
  }

  function WhatTables(w: What): seq<string> {
    match w
    case Base(name) => [name]
    case Nested(query) => BaseTables(query)
  }

  // The base tables, every alias without an "as" where it stands, and the empty name that a ';'
  // makes behind a bracket or a blank.
  function Found(q: Query): seq<string> {
    SourcesFound(q.sources) + if MakesEmptyName(q) then [""] else []
  }

  predicate MakesEmptyName(q: Query) {
    IsTerminator(q.tail) && (q.tail[0] == ' ' || EndsWithBracket(q.sources))
  }

  predicate EndsWithBracket(s: Sources) {
    match s
    case Last(source) => source.what.Nested? && source.alias.NoAlias?
    case More(_, _, others) => EndsWithBracket(others)
  }

  predicate AreBlanks(s: string) {
    forall i | 0 <= i < |s| :: s[i] == ' '
  }

  // A ';' with any blanks around it.
  predicate IsTerminator(tail: string) {
    tail != [] && if tail[0] == ' ' then IsTerminator(tail[1..]) else tail[0] == ';' && AreBlanks(tail[1..])
  }

  function SourcesFound(s: Sources): seq<string> {
    match s
    case Last(source) => SourceFound(source)
    case More(source, _, others) => SourceFound(source) + SourcesFound(others)
  }

  function SourceFound(s: Source): seq<string> {
    WhatFound(s.what) + BareNames(s.alias)
  }

  function WhatFound(w: What): seq<string> {
    match w
    case Base(name) => [name]
    case Nested(query) => Found(query)
  }

  function BareNames(alias: Alias): seq<string> {
    if alias.Bare? then [alias.name] else []
  }

  // Somewhere, at any depth, there is an alias without an "as" or an empty name.
  predicate HasMore(q: Query) {
    SourcesHaveMore(q.sources) || MakesEmptyName(q)
  }

  predicate SourcesHaveMore(s: Sources) {
    match s
    case Last(source) => SourceHasMore(source)
    case More(source, _, others) => SourceHasMore(source) || SourcesHaveMore(others)
  }

  predicate SourceHasMore(s: Source) {
    s.alias.Bare? || (s.what.Nested? && HasMore(s.what.query))
  }

  // The nesting depth behind s when d brackets are open before it; None below zero.
  function Depth(s: string, d: nat): Option<nat> {
    if s == [] then Some(d)
    else if s[0] == '(' then Depth(s[1..], d + 1)
    else if s[0] == ')' then (if d == 0 then None else Depth(s[1..], d - 1))
    else Depth(s[1..], d)
  }

  predicate Balanced(s: string) {
    Depth(s, 0) == Some(0)
  }

  // The words that end a table list, those of joins, and "as", in any letter case.
  predicate EndsList(w: string) {
    Lower(w) in {"where", "group", "having", "union", "intersect", "except", "order", "limit"}
  }

  predicate StartsJoin(w: string) {
    Lower(w) in {"natural", "left", "right", "full", "outer", "inner", "cross"}
  }

  predicate ValidName(name: string) {
    && name != [] && !EndsList(name) && !StartsJoin(name) && Lower(name) != "join" && Lower(name) != "as"
    && IsWord(name)
  }

  predicate IsWord(w: string) {
    forall i | 0 <= i < |w| :: w[i] != ',' && w[i] != ' ' && w[i] != '(' && w[i] != ')' && w[i] != ';'
  }

  predicate ValidAlias(alias: Alias) {
    match alias
    case NoAlias => true
    case As(word, name) => Lower(word) == "as" && ValidName(name)
    case Bare(name) => ValidName(name)
  }

  // What may follow the sources: nothing, a ';', or a blank, an end word and any balanced text.
  predicate ValidTail(tail: string) {
    tail == [] || IsTerminator(tail) || IsCondition(tail)
  }

  predicate IsCondition(tail: string) {
    && tail != [] && tail[0] == ' ' && Balanced(tail)
    && exists n | 1 <= n <= |tail| :: EndsList(tail[1..n]) && Stops(tail[n..])
  }

  // A word ends in front of this text.
  predicate Stops(rest: string) {
    rest == [] || rest[0] == ',' || rest[0] == ' ' || rest[0] == ')' || rest[0] == ';'
  }

  // The first keyword of the text is the one behind the columns; an upper-case one is only looked
  // for in a text without the other.
  predicate StartsList(columns: string, from: string, list: string) {
    && (from == "from" || from == "FROM")
    && Behind(columns + (" " + from), Keyword(from)) == None
    && (from == "FROM" ==> Behind(columns + (Keyword(from) + list), " from ") == None)
  }

  predicate Valid(q: Query) {
    && Balanced(q.columns) && StartsList(q.columns, q.from, PrintSources(q.sources) + q.tail)
    && ValidSources(q.sources) && ValidTail(q.tail)
  }

  predicate ValidSources(s: Sources) {
    match s
    case Last(source) => ValidSource(source)
    case More(source, separator, others) =>
      && ValidSource(source) && ValidSources(others)
      && separator != [] && forall i | 0 <= i < |separator| :: separator[i] == ',' || separator[i] == ' '
  }

  predicate ValidSource(s: Source) {
    && ValidAlias(s.alias)
    && match s.what
       case Base(name) => ValidName(name)
       case Nested(query) => Valid(query)
  }

  // ----- Brackets -----

  lemma {:induction false} DepthAppend(a: string, b: string, d: nat)
    requires Depth(a, d).Some?
    ensures Depth(a + b, d) == Depth(b, Depth(a, d).value)
  {
    if a == [] {
      assert a + b == b;
    } else {
      assert (a + b)[1..] == a[1..] + b;
      DepthAppend(a[1..], b, if a[0] == '(' then d + 1 else if a[0] == ')' then d - 1 else d);
    }
  }

  lemma {:induction false} DepthShift(s: string, d: nat, e: nat)
    requires Depth(s, d).Some?
    ensures Depth(s, d + e) == Some(Depth(s, d).value + e)
  {
    if s != [] {
      DepthShift(s[1..], if s[0] == '(' then d + 1 else if s[0] == ')' then d - 1 else d, e);
    }
  }

  lemma BalancedAppend(a: string, b: string)
    requires Balanced(a) && Balanced(b)
    ensures Balanced(a + b)
  {
    DepthAppend(a, b, 0);
  }

  lemma {:induction false} Flat(s: string)
    requires forall i | 0 <= i < |s| :: s[i] != '(' && s[i] != ')'
    ensures Balanced(s)
  {
    if s != [] {
      Flat(s[1..]);
    }
  }

  lemma {:induction false} MatchBehind(a: string, b: string, d: nat)
    requires Depth(a, d).Some?
    ensures Matching(a + b, d + 1) ==
              match Matching(b, Depth(a, d).value + 1) case None => None case Some(k) => Some(|a| + k)
  {
    if a == [] {
      assert a + b == b;
    } else {
      assert (a + b)[1..] == a[1..] + b;
      MatchBehind(a[1..], b, if a[0] == '(' then d + 1 else if a[0] == ')' then d - 1 else d);
    }
  }

  lemma {:induction false} BalancedTail(tail: string)
    requires ValidTail(tail)
    ensures Balanced(tail)
  {
    if IsTerminator(tail) {
      TerminatorIsFlat(tail);
      Flat(tail);
    }
  }

  lemma {:induction false} TerminatorIsFlat(tail: string)
    requires IsTerminator(tail)
    ensures forall i | 0 <= i < |tail| :: tail[i] == ' ' || tail[i] == ';'
  {
    if tail[0] == ' ' {
      TerminatorIsFlat(tail[1..]);
    }
    assert forall i | 0 < i < |tail| :: tail[i] == tail[1..][i - 1];
  }

  lemma BalancedQuery(q: Query)
    requires Valid(q)
    ensures Balanced(Print(q))
    decreases q
  {
    Flat(Keyword(q.from));
    BalancedSources(q.sources);
    BalancedTail(q.tail);
    BalancedAppend(PrintSources(q.sources), q.tail);
    BalancedAppend(Keyword(q.from), PrintSources(q.sources) + q.tail);
    BalancedAppend(q.columns, Keyword(q.from) + (PrintSources(q.sources) + q.tail));
  }

  lemma BalancedSources(s: Sources)
    requires ValidSources(s)
    ensures Balanced(PrintSources(s))
    decreases s
  {
    BalancedSource(s.source);
    if s.More? {
      Flat(s.separator);
      BalancedSources(s.others);
      BalancedAppend(s.separator, PrintSources(s.others));
      BalancedAppend(PrintSource(s.source), s.separator + PrintSources(s.others));
    }
  }

  lemma BalancedSource(s: Source)
    requires ValidSource(s)
    ensures Balanced(PrintSource(s))
    decreases s
  {
    match s.what {
      case Base(name) =>
        Flat(name);
      case Nested(query) =>
        BalancedQuery(query);
        DepthShift(Print(query), 0, 1);
        DepthAppend(Print(query), ")", 1);
    }
    AliasIsFlat(s.alias);
    Flat(PrintAlias(s.alias));
    BalancedAppend(PrintWhat(s.what), PrintAlias(s.alias));
  }

  lemma AliasIsFlat(alias: Alias)
    requires ValidAlias(alias)
    ensures forall i | 0 <= i < |PrintAlias(alias)| :: PrintAlias(alias)[i] != '(' && PrintAlias(alias)[i] != ')'
  {
    if alias.As? {
      LettersOnly(alias.word);
    }
  }

  // A word whose lower-case form has only letters has none of the characters that end words.
  lemma LettersOnly(w: string)
    requires forall i | 0 <= i < |w| :: 'a' <= Lower(w)[i] <= 'z'
    ensures IsWord(w)
  {
    assert forall i | 0 <= i < |w| :: Lower(w)[i] == LowerChar(w[i]);
  }

  // ----- Scanning what was printed -----

  // A text that the scan can go on with behind a word.
  predicate Follows(rest: string) {
    rest == [] || rest[0] == ' ' || rest[0] == ',' || rest[0] == ';'
  }

  // What the scan goes on with behind a word: it takes a ';' along.
  function BehindWord(rest: string): string {
    if rest != [] && rest[0] == ';' then rest[1..] else rest
  }

  lemma {:induction false} WordOf(w: string, rest: string)
    requires Stops(rest) && IsWord(w)
    ensures Word(w + rest) == w
  {
    if w == [] {
      assert w + rest == rest;
    } else {
      assert (w + rest)[1..] == w[1..] + rest;
      WordOf(w[1..], rest);
    }
  }

  lemma ScanWord(w: string, rest: string, asFlag: bool, tables: seq<string>)
    requires Follows(rest) && ValidName(w)
    ensures Scan(w + rest, false, asFlag, tables)
         == Scan(BehindWord(rest), false, false, if asFlag then tables else tables + [w])
  {
    OnName(w, false, asFlag, tables);
    hide Scan, OnWord;
    ScanOneWord(w, rest, false, asFlag, tables);
    if rest != [] && rest[0] != ';' {
      assert rest == [rest[0]] + rest[1..];
      ScanSkips(rest[0], rest[1..], false, false, if asFlag then tables else tables + [w]);
    }
  }

  lemma ScanSkips(c: char, rest: string, joinFlag: bool, asFlag: bool, tables: seq<string>)
    requires c == ' ' || c == ','
    ensures Scan([c] + rest, joinFlag, asFlag, tables) == Scan(rest, joinFlag, asFlag, tables)
  {
    assert ([c] + rest)[1..] == rest;
  }

  lemma ScanAs(word: string, rest: string, tables: seq<string>)
    requires Lower(word) == "as" && rest != [] && rest[0] == ' '
    ensures Scan(word + rest, false, false, tables) == Scan(rest, false, true, tables)
  {
    var u := word + rest;
    LettersOnly(word);
    WordOf(word, rest);
    assert u[0] == word[0] && u[3..] == rest[1..];
  }

  lemma ScanAlias(alias: Alias, rest: string, tables: seq<string>)
    requires Follows(rest) && ValidAlias(alias)
    ensures Scan(PrintAlias(alias) + rest, false, false, tables)
         == Scan(if alias.NoAlias? then rest else BehindWord(rest), false, false, tables + BareNames(alias))
    ensures Follows(PrintAlias(alias) + rest)
  {
    match alias {
      case NoAlias =>
        EmptyText(rest);
        NoMore(tables);
      case As(word, name) =>
        ScanAsName(word, name, rest, tables);
        NoMore(tables);
      case Bare(name) =>
        ScanBareName(name, rest, tables);
    }
  }

  lemma EmptyText(rest: string)
    ensures "" + rest == rest
  {
  }

  lemma NoMore(tables: seq<string>)
    ensures tables + [] == tables
  {
  }

  lemma ScanBareName(name: string, rest: string, tables: seq<string>)
    requires Follows(rest) && ValidName(name)
    ensures Scan(" " + name + rest, false, false, tables) == Scan(BehindWord(rest), false, false, tables + [name])
  {
    assert " " + name + rest == [' '] + (name + rest);
    ScanSkips(' ', name + rest, false, false, tables);
    ScanWord(name, rest, false, tables);
  }

  lemma ScanAsName(word: string, name: string, rest: string, tables: seq<string>)
    requires Lower(word) == "as" && Follows(rest) && ValidName(name)
    ensures Scan(" " + word + " " + name + rest, false, false, tables) == Scan(BehindWord(rest), false, false, tables)
  {
    var after := " " + (name + rest);
    assert " " + word + " " + name + rest == [' '] + (word + after);
    ScanSkips(' ', word + after, false, false, tables);
    ScanAs(word, after, tables);
    assert after == [' '] + (name + rest);
    ScanSkips(' ', name + rest, false, true, tables);
    ScanWord(name, rest, true, tables);
  }

  lemma {:induction false} ScanSeparator(separator: string, rest: string, tables: seq<string>)
    requires forall i | 0 <= i < |separator| :: separator[i] == ',' || separator[i] == ' '
    ensures Scan(separator + rest, false, false, tables) == Scan(rest, false, false, tables)
  {
    if separator == [] {
      assert separator + rest == rest;
    } else {
      assert (separator + rest)[1..] == separator[1..] + rest;
      ScanSeparator(separator[1..], rest, tables);
    }
  }

  lemma {:induction false} ScanBlanks(s: string, tables: seq<string>)
    requires AreBlanks(s)
    ensures Scan(s, false, false, tables) == Tables(tables)
  {
    if s != [] {
      assert AreBlanks(s[1..]);
      ScanBlanks(s[1..], tables);
    }
  }

  // A ';' that no word takes along is an empty word, and taken for a table.
  lemma {:induction false} ScanTerminator(tail: string, tables: seq<string>)
    requires IsTerminator(tail)
    ensures Scan(tail, false, false, tables) == Tables(tables + [""])
  {
    if tail[0] == ' ' {
      ScanTerminator(tail[1..], tables);
    } else {
      assert Word(tail) == "" && Lower("") == "";
      ScanBlanks(tail[1..], tables + [""]);
    }
  }

  lemma ScanTail(q: Query, tables: seq<string>)
    requires ValidTail(q.tail)
    ensures Scan(Remaining(q.sources, q.tail), false, false, tables)
         == Tables(tables + if MakesEmptyName(q) then [""] else [])
  {
    NoMore(tables);
    if IsTerminator(q.tail) {
      if MakesEmptyName(q) {
        ScanTerminator(q.tail, tables);
      } else {
        ScanBlanks(q.tail[1..], tables);
      }
    } else if q.tail != [] {
      ScanCondition(q.tail, tables);
    }
  }

  // An end word ends the scan.
  lemma ScanCondition(tail: string, tables: seq<string>)
    requires IsCondition(tail)
    ensures Scan(tail, false, false, tables) == Tables(tables)
  {
    hide Scan, EndsList;
    var n :| 1 <= n <= |tail| && EndsList(tail[1..n]) && Stops(tail[n..]);
    assert tail == [' '] + (tail[1..n] + tail[n..]);
    ScanEndWord(tail[1..n], tail[n..], tables);
    ScanSkips(' ', tail[1..n] + tail[n..], false, false, tables);
  }

  lemma {:induction false} ScanEndWord(w: string, rest: string, tables: seq<string>)
    requires EndsList(w) && Stops(rest)
    ensures Scan(w + rest, false, false, tables) == Tables(tables)
  {
    EndWordIsWord(w);
    EndWordEnds(w);
    hide EndsList, IsEndWord;
    WordOf(w, rest);
    assert (w + rest)[0] == w[0];
  }

  lemma EndWordEnds(w: string)
    ensures EndsList(w) <==> IsEndWord(w)
  {
  }

  lemma EndWordIsWord(w: string)
    requires EndsList(w)
    ensures w != [] && IsWord(w)
  {
    LowerLetters(Lower(w));
    LettersOnly(w);
  }

  lemma LowerLetters(l: string)
    requires l in {"where", "group", "having", "union", "intersect", "except", "order", "limit"}
    ensures l != [] && forall i | 0 <= i < |l| :: 'a' <= l[i] <= 'z'
  {
  }

  /** Of every printed join-free statement, the base tables and the aliases without an "as" are
      appended, in order, behind the entries so far, and an empty name for a ';' behind a bracket
      or a blank. */
  lemma FoundInPrinted(q: Query, tables: seq<string>)
    requires Valid(q)
    ensures GetTables(Print(q), tables) == Tables(tables + Found(q))
    decreases q
  {
    var list, found := PrintSources(q.sources) + q.tail, SourcesFound(q.sources);
    ListStarts(q.columns, q.from, list);
    TailFollows(q.tail);
    ScanSources(q.sources, q.tail, tables);
    ScanTail(q, tables + found);
    Regroup(tables, found, if MakesEmptyName(q) then [""] else []);
  }

  lemma TailFollows(tail: string)
    requires ValidTail(tail)
    ensures Follows(tail)
  {
  }

  lemma Regroup(a: seq<string>, b: seq<string>, c: seq<string>)
    ensures a + b + c == a + (b + c)
  {
  }

  lemma {:induction false} FoundTables(q: Query)
    ensures |Found(q)| >= |BaseTables(q)| > 0 && Found(q)[0] == BaseTables(q)[0]
    ensures |Found(q)| == |BaseTables(q)| <==> !HasMore(q)
    ensures !HasMore(q) ==> Found(q) == BaseTables(q)
    decreases q
  {
    FoundInSources(q.sources);
  }

  lemma {:induction false} FoundInSources(s: Sources)
    ensures |SourcesFound(s)| >= |SourceTables(s)| > 0 && SourcesFound(s)[0] == SourceTables(s)[0]
    ensures |SourcesFound(s)| == |SourceTables(s)| <==> !SourcesHaveMore(s)
    ensures !SourcesHaveMore(s) ==> SourcesFound(s) == SourceTables(s)
    decreases s
  {
    FoundInSource(s.source);
    if s.More? {
      FoundInSources(s.others);
    }
  }

  lemma {:induction false} FoundInSource(s: Source)
    ensures |SourceFound(s)| >= |WhatTables(s.what)| > 0 && SourceFound(s)[0] == WhatTables(s.what)[0]
    ensures |SourceFound(s)| == |WhatTables(s.what)| <==> !SourceHasMore(s)
    ensures !SourceHasMore(s) ==> SourceFound(s) == WhatTables(s.what)
    decreases s
  {
    if s.what.Nested? {
      FoundTables(s.what.query);
    }
  }

  /** Table extraction inverts printing exactly when every alias is written with an "as" and no ';'
      stands behind a bracket or a blank: of such statements, and of no others, just the base tables
      are appended, from left to right. */
  lemma TablesOfPrinted(q: Query, tables: seq<string>)
    requires Valid(q)
    ensures GetTables(Print(q), tables) == Tables(tables + BaseTables(q)) <==> !HasMore(q)
  {
    FoundInPrinted(q, tables);
    FoundTables(q);
    assert |tables + Found(q)| == |tables| + |Found(q)|;
  }

  // ----- What is not read to its end -----

  // The words of a join, as in "natural left outer ".
  function PrintWords(words: seq<string>): string {
    if words == [] then "" else words[0] + (" " + PrintWords(words[1..]))
  }

  /** A table behind a "join" is where the modelled scan ends, whatever words of a join, in any letter
      case, stand in front of it. */
  lemma {:induction false} TableBehindJoin(columns: string, from: string, sources: Sources, words: seq<string>,
                                           join: string, name: string, rest: string, tables: seq<string>)
    requires ValidSources(sources) && ValidName(name) && Stops(rest) && Lower(join) == "join"
    requires forall i | 0 <= i < |words| :: StartsJoin(words[i])
    requires StartsList(columns, from, PrintSources(sources) + (" " + (PrintWords(words) + JoinTo(join, name, rest))))
    ensures GetTables(columns + (Keyword(from) + (PrintSources(sources)
                                                  + (" " + (PrintWords(words) + JoinTo(join, name, rest))))),
                      tables) == JoinSkip
  {
    var all := PrintWords(words) + JoinTo(join, name, rest);
    ListStarts(columns, from, PrintSources(sources) + (" " + all));
    ScanSources(sources, " " + all, tables);
    assert " " + all == [' '] + all;
    ScanSkips(' ', all, false, false, tables + SourcesFound(sources));
    ScanWords(words, join, name, rest, tables + SourcesFound(sources));
  }

  function JoinTo(join: string, name: string, rest: string): string {
    join + (" " + (name + rest))
  }

  lemma {:induction false} ScanWords(words: seq<string>, join: string, name: string, rest: string,
                                     tables: seq<string>)
    requires ValidName(name) && Stops(rest) && Lower(join) == "join"
    requires forall i | 0 <= i < |words| :: StartsJoin(words[i])
    ensures Scan(PrintWords(words) + JoinTo(join, name, rest), false, false, tables) == JoinSkip
  {
    hide Scan, ValidName, Lower, StartsJoin;
    if words == [] {
      assert PrintWords(words) + JoinTo(join, name, rest) == JoinTo(join, name, rest);
      ScanJoin(join, name, rest, tables);
    } else {
      var others := PrintWords(words[1..]) + JoinTo(join, name, rest);
      ScanWords(words[1..], join, name, rest, tables);
      ScanJoinWord(words[0], others, tables);
      assert PrintWords(words) + JoinTo(join, name, rest) == words[0] + (" " + others);
    }
  }

  // One word, whatever it decides.
  lemma ScanOneWord(w: string, rest: string, joinFlag: bool, asFlag: bool, tables: seq<string>)
    requires w != [] && IsWord(w) && Stops(rest)
    ensures Scan(w + rest, joinFlag, asFlag, tables)
         == match OnWord(w, joinFlag, asFlag, tables)
            case Stop(outcome) => outcome
            case Go(join', as', more) => Scan(if rest == [] then [] else rest[1..], join', as', more)
  {
    hide OnWord;
    WordOf(w, rest);
    assert (w + rest)[0] == w[0];
    if rest != [] {
      assert (w + rest)[|w| + 1..] == rest[1..];
    }
  }

  lemma ScanJoinWord(w: string, others: string, tables: seq<string>)
    requires StartsJoin(w)
    ensures Scan(w + (" " + others), false, false, tables) == Scan(others, false, false, tables)
  {
    JoinWordIsWord(w);
    OnJoinWord(w, tables);
    hide Scan, OnWord, StartsJoin;
    ScanOneWord(w, " " + others, false, false, tables);
    assert (" " + others)[1..] == others;
  }

  lemma OnJoinWord(w: string, tables: seq<string>)
    requires StartsJoin(w)
    ensures OnWord(w, false, false, tables) == Go(false, false, tables)
  {
    hide Lower;
  }

  lemma OnJoin(w: string, tables: seq<string>)
    requires Lower(w) == "join"
    ensures w != [] && IsWord(w) && OnWord(w, false, false, tables) == Go(true, false, tables)
  {
    LettersOnly(w);
    hide Lower;
  }

  lemma OnName(name: string, joinFlag: bool, asFlag: bool, tables: seq<string>)
    requires ValidName(name)
    ensures OnWord(name, joinFlag, asFlag, tables)
         == if asFlag then Go(joinFlag, false, tables)
            else if joinFlag then Stop(JoinSkip) else Go(false, false, tables + [name])
  {
    hide Lower;
  }

  lemma JoinWordIsWord(w: string)
    requires StartsJoin(w)
    ensures w != [] && IsWord(w)
  {
    JoinLetters(Lower(w));
    LettersOnly(w);
  }

  lemma JoinLetters(l: string)
    requires l in {"natural", "left", "right", "full", "outer", "inner", "cross"}
    ensures l != [] && forall i | 0 <= i < |l| :: 'a' <= l[i] <= 'z'
  {
  }

  lemma ScanJoin(join: string, name: string, rest: string, tables: seq<string>)
    requires ValidName(name) && Stops(rest) && Lower(join) == "join"
    ensures Scan(JoinTo(join, name, rest), false, false, tables) == JoinSkip
  {
    OnJoin(join, tables);
    OnName(name, true, false, tables);
    hide Scan, OnWord, Lower;
    ScanOneWord(join, " " + (name + rest), false, false, tables);
    assert (" " + (name + rest))[1..] == name + rest;
    ScanOneWord(name, rest, true, false, tables);
  }

  /** A bracket that is never closed is scanned for past the end of the statement. */
  lemma UnclosedIsOverrun(columns: string, from: string, sources: Sources, separator: string, inner: string,
                          tables: seq<string>)
    requires ValidSources(sources) && Depth(inner, 0).Some?
    requires separator != [] && forall i | 0 <= i < |separator| :: separator[i] == ',' || separator[i] == ' '
    requires StartsList(columns, from, PrintSources(sources) + (separator + ("(" + inner)))
    ensures GetTables(columns + (Keyword(from) + (PrintSources(sources) + (separator + ("(" + inner)))), tables)
         == Overrun
  {
    hide Scan, ValidSources, StartsList;
    var bracket := "(" + inner;
    var all := separator + bracket;
    ListStarts(columns, from, PrintSources(sources) + all);
    ScanSources(sources, all, tables);
    var found := tables + SourcesFound(sources);
    ScanSeparator(separator, bracket, found);
    ScanUnclosed(inner, found);
  }

  lemma ScanUnclosed(inner: string, tables: seq<string>)
    requires Depth(inner, 0).Some?
    ensures Scan("(" + inner, false, false, tables) == Overrun
  {
    MatchBehind(inner, [], 0);
    assert inner + [] == inner && ("(" + inner)[1..] == inner;
  }

  // The list is what stands behind the keyword.
  lemma ListStarts(columns: string, from: string, list: string)
    requires StartsList(columns, from, list)
    ensures TableList(columns + (Keyword(from) + list)) == Some(list)
  {
    assert Keyword("from") == " from " && Keyword("FROM") == " FROM ";
    BehindPrefix(columns, from, list);
  }

  // The first keyword is the one behind the columns.
  lemma {:induction false} BehindPrefix(columns: string, from: string, list: string)
    requires |from| == 4 && Behind(columns + (" " + from), Keyword(from)) == None
    ensures Behind(columns + (Keyword(from) + list), Keyword(from)) == Some(list)
  {
    var s := columns + (Keyword(from) + list);
    if columns == [] {
      assert s[..6] == Keyword(from) && s[6..] == list;
    } else {
      var t := columns + (" " + from);
      assert s[..6] == t[..6];
      assert s[1..] == columns[1..] + (Keyword(from) + list) && t[1..] == columns[1..] + (" " + from);
      BehindPrefix(columns[1..], from, list);
    }
  }

  // What the scan goes on with behind the sources.
  function Remaining(s: Sources, rest: string): string {
    if EndsWithBracket(s) then rest else BehindWord(rest)
  }

  lemma ScanSources(s: Sources, rest: string, tables: seq<string>)
    requires ValidSources(s) && Follows(rest)
    ensures Scan(PrintSources(s) + rest, false, false, tables) ==
              Scan(Remaining(s, rest), false, false, tables + SourcesFound(s))
    decreases s
  {
    match s {
      case Last(source) =>
        ScanSource(source, rest, tables);
      case More(source, separator, others) =>
        var after := separator + (PrintSources(others) + rest);
        assert PrintSources(s) + rest == PrintSource(source) + after;
        ScanSource(source, after, tables);
        var more := tables + SourceFound(source);
        ScanSeparator(separator, PrintSources(others) + rest, more);
        ScanSources(others, rest, more);
        Regroup(tables, SourceFound(source), SourcesFound(others));
    }
  }

  lemma ScanSource(s: Source, rest: string, tables: seq<string>)
    requires ValidSource(s) && Follows(rest)
    ensures Scan(PrintSource(s) + rest, false, false, tables) ==
              Scan(Remaining(Last(s), rest), false, false, tables + SourceFound(s))
    decreases s
  {
    var after, found := PrintAlias(s.alias) + rest, WhatFound(s.what);
    assert PrintSource(s) + rest == PrintWhat(s.what) + after;
    ScanAlias(s.alias, rest, tables + found);
    ScanWhat(s.what, after, tables);
    AliasFollows(s.alias, rest);
    Regroup(tables, found, BareNames(s.alias));
    NoMore(tables + found);
  }

  lemma AliasFollows(alias: Alias, rest: string)
    ensures BehindWord(PrintAlias(alias) + rest)
         == if alias.NoAlias? then BehindWord(rest) else PrintAlias(alias) + rest
  {
    if alias.NoAlias? {
      EmptyText(rest);
    }
  }

  lemma ScanWhat(w: What, rest: string, tables: seq<string>)
    requires (match w case Base(name) => ValidName(name) case Nested(query) => Valid(query)) && Follows(rest)
    ensures Scan(PrintWhat(w) + rest, false, false, tables)
         == Scan(if w.Nested? then rest else BehindWord(rest), false, false, tables + WhatFound(w))
    decreases w
  {
    match w {
      case Base(name) =>
        ScanWord(name, rest, false, tables);
      case Nested(query) =>
        FoundInPrinted(query, tables);
        ScanNested(query, rest, tables);
    }
  }

  lemma ScanBracket(u: string, inner: string, rest: string, tables: seq<string>, more: seq<string>)
    requires u != [] && u[0] == '(' && Matching(u[1..], 1) == Some(|inner|)
    requires u[1..|inner| + 1] == inner && u[|inner| + 2..] == rest
    requires GetTables(inner, tables) == Tables(more)
    ensures Scan(u, false, false, tables) == Scan(rest, false, false, more)
  {
  }

  lemma ScanNested(q: Query, rest: string, tables: seq<string>)
    requires Valid(q) && GetTables(Print(q), tables) == Tables(tables + Found(q))
    ensures Scan("(" + (Print(q) + ")") + rest, false, false, tables) ==
              Scan(rest, false, false, tables + Found(q))
  {
    var inner := Print(q);
    var u := "(" + (inner + ")") + rest;
    Brackets(u, inner, rest);
    BalancedQuery(q);
    ScanBracket(u, inner, rest, tables, tables + Found(q));
  }

  lemma Brackets(u: string, inner: string, rest: string)
    requires u == "(" + (inner + ")") + rest
    ensures u[0] == '(' && u[1..|inner| + 1] == inner && u[|inner| + 2..] == rest
    ensures Balanced(inner) ==> Matching(u[1..], 1) == Some(|inner|)
  {
    assert u[1..] == inner + (")" + rest);
    if Balanced(inner) {
      MatchBehind(inner, ")" + rest, 0);
    }
  }
}

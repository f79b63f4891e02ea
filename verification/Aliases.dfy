// The first half of `find_result_field_types` of the SQLite3 driver: the result column's name is
// taken back through the aliases of the statement to the name of a column.
module Aliases {
  import opened Options
  import opened CString
  import opened Strtok

  // `Undefined`: a bracket is never closed, or an alias comes before any item.
  datatype Outcome = Field(name: string) | Expression | Function(call: string) | Undefined

  const DELIMS := {' ', ',', ';'}
  const SELECTS := {"(select", "(SELECT", "select", "SELECT"}
  const FROMS := {"from", "FROM"}
  const ASES := {"as", "AS"}

  datatype State = State(
    field: string,          // curr_field
    item: Option<string>,   // the text at itemstore
    asFlag: bool,
    fromFlag: bool,
    functionFlag: bool,
    expressionFlag: bool)

  // A column name without the table name in front of it.
  function Unqualify(token: string): (r: string)
    ensures |r| <= |token|
  {
    match BehindChar(token, '.')
    case None => token
    case Some(column) => column
  }

  // The number of brackets open behind s, or 0 when they all close in it.
  function Opens(s: string, opens: nat): nat {
    if opens == 0 || s == [] then opens
    else Opens(s[1..], if s[0] == '(' then opens + 1 else if s[0] == ')' then opens - 1 else opens)
  }

  // The token that closes the open brackets, and the tokens behind it.
  function Closing(tokens: seq<string>, opens: nat): (r: Option<(string, seq<string>)>)
    ensures r.Some? ==> |r.value.1| < |tokens|
  {
    if tokens == [] then None
    else if Opens(tokens[0], opens) == 0 then Some((tokens[0], tokens[1..]))
    else Closing(tokens[1..], Opens(tokens[0], opens))
  }

  // The last token of an item that starts with `token`, and the tokens behind it.
  function ItemEnd(token: string, tokens: seq<string>): (r: Option<(string, seq<string>)>)
    ensures r.Some? ==> |r.value.1| <= |tokens|
  {
    match BehindChar(token, '(')
    case None => Some((token, tokens))
    case Some(inside) =>
      if Opens(inside, 1) == 0 then Some((token, tokens)) else Closing(tokens, Opens(inside, 1))
  }

  function StoreItem(s: State, token: string, last: string): State {
    s.(item := Some(token),
       expressionFlag := token != [] && token[0] == '(',
       functionFlag := token != [] && token[0] != '(' && BehindChar(token, '(').Some?,
       fromFlag := last in FROMS)
  }

  // The token loop.
  function Walk(tokens: seq<string>, s: State): Outcome
    decreases |tokens|
  {
    if tokens == [] then
      Field(s.field)
    else
      var token, rest := Unqualify(tokens[0]), tokens[1..];
      if s.fromFlag then
        Walk(rest, s.(fromFlag := token !in SELECTS))
      else if s.asFlag then
        if token != s.field then Walk(rest, s.(asFlag := false))
        else if s.item == None then Undefined
        else if s.expressionFlag then Expression
        else if s.functionFlag then Function(s.item.value)
        else Walk(rest, s.(field := Unqualify(s.item.value), asFlag := false))
      else if token in ASES then
        Walk(rest, s.(asFlag := true))
      else
        match ItemEnd(token, rest)
        case None => Undefined
        case Some((last, others)) => Walk(others, StoreItem(s, token, last))
  }

  function Start(field: string): State {
    State(Unqualify(field), None, false, false, false, false)
  }

  function FieldOf(statement: string, field: string): Outcome {
    Walk(Tokens(statement, DELIMS), Start(field))
  }

  // ----- The loop on the copy of the statement -----

  // strchr: the position behind the first c
  method FindChar(raw: array<char>, start: nat, c: char, ghost s: string, ghost behind: seq<char>)
    returns (p: Option<nat>)
    requires Holds(raw[..], start, s, behind) && c != NUL
    ensures match BehindChar(s, c)
      case None => p == None
      case Some(t) => p == Some(start + |s| - |t|) && Holds(raw[..], start + |s| - |t|, t, behind)
  {
    var q := start;
    ghost var w := s;
    HoldsFirst(raw[..], q, w, behind);
    while raw[q] != NUL
      invariant q + |w| == start + |s| && Holds(raw[..], q, w, behind) && BehindChar(w, c) == BehindChar(s, c)
      invariant q < raw.Length && raw[q] == FirstOf(w) && (raw[q] == NUL <==> w == [])
      decreases |w|
    {
      HoldsFirst(raw[..], q, w, behind);
      if raw[q] == c {
        return Some(q + 1);
      }
      q, w := q + 1, w[1..];
      HoldsFirst(raw[..], q, w, behind);
    }
    return None;
  }

  lemma HoldsStr(m: seq<char>, p: nat, s: string, behind: seq<char>)
    requires Holds(m, p, s, behind)
    ensures Str(m, p) == s
  {
    assert m[p..][..|s|] == s && m[p..][|s|] == NUL;
    assert m[p..p + |s|] == m[p..][..|s|];
    StrIs(m, p, s);
  }

  // Skip the table name.
  method SkipTable(raw: array<char>, token: nat, ghost t: string, ghost behind: seq<char>) returns (p: nat)
    requires Holds(raw[..], token, t, behind)
    ensures p + |Unqualify(t)| == token + |t| && Holds(raw[..], p, Unqualify(t), behind)
    ensures Str(raw[..], p) == Unqualify(t)
  {
    var dot := FindChar(raw, token, '.', t, behind);
    p := if dot.Some? then dot.value else token;
    HoldsStr(raw[..], p, Unqualify(t), behind);
  }

  // The bracket counting loop.
  method CountBrackets(raw: array<char>, start: nat, opens: nat, ghost s: string, ghost behind: seq<char>)
    returns (n: nat)
    requires Holds(raw[..], start, s, behind)
    ensures n == Opens(s, opens)
  {
    n := opens;
    var q: nat := start;
    ghost var w := s;
    HoldsFirst(raw[..], q, w, behind);
    while n > 0 && raw[q] != NUL
      invariant Holds(raw[..], q, w, behind) && Opens(w, n) == Opens(s, opens)
      invariant q < raw.Length && raw[q] == FirstOf(w) && (raw[q] == NUL <==> w == [])
      decreases |w|
    {
      if raw[q] == '(' {
        n := n + 1;
      }
      if raw[q] == ')' {
        n := n - 1;
      }
      HoldsFirst(raw[..], q, w, behind);
      q, w := q + 1, w[1..];
      HoldsFirst(raw[..], q, w, behind);
    }
  }

  // The loop over the tokens up to the one that closes the brackets.
  method CloseItem(raw: array<char>, start: nat, open: nat, ghost text: string)
    returns (last: Option<nat>, save: nat, ghost left: string)
    requires Holds(raw[..], start, text, []) && open > 0
    modifies raw
    ensures start <= save && raw[..start] == old(raw[..start])
    ensures last.Some? ==> last.value < raw.Length && Holds(raw[..], save, left, []) && |left| <= |text|
    ensures Closing(Tokens(text, DELIMS), open)
         == if last == None then None else Some((Str(raw[..], last.value), Tokens(left, DELIMS)))
  {
    var opens := open;
    save, left := start, text;
    while true
      invariant Holds(raw[..], save, left, []) && opens > 0 && |left| <= |text|
      invariant start <= save && raw[..start] == old(raw[..start])
      invariant Closing(Tokens(left, DELIMS), opens) == Closing(Tokens(text, DELIMS), open)
      decreases |left|
    {
      ghost var u, at := SkipDelims(left, DELIMS), save;
      ghost var m := raw[..];
      last, save := NextToken(raw, save, DELIMS, left, []);
      KeepFront(m, raw[..], start, at);
      if last == None {
        return;
      }
      ghost var t, memory := TokenOf(u, DELIMS), BehindToken(u, DELIMS, []);
      left := AfterToken(u, DELIMS);
      opens := CountBrackets(raw, last.value, opens, t, memory);
      if opens == 0 {
        HoldsStr(raw[..], last.value, t, memory);
        return;
      }
    }
  }

  lemma KeepFront(m: seq<char>, m': seq<char>, p: nat, q: nat)
    requires p <= q <= |m| == |m'| && m[..q] == m'[..q]
    ensures m[..p] == m'[..p]
  {
    assert m[..p] == m[..q][..p];
    assert m'[..p] == m'[..q][..p];
  }

  // The item's text stands in front of what is still to be cut up.
  ghost predicate Stored(m: seq<char>, itemstore: Option<nat>, item: Option<string>, save: nat) {
    match item
    case None => itemstore == None
    case Some(s) =>
      && itemstore.Some? && itemstore.value + |s| < save <= |m|
      && NUL !in s && m[itemstore.value..itemstore.value + |s|] == s && m[itemstore.value + |s|] == NUL
  }

  lemma StoredStr(m: seq<char>, itemstore: nat, item: string, save: nat)
    requires Stored(m, Some(itemstore), Some(item), save)
    ensures Str(m, itemstore) == item
  {
    StrIs(m, itemstore, item);
  }

  lemma StoredKept(m: seq<char>, m': seq<char>, itemstore: Option<nat>, item: Option<string>, save: nat, save': nat)
    requires Stored(m, itemstore, item, save) && |m| == |m'| && save <= save' <= |m| && m[..save] == m'[..save]
    ensures Stored(m', itemstore, item, save')
  {
    if item.Some? {
      var p, n := itemstore.value, |item.value|;
      assert m[p..p + n] == m[..save][p..p + n];
      assert m'[p..p + n] == m'[..save][p..p + n];
      assert m[p + n] == m[..save][p + n] == m'[..save][p + n];
    }
  }

  lemma StoredToken(m: seq<char>, p: nat, s: string, memory: seq<char>, save: nat, left: string)
    requires Holds(m, p, s, memory) && Holds(m, save, left, []) && |memory| > |left|
    ensures Stored(m, Some(p), Some(s), save)
  {
    assert m[p..][..|s|] == s && m[p..][|s|] == NUL;
    assert m[p..p + |s|] == m[p..][..|s|];
  }

  // The branch that stores an item and reads it to its end; `closed` says whether there is one.
  method ReadItem(raw: array<char>, token: nat, start: nat, ghost t: string, ghost memory: seq<char>,
                  ghost text: string)
    returns (closed: bool, save: nat, fromFlag: bool, expressionFlag: bool, functionFlag: bool, ghost left: string)
    requires Holds(raw[..], token, t, memory) && Holds(raw[..], start, text, [])
    requires text != [] ==> |memory| > |text|
    modifies raw
    ensures closed ==> Holds(raw[..], save, left, []) && |left| <= |text|
    ensures closed && left != [] ==> Stored(raw[..], Some(token), Some(t), save)
    ensures match ItemEnd(t, Tokens(text, DELIMS))
      case None => !closed
      case Some((last, others)) => closed && others == Tokens(left, DELIMS) && fromFlag == (last in FROMS)
    ensures expressionFlag == (t != [] && t[0] == '(')
    ensures functionFlag == (t != [] && t[0] != '(' && BehindChar(t, '(').Some?)
  {
    var last := Some(token);
    save, left := start, text;
    ghost var m := raw[..];
    HoldsStr(raw[..], token, t, memory);
    var open := FindChar(raw, token, '(', t, memory);
    expressionFlag := open == Some(token + 1);
    functionFlag := open != None && !expressionFlag;
    if open.Some? {
      var opens := CountBrackets(raw, open.value, 1, BehindChar(t, '(').value, memory);
      if opens > 0 {
        last, save, left := CloseItem(raw, start, opens, text);
      }
    }
    closed := last.Some?;
    fromFlag := closed && Str(raw[..], last.value) in FROMS;
    if closed && left != [] {
      StoredToken(m, token, t, memory, start, text);
      StoredKept(m, raw[..], Some(token), Some(t), start, save);
    }
  }

  // The branch for an alias that is the current field: the new field, or the final outcome.
  method ThroughAlias(raw: array<char>, itemstore: Option<nat>, expressionFlag: bool, functionFlag: bool,
                      ghost item: Option<string>, ghost save: nat)
    returns (r: Outcome)
    requires Stored(raw[..], itemstore, item, save)
    ensures r == if item == None then Undefined
                 else if expressionFlag then Expression
                 else if functionFlag then Function(item.value)
                 else Field(Unqualify(item.value))
  {
    if itemstore == None {
      return Undefined;
    }
    StoredStr(raw[..], itemstore.value, item.value, save);
    if expressionFlag {
      return Expression;
    }
    if functionFlag {
      return Function(Str(raw[..], itemstore.value));
    }
    return Field(Unqualify(Str(raw[..], itemstore.value)));
  }

  // The next token, without a table name.
  method NextWord(raw: array<char>, start: nat, ghost text: string, ghost itemstore: Option<nat>,
                  ghost item: Option<string>)
    returns (token: Option<nat>, save: nat, ghost t: string, ghost memory: seq<char>, ghost left: string)
    requires Holds(raw[..], start, text, [])
    requires text != [] ==> Stored(raw[..], itemstore, item, start)
    modifies raw
    ensures token == None <==> Tokens(text, DELIMS) == []
    ensures token.Some? ==>
              && Tokens(text, DELIMS) != [] && Tokens(text, DELIMS)[1..] == Tokens(left, DELIMS)
              && t == Unqualify(Tokens(text, DELIMS)[0]) && token.value < raw.Length && Str(raw[..], token.value) == t
              && Holds(raw[..], token.value, t, memory) && (left != [] ==> |memory| > |left|)
              && Holds(raw[..], save, left, []) && |left| < |text|
              && Stored(raw[..], itemstore, item, save)
  {
    ghost var m, u := raw[..], SkipDelims(text, DELIMS);
    token, save := NextToken(raw, start, DELIMS, text, []);
    t, memory, left := Unqualify(TokenOf(u, DELIMS)), BehindToken(u, DELIMS, []), AfterToken(u, DELIMS);
    if token.Some? {
      StoredKept(m, raw[..], itemstore, item, start, save);
      var p := SkipTable(raw, token.value, TokenOf(u, DELIMS), memory);
      token := Some(p);
    }
  }

  /** The loop that resolves the column name `field` of the statement. */
  method ResolveField(statement: string, field: string) returns (r: Outcome)
    requires NUL !in statement
    ensures r == FieldOf(statement, field)
  {
    var raw := StrDup(statement);
    var currField := Unqualify(field);
    var save: nat := 0;
    var itemstore: Option<nat> := None;
    var asFlag, fromFlag, functionFlag, expressionFlag := false, false, false, false;
    ghost var text, item := statement, None;
    ghost var tokens, s := Tokens(statement, DELIMS), Start(field);
    while true
      invariant fresh(raw) && Holds(raw[..], save, text, [])
      invariant text != [] ==> Stored(raw[..], itemstore, item, save)
      invariant s == State(currField, item, asFlag, fromFlag, functionFlag, expressionFlag)
      invariant Walk(tokens, s) == FieldOf(statement, field) && tokens == Tokens(text, DELIMS)
      decreases |text|
    {
      var next;
      ghost var t, memory, left;
      next, save, t, memory, left := NextWord(raw, save, text, itemstore, item);
      if next == None {
        return Field(currField);
      }
      var token := next.value;
      text := left;
      if fromFlag {
        if Str(raw[..], token) in SELECTS {
          fromFlag := false;
        }
      } else if asFlag {
        if Str(raw[..], token) == currField {
          r := ThroughAlias(raw, itemstore, expressionFlag, functionFlag, item, save);
          if !r.Field? {
            return;
          }
          currField := r.name;
        }
        asFlag := false;
      } else if Str(raw[..], token) in ASES {
        asFlag := true;
      } else {
        var closed;
        closed, save, fromFlag, expressionFlag, functionFlag, text := ReadItem(raw, token, save, t, memory, left);
        if !closed {
          return Undefined;
        }
        itemstore, item := Some(token), Some(t);
      }
      tokens, s := Tokens(text, DELIMS), State(currField, item, asFlag, fromFlag, functionFlag, expressionFlag);
    }
  }
}

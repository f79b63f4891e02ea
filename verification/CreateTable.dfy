// `get_field_type` of the SQLite driver: the declared type of a column, from the text of the
// CREATE TABLE statement. A copy of the column list is cut up in place, by strtok at the commas
// and by the terminators that are written behind the column names.
module CreateTable {
  import opened Options
  import opened CString
  import opened Strtok

  // `Overrun`: the scan for a blank behind a name leaves the copy of the statement.
  datatype Lookup = Type(text: string) | NotFound | Overrun

  const COMMA := {','}
  const LEADING := {' ', '\n'}
  const BLANK := {' '}

  // Where the name that starts the memory ends: at the first blank behind its first character.
  function NameEnd(memory: seq<char>): nat
    requires memory != []
  {
    1 + |TokenOf(memory[1..], BLANK)|
  }

  // The type text at the start of the memory.
  function TypeAt(memory: seq<char>): Lookup {
    var rest := SkipDelims(memory, BLANK);
    if NUL in rest then Type(Str(rest, 0)) else Overrun
  }

  // The item's memory: the column name, its type, and what follows the token of u.
  function ItemMemory(u: string, behind: seq<char>): seq<char> {
    SkipDelims(TokenOf(u, COMMA), LEADING) + [NUL] + BehindToken(u, COMMA, behind)
  }

  // What the token of u decides; None when the loop goes on.
  function Decide(u: string, behind: seq<char>, name: string): Option<Lookup> {
    var memory := ItemMemory(u, behind);
    var e := NameEnd(memory);
    if e >= |memory| then Some(Overrun)
    else if Str(memory[e := NUL], 0) == name then Some(TypeAt(memory[e + 1..]))
    else None
  }

  // The memory behind an item's NUL after the terminator was written at e, which may have hit it.
  function Hit(item: string, memory: seq<char>, e: nat): (m: seq<char>)
    ensures |m| == |memory|
    ensures forall k | 0 <= k < |memory| && memory[k] == NUL :: m[k] == NUL
  {
    if |item| < e < |item| + 1 + |memory| then memory[e - |item| - 1 := NUL] else memory
  }

  // The list at the start of the memory, if there is more of it, and what is behind its NUL.
  function ListIn(memory: seq<char>, more: bool): (string, seq<char>) {
    if more then
      var s := Str(memory, 0);
      (s, if |s| < |memory| then memory[|s| + 1..] else [])
    else
      ([], memory)
  }

  // The list that the token of u leaves, and what is behind it.
  function Left(u: string, behind: seq<char>): (string, seq<char>) {
    var memory := BehindToken(u, COMMA, behind);
    var item := SkipDelims(TokenOf(u, COMMA), LEADING);
    ListIn(Hit(item, memory, NameEnd(ItemMemory(u, behind))), |TokenOf(u, COMMA)| < |u|)
  }

  lemma LeftIsShorter(u: string, behind: seq<char>)
    requires u != []
    ensures |Left(u, behind).0| < |u|
  {
    if |TokenOf(u, COMMA)| < |u| {
      var memory, item := BehindToken(u, COMMA, behind), SkipDelims(TokenOf(u, COMMA), LEADING);
      assert memory[|AfterToken(u, COMMA)|] == NUL;
      StrUpTo(Hit(item, memory, NameEnd(ItemMemory(u, behind))), 0, |AfterToken(u, COMMA)|);
    }
  }

  lemma {:induction false} StrUpTo(m: seq<char>, p: nat, k: nat)
    requires p <= k < |m| && m[k] == NUL
    ensures p + |Str(m, p)| <= k
    decreases k - p
  {
    if m[p] != NUL {
      StrUpTo(m, p + 1, k);
    }
  }

  /** The column loop on the list `text`, with `behind` in memory behind its NUL. */
  function Columns(text: string, behind: seq<char>, name: string): Lookup
    decreases |text|
  {
    var u := SkipDelims(text, COMMA);
    if u == [] then
      NotFound
    else if Decide(u, behind, name).Some? then
      Decide(u, behind, name).value
    else
      LeftIsShorter(u, behind);
      Columns(Left(u, behind).0, Left(u, behind).1, name)
  }

  function FieldType(statement: string, name: string): Lookup {
    match BehindChar(statement, '(')
    case None => NotFound
    case Some(list) => Columns(list, [], name)
  }

  // strchr for the opening bracket: its position, or that of the NUL
  method FindBracket(raw: array<char>, statement: string) returns (p: nat)
    requires raw[..] == statement + [NUL]
    ensures p < raw.Length && (p == |statement| <==> BehindChar(statement, '(') == None)
    ensures p < |statement| ==> BehindChar(statement, '(') == Some(statement[p + 1..])
  {
    p := 0;
    while p < |statement| && statement[p] != '('
      invariant p <= |statement| && BehindChar(statement[p..], '(') == BehindChar(statement, '(')
    {
      assert statement[p..][1..] == statement[p + 1..];
      p := p + 1;
    }
    assert p < |statement| ==> statement[p..][1..] == statement[p + 1..];
  }

  // The scan for a blank from raw[start] on.
  method FindBlank(raw: array<char>, start: nat) returns (end: nat)
    requires start <= raw.Length
    ensures end == start + |TokenOf(raw[start..], BLANK)|
  {
    end := start;
    ghost var rest := raw[start..];
    while end < raw.Length && raw[end] != ' '
      invariant start <= end <= raw.Length && rest == raw[end..]
      invariant end + |TokenOf(rest, BLANK)| == start + |TokenOf(raw[start..], BLANK)|
    {
      assert rest[1..] == raw[end + 1..];
      end, rest := end + 1, raw[end + 1..];
    }
  }

  // The type text at raw[start].
  method ReadType(raw: array<char>, start: nat) returns (r: Lookup)
    requires start <= raw.Length
    ensures r == TypeAt(raw[start..])
  {
    var p := start;
    ghost var rest := raw[start..];
    while p < raw.Length && raw[p] == ' '
      invariant start <= p <= raw.Length && rest == raw[p..]
      invariant SkipDelims(rest, BLANK) == SkipDelims(raw[start..], BLANK)
    {
      assert rest[1..] == raw[p + 1..];
      p, rest := p + 1, raw[p + 1..];
    }
    if NUL in raw[p..] {
      return Type(Str(raw[p..], 0));
    }
    return Overrun;
  }

  // Skip what is in front of the column name.
  method FieldName(raw: array<char>, token: nat, ghost u: string, ghost behind: seq<char>) returns (field: nat)
    requires Holds(raw[..], token, TokenOf(u, COMMA), BehindToken(u, COMMA, behind))
    ensures Holds(raw[..], field, SkipDelims(TokenOf(u, COMMA), LEADING), BehindToken(u, COMMA, behind))
    ensures field < raw.Length && raw[field..] == ItemMemory(u, behind)
  {
    ghost var m, t, memory := raw[..], TokenOf(u, COMMA), BehindToken(u, COMMA, behind);
    HoldsStands(m, token, t, memory);
    field := SkipLoop(raw, token, LEADING, t);
    SkipIsSuffix(t, LEADING);
    HoldsSuffix(m, token, field, t, SkipDelims(t, LEADING), memory);
  }

  // The loop body on the token of u: None when the loop goes on.
  method OneColumn(raw: array<char>, token: nat, save: nat, name: string, ghost u: string, ghost behind: seq<char>)
    returns (r: Option<Lookup>)
    requires Holds(raw[..], token, TokenOf(u, COMMA), BehindToken(u, COMMA, behind))
    requires Holds(raw[..], save, AfterToken(u, COMMA), behind)
    modifies raw
    ensures r == Decide(u, behind, name)
    ensures r == None ==> Holds(raw[..], save, Left(u, behind).0, Left(u, behind).1)
  {
    var field := FieldName(raw, token, u, behind);
    ghost var m, memory := raw[..], ItemMemory(u, behind);
    var end := EndOfName(raw, field, memory);
    if end == raw.Length {
      return Some(Overrun);
    }
    assert Holds(m[end := NUL], save, Left(u, behind).0, Left(u, behind).1) by {
      WroteName(m, field, save, u, behind);
    }
    r := Compare(raw, field, end, name, memory);
  }

  // The end of the name that starts raw[field..].
  method EndOfName(raw: array<char>, field: nat, ghost memory: seq<char>) returns (end: nat)
    requires field < raw.Length && raw[field..] == memory
    ensures end == field + NameEnd(memory)
  {
    assert raw[field + 1..] == memory[1..];
    end := FindBlank(raw, field + 1);
  }

  // Terminate the name, compare it, and copy the type behind it.
  method Compare(raw: array<char>, field: nat, end: nat, name: string, ghost memory: seq<char>)
    returns (r: Option<Lookup>)
    requires field < end < raw.Length && raw[field..] == memory
    modifies raw
    ensures raw[..] == old(raw[..])[end := NUL]
    ensures r == if Str(memory[end - field := NUL], 0) == name then Some(TypeAt(memory[end - field + 1..])) else None
  {
    raw[end] := NUL;
    assert raw[field..] == memory[end - field := NUL];
    if Str(raw[field..], 0) == name {
      assert raw[end + 1..] == raw[field..][end - field + 1..] == memory[end - field + 1..];
      var found := ReadType(raw, end + 1);
      return Some(found);
    }
    return None;
  }

  // Writing a NUL, seen from behind a NUL that is there already.
  lemma UpdateBehind(item: string, memory: seq<char>, e: nat)
    requires e < |item| + 1 + |memory|
    ensures (item + [NUL] + memory)[e := NUL][|item| + 1..]
         == if |item| < e then memory[e - |item| - 1 := NUL] else memory
  {
  }

  lemma UpdateSuffix(m: seq<char>, p: nat, e: nat, b: nat)
    requires p + e < |m| && p + b <= |m|
    ensures m[p + e := NUL][p + b..] == m[p..][e := NUL][b..]
  {
  }

  lemma AtNul(m: seq<char>, p: nat)
    requires p < |m| && m[p] == NUL
    ensures Holds(m, p, [], m[p + 1..])
  {
  }

  // The list in memory after the terminator was written.
  lemma WroteEnd(m: seq<char>, field: nat, item: string, memory: seq<char>, e: nat, list: string, behind: seq<char>)
    requires Holds(m, field, item, memory) && field + e < |m| && memory == list + [NUL] + behind
    ensures var (list', behind') := ListIn(Hit(item, memory, e), true);
      Holds(m[field + e := NUL], field + |item| + 1, list', behind')
  {
    WroteHit(m, field, item, memory, e);
    assert memory[|list|] == NUL;
    ListInHolds(Hit(item, memory, e), |list|);
  }

  // What the terminator leaves behind the item's NUL.
  lemma WroteHit(m: seq<char>, field: nat, item: string, memory: seq<char>, e: nat)
    requires Holds(m, field, item, memory) && field + e < |m|
    ensures field + |item| < |m| && m[field + e := NUL][field + |item| + 1..] == Hit(item, memory, e)
    ensures m[field + e := NUL][field + |item|] == NUL
  {
    UpdateSuffix(m, field, e, |item| + 1);
    UpdateBehind(item, memory, e);
    assert m[field..][|item|] == NUL;
  }

  lemma ListInHolds(memory: seq<char>, k: nat)
    requires k < |memory| && memory[k] == NUL
    ensures var (list, others) := ListIn(memory, true); memory == list + [NUL] + others && NUL !in list
  {
    StrAndRest(memory, k);
  }

  lemma WroteBehind(m: seq<char>, field: nat, item: string, memory: seq<char>, e: nat)
    requires Holds(m, field, item, memory) && field + e < |m|
    ensures Holds(m[field + e := NUL], field + |item|, [], Hit(item, memory, e))
  {
    WroteHit(m, field, item, memory, e);
    AtNul(m[field + e := NUL], field + |item|);
  }

  // What is left in memory of a list, or behind its last item, when the terminator was written.
  lemma WroteItem(m: seq<char>, field: nat, save: nat, item: string, memory: seq<char>, e: nat, more: bool,
                  list: string, behind: seq<char>)
    requires Holds(m, field, item, memory) && Holds(m, save, list, behind) && field + e < |m|
    requires if more then memory == list + [NUL] + behind else list == [] && memory == behind
    ensures var (list', behind') := ListIn(Hit(item, memory, e), more);
      Holds(m[field + e := NUL], save, list', behind')
  {
    assert save == field + |item| + if more then 1 else 0 by {
      HoldsLength(m, field, item, memory);
      HoldsLength(m, save, list, behind);
    }
    if more {
      WroteEnd(m, field, item, memory, e, list, behind);
    } else {
      WroteBehind(m, field, item, memory, e);
    }
  }

  // The list that is left in memory when the name's terminator was written.
  lemma WroteName(m: seq<char>, field: nat, save: nat, u: string, behind: seq<char>)
    requires Holds(m, field, SkipDelims(TokenOf(u, COMMA), LEADING), BehindToken(u, COMMA, behind))
    requires Holds(m, save, AfterToken(u, COMMA), behind)
    requires NameEnd(ItemMemory(u, behind)) < |ItemMemory(u, behind)|
    ensures var e := field + NameEnd(ItemMemory(u, behind));
      e < |m| && Holds(m[e := NUL], save, Left(u, behind).0, Left(u, behind).1)
  {
    var item, memory := SkipDelims(TokenOf(u, COMMA), LEADING), BehindToken(u, COMMA, behind);
    HoldsLength(m, field, item, memory);
    WroteItem(m, field, save, item, memory, NameEnd(ItemMemory(u, behind)), |TokenOf(u, COMMA)| < |u|,
              AfterToken(u, COMMA), behind);
  }

  lemma StrAndRest(m: seq<char>, k: nat)
    requires k < |m| && m[k] == NUL
    ensures var s := Str(m, 0); |s| < |m| && m == s + [NUL] + m[|s| + 1..]
  {
    StrUpTo(m, 0, k);
  }

  /** `get_field_type(statement, curr_field_name)` */
  method GetFieldType(statement: string, name: string) returns (r: Lookup)
    requires NUL !in statement
    ensures r == FieldType(statement, name)
  {
    var raw := StrDup(statement);
    var p := FindBracket(raw, statement);
    if raw[p] == NUL {
      return NotFound;
    }
    var save := p + 1;
    ghost var text, behind := statement[p + 1..], [];
    while true
      invariant fresh(raw) && Holds(raw[..], save, text, behind)
      invariant Columns(text, behind, name) == FieldType(statement, name)
      decreases |text|
    {
      var token;
      token, save := NextToken(raw, save, COMMA, text, behind);
      if token == None {
        return NotFound;
      }
      ghost var u := SkipDelims(text, COMMA);
      var done := OneColumn(raw, token.value, save, name, u, behind);
      if done.Some? {
        return done.value;
      }
      LeftIsShorter(u, behind);
      text, behind := Left(u, behind).0, Left(u, behind).1;
    }
  }
}

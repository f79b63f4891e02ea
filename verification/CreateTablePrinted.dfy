// What `get_field_type` finds in a printed CREATE TABLE statement.
module CreateTablePrinted {
  import opened Options
  import opened CString
  import opened Strtok
  import opened CreateTable

  // A column as it is printed: white space, the name, blanks, and the declared type.
  datatype Column = Column(lead: string, name: string, blanks: string, kind: string)

  predicate ValidName(name: string) {
    name != [] && name[0] != '\n' && ' ' !in name && ',' !in name && NUL !in name
  }

  predicate IsLead(s: string) {
    forall x | x in s :: x == ' ' || x == '\n'
  }

  predicate Valid(c: Column) {
    && IsLead(c.lead)
    && ValidName(c.name)
    && c.blanks != [] && (forall x | x in c.blanks :: x == ' ')
    && NUL !in c.kind && (c.kind != [] ==> c.kind[0] != ' ')
  }

  // closing: the bracket behind the last column and the rest of the statement
  predicate ValidTail(closing: string) {
    closing != [] && closing[0] == ')' && ',' !in closing && NUL !in closing
  }

  // A column in front of `behind`.
  function Item(c: Column, behind: string): string {
    c.lead + (c.name + (c.blanks + (c.kind + behind)))
  }

  function List(columns: seq<Column>, closing: string): string
    requires columns != []
  {
    Item(columns[0], if |columns| == 1 then closing else "," + List(columns[1..], closing))
  }

  function Statement(start: string, columns: seq<Column>, closing: string): string
    requires columns != []
  {
    start + ("(" + List(columns, closing))
  }

  // The declared type of column k, with the closing text behind the last one.
  function Declared(columns: seq<Column>, closing: string, k: nat): string
    requires k < |columns|
  {
    columns[k].kind + if k == |columns| - 1 then closing else []
  }

  // The type of the first column with the name.
  function FirstNamed(columns: seq<Column>, closing: string, name: string): Lookup {
    if columns == [] then NotFound
    else if columns[0].name == name then Type(Declared(columns, closing, 0))
    else FirstNamed(columns[1..], closing, name)
  }

  // ---- one column ----

  // The token of a printed column that `rest` follows its blanks.
  lemma TokenOfItem(c: Column, rest: string)
    requires Valid(c)
    ensures var u := c.lead + (c.name + (c.blanks + rest));
      && SkipDelims(u, COMMA) == u
      && |TokenOf(u, COMMA)| == |c.lead| + |c.name| + |c.blanks| + |TokenOf(rest, COMMA)|
      && SkipDelims(TokenOf(u, COMMA), LEADING) == c.name + (c.blanks + TokenOf(rest, COMMA))
      && AfterToken(u, COMMA) == AfterToken(rest, COMMA)
  {
    var u := c.lead + (c.name + (c.blanks + rest));
    assert TokenOf(u, COMMA) == c.lead + (c.name + (c.blanks + TokenOf(rest, COMMA))) by {
      TokenInFront(c.blanks, rest, COMMA);
      TokenInFront(c.name, c.blanks + rest, COMMA);
      TokenInFront(c.lead, c.name + (c.blanks + rest), COMMA);
    }
    SkipInFront(c.lead, c.name + (c.blanks + TokenOf(rest, COMMA)), LEADING);
  }

  // The name ends at its first blank.
  lemma NameEndOfItem(c: Column, rest: string)
    requires Valid(c)
    ensures NameEnd(c.name + (c.blanks + rest)) == |c.name|
  {
    assert (c.name + (c.blanks + rest))[1..] == c.name[1..] + (c.blanks + rest);
    assert c.blanks[0] in c.blanks && (c.blanks + rest)[0] == c.blanks[0];
    TokenInFront(c.name[1..], c.blanks + rest, BLANK);
  }

  // The name that is cut off, and the type text behind it.
  lemma CutItem(c: Column, kind: string, memory: string)
    requires Valid(c) && NUL !in kind && (kind != [] ==> kind[0] != ' ')
    ensures var all := c.name + (c.blanks + (kind + [NUL] + memory));
      && Str(all[|c.name| := NUL], 0) == c.name
      && TypeAt(all[|c.name| + 1..]) == Type(kind)
  {
    var text := kind + [NUL] + memory;
    CutName(c, text);
    assert forall x | x in c.blanks[1..] :: x in c.blanks;
    assert (c.name + (c.blanks + text))[|c.name| + 1..] == c.blanks[1..] + text;
    CutType(c.blanks[1..], kind, memory);
  }

  lemma CutName(c: Column, text: string)
    requires Valid(c)
    ensures Str((c.name + (c.blanks + text))[|c.name| := NUL], 0) == c.name
  {
    StrIs((c.name + (c.blanks + text))[|c.name| := NUL], 0, c.name);
  }

  lemma CutType(blanks: string, kind: string, memory: string)
    requires (forall x | x in blanks :: x == ' ') && NUL !in kind && (kind != [] ==> kind[0] != ' ')
    ensures TypeAt(blanks + (kind + [NUL] + memory)) == Type(kind)
  {
    var text := kind + [NUL] + memory;
    SkipInFront(blanks, text, BLANK);
    assert text[|kind|] == NUL;
    StrIs(text, 0, kind);
  }

  lemma TokenStart(s: string, delims: set<char>)
    ensures var t := TokenOf(s, delims); t != [] ==> s != [] && t[0] == s[0]
  {
  }

  lemma {:induction false} TokenChars(s: string, delims: set<char>, x: char)
    requires x !in s
    ensures x !in TokenOf(s, delims) && x !in AfterToken(s, delims)
  {
    TokenIsPrefix(s, delims);
  }

  lemma Regroup(a: string, b: string, c: string, d: string)
    ensures a + (b + c) + [NUL] + d == a + (b + (c + [NUL] + d))
  {
  }

  // The memory at the name of a printed column.
  lemma MemoryOfItem(c: Column, rest: string, behind: seq<char>)
    requires Valid(c)
    ensures var u := c.lead + (c.name + (c.blanks + rest));
      && ItemMemory(u, behind)
         == c.name + (c.blanks + (TokenOf(rest, COMMA) + [NUL] + BehindToken(u, COMMA, behind)))
      && NameEnd(ItemMemory(u, behind)) == |c.name|
  {
    var u := c.lead + (c.name + (c.blanks + rest));
    var text := TokenOf(rest, COMMA) + [NUL] + BehindToken(u, COMMA, behind);
    assert ItemMemory(u, behind) == c.name + (c.blanks + text) by {
      TokenOfItem(c, rest);
      Regroup(c.name, c.blanks, TokenOf(rest, COMMA), BehindToken(u, COMMA, behind));
    }
    NameEndOfItem(c, text);
  }

  // The loop body on a printed column that `rest` follows its blanks.
  lemma {:induction false} DecideOnItem(c: Column, rest: string, behind: seq<char>, name: string)
    requires Valid(c) && NUL !in rest && (rest != [] ==> rest[0] != ' ')
    ensures Decide(c.lead + (c.name + (c.blanks + rest)), behind, name)
         == if c.name == name then Some(Type(TokenOf(rest, COMMA))) else None
  {
    var u := c.lead + (c.name + (c.blanks + rest));
    TokenStart(rest, COMMA);
    TokenChars(rest, COMMA, NUL);
    MemoryOfItem(c, rest, behind);
    CutItem(c, TokenOf(rest, COMMA), BehindToken(u, COMMA, behind));
  }

  lemma LeftOfItem(c: Column, rest: string, behind: seq<char>)
    requires Valid(c) && NUL !in rest
    ensures Left(c.lead + (c.name + (c.blanks + rest)), behind) == (AfterToken(rest, COMMA), behind)
  {
    var u := c.lead + (c.name + (c.blanks + rest));
    var memory := BehindToken(u, COMMA, behind);
    TokenOfItem(c, rest);
    MemoryOfItem(c, rest, behind);
    TokenChars(rest, COMMA, NUL);
    if |TokenOf(u, COMMA)| < |u| {
      StrIs(memory, 0, AfterToken(rest, COMMA));
      assert memory[|AfterToken(rest, COMMA)| + 1..] == behind;
    }
  }

  lemma {:induction false} ListHasNoNul(columns: seq<Column>, closing: string)
    requires columns != [] && ValidTail(closing) && forall c | c in columns :: Valid(c)
    ensures NUL !in List(columns, closing)
    decreases |columns|
  {
    var c := columns[0];
    assert Valid(c);
    assert NUL !in c.lead && NUL !in c.blanks;
    if |columns| > 1 {
      ListHasNoNul(columns[1..], closing);
    }
  }

  // What follows the blanks of the first column.
  function Rest(columns: seq<Column>, closing: string): string
    requires columns != []
  {
    columns[0].kind + if |columns| == 1 then closing else "," + List(columns[1..], closing)
  }

  lemma OnFirst(columns: seq<Column>, closing: string, behind: seq<char>, name: string)
    requires columns != [] && ValidTail(closing) && forall c | c in columns :: Valid(c)
    ensures var list := List(columns, closing);
      var rest := Rest(columns, closing);
      Columns(list, behind, name) ==
      if columns[0].name == name then Type(TokenOf(rest, COMMA)) else Columns(AfterToken(rest, COMMA), behind, name)
  {
    var rest := Rest(columns, closing);
    assert List(columns, closing) == columns[0].lead + (columns[0].name + (columns[0].blanks + rest));
    ListHasNoNul(columns, closing);
    assert NUL !in rest;
    TokenOfItem(columns[0], rest);
    DecideOnItem(columns[0], rest, behind, name);
    LeftOfItem(columns[0], rest, behind);
  }

  // A type without a comma is the token, and the other columns are left.
  lemma RestOfFirst(columns: seq<Column>, closing: string)
    requires columns != [] && ValidTail(closing) && ',' !in columns[0].kind
    ensures TokenOf(Rest(columns, closing), COMMA) == Declared(columns, closing, 0)
    ensures AfterToken(Rest(columns, closing), COMMA) == if |columns| == 1 then [] else List(columns[1..], closing)
  {
    var kind, rest := columns[0].kind, Rest(columns, closing);
    if |columns| == 1 {
      TokenInFront(kind + closing, [], COMMA);
      assert kind + closing + [] == rest;
    } else {
      TokenInFront(kind, "," + List(columns[1..], closing), COMMA);
      assert rest[|kind| + 1..] == List(columns[1..], closing);
      assert kind + [] == kind;
    }
  }

  // ---- the whole list ----

  lemma {:induction false} ColumnsOfList(columns: seq<Column>, closing: string, behind: seq<char>, name: string)
    requires columns != [] && ValidTail(closing) && forall c | c in columns :: Valid(c) && ',' !in c.kind
    ensures Columns(List(columns, closing), behind, name) == FirstNamed(columns, closing, name)
    decreases |columns|
  {
    OnFirst(columns, closing, behind, name);
    RestOfFirst(columns, closing);
    if |columns| > 1 {
      ColumnsOfList(columns[1..], closing, behind, name);
    }
  }

  /** On a printed statement the lookup gives the type of the first column with the name. */
  lemma FindsFirstNamed(start: string, columns: seq<Column>, closing: string, name: string)
    requires '(' !in start && columns != [] && ValidTail(closing)
    requires forall c | c in columns :: Valid(c) && ',' !in c.kind
    ensures FieldType(Statement(start, columns, closing), name) == FirstNamed(columns, closing, name)
  {
    CharBehind(start, '(', List(columns, closing));
    ColumnsOfList(columns, closing, [], name);
  }

  // FirstNamed, from its result's side.
  lemma {:induction false} FirstNamedIs(columns: seq<Column>, closing: string, name: string)
    ensures match FirstNamed(columns, closing, name)
      case Type(kind) =>
        exists k | 0 <= k < |columns| ::
          && columns[k].name == name && kind == Declared(columns, closing, k)
          && forall i | 0 <= i < k :: columns[i].name != name
      case NotFound => forall i | 0 <= i < |columns| :: columns[i].name != name
      case Overrun => false
  {
    if columns != [] && columns[0].name != name {
      FirstNamedIs(columns[1..], closing, name);
      if FirstNamed(columns[1..], closing, name).Type? {
        var k :| && 0 <= k < |columns[1..]| && columns[1..][k].name == name
                 && FirstNamed(columns[1..], closing, name) == Type(Declared(columns[1..], closing, k))
                 && forall i | 0 <= i < k :: columns[1..][i].name != name;
        assert columns[k + 1].name == name;
      }
    }
  }

  ghost predicate DistinctNames(columns: seq<Column>) {
    forall i, k | 0 <= i < k < |columns| :: columns[i].name != columns[k].name
  }

  // The first column whose type holds a comma gets a type without one.
  lemma {:induction false} CommaIsLost(columns: seq<Column>, closing: string, behind: seq<char>, k: nat)
    requires k < |columns| && ValidTail(closing) && (forall c | c in columns :: Valid(c)) && DistinctNames(columns)
    requires ',' in columns[k].kind && forall i | 0 <= i < k :: ',' !in columns[i].kind
    ensures Columns(List(columns, closing), behind, columns[k].name) != Type(Declared(columns, closing, k))
    decreases k
  {
    OnFirst(columns, closing, behind, columns[k].name);
    if k == 0 {
      assert ',' in Declared(columns, closing, 0);
    } else {
      RestOfFirst(columns, closing);
      CommaIsLost(columns[1..], closing, behind, k - 1);
    }
  }

  lemma {:induction false} FirstComma(columns: seq<Column>, k: nat) returns (i: nat)
    requires k < |columns| && ',' in columns[k].kind
    ensures i < |columns| && ',' in columns[i].kind && forall j | 0 <= j < i :: ',' !in columns[j].kind
  {
    i := 0;
    while ',' !in columns[i].kind
      invariant i <= k && forall j | 0 <= j < i :: ',' !in columns[j].kind
      decreases k - i
    {
      i := i + 1;
    }
  }

  /** Every column of a printed statement is looked up rightly exactly when no declared type
      holds a comma. */
  lemma RightIffCommaFree(start: string, columns: seq<Column>, closing: string)
    requires '(' !in start && columns != [] && ValidTail(closing)
    requires (forall c | c in columns :: Valid(c)) && DistinctNames(columns)
    ensures
      (forall k | 0 <= k < |columns| ::
        FieldType(Statement(start, columns, closing), columns[k].name) == Type(Declared(columns, closing, k)))
      <==> (forall k | 0 <= k < |columns| :: ',' !in columns[k].kind)
  {
    CharBehind(start, '(', List(columns, closing));
    if k :| 0 <= k < |columns| && ',' in columns[k].kind {
      var i := FirstComma(columns, k);
      CommaIsLost(columns, closing, [], i);
    } else {
      forall k | 0 <= k < |columns|
        ensures FieldType(Statement(start, columns, closing), columns[k].name) == Type(Declared(columns, closing, k))
      {
        FindsFirstNamed(start, columns, closing, columns[k].name);
        FirstNamedIs(columns, closing, columns[k].name);
      }
    }
  }

  /** Any first character but a blank and a newline belongs to the name: the column is found under
      the name with it. */
  lemma FirstBelongsToName(start: string, c: Column, first: char, closing: string)
    requires '(' !in start && Valid(c) && ',' !in c.kind && ValidTail(closing)
    requires first != ' ' && first != '\n' && first != ',' && first != NUL
    ensures var column := c.(name := [first] + c.name);
      FieldType(Statement(start, [column], closing), [first] + c.name) == Type(c.kind + closing)
  {
    var column := c.(name := [first] + c.name);
    assert Valid(column);
    FindsFirstNamed(start, [column], closing, [first] + c.name);
  }

  // ---- items without a blank behind the name ----

  // A piece of the list without a blank: a piece of a type, or nothing.
  predicate IsPiece(piece: string) {
    (piece != [] ==> piece[0] != '\n') && ' ' !in piece && ',' !in piece && NUL !in piece
  }

  // The loop body on such a piece: the scan for a blank runs into the next item, and the
  // terminator ends the list.
  lemma OnPiece(lead: string, piece: string, rest: string, behind: seq<char>, name: string)
    requires IsLead(lead) && IsPiece(piece) && lead + piece != [] && name != piece
    ensures Columns(lead + (piece + (", " + rest)), behind, name) == NotFound
  {
    var u := lead + (piece + (", " + rest));
    var memory := " " + (rest + [NUL] + behind);
    PieceMemory(lead, piece, rest, behind);
    PieceEnd(piece, memory);
    assert Hit(piece, memory, |piece| + 1)[0] == NUL;
    assert Left(u, behind).0 == [];
  }

  lemma PieceMemory(lead: string, piece: string, rest: string, behind: seq<char>)
    requires IsLead(lead) && IsPiece(piece) && lead + piece != []
    ensures var u := lead + (piece + (", " + rest));
      var memory := " " + (rest + [NUL] + behind);
      && TokenOf(u, COMMA) == lead + piece && SkipDelims(lead + piece, LEADING) == piece
      && SkipDelims(u, COMMA) == u && |lead + piece| < |u|
      && BehindToken(u, COMMA, behind) == memory && ItemMemory(u, behind) == piece + [NUL] + memory
  {
    PieceToken(lead, piece, ", " + rest);
    PieceSkips(lead, piece);
    AfterPiece(lead, piece, rest);
    BlankInFront(rest, behind);
  }

  lemma PieceToken(lead: string, piece: string, rest: string)
    requires IsLead(lead) && IsPiece(piece) && lead + piece != [] && (rest == [] || rest[0] == ',')
    ensures var u := lead + (piece + rest);
      TokenOf(u, COMMA) == lead + piece && SkipDelims(u, COMMA) == u && u == lead + piece + rest
  {
    var u := lead + (piece + rest);
    assert u == lead + piece + rest && u[0] == (lead + piece)[0] && (lead + piece)[0] in lead + piece;
    TokenInFront(lead + piece, rest, COMMA);
    assert lead + piece + [] == lead + piece;
  }

  lemma PieceSkips(lead: string, piece: string)
    requires IsLead(lead) && IsPiece(piece)
    ensures SkipDelims(lead + piece, LEADING) == piece
  {
    SkipInFront(lead, piece, LEADING);
    assert piece != [] ==> piece[0] in piece;
  }

  lemma AfterPiece(lead: string, piece: string, rest: string)
    requires TokenOf(lead + (piece + (", " + rest)), COMMA) == lead + piece
    ensures AfterToken(lead + (piece + (", " + rest)), COMMA) == " " + rest
  {
    var u := lead + (piece + (", " + rest));
    assert u == lead + piece + ([','] + (" " + rest));
    assert u[|lead + piece| + 1..] == " " + rest;
  }

  lemma BlankInFront(rest: string, behind: seq<char>)
    ensures " " + rest + [NUL] + behind == " " + (rest + [NUL] + behind)
  {
  }

  lemma PieceEnd(piece: string, memory: string)
    requires IsPiece(piece) && memory != [] && memory[0] == ' '
    ensures var all := piece + [NUL] + memory;
      NameEnd(all) == |piece| + 1 && Str(all[|piece| + 1 := NUL], 0) == piece
  {
    var all := piece + [NUL] + memory;
    var front := (piece + [NUL])[1..];
    assert all[1..] == front + memory;
    TokenInFront(front, memory, BLANK);
    StrIs(all[|piece| + 1 := NUL], 0, piece);
  }

  /** A comma in a type can hide all the columns behind it, as in "p decimal(10,2), q int", and so
      can nothing between two commas but white space. */
  lemma HiddenBehindComma(start: string, c: Column, lead: string, piece: string, rest: string, name: string)
    requires '(' !in start && Valid(c) && ',' !in c.kind && IsLead(lead) && IsPiece(piece) && lead + piece != []
    requires NUL !in rest && name != c.name && name != piece
    ensures FieldType(start + ("(" + Item(c, "," + (lead + (piece + (", " + rest))))), name) == NotFound
  {
    var others := lead + (piece + (", " + rest));
    var follow := c.kind + ("," + others);
    CharBehind(start, '(', Item(c, "," + others));
    TokenOfItem(c, follow);
    DecideOnItem(c, follow, [], name);
    LeftOfItem(c, follow, []);
    AfterComma(c.kind, others);
    OnPiece(lead, piece, rest, [], name);
  }

  /** Behind the last item, when it has no blank behind its name, the scan leaves the statement. */
  lemma LastWithoutBlank(start: string, lead: string, piece: string, name: string)
    requires '(' !in start && IsLead(lead) && IsPiece(piece) && lead + piece != []
    ensures FieldType(start + ("(" + (lead + piece)), name) == Overrun
  {
    var u := lead + (piece + []);
    CharBehind(start, '(', lead + piece);
    PieceToken(lead, piece, []);
    assert u == lead + piece;
    PieceSkips(lead, piece);
    var memory := piece + [NUL];
    assert ItemMemory(u, []) == piece + [NUL] + [] == memory;
    TokenInFront(memory[1..], [], BLANK);
    assert memory[1..] + [] == memory[1..];
  }

  /** Without a bracket there are no columns. */
  lemma NoBracket(statement: string, name: string)
    requires '(' !in statement
    ensures FieldType(statement, name) == NotFound
  {
    NoChar(statement, '(');
  }

  lemma AfterComma(kind: string, others: string)
    requires ',' !in kind
    ensures AfterToken(kind + ("," + others), COMMA) == others
  {
    TokenInFront(kind, "," + others, COMMA);
  }
}

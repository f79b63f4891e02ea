// `find_result_field_types` of the SQLite3 driver: the declared type of a result field, from the
// table_info answers of the tables.
module TypeLookup {
  import opened Options
  import opened CString
  import opened Aliases
  import ST = SelectTables

  /** What sqlite3_get_table answers: rows of six cells, behind six titles. */
  datatype Answer = Failed | Answer(cells: seq<string>, numrows: nat)

  type Server = query: string -> Answer | forall table :: WellFormed(query(table)) witness (table: string) => Failed

  // `Declared`: the type of a column. `Fallback`: taken for a string. `Call`: decided by the name
  // of the function. `Unclear`: what Aliases and SelectTables leave undefined.
  datatype Result = Declared(kind: string) | Fallback | Call(call: string) | Unclear | JoinSkip

  predicate WellFormed(a: Answer) {
    a.Answer? ==> |a.cells| == 6 + 6 * a.numrows
  }

  // The column name and the type in row i of an answer.
  function NameIn(cells: seq<string>, i: nat): string
    requires 6 + 6 * i + 6 <= |cells|
  {
    cells[6 + 6 * i + 1]
  }

  function KindIn(cells: seq<string>, i: nat): string
    requires 6 + 6 * i + 6 <= |cells|
  {
    cells[6 + 6 * i + 2]
  }

  // The type in the last of the first n rows that has the name.
  function LastNamed(cells: seq<string>, n: nat, name: string): (r: Option<string>)
    requires 6 + 6 * n <= |cells|
    ensures match r
      case None => forall i | 0 <= i < n :: NameIn(cells, i) != name
      case Some(kind) => exists i | 0 <= i < n ::
        NameIn(cells, i) == name && KindIn(cells, i) == kind && forall k | i < k < n :: NameIn(cells, k) != name
  {
    if n == 0 then None
    else if NameIn(cells, n - 1) == name then Some(KindIn(cells, n - 1))
    else LastNamed(cells, n - 1, name)
  }

  // What one table says about a column.
  function DeclaredIn(a: Answer, name: string): Option<string>
    requires WellFormed(a)
  {
    if a == Failed || a.numrows == 0 then None else LastNamed(a.cells, a.numrows, name)
  }

  function FirstDeclared(tables: seq<string>, server: Server, name: string): Option<string> {
    if tables == [] then None
    else
      var first := DeclaredIn(server(tables[0]), name);
      if first.Some? then first else FirstDeclared(tables[1..], server, name)
  }

  // The table name in front of a column name.
  function TableOf(field: string): string {
    match BehindChar(field, '.')
    case None => ""
    case Some(column) => field[..|field| - |column| - 1]
  }

  function OrFallback(kind: Option<string>): Result {
    if kind == None then Fallback else Declared(kind.value)
  }

  function ColumnType(statement: string, table: string, column: string, server: Server): Result {
    if table != "" then
      OrFallback(DeclaredIn(server(table), column))
    else
      match ST.GetTables(statement, [])
      case Tables(tables) => OrFallback(FirstDeclared(tables, server, column))
      case Overrun => Unclear
      case JoinSkip => JoinSkip
  }

  function FieldType(statement: string, field: string, server: Server): Result {
    match FieldOf(statement, field)
    case Field(column) => ColumnType(statement, TableOf(field), column, server)
    case Expression => Fallback
    case Function(call) => Call(call)
    case Undefined => Unclear
  }

  /** `get_field_type(table, name, numrows)` */
  method GetFieldType(cells: seq<string>, name: string, numrows: nat) returns (kind: Option<string>)
    requires |cells| == 6 + 6 * numrows
    ensures kind == LastNamed(cells, numrows, name)
  {
    kind := None;
    ghost var n := 0;
    var i := 6;
    while i <= numrows * 6
      invariant i == 6 + 6 * n && n <= numrows && kind == LastNamed(cells, n, name)
      decreases numrows - n
    {
      if cells[i + 1] == name {
        assert NameIn(cells, n) == name;
        kind := Some(cells[i + 2]);
      }
      i, n := i + 6, n + 1;
    }
  }

  // The search through the table list.
  method SearchTables(tables: seq<string>, name: string, server: Server) returns (kind: Option<string>)
    ensures kind == FirstDeclared(tables, server, name)
  {
    kind := None;
    var counter := 0;
    while counter < |tables|
      invariant 0 <= counter <= |tables| && kind == None
      invariant FirstDeclared(tables[counter..], server, name) == FirstDeclared(tables, server, name)
    {
      var answer := server(tables[counter]);
      if answer != Failed && answer.numrows != 0 {
        kind := GetFieldType(answer.cells, name, answer.numrows);
      }
      assert tables[counter..][1..] == tables[counter + 1..];
      if kind.Some? {
        return;
      }
      counter := counter + 1;
    }
  }

  /** `find_result_field_types(field, statement)`, up to the classification of the type's name. */
  method FindResultFieldType(statement: string, field: string, server: Server) returns (r: Result)
    requires '\0' !in statement
    ensures r == FieldType(statement, field, server)
  {
    var resolved := ResolveField(statement, field);
    match resolved {
      case Expression => return Fallback;
      case Function(call) => return Call(call);
      case Undefined => return Unclear;
      case Field(column) =>
        var table := TableOf(field);
        if |table| > 0 {
          var answer := server(table);
          if answer == Failed || answer.numrows == 0 {
            return Fallback;
          }
          var kind := GetFieldType(answer.cells, column, answer.numrows);
          return OrFallback(kind);
        }
        var tables := ST.GetTablesOf(statement, []);
        match tables {
          case Overrun => return Unclear;
          case JoinSkip => return JoinSkip;
          case Tables(names) =>
            var kind := SearchTables(names, column, server);
            return OrFallback(kind);
        }
    }
  }
}

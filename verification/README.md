# Models of the libdbi-drivers algorithms

The drivers of libdbi-drivers are mostly glue around database client libraries, but some of them
hold algorithms of their own. This project models those algorithms in Dafny and proves what they
keep, compute and give back.

| Part | Files | Modelled code |
|---|---|---|
| LIKE matching | `Like.dfy` | `wild_case_compare` (SQLite3, SQLite) |
| Row fetching, Ingres | `IngresResults.dfy`, `Memory.dfy` | `ingres_results`, `ingres_field` |
| Row fetching, FreeTDS | `FreetdsRows.dfy`, `Memory.dfy` | the fetch loop of `dbd_query`, `_dbd_freetds_buffers_binding`, `_dbd_free_row` |
| Column types, SQLite3 | `SelectTables.dfy`, `Aliases.dfy`, `PrintedTokens.dfy`, `CallItems.dfy`, `NestedSelects.dfy`, `AliasesPrinted.dfy`, `TypeLookup.dfy`, `TypeLookupPrinted.dfy` | `getTables`, `find_result_field_types`, `get_field_type` |
| Column types, SQLite | `CreateTable.dfy`, `CreateTablePrinted.dfy` | `get_field_type` |
| C strings | `CString.dfy`, `Strtok.dfy`, `Options.dfy` | the string functions of the C library that the parsers call |
| Quoting | `Quoting.dfy` | `dbd_quote_string` of six drivers, `dbd_quote_binary` (Ingres) |
| Dates | `IngresDate.dfy` | `ingres_date`, `in_word_set` |
| Buffer layout | `FirebirdLayout.dfy` | the output buffer loop of `dbd_query` (Firebird) |

## How the models are built

* A loop of the source is a `while` or `for` loop here, an object that is updated is a class, and
  text that is cut up in place is an `array<char>`. Every such method is tied by its `ensures` to a
  specification: a pattern language, the server's rows, or a function of the text. What the source
  is for is then proved about that specification.
* A client library is a class with a stated contract. `IngresResults.Cursor` is a sequential
  cursor that sends a row column by column and a BLOB segment by segment, and may fail at one call.
  `FreetdsRows.Command` fills the buffers of the one row that is bound and may fail at one call of
  `ct_bind` or end its rows with any status. The table_info answers of SQLite3 are a function from
  table names to answers. Type conversions (`IIapi_convertData`, `cs_convert`,
  `_dbd_decode_binary`, `_dbd_parse_datetime`) are parameters.
* Bytes of memory are integers where their sign matters (`Like`) and characters elsewhere. C's
  `short` arithmetic is written out in `FirebirdLayout`.
* Parsers of statements are proved against printers: a datatype of statements, the function that
  prints one, and theorems about the parser on everything that can be printed.

## What the code does not do

The proofs follow the code. Where that is not what its comments or purpose say, a theorem gives the
exact condition or an input family:

* `wild_case_compare` compares an `unsigned char` with a plain `char`. It decides the pattern
  language for every string if and only if no literal behind a `%` run is a negative `char`
  (`Like.ExactIffHeadsPositive`); this covers all 7-bit patterns. Its comment leaves open what -1
  means: no suffix of the string matches either. A string that does not match gives -1 if and only if
  it goes through the pattern up to a `%`, or the pattern starts with more `_` than it has characters.
* The escape loop of SQLite, SQLite3 and Oracle writes `\0` and `\Z`, which a literal does not
  undo. The text reads back if and only if it holds neither byte (`Quoting.EscapedRoundTrip`); by a
  reader that knows the two names, if and only if the text holds no such name of its own
  (`Quoting.EscapedNamesReadBack`).
* `ingres_date` says that full month names should work. They are not found, and the result of the
  lookup is dereferenced (`IngresDate.OtherMonthsDereferenceNull`). With a numeric month the
  separator stays in front of the year: the date reads back if and only if the year survives it,
  as behind a `+` or a tab, or as 0, and the time of day is what is made of the rest
  (`IngresDate.NumericRoundTrip`). A text is rejected if and only if it ends early
  (`IngresDate.RejectedIffEndsEarly`), and a day with two bare separators makes the look-up read
  behind the text (`IngresDate.OverreadIffBare`).
* `getTables` takes an alias without `as` for a table, and a `;` behind a bracket or a blank for a
  table with an empty name. Just the base tables are found if and only if no source has such an alias
  and no select ends in such a `;` (`SelectTables.TablesOfPrinted`); the first entry is always the
  first base table.
* The size recorded for a FreeTDS money value stays that of the fetched type, while the block that
  replaces it has the size of an `int` constant. The recorded sizes are within the blocks, in all rows
  of a result, if and only if no money type is longer than that (`FreetdsRows.MoneySizesIffShort`).
* The Firebird offsets are sound if and only if the last indicator starts within a `short`
  (`FirebirdLayout.LayoutIsSoundIffFits`).
* The CREATE TABLE parser of the SQLite driver splits types at commas. All columns are looked up
  rightly if and only if no type holds one (`CreateTablePrinted.RightIffCommaFree`), and a type
  such as `decimal(10,2)` can hide every column behind it (`CreateTablePrinted.HiddenBehindComma`).
  The last column's type keeps the closing bracket. When nothing but the name stands behind the last
  comma, the scan leaves the statement (`CreateTablePrinted.LastWithoutBlank`).
* The alias loop applies a list's aliases one after the other. A nested select and its sub-selects
  are resolved rightly if and only if every list is clean and every call with an alias is recognised
  (`AliasesPrinted.ResolvedIffClean`). A list is clean when an alias that is the source column of an
  earlier renamed column comes from where that column comes from; `select b as a, a as b` is a
  two-item failure (`NestedSelects.SwapIsLost`).
* A `.` in the first token of a call hides the call, as in `max(t.price)` or `coalesce(t.a, b)`. A
  function call, of any number of tokens, is found if and only if its first token holds no `.`
  (`AliasesPrinted.CallIffUndotted`), unless a later token of the statement spells the first one
  behind a `.` of its own, as the third token of `select f(t.a, x.f(t.a, b)) as m` does
  (`AliasesPrinted.TwoDotsAreRecognised`). In any statement at all, a function is found only if a
  token spells it, whole or behind a `.` (`AliasesPrinted.FunctionIsToken`). A hidden call is taken
  for the token that is stored last of it (`AliasesPrinted.CallOfPrinted`): the last argument in
  `select f(t.c, g(a)) as m` (`AliasesPrinted.DottedCallIsSplit`).
* A further select behind the sources, as in `where a in (select ...)` or behind a `union`, is taken
  for one more level: its aliases are applied too (`AliasesPrinted.FieldOfCondition`).
* `getTables` looks for " FROM " only in a text without " from " (`SelectTables.TableListIs`), and runs
  past the end of a statement with a bracket that is never closed (`SelectTables.UnclosedIsOverrun`);
  so does the alias loop in a call (`AliasesPrinted.UnclosedIsUndefined`).

## Model

| member | source | states |
|---|---|---|
| Like.WildCaseCompare | drivers/sqlite3/dbd_sqlite3.c:1557-1635 | returns 0 exactly on the pattern language (for patterns without a negative literal behind a `%` run); without a match, -1 exactly when the string goes through the pattern up to a `%` or the pattern starts with more `_` than the string has characters, else 1; -1 means that no suffix matches, so giving up loses nothing; a call that returns 1 made no recursive call; at most \|str\|+1 invocations and (\|str\|+1)(2\|pattern\|+2) steps |
| Like.MatchLiterals | drivers/sqlite3/dbd_sqlite3.c:1564-1575 | the loop over literals ends with the outcome for the whole pattern, or at a wildcard having consumed matching characters only |
| Like.SkipOnes | drivers/sqlite3/dbd_sqlite3.c:1576-1586 | each `_` takes one character, and running out of string means that no suffix matches |
| Like.StripRun | drivers/sqlite3/dbd_sqlite3.c:1589-1603 | removing a run of wildcards keeps whether some suffix matches, and running out of string means that none does |
| Like.MatchAfterMany | drivers/sqlite3/dbd_sqlite3.c:1588-1632 | from a `%` on, 0 means that some suffix matches the rest and -1 that none does; 1 is never returned |
| Like.MatchBehind | drivers/sqlite3/dbd_sqlite3.c:1616-1631 | stopping at the first attempt that returns -1 or 0 finds a match whenever one exists behind some occurrence of the literal; the test for a `%` never ends the loop |
| Like.HeadDecides | drivers/sqlite3/dbd_sqlite3.c:1611-1617 | searching for the `unsigned char` behind the run is complete exactly when the literal is not negative |
| Like.ExactIffHeadsPositive | drivers/sqlite/dbd_sqlite.c:1181-1259 | the matcher decides the language on all strings if and only if no literal behind a `%` run is a negative `char` |
| Like.NonNegativeHeads | drivers/sqlite/dbd_sqlite.c:1181-1259 | so every pattern of non-negative characters, in particular every 7-bit one, is matched exactly |
| Like.EscapedPatterns | drivers/sqlite3/dbd_sqlite3.c:1557-1635 | a text with an escape in front of every wildcard is matched by itself only; with a `%` behind it and another such text, by what starts with the one and ends with the other; with a `_`, by what has one character between them |
| Like.EscapeAtEnd | drivers/sqlite3/dbd_sqlite3.c:1565-1567 | at the end of a pattern the escape stands for itself |
| Like.TimesIsProduct | drivers/sqlite3/dbd_sqlite3.c:1616-1631 | the step bound is a product, not an exponential |
| IngresResults.IngresField | drivers/ingres/dbd_ingres.c:606-691 | the stored column is the server's cell for every type; a fixed-size buffer moves to the row and is replaced, everything else is copied, so the row never points to a live buffer |
| IngresResults.StrippedLength | drivers/ingres/dbd_ingres.c:646-647 | what is dropped are blanks, and the text does not end in a blank then |
| IngresResults.AddSegment | drivers/ingres/dbd_ingres.c:779-798 | a segment is appended to the bytes so far, and one doubling always makes room when segments fit the described length |
| IngresResults.FetchBlob | drivers/ingres/dbd_ingres.c:762-799 | the block holds the concatenation of all segments of the cell |
| IngresResults.GatheredSize | drivers/ingres/dbd_ingres.c:762-799 | after k doublings the block has length * 2^k bytes and has received more than length * 2^(k-1) |
| IngresResults.StoreColumns | drivers/ingres/dbd_ingres.c:802-815 | a run of ordinary columns is stored cell by cell, NULL cells flagged, each block apart from all buffers and earlier rows |
| IngresResults.StoreBlob | drivers/ingres/dbd_ingres.c:804-811 | the row gets the gathered bytes in a block of exactly that size |
| IngresResults.NextBlob | drivers/ingres/dbd_ingres.c:752-758 | finds the next BLOB column, or the end |
| IngresResults.FetchGroup | drivers/ingres/dbd_ingres.c:751-817 | one getColumns group is fetched and stored; what was stored before stays |
| IngresResults.FetchRow | drivers/ingres/dbd_ingres.c:749-820 | the row is the server's next row, and its column groups are those of the group rule |
| IngresResults.GroupsPartition | drivers/ingres/dbd_ingres.c:751-760 | the groups of a row cover the columns 0..numfields-1 in order, without gap or overlap, each a single BLOB or a longest run of other columns |
| IngresResults.CollectRow | drivers/ingres/dbd_ingres.c:749-820 | fetching one more row leaves all earlier rows as they are and shares no block with them |
| IngresResults.FetchAll | drivers/ingres/dbd_ingres.c:734-831 | when the data ends, the rows are exactly the server's rows in order; after a failure they are those that were complete before the call that failed |
| IngresResults.IngresResults | drivers/ingres/dbd_ingres.c:706-843 | the whole run: all rows, `numrows_matched` their number, rows own disjoint blocks, and what is freed at the exit is the buffer array with the buffer of every column, none of which belongs to a row |
| FreetdsRows.ConvertDatum | drivers/freetds/dbd_freetds.c:912-973 | one conversion of the fetched bytes per type, with the `int`-sized block of a money conversion and the block that it frees |
| FreetdsRows.ConvertColumn | drivers/freetds/dbd_freetds.c:905-975 | column i of the last saved row is converted exactly once, the others stay, and the freed block is no longer in the row |
| FreetdsRows.StoredTextLength | drivers/freetds/dbd_freetds.c:966-973 | the size of a stored text is the position of the first NUL in what was sent |
| FreetdsRows.BindColumn | drivers/freetds/dbd_freetds.c:977-1000 | column i of the new row gets a buffer of its own and is bound to it |
| FreetdsRows.BindNext | drivers/freetds/dbd_freetds.c:903-1001 | converting the previous row and binding the next in one pass never touch each other's buffers |
| FreetdsRows.BuffersBinding | drivers/freetds/dbd_freetds.c:891-1007 | gives a fully bound row of fresh buffers and leaves the last saved row fully converted; the blocks freed are those that its money columns had |
| FreetdsRows.CountBlocks | drivers/freetds/dbd_freetds.c:912-933 | the blocks that the conversion of a bound row frees are one for each money column |
| FreetdsRows.FreeRow | drivers/freetds/dbd_freetds.c:1009-1023 | frees the row and exactly its blocks |
| FreetdsRows.Result.SaveRow | drivers/freetds/dbd_freetds.c:662-668 | row n goes to slot n+1 of the grown array, and earlier slots are kept |
| FreetdsRows.SaveAndBind | drivers/freetds/dbd_freetds.c:661-673 | after the fetch of row k rows 1..k are saved, each converted exactly once, and a new unfinished row is bound apart from all of them and from what was freed, one block for each money value |
| FreetdsRows.FetchOne | drivers/freetds/dbd_freetds.c:654-673 | one pass of the loop keeps the one-row-ahead protocol, or ends it with the bound row untouched |
| FreetdsRows.DbdQuery | drivers/freetds/dbd_freetds.c:649-688 | a result is given exactly when the data ends normally and no call of ct_bind fails; then it holds exactly the server's rows, row n in slot n+1, each converted once; what is freed then is the row that is still bound with its blocks, conversions have freed one block for each money value, and the rows and what was freed share nothing with each other |
| FreetdsRows.MoneySizesIffShort | drivers/freetds/dbd_freetds.c:912-933 | in all rows of a result, the recorded size of every money value is within its block if and only if no money type is longer than an `int` |
| SelectTables.ClosingBracket | drivers/sqlite3/dbd_sqlite3.c:1180-1187 | finds the bracket that closes the first one, or leaves the statement |
| SelectTables.TableListIs | drivers/sqlite3/dbd_sqlite3.c:1164-1168 | the list is what stands behind the first " from ", or behind the first " FROM " if there is no " from "; it is missing exactly when the text has neither, and then no table is found |
| SelectTables.GetTablesOf | drivers/sqlite3/dbd_sqlite3.c:1149-1314 | the loop computes the scan of the table list, into nested selects, behind the entries so far |
| SelectTables.MatchBehind | drivers/sqlite3/dbd_sqlite3.c:1180-1187 | bracket counting over text whose own brackets balance goes on behind it |
| SelectTables.ScanSource | drivers/sqlite3/dbd_sqlite3.c:1174-1245 | scanning one printed source adds exactly its base tables, and its alias if that is written without `as` |
| SelectTables.FoundInPrinted | drivers/sqlite3/dbd_sqlite3.c:1149-1314 | on every printed join-free statement, nested to any depth, with either keyword and with end words and `as` in any letter case, the entries found are its base tables, its aliases without `as`, and an empty name for each `;` behind a bracket or a blank, where they stand, behind the existing entries |
| SelectTables.FoundTables | drivers/sqlite3/dbd_sqlite3.c:1196-1245 | there are as many entries as base tables if and only if no alias lacks its `as` and no `;` gives an empty name; the first entry is the first base table in any case |
| SelectTables.TablesOfPrinted | drivers/sqlite3/dbd_sqlite3.c:1149-1314 | on every printed join-free statement, nested to any depth and with or without a `;`, exactly the base tables are appended, left to right, if and only if every alias has an `as` and no `;` is behind a bracket or a blank |
| SelectTables.TableBehindJoin | drivers/sqlite3/dbd_sqlite3.c:1219-1250 | a table behind a `join`, with any of the seven other words of a join in front of it in any letter case, is where the modelled scan ends |
| SelectTables.UnclosedIsOverrun | drivers/sqlite3/dbd_sqlite3.c:1177-1187 | behind any sources, a bracket that is never closed makes the scan leave the statement |
| CString.LowerAlphabet | drivers/sqlite3/dbd_sqlite3.c:1205-1210 | `tolower` as the word test uses it: the letters of the alphabet, spelled out, lose their case and nothing else changes |
| Strtok.NextToken | drivers/sqlite3/dbd_sqlite3.c:731-946 | `strtok_r` as the parsers use it: which token, what is written, and what text is left behind it in memory |
| PrintedTokens.TokensOfWords | drivers/sqlite3/dbd_sqlite3.c:731-946 | words parted by blanks, commas and semicolons, in any number, are the tokens |
| Aliases.ReadItem | drivers/sqlite3/dbd_sqlite3.c:757-862 | an item, over as many tokens as its brackets take, sets the flags; its text stays readable through `itemstore` |
| Aliases.CloseItem | drivers/sqlite3/dbd_sqlite3.c:799-816 | reads tokens until all open brackets are closed, or past the last token |
| Aliases.ThroughAlias | drivers/sqlite3/dbd_sqlite3.c:866-942 | an alias that is the current field gives the stored item's column, or the type of an expression or function |
| Aliases.ResolveField | drivers/sqlite3/dbd_sqlite3.c:706-948 | the in-place loop computes the walk over the statement's tokens |
| AliasesPrinted.FieldOfPrinted | drivers/sqlite3/dbd_sqlite3.c:731-947 | on every printed nested select of columns, calls and bracketed expressions, with a `.` wherever it stands and every keyword in lower or upper case, the loop applies the aliases of each list one after the other, from the outermost list to the innermost, until a call is found |
| AliasesPrinted.FieldOfCondition | drivers/sqlite3/dbd_sqlite3.c:743-755 | a further select behind the innermost `from`, in brackets or not, is one more level: its aliases are applied to what the lists gave |
| AliasesPrinted.ReadsWords | drivers/sqlite3/dbd_sqlite3.c:731-946 | the outcome for any statement is that of the walk over its words |
| AliasesPrinted.AliasOfNothing | drivers/sqlite3/dbd_sqlite3.c:865-942 | an `as` in front of any item leaves the outcome undefined when the field is its alias |
| AliasesPrinted.UnclosedIsUndefined | drivers/sqlite3/dbd_sqlite3.c:799-816 | so does a call that is never closed, for every field |
| NestedSelects.CleanLevelsAreRight | drivers/sqlite3/dbd_sqlite3.c:865-944 | when every list is clean, one alias after the other comes to the same as the composed alias maps, for every name that means a column, and for every name if the calls are recognised |
| NestedSelects.RightIffClean | drivers/sqlite3/dbd_sqlite3.c:865-944 | in every list every alias is taken for what it means if and only if every list is clean and every call with an alias is recognised |
| NestedSelects.TakenCall | drivers/sqlite3/dbd_sqlite3.c:735-764 | a call is taken for a call if and only if it is recognised by the token stored last of it |
| NestedSelects.RecognisedIffUndotted | drivers/sqlite3/dbd_sqlite3.c:735-764 | a function call of any number of tokens is recognised if and only if its first token holds no `.`, when no other token of it spells that one behind a `.` |
| AliasesPrinted.ResolvedIffClean | drivers/sqlite3/dbd_sqlite3.c:731-947 | the same about the statements: a nested select and its sub-selects are resolved rightly if and only if every list is clean and every call with an alias is recognised; a hidden call makes any list fail, whatever else stands in it |
| NestedSelects.SwapIsLost | drivers/sqlite3/dbd_sqlite3.c:865-944 | two columns that swap names are resolved wrongly |
| AliasesPrinted.ResolutionComposes | drivers/sqlite3/dbd_sqlite3.c:731-947 | when every list is clean the outcome is the composition of the alias maps: a column, or the call that it ends at if the calls are recognised |
| NestedSelects.ConfusionCanCancel | drivers/sqlite3/dbd_sqlite3.c:865-944 | a list that confuses two columns is clean when both come from the same column of an inner select |
| NestedSelects.ResultShows | drivers/sqlite3/dbd_sqlite3.c:711-712 | a composed column is the one whose value the result column shows, for every row of the base tables |
| AliasesPrinted.ResolvedColumnIsShown | drivers/sqlite3/dbd_sqlite3.c:731-947 | so the loop finds the column whose value is shown |
| CallItems.ClosingOfShut | drivers/sqlite3/dbd_sqlite3.c:799-816 | the token that ends a bracketed item is the one its text ends with, however the text is cut into tokens |
| CallItems.UndottedStores | drivers/sqlite3/dbd_sqlite3.c:757-862 | without a `.` in its first token a balanced call is one item, stored by that token, and no other token of it is read as a keyword |
| CallItems.KeywordFreeIsValid | drivers/sqlite3/dbd_sqlite3.c:735-862 | in a balanced call without the words `as` and `from` nothing is read as a keyword and no item runs past its end, wherever its points and brackets stand |
| AliasesPrinted.WalkCall | drivers/sqlite3/dbd_sqlite3.c:757-862 | of a call or bracketed expression, over as many tokens and with as many items as it is read as, what is left is the token stored last of it |
| AliasesPrinted.UndottedCallIsFound | drivers/sqlite3/dbd_sqlite3.c:731-942 | the alias of a call without a `.` in its first token gets the type of the call, at any place, in any list, over any number of tokens |
| AliasesPrinted.CallIffUndotted | drivers/sqlite3/dbd_sqlite3.c:735-942 | the alias of a function call of any number of tokens gets the type of the call if and only if there is no `.` in its first token, when no token of the statement spells that one behind a `.` |
| AliasesPrinted.FunctionIsToken | drivers/sqlite3/dbd_sqlite3.c:706-948 | in every statement whatever, a function is found only if some token is its text, or has it behind the first `.` |
| AliasesPrinted.DottedIsNotFound | drivers/sqlite3/dbd_sqlite3.c:735-942 | in every statement whatever, a call with a `.` in its first token is not found for any field, unless a token spells that one behind a `.` |
| AliasesPrinted.CallOfPrinted | drivers/sqlite3/dbd_sqlite3.c:735-942 | the alias of a call gets what the token that is stored last of the call stands for: a column, an expression or another function |
| AliasesPrinted.CallIffRecognised | drivers/sqlite3/dbd_sqlite3.c:735-942 | so it gets the type of the call if and only if that token is the first one |
| AliasesPrinted.TwoDotsAreRecognised | drivers/sqlite3/dbd_sqlite3.c:735-764 | the exception: calls with a `.` in the first token in which a later token spells the first one behind a `.` |
| AliasesPrinted.DottedCallIsSplit | drivers/sqlite3/dbd_sqlite3.c:735-942 | a family of calls with a `.` in the first of several tokens where the alias gets the type of the last argument |
| TypeLookup.LastNamed | drivers/sqlite3/dbd_sqlite3.c:1316-1342 | gives the type in the last data row with the name, and nothing exactly when no data row has it |
| TypeLookup.GetFieldType | drivers/sqlite3/dbd_sqlite3.c:1316-1342 | the loop in steps of six computes that |
| TypeLookup.SearchTables | drivers/sqlite3/dbd_sqlite3.c:1015-1045 | the loop stops at the first table with the column |
| TypeLookup.FindResultFieldType | drivers/sqlite3/dbd_sqlite3.c:676-1058 | alias loop, single table or table search, and the fallback to a string |
| TypeLookupPrinted.ScanSeesRows | drivers/sqlite3/dbd_sqlite3.c:1316-1342 | on every table_info answer the scan sees each data row's name and type and nothing else, whatever the titles and the other cells are |
| TypeLookupPrinted.SearchFindsFirst | drivers/sqlite3/dbd_sqlite3.c:1015-1045 | the type is the one in the first table that has the column; none is found exactly when no table has it |
| TypeLookupPrinted.QueryIsValid | drivers/sqlite3/dbd_sqlite3.c:1164-1168 | the select lists of the alias model hold no " from " unless a call does, so `getTables` starts at the right place |
| TypeLookupPrinted.TypeOfPrinted | drivers/sqlite3/dbd_sqlite3.c:676-1058 | end to end: for every printed nested select with clean lists, the type of the call that the field means if calls are recognised, or of the composed column in the first table that has it, or the fallback exactly when none has |
| TypeLookupPrinted.TypeOfQualified | drivers/sqlite3/dbd_sqlite3.c:963-988 | with a table name in front of the field, only that table decides about a column |
| TypeLookupPrinted.TypeOfShownColumn | drivers/sqlite3/dbd_sqlite3.c:676-1058 | over one base table, the type found is the declared type of the column whose value the result field shows, whatever calls stand in the lists |
| TypeLookupPrinted.TypeOfPlainSelect | drivers/sqlite3/dbd_sqlite3.c:676-1058 | the conditions can be met: the simplest statement, in lower or upper case, gets the declared type of its column |
| TypeLookupPrinted.TypeBesideUnclosed | drivers/sqlite3/dbd_sqlite3.c:1005-1058 | a field that means a column has no defined type when a bracket behind the sources is never closed |
| TypeLookupPrinted.TypeBesideJoin | drivers/sqlite3/dbd_sqlite3.c:1005-1058 | nor, in this model, when a join follows the sources |
| TypeLookupPrinted.TypeInUnclosed | drivers/sqlite3/dbd_sqlite3.c:676-947 | no field has one in a statement with a call that is never closed |
| CreateTable.FindBracket | drivers/sqlite/dbd_sqlite.c:917-924 | finds the first opening bracket, or the end |
| CreateTable.OneColumn | drivers/sqlite/dbd_sqlite.c:927-954 | one pass: the outcome for the token, and the list that is left after the terminator was written, even where it hits the following items |
| CreateTable.LeftIsShorter | drivers/sqlite/dbd_sqlite.c:927-954 | the terminators never keep the loop from ending |
| CreateTable.GetFieldType | drivers/sqlite/dbd_sqlite.c:892-959 | the in-place parser computes the lookup over the list, for every statement and name |
| CreateTablePrinted.DecideOnItem | drivers/sqlite/dbd_sqlite.c:930-953 | on a printed column the name is the one compared, and the type behind the blanks is the result up to the first comma |
| CreateTablePrinted.LeftOfItem | drivers/sqlite/dbd_sqlite.c:927-940 | on a printed column the terminator hits only the column itself: the others are left as they were |
| CreateTablePrinted.FindsFirstNamed | drivers/sqlite/dbd_sqlite.c:892-959 | on every printed comma-free list the type of the first column with the name is returned unchanged, the last one with the closing text |
| CreateTablePrinted.FirstNamedIs | drivers/sqlite/dbd_sqlite.c:892-959 | what that is: a column with the name in front of which none has it, and nothing exactly when no column has it |
| CreateTablePrinted.RightIffCommaFree | drivers/sqlite/dbd_sqlite.c:927-953 | with distinct names, every column is looked up rightly if and only if no type holds a comma |
| CreateTablePrinted.FirstBelongsToName | drivers/sqlite/dbd_sqlite.c:931-935 | any first character but a blank and a newline belongs to the name |
| CreateTablePrinted.HiddenBehindComma | drivers/sqlite/dbd_sqlite.c:935-940 | behind a type with a comma, when no blank follows in the piece or the piece is empty, the scan for a blank ends the list and all further columns are not found |
| CreateTablePrinted.LastWithoutBlank | drivers/sqlite/dbd_sqlite.c:935-940 | a last item without a blank behind its name makes the scan leave the statement |
| CreateTablePrinted.NoBracket | drivers/sqlite/dbd_sqlite.c:917-924 | without a bracket nothing is found |
| Quoting.IngresQuoteString | drivers/ingres/dbd_ingres.c:421-436 | writes exactly the literal and a NUL, touches nothing behind, and returns the literal's length |
| Quoting.FirebirdQuoteString | drivers/firebird/dbd_firebird.c:273-292 | the same bytes and length |
| Quoting.FreetdsQuoteString | drivers/freetds/dbd_freetds.c:517-530 | the same bytes and length |
| Quoting.EscapeChars | drivers/freetds/dbd_freetds.c:857-889 | puts a quote in front of exactly the listed characters, whatever the list |
| Quoting.EncodedLength | drivers/ingres/dbd_ingres.c:421-436 | a quoted text and its NUL take at most 2n+3 bytes; the exact length is n plus the number of doubled characters |
| Quoting.LiteralRoundTrip | drivers/ingres/dbd_ingres.c:421-436 | a reader of SQL literals stops exactly at the end of what was written and gets the text back, for every text |
| Quoting.EscapeString | drivers/sqlite3/dbd_sqlite3.c:1640-1666 | writes the escaped bytes and a NUL behind what was there, and returns their number |
| Quoting.EscapingQuoteString | drivers/oracle/dbd_oracle.c:255-264 | writes the escaped text between quotes and a NUL, and returns the length |
| Quoting.EscapeIsNameThenDouble | drivers/oracle/dbd_oracle.c:810-836 | escaping is doubling the quotes of a text in which 0x00 and 0x1A were replaced by two characters |
| Quoting.EscapedRoundTrip | drivers/sqlite/dbd_sqlite.c:1264-1290 | the quoted text reads back as the original if and only if it holds neither 0x00 nor 0x1A |
| Quoting.EscapedNamesReadBack | drivers/sqlite3/dbd_sqlite3.c:1640-1666 | 0x00 is written as `\0` and 0x1A as `\Z`: a reader that knows them gets the text back if and only if it holds no `\0` or `\Z` of its own |
| Quoting.IngresQuoteBinary | drivers/ingres/dbd_ingres.c:442-461 | fills exactly its 2n+4 bytes with the hex literal and a NUL |
| Quoting.HexRoundTrip | drivers/ingres/dbd_ingres.c:442-461 | decoding the digit pairs gives the bytes back |
| Quoting.HexLiteralRoundTrip | drivers/ingres/dbd_ingres.c:442-461 | a reader of `X'...'` literals gets the bytes back |
| IngresDate.InWordSet | drivers/ingres/months.gperf.c:132-183 | the lookup computes the perfect hash's answer for every word in memory |
| IngresDate.CaseStrcmp | drivers/ingres/months.gperf.c:72-88 | zero exactly on words that are equal up to letter case |
| IngresDate.WordSetIsMonths | drivers/ingres/months.gperf.c:94-182 | on a non-empty word the lookup succeeds exactly on the twelve names, in any letter case, with the right index |
| IngresDate.CalendarOrder | drivers/ingres/months.gperf.c:94-182 | the twelve names, spelled out, have the indices 0 to 11 |
| IngresDate.IngresDate | drivers/ingres/dbd_ingres.c:466-546 | the parser's result for every text, and the one byte that it overwrites |
| IngresDate.DateRoundTrip | drivers/ingres/dbd_ingres.c:475-543 | every printed date with a named month, and optional time of day, is parsed into exactly its fields |
| IngresDate.TimeRoundTrip | drivers/ingres/dbd_ingres.c:515-532 | every printed time of day is parsed into exactly its fields |
| IngresDate.DecimalRoundTrip | drivers/ingres/dbd_ingres.c:480-532 | the fields are numbers in base ten: the digits of a number, behind any zeros, are read as that number |
| IngresDate.DigitsAre | drivers/ingres/dbd_ingres.c:478-532 | the characters that the parser takes for digits are the ten digits |
| IngresDate.OtherMonthsDereferenceNull | drivers/ingres/dbd_ingres.c:492-499 | on any other name, full month names and the empty name included, NULL is dereferenced |
| IngresDate.NothingIsJanuary | drivers/ingres/months.gperf.c:132-183 | an empty name is found, with index 0, when what is in memory behind it hashes to a slot without a keyword |
| IngresDate.RejectedIffEndsEarly | drivers/ingres/dbd_ingres.c:475-543 | a text is rejected if and only if it has no day, or ends behind the day, lacks the second separator, ends behind the separator of a named month, or has a time that ends behind the hour or the minute |
| IngresDate.OverreadIffBare | drivers/ingres/dbd_ingres.c:475-499 | the look-up of the month reads behind the memory only for a day and two separators that nothing follows |
| IngresDate.NumericRoundTrip | drivers/ingres/dbd_ingres.c:486-532 | a date with a numeric month, and optional time of day, is parsed into exactly its fields if and only if the year survives the separator in front of it and the time is what is made of the rest |
| FirebirdLayout.LayOut | drivers/firebird/dbd_firebird.c:455-472 | the offsets are those of unbounded arithmetic reduced to `short` |
| FirebirdLayout.WrappedColumn | drivers/firebird/dbd_firebird.c:456-471 | wrapping at every assignment is the same as wrapping once |
| FirebirdLayout.LayoutIsSoundIffFits | drivers/firebird/dbd_firebird.c:434-472 | all slots lie in the block of 32768 bytes per column and are disjoint if and only if the last indicator starts within a `short`; then they are even and in column order, and each data slot is large enough |
| FirebirdLayout.InOrder | drivers/firebird/dbd_firebird.c:455-472 | while offsets fit, every data slot ends at or before its indicator and every indicator before the next data slot |
| FirebirdLayout.SlotsAreTight | drivers/firebird/dbd_firebird.c:455-472 | while offsets fit, the first slot starts the block and every other follows an indicator at once; a VARYING slot has `sqllen` + 3 bytes and any other `sqllen`, and the indicator is at the least even offset behind it |

## Left out

- Like.WildCaseCompare: the byte behind the pattern, which the code reads, is taken not to be a `%`; both callers end the pattern with a NUL.
- Client library calls, connections, directory scanning, pings, sequences, encodings and error messages: input and output whose meaning is not in this repository.
- The join-skipping loop of `getTables` (drivers/sqlite3/dbd_sqlite3.c:1252-1300): it has no test for the end of the string. A table behind a `join` gives the outcome `JoinSkip`.
- SelectTables.GetTablesOf: a table behind a `join` ends the scan with `JoinSkip`, as said above.
- SelectTables.TablesOfPrinted: unbalanced brackets are not printed, and no " from " stands in a statement printed with " FROM ". A `;` is the end of a select, with blanks around it or not; it is not followed by more text.
- AliasesPrinted.FieldOfPrinted: keywords are printed in lower or upper case, which are all that the source knows, and ", " between items. Behind the innermost `from` no token may be one of the select words, which the source takes for the start of a list; `AliasesPrinted.FieldOfCondition` says what one select there does.
- AliasesPrinted.CallOfPrinted: calls in which `as` or `from` is read as a keyword, as in `cast(t.a as int)` where the `.` hides the bracket. What such a call is taken for is that of the loop over its tokens; that it is not found is in `AliasesPrinted.CallIffUndotted` and `AliasesPrinted.ResolvedIffClean`, which cover it. A bracketed expression of this kind, without a function name, is not covered.
- TypeLookupPrinted.TypeOfPrinted: calls that hold the keyword of their list between blanks, where `getTables` would start, and a " from " anywhere in a statement with " FROM ".
- Joins and several sources with nested selects in the alias model: the innermost select may name several base tables, the outer ones have one source.
- TypeLookup.FindResultFieldType: the classification of a function by its name and of a declared type by `strstr`, and upper-casing: finite tables. The outcome holds the call or the type instead.
- The fixed sizes MAX_IDENT_LENGTH and MAX_TABLES_IN_QUERY, and names that do not fit them.
- NULL cells of table_info answers (the default value may be NULL): the scan does not read that column.
- The other half of SQLite's `find_result_field_types`, which looks the CREATE TABLE statement up.
- Table constraints and column constraints with commas in CREATE TABLE, which the parser takes for columns; `CreateTable.GetFieldType` covers them, the printer does not.
- IngresResults.IngresResults: the rows are a growing sequence; the row array, its limit and the slot numbering of libdbi (drivers/ingres/dbd_ingres.c:733-745) are not modelled. A select has at least one column.
- IngresResults.FetchAll: the same as for the whole run.
- IngresResults.IngresField: the copy of eight bytes of a native value reads at most the block here, where the source reads eight bytes of a shorter block too.
- IngresResults.StoreBlob: `realloc(blob, 0)` for an empty BLOB gives an empty block here. For a NULL BLOB the server is taken to deliver one segment, and the block that the source then leaks is dropped.
- `UTF-16` BLOBs are kept as bytes, as in the source.
- FreetdsRows.DbdQuery: one row result per statement, without NULL indicators, result counts and the loop over result types.
- FreetdsRows.ConvertDatum: decoding in place is taken not to lengthen the data, as `_dbd_decode_binary` promises.
- IngresDate.IngresDate: `timegm` is not modelled; the fields are the result.
- `FB_ALIGN` as a client header may define it: the fallback definition of the driver is modelled.
- FirebirdLayout.LayOut: negative `sqllen`, which a server does not report.
- mSQL quoting, Oracle date decoding, Firebird BLOB reading, `_dbd_encode_binary` and everything that rests on libdbi's own helpers.
- Type translation switches, reserved words, encoding tables and version strings: finite tables.
- Allocation failure, leaks, logging, and integer overflow other than that of `short`.

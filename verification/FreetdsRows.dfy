// Fetching in the FreeTDS driver: the row loop of `dbd_query` keeps one bound row ahead of the
// fetch, and `_dbd_freetds_buffers_binding` converts row k while it binds row k+1.
module FreetdsRows {
  import opened Memory

  // The data types, grouped as the binding's switch and `_translate_freetds_type` group them.
  datatype Kind =
    | Money      // MONEY, MONEY4: fetched into a block, replaced by a numeric block
    | DateTime   // DATETIME, DATETIME4: fetched inline, replaced by a time
    | Encoded    // UNIQUE, IMAGE, BINARY, VARBINARY, UNICHAR: decoded in place
    | Chars      // CHAR, TEXT, VARCHAR: NUL-terminated in a block
    | OtherBlock // NUMERIC, DECIMAL and unknown types: a block, not converted
    | OtherValue // integers and floats: inline, not converted

  datatype Format = Format(kind: Kind, maxlength: nat)

  predicate InBlock(f: Format) {
    f.kind != DateTime && f.kind != OtherValue
  }

  // What the client library and libdbi compute from fetched bytes.
  datatype Conversions = Conversions(
    numeric: seq<byte> -> seq<byte>,
    time: seq<byte> -> int,
    decode: seq<byte> -> seq<byte>)

  // sizeof(CS_NUMERIC_TYPE): the size of an `int` constant, not that of a numeric value
  const NUMERIC_SIZE := 4

  // Decoding never lengthens, and a money conversion fills the block that it is given.
  ghost predicate ValidConversions(conv: Conversions) {
    forall raw :: |conv.decode(raw)| <= |raw| && |conv.numeric(raw)| == NUMERIC_SIZE
  }

  datatype Datum = Inline(bits: seq<byte>) | Time(time: int) | Pointer(block: array<byte>)

  /** dbi_row_t; `converted` counts the conversions of each column. */
  class Row {
    var values: seq<Datum>
    var sizes: seq<nat>
    ghost var converted: seq<nat>

    // _dbd_row_allocate
    constructor (n: nat)
      ensures values == seq(n, i => Inline([])) && sizes == seq(n, i => 0) && converted == seq(n, i => 0)
    {
      values, sizes, converted := seq(n, i => Inline([])), seq(n, i => 0), seq(n, i => 0);
    }

    ghost predicate Shape(n: nat)
      reads this
    {
      |values| == |sizes| == |converted| == n
    }

    ghost function Blocks(): set<object>
      reads this
    {
      set i | 0 <= i < |values| && values[i].Pointer? :: values[i].block
    }
  }

  // The number of money columns among the first n.
  function MoneyColumns(fmts: seq<Format>, n: nat): nat
    requires n <= |fmts|
  {
    if n == 0 then 0 else MoneyColumns(fmts, n - 1) + OneIfMoney(fmts[n - 1])
  }

  function OneIfMoney(f: Format): nat {
    if f.kind == Money then 1 else 0
  }

  // The number of money values in n rows.
  function MoneyValues(fmts: seq<Format>, n: nat): nat {
    if n == 0 then 0 else MoneyValues(fmts, n - 1) + MoneyColumns(fmts, |fmts|)
  }

  // ----- The two states of a column -----

  // Allocated and bound, not yet converted: inline, or a block of its own.
  ghost predicate Bound(f: Format, datum: Datum, size: nat)
    reads if datum.Pointer? then {datum.block} else {}
  {
    && size == f.maxlength
    && if InBlock(f) then datum.Pointer? && datum.block.Length == f.maxlength + 1 else datum.Inline?
  }

  // The bytes that the fetch leaves in place.
  ghost function Content(datum: Datum): seq<byte>
    requires !datum.Time?
    reads if datum.Pointer? then {datum.block} else {}
  {
    match datum
    case Inline(bits) => bits
    case Pointer(block) => block[..]
  }

  // The text in memory has this length: its first NUL is there.
  predicate HasLength(raw: seq<byte>, n: nat) {
    n < |raw| && raw[n] == 0 && forall k | 0 <= k < n :: raw[k] != 0
  }

  // The column holds what one conversion makes of the fetched content `raw`.
  ghost predicate ConvertedFrom(f: Format, raw: seq<byte>, datum: Datum, size: nat, conv: Conversions)
    requires ValidConversions(conv)
    reads if datum.Pointer? then {datum.block} else {}
  {
    match f.kind
    case Money => datum.Pointer? && datum.block[..] == conv.numeric(raw) && size == f.maxlength
    case DateTime => datum == Time(conv.time(raw)) && size == f.maxlength
    case Encoded =>
      var d := conv.decode(raw);
      datum.Pointer? && datum.block[..] == d + raw[|d|..] && size == |d|
    case Chars => datum.Pointer? && datum.block[..] == raw && HasLength(raw, size)
    case OtherBlock => datum.Pointer? && datum.block[..] == raw && size == f.maxlength
    case OtherValue => datum == Inline(raw) && size == f.maxlength
  }

  // The column holds the server's value, converted once.
  ghost predicate Stored(f: Format, sent: seq<byte>, datum: Datum, size: nat, conv: Conversions)
    requires ValidConversions(conv)
    reads if datum.Pointer? then {datum.block} else {}
  {
    exists raw :: sent <= raw && ConvertedFrom(f, raw, datum, size, conv)
  }

  /** The size of a stored text is the length of the text that was sent, up to its first NUL. */
  lemma StoredTextLength(f: Format, sent: seq<byte>, datum: Datum, size: nat, conv: Conversions)
    requires ValidConversions(conv) && f.kind == Chars && 0 in sent && Stored(f, sent, datum, size, conv)
    ensures size < |sent| && sent[size] == 0 && forall k | 0 <= k < size :: sent[k] != 0
    ensures datum.Pointer? && sent <= datum.block[..]
  {
    var raw :| sent <= raw && ConvertedFrom(f, raw, datum, size, conv);
    var k :| 0 <= k < |sent| && sent[k] == 0;
    assert raw[k] == 0;
  }

  // A row whose first n columns are converted and whose others hold what was fetched.
  ghost predicate Halfway(row: Row, n: nat, fmts: seq<Format>, sent: seq<seq<byte>>, conv: Conversions)
    requires ValidConversions(conv)
    reads row, row.Blocks()
  {
    && row.Shape(|fmts|) && |sent| == |fmts| && n <= |fmts| && Distinct(row.values)
    && (forall i | 0 <= i < n :: Stored(fmts[i], sent[i], row.values[i], row.sizes[i], conv) && row.converted[i] == 1)
    && (forall i | n <= i < |fmts| ::
          Bound(fmts[i], row.values[i], row.sizes[i]) && sent[i] <= Content(row.values[i]) && row.converted[i] == 0)
  }

  ghost predicate Distinct(values: seq<Datum>) {
    forall i, j | 0 <= i < j < |values| && values[i].Pointer? && values[j].Pointer? ::
      values[i].block != values[j].block
  }

  // The blocks of the money columns among the first n.
  ghost function MoneyBlocks(values: seq<Datum>, fmts: seq<Format>, n: nat): set<object>
    requires n <= |fmts|
  {
    if n == 0 then {} else MoneyBlocks(values, fmts, n - 1) + MoneyBlock(values, fmts, n - 1)
  }

  ghost function MoneyBlock(values: seq<Datum>, fmts: seq<Format>, i: nat): set<object>
    requires i < |fmts|
  {
    if i < |values| && fmts[i].kind == Money && values[i].Pointer? then {values[i].block} else {}
  }

  lemma Together(a: set<object>, b: set<object>)
    ensures a !! b ==> |a + b| == |a| + |b|
  {
  }

  lemma {:induction false} MoneyBlocksWithin(values: seq<Datum>, fmts: seq<Format>, n: nat)
    requires n <= |fmts| == |values|
    ensures forall o | o in MoneyBlocks(values, fmts, n) ::
              exists i :: 0 <= i < n && values[i].Pointer? && values[i].block == o
  {
    if n > 0 {
      MoneyBlocksWithin(values, fmts, n - 1);
    }
  }

  // In a bound row they are as many as there are money columns.
  lemma {:induction false} CountBlocks(values: seq<Datum>, fmts: seq<Format>, n: nat)
    requires n <= |fmts| == |values| && Distinct(values)
    requires forall i | 0 <= i < n && fmts[i].kind == Money :: values[i].Pointer?
    ensures |MoneyBlocks(values, fmts, n)| == MoneyColumns(fmts, n)
  {
    if n > 0 {
      CountBlocks(values, fmts, n - 1);
      var others, block := MoneyBlocks(values, fmts, n - 1), MoneyBlock(values, fmts, n - 1);
      assert others !! block by {
        MoneyBlocksWithin(values, fmts, n - 1);
      }
      Together(others, block);
    }
  }

  // The first n columns are allocated and bound.
  ghost predicate Prepared(row: Row, n: nat, fmts: seq<Format>)
    reads row, row.Blocks()
  {
    && row.Shape(|fmts|) && n <= |fmts| && Distinct(row.values)
    && (forall i | 0 <= i < n :: Bound(fmts[i], row.values[i], row.sizes[i]) && row.converted[i] == 0)
    && (forall i | n <= i < |fmts| :: row.values[i] == Inline([]) && row.converted[i] == 0)
  }

  // ----- The client library -----

  datatype Ret = Succeed | EndData | Fail | RowFail | Other

  // A row as sent: a value fits its buffer, and text ends with its NUL (CS_FMT_NULLTERM).
  predicate ValidRow(fmts: seq<Format>, sent: seq<seq<byte>>) {
    && |sent| == |fmts|
    && forall i | 0 <= i < |fmts| :: |sent[i]| <= fmts[i].maxlength + 1 && (fmts[i].kind == Chars ==> 0 in sent[i])
  }

  /** A command with one row result: the rows, how the fetches end, and a call of ct_bind that
      fails, if any. `bound` is the row that each column is bound to. */
  class Command {
    const fmts: seq<Format>
    const rows: seq<seq<seq<byte>>>
    const ending: Ret
    const bindFault: int
    var pos: nat
    var binds: nat
    var bound: seq<Row?>

    ghost predicate Valid()
      reads this
    {
      && (forall k | 0 <= k < |rows| :: ValidRow(fmts, rows[k]))
      && ending != Succeed && pos <= |rows| && |bound| == |fmts|
    }

    // ct_bind
    method Bind(idx: nat, row: Row) returns (ret: Ret)
      requires Valid() && idx < |fmts|
      modifies this`binds, this`bound
      ensures Valid() && (ret == Succeed || ret == Fail) && (ret == Fail <==> old(binds) == bindFault)
      ensures binds == old(binds) + if ret == Succeed then 1 else 0
      ensures ret == Succeed ==> bound == old(bound)[idx := row]
    {
      if binds == bindFault {
        return Fail;
      }
      binds := binds + 1;
      bound := bound[idx := row];
      ret := Succeed;
    }

    // ct_fetch: the next row into the bound buffers, which are all those of one row
    method Fetch(row: Row) returns (ret: Ret)
      requires Valid() && Ready(this, row)
      modifies this`pos, row`values, row.Blocks()
      ensures Valid() && row.Blocks() == old(row.Blocks())
      ensures ret == Succeed <==> old(pos) < |rows|
      ensures ret == Succeed ==> pos == old(pos) + 1
      ensures ret != Succeed ==> ret == ending && pos == old(pos) == |rows| && Prepared(row, |fmts|, fmts)
      ensures forall conv | ret == Succeed && ValidConversions(conv) :: Halfway(row, 0, fmts, rows[old(pos)], conv)
    {
      if pos == |rows| {
        return ending;
      }
      assert ValidRow(fmts, rows[pos]);
      PutAll(row, rows[pos]);
      pos := pos + 1;
      ret := Succeed;
    }

    // The values of one row, each into its buffer.
    method PutAll(row: Row, sent: seq<seq<byte>>)
      requires Prepared(row, |fmts|, fmts) && ValidRow(fmts, sent)
      modifies row`values, row.Blocks()
      ensures Prepared(row, |fmts|, fmts) && row.Blocks() == old(row.Blocks())
      ensures forall k | 0 <= k < |fmts| :: sent[k] <= Content(row.values[k])
    {
      for i := 0 to |fmts|
        invariant Prepared(row, |fmts|, fmts)
        invariant forall k | 0 <= k < i :: sent[k] <= Content(row.values[k])
        invariant forall k | 0 <= k < |fmts| ::
          if InBlock(fmts[k]) then row.values[k] == old(row.values[k]) else row.values[k].Inline?
        invariant row.Blocks() == old(row.Blocks())
      {
        Put(row, i, sent[i]);
      }
    }

    method Put(row: Row, i: nat, data: seq<byte>)
      requires Prepared(row, |fmts|, fmts) && i < |fmts| && |data| <= fmts[i].maxlength + 1
      modifies row`values, if row.values[i].Pointer? then {row.values[i].block} else {}
      ensures Prepared(row, |fmts|, fmts) && data <= Content(row.values[i])
      ensures row.values == old(row.values)[i := row.values[i]] && row.Blocks() == old(row.Blocks())
      ensures if InBlock(fmts[i]) then row.values[i] == old(row.values[i]) else row.values[i].Inline?
    {
      if row.values[i].Pointer? {
        Fill(row.values[i].block, data);
      } else {
        row.values := row.values[i := Inline(data)];
      }
    }
  }

  // The row is allocated, and every column is bound to it.
  ghost predicate Ready(cmd: Command, row: Row)
    reads cmd, row, row.Blocks()
  {
    && Prepared(row, |cmd.fmts|, cmd.fmts) && |cmd.bound| == |cmd.fmts|
    && forall i | 0 <= i < |cmd.fmts| :: cmd.bound[i] == row
  }

  // Neither the row nor a block of it is among the objects.
  ghost predicate Outside(row: Row, objects: set<object>)
    reads row
  {
    row !in objects && row.Blocks() !! objects
  }

  // ----- Conversion -----

  // strlen
  method StrLen(block: array<byte>) returns (n: nat)
    requires 0 in block[..]
    ensures HasLength(block[..], n)
  {
    n := 0;
    ghost var raw := block[..];
    while block[n] != 0
      invariant n < |raw| && 0 in raw[n..] && forall k | 0 <= k < n :: raw[k] != 0
      decreases |raw| - n
    {
      assert raw[n..] == [raw[n]] + raw[n + 1..];
      n := n + 1;
    }
  }

  /** The binding's first switch: the conversion of one datum. `released` is the block that the
      money conversion frees. */
  method ConvertDatum(datum0: Datum, size0: nat, f: Format, conv: Conversions)
    returns (datum: Datum, size: nat, ghost released: set<object>)
    requires ValidConversions(conv) && Bound(f, datum0, size0)
    requires f.kind == Chars ==> 0 in Content(datum0)
    modifies if datum0.Pointer? then {datum0.block} else {}
    ensures ConvertedFrom(f, old(Content(datum0)), datum, size, conv)
    ensures released == if f.kind == Money then {datum0.block} else {}
    ensures datum0.Pointer? && datum != datum0 ==> f.kind == Money
    ensures f.kind == Money ==> datum0.Pointer? && datum.Pointer? && fresh(datum.block)
    ensures datum.Pointer? ==> fresh(datum.block) || datum == datum0
  {
    datum, size, released := datum0, size0, {};
    ghost var raw := Content(datum0);
    match f.kind {
      case Money =>
        released := {datum0.block};
        var addr := new byte[NUMERIC_SIZE];
        Fill(addr, conv.numeric(datum0.block[..]));
        assert addr[..] == addr[..NUMERIC_SIZE];
        datum := Pointer(addr);
      case DateTime =>
        datum := Time(conv.time(datum0.bits));
      case Encoded =>
        var decoded := conv.decode(datum0.block[..]);
        Fill(datum0.block, decoded);
        assert datum0.block[..] == decoded + raw[|decoded|..];
        size := |decoded|;
      case Chars =>
        size := StrLen(datum0.block);
      case OtherBlock =>
      case OtherValue =>
    }
  }

  // All columns but i are as in a row whose first i columns are converted.
  ghost predicate Others(row: Row, i: nat, fmts: seq<Format>, sent: seq<seq<byte>>, conv: Conversions)
    requires ValidConversions(conv)
    reads row, row.Blocks()
  {
    && row.Shape(|fmts|) && |sent| == |fmts| && i < |fmts|
    && (forall k | 0 <= k < i :: Stored(fmts[k], sent[k], row.values[k], row.sizes[k], conv) && row.converted[k] == 1)
    && (forall k | i < k < |fmts| ::
          Bound(fmts[k], row.values[k], row.sizes[k]) && sent[k] <= Content(row.values[k]) && row.converted[k] == 0)
  }

  // The conversion of column i, which the row does not show yet.
  method ConvertValue(row: Row, i: nat, fmts: seq<Format>, conv: Conversions, ghost sent: seq<seq<byte>>)
    returns (datum: Datum, size: nat, ghost released: set<object>)
    requires ValidConversions(conv) && i < |fmts| && Halfway(row, i, fmts, sent, conv)
    requires fmts[i].kind == Chars ==> 0 in sent[i]
    modifies if row.values[i].Pointer? then {row.values[i].block} else {}
    ensures Others(row, i, fmts, sent, conv) && row.converted[i] == 0
    ensures Stored(fmts[i], sent[i], datum, size, conv)
    ensures fmts[i].kind == Money ==> row.values[i].Pointer? && datum.Pointer? && fresh(datum.block)
    ensures released == if fmts[i].kind == Money then {row.values[i].block} else {}
    ensures datum.Pointer? ==> fresh(datum.block) || datum == row.values[i]
  {
    ghost var raw := Content(row.values[i]);
    assert fmts[i].kind == Chars ==> 0 in raw;
    datum, size, released := ConvertDatum(row.values[i], row.sizes[i], fmts[i], conv);
  }

  /** Convert column i of the previous row. */
  method ConvertColumn(row: Row, i: nat, fmts: seq<Format>, conv: Conversions, ghost sent: seq<seq<byte>>)
    returns (ghost released: set<object>)
    requires ValidConversions(conv) && i < |fmts| && Halfway(row, i, fmts, sent, conv)
    requires fmts[i].kind == Chars ==> 0 in sent[i]
    modifies row, if row.values[i].Pointer? then {row.values[i].block} else {}
    ensures Halfway(row, i + 1, fmts, sent, conv)
    ensures released == MoneyBlock(old(row.values), fmts, i) && released !! row.Blocks()
    ensures row.values == old(row.values)[i := row.values[i]]
    ensures row.values[i].Pointer? ==> fresh(row.values[i].block) || row.values[i].block in old(row.Blocks())
  {
    var datum, size;
    datum, size, released := ConvertValue(row, i, fmts, conv, sent);
    StoreDatum(row, i, datum, size, fmts, conv, sent);
  }

  // Put a converted datum into the row. The block it had is no longer in the row, unless it is kept.
  method StoreDatum(row: Row, i: nat, datum: Datum, size: nat, fmts: seq<Format>, conv: Conversions,
                    ghost sent: seq<seq<byte>>)
    requires ValidConversions(conv) && Others(row, i, fmts, sent, conv) && row.converted[i] == 0 && Distinct(row.values)
    requires Stored(fmts[i], sent[i], datum, size, conv)
    requires datum.Pointer? ==> datum.block !in row.Blocks() || datum == row.values[i]
    modifies row
    ensures Halfway(row, i + 1, fmts, sent, conv)
    ensures row.values == old(row.values)[i := datum]
    ensures old(row.values[i]).Pointer? && datum != old(row.values[i]) ==> old(row.values[i]).block !in row.Blocks()
  {
    row.values := row.values[i := datum];
    row.sizes := row.sizes[i := size];
    row.converted := row.converted[i := row.converted[i] + 1];
  }

  // ----- Binding -----

  // Of n calls of ct_bind since there were `before`, none failed, or else one of them did.
  ghost predicate Counted(cmd: Command, all: bool, before: nat, n: nat)
    reads cmd
  {
    if all then cmd.binds == before + n && !(before <= cmd.bindFault < before + n)
    else before <= cmd.bindFault < before + n
  }

  // The calls of ct_bind for n rows.
  function BindCalls(columns: nat, n: nat): nat {
    if n == 0 then 0 else BindCalls(columns, n - 1) + columns
  }

  lemma {:induction false} CallsGrow(columns: nat, n: nat, m: nat)
    requires n <= m
    ensures BindCalls(columns, n) <= BindCalls(columns, m)
  {
    if n < m {
      CallsGrow(columns, n, m - 1);
    }
  }

  // One pass of the second half of the binding loop: allocate and bind column i of a new row.
  method BindColumn(cmd: Command, row: Row, i: nat) returns (ret: Ret)
    requires cmd.Valid() && i < |cmd.fmts| && Prepared(row, i, cmd.fmts)
    modifies cmd`binds, cmd`bound, row
    ensures cmd.Valid() && Prepared(row, i + 1, cmd.fmts)
    ensures fresh(row.Blocks() - old(row.Blocks()))
    ensures ret == Succeed ==> cmd.bound == old(cmd.bound)[i := row]
    ensures Counted(cmd, ret == Succeed, old(cmd.binds), 1)
  {
    row.sizes := row.sizes[i := cmd.fmts[i].maxlength];
    if InBlock(cmd.fmts[i]) {
      var block := new byte[row.sizes[i] + 1];
      row.values := row.values[i := Pointer(block)];
    } else {
      row.values := row.values[i := Inline([])];
    }
    ret := cmd.Bind(i, row);
  }

  /** dbi_result_t: row n of the result is in slot n+1. */
  class Result {
    var rows: array<Row?>
    var numrows: nat

    // _dbd_result_create
    constructor ()
      ensures numrows == 0 && Slots([]) && fresh(rows)
    {
      rows, numrows := new Row?[0], 0;
    }

    ghost predicate Slots(kept: seq<Row>)
      reads this, rows
    {
      && numrows == |kept| && rows.Length == (if kept == [] then 0 else numrows + 1)
      && forall k | 0 <= k < |kept| :: k + 1 < rows.Length && rows[k + 1] == kept[k]
    }

    // The row that was saved last, if any.
    ghost predicate Last(prev: Row?)
      reads this, rows
    {
      if prev == null then numrows == 0 else 0 < numrows < rows.Length && rows[numrows] == prev
    }

    // The growing of `rows` and _dbd_row_finalize.
    method SaveRow(row: Row, ghost kept: seq<Row>)
      requires Slots(kept)
      modifies this
      ensures Slots(kept + [row]) && Last(row) && fresh(rows)
    {
      var larger := new Row?[numrows + 2](i => null);
      for k := 0 to rows.Length
        invariant rows == old(rows) && numrows == old(numrows) && Slots(kept)
        invariant forall i | 0 <= i < k :: larger[i] == rows[i]
      {
        larger[k] := rows[k];
      }
      rows := larger;
      rows[numrows + 1] := row;
      numrows := numrows + 1;
    }
  }

  // What the conversion of the last saved row may change.
  ghost function Footprint(prev: Row?): set<object>
    reads prev
  {
    if prev == null then {} else {prev} + prev.Blocks()
  }

  // The last saved row has its first i columns converted, outside of what earlier rows own.
  ghost predicate Converting(prev: Row?, i: nat, fmts: seq<Format>, sent: seq<seq<byte>>, conv: Conversions,
                             owned: set<object>)
    requires ValidConversions(conv)
    reads prev, Footprint(prev)
  {
    prev != null ==>
      ValidRow(fmts, sent) && Halfway(prev, i, fmts, sent, conv) && Outside(prev, owned)
  }

  function Values(prev: Row?): seq<Datum>
    reads prev
  {
    if prev == null then [] else prev.values
  }

  // Converting column i of the last saved row, if there is one.
  method ConvertLast(result: Result, i: nat, fmts: seq<Format>, conv: Conversions, ghost prev: Row?,
                     ghost sent: seq<seq<byte>>, ghost owned: set<object>)
    returns (ghost released: set<object>)
    requires ValidConversions(conv) && result.Last(prev) && i < |fmts|
    requires Converting(prev, i, fmts, sent, conv, owned)
    modifies Footprint(prev)
    ensures Converting(prev, i + 1, fmts, sent, conv, owned)
    ensures released == MoneyBlock(old(Values(prev)), fmts, i) && released !! Footprint(prev)
    ensures SameFrom(old(Values(prev)), Values(prev), i + 1)
    ensures fresh(Footprint(prev) - old(Footprint(prev)))
  {
    released := {};
    if result.numrows > 0 {
      var row := result.rows[result.numrows];
      released := ConvertColumn(row, i, fmts, conv, sent);
      assert row !in released;
    }
  }

  ghost predicate SameFrom(before: seq<Datum>, after: seq<Datum>, n: nat) {
    |before| == |after| && forall k | n <= k < |before| :: after[k] == before[k]
  }

  // The first i columns are bound to the row.
  ghost predicate BoundTo(cmd: Command, row: Row, i: nat)
    reads cmd
  {
    i <= |cmd.bound| && forall k | 0 <= k < i :: cmd.bound[k] == row
  }

  // ConvertLast, beside a row that is being bound.
  method ConvertBeside(result: Result, row: Row, i: nat, fmts: seq<Format>, conv: Conversions, ghost prev: Row?,
                       ghost sent: seq<seq<byte>>, ghost owned: set<object>)
    returns (ghost released: set<object>)
    requires ValidConversions(conv) && result.Last(prev) && i < |fmts|
    requires Converting(prev, i, fmts, sent, conv, owned) && Prepared(row, i, fmts)
    requires Outside(row, Footprint(prev))
    modifies Footprint(prev)
    ensures Converting(prev, i + 1, fmts, sent, conv, owned) && Prepared(row, i, fmts)
    ensures row.Blocks() == old(row.Blocks()) && Outside(row, Footprint(prev))
    ensures released == MoneyBlock(old(Values(prev)), fmts, i) && released !! Footprint(prev)
    ensures SameFrom(old(Values(prev)), Values(prev), i + 1)
    ensures fresh(Footprint(prev) - old(Footprint(prev)))
  {
    released := ConvertLast(result, i, fmts, conv, prev, sent, owned);
  }

  // BindColumn, beside the last saved row.
  method BindBeside(cmd: Command, row: Row, i: nat, conv: Conversions, ghost prev: Row?,
                    ghost sent: seq<seq<byte>>, ghost owned: set<object>)
    returns (ret: Ret)
    requires ValidConversions(conv) && cmd.Valid() && i < |cmd.fmts| && Prepared(row, i, cmd.fmts)
    requires Converting(prev, i + 1, cmd.fmts, sent, conv, owned) && Outside(row, Footprint(prev))
    requires BoundTo(cmd, row, i)
    modifies cmd`binds, cmd`bound, row
    ensures cmd.Valid() && Counted(cmd, ret == Succeed, old(cmd.binds), 1) && Prepared(row, i + 1, cmd.fmts)
    ensures Converting(prev, i + 1, cmd.fmts, sent, conv, owned)
    ensures Footprint(prev) == old(Footprint(prev)) && Values(prev) == old(Values(prev))
    ensures Outside(row, Footprint(prev))
    ensures ret == Succeed ==> BoundTo(cmd, row, i + 1)
    ensures fresh(row.Blocks() - old(row.Blocks()))
  {
    ghost var before := row.Blocks();
    ret := BindColumn(cmd, row, i);
    assert forall o | o in row.Blocks() :: o in before || fresh(o);
  }

  // One pass of the binding loop: convert column i of the last row, bind column i of the new one.
  method BindNext(cmd: Command, result: Result, row: Row, i: nat, conv: Conversions, ghost prev: Row?,
                  ghost sent: seq<seq<byte>>, ghost owned: set<object>, ghost released0: set<object>)
    returns (ret: Ret, ghost released: set<object>)
    requires ValidConversions(conv) && cmd.Valid() && result.Last(prev) && i < |cmd.fmts|
    requires Converting(prev, i, cmd.fmts, sent, conv, owned) && Prepared(row, i, cmd.fmts)
    requires BoundTo(cmd, row, i) && Outside(row, Footprint(prev)) && released0 !! Footprint(prev)
    modifies cmd`binds, cmd`bound, row, Footprint(prev)
    ensures cmd.Valid() && Counted(cmd, ret == Succeed, old(cmd.binds), 1)
    ensures Converting(prev, i + 1, cmd.fmts, sent, conv, owned) && Prepared(row, i + 1, cmd.fmts)
    ensures Outside(row, Footprint(prev)) && (ret == Succeed ==> BoundTo(cmd, row, i + 1))
    ensures released == released0 + MoneyBlock(old(Values(prev)), cmd.fmts, i) && released !! Footprint(prev)
    ensures SameFrom(old(Values(prev)), Values(prev), i + 1)
    ensures fresh(row.Blocks() - old(row.Blocks())) && fresh(Footprint(prev) - old(Footprint(prev)))
  {
    ghost var freed := ConvertBeside(result, row, i, cmd.fmts, conv, prev, sent, owned);
    released := released0 + freed;
    ret := BindBeside(cmd, row, i, conv, prev, sent, owned);
  }

  /** `_dbd_freetds_buffers_binding`: allocate and bind a new row, converting the last saved
      row, if there is one, column by column on the way. The blocks of its money values are freed. */
  method BuffersBinding(cmd: Command, result: Result, conv: Conversions, ghost prev: Row?,
                        ghost sent: seq<seq<byte>>, ghost owned: set<object>)
    returns (bound: Row?, ghost released: set<object>)
    requires ValidConversions(conv) && cmd.Valid() && result.Last(prev)
    requires Converting(prev, 0, cmd.fmts, sent, conv, owned)
    modifies cmd`binds, cmd`bound, Footprint(prev)
    ensures cmd.Valid()
    ensures Counted(cmd, bound != null, old(cmd.binds), |cmd.fmts|)
    ensures bound != null ==>
              && fresh(bound) && fresh(bound.Blocks()) && Ready(cmd, bound)
              && Converting(prev, |cmd.fmts|, cmd.fmts, sent, conv, owned) && Outside(bound, Footprint(prev))
              && released == MoneyBlocks(old(Values(prev)), cmd.fmts, |cmd.fmts|) && released !! Footprint(prev)
    ensures fresh(Footprint(prev) - old(Footprint(prev)))
  {
    hide Converting;
    var row := new Row(|cmd.fmts|);
    var ret;
    ret, released := BindColumns(cmd, result, row, conv, prev, sent, owned);
    bound := if ret == Succeed then row else null;
  }

  // The loop over the columns.
  method BindColumns(cmd: Command, result: Result, row: Row, conv: Conversions, ghost prev: Row?,
                     ghost sent: seq<seq<byte>>, ghost owned: set<object>)
    returns (ret: Ret, ghost released: set<object>)
    requires ValidConversions(conv) && cmd.Valid() && result.Last(prev)
    requires Converting(prev, 0, cmd.fmts, sent, conv, owned) && Prepared(row, 0, cmd.fmts)
    requires Outside(row, Footprint(prev))
    modifies cmd`binds, cmd`bound, row, Footprint(prev)
    ensures cmd.Valid() && Counted(cmd, ret == Succeed, old(cmd.binds), |cmd.fmts|)
    ensures ret == Succeed ==> Converting(prev, |cmd.fmts|, cmd.fmts, sent, conv, owned) && Ready(cmd, row)
    ensures Outside(row, Footprint(prev))
    ensures fresh(row.Blocks() - old(row.Blocks())) && fresh(Footprint(prev) - old(Footprint(prev)))
    ensures ret == Succeed ==>
              released == MoneyBlocks(old(Values(prev)), cmd.fmts, |cmd.fmts|) && released !! Footprint(prev)
  {
    hide Converting, Prepared;
    released, ret := {}, Succeed;
    for idx := 0 to |cmd.fmts|
      invariant Counted(cmd, true, old(cmd.binds), idx)
      invariant cmd.Valid() && ret == Succeed && Prepared(row, idx, cmd.fmts) && BoundTo(cmd, row, idx)
      invariant Converting(prev, idx, cmd.fmts, sent, conv, owned) && Outside(row, Footprint(prev))
      invariant fresh(row.Blocks() - old(row.Blocks())) && fresh(Footprint(prev) - old(Footprint(prev)))
      invariant SameFrom(old(Values(prev)), Values(prev), idx)
      invariant released == MoneyBlocks(old(Values(prev)), cmd.fmts, idx) && released !! Footprint(prev)
    {
      ret, released := BindNext(cmd, result, row, idx, conv, prev, sent, owned, released);
      if ret != Succeed {
        return;
      }
    }
  }

  /** `_dbd_free_row`: what it frees of a bound row. */
  method FreeRow(row: Row, fmts: seq<Format>) returns (ghost released: set<object>)
    requires Prepared(row, |fmts|, fmts)
    ensures released == {row} + row.Blocks()
  {
    released := {};
    for idx := 0 to |fmts|
      invariant released == set i | 0 <= i < idx && row.values[i].Pointer? :: row.values[i].block
    {
      if InBlock(fmts[idx]) {
        released := released + {row.values[idx].block};
      }
    }
    released := released + {row};
  }

  // ----- The whole run -----

  // The rows are the server's, each converted exactly once, and share no block.
  ghost predicate Collected(kept: seq<Row>, fmts: seq<Format>, sent: seq<seq<seq<byte>>>, conv: Conversions,
                            owned: set<object>)
    requires ValidConversions(conv) && |kept| <= |sent|
    reads owned, kept
  {
    && (forall k | 0 <= k < |kept| :: kept[k] in owned && kept[k].Blocks() <= owned)
    && (forall k | 0 <= k < |kept| :: Halfway(kept[k], |fmts|, fmts, sent[k], conv))
    && (forall k, l | 0 <= k < l < |kept| :: kept[k] != kept[l] && kept[k].Blocks() !! kept[l].Blocks())
  }

  /** The size recorded for a money value stays that of the fetched type. It is within the block that
      replaced the fetched one, in all rows, if and only if no money type is longer than an `int`. */
  lemma MoneySizesIffShort(kept: seq<Row>, fmts: seq<Format>, sent: seq<seq<seq<byte>>>, conv: Conversions,
                           owned: set<object>)
    requires ValidConversions(conv) && |kept| <= |sent| && Collected(kept, fmts, sent, conv, owned)
    ensures (forall k, i | 0 <= k < |kept| && 0 <= i < |fmts| && fmts[i].kind == Money :: SizeIsWithin(kept[k], i))
       <==> kept == [] || forall i | 0 <= i < |fmts| && fmts[i].kind == Money :: fmts[i].maxlength <= 4
  {
    forall k, i | 0 <= k < |kept| && 0 <= i < |fmts| && fmts[i].kind == Money
      ensures SizeIsWithin(kept[k], i) <==> fmts[i].maxlength <= NUMERIC_SIZE
    {
      assert Halfway(kept[k], |fmts|, fmts, sent[k], conv);
      StoredMoney(fmts[i], sent[k][i], kept[k].values[i], kept[k].sizes[i], conv);
    }
    if kept != [] && exists i :: 0 <= i < |fmts| && fmts[i].kind == Money && fmts[i].maxlength > NUMERIC_SIZE {
      var i :| 0 <= i < |fmts| && fmts[i].kind == Money && fmts[i].maxlength > NUMERIC_SIZE;
      assert !SizeIsWithin(kept[0], i);
    }
  }

  // The size recorded for column i is no larger than its block.
  ghost predicate SizeIsWithin(row: Row, i: nat)
    reads row
  {
    i < |row.values| && i < |row.sizes| && row.values[i].Pointer? && row.sizes[i] <= row.values[i].block.Length
  }

  lemma StoredMoney(f: Format, sent: seq<byte>, datum: Datum, size: nat, conv: Conversions)
    requires ValidConversions(conv) && f.kind == Money && Stored(f, sent, datum, size, conv)
    ensures datum.Pointer? && datum.block.Length == NUMERIC_SIZE && size == f.maxlength
  {
    var raw :| sent <= raw && ConvertedFrom(f, raw, datum, size, conv);
    assert |conv.numeric(raw)| == NUMERIC_SIZE && |datum.block[..]| == datum.block.Length;
  }

  lemma CollectNone(fmts: seq<Format>, sent: seq<seq<seq<byte>>>, conv: Conversions)
    requires ValidConversions(conv)
    ensures Collected([], fmts, sent, conv, {})
  {
  }

  lemma CollectOne(kept: seq<Row>, row: Row, fmts: seq<Format>, sent: seq<seq<seq<byte>>>, conv: Conversions,
                   owned: set<object>)
    requires ValidConversions(conv) && |kept| < |sent| && Collected(kept, fmts, sent, conv, owned)
    requires Halfway(row, |fmts|, fmts, sent[|kept|], conv) && row !in owned && row.Blocks() !! owned
    ensures Collected(kept + [row], fmts, sent, conv, owned + {row} + row.Blocks())
  {
    var all := kept + [row];
    assert forall k | 0 <= k < |kept| :: all[k] == kept[k] && kept[k].Blocks() <= owned;
  }

  // Save the fetched row and bind a new one, converting the saved row.
  method SaveAndBind(cmd: Command, result: Result, row: Row, conv: Conversions, ghost kept0: seq<Row>,
                     ghost owned0: set<object>, ghost released0: set<object>)
    returns (next: Row?, ghost kept: seq<Row>, ghost owned: set<object>, ghost released: set<object>)
    requires ValidConversions(conv) && cmd.Valid() && result.Slots(kept0)
    requires |kept0| < |cmd.rows| && Collected(kept0, cmd.fmts, cmd.rows, conv, owned0)
    requires Halfway(row, 0, cmd.fmts, cmd.rows[|kept0|], conv)
    requires Outside(row, owned0) && Outside(row, released0) && released0 !! owned0
    modifies cmd`binds, cmd`bound, result, row, row.Blocks()
    ensures cmd.Valid() && Counted(cmd, next != null, old(cmd.binds), |cmd.fmts|)
    ensures next != null ==>
              && kept == kept0 + [row] && result.Slots(kept) && owned == owned0 + {row} + row.Blocks()
              && Collected(kept, cmd.fmts, cmd.rows, conv, owned)
              && fresh(next) && fresh(next.Blocks()) && Ready(cmd, next)
              && Outside(next, owned) && Outside(next, released) && released !! owned
              && |released| == |released0| + MoneyColumns(cmd.fmts, |cmd.fmts|)
  {
    hide Halfway, Ready;
    result.SaveRow(row, kept0);
    kept := kept0 + [row];
    ghost var freed;
    next, owned, freed := BindBehind(cmd, result, row, conv, kept0, owned0, released0);
    released := released0 + freed;
    Together(released0, freed);
  }

  // A fetched row holds as many money blocks as there are money columns.
  lemma {:induction false} CountFetched(row: Row, fmts: seq<Format>, sent: seq<seq<byte>>, conv: Conversions)
    requires ValidConversions(conv) && Halfway(row, 0, fmts, sent, conv)
    ensures |MoneyBlocks(row.values, fmts, |fmts|)| == MoneyColumns(fmts, |fmts|)
    ensures MoneyBlocks(row.values, fmts, |fmts|) <= row.Blocks()
  {
    CountBlocks(row.values, fmts, |fmts|);
    MoneyBlocksWithin(row.values, fmts, |fmts|);
  }

  // Bind a new row behind the saved ones, converting the last of them.
  method BindBehind(cmd: Command, result: Result, row: Row, conv: Conversions, ghost kept0: seq<Row>,
                    ghost owned0: set<object>, ghost released0: set<object>)
    returns (next: Row?, ghost owned: set<object>, ghost released: set<object>)
    requires ValidConversions(conv) && cmd.Valid() && result.Last(row)
    requires |kept0| < |cmd.rows| && Collected(kept0, cmd.fmts, cmd.rows, conv, owned0)
    requires Halfway(row, 0, cmd.fmts, cmd.rows[|kept0|], conv)
    requires Outside(row, owned0) && Outside(row, released0) && released0 !! owned0
    modifies cmd`binds, cmd`bound, row, row.Blocks()
    ensures cmd.Valid() && Counted(cmd, next != null, old(cmd.binds), |cmd.fmts|)
    ensures next != null ==>
              && owned == owned0 + {row} + row.Blocks() && Collected(kept0 + [row], cmd.fmts, cmd.rows, conv, owned)
              && fresh(next) && fresh(next.Blocks()) && Ready(cmd, next) && Outside(next, owned)
              && Outside(next, released0) && released0 !! owned
              && Outside(next, released) && released !! owned && released !! released0
              && |released| == MoneyColumns(cmd.fmts, |cmd.fmts|)
  {
    hide Halfway, Ready, MoneyBlocks, MoneyColumns, ValidRow;
    CountFetched(row, cmd.fmts, cmd.rows[|kept0|], conv);
    next, released := BuffersBinding(cmd, result, conv, row, cmd.rows[|kept0|], owned0);
    owned := owned0 + {row} + row.Blocks();
    if next != null {
      CollectOne(kept0, row, cmd.fmts, cmd.rows, conv, owned0);
    }
  }

  /** The row result of `dbd_query`. `owned` is what the saved rows own at the end. `converted`
      collects the blocks freed by conversions, one for each money value. `last` is the row that is
      bound when the data ends, and `spare`, what is freed then, is that row and its blocks. */
  method DbdQuery(cmd: Command, conv: Conversions)
    returns (result: Result?, ghost kept: seq<Row>, ghost owned: set<object>, ghost converted: set<object>,
             ghost last: Row?, ghost spare: set<object>)
    requires ValidConversions(conv) && cmd.Valid() && cmd.pos == 0
    modifies cmd
    ensures result != null <==>
              cmd.ending == EndData && !(0 <= cmd.bindFault - old(cmd.binds) < BindCalls(|cmd.fmts|, |cmd.rows| + 1))
    ensures result != null ==>
              && cmd.ending == EndData && result.numrows == |kept| == |cmd.rows| && result.Slots(kept)
              && (forall k | 0 <= k < |kept| :: k + 1 < result.rows.Length && result.rows[k + 1] == kept[k])
              && Collected(kept, cmd.fmts, cmd.rows, conv, owned)
              && last != null && Ready(cmd, last) && spare == {last} + last.Blocks()
              && |converted| == MoneyValues(cmd.fmts, |cmd.rows|)
              && owned !! converted && owned !! spare && converted !! spare
  {
    var query := new Result();
    kept, owned, converted, last, spare := [], {}, {}, null, {};
    var row;
    row, converted := BuffersBinding(cmd, query, conv, null, [], owned);
    if row == null {
      return null, kept, owned, converted, last, spare;
    }
    var bound;
    bound, kept, owned, converted := FetchLoop(cmd, query, row, conv);
    if bound == null {
      return null, kept, owned, converted, last, spare;
    }
    last := bound;
    spare := FreeRow(bound, cmd.fmts);
    result := query;
  }

  // The fetch loop: the row that is left bound at the end of the data, or null.
  method FetchLoop(cmd: Command, query: Result, row0: Row, conv: Conversions)
    returns (last: Row?, ghost kept: seq<Row>, ghost owned: set<object>, ghost converted: set<object>)
    requires ValidConversions(conv) && cmd.Valid() && cmd.pos == 0 && query.Slots([])
    requires Ready(cmd, row0)
    modifies cmd, query, row0, row0.Blocks()
    ensures last != null ==> Counted(cmd, true, old(cmd.binds), BindCalls(|cmd.fmts|, |cmd.rows|))
    ensures last == null && cmd.ending == EndData ==>
              Counted(cmd, false, old(cmd.binds), BindCalls(|cmd.fmts|, |cmd.rows|))
    ensures last != null ==>
              && cmd.ending == EndData && |kept| == |cmd.rows| && query.Slots(kept)
              && Collected(kept, cmd.fmts, cmd.rows, conv, owned) && Ready(cmd, last)
              && owned !! converted && Outside(last, owned) && Outside(last, converted)
              && |converted| == MoneyValues(cmd.fmts, |cmd.rows|)
  {
    hide Ready, Collected;
    var row: Row := row0;
    kept, owned, converted := [], {}, {};
    CollectNone(cmd.fmts, cmd.rows, conv);
    while true
      invariant cmd.Valid() && query.Slots(kept) && |kept| == cmd.pos && Ready(cmd, row)
      invariant (row == row0 && row.Blocks() == old(row0.Blocks())) || (fresh(row) && fresh(row.Blocks()))
      invariant Outside(row, owned) && Collected(kept, cmd.fmts, cmd.rows, conv, owned)
      invariant Counted(cmd, true, old(cmd.binds), BindCalls(|cmd.fmts|, |kept|))
      invariant converted !! owned && Outside(row, converted) && |converted| == MoneyValues(cmd.fmts, |kept|)
      decreases |cmd.rows| - cmd.pos
    {
      ghost var n := |kept|;
      var ret, next;
      ret, next, kept, owned, converted := FetchOne(cmd, query, row, conv, kept, owned, converted);
      if ret != Succeed {
        return if ret == EndData then row else null, kept, owned, converted;
      }
      if next == null {
        CallsGrow(|cmd.fmts|, n + 1, |cmd.rows|);
        return null, kept, owned, converted;
      }
      row := next;
    }
  }

  // A fetch into the bound row, beside the saved ones.
  method FetchBeside(cmd: Command, query: Result, row: Row, conv: Conversions, ghost kept: seq<Row>,
                     ghost owned: set<object>)
    returns (ret: Ret)
    requires ValidConversions(conv) && cmd.Valid() && query.Slots(kept) && |kept| == cmd.pos && Ready(cmd, row)
    requires Collected(kept, cmd.fmts, cmd.rows, conv, owned) && Outside(row, owned)
    modifies cmd`pos, row`values, row.Blocks()
    ensures cmd.Valid() && query.Slots(kept) && Collected(kept, cmd.fmts, cmd.rows, conv, owned)
    ensures Outside(row, owned) && row.Blocks() == old(row.Blocks())
    ensures ret == Succeed ==>
              old(cmd.pos) < |cmd.rows| && cmd.pos == old(cmd.pos) + 1
              && Halfway(row, 0, cmd.fmts, cmd.rows[old(cmd.pos)], conv)
    ensures ret != Succeed ==> ret == cmd.ending && |kept| == |cmd.rows| && Ready(cmd, row)
  {
    ret := cmd.Fetch(row);
  }

  // One pass of the fetch loop.
  method FetchOne(cmd: Command, query: Result, row: Row, conv: Conversions, ghost kept0: seq<Row>,
                  ghost owned0: set<object>, ghost released0: set<object>)
    returns (ret: Ret, next: Row?, ghost kept: seq<Row>, ghost owned: set<object>, ghost released: set<object>)
    requires ValidConversions(conv) && cmd.Valid() && query.Slots(kept0) && |kept0| == cmd.pos && Ready(cmd, row)
    requires Collected(kept0, cmd.fmts, cmd.rows, conv, owned0)
    requires Outside(row, owned0) && Outside(row, released0) && released0 !! owned0
    modifies cmd, query, row, row.Blocks()
    ensures cmd.Valid()
    ensures ret != Succeed ==>
              && kept == kept0 && owned == owned0 && released == released0
              && ret == cmd.ending && |kept| == |cmd.rows|
              && query.Slots(kept) && Collected(kept, cmd.fmts, cmd.rows, conv, owned)
              && Ready(cmd, row) && Outside(row, owned) && Outside(row, released)
    ensures ret == Succeed ==> |kept0| < |cmd.rows|
    ensures if ret == Succeed then Counted(cmd, next != null, old(cmd.binds), |cmd.fmts|)
            else cmd.binds == old(cmd.binds)
    ensures ret == Succeed && next != null ==>
              && |kept| == cmd.pos == old(cmd.pos) + 1 == |kept0| + 1
              && query.Slots(kept) && Collected(kept, cmd.fmts, cmd.rows, conv, owned)
              && fresh(next) && fresh(next.Blocks()) && Ready(cmd, next)
              && Outside(next, owned) && Outside(next, released) && released !! owned
              && |released| == |released0| + MoneyColumns(cmd.fmts, |cmd.fmts|)
  {
    hide Collected, Ready;
    kept, owned, released, next := kept0, owned0, released0, null;
    ret := FetchBeside(cmd, query, row, conv, kept, owned);
    if ret == Succeed {
      next, kept, owned, released := SaveAndBind(cmd, query, row, conv, kept, owned, released);
    }
  }
}

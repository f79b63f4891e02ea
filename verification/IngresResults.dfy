// Fetching in the Ingres driver: `ingres_results` drains a sequential server cursor into rows
// that own their data, and `ingres_field` moves or copies one column out of its fetch buffer.
module IngresResults {
  import opened Options
  import opened Memory

  // The data types, grouped as `ingres_field` and IS_BLOB group them. `date` marks IIAPI_DTE_TYPE,
  // `blanks` the types whose converted text loses its trailing blanks (DEC, MNY).
  datatype Kind =
    | Native                                 // INT, FLT
    | Fixed                                  // BYTE, CHR, CHA, LOGKEY, TABKEY
    | Variable                               // VCH, VBYTE, TXT
    | Converted(date: bool, blanks: bool)    // NCHA, NVCH, DEC, MNY, DTE
    | Blob                                   // LVCH, LBYTE, LNVCH, LTXT
    | Unsupported

  datatype Desc = Desc(kind: Kind, length: nat)

  // ----- What the server sends -----

  // A column value: its bytes, or the segments of a long value, of which there is at least one.
  datatype Cell = Cell(isNull: bool, segments: seq<seq<byte>>)

  // A `short` in host order (low byte first).
  function Prefix(n: nat): seq<byte>
    requires n < 65536
  {
    [n % 256, n / 256]
  }

  function FromPrefix(low: int, high: int): nat
    requires 0 <= low && 0 <= high
  {
    low + 256 * high
  }

  // What one getColumns call puts into the column's buffer.
  function Wire(desc: Desc, data: seq<byte>): seq<byte>
    requires |data| < 65536
  {
    if desc.kind == Variable || desc.kind == Blob then Prefix(|data|) + data else data
  }

  predicate ValidCell(desc: Desc, cell: Cell) {
    && |cell.segments| >= 1
    && (desc.kind != Blob ==> |cell.segments| == 1)
    && (desc.kind == Native ==> |cell.segments[0]| <= 8)
    && (forall s | 0 <= s < |cell.segments| ::
          |cell.segments[s]| < 65536 && |Wire(desc, cell.segments[s])| <= desc.length)
  }

  predicate ValidRow(descs: seq<Desc>, cells: seq<Cell>) {
    |cells| == |descs| && forall i | 0 <= i < |descs| :: ValidCell(descs[i], cells[i])
  }

  /** `databuf`: one IIAPI_DATAVALUE per column. */
  class Databuf {
    var nulls: seq<bool>
    var lengths: seq<nat>
    var values: seq<array<byte>>

    ghost predicate Valid(descs: seq<Desc>)
      reads this
    {
      && |nulls| == |lengths| == |values| == |descs|
      && (forall i | 0 <= i < |descs| :: values[i].Length == descs[i].length + 1)
      && (forall i, j | 0 <= i < j < |descs| :: values[i] != values[j])
    }

    // What the driver frees at the end.
    ghost function Everything(): set<object>
      reads this
    {
      {this} + set j | 0 <= j < |values| :: values[j]
    }

    // Column i holds this piece of the cell.
    ghost predicate Delivered(i: nat, desc: Desc, cell: Cell, s: nat)
      requires i < |nulls| && i < |lengths| && i < |values|
      requires s < |cell.segments| && |cell.segments[s]| < 65536
      reads this, values[i]
    {
      var wire := Wire(desc, cell.segments[s]);
      && nulls[i] == cell.isNull && lengths[i] == |wire| <= values[i].Length
      && values[i][..|wire|] == wire
    }

    method Put(descs: seq<Desc>, i: nat, cell: Cell, s: nat)
      requires Valid(descs) && i < |descs| && ValidCell(descs[i], cell) && s < |cell.segments|
      modifies this`nulls, this`lengths, values[i]
      ensures Valid(descs) && Delivered(i, descs[i], cell, s)
      ensures forall k | 0 <= k < |descs| && k != i :: nulls[k] == old(nulls[k]) && lengths[k] == old(lengths[k])
    {
      var wire := Wire(descs[i], cell.segments[s]);
      Fill(values[i], wire);
      nulls := nulls[i := cell.isNull];
      lengths := lengths[i := |wire|];
    }

    constructor (descs: seq<Desc>)
      ensures Valid(descs) && fresh(this) && forall i | 0 <= i < |values| :: fresh(values[i])
    {
      nulls := seq(|descs|, i => false);
      lengths := seq(|descs|, i requires 0 <= i < |descs| => descs[i].length);
      values := [];
      new;
      for i := 0 to |descs|
        invariant |values| == i && |nulls| == |lengths| == |descs|
        invariant forall k | 0 <= k < i :: values[k].Length == descs[k].length + 1 && fresh(values[k])
        invariant forall k, l | 0 <= k < l < i :: values[k] != values[l]
      {
        var block := new byte[descs[i].length + 1];
        values := values + [block];
      }
    }
  }

  datatype Status = Success | NoData | Failure

  // The column groups asked for so far, the last one outermost.
  datatype Log = Start | Asked(before: Log, start: nat, count: nat)

  /** The statement handle: a sequential cursor over the rows of a result, column by column,
      which may fail at one call. `log` records the column groups that were fetched. */
  class Cursor {
    const descs: seq<Desc>
    const rows: seq<seq<Cell>>
    const faultAt: int
    var row: nat
    var col: nat
    var seg: nat
    var calls: nat
    ghost var log: Log

    ghost predicate Valid()
      reads this
    {
      && descs != []
      && (forall k | 0 <= k < |rows| :: ValidRow(descs, rows[k]))
      && row <= |rows| && col < |descs|
      && (row == |rows| ==> col == 0 && seg == 0)
      && (row < |rows| ==> seg < |rows[row][col].segments|)
    }

    constructor (descs: seq<Desc>, rows: seq<seq<Cell>>, faultAt: int)
      requires descs != [] && forall k | 0 <= k < |rows| :: ValidRow(descs, rows[k])
      ensures Valid() && fresh(this) && this.descs == descs && this.rows == rows && this.faultAt == faultAt
      ensures row == 0 && col == 0 && seg == 0 && calls == 0 && log == Start
    {
      this.descs, this.rows, this.faultAt := descs, rows, faultAt;
      row, col, seg, calls, log := 0, 0, 0, 0, Start;
      new;
      if |rows| > 0 {
        assert ValidRow(descs, rows[0]) && ValidCell(descs[0], rows[0][0]);
      }
    }

    method Send(buf: Databuf, start: nat, count: nat, cells: seq<Cell>, s: nat)
      requires buf.Valid(descs) && ValidRow(descs, cells) && 0 < count && start + count <= |descs|
      requires s < |cells[start].segments|
      requires forall i | start <= i < start + count :: descs[i].kind == Blob ==> count == 1
      modifies buf`nulls, buf`lengths, buf.values
      ensures buf.Valid(descs)
      ensures forall i | start <= i < start + count ::
                buf.Delivered(i, descs[i], cells[i], if descs[i].kind == Blob then s else 0)
    {
      for i := start to start + count
        invariant buf.Valid(descs)
        invariant forall k | start <= k < i ::
          buf.Delivered(k, descs[k], cells[k], if descs[k].kind == Blob then s else 0)
      {
        assert ValidCell(descs[i], cells[i]);
        buf.Put(descs, i, cells[i], if descs[i].kind == Blob then s else 0);
      }
    }

    // IIapi_getColumns with gc_rowCount 1: a run of ordinary columns, or one piece of a BLOB.
    method GetColumns(buf: Databuf, start: nat, count: nat) returns (status: Status, more: bool)
      requires Valid() && buf.Valid(descs)
      requires start == col && 0 < count && start + count <= |descs|
      requires forall i | start <= i < start + count :: descs[i].kind == Blob ==> count == 1
      modifies this, buf`nulls, buf`lengths, buf.values
      ensures Valid() && buf.Valid(descs)
      ensures status == Failure <==> old(calls) == faultAt
      ensures status == Failure ==> calls == old(calls) && row == old(row)
      ensures status == NoData ==> row == old(row) == |rows|
      ensures status == Success ==> old(row) < |rows| && calls == old(calls) + 1
      ensures status == Success ==> forall i | start <= i < start + count ::
                buf.Delivered(i, descs[i], rows[old(row)][i], if descs[i].kind == Blob then old(seg) else 0)
      ensures status == Success ==>
                (more <==> descs[start].kind == Blob && old(seg) + 1 < |rows[old(row)][start].segments|)
      ensures status == Success && more ==> row == old(row) && col == start && seg == old(seg) + 1
      ensures status == Success && !more ==> seg == 0
      ensures status == Success && !more && start + count < |descs| ==> row == old(row) && col == start + count
      ensures status == Success && !more && start + count == |descs| ==> row == old(row) + 1 && col == 0
      ensures log == if status == Success && old(seg) == 0 then Asked(old(log), start, count) else old(log)
    {
      if calls == faultAt {
        return Failure, false;
      }
      if row == |rows| {
        return NoData, false;
      }
      calls := calls + 1;
      if seg == 0 {
        log := Asked(log, start, count);
      }
      var cells := rows[row];
      assert ValidRow(descs, cells);
      Send(buf, start, count, cells, seg);
      status := Success;
      more := Step(start, count);
    }

    // Move the cursor behind what was sent.
    method Step(start: nat, count: nat) returns (more: bool)
      requires Valid() && row < |rows| && start == col && 0 < count && start + count <= |descs|
      modifies this`row, this`col, this`seg
      ensures Valid()
      ensures more <==> descs[start].kind == Blob && old(seg) + 1 < |rows[old(row)][start].segments|
      ensures more ==> row == old(row) && col == start && seg == old(seg) + 1
      ensures !more ==> seg == 0
      ensures !more && start + count < |descs| ==> row == old(row) && col == start + count
      ensures !more && start + count == |descs| ==> row == old(row) + 1 && col == 0
    {
      more := descs[start].kind == Blob && seg + 1 < |rows[row][start].segments|;
      assert ValidRow(descs, rows[row]);
      if more {
        seg := seg + 1;
      } else if start + count < |descs| {
        assert ValidCell(descs[start + count], rows[row][start + count]);
        col, seg := start + count, 0;
      } else {
        row, col, seg := row + 1, 0, 0;
        if row < |rows| {
          assert ValidRow(descs, rows[row]) && ValidCell(descs[0], rows[row][0]);
        }
      }
    }
  }

  // ----- What a row holds -----

  // A dbi_data_t: bits copied in, the text handed to `ingres_date`, or a pointer to a block.
  datatype Datum = Unset | Scalar(bits: seq<byte>) | Date(text: seq<byte>) | Text(block: array<byte>)

  /** dbi_row_t */
  class Row {
    var values: seq<Datum>
    var sizes: seq<nat>
    var nulls: seq<bool>

    // _dbd_row_allocate
    constructor (n: nat)
      ensures values == seq(n, i => Unset) && sizes == seq(n, i => 0) && nulls == seq(n, i => false)
    {
      values, sizes, nulls := seq(n, i => Unset), seq(n, i => 0), seq(n, i => false);
    }

    ghost predicate Shape(n: nat)
      reads this
    {
      |values| == |sizes| == |nulls| == n
    }

    // The blocks that the first n columns point to.
    ghost function Blocks(n: nat): set<object>
      reads this
      requires n <= |values|
    {
      set i | 0 <= i < n && values[i].Text? :: values[i].block
    }
  }

  type Conversion = (Desc, seq<byte>) -> Option<seq<byte>>

  // Without its trailing blanks the text ends at len.
  predicate BlankFrom(s: seq<byte>, len: nat) {
    len <= |s| && (len > 0 ==> s[len - 1] != 32) && forall k | len <= k < |s| :: s[k] == 32
  }

  function Concat(segments: seq<seq<byte>>): seq<byte> {
    if segments == [] then [] else Concat(segments[..|segments| - 1]) + segments[|segments| - 1]
  }

  // The block holds the text, NUL-terminated.
  ghost predicate HoldsText(block: array<byte>, size: nat, text: seq<byte>)
    reads block
  {
    size == |text| < block.Length && block[..size] == text && block[size] == 0
  }

  // The stored column is the server's cell.
  ghost predicate CellStored(desc: Desc, cell: Cell, conv: Conversion, datum: Datum, size: nat, isNull: bool)
    requires ValidCell(desc, cell)
    reads if datum.Text? then {datum.block} else {}
  {
    isNull == cell.isNull &&
    if isNull then
      datum == Unset && size == 0
    else
      var bytes := cell.segments[0];
      match desc.kind
      case Native => datum.Scalar? && bytes <= datum.bits && size == 0
      case Fixed => datum.Text? && HoldsText(datum.block, size, bytes)
      case Variable => datum.Text? && HoldsText(datum.block, size, bytes)
      case Converted(date, blanks) =>
        (match conv(desc, bytes)
         case None => datum == Unset && size == 0
         case Some(text) =>
           if date then
             datum == Date(text) && size == 0
           else
             && datum.Text? && size <= |text| && HoldsText(datum.block, size, text[..size])
             && if blanks then BlankFrom(text, size) else size == |text|)
      case Blob => datum.Text? && datum.block[..] == Concat(cell.segments) && size == datum.block.Length
      case Unsupported => datum == Unset && size == 0
  }

  // The first n columns of a row are those of the server's row, each with a block of its own.
  ghost predicate RowStored(row: Row, n: nat, descs: seq<Desc>, cells: seq<Cell>, conv: Conversion)
    requires ValidRow(descs, cells) && n <= |descs|
    reads row, if n <= |row.values| then row.Blocks(n) else {}
  {
    && row.Shape(|descs|)
    && (forall i | 0 <= i < n ::
          CellStored(descs[i], cells[i], conv, row.values[i], row.sizes[i], row.nulls[i]))
    && (forall i, j | 0 <= i < j < n && row.values[i].Text? && row.values[j].Text? ::
          row.values[i].block != row.values[j].block)
  }

  // ----- One column -----

  /** `ingres_field`: store column i from its fetch buffer. A fixed-size block is handed over to
      the row and replaced by a new one, everything else is copied. */
  method IngresField(row: Row, i: nat, descs: seq<Desc>, buf: Databuf, conv: Conversion, ghost cell: Cell)
    requires row.Shape(|descs|) && buf.Valid(descs) && i < |descs|
    requires ValidCell(descs[i], cell) && !cell.isNull && descs[i].kind != Blob && buf.Delivered(i, descs[i], cell, 0)
    requires row.values[i] == Unset && row.sizes[i] == 0 && !row.nulls[i]
    modifies row, buf`values, buf.values[i]
    ensures row.Shape(|descs|) && buf.Valid(descs)
    ensures row.values == old(row.values)[i := row.values[i]] && row.sizes == old(row.sizes)[i := row.sizes[i]]
    ensures row.nulls == old(row.nulls)
    ensures buf.values == old(buf.values)[i := buf.values[i]]
    ensures buf.values[i] == old(buf.values[i]) || fresh(buf.values[i])
    ensures row.values[i].Text? ==> row.values[i].block != buf.values[i]
                                    && (fresh(row.values[i].block) || row.values[i].block == old(buf.values[i]))
    ensures CellStored(descs[i], cell, conv, row.values[i], row.sizes[i], row.nulls[i])
  {
    ghost var bytes := cell.segments[0];
    var value, length := buf.values[i], buf.lengths[i];
    match descs[i].kind {
      case Converted(date, blanks) =>
        var datum, len := ConvertedDatum(conv(descs[i], value[..length]), date, blanks);
        row.sizes := row.sizes[i := len];
        row.values := row.values[i := datum];
      case Variable =>
        var len := FromPrefix(value[0], value[1]);
        ReadPrefix(bytes, value[..]);
        var copy := NewText(value[2..2 + len], len);
        row.sizes := row.sizes[i := len];
        row.values := row.values[i := Text(copy)];
      case Fixed =>
        row.sizes := row.sizes[i := length];
        row.values := row.values[i := Text(value)];
        var block := new byte[descs[i].length + 1];
        buf.values := buf.values[i := block];
        value[length] := 0;
      case Native =>
        row.values := row.values[i := Scalar(value[..if value.Length < 8 then value.Length else 8])];
      case Unsupported =>
    }
  }

  // The branch for types that are converted to text first; nothing is stored if that fails.
  method ConvertedDatum(text: Option<seq<byte>>, date: bool, blanks: bool) returns (datum: Datum, size: nat)
    ensures datum.Text? ==> fresh(datum.block)
    ensures match text
      case None => datum == Unset && size == 0
      case Some(t) =>
        if date then datum == Date(t) && size == 0
        else
          && datum.Text? && size <= |t| && HoldsText(datum.block, size, t[..size])
          && if blanks then BlankFrom(t, size) else size == |t|
  {
    datum, size := Unset, 0;
    if text.Some? {
      if date {
        datum := Date(text.value);
      } else {
        size := |text.value|;
        if blanks {
          size := StrippedLength(text.value);
        }
        var val := NewText(text.value, size);
        datum := Text(val);
      }
    }
  }

  // A new block with a copy of the text, terminated at len.
  method NewText(text: seq<byte>, len: nat) returns (block: array<byte>)
    requires len <= |text|
    ensures fresh(block) && HoldsText(block, len, text[..len])
  {
    block := new byte[|text| + 1];
    Fill(block, text);
    block[len] := 0;
    assert block[..len] == text[..len];
  }

  // The loop that drops trailing blanks.
  method StrippedLength(s: seq<byte>) returns (len: nat)
    ensures BlankFrom(s, len)
    ensures (len == 0 || s[len - 1] != 32) && forall k | len <= k < |s| :: s[k] == 32
  {
    len := |s|;
    while len > 0 && s[len - 1] == 32
      invariant len <= |s| && forall k | len <= k < |s| :: s[k] == 32
    {
      len := len - 1;
    }
  }

  // Reading the two bytes in front of a piece of data gives its length back.
  lemma ReadPrefix(data: seq<byte>, block: seq<byte>)
    requires |data| < 65536 && |data| + 2 <= |block| && block[..|data| + 2] == Prefix(|data|) + data
    ensures FromPrefix(block[0], block[1]) == |data| && block[2..2 + |data|] == data
  {
    assert block[0] == block[..|data| + 2][0] && block[1] == block[..|data| + 2][1];
    assert block[2..2 + |data|] == block[..|data| + 2][2..];
  }

  // ----- One BLOB -----

  // The size of a block of the given length after k doublings.
  function Capacity(length: nat, k: nat): nat {
    if k == 0 then length else 2 * Capacity(length, k - 1)
  }

  lemma {:induction false} CapacityHolds(length: nat, k: nat)
    ensures length <= Capacity(length, k)
  {
    if k > 0 {
      CapacityHolds(length, k - 1);
    }
  }

  function Power2(k: nat): nat {
    if k == 0 then 1 else 2 * Power2(k - 1)
  }

  /** A block gathered by k doublings has the size length * 2^k, and the bytes it received
      exceed length * 2^(k-1): the number of resizes is logarithmic. */
  lemma {:induction false} GatheredSize(length: nat, segments: seq<seq<byte>>, blob: array<byte>, bloblen: nat, k: nat)
    requires Gathered(length, segments, blob, bloblen, k)
    ensures blob.Length == length * Power2(k) && bloblen == |Concat(segments)|
    ensures k > 0 ==> length * Power2(k - 1) < bloblen
  {
    CapacityIsProduct(length, k);
    if k > 0 {
      CapacityIsProduct(length, k - 1);
    }
    assert |blob[..bloblen]| == bloblen;
  }

  lemma {:induction false} CapacityIsProduct(length: nat, k: nat)
    ensures Capacity(length, k) == length * Power2(k)
  {
    if k > 0 {
      CapacityIsProduct(length, k - 1);
      Twice(length, Power2(k - 1));
    }
  }

  lemma Twice(a: nat, b: nat)
    ensures a * (2 * b) == 2 * (a * b)
  {
  }

  // The block holds the given segments. It was doubled only while it was too small: with k > 0
  // doublings, k - 1 would not have made room.
  ghost predicate Gathered(length: nat, segments: seq<seq<byte>>, blob: array<byte>, bloblen: nat, k: nat)
    reads blob
  {
    && bloblen <= blob.Length == Capacity(length, k) && blob[..bloblen] == Concat(segments)
    && (k > 0 ==> Capacity(length, k - 1) < bloblen)
  }

  /** Append one segment, doubling the block if it is too small: one doubling is enough when
      no segment exceeds the described length. */
  method AddSegment(blob0: array<byte>, bloblen0: nat, value: array<byte>, ghost length: nat,
                    ghost segments: seq<seq<byte>>, ghost segment: seq<byte>, ghost k0: nat)
    returns (blob: array<byte>, bloblen: nat, ghost k: nat)
    requires Gathered(length, segments, blob0, bloblen0, k0) && blob0 != value
    requires |segment| < 65536 && |segment| <= length && |segment| + 2 <= value.Length
    requires value[..|segment| + 2] == Prefix(|segment|) + segment
    modifies blob0
    ensures blob == blob0 || fresh(blob)
    ensures Gathered(length, segments + [segment], blob, bloblen, k)
  {
    ReadPrefix(segment, value[..]);
    var len := FromPrefix(value[0], value[1]);
    blob, k := MakeRoom(blob0, bloblen0, len, length, k0);
    Append(blob, bloblen0, value[2..2 + len]);
    bloblen := bloblen0 + len;
    ConcatOne(segments, segment);
  }

  // The doubling.
  method MakeRoom(blob0: array<byte>, bloblen: nat, len: nat, ghost length: nat, ghost k0: nat)
    returns (blob: array<byte>, ghost k: nat)
    requires bloblen <= blob0.Length == Capacity(length, k0) && (k0 > 0 ==> Capacity(length, k0 - 1) < bloblen)
    requires len <= length
    ensures blob == blob0 || fresh(blob)
    ensures blob.Length == Capacity(length, k) && bloblen + len <= blob.Length
    ensures blob[..bloblen] == blob0[..bloblen] && (k > 0 ==> Capacity(length, k - 1) < bloblen + len)
  {
    CapacityHolds(length, k0);
    blob, k := blob0, k0;
    if bloblen + len > blob.Length {
      blob := Grow(blob, blob.Length * 2);
      k := k + 1;
      assert blob[..bloblen] == blob[..blob0.Length][..bloblen];
    }
  }

  lemma ConcatOne(segments: seq<seq<byte>>, segment: seq<byte>)
    ensures Concat(segments + [segment]) == Concat(segments) + segment
  {
    assert (segments + [segment])[..|segments|] == segments;
  }

  /** Fetch the segments of BLOB column i into one growing block. */
  method FetchBlob(cur: Cursor, buf: Databuf, i: nat)
    returns (status: Status, blob: array<byte>, bloblen: nat, ghost doublings: nat)
    requires cur.Valid() && buf.Valid(cur.descs)
    requires i == cur.col && cur.descs[i].kind == Blob && cur.seg == 0
    modifies cur, buf`nulls, buf`lengths, buf.values
    ensures cur.Valid() && buf.Valid(cur.descs)
    ensures fresh(blob)
    ensures status == Failure ==> cur.calls == cur.faultAt && cur.row == old(cur.row)
    ensures status == NoData ==> cur.row == old(cur.row) == |cur.rows| && cur.log == old(cur.log)
    ensures status == Success ==> old(cur.row) < |cur.rows| && Moved(cur, old(cur.row), i + 1)
    ensures status == Success ==> cur.log == Asked(old(cur.log), i, 1)
    ensures status == Success ==>
              var cell := cur.rows[old(cur.row)][i];
              buf.nulls[i] == cell.isNull && Gathered(cur.descs[i].length, cell.segments, blob, bloblen, doublings)
  {
    var block := new byte[cur.descs[i].length];
    status, blob, bloblen, doublings := GatherSegments(cur, buf, i, block);
  }

  // The loop over the segments.
  method GatherSegments(cur: Cursor, buf: Databuf, i: nat, block: array<byte>)
    returns (status: Status, blob: array<byte>, bloblen: nat, ghost doublings: nat)
    requires cur.Valid() && buf.Valid(cur.descs)
    requires i == cur.col && cur.descs[i].kind == Blob && cur.seg == 0
    requires block.Length == cur.descs[i].length && forall k | 0 <= k < |buf.values| :: buf.values[k] != block
    modifies cur, buf`nulls, buf`lengths, buf.values, block
    ensures cur.Valid() && buf.Valid(cur.descs)
    ensures blob == block || fresh(blob)
    ensures status == Failure ==> cur.calls == cur.faultAt && cur.row == old(cur.row)
    ensures status == NoData ==> cur.row == old(cur.row) == |cur.rows| && cur.log == old(cur.log)
    ensures status == Success ==> old(cur.row) < |cur.rows| && Moved(cur, old(cur.row), i + 1)
    ensures status == Success ==> cur.log == Asked(old(cur.log), i, 1)
    ensures status == Success ==>
              var cell := cur.rows[old(cur.row)][i];
              buf.nulls[i] == cell.isNull && Gathered(cur.descs[i].length, cell.segments, blob, bloblen, doublings)
  {
    hide Gathered;
    ghost var r := cur.row;
    ghost var segments := if r < |cur.rows| then cur.rows[r][i].segments else [];
    ghost var got: seq<seq<byte>> := [];
    blob, bloblen, doublings := block, 0, 0;
    NothingGathered(cur.descs[i].length, block);
    while true
      invariant cur.Valid() && buf.Valid(cur.descs) && (blob == block || fresh(blob))
      invariant cur.col == i && cur.row == r && cur.seg == |got| && got <= segments
      invariant cur.log == if got == [] then old(cur.log) else Asked(old(cur.log), i, 1)
      invariant Gathered(cur.descs[i].length, got, blob, bloblen, doublings)
      decreases |segments| - |got|
    {
      var more;
      status, more, blob, bloblen, doublings := FetchSegment(cur, buf, i, blob, bloblen, got, doublings);
      if status != Success {
        return;
      }
      OneMoreSegment(got, segments);
      got := got + [segments[|got|]];
      if !more {
        break;
      }
    }
    AllSegments(got, segments);
  }

  lemma NothingGathered(length: nat, block: array<byte>)
    requires block.Length == length
    ensures Gathered(length, [], block, 0, 0)
  {
  }

  lemma OneMoreSegment(got: seq<seq<byte>>, segments: seq<seq<byte>>)
    requires got <= segments && |got| < |segments|
    ensures got + [segments[|got|]] <= segments
  {
  }

  lemma AllSegments(got: seq<seq<byte>>, segments: seq<seq<byte>>)
    requires got <= segments && |got| == |segments|
    ensures got == segments
  {
  }

  // One getColumns call of the BLOB loop.
  method FetchSegment(cur: Cursor, buf: Databuf, i: nat, blob0: array<byte>, bloblen0: nat,
                      ghost segments: seq<seq<byte>>, ghost k0: nat)
    returns (status: Status, more: bool, blob: array<byte>, bloblen: nat, ghost k: nat)
    requires cur.Valid() && buf.Valid(cur.descs) && i == cur.col && cur.descs[i].kind == Blob
    requires forall k | 0 <= k < |buf.values| :: buf.values[k] != blob0
    requires Gathered(cur.descs[i].length, segments, blob0, bloblen0, k0)
    modifies cur, buf`nulls, buf`lengths, buf.values, blob0
    ensures cur.Valid() && buf.Valid(cur.descs) && (blob == blob0 || fresh(blob))
    ensures cur.log == if status == Success && old(cur.seg) == 0 then Asked(old(cur.log), i, 1) else old(cur.log)
    ensures status == Failure ==> cur.calls == cur.faultAt && cur.row == old(cur.row)
    ensures status == NoData ==> cur.row == old(cur.row) == |cur.rows|
    ensures status == Success ==>
              && old(cur.row) < |cur.rows|
              && (var cell := cur.rows[old(cur.row)][i];
                  && old(cur.seg) < |cell.segments| && buf.nulls[i] == cell.isNull
                  && Gathered(cur.descs[i].length, segments + [cell.segments[old(cur.seg)]], blob, bloblen, k)
                  && (more <==> old(cur.seg) + 1 < |cell.segments|))
    ensures status == Success && more ==> cur.row == old(cur.row) && cur.col == i && cur.seg == old(cur.seg) + 1
    ensures status == Success && !more ==> Moved(cur, old(cur.row), i + 1)
  {
    ghost var r, s := cur.row, cur.seg;
    status, more := cur.GetColumns(buf, i, 1);
    blob, bloblen, k := blob0, bloblen0, k0;
    if status == Success {
      ghost var cell := cur.rows[r][i];
      assert ValidRow(cur.descs, cur.rows[r]) && ValidCell(cur.descs[i], cell);
      assert buf.Delivered(i, cur.descs[i], cell, s);
      blob, bloblen, k :=
        AddSegment(blob0, bloblen0, buf.values[i], cur.descs[i].length, segments, cell.segments[s], k0);
    }
  }

  // The cursor stands in front of column i, or in front of the next row.
  ghost predicate Moved(cur: Cursor, row: nat, i: nat)
    reads cur
  {
    && cur.seg == 0
    && if i < |cur.descs| then cur.row == row && cur.col == i else cur.row == row + 1 && cur.col == 0
  }

  // memcpy(blob + at, data)
  method Append(block: array<byte>, at: nat, data: seq<byte>)
    requires at + |data| <= block.Length
    modifies block
    ensures block[..at + |data|] == old(block[..at]) + data
  {
    for k := 0 to |data|
      invariant block[..at + k] == old(block[..at]) + data[..k]
    {
      block[at + k] := data[k];
      assert block[..at + k + 1] == block[..at + k] + [data[k]];
    }
  }

  // realloc to a larger size
  method Grow(block: array<byte>, size: nat) returns (larger: array<byte>)
    requires block.Length <= size
    ensures fresh(larger) && larger.Length == size && larger[..block.Length] == block[..]
  {
    larger := new byte[size];
    Fill(larger, block[..]);
  }

  // ----- One row -----

  // Columns from..to have not been touched since the row was allocated.
  ghost predicate Untouched(row: Row, from: nat, to: nat)
    reads row
  {
    row.Shape(to) && forall i | from <= i < to :: row.values[i] == Unset && row.sizes[i] == 0 && !row.nulls[i]
  }

  // No fetch buffer belongs to the first n columns of the row, and neither the buffers nor
  // these columns' blocks belong to what earlier rows own.
  ghost predicate Separate(row: Row, n: nat, buf: Databuf, owned: set<object>)
    reads row, buf
  {
    && n <= |row.values|
    && (forall j | 0 <= j < |buf.values| :: buf.values[j] !in owned)
    && (forall i | 0 <= i < n && row.values[i].Text? :: row.values[i].block !in owned)
    && (forall i, j | 0 <= i < n && row.values[i].Text? && 0 <= j < |buf.values| ::
          row.values[i].block != buf.values[j])
  }

  // Neither the cursor nor the fetch buffers are among the objects.
  ghost predicate Outside(cur: Cursor, buf: Databuf, owned: set<object>)
    reads buf
  {
    cur !in owned && buf !in owned && forall j | 0 <= j < |buf.values| :: buf.values[j] !in owned
  }

  lemma BuffersApart(cur: Cursor, buf: Databuf, owned: set<object>)
    requires Outside(cur, buf, owned)
    ensures owned !! buf.Everything()
  {
  }

  lemma SeparateBlocks(row: Row, n: nat, buf: Databuf, owned: set<object>)
    requires Separate(row, n, buf, owned)
    ensures row.Blocks(n) !! owned
    ensures forall j | 0 <= j < |buf.values| :: buf.values[j] !in owned + row.Blocks(n)
  {
  }

  /** The processing loop over a run of ordinary columns. */
  method StoreColumns(row: Row, from: nat, to: nat, descs: seq<Desc>, buf: Databuf, conv: Conversion,
                      ghost cells: seq<Cell>, ghost owned: set<object>)
    requires ValidRow(descs, cells) && buf.Valid(descs) && from <= to <= |descs|
    requires RowStored(row, from, descs, cells, conv) && Untouched(row, from, |descs|)
    requires Separate(row, from, buf, owned)
    requires forall i | from <= i < to :: descs[i].kind != Blob && buf.Delivered(i, descs[i], cells[i], 0)
    modifies row, buf`values, buf.values
    ensures buf.Valid(descs)
    ensures RowStored(row, to, descs, cells, conv) && Untouched(row, to, |descs|)
    ensures Separate(row, to, buf, owned)
    ensures forall j | 0 <= j < |buf.values| :: buf.values[j] == old(buf.values[j]) || fresh(buf.values[j])
  {
    for i := from to to
      invariant buf.Valid(descs)
      invariant forall j | 0 <= j < |buf.values| :: buf.values[j] == old(buf.values[j]) || fresh(buf.values[j])
      invariant RowStored(row, i, descs, cells, conv) && Untouched(row, i, |descs|)
      invariant Separate(row, i, buf, owned)
      invariant forall k | i <= k < to :: buf.Delivered(k, descs[k], cells[k], 0)
      invariant forall k | i <= k < |descs| :: buf.values[k] == old(buf.values[k])
    {
      StoreColumn(row, i, descs, buf, conv, cells, owned);
    }
  }

  method StoreColumn(row: Row, i: nat, descs: seq<Desc>, buf: Databuf, conv: Conversion, ghost cells: seq<Cell>,
                     ghost owned: set<object>)
    requires ValidRow(descs, cells) && buf.Valid(descs) && i < |descs|
    requires RowStored(row, i, descs, cells, conv) && Untouched(row, i, |descs|) && Separate(row, i, buf, owned)
    requires descs[i].kind != Blob && buf.Delivered(i, descs[i], cells[i], 0)
    modifies row, buf`values, buf.values[i]
    ensures buf.Valid(descs)
    ensures RowStored(row, i + 1, descs, cells, conv) && Untouched(row, i + 1, |descs|)
    ensures Separate(row, i + 1, buf, owned)
    ensures buf.values == old(buf.values)[i := buf.values[i]]
    ensures buf.values[i] == old(buf.values[i]) || fresh(buf.values[i])
  {
    if buf.nulls[i] {
      row.nulls := row.nulls[i := true];
    } else {
      assert ValidCell(descs[i], cells[i]);
      IngresField(row, i, descs, buf, conv, cells[i]);
    }
  }

  // The first BLOB column from i on.
  function FirstBlob(descs: seq<Desc>, i: nat): (j: nat)
    requires i <= |descs|
    ensures i <= j <= |descs|
    decreases |descs| - i
  {
    if i < |descs| && descs[i].kind != Blob then FirstBlob(descs, i + 1) else i
  }

  // Where the column group that starts at i ends.
  function GroupEnd(descs: seq<Desc>, i: nat): (j: nat)
    requires i < |descs|
    ensures i < j <= |descs|
  {
    if descs[i].kind == Blob then i + 1 else FirstBlob(descs, i)
  }

  // The log after the column groups from column i on.
  function GroupsFrom(descs: seq<Desc>, i: nat, log: Log): Log
    requires i <= |descs|
    decreases |descs| - i
  {
    if i == |descs| then
      log
    else
      GroupsFrom(descs, GroupEnd(descs, i), Asked(log, i, GroupEnd(descs, i) - i))
  }

  // Back to `base`, the log lists groups that cover the first i columns in order, without gap
  // or overlap, each a single BLOB or a run of other columns that a BLOB or the end follows.
  ghost predicate Partition(descs: seq<Desc>, log: Log, base: Log, i: nat)
    requires i <= |descs|
    decreases log
  {
    if i == 0 then
      log == base
    else
      && log.Asked? && log.count > 0 && log.start + log.count == i
      && (forall k | log.start <= k < i :: descs[k].kind == Blob ==> log.count == 1)
      && (i < |descs| && descs[i].kind != Blob ==> descs[log.start].kind == Blob)
      && Partition(descs, log.before, base, log.start)
  }

  lemma {:induction false} FirstBlobIsFirst(descs: seq<Desc>, i: nat)
    requires i <= |descs|
    ensures forall k | i <= k < FirstBlob(descs, i) :: descs[k].kind != Blob
    ensures FirstBlob(descs, i) < |descs| ==> descs[FirstBlob(descs, i)].kind == Blob
    decreases |descs| - i
  {
    if i < |descs| && descs[i].kind != Blob {
      FirstBlobIsFirst(descs, i + 1);
    }
  }

  /** The column groups that are fetched for a row partition its columns. */
  lemma {:induction false} GroupsPartition(descs: seq<Desc>, i: nat, log: Log, base: Log)
    requires i <= |descs| && Partition(descs, log, base, i)
    ensures Partition(descs, GroupsFrom(descs, i, log), base, |descs|)
    decreases |descs| - i
  {
    if i < |descs| {
      var end := GroupEnd(descs, i);
      FirstBlobIsFirst(descs, i);
      GroupsPartition(descs, end, Asked(log, i, end - i), base);
    }
  }

  // The log after n rows, column group by column group.
  function LogOf(descs: seq<Desc>, n: nat, log: Log): Log {
    if n == 0 then log else GroupsFrom(descs, 0, LogOf(descs, n - 1, log))
  }

  // The first i columns are stored and the others are still empty.
  ghost predicate Filled(row: Row, i: nat, descs: seq<Desc>, cells: seq<Cell>, conv: Conversion)
    requires ValidRow(descs, cells)
    reads row, if i <= |row.values| then row.Blocks(i) else {}
  {
    i <= |descs| && RowStored(row, i, descs, cells, conv) && Untouched(row, i, |descs|)
  }

  /** Fetch a BLOB column and store it, shrunk to its length. */
  method FetchBlobColumn(cur: Cursor, buf: Databuf, row: Row, i: nat, conv: Conversion, ghost owned: set<object>)
    returns (status: Status)
    requires cur.Valid() && buf.Valid(cur.descs)
    requires i == cur.col && cur.descs[i].kind == Blob && cur.seg == 0
    requires Untouched(row, i, |cur.descs|) && Separate(row, i, buf, owned)
    requires cur.row < |cur.rows| ==> Filled(row, i, cur.descs, cur.rows[cur.row], conv)
    modifies cur, buf`nulls, buf`lengths, buf.values, row
    ensures cur.Valid() && buf.Valid(cur.descs) && buf.values == old(buf.values)
    ensures status == Failure ==> cur.calls == cur.faultAt && cur.row == old(cur.row)
    ensures status == NoData ==> cur.row == old(cur.row) == |cur.rows| && cur.log == old(cur.log)
    ensures status == Success ==> old(cur.row) < |cur.rows| && Moved(cur, old(cur.row), i + 1)
    ensures status == Success ==> cur.log == Asked(old(cur.log), i, 1)
    ensures status == Success ==> Filled(row, i + 1, cur.descs, cur.rows[old(cur.row)], conv)
    ensures status == Success ==> Separate(row, i + 1, buf, owned)
  {
    var blob, bloblen;
    ghost var doublings;
    status, blob, bloblen, doublings := FetchBlob(cur, buf, i);
    if status == Success {
      assert Filled(row, i, cur.descs, cur.rows[old(cur.row)], conv) && Separate(row, i, buf, owned);
      StoreBlob(row, i, cur.descs, buf, blob, bloblen, conv, cur.rows[old(cur.row)], owned);
    }
  }

  method StoreBlob(row: Row, i: nat, descs: seq<Desc>, buf: Databuf, blob: array<byte>, bloblen: nat,
                   conv: Conversion, ghost cells: seq<Cell>, ghost owned: set<object>)
    requires ValidRow(descs, cells) && i < |descs| && descs[i].kind == Blob && buf.Valid(descs)
    requires Filled(row, i, descs, cells, conv) && Separate(row, i, buf, owned)
    requires buf.nulls[i] == cells[i].isNull
    requires bloblen <= blob.Length && blob[..bloblen] == Concat(cells[i].segments)
    modifies row
    ensures Filled(row, i + 1, descs, cells, conv) && Separate(row, i + 1, buf, owned)
  {
    if buf.nulls[i] {
      StoreNull(row, i, descs, buf, conv, cells, owned);
    } else {
      var block := new byte[bloblen];
      Fill(block, blob[..bloblen]);
      assert block[..] == block[..bloblen];
      StoreBlock(row, i, descs, buf, block, conv, cells, owned);
    }
  }

  // A NULL cell: only the flag is set.
  method StoreNull(row: Row, i: nat, descs: seq<Desc>, buf: Databuf, conv: Conversion, ghost cells: seq<Cell>,
                   ghost owned: set<object>)
    requires ValidRow(descs, cells) && i < |descs| && buf.Valid(descs) && cells[i].isNull
    requires Filled(row, i, descs, cells, conv) && Separate(row, i, buf, owned)
    modifies row`nulls
    ensures Filled(row, i + 1, descs, cells, conv) && Separate(row, i + 1, buf, owned)
  {
    assert ValidCell(descs[i], cells[i]);
    row.nulls := row.nulls[i := true];
  }

  // A block that belongs to nothing else is put into the row.
  method StoreBlock(row: Row, i: nat, descs: seq<Desc>, buf: Databuf, block: array<byte>, conv: Conversion,
                    ghost cells: seq<Cell>, ghost owned: set<object>)
    requires ValidRow(descs, cells) && i < |descs| && descs[i].kind == Blob && buf.Valid(descs) && !cells[i].isNull
    requires Filled(row, i, descs, cells, conv) && Separate(row, i, buf, owned)
    requires block[..] == Concat(cells[i].segments)
    requires block !in owned && block !in row.Blocks(i) && forall j | 0 <= j < |buf.values| :: buf.values[j] != block
    modifies row`values, row`sizes
    ensures Filled(row, i + 1, descs, cells, conv) && Separate(row, i + 1, buf, owned)
  {
    assert ValidCell(descs[i], cells[i]);
    row.values := row.values[i := Text(block)];
    row.sizes := row.sizes[i := block.Length];
  }

  // Fetch and store a run of ordinary columns.
  method FetchPlainColumns(cur: Cursor, buf: Databuf, row: Row, i: nat, to: nat, conv: Conversion,
                           ghost owned: set<object>)
    returns (status: Status)
    requires cur.Valid() && buf.Valid(cur.descs) && i == cur.col && cur.seg == 0
    requires i < to <= |cur.descs| && forall k | i <= k < to :: cur.descs[k].kind != Blob
    requires Untouched(row, i, |cur.descs|) && Separate(row, i, buf, owned)
    requires cur.row < |cur.rows| ==> Filled(row, i, cur.descs, cur.rows[cur.row], conv)
    modifies cur, buf, buf.values, row
    ensures cur.Valid() && buf.Valid(cur.descs)
    ensures status == Failure ==> cur.calls == cur.faultAt && cur.row == old(cur.row)
    ensures status == NoData ==> cur.row == old(cur.row) == |cur.rows| && cur.log == old(cur.log)
    ensures status == Success ==> old(cur.row) < |cur.rows| && Moved(cur, old(cur.row), to)
    ensures status == Success ==> cur.log == Asked(old(cur.log), i, to - i)
    ensures status == Success ==> Filled(row, to, cur.descs, cur.rows[old(cur.row)], conv)
    ensures status == Success ==> Separate(row, to, buf, owned)
    ensures forall j | 0 <= j < |buf.values| :: buf.values[j] == old(buf.values[j]) || fresh(buf.values[j])
  {
    var more;
    status, more := cur.GetColumns(buf, i, to - i);
    if status == Success {
      ghost var cells := cur.rows[old(cur.row)];
      assert ValidRow(cur.descs, cells);
      StoreColumns(row, i, to, cur.descs, buf, conv, cells, owned);
    }
  }

  // The body of the row loop: fetch and store one column group.
  method FetchGroup(cur: Cursor, buf: Databuf, row: Row, i: nat, conv: Conversion, ghost owned: set<object>)
    returns (status: Status, lastidx: nat)
    requires cur.Valid() && buf.Valid(cur.descs) && i == cur.col && cur.seg == 0
    requires Untouched(row, i, |cur.descs|) && Separate(row, i, buf, owned)
    requires cur.row < |cur.rows| ==> Filled(row, i, cur.descs, cur.rows[cur.row], conv)
    modifies cur, buf, buf.values, row
    ensures cur.Valid() && buf.Valid(cur.descs) && lastidx == GroupEnd(cur.descs, i)
    ensures status == Failure ==> cur.calls == cur.faultAt && cur.row == old(cur.row)
    ensures status == NoData ==> cur.row == old(cur.row) == |cur.rows| && cur.log == old(cur.log)
    ensures status == Success ==> old(cur.row) < |cur.rows| && Moved(cur, old(cur.row), lastidx)
    ensures status == Success ==> cur.log == Asked(old(cur.log), i, lastidx - i)
    ensures status == Success ==> Filled(row, lastidx, cur.descs, cur.rows[old(cur.row)], conv)
    ensures status == Success ==> Separate(row, lastidx, buf, owned)
    ensures forall j | 0 <= j < |buf.values| :: buf.values[j] == old(buf.values[j]) || fresh(buf.values[j])
  {
    lastidx := EndOfGroup(cur.descs, i);
    if cur.descs[i].kind == Blob {
      status := FetchBlobColumn(cur, buf, row, i, conv, owned);
    } else {
      status := FetchPlainColumns(cur, buf, row, i, lastidx, conv, owned);
    }
  }

  lemma NextGroup(descs: seq<Desc>, i: nat, log: Log)
    requires i < |descs|
    ensures var end := GroupEnd(descs, i); GroupsFrom(descs, i, log) == GroupsFrom(descs, end, Asked(log, i, end - i))
  {
  }

  // Where the columns to ask for next end: behind one BLOB, or in front of the next.
  method EndOfGroup(descs: seq<Desc>, i: nat) returns (lastidx: nat)
    requires i < |descs|
    ensures i < lastidx <= |descs| && lastidx == GroupEnd(descs, i)
    ensures descs[i].kind == Blob ==> lastidx == i + 1
    ensures descs[i].kind != Blob ==> forall k | i <= k < lastidx :: descs[k].kind != Blob
  {
    lastidx := NextBlob(descs, i);
    if descs[i].kind == Blob {
      lastidx := lastidx + 1;
    }
  }

  // The loop to the next BLOB column.
  method NextBlob(descs: seq<Desc>, i: nat) returns (k: nat)
    requires i <= |descs|
    ensures i <= k <= |descs| && k == FirstBlob(descs, i)
    ensures (forall j | i <= j < k :: descs[j].kind != Blob) && (k < |descs| ==> descs[k].kind == Blob)
  {
    k := i;
    while k < |descs| && descs[k].kind != Blob
      invariant i <= k <= |descs| && FirstBlob(descs, i) == FirstBlob(descs, k)
      invariant forall j | i <= j < k :: descs[j].kind != Blob
    {
      k := k + 1;
    }
  }

  // FetchGroup, with its entry in the log taken for the groups of the whole row.
  method FetchNext(cur: Cursor, buf: Databuf, row: Row, i: nat, conv: Conversion, ghost owned: set<object>)
    returns (status: Status, lastidx: nat)
    requires cur.Valid() && buf.Valid(cur.descs) && i == cur.col && cur.seg == 0
    requires Untouched(row, i, |cur.descs|) && Separate(row, i, buf, owned)
    requires cur.row < |cur.rows| ==> Filled(row, i, cur.descs, cur.rows[cur.row], conv)
    modifies cur, buf, buf.values, row
    ensures cur.Valid() && buf.Valid(cur.descs) && lastidx == GroupEnd(cur.descs, i)
    ensures status == Failure ==> cur.calls == cur.faultAt && cur.row == old(cur.row)
    ensures status == NoData ==> cur.row == old(cur.row) == |cur.rows| && cur.log == old(cur.log)
    ensures status == Success ==> old(cur.row) < |cur.rows| && Moved(cur, old(cur.row), lastidx)
    ensures status == Success ==> GroupsFrom(cur.descs, lastidx, cur.log) == GroupsFrom(cur.descs, i, old(cur.log))
    ensures status == Success ==> Filled(row, lastidx, cur.descs, cur.rows[old(cur.row)], conv)
    ensures status == Success ==> Separate(row, lastidx, buf, owned)
    ensures forall j | 0 <= j < |buf.values| :: buf.values[j] == old(buf.values[j]) || fresh(buf.values[j])
  {
    NextGroup(cur.descs, i, cur.log);
    status, lastidx := FetchGroup(cur, buf, row, i, conv, owned);
  }

  /** One pass of the row loop. */
  method FetchRow(cur: Cursor, buf: Databuf, conv: Conversion, ghost owned: set<object>, ghost log0: Log)
    returns (status: Status, row: Row)
    requires cur.Valid() && buf.Valid(cur.descs) && cur.col == 0 && cur.seg == 0
    requires forall j | 0 <= j < |buf.values| :: buf.values[j] !in owned
    requires cur.log == LogOf(cur.descs, cur.row, log0)
    modifies cur, buf, buf.values
    ensures cur.Valid() && buf.Valid(cur.descs) && fresh(row)
    ensures status == Failure ==> cur.calls == cur.faultAt && cur.row == old(cur.row)
    ensures status == NoData ==> cur.row == old(cur.row) == |cur.rows| && cur.log == old(cur.log)
    ensures status == Success ==> old(cur.row) < |cur.rows| && Moved(cur, old(cur.row) + 1, 0)
    ensures status != Failure ==> cur.log == LogOf(cur.descs, cur.row, log0)
    ensures status == Success ==> RowStored(row, |cur.descs|, cur.descs, cur.rows[old(cur.row)], conv)
    ensures status == Success ==> Separate(row, |cur.descs|, buf, owned)
    ensures forall j | 0 <= j < |buf.values| :: buf.values[j] == old(buf.values[j]) || fresh(buf.values[j])
  {
    row := new Row(|cur.descs|);
    status := FetchColumns(cur, buf, row, conv, owned);
  }

  // The loop over the column groups of a row.
  method FetchColumns(cur: Cursor, buf: Databuf, row: Row, conv: Conversion, ghost owned: set<object>)
    returns (status: Status)
    requires cur.Valid() && buf.Valid(cur.descs) && cur.col == 0 && cur.seg == 0
    requires Untouched(row, 0, |cur.descs|) && Separate(row, 0, buf, owned)
    modifies cur, buf, buf.values, row
    ensures cur.Valid() && buf.Valid(cur.descs)
    ensures status == Failure ==> cur.calls == cur.faultAt && cur.row == old(cur.row)
    ensures status == NoData ==> cur.row == old(cur.row) == |cur.rows| && cur.log == old(cur.log)
    ensures status == Success ==> old(cur.row) < |cur.rows| && Moved(cur, old(cur.row) + 1, 0)
    ensures status == Success ==> cur.log == GroupsFrom(cur.descs, 0, old(cur.log))
    ensures status == Success ==> RowStored(row, |cur.descs|, cur.descs, cur.rows[old(cur.row)], conv)
    ensures status == Success ==> Separate(row, |cur.descs|, buf, owned)
    ensures forall j | 0 <= j < |buf.values| :: buf.values[j] == old(buf.values[j]) || fresh(buf.values[j])
  {
    ghost var r, n, whole := cur.row, |cur.descs|, GroupsFrom(cur.descs, 0, cur.log);
    var fieldidx := 0;
    status := Success;
    while fieldidx < |cur.descs|
      invariant cur.Valid() && buf.Valid(cur.descs) && fieldidx <= n && Moved(cur, r, fieldidx)
      invariant status == Success && (fieldidx > 0 ==> r < |cur.rows|)
      invariant GroupsFrom(cur.descs, fieldidx, cur.log) == whole
      invariant fieldidx == 0 ==> cur.log == old(cur.log)
      invariant Untouched(row, fieldidx, n) && Separate(row, fieldidx, buf, owned)
      invariant forall j | 0 <= j < |buf.values| :: buf.values[j] == old(buf.values[j]) || fresh(buf.values[j])
      invariant r < |cur.rows| ==> Filled(row, fieldidx, cur.descs, cur.rows[r], conv)
    {
      var next;
      status, next := FetchNext(cur, buf, row, fieldidx, conv, owned);
      if status != Success {
        return;
      }
      fieldidx := next;
    }
  }

  // ----- The whole run -----

  // Every row is the server's, and no two rows are the same object or share a block.
  ghost predicate Collected(rows: seq<Row>, descs: seq<Desc>, sent: seq<seq<Cell>>, conv: Conversion,
                            owned: set<object>)
    requires |rows| <= |sent| && forall k | 0 <= k < |sent| :: ValidRow(descs, sent[k])
    reads owned, rows
  {
    && (forall k | 0 <= k < |rows| :: rows[k] in owned && rows[k].Shape(|descs|) && rows[k].Blocks(|descs|) <= owned)
    && (forall k | 0 <= k < |rows| :: RowStored(rows[k], |descs|, descs, sent[k], conv))
    && (forall k, l | 0 <= k < l < |rows| ::
          rows[k] != rows[l] && rows[k].Blocks(|descs|) !! rows[l].Blocks(|descs|))
  }

  lemma CollectOne(rows: seq<Row>, row: Row, descs: seq<Desc>, sent: seq<seq<Cell>>, conv: Conversion,
                   owned: set<object>)
    requires |rows| < |sent| && forall k | 0 <= k < |sent| :: ValidRow(descs, sent[k])
    requires Collected(rows, descs, sent, conv, owned)
    requires RowStored(row, |descs|, descs, sent[|rows|], conv) && row !in owned && row.Blocks(|descs|) !! owned
    ensures Collected(rows + [row], descs, sent, conv, owned + {row} + row.Blocks(|descs|))
  {
    assert row.Shape(|descs|);
    hide RowStored;
    var all := rows + [row];
    assert forall k | 0 <= k < |rows| :: all[k] == rows[k] && rows[k].Blocks(|descs|) <= owned;
  }

  /** `ingres_results`: fetch every row. `ok` is the driver's return value, set when the server
      reports the end of the data; otherwise the rows fetched before the failure are kept.
      `owned` is what the rows own. `freed` is what is freed at the end: the buffer array `buf` and
      the buffer that each column then has. */
  method IngresResults(cur: Cursor, conv: Conversion)
    returns (ok: bool, rows: seq<Row>, numrows: nat, ghost owned: set<object>, ghost buf: Databuf,
             ghost freed: set<object>)
    requires cur.Valid() && cur.row == 0 && cur.col == 0 && cur.seg == 0
    modifies cur
    ensures cur.Valid() && |rows| == numrows == cur.row <= |cur.rows|
    ensures Collected(rows, cur.descs, cur.rows, conv, owned) && owned !! freed
    ensures fresh(buf) && buf.Valid(cur.descs) && freed == buf.Everything()
    ensures ok ==> numrows == |cur.rows| && cur.log == LogOf(cur.descs, numrows, old(cur.log))
    ensures !ok ==> cur.calls == cur.faultAt
  {
    var databuf := new Databuf(cur.descs);
    ok, rows, numrows, owned := FetchAll(cur, databuf, conv);
    buf := databuf;
    freed := FreeBuffers(databuf, cur.descs);
    BuffersApart(cur, databuf, owned);
  }

  // The loop that frees the buffers, and their array behind it.
  method FreeBuffers(buf: Databuf, descs: seq<Desc>) returns (ghost freed: set<object>)
    requires buf.Valid(descs)
    ensures freed == buf.Everything()
  {
    freed := {};
    for i := 0 to |descs|
      invariant freed == set j | 0 <= j < i :: buf.values[j]
    {
      freed := freed + {buf.values[i]};
    }
    freed := freed + {buf};
  }

  // The loop over the rows.
  method FetchAll(cur: Cursor, buf: Databuf, conv: Conversion)
    returns (ok: bool, rows: seq<Row>, numrows: nat, ghost owned: set<object>)
    requires cur.Valid() && buf.Valid(cur.descs) && cur.row == 0 && cur.col == 0 && cur.seg == 0
    modifies cur, buf, buf.values
    ensures cur.Valid() && |rows| == numrows == cur.row <= |cur.rows|
    ensures Collected(rows, cur.descs, cur.rows, conv, owned) && Outside(cur, buf, owned) && buf.Valid(cur.descs)
    ensures ok ==> numrows == |cur.rows| && cur.log == LogOf(cur.descs, numrows, old(cur.log))
    ensures !ok ==> cur.calls == cur.faultAt
  {
    rows, numrows, owned := [], 0, {};
    while true
      invariant cur.Valid() && buf.Valid(cur.descs) && Moved(cur, numrows, 0)
      invariant |rows| == numrows == cur.row
      invariant cur.log == LogOf(cur.descs, cur.row, old(cur.log))
      invariant forall j | 0 <= j < |buf.values| :: buf.values[j] == old(buf.values[j]) || fresh(buf.values[j])
      invariant Outside(cur, buf, owned) && Collected(rows, cur.descs, cur.rows, conv, owned)
      decreases |cur.rows| - numrows
    {
      var status;
      status, rows, owned := CollectRow(cur, buf, conv, rows, owned, old(cur.log));
      if status != Success {
        return status == NoData, rows, numrows, owned;
      }
      numrows := numrows + 1;
    }
  }

  // Fetch one row and put it behind the rows.
  method CollectRow(cur: Cursor, buf: Databuf, conv: Conversion, rows0: seq<Row>, ghost owned0: set<object>,
                    ghost log0: Log)
    returns (status: Status, rows: seq<Row>, ghost owned: set<object>)
    requires cur.Valid() && buf.Valid(cur.descs) && Moved(cur, |rows0|, 0) && |rows0| == cur.row
    requires cur.log == LogOf(cur.descs, cur.row, log0)
    requires Outside(cur, buf, owned0) && Collected(rows0, cur.descs, cur.rows, conv, owned0)
    modifies cur, buf, buf.values
    ensures cur.Valid() && buf.Valid(cur.descs)
    ensures status == Failure ==> cur.calls == cur.faultAt && cur.row == old(cur.row)
    ensures status == NoData ==> |rows| == cur.row == |cur.rows|
    ensures status != Failure ==> cur.log == LogOf(cur.descs, cur.row, log0)
    ensures status != Success ==> rows == rows0 && owned == owned0
    ensures |rows| == cur.row
    ensures status == Success ==> |rows| == |rows0| + 1 && |rows0| < |cur.rows| && Moved(cur, |rows|, 0)
    ensures |rows| <= |cur.rows| && Collected(rows, cur.descs, cur.rows, conv, owned)
    ensures Outside(cur, buf, owned)
    ensures forall j | 0 <= j < |buf.values| :: buf.values[j] == old(buf.values[j]) || fresh(buf.values[j])
  {
    hide RowStored, Separate;
    rows, owned := rows0, owned0;
    var row;
    status, row := FetchRow(cur, buf, conv, owned, log0);
    if status == Success {
      SeparateBlocks(row, |cur.descs|, buf, owned);
      CollectOne(rows, row, cur.descs, cur.rows, conv, owned);
      rows := rows + [row];
      owned := owned + {row} + row.Blocks(|cur.descs|);
    }
  }
}

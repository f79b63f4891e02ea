// The output buffer of a Firebird select: `dbd_query` places a data slot and a NULL indicator
// for every column in one block, computing the offsets in variables of type `short`.
module FirebirdLayout {

  datatype SqlType = Text | Varying | Other

  // `sqllen` is a `short`; the server reports no negative lengths.
  datatype Column = Column(sqltype: SqlType, sqllen: nat)

  predicate ValidColumns(cols: seq<Column>) {
    forall i | 0 <= i < |cols| :: cols[i].sqllen < 32768
  }

  // Conversion of an `int` to `short`: reduction modulo 65536.
  function ToShort(n: int): (s: int)
    ensures -32768 <= s < 32768
    ensures 32768 <= n < 98304 ==> s == n - 65536
    decreases if n >= 32768 then n else if n < -32768 then -n else 0
  {
    if n >= 32768 then ToShort(n - 65536)
    else if n < -32768 then ToShort(n + 65536)
    else n
  }

  // FB_ALIGN: rounding up to an even number, whatever its second argument
  function FbAlign(n: int): int {
    n + n % 2
  }

  // Wrapping an intermediate result changes nothing of a later wrapped one.
  lemma {:induction false} WrapSum(a: int, b: int)
    ensures ToShort(ToShort(a) + b) == ToShort(a + b)
    decreases if a >= 32768 then a else if a < -32768 then -a else 0
  {
    if a >= 32768 {
      WrapSum(a - 65536, b);
      WrapTurn(a - 65536 + b);
    } else if a < -32768 {
      WrapSum(a + 65536, b);
      WrapTurn(a + b);
    }
  }

  lemma {:induction false} WrapTurn(n: int)
    ensures ToShort(n + 65536) == ToShort(n)
    decreases if n >= 32768 then n else if n < -32768 then -n else 0
  {
    if n < -32768 - 65536 {
      WrapTurn(n + 65536);
    } else if n >= 32768 {
      WrapTurn(n - 65536);
    }
  }

  lemma {:induction false} WrapKeepsParity(n: int)
    ensures ToShort(n) % 2 == n % 2
    decreases if n >= 32768 then n else if n < -32768 then -n else 0
  {
    if n >= 32768 {
      WrapKeepsParity(n - 65536);
    } else if n < -32768 {
      WrapKeepsParity(n + 65536);
    }
  }

  /** The layout loop: offsets of `sqldata` and `sqlind` from the start of the block. */
  method LayOut(cols: seq<Column>) returns (sqldata: seq<int>, sqlind: seq<int>)
    requires ValidColumns(cols)
    ensures |sqldata| == |sqlind| == |cols|
    ensures forall i | 0 <= i < |cols| :: Placed(cols, i, sqldata[i], sqlind[i])
  {
    sqldata, sqlind := [], [];
    var offset := 0;
    for i := 0 to |cols|
      invariant |sqldata| == |sqlind| == i && offset == ToShort(End(cols, i))
      invariant forall k | 0 <= k < i :: Placed(cols, k, sqldata[k], sqlind[k])
    {
      var data, ind;
      data, ind, offset := PlaceColumn(cols[i], offset, End(cols, i));
      AtEnd(cols, i, data, ind, offset);
      sqldata, sqlind := sqldata + [data], sqlind + [ind];
    }
  }

  // One pass of the loop: every assignment to `offset` and `length` wraps.
  method PlaceColumn(c: Column, offset0: int, ghost end: int) returns (data: int, ind: int, offset: int)
    requires c.sqllen < 32768 && offset0 == ToShort(end)
    ensures data == ToShort(FbAlign(end)) && ind == ToShort(FbAlign(FbAlign(end) + Size(c)))
    ensures offset == ToShort(FbAlign(FbAlign(end) + Size(c)) + 2)
  {
    var length := LengthOf(c);
    data, ind, offset := Advance(offset0, length, end, Size(c));
  }

  // The part of the loop that computes the column's length.
  method LengthOf(c: Column) returns (length: int)
    requires c.sqllen < 32768
    ensures length == ToShort(Size(c))
  {
    length := c.sqllen;
    if c.sqltype == Varying {
      length := ToShort(length + 2 + 1);
    }
  }

  // The part of the loop behind the column's length.
  method Advance(offset0: int, length: int, ghost end: int, ghost size: int) returns (data: int, ind: int, offset: int)
    requires offset0 == ToShort(end) && length == ToShort(size)
    ensures data == ToShort(FbAlign(end)) && ind == ToShort(FbAlign(FbAlign(end) + size))
    ensures offset == ToShort(FbAlign(FbAlign(end) + size) + 2)
  {
    WrappedColumn(end, size);
    offset := ToShort(FbAlign(offset0));
    data := offset;
    offset := ToShort(offset + length);
    offset := ToShort(FbAlign(offset));
    ind := offset;
    offset := ToShort(offset + 2);
  }

  // ----- The layout in unbounded arithmetic -----

  // The bytes a column's data slot must hold: a VARYING value carries a length and a NUL.
  function Size(c: Column): nat {
    if c.sqltype == Varying then c.sqllen + 3 else c.sqllen
  }

  function End(cols: seq<Column>, i: nat): nat
    requires i <= |cols|
  {
    if i == 0 then 0 else FbAlign(FbAlign(End(cols, i - 1)) + Size(cols[i - 1])) + 2
  }

  function DataAt(cols: seq<Column>, i: nat): nat
    requires i < |cols|
  {
    FbAlign(End(cols, i))
  }

  function IndAt(cols: seq<Column>, i: nat): nat
    requires i < |cols|
  {
    FbAlign(DataAt(cols, i) + Size(cols[i]))
  }

  // The loop's wrapped steps follow the unbounded ones.
  lemma WrappedColumn(end: int, size: int)
    ensures ToShort(FbAlign(ToShort(end))) == ToShort(FbAlign(end))
    ensures ToShort(FbAlign(ToShort(ToShort(FbAlign(end)) + ToShort(size)))) == ToShort(FbAlign(FbAlign(end) + size))
    ensures ToShort(ToShort(FbAlign(FbAlign(end) + size)) + 2) == ToShort(FbAlign(FbAlign(end) + size) + 2)
  {
    WrapAlign(end);
    WrapPlace(FbAlign(end), size);
    WrapSum(FbAlign(FbAlign(end) + size), 2);
  }

  lemma AtEnd(cols: seq<Column>, i: nat, data: int, ind: int, offset: int)
    requires i < |cols|
    requires var end := FbAlign(End(cols, i));
      var after := FbAlign(end + Size(cols[i]));
      data == ToShort(end) && ind == ToShort(after) && offset == ToShort(after + 2)
    ensures Placed(cols, i, data, ind) && offset == ToShort(End(cols, i + 1))
  {
  }

  lemma WrapPlace(data: int, size: int)
    ensures ToShort(FbAlign(ToShort(ToShort(data) + ToShort(size)))) == ToShort(FbAlign(data + size))
  {
    hide FbAlign;
    WrapSum(size, ToShort(data));
    WrapSum(data, size);
    WrapAlign(data + size);
  }

  lemma WrapAlign(n: int)
    ensures ToShort(FbAlign(ToShort(n))) == ToShort(FbAlign(n))
  {
    WrapKeepsParity(n);
    WrapSum(n, n % 2);
  }

  // Column i's slots are where unbounded arithmetic puts them, up to wrapping.
  predicate Placed(cols: seq<Column>, i: nat, data: int, ind: int)
    requires i < |cols|
  {
    data == ToShort(DataAt(cols, i)) && ind == ToShort(IndAt(cols, i))
  }

  lemma OneColumn(cols: seq<Column>, i: nat)
    requires i < |cols|
    ensures DataAt(cols, i) % 2 == 0 && IndAt(cols, i) % 2 == 0
    ensures DataAt(cols, i) == (if i == 0 then 0 else IndAt(cols, i - 1) + 2)
    ensures DataAt(cols, i) + Size(cols[i]) <= IndAt(cols, i) <= DataAt(cols, i) + Size(cols[i]) + 1
  {
    AlignIsEven(End(cols, i));
    AlignIsEven(DataAt(cols, i) + Size(cols[i]));
    if i > 0 {
      AlignIsEven(DataAt(cols, i - 1) + Size(cols[i - 1]));
    }
  }

  lemma AlignIsEven(n: int)
    ensures n <= FbAlign(n) <= n + 1 && FbAlign(n) % 2 == 0 && (n % 2 == 0 ==> FbAlign(n) == n)
  {
  }

  lemma {:induction false} Increasing(cols: seq<Column>, i: nat, j: nat)
    requires i < j < |cols|
    ensures IndAt(cols, i) + 2 <= DataAt(cols, j)
  {
    OneColumn(cols, j);
    OneColumn(cols, j - 1);
    if i < j - 1 {
      Increasing(cols, i, j - 1);
    }
  }

  // ----- What the server needs of a layout -----

  // [a, a+la) and [b, b+lb) share no byte.
  predicate Apart(a: int, la: nat, b: int, lb: nat) {
    la == 0 || lb == 0 || a + la <= b || b + lb <= a
  }

  // Every slot lies in the block of 32768 bytes per column.
  predicate InBlock(cols: seq<Column>, sqldata: seq<int>, sqlind: seq<int>)
    requires |sqldata| == |sqlind| == |cols|
  {
    forall i | 0 <= i < |cols| ::
      && 0 <= sqldata[i] && sqldata[i] + Size(cols[i]) <= 32768 * |cols|
      && 0 <= sqlind[i] && sqlind[i] + 2 <= 32768 * |cols|
  }

  // No two slots overlap.
  predicate Disjoint(cols: seq<Column>, sqldata: seq<int>, sqlind: seq<int>)
    requires |sqldata| == |sqlind| == |cols|
  {
    && (forall i, j | 0 <= i < |cols| && 0 <= j < |cols| :: Apart(sqldata[i], Size(cols[i]), sqlind[j], 2))
    && (forall i, j | 0 <= i < j < |cols| :: Apart(sqldata[i], Size(cols[i]), sqldata[j], Size(cols[j])))
    && (forall i, j | 0 <= i < j < |cols| :: Apart(sqlind[i], 2, sqlind[j], 2))
  }

  // The last indicator starts at an offset that a `short` can hold.
  predicate Fits(cols: seq<Column>) {
    cols == [] || IndAt(cols, |cols| - 1) <= 32767
  }

  /** The loop's offsets are usable if and only if the last indicator's offset is a `short`;
      then they are also even and in column order. */
  lemma LayoutIsSoundIffFits(cols: seq<Column>, sqldata: seq<int>, sqlind: seq<int>)
    requires ValidColumns(cols) && |sqldata| == |sqlind| == |cols|
    requires forall i | 0 <= i < |cols| :: Placed(cols, i, sqldata[i], sqlind[i])
    ensures InBlock(cols, sqldata, sqlind) && Disjoint(cols, sqldata, sqlind) <==> Fits(cols)
    ensures Fits(cols) ==> forall i | 0 <= i < |cols| ::
              && sqldata[i] % 2 == 0 && sqlind[i] % 2 == 0
              && sqldata[i] + (if cols[i].sqltype == Varying then cols[i].sqllen + 3 else cols[i].sqllen) <= sqlind[i]
    ensures Fits(cols) ==> forall i, j | 0 <= i < j < |cols| :: sqlind[i] + 2 <= sqldata[j]
  {
    if Fits(cols) {
      InOrder(cols, sqldata, sqlind);
      InOrderIsSound(cols, sqldata, sqlind);
    } else {
      BeyondIsUnsound(cols, sqldata, sqlind);
    }
  }

  /** While the offsets fit, the first data slot starts the block and every other follows an indicator
      at once. A VARYING slot takes its length word, its bytes and a NUL, any other its bytes, and
      the indicator is at the least even offset behind the slot. */
  lemma SlotsAreTight(cols: seq<Column>, sqldata: seq<int>, sqlind: seq<int>)
    requires |sqldata| == |sqlind| == |cols| && Fits(cols)
    requires forall i | 0 <= i < |cols| :: Placed(cols, i, sqldata[i], sqlind[i])
    ensures forall i | 0 <= i < |cols| :: sqldata[i] == if i == 0 then 0 else sqlind[i - 1] + 2
    ensures forall i | 0 <= i < |cols| && cols[i].sqltype == Varying ::
              LeastEven(sqlind[i], sqldata[i] + 2 + cols[i].sqllen + 1)
    ensures forall i | 0 <= i < |cols| && cols[i].sqltype != Varying ::
              LeastEven(sqlind[i], sqldata[i] + cols[i].sqllen)
  {
    hide DataAt, IndAt, Fits;
    forall i | 0 <= i < |cols|
      ensures sqldata[i] == DataAt(cols, i) && sqlind[i] == IndAt(cols, i)
    {
      InShort(cols, i);
      assert Placed(cols, i, sqldata[i], sqlind[i]);
    }
    forall i | 0 <= i < |cols|
      ensures sqldata[i] == (if i == 0 then 0 else sqlind[i - 1] + 2)
      ensures LeastEven(sqlind[i], sqldata[i] + Size(cols[i]))
    {
      OneColumn(cols, i);
    }
  }

  // n is the least even number that is no smaller than m.
  predicate LeastEven(n: int, m: int) {
    n % 2 == 0 && m <= n <= m + 1
  }

  // The unbounded offsets of a column in front of the last, or of the last, are those of a `short`.
  lemma InShort(cols: seq<Column>, i: nat)
    requires Fits(cols) && i < |cols|
    ensures 0 <= DataAt(cols, i) <= IndAt(cols, i) <= 32767
  {
    OneColumn(cols, i);
    if i < |cols| - 1 {
      Increasing(cols, i, |cols| - 1);
      OneColumn(cols, |cols| - 1);
    }
  }

  lemma InOrder(cols: seq<Column>, sqldata: seq<int>, sqlind: seq<int>)
    requires |sqldata| == |sqlind| == |cols| && Fits(cols)
    requires forall i | 0 <= i < |cols| :: Placed(cols, i, sqldata[i], sqlind[i])
    ensures forall i | 0 <= i < |cols| ::
              && sqldata[i] % 2 == 0 && sqlind[i] % 2 == 0
              && 0 <= sqldata[i] <= sqldata[i] + Size(cols[i]) <= sqlind[i] <= 32766
    ensures forall i, j | 0 <= i < j < |cols| :: sqlind[i] + 2 <= sqldata[j]
  {
    forall i | 0 <= i < |cols|
      ensures sqldata[i] == DataAt(cols, i) && sqlind[i] == IndAt(cols, i)
      ensures sqldata[i] % 2 == 0 && sqlind[i] % 2 == 0
      ensures 0 <= sqldata[i] <= sqldata[i] + Size(cols[i]) <= sqlind[i] <= 32766
    {
      OneColumn(cols, i);
      InShort(cols, i);
      assert Placed(cols, i, sqldata[i], sqlind[i]);
    }
    forall i, j | 0 <= i < j < |cols|
      ensures sqlind[i] + 2 <= sqldata[j]
    {
      Increasing(cols, i, j);
    }
  }

  lemma InOrderIsSound(cols: seq<Column>, sqldata: seq<int>, sqlind: seq<int>)
    requires |sqldata| == |sqlind| == |cols|
    requires forall i | 0 <= i < |cols| :: 0 <= sqldata[i] <= sqldata[i] + Size(cols[i]) <= sqlind[i] <= 32766
    requires forall i, j | 0 <= i < j < |cols| :: sqlind[i] + 2 <= sqldata[j]
    ensures InBlock(cols, sqldata, sqlind) && Disjoint(cols, sqldata, sqlind)
  {
    forall i, j | 0 <= i < |cols| && 0 <= j < |cols|
      ensures Apart(sqldata[i], Size(cols[i]), sqlind[j], 2)
    {
      assert i < j ==> sqlind[i] + 2 <= sqldata[j];
      assert j < i ==> sqlind[j] + 2 <= sqldata[i];
    }
  }

  lemma BeyondIsUnsound(cols: seq<Column>, sqldata: seq<int>, sqlind: seq<int>)
    requires ValidColumns(cols) && |sqldata| == |sqlind| == |cols| && !Fits(cols)
    requires forall i | 0 <= i < |cols| :: Placed(cols, i, sqldata[i], sqlind[i])
    ensures !InBlock(cols, sqldata, sqlind) || !Disjoint(cols, sqldata, sqlind)
  {
    var k := FirstBeyond(cols, |cols| - 1);
    assert Placed(cols, k, sqldata[k], sqlind[k]) && Placed(cols, 0, sqldata[0], sqlind[0]);
    OneColumn(cols, k);
    OneColumn(cols, 0);
    if sqldata[k] >= 0 && sqlind[k] >= 0 {
      // the indicator's offset is exactly 65536 and wraps onto the first column
      assert k > 0 && sqlind[k] == 0 && sqldata[0] == 0;
      if Apart(sqldata[0], Size(cols[0]), sqlind[k], 2) {
        assert Size(cols[0]) == 0 && sqlind[0] == 0;
        assert !Apart(sqlind[0], 2, sqlind[k], 2);
      }
    }
  }

  lemma {:induction false} FirstBeyond(cols: seq<Column>, last: nat) returns (k: nat)
    requires last < |cols| && IndAt(cols, last) > 32767
    ensures k < |cols| && IndAt(cols, k) > 32767 && (k > 0 ==> IndAt(cols, k - 1) <= 32767)
  {
    k := last;
    if last > 0 && IndAt(cols, last - 1) > 32767 {
      k := FirstBeyond(cols, last - 1);
    }
  }
}

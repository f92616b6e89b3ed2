/** Binlog table maps and row events: which columns a row image holds, where it
    ends, and which table map it is read with. */
module RowsEvent {
  import opened Bytes
  import opened Bitmaps
  import opened RowValues

  /** `BinlogTableMapState` */
  datatype TableMap = TableMap(
    schema: bytes, table: bytes, flags: u16, types: seq<byte>, metadata: seq<u16>, nullBitmap: bytes)

  // ------------------------------------------------------------- row images

  /** `bitmap_set_count` */
  function SetCount(bitmap: bytes, bits: nat): (count: nat)
    ensures count <= bits
  {
    if bits == 0 then 0 else SetCount(bitmap, bits - 1) + (if HasBit(bitmap, bits - 1) then 1 else 0)
  }

  function MetadataAt(table: TableMap, i: nat): u16 {
    if i < |table.metadata| then table.metadata[i] else 0
  }

  /** The columns from `i` on, when `selected` columns came before. */
  function TakeColumns(s: bytes, table: TableMap, present: bytes, nulls: bytes, i: nat, selected: nat): (r: Parsed<seq<Value>>)
    requires i <= |table.types|
    ensures r.Parsed? ==> |r.value| == |table.types| - i
    decreases |table.types| - i
  {
    if i == |table.types| then Parsed([], s)
    else if !HasBit(present, i) then
      var (vs, rest) :- TakeColumns(s, table, present, nulls, i + 1, selected);
      Parsed([Null] + vs, rest)
    else
      var (v, s1) :- if HasBit(nulls, selected) then Parsed(Null, s) else TakeValue(s, table.types[i], MetadataAt(table, i));
      var (vs, rest) :- TakeColumns(s1, table, present, nulls, i + 1, selected + 1);
      Parsed([v] + vs, rest)
  }

  /** `read_binlog_row_values` */
  function TakeImage(s: bytes, table: TableMap, present: bytes): (r: Parsed<seq<Value>>)
    ensures r.Parsed? ==> |r.value| == |table.types|
  {
    var (nulls, s1) :- TakeBytes(s, ByteLength(SetCount(present, |table.types|)));
    TakeColumns(s1, table, present, nulls, 0, 0)
  }

  lemma {:induction false} TakeColumnsSuffix(s: bytes, table: TableMap, present: bytes, nulls: bytes, i: nat, selected: nat)
    requires i <= |table.types| && TakeColumns(s, table, present, nulls, i, selected).Parsed?
    ensures Suffix(TakeColumns(s, table, present, nulls, i, selected).rest, s)
    decreases |table.types| - i
  {
    hide TakeValue, HasBit, Suffix;
    if i == |table.types| {
      SuffixOfPrefixed([], s);
      assert [] + s == s;
    } else if !HasBit(present, i) {
      TakeColumnsSuffix(s, table, present, nulls, i + 1, selected);
    } else if HasBit(nulls, selected) {
      TakeColumnsSuffix(s, table, present, nulls, i + 1, selected + 1);
    } else {
      var s1 := TakeValue(s, table.types[i], MetadataAt(table, i)).rest;
      TakeValueSuffix(s, table.types[i], MetadataAt(table, i));
      TakeColumnsSuffix(s1, table, present, nulls, i + 1, selected + 1);
      SuffixTransitive(TakeColumns(s1, table, present, nulls, i + 1, selected + 1).rest, s1, s);
    }
  }

  /** An image ends behind where it started; it takes at least its null bitmap, so
      it takes something when it selects a column. */
  lemma ImageProgress(s: bytes, table: TableMap, present: bytes)
    requires TakeImage(s, table, present).Parsed?
    ensures Suffix(TakeImage(s, table, present).rest, s)
    ensures SetCount(present, |table.types|) > 0 ==> |TakeImage(s, table, present).rest| < |s|
  {
    hide TakeColumns, TakeBytes, SetCount;
    var count := SetCount(present, |table.types|);
    var nulls := TakeBytes(s, ByteLength(count));
    TakeBytesSuffix(s, ByteLength(count));
    TakeColumnsSuffix(nulls.rest, table, present, nulls.value, 0, 0);
    SuffixTransitive(TakeImage(s, table, present).rest, nulls.rest, s);
    assert |nulls.value + nulls.rest| == |s|;
  }

  /** Columns that the image does not select are NULL. */
  lemma {:induction false} UnselectedColumnsNull(s: bytes, table: TableMap, present: bytes, nulls: bytes, i: nat, selected: nat, j: nat)
    requires i <= j < |table.types| && !HasBit(present, j)
    requires TakeColumns(s, table, present, nulls, i, selected).Parsed?
    ensures TakeColumns(s, table, present, nulls, i, selected).value[j - i] == Null
    decreases j - i
  {
    hide HasBit, TakeValue;
    if i < j {
      if !HasBit(present, i) {
        UnselectedColumnsNull(s, table, present, nulls, i + 1, selected, j);
      } else if HasBit(nulls, selected) {
        UnselectedColumnsNull(s, table, present, nulls, i + 1, selected + 1, j);
      } else {
        UnselectedColumnsNull(TakeValue(s, table.types[i], MetadataAt(table, i)).rest,
                              table, present, nulls, i + 1, selected + 1, j);
      }
    }
  }

  lemma UnselectedNull(s: bytes, table: TableMap, present: bytes, j: nat)
    requires j < |table.types| && !HasBit(present, j) && TakeImage(s, table, present).Parsed?
    ensures TakeImage(s, table, present).value[j] == Null
  {
    hide HasBit, TakeBytes, SetCount, TakeColumns;
    var nulls := TakeBytes(s, ByteLength(SetCount(present, |table.types|)));
    UnselectedColumnsNull(nulls.rest, table, present, nulls.value, 0, 0, j);
  }

  /** An image that selects nothing reads nothing. */
  lemma {:induction false} NothingSelected(bitmap: bytes, bits: nat, i: nat)
    requires SetCount(bitmap, bits) == 0 && i < bits
    ensures !HasBit(bitmap, i)
  {
    hide HasBit;
    if i < bits - 1 {
      NothingSelected(bitmap, bits - 1, i);
    }
  }

  lemma {:induction false} EmptyColumns(s: bytes, table: TableMap, present: bytes, nulls: bytes, i: nat)
    requires i <= |table.types| && SetCount(present, |table.types|) == 0
    ensures TakeColumns(s, table, present, nulls, i, 0).Parsed?
    ensures TakeColumns(s, table, present, nulls, i, 0).rest == s
    decreases |table.types| - i
  {
    hide HasBit, TakeValue, SetCount;
    if i < |table.types| {
      NothingSelected(present, |table.types|, i);
      EmptyColumns(s, table, present, nulls, i + 1);
    }
  }

  lemma EmptyImage(s: bytes, table: TableMap, present: bytes)
    requires SetCount(present, |table.types|) == 0
    ensures TakeImage(s, table, present).Parsed? && TakeImage(s, table, present).rest == s
  {
    hide TakeColumns, SetCount;
    assert s[..0] == [] && s[0..] == s;
    EmptyColumns(s, table, present, [], 0);
  }

  // ------------------------------------------------------------ row changes

  /** `BinlogRowChange` */
  datatype RowChange = RowChange(before: seq<Value>, after: seq<Value>, rawBefore: bytes, rawAfter: bytes)

  /** What a rows event says about its images. */
  datatype Layout = Layout(hasBefore: bool, hasAfter: bool, present: bytes, presentAfter: bytes)

  /** The bytes read between two positions. */
  function Between(s: bytes, rest: bytes): bytes {
    if |rest| <= |s| then s[..|s| - |rest|] else []
  }

  function TakeOptionalImage(s: bytes, table: TableMap, wanted: bool, present: bytes): Parsed<seq<Value>> {
    if wanted then TakeImage(s, table, present) else Parsed([], s)
  }

  /** One iteration of the loop in `parse_rows_event_body`. */
  function TakeChange(s: bytes, table: TableMap, layout: Layout): Parsed<RowChange> {
    var (before, s1) :- TakeOptionalImage(s, table, layout.hasBefore, layout.present);
    var (after, rest) :- TakeOptionalImage(s1, table, layout.hasAfter, layout.presentAfter);
    Parsed(RowChange(before, after, Between(s, s1), Between(s1, rest)), rest)
  }

  /** The rows of an event, a malformed row, or a loop that never ends: an iteration
      that reads nothing is repeated for ever. */
  datatype Rows = Rows(changes: seq<RowChange>) | Broken | Diverges

  function TakeRows(s: bytes, table: TableMap, layout: Layout): Rows
    decreases |s|
  {
    if s == [] then Rows([])
    else
      match TakeChange(s, table, layout)
      case Malformed => Broken
      case Parsed(change, rest) =>
        if |rest| >= |s| then Diverges
        else
          match TakeRows(rest, table, layout)
          case Rows(changes) => Rows([change] + changes)
          case other => other
  }

  /** Some image that is read selects some column of the table. */
  predicate Selects(table: TableMap, layout: Layout) {
    || (layout.hasBefore && SetCount(layout.present, |table.types|) > 0)
    || (layout.hasAfter && SetCount(layout.presentAfter, |table.types|) > 0)
  }

  lemma OptionalImageProgress(s: bytes, table: TableMap, wanted: bool, present: bytes)
    requires TakeOptionalImage(s, table, wanted, present).Parsed?
    ensures var rest := TakeOptionalImage(s, table, wanted, present).rest;
      && Suffix(rest, s) && s == Between(s, rest) + rest
      && (wanted && SetCount(present, |table.types|) > 0 ==> |rest| < |s|)
  {
    hide TakeImage, SetCount;
    if wanted {
      ImageProgress(s, table, present);
    }
  }

  /** Each iteration that reads an image with a column in it goes on. */
  lemma ChangeProgress(s: bytes, table: TableMap, layout: Layout)
    requires TakeChange(s, table, layout).Parsed?
    ensures var r := TakeChange(s, table, layout);
      && |r.rest| <= |s|
      && s == r.value.rawBefore + r.value.rawAfter + r.rest
      && (Selects(table, layout) ==> |r.rest| < |s|)
  {
    hide TakeOptionalImage, SetCount, Between, Suffix;
    var before := TakeOptionalImage(s, table, layout.hasBefore, layout.present);
    OptionalImageProgress(s, table, layout.hasBefore, layout.present);
    var after := TakeOptionalImage(before.rest, table, layout.hasAfter, layout.presentAfter);
    OptionalImageProgress(before.rest, table, layout.hasAfter, layout.presentAfter);
    Concat3(Between(s, before.rest), Between(before.rest, after.rest), after.rest);
    assert |Between(s, before.rest) + before.rest| == |s|;
    assert |Between(before.rest, after.rest) + after.rest| == |before.rest|;
  }

  lemma StuckChange(s: bytes, table: TableMap, layout: Layout)
    requires !Selects(table, layout)
    ensures TakeChange(s, table, layout).Parsed? && TakeChange(s, table, layout).rest == s
  {
    hide TakeImage, SetCount;
    if layout.hasBefore {
      EmptyImage(s, table, layout.present);
    }
    if layout.hasAfter {
      EmptyImage(s, table, layout.presentAfter);
    }
  }

  lemma {:induction false} SelectingRowsEnd(s: bytes, table: TableMap, layout: Layout)
    requires Selects(table, layout)
    ensures !TakeRows(s, table, layout).Diverges?
    decreases |s|
  {
    hide TakeChange, Selects;
    if s != [] && TakeChange(s, table, layout).Parsed? {
      ChangeProgress(s, table, layout);
      SelectingRowsEnd(TakeChange(s, table, layout).rest, table, layout);
    }
  }

  /** The loop never ends exactly when there are rows and no image that is read
      selects a column. */
  lemma DivergesExact(s: bytes, table: TableMap, layout: Layout)
    ensures TakeRows(s, table, layout).Diverges? <==> s != [] && !Selects(table, layout)
  {
    if Selects(table, layout) {
      SelectingRowsEnd(s, table, layout);
    } else if s != [] {
      StuckChange(s, table, layout);
    }
  }

  function RawBytes(changes: seq<RowChange>): bytes {
    if changes == [] then [] else changes[0].rawBefore + changes[0].rawAfter + RawBytes(changes[1..])
  }

  /** The raw slices of all rows, in order, are the whole body. */
  lemma {:induction false} SlicesPartition(s: bytes, table: TableMap, layout: Layout)
    requires TakeRows(s, table, layout).Rows?
    ensures RawBytes(TakeRows(s, table, layout).changes) == s
    decreases |s|
  {
    hide TakeChange;
    if s != [] {
      var change, rest := TakeChange(s, table, layout).value, TakeChange(s, table, layout).rest;
      ChangeProgress(s, table, layout);
      SlicesPartition(rest, table, layout);
      var changes := TakeRows(rest, table, layout).changes;
      assert ([change] + changes)[1..] == changes;
    }
  }

  /** Nothing can be read for a column that the image selects and that is not NULL. */
  ghost predicate Blocks(table: TableMap, present: bytes, nulls: bytes, j: nat) {
    && j < |table.types| && HasBit(present, j) && !HasBit(nulls, SetCount(present, j))
    && forall s: bytes :: TakeValue(s, table.types[j], MetadataAt(table, j)).Malformed?
  }

  lemma {:induction false} BlockedColumns(s: bytes, table: TableMap, present: bytes, nulls: bytes, i: nat, j: nat)
    requires i <= j && Blocks(table, present, nulls, j)
    ensures TakeColumns(s, table, present, nulls, i, SetCount(present, i)).Malformed?
    decreases j - i
  {
    hide HasBit, TakeValue;
    if i < j {
      if !HasBit(present, i) || HasBit(nulls, SetCount(present, i)) {
        BlockedColumns(s, table, present, nulls, i + 1, j);
      } else if TakeValue(s, table.types[i], MetadataAt(table, i)).Parsed? {
        BlockedColumns(TakeValue(s, table.types[i], MetadataAt(table, i)).rest, table, present, nulls, i + 1, j);
      }
    }
  }

  /** One such value in the first image makes the rows of the whole event unreadable. */
  lemma BlockedRows(s: bytes, table: TableMap, layout: Layout, j: nat)
    requires s != [] && (layout.hasBefore || layout.hasAfter)
    ensures var present := if layout.hasBefore then layout.present else layout.presentAfter;
      var nulls := TakeBytes(s, ByteLength(SetCount(present, |table.types|)));
      (nulls.Parsed? ==> Blocks(table, present, nulls.value, j)) ==> TakeRows(s, table, layout) == Broken
  {
    hide HasBit, TakeValue, TakeBytes, TakeColumns, Blocks;
    var present := if layout.hasBefore then layout.present else layout.presentAfter;
    var nulls := TakeBytes(s, ByteLength(SetCount(present, |table.types|)));
    assert SetCount(present, 0) == 0;
    if nulls.Parsed? && Blocks(table, present, nulls.value, j) {
      BlockedColumns(nulls.rest, table, present, nulls.value, 0, j);
    }
  }

  // ---------------------------------------------------- rows as they are sent

  /** A column of a row as it is sent: NULL, or a stored form and its value. */
  datatype Cell = Missing | Stored(form: bytes, value: Value)

  ghost predicate Fits(cell: Cell, columnType: byte, metadata: u16) {
    cell.Stored? ==> Stores(cell.form, columnType, metadata, cell.value)
  }

  ghost predicate ValidImage(cells: seq<Cell>, table: TableMap) {
    |cells| == |table.types| && forall i :: 0 <= i < |cells| ==> Fits(cells[i], table.types[i], MetadataAt(table, i))
  }

  lemma {:induction false} SetCountMonotone(present: bytes, i: nat, j: nat)
    requires i <= j
    ensures SetCount(present, i) <= SetCount(present, j)
    ensures i < j && HasBit(present, i) ==> SetCount(present, i) < SetCount(present, j)
    decreases j - i
  {
    hide HasBit;
    if i < j {
      SetCountMonotone(present, i + 1, j);
    }
  }

  /** The null bitmap of an image: one bit for each selected column. */
  function NullMap(cells: seq<Cell>, present: bytes, n: nat): (bitmap: bytes)
    requires n <= |cells|
    ensures |bitmap| == ByteLength(SetCount(present, |cells|))
  {
    if n == 0 then ZeroBytes(ByteLength(SetCount(present, |cells|)))
    else
      var bitmap := NullMap(cells, present, n - 1);
      if HasBit(present, n - 1) && cells[n - 1].Missing? then
        SetCountMonotone(present, n - 1, |cells|);
        SetBit(bitmap, SetCount(present, n - 1))
      else bitmap
  }

  lemma SelectedCountsDiffer(present: bytes, i: nat, j: nat)
    requires i != j && HasBit(present, i) && HasBit(present, j)
    ensures SetCount(present, i) != SetCount(present, j)
  {
    hide HasBit, SetCount;
    if i < j {
      SetCountMonotone(present, i, j);
    } else {
      SetCountMonotone(present, j, i);
    }
  }

  lemma {:induction false} NullMapExact(cells: seq<Cell>, present: bytes, n: nat, i: nat)
    requires n <= |cells| && i < |cells| && HasBit(present, i)
    ensures HasBit(NullMap(cells, present, n), SetCount(present, i)) <==> i < n && cells[i].Missing?
  {
    hide HasBit, SetBit, SetCount, ByteLength;
    if n == 0 {
      ZeroBitsClear(ByteLength(SetCount(present, |cells|)), SetCount(present, i));
    } else {
      NullMapExact(cells, present, n - 1, i);
      if HasBit(present, n - 1) && cells[n - 1].Missing? {
        SetCountMonotone(present, n - 1, |cells|);
        SetBitExact(NullMap(cells, present, n - 1), SetCount(present, n - 1), SetCount(present, i));
        if i != n - 1 {
          SelectedCountsDiffer(present, i, n - 1);
        }
      }
    }
  }

  function Forms(cells: seq<Cell>, present: bytes, i: nat): bytes
    requires i <= |cells|
    decreases |cells| - i
  {
    if i == |cells| then []
    else if HasBit(present, i) && cells[i].Stored? then cells[i].form + Forms(cells, present, i + 1)
    else Forms(cells, present, i + 1)
  }

  function ImageBytes(cells: seq<Cell>, present: bytes): bytes {
    NullMap(cells, present, |cells|) + Forms(cells, present, 0)
  }

  /** The values that an image shows: unselected columns are NULL. */
  function ShownFrom(cells: seq<Cell>, present: bytes, i: nat): (vs: seq<Value>)
    requires i <= |cells|
    ensures |vs| == |cells| - i
    decreases |cells| - i
  {
    if i == |cells| then []
    else
      [if HasBit(present, i) && cells[i].Stored? then cells[i].value else Null] + ShownFrom(cells, present, i + 1)
  }

  lemma {:induction false} ColumnsExact(cells: seq<Cell>, table: TableMap, present: bytes, i: nat, rest: bytes)
    requires ValidImage(cells, table) && i <= |cells|
    ensures TakeColumns(Forms(cells, present, i) + rest, table, present, NullMap(cells, present, |cells|), i, SetCount(present, i))
         == Parsed(ShownFrom(cells, present, i), rest)
    decreases |cells| - i
  {
    hide HasBit, TakeValue, Stores, NullMap;
    if i == |cells| {
      assert [] + rest == rest;
    } else {
      ColumnsExact(cells, table, present, i + 1, rest);
      if HasBit(present, i) {
        NullMapExact(cells, present, |cells|, i);
        if cells[i].Stored? {
          var more := Forms(cells, present, i + 1);
          Concat3(cells[i].form, more, rest);
          FormExact(cells[i], table.types[i], MetadataAt(table, i), more + rest);
        }
      }
    }
  }

  lemma FormExact(cell: Cell, columnType: byte, metadata: u16, rest: bytes)
    requires cell.Stored? && Fits(cell, columnType, metadata)
    ensures TakeValue(cell.form + rest, columnType, metadata) == Parsed(cell.value, rest)
  {
    hide TakeValue;
  }

  lemma ImageExact(cells: seq<Cell>, table: TableMap, present: bytes, rest: bytes)
    requires ValidImage(cells, table)
    ensures TakeImage(ImageBytes(cells, present) + rest, table, present) == Parsed(ShownFrom(cells, present, 0), rest)
  {
    hide TakeColumns, NullMap, Forms, ShownFrom, TakeBytes;
    var nulls, forms := NullMap(cells, present, |cells|), Forms(cells, present, 0);
    Concat3(nulls, forms, rest);
    TakeBytesInverse(nulls, forms + rest);
    ColumnsExact(cells, table, present, 0, rest);
  }

  /** A row as it is sent; an image that the event does not have is not looked at. */
  datatype Row = Row(before: seq<Cell>, after: seq<Cell>)

  ghost predicate ValidRow(row: Row, table: TableMap, layout: Layout) {
    && (layout.hasBefore ==> ValidImage(row.before, table))
    && (layout.hasAfter ==> ValidImage(row.after, table))
  }

  function BeforeBytes(row: Row, layout: Layout): bytes {
    if layout.hasBefore then ImageBytes(row.before, layout.present) else []
  }

  function AfterBytes(row: Row, layout: Layout): bytes {
    if layout.hasAfter then ImageBytes(row.after, layout.presentAfter) else []
  }

  function RowsBytes(rows: seq<Row>, layout: Layout): bytes {
    if rows == [] then []
    else BeforeBytes(rows[0], layout) + AfterBytes(rows[0], layout) + RowsBytes(rows[1..], layout)
  }

  function ChangeOf(row: Row, layout: Layout): RowChange {
    RowChange(if layout.hasBefore then ShownFrom(row.before, layout.present, 0) else [],
              if layout.hasAfter then ShownFrom(row.after, layout.presentAfter, 0) else [],
              BeforeBytes(row, layout), AfterBytes(row, layout))
  }

  lemma BetweenExact(front: bytes, rest: bytes)
    ensures Between(front + rest, rest) == front
  {
  }

  lemma OptionalImageExact(cells: seq<Cell>, table: TableMap, wanted: bool, present: bytes, rest: bytes)
    requires wanted ==> ValidImage(cells, table)
    ensures var form := if wanted then ImageBytes(cells, present) else [];
      TakeOptionalImage(form + rest, table, wanted, present) == Parsed(if wanted then ShownFrom(cells, present, 0) else [], rest)
  {
    hide ImageBytes, TakeImage, ShownFrom, ValidImage;
    if wanted {
      ImageExact(cells, table, present, rest);
    } else {
      assert [] + rest == rest;
    }
  }

  lemma ChangeExact(row: Row, table: TableMap, layout: Layout, rest: bytes)
    requires ValidRow(row, table, layout)
    ensures TakeChange(BeforeBytes(row, layout) + AfterBytes(row, layout) + rest, table, layout)
         == Parsed(ChangeOf(row, layout), rest)
  {
    hide TakeOptionalImage, ImageBytes, ShownFrom, ValidImage, Between;
    var before, after := BeforeBytes(row, layout), AfterBytes(row, layout);
    Concat3(before, after, rest);
    OptionalImageExact(row.before, table, layout.hasBefore, layout.present, after + rest);
    OptionalImageExact(row.after, table, layout.hasAfter, layout.presentAfter, rest);
    BetweenExact(before, after + rest);
    BetweenExact(after, rest);
  }

  function ChangesOf(rows: seq<Row>, layout: Layout): (changes: seq<RowChange>)
    ensures |changes| == |rows|
  {
    if rows == [] then [] else [ChangeOf(rows[0], layout)] + ChangesOf(rows[1..], layout)
  }

  /** Any list of rows in stored form is decoded to exactly those rows, with the raw
      bytes of each image. */
  lemma {:induction false} RowsExact(rows: seq<Row>, table: TableMap, layout: Layout)
    requires Selects(table, layout) && forall i :: 0 <= i < |rows| ==> ValidRow(rows[i], table, layout)
    ensures TakeRows(RowsBytes(rows, layout), table, layout) == Rows(ChangesOf(rows, layout))
  {
    hide TakeChange, BeforeBytes, AfterBytes, Selects, ValidRow, ChangeOf;
    if rows != [] {
      var s, more := RowsBytes(rows, layout), RowsBytes(rows[1..], layout);
      ChangeExact(rows[0], table, layout, more);
      ChangeProgress(s, table, layout);
      RowsExact(rows[1..], table, layout);
    }
  }

  // ------------------------------------------------------------------ readers

  method CountBits(bitmap: bytes, bits: nat) returns (count: nat)
    ensures count == SetCount(bitmap, bits)
  {
    count := 0;
    for i := 0 to bits
      invariant count == SetCount(bitmap, i)
    {
      if HasBit(bitmap, i) {
        count := count + 1;
      }
    }
  }

  lemma PrependedBroken(front: seq<Value>)
    ensures Prepended(front, Malformed) == Malformed
  {
  }

  lemma TakeColumnsStep(s: bytes, table: TableMap, present: bytes, nulls: bytes, i: nat, selected: nat)
    requires i < |table.types|
    ensures var all := TakeColumns(s, table, present, nulls, i, selected);
      var here := HasBit(present, i);
      var v := if here && !HasBit(nulls, selected) then TakeValue(s, table.types[i], MetadataAt(table, i)) else Parsed(Null, s);
      if v.Malformed? then all.Malformed?
      else
        var more := TakeColumns(v.rest, table, present, nulls, i + 1, if here then selected + 1 else selected);
        all == Prepended([v.value], more)
  {
    hide HasBit, TakeValue;
  }

  lemma TakeColumnsEnd(s: bytes, table: TableMap, present: bytes, nulls: bytes, selected: nat)
    ensures TakeColumns(s, table, present, nulls, |table.types|, selected) == Parsed([], s)
  {
  }

  /** `read_binlog_row_values` */
  method ReadImage(cursor: PacketCursor, table: TableMap, present: bytes) returns (r: Result<seq<Value>, ()>)
    requires cursor.Valid()
    modifies cursor`offset
    ensures cursor.Valid() && old(cursor.offset) <= cursor.offset
    ensures r.Err? <==> TakeImage(old(cursor.Rest()), table, present).Malformed?
    ensures r.Ok? ==> TakeImage(old(cursor.Rest()), table, present) == Parsed(r.value, cursor.Rest())
  {
    hide HasBit, TakeValue, TakeColumns, SetCount, TakeBytes, ByteLength, Prepended;
    var n := |table.types|;
    var selectedCount := CountBits(present, n);
    var nulls :- cursor.ReadBuffer(ByteLength(selectedCount));
    var values := new Value[n](_ => Null);
    var selected, i := 0, 0;
    ghost var all := TakeColumns(cursor.Rest(), table, present, nulls, 0, 0);
    PrependedNothing(all);
    assert values[..0] == [];
    while i < n
      invariant i <= n && cursor.Valid() && old(cursor.offset) <= cursor.offset
      invariant forall j :: i <= j < n ==> values[j] == Null
      invariant all == Prepended(values[..i], TakeColumns(cursor.Rest(), table, present, nulls, i, selected))
    {
      TakeColumnsStep(cursor.Rest(), table, present, nulls, i, selected);
      ghost var before := values[..i];
      if HasBit(present, i) {
        if !HasBit(nulls, selected) {
          PrependedBroken(before);
          var v :- ReadValue(cursor, table.types[i], MetadataAt(table, i));
          values[i] := v;
        }
        selected := selected + 1;
      }
      assert values[..i + 1] == before + [values[i]];
      PrependedTwice(before, values[i], TakeColumns(cursor.Rest(), table, present, nulls, i + 1, selected));
      i := i + 1;
    }
    TakeColumnsEnd(cursor.Rest(), table, present, nulls, selected);
    assert values[..n] == values[..];
    PrependedAll(values[..], cursor.Rest());
    r := Ok(values[..]);
  }

  /** An image and its raw slice of the payload. */
  method ReadRawImage(cursor: PacketCursor, table: TableMap, present: bytes) returns (r: Result<(seq<Value>, bytes), ()>)
    requires cursor.Valid()
    modifies cursor`offset
    ensures cursor.Valid() && old(cursor.offset) <= cursor.offset
    ensures r.Err? <==> TakeImage(old(cursor.Rest()), table, present).Malformed?
    ensures r.Ok? ==> TakeImage(old(cursor.Rest()), table, present) == Parsed(r.value.0, cursor.Rest())
    ensures r.Ok? ==> r.value.1 == Between(old(cursor.Rest()), cursor.Rest())
  {
    hide TakeImage;
    var start := cursor.offset;
    var values :- ReadImage(cursor, table, present);
    assert old(cursor.Rest())[..cursor.offset - start] == cursor.payload[start..cursor.offset];
    r := Ok((values, cursor.payload[start..cursor.offset]));
  }

  /** One iteration of the loop. */
  method ReadChange(cursor: PacketCursor, table: TableMap, layout: Layout) returns (r: Result<RowChange, ()>)
    requires cursor.Valid()
    modifies cursor`offset
    ensures cursor.Valid() && old(cursor.offset) <= cursor.offset
    ensures r.Err? <==> TakeChange(old(cursor.Rest()), table, layout).Malformed?
    ensures r.Ok? ==> TakeChange(old(cursor.Rest()), table, layout) == Parsed(r.value, cursor.Rest())
  {
    hide TakeImage;
    var change := RowChange([], [], [], []);
    if layout.hasBefore {
      var image :- ReadRawImage(cursor, table, layout.present);
      change := change.(before := image.0, rawBefore := image.1);
    }
    if layout.hasAfter {
      var image :- ReadRawImage(cursor, table, layout.presentAfter);
      change := change.(after := image.0, rawAfter := image.1);
    }
    r := Ok(change);
  }

  function PrependedRows(front: seq<RowChange>, rows: Rows): Rows {
    match rows
    case Rows(changes) => Rows(front + changes)
    case other => other
  }

  /** The loop of `parse_rows_event_body`. Where an iteration reads nothing the
      original goes round for ever; here the loop reports it. */
  method ReadRows(cursor: PacketCursor, table: TableMap, layout: Layout) returns (rows: Rows)
    requires cursor.Valid()
    modifies cursor`offset
    ensures cursor.Valid()
    ensures rows == TakeRows(old(cursor.Rest()), table, layout)
  {
    hide TakeChange;
    var changes: seq<RowChange> := [];
    var more := cursor.HasMore();
    while more
      invariant cursor.Valid() && (more <==> cursor.Rest() != [])
      invariant TakeRows(old(cursor.Rest()), table, layout) == PrependedRows(changes, TakeRows(cursor.Rest(), table, layout))
      decreases |cursor.payload| - cursor.offset
    {
      var start := cursor.offset;
      ghost var s := cursor.Rest();
      var change := ReadChange(cursor, table, layout);
      if change.Err? {
        return Broken;
      }
      if cursor.offset == start {
        return Diverges;
      }
      assert |cursor.Rest()| < |s|;
      changes := changes + [change.value];
      more := cursor.HasMore();
    }
    rows := Rows(changes);
  }
}

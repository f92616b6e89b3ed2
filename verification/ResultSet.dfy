/** The payloads of a text result set: what the server writes for columns, rows
    and markers, and what the client reads back from them. */
module ResultSet {
  import opened Bytes
  import opened Framing
  import opened OkInfo

  // ---------------------------------------------------------------- values

  /** A column value of a text row: NULL or its bytes. */
  datatype Cell = Null | Text(value: blob)

  type Row = seq<Cell>

  datatype Field = Field(
    catalog: blob, schema: blob, table: blob, orgTable: blob, name: blob, orgName: blob,
    characterSet: u16, columnLength: u32, columnType: byte, flags: u16, decimals: byte)

  datatype OkPacket = OkPacket(
    affectedRows: u64, insertId: u64, status: u16, warnings: u16, info: bytes, changedRows: u64)

  const EMPTY_OK := OkPacket(0, 0, 0, 0, [], 0)

  const MORE_RESULTS: nat := 0x0008
  const CURSOR_EXISTS: nat := 0x0040

  /** `status & flag` for a single-bit flag. */
  predicate HasFlag(status: u16, flag: nat)
    requires flag > 0
  {
    (status / flag) % 2 == 1
  }

  // ---------------------------------------------------------- packet markers

  predicate IsEof(payload: bytes) {
    |payload| > 0 && payload[0] == 0xfe && |payload| < 9
  }

  predicate IsOk(payload: bytes) {
    |payload| > 0 && payload[0] == 0
  }

  predicate IsErr(payload: bytes) {
    |payload| > 0 && payload[0] == 0xff
  }

  predicate IsLocalInfile(payload: bytes) {
    |payload| > 0 && payload[0] == 0xfb
  }

  // ---------------------------------------------------------- OK, EOF, ERR

  /** `build_ok_payload`; a status of 0 is sent as 2. */
  function OkPayload(ok: OkPacket): bytes {
    [0] + (Lenenc(ok.affectedRows) + (Lenenc(ok.insertId)
      + (LittleEndian(if ok.status == 0 then 2 else ok.status, 2) + (LittleEndian(ok.warnings, 2) + ok.info))))
  }

  /** `parse_ok_packet` of a server that speaks the 4.1 protocol; status and
      warning count are optional, and the changed rows are read out of the text. */
  function ParseOk(payload: bytes): Parsed<OkPacket> {
    var (_, s0) :- TakeBytes(payload, 1);
    var (affected, s1) :- TakeLenenc(s0);
    var (insertId, s2) :- TakeLenenc(s1);
    var (status, s3) :- OptionalU16(s2);
    var (warnings, s4) :- OptionalU16(s3);
    match ChangedRows(s4)
    case None => Malformed
    case Some(changed) => Parsed(OkPacket(ValueOr(affected), ValueOr(insertId), status, warnings, s4, changed), [])
  }

  function OptionalU16(s: bytes): (r: Parsed<u16>) {
    if s == [] then Parsed(0, [])
    else
      Pow256Values();
      var (n, rest) :- TakeLE(s, 2);
      Parsed(n, rest)
  }

  /** The text decides whether the packet is read back at all and how many rows it
      says were changed. */
  lemma OkRoundTrip(ok: OkPacket)
    ensures IsOk(OkPayload(ok))
    ensures ChangedRows(ok.info).None? ==> ParseOk(OkPayload(ok)) == Malformed
    ensures ChangedRows(ok.info).Some? ==>
      ParseOk(OkPayload(ok)) ==
      Parsed(ok.(status := if ok.status == 0 then 2 else ok.status, changedRows := ChangedRows(ok.info).value), [])
  {
    var status := if ok.status == 0 then 2 else ok.status;
    assert status < Pow256(2) && ok.warnings < Pow256(2) by { Pow256Values(); }
    var s3 := LittleEndian(ok.warnings, 2) + ok.info;
    var s2 := LittleEndian(status, 2) + s3;
    var s1 := Lenenc(ok.insertId) + s2;
    var s0 := Lenenc(ok.affectedRows) + s1;
    TakeBytesInverse([0], s0);
    TakeLenencInverse(ok.affectedRows, s1);
    TakeLenencInverse(ok.insertId, s2);
    TakeLEInverse(status, 2, s3);
    TakeLEInverse(ok.warnings, 2, ok.info);
  }

  /** `build_eof_payload` */
  function EofPayload(warnings: u16, status: u16): bytes {
    [0xfe] + (LittleEndian(warnings, 2) + LittleEndian(status, 2))
  }

  /** `parse_resultset_end_packet` */
  function ParseEnd(payload: bytes): (r: Parsed<OkPacket>)
    ensures IsEof(payload) ==> r.Parsed?
  {
    if IsOk(payload) then ParseOk(payload)
    else if IsEof(payload) && |payload| >= 5 then
      Pow256Values();
      Parsed(EMPTY_OK.(warnings := TakeLE(payload[1..3], 2).value, status := TakeLE(payload[3..5], 2).value), [])
    else Parsed(EMPTY_OK, [])
  }

  lemma EofRoundTrip(warnings: u16, status: u16)
    ensures IsEof(EofPayload(warnings, status))
    ensures ParseEnd(EofPayload(warnings, status)) == Parsed(EMPTY_OK.(warnings := warnings, status := status), [])
  {
    var p := EofPayload(warnings, status);
    assert warnings < Pow256(2) && status < Pow256(2) by { Pow256Values(); }
    assert p[1..3] == LittleEndian(warnings, 2) + [] && p[3..5] == LittleEndian(status, 2) + [];
    TakeLEInverse(warnings, 2, []);
    TakeLEInverse(status, 2, []);
  }

  datatype ServerError = ServerError(code: u16, state: bytes, message: bytes)

  const HY000: bytes := [0x48, 0x59, 0x30, 0x30, 0x30]

  /** `build_error_payload`; a SQL state that is not five bytes becomes HY000. */
  function ErrPayload(e: ServerError): bytes {
    [0xff] + (LittleEndian(e.code, 2) + ([0x23] + ((if |e.state| == 5 then e.state else HY000) + e.message)))
  }

  /** `parse_error_packet` */
  function ParseErr(payload: bytes): Parsed<ServerError> {
    var (_, s0) :- TakeBytes(payload, 1);
    Pow256Values();
    var (code, s1) :- TakeLE(s0, 2);
    if s1 != [] && s1[0] == 0x23 then
      var (state, message) :- TakeBytes(s1[1..], 5);
      Parsed(ServerError(code, state, message), [])
    else Parsed(ServerError(code, [], s1), [])
  }

  lemma ErrRoundTrip(e: ServerError)
    ensures IsErr(ErrPayload(e))
    ensures ParseErr(ErrPayload(e)) == Parsed(e.(state := if |e.state| == 5 then e.state else HY000), [])
  {
    var state := if |e.state| == 5 then e.state else HY000;
    assert e.code < Pow256(2) by { Pow256Values(); }
    var s1 := [0x23] + (state + e.message);
    TakeBytesInverse([0xff], LittleEndian(e.code, 2) + s1);
    TakeLEInverse(e.code, 2, s1);
    assert s1[1..] == state + e.message;
    TakeBytesInverse(state, e.message);
  }

  // ------------------------------------------------------ column definitions

  const DEF: bytes := [0x64, 0x65, 0x66]

  /** The defaults that `build_column_definition_payload` fills in. */
  function Normalise(f: Field): Field {
    f.(catalog := if f.catalog == [] then DEF else f.catalog,
       characterSet := if f.characterSet == 0 then 224 else f.characterSet,
       columnLength := if f.columnLength == 0 then 1024 else f.columnLength)
  }

  function ColumnNumbers(f: Field): bytes {
    [0x0c] + (LittleEndian(f.characterSet, 2) + (LittleEndian(f.columnLength, 4)
      + ([f.columnType] + (LittleEndian(f.flags, 2) + ([f.decimals] + LittleEndian(0, 2))))))
  }

  /** `build_column_definition_payload` */
  function ColumnPayload(field: Field): (s: bytes)
    ensures s != [] && s[0] !in {0, 0xfb, 0xff}
    ensures s[0] == 0xfe ==> |s| >= 9
  {
    var f := Normalise(field);
    LenencBytes(f.catalog) + (LenencBytes(f.schema) + (LenencBytes(f.table) + (LenencBytes(f.orgTable)
      + (LenencBytes(f.name) + (LenencBytes(f.orgName) + ColumnNumbers(f))))))
  }

  function TakeName(s: bytes): (r: Parsed<blob>) {
    var (name, rest) :- TakeLenencBytes(s);
    Parsed(if name.Some? then name.value else [], rest)
  }

  function TakeColumnNumbers(f: Field, s: bytes): Parsed<Field> {
    Pow256Values();
    var (_, s0) :- TakeBytes(s, 1);
    var (characterSet, s1) :- TakeLE(s0, 2);
    var (columnLength, s2) :- TakeLE(s1, 4);
    var (columnType, s3) :- TakeBytes(s2, 1);
    var (flags, s4) :- TakeLE(s3, 2);
    var (decimals, s5) :- TakeBytes(s4, 1);
    Parsed(f.(characterSet := characterSet, columnLength := columnLength, columnType := columnType[0],
              flags := flags, decimals := decimals[0]), s5)
  }

  /** `parse_column_definition` */
  function ParseColumn(s: bytes): Parsed<Field> {
    var (catalog, s1) :- TakeName(s);
    var (schema, s2) :- TakeName(s1);
    var (table, s3) :- TakeName(s2);
    var (orgTable, s4) :- TakeName(s3);
    var (name, s5) :- TakeName(s4);
    var (orgName, s6) :- TakeName(s5);
    var f := Field(catalog, schema, table, orgTable, name, orgName, 0, 0, 0, 0, 0);
    if s6 == [] then Parsed(f, s6) else TakeColumnNumbers(f, s6)
  }

  lemma TakeNameInverse(name: blob, rest: bytes)
    ensures TakeName(LenencBytes(name) + rest) == Parsed(name, rest)
  {
    TakeLenencBytesInverse(name, rest);
  }

  lemma ColumnNumbersInverse(f: Field, g: Field)
    requires f == g.(characterSet := 0, columnLength := 0, columnType := 0, flags := 0, decimals := 0)
    ensures TakeColumnNumbers(f, ColumnNumbers(g)) == Parsed(g, LittleEndian(0, 2))
  {
    hide LittleEndian;
    assert g.characterSet < Pow256(2) && g.columnLength < Pow256(4) && g.flags < Pow256(2) by { Pow256Values(); }
    var s5 := LittleEndian(0, 2);
    var s4 := [g.decimals] + s5;
    var s3 := LittleEndian(g.flags, 2) + s4;
    var s2 := [g.columnType] + s3;
    var s1 := LittleEndian(g.columnLength, 4) + s2;
    var s0 := LittleEndian(g.characterSet, 2) + s1;
    TakeBytesInverse([0x0c], s0);
    TakeLEInverse(g.characterSet, 2, s1);
    TakeLEInverse(g.columnLength, 4, s2);
    TakeBytesInverse([g.columnType], s3);
    TakeLEInverse(g.flags, 2, s4);
    TakeBytesInverse([g.decimals], s5);
  }

  lemma ColumnRoundTrip(field: Field)
    ensures ParseColumn(ColumnPayload(field)) == Parsed(Normalise(field), LittleEndian(0, 2))
  {
    hide LenencBytes, TakeName, TakeColumnNumbers, LittleEndian, Normalise;
    var f := Normalise(field);
    var s6 := ColumnNumbers(f);
    var s5 := LenencBytes(f.orgName) + s6;
    var s4 := LenencBytes(f.name) + s5;
    var s3 := LenencBytes(f.orgTable) + s4;
    var s2 := LenencBytes(f.table) + s3;
    var s1 := LenencBytes(f.schema) + s2;
    TakeNameInverse(f.catalog, s1);
    TakeNameInverse(f.schema, s2);
    TakeNameInverse(f.table, s3);
    TakeNameInverse(f.orgTable, s4);
    TakeNameInverse(f.name, s5);
    TakeNameInverse(f.orgName, s6);
    var blank := Field(f.catalog, f.schema, f.table, f.orgTable, f.name, f.orgName, 0, 0, 0, 0, 0);
    ColumnNumbersInverse(blank, f);
    assert s6 != [];
  }

  // ------------------------------------------------------------------ rows

  /** A row as the client gets it: exactly one value for every field. */
  function Padded(row: Row, count: nat): (r: Row)
    ensures |r| == count
    ensures forall i :: 0 <= i < count ==> r[i] == if i < |row| then row[i] else Null
  {
    seq(count, i requires 0 <= i => if i < |row| then row[i] else Null)
  }

  function CellBytes(cell: Cell): (s: bytes)
    ensures s != [] && s[0] != 0xff
    ensures s[0] == 0xfe ==> |s| >= 9
  {
    if cell.Null? then [0xfb] else LenencBytes(cell.value)
  }

  /** The payload of a padded row. */
  function RowPayload(row: Row): bytes {
    if row == [] then [] else CellBytes(row[0]) + RowPayload(row[1..])
  }

  /** `parse_text_row_view`, and `parse_text_row` before type conversion. */
  function ParseRow(s: bytes, count: nat): Parsed<Row>
    decreases count
  {
    if count == 0 then Parsed([], s)
    else
      var (value, rest) :- TakeLenencBytes(s);
      var (others, tail) :- ParseRow(rest, count - 1);
      Parsed([if value.None? then Null else Text(value.value)] + others, tail)
  }

  lemma TakeCell(cell: Cell, rest: bytes)
    ensures TakeLenencBytes(CellBytes(cell) + rest) ==
      Parsed(if cell.Null? then None else Some(cell.value), rest)
  {
    if cell.Null? {
      assert ([0xfb] + rest)[1..] == rest;
    } else {
      TakeLenencBytesInverse(cell.value, rest);
    }
  }

  lemma {:induction false} RowRoundTrip(row: Row, rest: bytes)
    ensures ParseRow(RowPayload(row) + rest, |row|) == Parsed(row, rest)
  {
    hide CellBytes, TakeLenencBytes;
    if row == [] {
      assert [] + rest == rest;
    } else {
      var more := RowPayload(row[1..]) + rest;
      Concat3(CellBytes(row[0]), RowPayload(row[1..]), rest);
      TakeCell(row[0], more);
      RowRoundTrip(row[1..], rest);
      assert row == [row[0]] + row[1..];
    }
  }

  /** A row of at least one column is never taken for an ERR or EOF packet, even
      when it starts with the NULL marker or with an eight-byte length. */
  lemma RowIsNoMarker(row: Row)
    requires row != []
    ensures !IsErr(RowPayload(row)) && !IsEof(RowPayload(row))
  {
    assert RowPayload(row)[0] == CellBytes(row[0])[0];
  }

  lemma {:induction false} RowPayloadSnoc(row: Row, cell: Cell)
    ensures RowPayload(row + [cell]) == RowPayload(row) + CellBytes(cell)
  {
    hide CellBytes;
    if row == [] {
      assert [cell][1..] == [];
      assert CellBytes(cell) + [] == CellBytes(cell);
    } else {
      RowPayloadSnoc(row[1..], cell);
      assert (row + [cell])[1..] == row[1..] + [cell];
    }
  }

  /** `build_text_row_payload` */
  method BuildTextRow(row: Row, count: nat) returns (payload: bytes)
    ensures payload == RowPayload(Padded(row, count))
  {
    hide CellBytes, RowPayload;
    payload := [];
    assert RowPayload([]) == [] by { EmptyRow(); }
    for i := 0 to count
      invariant payload == RowPayload(Padded(row, count)[..i])
    {
      var cell := if i < |row| then row[i] else Null;
      RowPayloadSnoc(Padded(row, count)[..i], cell);
      assert Padded(row, count)[..i + 1] == Padded(row, count)[..i] + [cell];
      payload := payload + CellBytes(cell);
    }
    assert Padded(row, count)[..count] == Padded(row, count);
  }

  lemma EmptyRow()
    ensures RowPayload([]) == []
  {
  }

  /** `parse_text_row_view`: the loop over the cursor. */
  method ParseTextRow(payload: bytes, count: nat) returns (r: Result<Row, ()>)
    ensures r.Err? <==> ParseRow(payload, count).Malformed?
    ensures r.Ok? ==> ParseRow(payload, count).value == r.value && |r.value| == count
  {
    var cursor := new PacketCursor(payload);
    var row: Row := [];
    hide TakeLenencBytes, ParseRow;
    PrependedNothing(ParseRow(payload, count));
    for i := 0 to count
      invariant cursor.Valid() && |row| == i
      invariant ParseRow(payload, count) == Prepended(row, ParseRow(cursor.Rest(), count - i))
    {
      ParseRowStep(cursor.Rest(), count - i);
      var value := cursor.ReadLenencBytes();
      if value.Err? {
        return Err(());
      }
      var cell := if value.value.None? then Null else Text(value.value.value);
      PrependedTwice(row, cell, ParseRow(cursor.Rest(), count - i - 1));
      row := row + [cell];
    }
    ParseNoCells(cursor.Rest());
    assert row + [] == row;
    r := Ok(row);
  }

  lemma ParseNoCells(s: bytes)
    ensures ParseRow(s, 0) == Parsed([], s)
  {
  }

  lemma ParseRowStep(s: bytes, count: nat)
    requires count > 0
    ensures ParseRow(s, count) ==
      match TakeLenencBytes(s)
      case Malformed => Malformed
      case Parsed(value, rest) =>
        Prepended([if value.None? then Null else Text(value.value)], ParseRow(rest, count - 1))
  {
  }

  // ---------------------------------------------------------- result sets

  function Columns(fields: seq<Field>): (s: seq<bytes>)
    ensures |s| == |fields|
    ensures forall i :: 0 <= i < |fields| ==> s[i] == ColumnPayload(fields[i])
  {
    seq(|fields|, i requires 0 <= i < |fields| => ColumnPayload(fields[i]))
  }

  function RowPayloads(rows: seq<Row>, count: nat): (s: seq<bytes>)
    ensures |s| == |rows|
    ensures forall i :: 0 <= i < |rows| ==> s[i] == RowPayload(Padded(rows[i], count))
  {
    seq(|rows|, i requires 0 <= i < |rows| => RowPayload(Padded(rows[i], count)))
  }

  /** The packets of a text result set. */
  function TextResult(rows: seq<Row>, fields: seq<Field>): seq<bytes>
    requires |fields| < U64
  {
    [Lenenc(|fields|)] + Columns(fields) + [EofPayload(0, 2)] + RowPayloads(rows, |fields|) + [EofPayload(0, 2)]
  }

  /** `build_text_result_packets`: the bytes on the wire are the framed packets
      under one running sequence id. */
  method BuildTextResultPackets(rows: seq<Row>, fields: seq<Field>, first: byte) returns (out: bytes)
    requires |fields| < U64
    ensures out == Wire(Numbered(TextResult(rows, fields), first))
  {
    hide Numbered, NumberAfter, Wire, Frames, ColumnPayload, EofPayload, RowPayload;
    ghost var done: seq<bytes> := [];
    var id := first;
    out := [];
    assert Wire(Numbered(done, first)) == [] && NumberAfter(done, first) == first by { NothingWritten(first); }
    out, id := AppendNumbered(out, Lenenc(|fields|), id, done, first);
    done := done + [Lenenc(|fields|)];
    ghost var head := done;
    for i := 0 to |fields|
      invariant done == head + Columns(fields)[..i]
      invariant out == Wire(Numbered(done, first)) && id == NumberAfter(done, first)
    {
      out, id := AppendNumbered(out, ColumnPayload(fields[i]), id, done, first);
      done := done + [ColumnPayload(fields[i])];
    }
    out, id := AppendNumbered(out, EofPayload(0, 2), id, done, first);
    done := done + [EofPayload(0, 2)];
    head := done;
    for i := 0 to |rows|
      invariant done == head + RowPayloads(rows, |fields|)[..i]
      invariant out == Wire(Numbered(done, first)) && id == NumberAfter(done, first)
    {
      var payload := BuildTextRow(rows[i], |fields|);
      out, id := AppendNumbered(out, payload, id, done, first);
      done := done + [payload];
    }
    out, id := AppendNumbered(out, EofPayload(0, 2), id, done, first);
    done := done + [EofPayload(0, 2)];
    assert done == TextResult(rows, fields);
  }

  lemma NothingWritten(first: byte)
    ensures Wire(Numbered([], first)) == [] && NumberAfter([], first) == first
  {
  }

  method AppendNumbered(out0: bytes, payload: bytes, id0: byte, ghost done: seq<bytes>, ghost first: byte)
    returns (out: bytes, id: byte)
    requires out0 == Wire(Numbered(done, first)) && id0 == NumberAfter(done, first)
    ensures out == Wire(Numbered(done + [payload], first)) && id == NumberAfter(done + [payload], first)
  {
    out, id := AppendPacketBytes(out0, payload, id0);
    NumberedSnoc(done, payload, first);
    WireSnoc(Numbered(done, first), Packet(NumberAfter(done, first), payload));
  }
}

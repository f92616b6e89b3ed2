/** What the server writes for a text result set is what the client reads. */
module ResultRoundTrip {
  import opened Bytes
  import opened Framing
  import opened ResultSet
  import opened Responses

  function Normalised(fields: seq<Field>): (s: seq<Field>)
    ensures |s| == |fields| && forall i :: 0 <= i < |fields| ==> s[i] == Normalise(fields[i])
  {
    seq(|fields|, i requires 0 <= i < |fields| => Normalise(fields[i]))
  }

  /** The rows as the client gets them: one value for every field. */
  function PaddedRows(rows: seq<Row>, count: nat): (s: seq<Row>)
    ensures |s| == |rows| && forall i :: 0 <= i < |rows| ==> s[i] == Padded(rows[i], count)
  {
    seq(|rows|, i requires 0 <= i < |rows| => Padded(rows[i], count))
  }

  const END := EMPTY_OK.(status := 2)

  lemma EndMarker()
    ensures IsEof(EofPayload(0, 2)) && ParseEnd(EofPayload(0, 2)) == Parsed(END, [])
    ensures !HasFlag(END.status, MORE_RESULTS) && !HasFlag(END.status, CURSOR_EXISTS)
  {
    EofRoundTrip(0, 2);
  }

  lemma {:induction false} ColumnsRead(fields: seq<Field>, rest: seq<bytes>)
    ensures ReadColumns(Columns(fields) + rest, |fields|) == Read(Ok(Normalised(fields)), rest)
  {
    hide ParseColumn, ColumnPayload, Normalise;
    if fields == [] {
      assert Columns(fields) + rest == rest;
    } else {
      var inbox := Columns(fields) + rest;
      assert inbox[0] == ColumnPayload(fields[0]);
      assert inbox[1..] == Columns(fields[1..]) + rest;
      ColumnRoundTrip(fields[0]);
      ColumnsRead(fields[1..], rest);
      assert Normalised(fields) == [Normalise(fields[0])] + Normalised(fields[1..]);
    }
  }

  /** A padded row is read back as it is and is no marker. */
  lemma RowRead(row: Row, count: nat)
    requires count >= 1
    ensures var p := RowPayload(Padded(row, count));
      !IsErr(p) && !IsEof(p) && ParseRow(p, count) == Parsed(Padded(row, count), [])
  {
    var r := Padded(row, count);
    RowIsNoMarker(r);
    RowRoundTrip(r, []);
    assert RowPayload(r) + [] == RowPayload(r);
  }

  lemma {:induction false} RowsRead(rows: seq<Row>, count: nat, rest: seq<bytes>)
    requires count >= 1
    ensures ReadRows(RowPayloads(rows, count) + ([EofPayload(0, 2)] + rest), count)
         == Read(Ok((PaddedRows(rows, count), END)), rest)
    ensures ScanRows(RowPayloads(rows, count) + ([EofPayload(0, 2)] + rest), count, None)
         == RawScan.RawScan(PaddedRows(rows, count), Ok(()), rest, false)
  {
    hide ParseRow, RowPayload, ParseEnd, EofPayload, Padded;
    var inbox := RowPayloads(rows, count) + ([EofPayload(0, 2)] + rest);
    EndMarker();
    if rows == [] {
      assert inbox == [EofPayload(0, 2)] + rest && inbox[1..] == rest;
    } else {
      assert inbox[0] == RowPayload(Padded(rows[0], count));
      assert inbox[1..] == RowPayloads(rows[1..], count) + ([EofPayload(0, 2)] + rest);
      RowRead(rows[0], count);
      RowsRead(rows[1..], count, rest);
      assert PaddedRows(rows, count) == [Padded(rows[0], count)] + PaddedRows(rows[1..], count);
    }
  }

  lemma HeaderRead(count: nat, rest: seq<bytes>)
    requires 1 <= count < U64
    ensures ColumnCount(Lenenc(count)) == Some(count)
    ensures ReadHead([Lenenc(count)] + rest) == ReadHeader(rest, count)
  {
    TakeLenencInverse(count, []);
    assert Lenenc(count) + [] == Lenenc(count);
    assert ([Lenenc(count)] + rest)[1..] == rest;
  }

  lemma TextResultParts(rows: seq<Row>, fields: seq<Field>, rest: seq<bytes>)
    requires |fields| < U64
    ensures TextResult(rows, fields) + rest ==
      [Lenenc(|fields|)] + (Columns(fields) + ([EofPayload(0, 2)] +
        (RowPayloads(rows, |fields|) + ([EofPayload(0, 2)] + rest))))
  {
  }

  lemma HeadRead(fields: seq<Field>, rest: seq<bytes>)
    requires 1 <= |fields| < U64
    ensures ReadHead([Lenenc(|fields|)] + (Columns(fields) + ([EofPayload(0, 2)] + rest)))
         == Read(Ok(Header(Normalised(fields), END)), rest)
  {
    var tail := [EofPayload(0, 2)] + rest;
    EndMarker();
    HeaderRead(|fields|, Columns(fields) + tail);
    ColumnsRead(fields, tail);
    hide ReadHead, ReadColumns, Columns, Lenenc, EofPayload, ParseEnd, Normalised;
    assert tail[0] == EofPayload(0, 2) && tail[1..] == rest;
  }

  /** For every result set with at least one field, reading undoes writing: the
      fields come back with their defaults filled in, every row padded or cut to
      the number of fields, and what follows in the packet stream is untouched. */
  lemma TextResultRoundTrip(rows: seq<Row>, fields: seq<Field>, rest: seq<bytes>)
    requires 1 <= |fields| < U64
    ensures ReadResult(TextResult(rows, fields) + rest)
         == Read(Ok(QueryResult(END, Normalised(fields), PaddedRows(rows, |fields|))), rest)
    ensures ReadRaw(TextResult(rows, fields) + rest, None)
         == RawScan.RawScan(PaddedRows(rows, |fields|), Ok(()), rest, false)
  {
    var afterHead := RowPayloads(rows, |fields|) + ([EofPayload(0, 2)] + rest);
    EndMarker();
    TextResultParts(rows, fields, rest);
    HeadRead(fields, afterHead);
    RowsRead(rows, |fields|, rest);
    hide ReadHead, ReadRows, ScanRows, TextResult, Columns, Lenenc, EofPayload, RowPayloads, Normalised, PaddedRows;
  }

  /** With no fields the header is an OK packet: the client sees no result set at
      all, and stops with the two end markers unread. */
  lemma NoFieldsNoRoundTrip(rows: seq<Row>, rest: seq<bytes>)
    ensures ReadResult(TextResult(rows, []) + rest).result.Err?
    ensures |ReadResult(TextResult(rows, []) + rest).rest| == |rest| + |rows| + 2
  {
    var inbox := TextResult(rows, []) + rest;
    TextResultParts(rows, [], rest);
    assert Lenenc(0) == [0];
    assert inbox[0] == [0];
    assert [0][1..] == [];
    assert ParseOk([0]).Malformed?;
  }

  /** From the bytes the server writes to the result the client returns. */
  lemma ServerToClient(rows: seq<Row>, fields: seq<Field>, first: byte, rest: bytes)
    requires 1 <= |fields| < U64
    ensures var payloads := TextResult(rows, fields);
      var packets := Numbered(payloads, first);
      && Unwire(Wire(packets) + rest, |payloads|) == Parsed(packets, rest)
      && (forall i :: 0 <= i < |payloads| ==> packets[i].payload == payloads[i])
      && ReadResult(payloads) == Read(Ok(QueryResult(END, Normalised(fields), PaddedRows(rows, |fields|))), [])
  {
    var payloads := TextResult(rows, fields);
    UnwireInverse(Numbered(payloads, first), rest);
    TextResultRoundTrip(rows, fields, []);
    assert payloads + [] == payloads;
    hide Unwire, Wire, ReadResult, TextResult;
  }

  /** The reply is well-formed in the sense that the synchronisation results need. */
  lemma TextResultWellFormed(rows: seq<Row>, fields: seq<Field>)
    requires 1 <= |fields| < U64
    ensures var reply := [RowsShape(Lenenc(|fields|), Columns(fields), EofPayload(0, 2),
                                    RowPayloads(rows, |fields|), EofPayload(0, 2))];
      WellFormed(reply) && ReplyPackets(reply) == TextResult(rows, fields)
  {
    var shape := RowsShape(Lenenc(|fields|), Columns(fields), EofPayload(0, 2), RowPayloads(rows, |fields|), EofPayload(0, 2));
    EndMarker();
    HeaderRead(|fields|, []);
    forall i | 0 <= i < |fields| ensures !IsErr(Columns(fields)[i]) && ParseColumn(Columns(fields)[i]).Parsed? {
      ColumnRoundTrip(fields[i]);
    }
    forall i | 0 <= i < |rows| ensures GoodRow(RowPayloads(rows, |fields|)[i], |fields|) {
      RowRead(rows[i], |fields|);
    }
    hide ParseColumn, ParseRow, ColumnCount, EofPayload, Lenenc, ParseEnd, ColumnPayload, RowPayload;
    assert shape.Valid();
    TextResultParts(rows, fields, []);
    assert TextResult(rows, fields) + [] == TextResult(rows, fields);
    assert ReplyPackets([shape]) == shape.Packets() + [];
  }
}

/** The parser of table map and row events, and the table maps it remembers. */
module BinlogParser {
  import opened Bytes
  import opened Bitmaps
  import opened RowsEvent
  import opened TableColumns

  const TABLE_MAP: byte := 19
  const WRITE_ROWS_V1: byte := 23
  const UPDATE_ROWS_V1: byte := 24
  const DELETE_ROWS_V1: byte := 25
  const WRITE_ROWS_V2: byte := 30
  const UPDATE_ROWS_V2: byte := 31
  const DELETE_ROWS_V2: byte := 32

  predicate IsUpdate(eventType: byte) {
    eventType == UPDATE_ROWS_V1 || eventType == UPDATE_ROWS_V2
  }

  predicate IsDelete(eventType: byte) {
    eventType == DELETE_ROWS_V1 || eventType == DELETE_ROWS_V2
  }

  predicate IsV2(eventType: byte) {
    eventType == WRITE_ROWS_V2 || eventType == UPDATE_ROWS_V2 || eventType == DELETE_ROWS_V2
  }

  predicate IsRows(eventType: byte) {
    eventType == WRITE_ROWS_V1 || eventType == UPDATE_ROWS_V1 || eventType == DELETE_ROWS_V1 || IsV2(eventType)
  }

  /** `bitmap_byte_length` of a count from the wire; the sum wraps at 64 bits. */
  function BitmapBytes(count: nat): nat {
    (count + 7) % U64 / 8
  }

  // -------------------------------------------------------------- table maps

  function TakeOneMetadata(s: bytes, columnType: byte): Parsed<u16> {
    Pow256Values();
    var (n, rest) :- TakeLE(s, MetadataWidth(columnType));
    Parsed(n, rest)
  }

  /** `parse_table_map_metadata` */
  function TakeMetadata(s: bytes, types: seq<byte>): (r: Parsed<seq<u16>>)
    ensures r.Parsed? ==> |r.value| == |types|
  {
    if types == [] then Parsed([], s)
    else
      var (first, s1) :- TakeOneMetadata(s, types[0]);
      var (others, rest) :- TakeMetadata(s1, types[1..]);
      Parsed([first] + others, rest)
  }

  /** A name with its length in front and a terminator behind. */
  function TakeName(s: bytes): Parsed<bytes> {
    var (length, s1) :- TakeLE(s, 1);
    var (name, s2) :- TakeBytes(s1, length);
    var (_, rest) :- TakeLE(s2, 1);
    Parsed(name, rest)
  }

  /** The columns of a table map: types, metadata and the bitmap of columns that may
      be NULL. */
  function TakeTableColumns(s: bytes): Parsed<(seq<byte>, seq<u16>, bytes)> {
    var (columns, s1) :- TakeLenenc(s);
    var (types, s2) :- TakeBytes(s1, ValueOr(columns));
    var (length, s3) :- TakeLenenc(s2);
    var (metadataBytes, s4) :- TakeBytes(s3, ValueOr(length));
    var (metadata, _) :- TakeMetadata(metadataBytes, types);
    var (nullBitmap, rest) :- TakeBytes(s4, BitmapBytes(ValueOr(columns)));
    Parsed((types, metadata, nullBitmap), rest)
  }

  /** `parse_table_map_event_body` */
  function TakeTableMap(body: bytes): Parsed<(nat, TableMap)> {
    Pow256Values();
    var (id, s1) :- TakeLE(body, 6);
    var (flags, s2) :- TakeLE(s1, 2);
    var (schema, s3) :- TakeName(s2);
    var (table, s4) :- TakeName(s3);
    var (columns, rest) :- TakeTableColumns(s4);
    Parsed((id, TableMap(schema, table, flags, columns.0, columns.1, columns.2)), rest)
  }

  // -------------------------------------------------------------- row events

  datatype RowsHead = RowsHead(id: nat, flags: nat, present: bytes, presentAfter: bytes)

  function TakeExtraData(s: bytes, eventType: byte): Parsed<()> {
    if !IsV2(eventType) then Parsed((), s)
    else
      var (length, s1) :- TakeLE(s, 2);
      if length <= 2 then Parsed((), s1)
      else
        var (_, rest) :- TakeBytes(s1, length - 2);
        Parsed((), rest)
  }

  function TakeRowsHead(body: bytes, eventType: byte): Parsed<RowsHead> {
    var (id, s1) :- TakeLE(body, 6);
    var (flags, s2) :- TakeLE(s1, 2);
    var (_, s3) :- TakeExtraData(s2, eventType);
    var (columns, s4) :- TakeLenenc(s3);
    var (present, s5) :- TakeBytes(s4, BitmapBytes(ValueOr(columns)));
    var (after, rest) :- TakeBytes(s5, if IsUpdate(eventType) then BitmapBytes(ValueOr(columns)) else 0);
    Parsed(RowsHead(id, flags, present, after), rest)
  }

  function LayoutOf(eventType: byte, head: RowsHead): Layout {
    Layout(IsUpdate(eventType) || IsDelete(eventType), !IsDelete(eventType),
           head.present, if IsUpdate(eventType) then head.presentAfter else head.present)
  }

  /** What parsing an event gives; rows of an unknown table stay undecoded. */
  datatype Outcome =
    | Mapped(id: nat)
    | Decoded(head: RowsHead, table: TableMap, rows: Rows)
    | Undecoded(head: RowsHead)
    | Ignored
    | Failed

  /** `parse_rows_event_body` with the remembered table maps. */
  function RowsOutcome(body: bytes, eventType: byte, tables: map<nat, TableMap>): Outcome {
    match TakeRowsHead(body, eventType)
    case Malformed => Failed
    case Parsed(head, rest) =>
      if head.id !in tables then Undecoded(head)
      else Decoded(head, tables[head.id], TakeRows(rest, tables[head.id], LayoutOf(eventType, head)))
  }

  datatype Event = Event(eventType: byte, body: bytes)

  function TablesAfterOne(tables: map<nat, TableMap>, e: Event): map<nat, TableMap> {
    if e.eventType != TABLE_MAP then tables
    else
      match TakeTableMap(e.body)
      case Malformed => tables
      case Parsed(entry, _) => tables[entry.0 := entry.1]
  }

  function OutcomeOf(tables: map<nat, TableMap>, e: Event): Outcome {
    if e.eventType == TABLE_MAP then
      match TakeTableMap(e.body)
      case Malformed => Failed
      case Parsed(entry, _) => Mapped(entry.0)
    else if IsRows(e.eventType) then RowsOutcome(e.body, e.eventType, tables)
    else Ignored
  }

  // ------------------------------------------------------ runs of the parser

  function TablesAfter(events: seq<Event>): map<nat, TableMap> {
    if events == [] then map[]
    else TablesAfterOne(TablesAfter(events[..|events| - 1]), events[|events| - 1])
  }

  /** The event is a table map for `id` that can be parsed. */
  predicate Maps(e: Event, id: nat) {
    e.eventType == TABLE_MAP && TakeTableMap(e.body).Parsed? && TakeTableMap(e.body).value.0 == id
  }

  /** `at` is the last event that maps `id`. */
  predicate LastMap(events: seq<Event>, id: nat, at: nat) {
    at < |events| && Maps(events[at], id) && forall i :: at < i < |events| ==> !Maps(events[i], id)
  }

  /** Over any sequence of events: a table is known exactly when some event mapped it,
      and then as the last such event described it. */
  lemma {:induction false} TablesAreLatest(events: seq<Event>, id: nat)
    ensures id in TablesAfter(events) <==> exists i :: 0 <= i < |events| && Maps(events[i], id)
    ensures forall at: nat :: LastMap(events, id, at) ==>
                id in TablesAfter(events) && TablesAfter(events)[id] == TakeTableMap(events[at].body).value.1
  {
    hide TakeTableMap;
    if events != [] {
      var n := |events| - 1;
      var front, last := events[..n], events[n];
      TablesAreLatest(front, id);
      assert forall i :: 0 <= i < n ==> front[i] == events[i];
      forall at: nat | LastMap(events, id, at)
        ensures id in TablesAfter(events) && TablesAfter(events)[id] == TakeTableMap(events[at].body).value.1
      {
        if at < n {
          assert LastMap(front, id, at);
          assert !Maps(last, id);
        }
      }
      if exists i :: 0 <= i < |events| && Maps(events[i], id) {
        var i :| 0 <= i < |events| && Maps(events[i], id);
        assert i < n ==> Maps(front[i], id);
      }
    }
  }

  /** The rows of an event are decoded with the latest map of its table, and left
      undecoded when there is none. */
  lemma RowsUseLatestMap(events: seq<Event>, e: Event, at: nat)
    requires IsRows(e.eventType)
    ensures TakeRowsHead(e.body, e.eventType).Parsed? ==>
              var id := TakeRowsHead(e.body, e.eventType).value.id;
              var outcome := OutcomeOf(TablesAfter(events), e);
              && (LastMap(events, id, at) ==> outcome.Decoded? && outcome.table == TakeTableMap(events[at].body).value.1)
              && ((forall i :: 0 <= i < |events| ==> !Maps(events[i], id)) <==> outcome.Undecoded?)
  {
    hide TakeRowsHead, TakeTableMap, TablesAfter, TakeRows;
    if TakeRowsHead(e.body, e.eventType).Parsed? {
      TablesAreLatest(events, TakeRowsHead(e.body, e.eventType).value.id);
    }
  }

  // ------------------------------------------------- events as they are sent

  function NameBytes(name: bytes): bytes {
    LittleEndian(|name|, 1) + (name + [0])
  }

  /** A table as it is declared. */
  datatype Declared = Declared(
    schema: bytes, table: bytes, flags: u16, columns: seq<Column>, nullBitmap: bytes)
  {
    predicate Valid() {
      forall i :: 0 <= i < |columns| ==> columns[i].Valid()
    }

    function Types(): (types: seq<byte>)
      ensures |types| == |columns|
    {
      seq(|columns|, i requires 0 <= i < |columns| => columns[i].Type())
    }

    function Metadata(): (metadata: seq<u16>)
      requires Valid()
      ensures |metadata| == |columns|
    {
      seq(|columns|, i requires 0 <= i < |columns| => columns[i].Seen())
    }

    /** What the parser remembers of it. */
    function Seen(): TableMap
      requires Valid()
    {
      TableMap(schema, table, flags, Types(), Metadata(), nullBitmap)
    }
  }

  function MetadataBytes(columns: seq<Column>): bytes
    requires forall i :: 0 <= i < |columns| ==> columns[i].Valid()
  {
    if columns == [] then [] else columns[0].Sent() + MetadataBytes(columns[1..])
  }

  /** A table whose parts fit the fields they are sent in. */
  predicate Sendable(id: nat, t: Declared) {
    && id < 0x1_0000_0000_0000 && |t.schema| < 0x100 && |t.table| < 0x100
    && |t.columns| < U64 - 7 && |t.nullBitmap| == ByteLength(|t.columns|)
    && t.Valid() && |MetadataBytes(t.columns)| < U64
  }

  function ColumnsBytes(t: Declared): bytes
    requires t.Valid() && |t.columns| < U64 && |MetadataBytes(t.columns)| < U64
  {
    var metadata := MetadataBytes(t.columns);
    Lenenc(|t.columns|) + (t.Types() + (Lenenc(|metadata|) + (metadata + t.nullBitmap)))
  }

  function TableMapBody(id: nat, t: Declared): bytes
    requires Sendable(id, t)
  {
    LittleEndian(id, 6) + (LittleEndian(t.flags, 2) + (NameBytes(t.schema) + (NameBytes(t.table) + ColumnsBytes(t))))
  }

  lemma {:induction false} MetadataExact(t: Declared, columns: seq<Column>, rest: bytes)
    requires t.columns == columns && t.Valid()
    ensures TakeMetadata(MetadataBytes(columns) + rest, t.Types()) == Parsed(t.Metadata(), rest)
    decreases |columns|
  {
    hide TakeLE, LittleEndian, MetadataWidth, Pow256;
    if columns == [] {
      assert [] + rest == rest;
    } else {
      var c, others := columns[0], t.(columns := columns[1..]);
      var more := MetadataBytes(columns[1..]);
      SeenExact(c);
      Concat3(c.Sent(), more, rest);
      TakeLEInverse(c.Seen(), MetadataWidth(c.Type()), more + rest);
      MetadataExact(others, columns[1..], rest);
      assert t.Types()[1..] == others.Types();
      assert t.Metadata() == [c.Seen()] + others.Metadata();
    }
  }

  lemma NameExact(name: bytes, rest: bytes)
    requires |name| < 0x100
    ensures TakeName(NameBytes(name) + rest) == Parsed(name, rest)
  {
    hide TakeLE, LittleEndian, TakeBytes;
    Pow256Values();
    Concat3(LittleEndian(|name|, 1), name + [0], rest);
    Concat3(name, [0], rest);
    TakeLEInverse(|name|, 1, name + ([0] + rest));
    TakeBytesInverse(name, [0] + rest);
    Terminator(rest);
  }

  lemma Terminator(rest: bytes)
    ensures TakeLE([0] + rest, 1) == Parsed(0, rest)
  {
    assert ([0] + rest)[..1] == [0] && ([0] + rest)[1..] == rest;
  }

  lemma ColumnsExact(id: nat, t: Declared)
    requires Sendable(id, t)
    ensures TakeTableColumns(ColumnsBytes(t)) == Parsed((t.Types(), t.Metadata(), t.nullBitmap), [])
  {
    hide TakeLenenc, Lenenc, TakeBytes, TakeMetadata, MetadataBytes, Declared.Types, Declared.Metadata;
    var metadata, types := MetadataBytes(t.columns), t.Types();
    TakeLenencInverse(|types|, types + (Lenenc(|metadata|) + (metadata + t.nullBitmap)));
    TakeBytesInverse(types, Lenenc(|metadata|) + (metadata + t.nullBitmap));
    TakeLenencInverse(|metadata|, metadata + t.nullBitmap);
    TakeBytesInverse(metadata, t.nullBitmap);
    MetadataExact(t, t.columns, []);
    assert metadata + [] == metadata;
    TakeBytesInverse(t.nullBitmap, []);
    assert t.nullBitmap + [] == t.nullBitmap;
  }

  /** Every table map is parsed to its table, with the metadata bytes of each column
      taken for one little-endian number. */
  lemma TableMapRoundTrip(id: nat, t: Declared)
    requires Sendable(id, t)
    ensures TakeTableMap(TableMapBody(id, t)) == Parsed((id, t.Seen()), [])
  {
    hide TakeLE, LittleEndian, TakeName, NameBytes, TakeTableColumns, ColumnsBytes, Declared.Types, Declared.Metadata;
    Pow256Values();
    var s4 := ColumnsBytes(t);
    var s3 := NameBytes(t.table) + s4;
    var s2 := NameBytes(t.schema) + s3;
    var s1 := LittleEndian(t.flags, 2) + s2;
    TakeLEInverse(id, 6, s1);
    TakeLEInverse(t.flags, 2, s2);
    NameExact(t.schema, s3);
    NameExact(t.table, s4);
    ColumnsExact(id, t);
  }

  /** The head of a rows event; version 2 has extra data with its own length in front. */
  function HeadBytes(head: RowsHead, eventType: byte, columns: nat, extra: bytes): bytes
    requires columns < U64
  {
    LittleEndian(head.id, 6) + (LittleEndian(head.flags, 2)
      + (ExtraBytes(eventType, extra) + (Lenenc(columns) + (head.present + head.presentAfter))))
  }

  function ExtraBytes(eventType: byte, extra: bytes): bytes {
    if IsV2(eventType) then LittleEndian(|extra| + 2, 2) + extra else []
  }

  predicate SendableHead(head: RowsHead, eventType: byte, columns: nat, extra: bytes) {
    && head.id < 0x1_0000_0000_0000 && head.flags < 0x1_0000 && columns < U64 - 7 && |extra| < 0xfffe
    && |head.present| == ByteLength(columns)
    && |head.presentAfter| == (if IsUpdate(eventType) then ByteLength(columns) else 0)
  }

  lemma ExtraExact(eventType: byte, extra: bytes, rest: bytes)
    requires |extra| < 0xfffe
    ensures TakeExtraData(ExtraBytes(eventType, extra) + rest, eventType) == Parsed((), rest)
  {
    hide TakeLE, LittleEndian;
    if IsV2(eventType) {
      Pow256Values();
      Concat3(LittleEndian(|extra| + 2, 2), extra, rest);
      TakeLEInverse(|extra| + 2, 2, extra + rest);
      TakeBytesInverse(extra, rest);
      assert extra == [] ==> extra + rest == rest;
    } else {
      assert [] + rest == rest;
    }
  }

  lemma HeadRoundTrip(head: RowsHead, eventType: byte, columns: nat, extra: bytes, rest: bytes)
    requires SendableHead(head, eventType, columns, extra)
    ensures TakeRowsHead(HeadBytes(head, eventType, columns, extra) + rest, eventType) == Parsed(head, rest)
  {
    hide TakeLE, LittleEndian, TakeExtraData, ExtraBytes, TakeLenenc, Lenenc, TakeBytes;
    Pow256Values();
    var id, flags, more, count :=
      LittleEndian(head.id, 6), LittleEndian(head.flags, 2), ExtraBytes(eventType, extra), Lenenc(columns);
    var s5 := head.presentAfter + rest;
    var s4 := head.present + s5;
    var s3 := count + s4;
    var s2 := more + s3;
    assert HeadBytes(head, eventType, columns, extra) + rest == id + (flags + s2);
    TakeLEInverse(head.id, 6, flags + s2);
    TakeLEInverse(head.flags, 2, s2);
    ExtraExact(eventType, extra, s3);
    TakeLenencInverse(columns, s4);
    TakeBytesInverse(head.present, s5);
    TakeBytesInverse(head.presentAfter, rest);
  }

  /** The last map of the table, among the events before, was sent for `t`. */
  predicate MappedAs(events: seq<Event>, at: nat, id: nat, t: Declared) {
    Sendable(id, t) && LastMap(events, id, at) && events[at].body == TableMapBody(id, t)
  }

  /** A rows event was sent with this head for these rows of `t`. */
  ghost predicate SentFor(head: RowsHead, eventType: byte, columns: nat, extra: bytes, t: TableMap, rows: seq<Row>) {
    && IsRows(eventType) && SendableHead(head, eventType, columns, extra) && Selects(t, LayoutOf(eventType, head))
    && forall i :: 0 <= i < |rows| ==> ValidRow(rows[i], t, LayoutOf(eventType, head))
  }

  /** From the log to the rows: whatever events came before, if the last map of the
      table was sent for `t`, a rows event sent for `rows`, whose values are in a form
      that the parser reads with the metadata it has seen, is decoded to exactly those
      rows, columns and raw images. */
  lemma RowsEventExact(events: seq<Event>, at: nat, t: Declared, head: RowsHead, eventType: byte,
                       columns: nat, extra: bytes, rows: seq<Row>)
    requires columns < U64 && t.Valid()
    ensures var layout := LayoutOf(eventType, head);
      MappedAs(events, at, head.id, t) && SentFor(head, eventType, columns, extra, t.Seen(), rows) ==>
        OutcomeOf(TablesAfter(events), Event(eventType, HeadBytes(head, eventType, columns, extra) + RowsBytes(rows, layout)))
        == Decoded(head, t.Seen(), Rows(ChangesOf(rows, layout)))
  {
    hide TakeRowsHead, HeadBytes, TakeTableMap, TableMapBody, TablesAfter, TakeRows, RowsBytes, ChangesOf,
      ValidRow, Selects, Sendable, SendableHead, Declared.Seen, Declared.Valid;
    if MappedAs(events, at, head.id, t) && SentFor(head, eventType, columns, extra, t.Seen(), rows) {
      TablesAreLatest(events, head.id);
      TableMapRoundTrip(head.id, t);
      HeadRoundTrip(head, eventType, columns, extra, RowsBytes(rows, LayoutOf(eventType, head)));
      RowsExact(rows, t.Seen(), LayoutOf(eventType, head));
    }
  }

  /** The first image of `body` holds a value of the DECIMAL column `j`, with digits
      in front of the point. */
  ghost predicate HoldsDecimal(t: Declared, layout: Layout, body: bytes, j: nat) {
    var present := if layout.hasBefore then layout.present else layout.presentAfter;
    var nulls := TakeBytes(body, ByteLength(SetCount(present, |t.columns|)));
    && j < |t.columns| && t.columns[j].DecimalColumn? && t.columns[j].scale < t.columns[j].precision
    && HasBit(present, j) && nulls.Parsed? && !HasBit(nulls.value, SetCount(present, j))
  }

  lemma DecimalBlocks(t: Declared, present: bytes, nulls: bytes, j: nat)
    requires t.Valid() && j < |t.columns| && t.columns[j].DecimalColumn? && t.columns[j].scale < t.columns[j].precision
    requires HasBit(present, j) && !HasBit(nulls, SetCount(present, j))
    ensures Blocks(t.Seen(), present, nulls, j)
  {
    hide HasBit, SetCount;
    DecimalReadable(t.columns[j].precision, t.columns[j].scale);
  }

  /** With one such value no row of the event is decoded, however the other columns
      and rows are sent. */
  lemma DecimalBreaksEvent(events: seq<Event>, at: nat, t: Declared, head: RowsHead, eventType: byte,
                           columns: nat, extra: bytes, body: bytes, j: nat)
    requires columns < U64 && t.Valid() && IsRows(eventType) && body != []
    ensures var sent := MappedAs(events, at, head.id, t) && SendableHead(head, eventType, columns, extra);
      var e := Event(eventType, HeadBytes(head, eventType, columns, extra) + body);
      sent && HoldsDecimal(t, LayoutOf(eventType, head), body, j) ==>
        OutcomeOf(TablesAfter(events), e) == Decoded(head, t.Seen(), Broken)
  {
    hide TakeRowsHead, HeadBytes, TakeTableMap, TableMapBody, TablesAfter, TakeRows, Sendable, SendableHead,
      HasBit, SetCount, TakeBytes, Blocks, ByteLength, Declared.Valid;
    var layout := LayoutOf(eventType, head);
    if MappedAs(events, at, head.id, t) && SendableHead(head, eventType, columns, extra) && HoldsDecimal(t, layout, body, j) {
      TablesAreLatest(events, head.id);
      TableMapRoundTrip(head.id, t);
      HeadRoundTrip(head, eventType, columns, extra, body);
      var present := if layout.hasBefore then layout.present else layout.presentAfter;
      DecimalBlocks(t, present, TakeBytes(body, ByteLength(SetCount(present, |t.columns|))).value, j);
      BlockedRows(body, t.Seen(), layout, j);
    }
  }

  // --------------------------------------------------------------- the parser

  method ReadName(cursor: PacketCursor) returns (r: Result<bytes, ()>)
    requires cursor.Valid()
    modifies cursor`offset
    ensures cursor.Valid() && old(cursor.offset) <= cursor.offset
    ensures r.Err? <==> TakeName(old(cursor.Rest())).Malformed?
    ensures r.Ok? ==> TakeName(old(cursor.Rest())) == Parsed(r.value, cursor.Rest())
  {
    hide TakeLE, TakeBytes;
    var length :- cursor.ReadLE(1);
    var name :- cursor.ReadBuffer(length);
    var _ :- cursor.ReadLE(1);
    r := Ok(name);
  }

  /** The types are read one by one. */
  method ReadTypes(cursor: PacketCursor, count: nat) returns (r: Result<seq<byte>, ()>)
    requires cursor.Valid()
    modifies cursor`offset
    ensures cursor.Valid() && old(cursor.offset) <= cursor.offset
    ensures r.Err? <==> TakeBytes(old(cursor.Rest()), count).Malformed?
    ensures r.Ok? ==> TakeBytes(old(cursor.Rest()), count) == Parsed(r.value, cursor.Rest())
  {
    var types: seq<byte> := [];
    ghost var start, s := cursor.offset, cursor.Rest();
    for i := 0 to count
      invariant cursor.Valid() && cursor.offset == start + i
      invariant types == cursor.payload[start..start + i]
    {
      var one := cursor.ReadBuffer(1);
      if one.Err? {
        return Err(());
      }
      types := types + one.value;
    }
    assert s[..count] == types && s[count..] == cursor.Rest();
    r := Ok(types);
  }

  method ParseMetadata(types: seq<byte>, metadata: bytes) returns (r: Result<seq<u16>, ()>)
    ensures r.Err? <==> TakeMetadata(metadata, types).Malformed?
    ensures r.Ok? ==> r.value == TakeMetadata(metadata, types).value
  {
    hide TakeOneMetadata;
    var cursor := new PacketCursor(metadata);
    var out: seq<u16> := [];
    ghost var all := TakeMetadata(metadata, types);
    for i := 0 to |types|
      invariant cursor.Valid()
      invariant all.Parsed? <==> TakeMetadata(cursor.Rest(), types[i..]).Parsed?
      invariant all.Parsed? ==> all.value == out + TakeMetadata(cursor.Rest(), types[i..]).value
    {
      assert types[i..][1..] == types[i + 1..];
      ghost var s := cursor.Rest();
      var one := ReadOneMetadata(cursor, types[i]);
      if one.Err? {
        return Err(());
      }
      out := out + [one.value];
    }
    r := Ok(out);
  }

  method ReadOneMetadata(cursor: PacketCursor, columnType: byte) returns (r: Result<u16, ()>)
    requires cursor.Valid()
    modifies cursor`offset
    ensures cursor.Valid() && old(cursor.offset) <= cursor.offset
    ensures r.Err? <==> TakeOneMetadata(old(cursor.Rest()), columnType).Malformed?
    ensures r.Ok? ==> TakeOneMetadata(old(cursor.Rest()), columnType) == Parsed(r.value, cursor.Rest())
  {
    Pow256Values();
    var n :- cursor.ReadLE(MetadataWidth(columnType));
    r := Ok(n);
  }

  method ReadTableColumns(cursor: PacketCursor) returns (r: Result<(seq<byte>, seq<u16>, bytes), ()>)
    requires cursor.Valid()
    modifies cursor`offset
    ensures cursor.Valid() && old(cursor.offset) <= cursor.offset
    ensures r.Err? <==> TakeTableColumns(old(cursor.Rest())).Malformed?
    ensures r.Ok? ==> TakeTableColumns(old(cursor.Rest())) == Parsed(r.value, cursor.Rest())
  {
    hide TakeLenenc, TakeBytes, TakeMetadata, BitmapBytes;
    var columns :- cursor.ReadLenenc();
    var types :- ReadTypes(cursor, ValueOr(columns));
    var length :- cursor.ReadLenenc();
    var metadataBytes :- cursor.ReadBuffer(ValueOr(length));
    var metadata :- ParseMetadata(types, metadataBytes);
    var nullBitmap :- cursor.ReadBuffer(BitmapBytes(ValueOr(columns)));
    r := Ok((types, metadata, nullBitmap));
  }

  method ReadTableMap(cursor: PacketCursor) returns (r: Result<(nat, TableMap), ()>)
    requires cursor.Valid()
    modifies cursor`offset
    ensures cursor.Valid()
    ensures r.Err? <==> TakeTableMap(old(cursor.Rest())).Malformed?
    ensures r.Ok? ==> TakeTableMap(old(cursor.Rest())) == Parsed(r.value, cursor.Rest())
  {
    hide TakeLE, TakeName, TakeTableColumns;
    Pow256Values();
    var id :- cursor.ReadLE(6);
    var flags :- cursor.ReadLE(2);
    var schema :- ReadName(cursor);
    var table :- ReadName(cursor);
    var columns :- ReadTableColumns(cursor);
    r := Ok((id, TableMap(schema, table, flags, columns.0, columns.1, columns.2)));
  }

  method ReadRowsHead(cursor: PacketCursor, eventType: byte) returns (r: Result<RowsHead, ()>)
    requires cursor.Valid()
    modifies cursor`offset
    ensures cursor.Valid()
    ensures r.Err? <==> TakeRowsHead(old(cursor.Rest()), eventType).Malformed?
    ensures r.Ok? ==> TakeRowsHead(old(cursor.Rest()), eventType) == Parsed(r.value, cursor.Rest())
  {
    hide TakeLE, TakeLenenc, BitmapBytes;
    var id :- cursor.ReadLE(6);
    var flags :- cursor.ReadLE(2);
    if IsV2(eventType) {
      var length :- cursor.ReadLE(2);
      if length > 2 {
        var _ :- cursor.ReadBuffer(length - 2);
      }
    }
    var columns :- cursor.ReadLenenc();
    var present :- cursor.ReadBuffer(BitmapBytes(ValueOr(columns)));
    var presentAfter: bytes := [];
    if IsUpdate(eventType) {
      presentAfter :- cursor.ReadBuffer(BitmapBytes(ValueOr(columns)));
    } else {
      assert cursor.Rest()[..0] == [] && cursor.Rest()[0..] == cursor.Rest();
    }
    r := Ok(RowsHead(id, flags, present, presentAfter));
  }

  /** `BinlogParserState` and the event dispatch that uses it; `seen` is every event
      parsed so far. */
  class Parser {
    var tables: map<nat, TableMap>
    ghost var seen: seq<Event>

    ghost predicate Valid()
      reads this
    {
      tables == TablesAfter(seen)
    }

    constructor ()
      ensures Valid() && seen == []
    {
      tables := map[];
      seen := [];
    }

    method ParseBody(e: Event) returns (outcome: Outcome)
      requires Valid()
      modifies this
      ensures Valid() && seen == old(seen) + [e]
      ensures outcome == OutcomeOf(TablesAfter(old(seen)), e)
    {
      hide TakeTableMap, TakeRowsHead, TakeRows;
      seen := seen + [e];
      assert seen[..|seen| - 1] == old(seen);
      var cursor := new PacketCursor(e.body);
      if e.eventType == TABLE_MAP {
        var entry := ReadTableMap(cursor);
        if entry.Err? {
          return Failed;
        }
        tables := tables[entry.value.0 := entry.value.1];
        return Mapped(entry.value.0);
      }
      if !IsRows(e.eventType) {
        return Ignored;
      }
      var head := ReadRowsHead(cursor, e.eventType);
      if head.Err? {
        return Failed;
      }
      if head.value.id !in tables {
        return Undecoded(head.value);
      }
      var table := tables[head.value.id];
      var rows := ReadRows(cursor, table, LayoutOf(e.eventType, head.value));
      outcome := Decoded(head.value, table, rows);
    }
  }
}

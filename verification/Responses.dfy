/** How the client reads the packets of a reply: result sets, raw scans and row
    streams, each as a function on the packets still to be read. */
module Responses {
  import opened Bytes
  import opened ResultSet

  datatype Failure =
    | ServerFailed(error: ServerError)
    | BadPacket
    | NoPacket
    | InfileRequested
    | ManyResults
    | CallbackThrew

  /** What a reading operation gives and the packets it leaves unread. */
  datatype Read<+T> = Read(result: Result<T, Failure>, rest: seq<bytes>)

  datatype QueryResult = QueryResult(ok: OkPacket, fields: seq<Field>, rows: seq<Row>)

  function ErrorOf(payload: bytes): Failure {
    match ParseErr(payload)
    case Malformed => BadPacket
    case Parsed(e, _) => ServerFailed(e)
  }

  predicate More(ok: OkPacket) {
    HasFlag(ok.status, MORE_RESULTS)
  }

  // ------------------------------------------------- the packets before rows

  /** The column definitions; an ERR packet among them ends the reply. */
  function ReadColumns(inbox: seq<bytes>, count: nat): (r: Read<seq<Field>>)
    ensures |r.rest| <= |inbox|
    ensures r.result.Ok? ==> |r.result.value| == count
    decreases count
  {
    if count == 0 then Read(Ok([]), inbox)
    else if inbox == [] then Read(Err(NoPacket), [])
    else if IsErr(inbox[0]) then Read(Err(ErrorOf(inbox[0])), inbox[1..])
    else
      match ParseColumn(inbox[0])
      case Malformed => Read(Err(BadPacket), inbox[1..])
      case Parsed(field, _) =>
        var others := ReadColumns(inbox[1..], count - 1);
        match others.result
        case Err(e) => Read(Err(e), others.rest)
        case Ok(fields) => Read(Ok([field] + fields), others.rest)
  }

  /** How a result begins: with an OK packet, or with columns and their end. */
  datatype Head = Done(payload: bytes) | Header(fields: seq<Field>, end: OkPacket)

  function ReadHead(inbox: seq<bytes>): (r: Read<Head>)
    ensures |r.rest| <= |inbox|
    ensures r.result.Ok? ==> |r.rest| < |inbox|
  {
    if inbox == [] then Read(Err(NoPacket), [])
    else
      var first, rest := inbox[0], inbox[1..];
      if IsErr(first) then Read(Err(ErrorOf(first)), rest)
      else if IsOk(first) then Read(Ok(Done(first)), rest)
      else if IsLocalInfile(first) then Read(Err(InfileRequested), rest)
      else
        match TakeLenenc(first)
        case Malformed => Read(Err(BadPacket), rest)
        case Parsed(None, _) => Read(Err(BadPacket), rest)
        case Parsed(Some(count), _) => ReadHeader(rest, count)
  }

  function ReadHeader(inbox: seq<bytes>, count: nat): (r: Read<Head>)
    ensures |r.rest| <= |inbox|
    ensures r.result.Ok? ==> r.result.value.Header?
  {
    var columns := ReadColumns(inbox, count);
    match columns.result
    case Err(e) => Read(Err(e), columns.rest)
    case Ok(fields) =>
      if columns.rest == [] then Read(Err(NoPacket), [])
      else
        var end, rest := columns.rest[0], columns.rest[1..];
        if !IsEof(end) && !IsOk(end) then Read(Err(BadPacket), rest)
        else
          match ParseEnd(end)
          case Malformed => Read(Err(BadPacket), rest)
          case Parsed(ok, _) => Read(Ok(Header(fields, ok)), rest)
  }

  // ------------------------------------------------------------ whole results

  function ReadRows(inbox: seq<bytes>, count: nat): (r: Read<(seq<Row>, OkPacket)>)
    ensures |r.rest| <= |inbox|
    decreases |inbox|
  {
    if inbox == [] then Read(Err(NoPacket), [])
    else
      var first, rest := inbox[0], inbox[1..];
      if IsErr(first) then Read(Err(ErrorOf(first)), rest)
      else if IsEof(first) then
        match ParseEnd(first)
        case Malformed => Read(Err(BadPacket), rest)
        case Parsed(ok, _) => Read(Ok(([], ok)), rest)
      else
        match ParseRow(first, count)
        case Malformed => Read(Err(BadPacket), rest)
        case Parsed(row, _) => PrependRead(row, ReadRows(rest, count))
  }

  function PrependRead(row: Row, r: Read<(seq<Row>, OkPacket)>): (p: Read<(seq<Row>, OkPacket)>)
    ensures p.rest == r.rest && (p.result.Ok? <==> r.result.Ok?)
  {
    match r.result
    case Err(_) => r
    case Ok((rows, ok)) => Read(Ok(([row] + rows, ok)), r.rest)
  }

  /** `read_query_result` of the text protocol. */
  function ReadResult(inbox: seq<bytes>): (r: Read<QueryResult>)
    ensures |r.rest| <= |inbox|
    ensures r.result.Ok? ==> |r.rest| < |inbox|
  {
    var head := ReadHead(inbox);
    match head.result
    case Err(e) => Read(Err(e), head.rest)
    case Ok(Done(payload)) => (
      match ParseOk(payload)
      case Malformed => Read(Err(BadPacket), head.rest)
      case Parsed(ok, _) => Read(Ok(QueryResult(ok, [], [])), head.rest))
    case Ok(Header(fields, end)) =>
      if HasFlag(end.status, CURSOR_EXISTS) then Read(Ok(QueryResult(end, fields, [])), head.rest)
      else
        var rows := ReadRows(head.rest, |fields|);
        match rows.result
        case Err(e) => Read(Err(e), rows.rest)
        case Ok((values, ok)) => Read(Ok(QueryResult(ok, fields, values)), rows.rest)
  }

  /** `read_query_results`, and `drain_remaining_query_results` whose results are
      thrown away. */
  function ReadResults(inbox: seq<bytes>): (r: Read<seq<QueryResult>>)
    ensures |r.rest| <= |inbox|
    ensures r.result.Ok? ==> |r.result.value| >= 1
    decreases |inbox|
  {
    var one := ReadResult(inbox);
    match one.result
    case Err(e) => Read(Err(e), one.rest)
    case Ok(q) =>
      if !More(q.ok) then Read(Ok([q]), one.rest)
      else PrependResults([q], ReadResults(one.rest))
  }

  function PrependResults(front: seq<QueryResult>, r: Read<seq<QueryResult>>): (p: Read<seq<QueryResult>>)
    ensures p.rest == r.rest && (p.result.Ok? <==> r.result.Ok?)
  {
    match r.result
    case Err(_) => r
    case Ok(results) => Read(Ok(front + results), r.rest)
  }

  /** `query`: more or fewer than one result is an error, found out afterwards. */
  function ReadSingle(inbox: seq<bytes>): Read<QueryResult> {
    var r := ReadResults(inbox);
    match r.result
    case Err(e) => Read(Err(e), r.rest)
    case Ok(results) => if |results| == 1 then Read(Ok(results[0]), r.rest) else Read(Err(ManyResults), r.rest)
  }

  // --------------------------------------------------------------- raw scans

  /** What a raw scan does: the rows shown to the callback, how it ends, the
      packets left, and whether it closed the transport. */
  datatype RawScan = RawScan(rows: seq<Row>, result: Result<(), Failure>, rest: seq<bytes>, closed: bool)

  /** The row loop; the callback throws on the row numbered `throwAt`, if any. */
  function ScanRows(inbox: seq<bytes>, count: nat, throwAt: Option<nat>): RawScan
    decreases |inbox|
  {
    if inbox == [] then RawScan([], Err(NoPacket), [], false)
    else
      var first, rest := inbox[0], inbox[1..];
      if IsErr(first) then RawScan([], Err(ErrorOf(first)), rest, false)
      else if IsEof(first) then
        match ParseEnd(first)
        case Malformed => RawScan([], Err(BadPacket), rest, false)
        case Parsed(ok, _) => ScanEnd(ok, rest)
      else
        match ParseRow(first, count)
        case Malformed => RawScan([], Err(BadPacket), rest, false)
        case Parsed(row, _) =>
          if throwAt == Some(0) then RawScan([row], Err(CallbackThrew), [], true)
          else
            PrependScan([row], ScanRows(rest, count, OneFewer(throwAt)))
  }

  function OneFewer(n: Option<nat>): Option<nat> {
    match n
    case None => None
    case Some(k) => if k == 0 then None else Some(k - 1)
  }

  function PrependScan(front: seq<Row>, r: RawScan): RawScan {
    r.(rows := front + r.rows)
  }

  /** Further results are drained and reported as an error. */
  function ScanEnd(ok: OkPacket, rest: seq<bytes>): RawScan {
    if !More(ok) then RawScan([], Ok(()), rest, false)
    else
      var drained := ReadResults(rest);
      RawScan([], Err(if drained.result.Err? then drained.result.error else ManyResults), drained.rest, false)
  }

  /** `read_query_result_raw`. A reply that begins with an OK packet ends the scan
      at once, whatever its status flags say. */
  function ReadRaw(inbox: seq<bytes>, throwAt: Option<nat>): RawScan {
    var head := ReadHead(inbox);
    match head.result
    case Err(e) => RawScan([], Err(e), head.rest, false)
    case Ok(Done(_)) => RawScan([], Ok(()), head.rest, false)
    case Ok(Header(fields, end)) =>
      if HasFlag(end.status, CURSOR_EXISTS) then RawScan([], Ok(()), head.rest, false)
      else ScanRows(head.rest, |fields|, throwAt)
  }

  // ------------------------------------------------------------- row streams

  /** `open_query_stream`: `None` is a stream that has already ended. */
  function ReadStreamHead(inbox: seq<bytes>): Read<Option<seq<Field>>> {
    var head := ReadHead(inbox);
    match head.result
    case Err(e) => Read(Err(e), head.rest)
    case Ok(Done(payload)) => Read(if ParseOk(payload).Malformed? then Err(BadPacket) else Ok(None), head.rest)
    case Ok(Header(fields, end)) =>
      Read(Ok(if HasFlag(end.status, CURSOR_EXISTS) then None else Some(fields)), head.rest)
  }

  /** Whether the stream still owns the connection after a read. */
  datatype StreamState = Open | Ended | Failed(failure: Failure, finished: bool)

  datatype StreamRead = StreamRead(rows: seq<Row>, state: StreamState, rest: seq<bytes>)

  /** `read_query_stream_rows`, stopping after `limit` rows because the consumer
      asked for that many or its buffer is full. */
  function ReadStream(inbox: seq<bytes>, count: nat, limit: nat): StreamRead
    decreases limit
  {
    if limit == 0 then StreamRead([], Open, inbox)
    else if inbox == [] then StreamRead([], Failed(NoPacket, false), [])
    else
      var first, rest := inbox[0], inbox[1..];
      if IsErr(first) then StreamRead([], Failed(ErrorOf(first), true), rest)
      else if IsEof(first) then
        match ParseEnd(first)
        case Malformed => StreamRead([], Failed(BadPacket, false), rest)
        case Parsed(ok, _) => StreamEnd(ok, rest)
      else
        match ParseRow(first, count)
        case Malformed => StreamRead([], Failed(BadPacket, false), rest)
        case Parsed(row, _) => PrependStream([row], ReadStream(rest, count, limit - 1))
  }

  function PrependStream(front: seq<Row>, r: StreamRead): StreamRead {
    r.(rows := front + r.rows)
  }

  function StreamEnd(ok: OkPacket, rest: seq<bytes>): StreamRead {
    if !More(ok) then StreamRead([], Ended, rest)
    else
      var drained := ReadResults(rest);
      StreamRead([], Failed(if drained.result.Err? then drained.result.error else ManyResults, true), drained.rest)
  }

  /** `drain_active_query_stream`: an error means it threw, and then the caller
      closes the transport. */
  function DrainStream(inbox: seq<bytes>): Read<()>
    decreases |inbox|
  {
    if inbox == [] then Read(Err(NoPacket), [])
    else
      var first, rest := inbox[0], inbox[1..];
      if IsErr(first) then Read(if ParseErr(first).Malformed? then Err(BadPacket) else Ok(()), rest)
      else if IsEof(first) then
        match ParseEnd(first)
        case Malformed => Read(Err(BadPacket), rest)
        case Parsed(ok, _) => DrainEnd(ok, rest)
      else DrainStream(rest)
  }

  function DrainEnd(ok: OkPacket, rest: seq<bytes>): Read<()> {
    if !More(ok) then Read(Ok(()), rest)
    else
      var drained := ReadResults(rest);
      Read(if drained.result.Err? then Err(drained.result.error) else Ok(()), drained.rest)
  }

  // ------------------------------------------------------- well-formed replies

  /** One result of a reply as the packets a server may send for it. */
  datatype Shape =
    | OkShape(ok: bytes)
    | RowsShape(header: bytes, columns: seq<bytes>, columnsEnd: bytes, rows: seq<bytes>, rowsEnd: bytes)
    | ErrAtOnce(err: bytes)
    | ErrInColumns(header: bytes, columns: seq<bytes>, err: bytes)
    | ErrInRows(header: bytes, columns: seq<bytes>, columnsEnd: bytes, rows: seq<bytes>, err: bytes)
  {
    predicate IsError() {
      ErrAtOnce? || ErrInColumns? || ErrInRows?
    }

    function Packets(): (s: seq<bytes>)
      ensures s != []
    {
      match this
      case OkShape(ok) => [ok]
      case RowsShape(header, columns, columnsEnd, rows, rowsEnd) => [header] + (columns + ([columnsEnd] + (rows + [rowsEnd])))
      case ErrAtOnce(err) => [err]
      case ErrInColumns(header, columns, err) => [header] + (columns + [err])
      case ErrInRows(header, columns, columnsEnd, rows, err) => [header] + (columns + ([columnsEnd] + (rows + [err])))
    }

    /** Packets that say what they are. */
    predicate Valid() {
      match this
      case OkShape(ok) => IsOk(ok) && ParseOk(ok).Parsed?
      case RowsShape(header, columns, columnsEnd, rows, rowsEnd) =>
        && GoodHeader(header, |columns|) && GoodColumns(columns) && GoodColumnsEnd(columnsEnd)
        && GoodRows(rows, |columns|) && IsEof(rowsEnd)
      case ErrAtOnce(err) => GoodErr(err)
      case ErrInColumns(header, columns, err) =>
        && ColumnCount(header).Some? && |columns| <= ColumnCount(header).value
        && GoodColumns(columns) && GoodErr(err)
      case ErrInRows(header, columns, columnsEnd, rows, err) =>
        && GoodHeader(header, |columns|) && GoodColumns(columns) && GoodColumnsEnd(columnsEnd)
        && GoodRows(rows, |columns|) && GoodErr(err)
    }

    /** Whether another result follows. */
    predicate HasMore(): (more: bool)
      ensures IsError() ==> !more
    {
      match this
      case OkShape(ok) => ParseOk(ok).Parsed? && More(ParseOk(ok).value)
      case RowsShape(_, _, _, _, rowsEnd) => ParseEnd(rowsEnd).Parsed? && More(ParseEnd(rowsEnd).value)
      case _ => false
    }
  }

  /** The number of columns that a result header announces. */
  function ColumnCount(header: bytes): Option<nat> {
    if IsErr(header) || IsOk(header) || IsLocalInfile(header) then None
    else
      match TakeLenenc(header)
      case Malformed => None
      case Parsed(count, _) => count
  }

  predicate GoodHeader(header: bytes, count: nat) {
    ColumnCount(header) == Some(count)
  }

  predicate GoodColumns(columns: seq<bytes>) {
    forall i :: 0 <= i < |columns| ==> !IsErr(columns[i]) && ParseColumn(columns[i]).Parsed?
  }

  predicate GoodColumnsEnd(p: bytes) {
    (IsEof(p) || IsOk(p)) && ParseEnd(p).Parsed? && !HasFlag(ParseEnd(p).value.status, CURSOR_EXISTS)
  }

  predicate GoodRow(p: bytes, count: nat) {
    !IsErr(p) && !IsEof(p) && ParseRow(p, count).Parsed?
  }

  predicate GoodRows(rows: seq<bytes>, count: nat) {
    forall i :: 0 <= i < |rows| ==> GoodRow(rows[i], count)
  }

  /** The columns and rows that packets stand for. */
  function FieldsOf(columns: seq<bytes>): (s: seq<Field>)
    requires GoodColumns(columns)
    ensures |s| == |columns| && forall i :: 0 <= i < |s| ==> s[i] == ParseColumn(columns[i]).value
  {
    seq(|columns|, i requires 0 <= i < |columns| => ParseColumn(columns[i]).value)
  }

  function RowsOf(rows: seq<bytes>, count: nat): (s: seq<Row>)
    requires GoodRows(rows, count)
    ensures |s| == |rows| && forall i :: 0 <= i < |s| ==> s[i] == ParseRow(rows[i], count).value
  {
    seq(|rows|, i requires 0 <= i < |rows| => assert GoodRow(rows[i], count); ParseRow(rows[i], count).value)
  }

  /** The result that a shape without an error stands for. */
  function ResultOf(shape: Shape): QueryResult
    requires shape.Valid() && !shape.IsError()
  {
    match shape
    case OkShape(ok) => QueryResult(ParseOk(ok).value, [], [])
    case RowsShape(_, columns, _, rows, rowsEnd) =>
      QueryResult(ParseEnd(rowsEnd).value, FieldsOf(columns), RowsOf(rows, |columns|))
  }

  predicate GoodErr(p: bytes) {
    IsErr(p) && ParseErr(p).Parsed?
  }

  /** A reply: results that announce each other, and then either a last one that
      announces none or an error. */
  predicate WellFormed(reply: seq<Shape>)
    decreases |reply|
  {
    && reply != []
    && reply[0].Valid()
    && reply[0].HasMore() == (|reply| > 1)
    && (|reply| > 1 ==> WellFormed(reply[1..]))
  }

  function ReplyPackets(reply: seq<Shape>): (s: seq<bytes>)
    ensures reply != [] ==> s != []
  {
    if reply == [] then [] else reply[0].Packets() + ReplyPackets(reply[1..])
  }

  /** Whether a well-formed reply ends in an error. */
  predicate EndsInError(reply: seq<Shape>) {
    reply != [] && reply[|reply| - 1].IsError()
  }

  lemma Join(front: seq<bytes>, p: bytes, tail: seq<bytes>)
    ensures (front + ([p] + tail))[..|front|] == front
    ensures ([p] + tail)[0] == p && ([p] + tail)[1..] == tail
  {
  }

  lemma {:induction false} ColumnsExact(columns: seq<bytes>, count: nat, rest: seq<bytes>)
    requires GoodColumns(columns) && |columns| <= count
    ensures |columns| == count ==> ReadColumns(columns + rest, count) == Read(Ok(FieldsOf(columns)), rest)
    ensures |columns| < count && rest != [] && IsErr(rest[0]) ==>
      ReadColumns(columns + rest, count).result.Err? && ReadColumns(columns + rest, count).rest == rest[1..]
  {
    hide ParseColumn, ErrorOf;
    if columns == [] {
      assert columns + rest == rest;
    } else {
      assert (columns + rest)[0] == columns[0] && (columns + rest)[1..] == columns[1..] + rest;
      ColumnsExact(columns[1..], count - 1, rest);
      assert FieldsOf(columns) == [ParseColumn(columns[0]).value] + FieldsOf(columns[1..]);
    }
  }

  lemma HeadExact(header: bytes, columns: seq<bytes>, end: bytes, rest: seq<bytes>)
    requires ColumnCount(header).Some? && |columns| <= ColumnCount(header).value && GoodColumns(columns)
    requires IsErr(end) || (GoodColumnsEnd(end) && |columns| == ColumnCount(header).value)
    ensures var r := ReadHead([header] + (columns + ([end] + rest)));
      && r.rest == rest
      && (IsErr(end) ==> r.result.Err?)
      && (!IsErr(end) ==>
            r.result == Ok(Header(FieldsOf(columns), ParseEnd(end).value)))
  {
    hide ReadColumns, ParseColumn, ParseEnd, ParseErr, TakeLenenc;
    var tail := columns + ([end] + rest);
    assert ([header] + tail)[0] == header && ([header] + tail)[1..] == tail;
    ColumnsExact(columns, ColumnCount(header).value, [end] + rest);
    assert ([end] + rest)[0] == end && ([end] + rest)[1..] == rest;
  }

  lemma {:induction false} RowsExact(rows: seq<bytes>, count: nat, end: bytes, rest: seq<bytes>)
    requires GoodRows(rows, count) && (IsErr(end) || IsEof(end))
    ensures var r := ReadRows(rows + ([end] + rest), count);
      && r.rest == rest
      && (IsErr(end) ==> r.result.Err?)
      && (IsEof(end) ==> r.result == Ok((RowsOf(rows, count), ParseEnd(end).value)))
  {
    hide ParseRow, ParseErr;
    var inbox := rows + ([end] + rest);
    if rows == [] {
      assert inbox == [end] + rest && inbox[1..] == rest;
    } else {
      assert inbox[0] == rows[0] && inbox[1..] == rows[1..] + ([end] + rest);
      assert GoodRow(rows[0], count);
      RowsExact(rows[1..], count, end, rest);
      assert RowsOf(rows, count) == [ParseRow(rows[0], count).value] + RowsOf(rows[1..], count);
    }
  }

  lemma ShortHead(first: bytes, rest: seq<bytes>)
    requires IsOk(first) || IsErr(first)
    ensures var r := ReadHead([first] + rest);
      && r.rest == rest
      && (if IsOk(first) then r.result == Ok(Done(first)) else r.result.Err?)
  {
    hide ParseErr;
    assert ([first] + rest)[1..] == rest;
  }

  /** Reading a result consumes exactly its own packets and gives what they stand
      for. */
  lemma ResultExact(shape: Shape, rest: seq<bytes>)
    requires shape.Valid()
    ensures var r := ReadResult(shape.Packets() + rest);
      && r.rest == rest
      && (r.result.Err? <==> shape.IsError())
      && (r.result.Ok? ==> r.result.value == ResultOf(shape) && More(r.result.value.ok) == shape.HasMore())
  {
    hide ReadRows, ReadHead, ParseEnd, ParseErr, ParseOk, ColumnCount, GoodColumns, GoodRows, GoodColumnsEnd;
    match shape
    case OkShape(ok) =>
      ShortHead(ok, rest);
    case ErrAtOnce(err) =>
      ShortHead(err, rest);
    case ErrInColumns(header, columns, err) =>
      Nest([header], columns, [err], rest);
      HeadExact(header, columns, err, rest);
    case RowsShape(header, columns, columnsEnd, rows, rowsEnd) =>
      RowsAfterHead(header, columns, columnsEnd, rows, rowsEnd, rest);
    case ErrInRows(header, columns, columnsEnd, rows, err) =>
      RowsAfterHead(header, columns, columnsEnd, rows, err, rest);
  }

  lemma RowsAfterHead(header: bytes, columns: seq<bytes>, columnsEnd: bytes, rows: seq<bytes>, end: bytes, rest: seq<bytes>)
    requires GoodHeader(header, |columns|) && GoodColumns(columns) && GoodColumnsEnd(columnsEnd)
    requires GoodRows(rows, |columns|) && (GoodErr(end) || IsEof(end))
    ensures var inbox := [header] + (columns + ([columnsEnd] + (rows + [end]))) + rest;
      && inbox == [header] + (columns + ([columnsEnd] + (rows + ([end] + rest))))
      && ReadHead(inbox).result.Ok? && ReadHead(inbox).result.value.Header?
      && ReadHead(inbox).result.value.fields == FieldsOf(columns)
      && !HasFlag(ReadHead(inbox).result.value.end.status, CURSOR_EXISTS)
      && ReadHead(inbox).rest == rows + ([end] + rest)
      && ReadResult(inbox).rest == rest
      && (IsErr(end) ==> ReadResult(inbox).result.Err?)
      && (IsEof(end) ==>
        ReadResult(inbox).result == Ok(QueryResult(ParseEnd(end).value, FieldsOf(columns), RowsOf(rows, |columns|))))
  {
    hide ReadHead, ReadRows, ParseEnd, ParseErr, ColumnCount, GoodColumns, GoodRows;
    var inbox := [header] + (columns + ([columnsEnd] + (rows + [end]))) + rest;
    assert inbox == [header] + (columns + ([columnsEnd] + (rows + ([end] + rest))));
    HeadExact(header, columns, columnsEnd, rows + ([end] + rest));
    RowsExact(rows, |columns|, end, rest);
  }

  /** The results that a reply without an error stands for. */
  ghost predicate Stands(results: seq<QueryResult>, reply: seq<Shape>) {
    && |results| == |reply|
    && forall i :: 0 <= i < |reply| ==>
      reply[i].Valid() && !reply[i].IsError() && results[i] == ResultOf(reply[i])
  }

  /** `query_all` on a well-formed reply consumes exactly its packets, gives the
      results that the reply stands for, and fails exactly when the reply does. */
  lemma {:induction false} ResultsExact(reply: seq<Shape>, rest: seq<bytes>)
    requires WellFormed(reply)
    ensures var r := ReadResults(ReplyPackets(reply) + rest);
      && r.rest == rest
      && (r.result.Err? <==> EndsInError(reply))
      && (r.result.Ok? ==> Stands(r.result.value, reply))
    decreases |reply|
  {
    hide ReadResult, More, Shape.Valid, Shape.HasMore, Shape.Packets, ResultOf;
    var others := ReplyPackets(reply[1..]) + rest;
    assert ReplyPackets(reply) + rest == reply[0].Packets() + others;
    ResultExact(reply[0], others);
    if |reply| > 1 {
      ResultsExact(reply[1..], rest);
      assert reply[1..][|reply| - 2] == reply[|reply| - 1];
    } else {
      assert others == rest;
    }
  }

  lemma StandsSize(results: seq<QueryResult>, reply: seq<Shape>)
    requires Stands(results, reply)
    ensures |results| == |reply|
  {
  }

  /** `query` throws on any number of results but one, after consuming them all. */
  lemma SingleExact(reply: seq<Shape>, rest: seq<bytes>)
    requires WellFormed(reply)
    ensures var r := ReadSingle(ReplyPackets(reply) + rest);
      && r.rest == rest
      && (r.result.Ok? <==> |reply| == 1 && !EndsInError(reply))
      && (r.result.Ok? ==> Stands([r.result.value], reply))
      && (|reply| != 1 && !EndsInError(reply) ==> r.result == Err(ManyResults))
  {
    ResultsExact(reply, rest);
    hide ReadResults, WellFormed, ReplyPackets, Stands;
    var r := ReadResults(ReplyPackets(reply) + rest);
    if r.result.Ok? {
      StandsSize(r.result.value, reply);
      if |reply| == 1 {
        assert r.result.value == [r.result.value[0]];
      }
    }
  }

  /** A reply whose first result is an OK packet with more results behind it. */
  predicate BeginsWithOkAndMore(reply: seq<Shape>) {
    |reply| > 1 && reply[0].OkShape?
  }

  /** What is left of a row set, with the results behind it. */
  datatype Tail = Tail(rows: seq<bytes>, end: bytes, later: seq<Shape>) {
    predicate Valid(count: nat) {
      && GoodRows(rows, count)
      && (if IsErr(end) then GoodErr(end) && later == []
          else IsEof(end) && (More(ParseEnd(end).value) <==> later != []) && (later != [] ==> WellFormed(later)))
    }

    /** Its rows as the client shows them. */
    function Values(count: nat): (values: seq<Row>)
      requires Valid(count)
      ensures |values| == |rows|
    {
      RowsOf(rows, count)
    }

    /** Without its first `n` rows. */
    function Skip(n: nat): (t: Tail)
      requires n <= |rows|
      ensures n == 0 ==> t == this
    {
      assert rows[0..] == rows;
      this.(rows := rows[n..])
    }

    function Packets(): seq<bytes> {
      rows + ([end] + ReplyPackets(later))
    }
  }

  predicate BeginsWithRows(reply: seq<Shape>) {
    reply != [] && (reply[0].RowsShape? || reply[0].ErrInRows?)
  }

  /** The row part of a reply that begins with columns. */
  function TailOf(reply: seq<Shape>): Tail
    requires BeginsWithRows(reply)
  {
    Tail(reply[0].rows, if reply[0].RowsShape? then reply[0].rowsEnd else reply[0].err, reply[1..])
  }

  lemma ReplyStep(reply: seq<Shape>)
    requires WellFormed(reply)
    ensures reply[0].Valid()
    ensures ReplyPackets(reply) == reply[0].Packets() + ReplyPackets(reply[1..])
    ensures reply[0].IsError() ==> |reply| == 1 && ReplyPackets(reply[1..]) == []
  {
    hide Shape.Valid, Shape.HasMore, Shape.Packets;
  }

  lemma SplitReply(reply: seq<Shape>, rest: seq<bytes>)
    requires WellFormed(reply)
    ensures reply[0].Valid()
    ensures ReplyPackets(reply) + rest == reply[0].Packets() + (ReplyPackets(reply[1..]) + rest)
    ensures reply[0].IsError() ==> |reply| == 1 && ReplyPackets(reply[1..]) + rest == rest
  {
    ReplyStep(reply);
    hide WellFormed, Shape.Valid, Shape.HasMore, Shape.Packets, ReplyPackets;
    Nest([], reply[0].Packets(), ReplyPackets(reply[1..]), rest);
  }

  lemma Nest(a: seq<bytes>, b: seq<bytes>, c: seq<bytes>, d: seq<bytes>)
    ensures a + (b + c) + d == a + (b + (c + d))
    ensures b + c + d == b + (c + d) && [] + d == d
  {
  }

  /** The head of a reply that begins with an OK packet is that packet alone. */
  lemma HeadOfOk(reply: seq<Shape>, rest: seq<bytes>)
    requires WellFormed(reply) && reply[0].OkShape?
    ensures ReadHead(ReplyPackets(reply) + rest) == Read(Ok(Done(reply[0].ok)), ReplyPackets(reply[1..]) + rest)
    ensures ParseOk(reply[0].ok).Parsed?
  {
    SplitReply(reply, rest);
    hide ReadHead, ParseOk, WellFormed, ReplyPackets;
    ShortHead(reply[0].ok, ReplyPackets(reply[1..]) + rest);
  }

  /** The head of a reply that fails before any row is all of it. */
  lemma HeadOfError(reply: seq<Shape>, rest: seq<bytes>)
    requires WellFormed(reply) && reply[0].IsError() && !reply[0].ErrInRows?
    ensures ReadHead(ReplyPackets(reply) + rest).result.Err?
    ensures ReadHead(ReplyPackets(reply) + rest).rest == rest
  {
    SplitReply(reply, rest);
    hide ReadHead, WellFormed, ReplyPackets, ParseErr, ColumnCount, GoodColumns;
    if reply[0].ErrAtOnce? {
      ShortHead(reply[0].err, rest);
    } else {
      var ErrInColumns(header, columns, err) := reply[0];
      Nest([header], columns, [err], rest);
      HeadExact(header, columns, err, rest);
    }
  }

  /** The head of a reply that begins with columns leaves exactly its row part. */
  lemma HeadOfRows(reply: seq<Shape>, rest: seq<bytes>)
    requires WellFormed(reply) && BeginsWithRows(reply)
    ensures var head := ReadHead(ReplyPackets(reply) + rest);
      && head.result.Ok? && head.result.value.Header?
      && |head.result.value.fields| == |reply[0].columns|
      && !HasFlag(head.result.value.end.status, CURSOR_EXISTS)
      && head.rest == TailOf(reply).Packets() + rest
    ensures TailOf(reply).Valid(|reply[0].columns|)
  {
    SplitReply(reply, rest);
    TailValid(reply);
    var tail := TailOf(reply);
    hide ReadHead, ReadResult, WellFormed, ReplyPackets, ParseErr, ParseEnd, ColumnCount, GoodColumns, GoodRows,
      GoodColumnsEnd, Tail.Valid;
    var later := ReplyPackets(reply[1..]) + rest;
    RowsAfterHead(reply[0].header, reply[0].columns, reply[0].columnsEnd, tail.rows, tail.end, later);
    TailPackets(tail, rest);
  }

  lemma TailValid(reply: seq<Shape>)
    requires WellFormed(reply) && BeginsWithRows(reply)
    ensures TailOf(reply).Valid(|reply[0].columns|)
  {
    hide ParseErr, ParseEnd, ColumnCount, GoodColumns, GoodRows, GoodColumnsEnd, More;
  }

  lemma TailPackets(tail: Tail, rest: seq<bytes>)
    ensures tail.rows + ([tail.end] + (ReplyPackets(tail.later) + rest)) == tail.Packets() + rest
  {
  }

  lemma TailStep(tail: Tail, count: nat, rest: seq<bytes>)
    requires tail.Valid(count)
    ensures var inbox := tail.Packets() + rest;
      && inbox != []
      && (tail.rows == [] ==> inbox[0] == tail.end && inbox[1..] == ReplyPackets(tail.later) + rest)
      && (tail.rows != [] ==>
            && inbox[0] == tail.rows[0] && GoodRow(inbox[0], count)
            && inbox[1..] == tail.Skip(1).Packets() + rest
            && tail.Skip(1).Valid(count))
  {
    hide ParseEnd, ParseErr, ParseRow, WellFormed, More, ReplyPackets;
    TailPackets(tail, rest);
    if tail.rows == [] {
      assert [tail.end] + (ReplyPackets(tail.later) + rest) == tail.Packets() + rest;
    } else {
      var next := tail.Skip(1);
      TailPackets(next, rest);
      assert tail.Packets() + rest == [tail.rows[0]] + (next.Packets() + rest);
      assert GoodRow(tail.rows[0], count);
    }
  }

  lemma SkipTwice(tail: Tail, n: nat, k: nat)
    requires n + k <= |tail.rows|
    ensures tail.Skip(n).Skip(k) == tail.Skip(n + k)
  {
    assert tail.rows[n..][k..] == tail.rows[n + k..];
  }

  /** The end of a row set says whether results follow, and they are well-formed. */
  lemma TailEnd(tail: Tail, count: nat, rest: seq<bytes>)
    requires tail.Valid(count)
    ensures IsErr(tail.end) ==> tail.later == [] && ParseErr(tail.end).Parsed?
    ensures !IsErr(tail.end) ==> IsEof(tail.end) && (More(ParseEnd(tail.end).value) <==> tail.later != [])
    ensures tail.later != [] ==> WellFormed(tail.later)
    ensures tail.later == [] ==> ReplyPackets(tail.later) + rest == rest
  {
    hide WellFormed, ParseErr, ParseEnd, More, GoodRows;
    if tail.later == [] {
      assert ReplyPackets(tail.later) == [];
      assert [] + rest == rest;
    }
  }

  lemma TakeCons(first: Row, others: seq<Row>, n: nat)
    requires n <= |others|
    ensures ([first] + others)[..n + 1] == [first] + others[..n]
  {
  }

  lemma ValuesStep(tail: Tail, count: nat)
    requires tail.Valid(count) && tail.rows != []
    ensures tail.Skip(1).Valid(count) && ParseRow(tail.rows[0], count).Parsed?
    ensures tail.Values(count) == [ParseRow(tail.rows[0], count).value] + tail.Skip(1).Values(count)
  {
    hide ParseEnd, ParseErr, ParseRow, WellFormed, More, ReplyPackets;
    assert GoodRow(tail.rows[0], count);
  }

  lemma {:induction false} ScanExact(tail: Tail, count: nat, throwAt: Option<nat>, rest: seq<bytes>)
    requires tail.Valid(count)
    ensures var r := ScanRows(tail.Packets() + rest, count, throwAt);
      && (if throwAt.Some? && throwAt.value < |tail.rows| then
            r.closed && r.rows == tail.Values(count)[..throwAt.value + 1]
          else !r.closed && r.rest == rest && r.rows == tail.Values(count))
      && (r.result.Ok? ==> !r.closed && IsEof(tail.end) && tail.later == [])
    decreases |tail.rows|
  {
    TailStep(tail, count, rest);
    TailEnd(tail, count, rest);
    if tail.rows != [] {
      ValuesStep(tail, count);
    }
    hide ParseErr, ParseRow, ParseEnd, More, ReadResults, WellFormed, Tail.Valid, Tail.Packets, ReplyPackets, Tail.Values;
    if tail.rows == [] {
      if tail.later != [] {
        ResultsExact(tail.later, rest);
      }
    } else if throwAt != Some(0) {
      ScanExact(tail.Skip(1), count, OneFewer(throwAt), rest);
      if throwAt.Some? && throwAt.value < |tail.rows| {
        TakeCons(ParseRow(tail.rows[0], count).value, tail.Skip(1).Values(count), throwAt.value);
      }
    }
  }

  /** A raw scan leaves nothing of a well-formed reply unread, or closes the
      transport, exactly when the reply does not begin with an OK packet that
      announces more results; of such a reply it leaves everything else. */
  lemma RawExact(reply: seq<Shape>, throwAt: Option<nat>, rest: seq<bytes>)
    requires WellFormed(reply)
    ensures var r := ReadRaw(ReplyPackets(reply) + rest, throwAt);
      && (r.closed || r.rest == rest <==> !BeginsWithOkAndMore(reply))
      && (BeginsWithOkAndMore(reply) ==> r.result.Ok? && r.rest == ReplyPackets(reply[1..]) + rest)
      && (r.result.Ok? && !BeginsWithOkAndMore(reply) ==> |reply| == 1)
  {
    AfterFirst(reply, rest);
    ErrorIsLast(reply);
    hide ReadRaw, ReadHead, WellFormed, ReplyPackets;
    if reply[0].OkShape? {
      RawOk(reply, throwAt, rest);
    } else if BeginsWithRows(reply) {
      RawRows(reply, throwAt, rest);
    } else {
      RawError(reply, throwAt, rest);
    }
  }

  lemma ErrorIsLast(reply: seq<Shape>)
    requires WellFormed(reply)
    ensures reply[0].IsError() ==> |reply| == 1
  {
    hide Shape.Valid, Shape.HasMore;
  }

  lemma RawError(reply: seq<Shape>, throwAt: Option<nat>, rest: seq<bytes>)
    requires WellFormed(reply) && reply[0].IsError() && !reply[0].ErrInRows?
    ensures var r := ReadRaw(ReplyPackets(reply) + rest, throwAt);
      r.result.Err? && !r.closed && r.rest == rest && r.rows == []
  {
    HeadOfError(reply, rest);
    hide ReadHead, WellFormed, ReplyPackets;
  }

  lemma RawOk(reply: seq<Shape>, throwAt: Option<nat>, rest: seq<bytes>)
    requires WellFormed(reply) && reply[0].OkShape?
    ensures ReadRaw(ReplyPackets(reply) + rest, throwAt)
         == RawScan([], Ok(()), ReplyPackets(reply[1..]) + rest, false)
  {
    HeadOfOk(reply, rest);
    hide ReadHead, WellFormed, ReplyPackets;
  }

  lemma TailRows(reply: seq<Shape>)
    requires WellFormed(reply) && BeginsWithRows(reply)
    ensures TailOf(reply).Valid(|reply[0].columns|) && GoodRows(reply[0].rows, |reply[0].columns|)
    ensures TailOf(reply).Values(|reply[0].columns|) == RowsOf(reply[0].rows, |reply[0].columns|)
  {
    TailValid(reply);
    hide WellFormed, ReplyPackets, ParseErr, ParseEnd, GoodRows, RowsOf;
  }

  /** A raw scan of a row set shows the callback every row in turn up to the one on
      which it throws. */
  lemma RawRows(reply: seq<Shape>, throwAt: Option<nat>, rest: seq<bytes>)
    requires WellFormed(reply) && BeginsWithRows(reply)
    ensures GoodRows(reply[0].rows, |reply[0].columns|)
    ensures var r, rows := ReadRaw(ReplyPackets(reply) + rest, throwAt), RowsOf(reply[0].rows, |reply[0].columns|);
      && (if throwAt.Some? && throwAt.value < |rows| then r.closed && r.rows == rows[..throwAt.value + 1]
          else !r.closed && r.rest == rest && r.rows == rows)
      && (r.result.Ok? ==> !r.closed && |reply| == 1)
  {
    HeadOfRows(reply, rest);
    TailRows(reply);
    hide ReadHead, ScanRows, WellFormed, Tail.Valid, Tail.Packets, Tail.Values, ReplyPackets, RowsOf, GoodRows;
    ScanExact(TailOf(reply), |reply[0].columns|, throwAt, rest);
  }

  lemma AfterFirst(reply: seq<Shape>, rest: seq<bytes>)
    requires reply != []
    ensures ReplyPackets(reply[1..]) + rest == rest <==> |reply| == 1
  {
    if |reply| == 1 {
      assert ReplyPackets(reply[1..]) + rest == rest;
    } else {
      assert |ReplyPackets(reply[1..]) + rest| > |rest|;
    }
  }

  /** What reading at most `limit` rows of a row set may give. */
  ghost predicate StreamOutcome(r: StreamRead, tail: Tail, count: nat, limit: nat, rest: seq<bytes>)
    requires tail.Valid(count)
  {
    if limit <= |tail.rows| then
      && r.state.Open? && r.rows == tail.Values(count)[..limit]
      && r.rest == tail.Skip(limit).Packets() + rest && tail.Skip(limit).Valid(count)
    else
      && r.rows == tail.Values(count) && r.rest == rest
      && (if r.state.Ended? then IsEof(tail.end) && tail.later == [] else r.state.Failed? && r.state.finished)
  }

  /** Reading rows from a stream keeps the rest of the row set, or finishes the
      stream with exactly its reply consumed. */
  lemma {:induction false} StreamExact(tail: Tail, count: nat, limit: nat, rest: seq<bytes>)
    requires tail.Valid(count)
    ensures StreamOutcome(ReadStream(tail.Packets() + rest, count, limit), tail, count, limit, rest)
    decreases limit
  {
    hide ReadStream, Tail.Valid, Tail.Packets;
    if limit == 0 {
      StreamIdle(tail.Packets() + rest, count);
    } else if tail.rows == [] {
      StreamAtEnd(tail, count, limit, rest);
    } else {
      TailStep(tail, count, rest);
      ValuesStep(tail, count);
      hide Tail.Values, ParseRow;
      StreamStep(tail.Packets() + rest, count, limit);
      StreamExact(tail.Skip(1), count, limit - 1, rest);
      if limit <= |tail.rows| {
        SkipTwice(tail, 1, limit - 1);
        TakeCons(ParseRow(tail.rows[0], count).value, tail.Skip(1).Values(count), limit - 1);
      }
    }
  }

  lemma StreamIdle(inbox: seq<bytes>, count: nat)
    ensures ReadStream(inbox, count, 0) == StreamRead.StreamRead([], Open, inbox)
  {
  }

  lemma StreamStep(inbox: seq<bytes>, count: nat, limit: nat)
    requires inbox != [] && GoodRow(inbox[0], count) && limit > 0
    ensures ReadStream(inbox, count, limit)
         == PrependStream([ParseRow(inbox[0], count).value], ReadStream(inbox[1..], count, limit - 1))
  {
    hide ParseRow, ParseErr, ParseEnd, ReadResults;
  }

  lemma StreamAtEnd(tail: Tail, count: nat, limit: nat, rest: seq<bytes>)
    requires tail.Valid(count) && limit > 0 && tail.rows == []
    ensures StreamOutcome(ReadStream(tail.Packets() + rest, count, limit), tail, count, limit, rest)
  {
    TailStep(tail, count, rest);
    TailEnd(tail, count, rest);
    hide ParseErr, ParseRow, ParseEnd, More, ReadResults, WellFormed, Tail.Valid, Tail.Packets, ReplyPackets;
    if tail.later != [] {
      ResultsExact(tail.later, rest);
    }
  }

  /** A consumer that reads as many rows at a time as it likes. */
  function Gather(inbox: seq<bytes>, count: nat, limits: seq<nat>): StreamRead
    decreases |limits|
  {
    if limits == [] then StreamRead([], Open, inbox)
    else
      var first := ReadStream(inbox, count, limits[0]);
      if first.state.Open? then PrependStream(first.rows, Gather(first.rest, count, limits[1..])) else first
  }

  function Sum(limits: seq<nat>): nat {
    if limits == [] then 0 else limits[0] + Sum(limits[1..])
  }

  lemma ValuesSkip(tail: Tail, count: nat, n: nat)
    requires tail.Valid(count) && n <= |tail.rows| && tail.Skip(n).Valid(count)
    ensures tail.Values(count) == tail.Values(count)[..n] + tail.Skip(n).Values(count)
    ensures forall k :: 0 <= k <= |tail.rows| - n ==>
      tail.Values(count)[..n + k] == tail.Values(count)[..n] + tail.Skip(n).Values(count)[..k]
  {
    hide ParseEnd, ParseErr, ParseRow, WellFormed, More, ReplyPackets, GoodRows;
  }

  /** How the rows are asked for makes no difference: only the sum of the limits
      counts. */
  lemma {:induction false} GatherExact(tail: Tail, count: nat, limits: seq<nat>, rest: seq<bytes>)
    requires tail.Valid(count)
    ensures StreamOutcome(Gather(tail.Packets() + rest, count, limits), tail, count, Sum(limits), rest)
    decreases |limits|
  {
    hide ReadStream, Tail.Valid, Tail.Packets, Tail.Values;
    if limits != [] {
      StreamExact(tail, count, limits[0], rest);
      if limits[0] <= |tail.rows| {
        var next := tail.Skip(limits[0]);
        GatherExact(next, count, limits[1..], rest);
        ValuesSkip(tail, count, limits[0]);
        if Sum(limits) <= |tail.rows| {
          SkipTwice(tail, limits[0], Sum(limits[1..]));
        }
      }
    }
  }

  /** A stream that is read to the end gives the rows of the whole result. */
  lemma StreamGivesResult(reply: seq<Shape>, limits: seq<nat>, rest: seq<bytes>)
    requires WellFormed(reply) && reply[0].RowsShape? && Sum(limits) > |reply[0].rows|
    ensures var inbox := ReplyPackets(reply) + rest;
      var head := ReadStreamHead(inbox);
      && head.result.Ok? && head.result.value.Some?
      && ReadResult(inbox).result.Ok?
      && head.result.value.value == ReadResult(inbox).result.value.fields
      && Gather(head.rest, |reply[0].columns|, limits).rows == ReadResult(inbox).result.value.rows
  {
    SplitReply(reply, rest);
    HeadOfRows(reply, rest);
    TailRows(reply);
    var tail := TailOf(reply);
    GatherExact(tail, |reply[0].columns|, limits, rest);
    ResultExact(reply[0], ReplyPackets(reply[1..]) + rest);
    hide ReadHead, ReadResult, WellFormed, ReplyPackets, Tail.Valid, Tail.Packets, Tail.Values, Gather, RowsOf, Shape.Valid;
  }

  /** Abandoning a stream consumes exactly the rest of its reply, or fails (and
      then the transport is closed) exactly when a later result is an error. */
  lemma {:induction false} DrainExact(tail: Tail, count: nat, rest: seq<bytes>)
    requires tail.Valid(count)
    ensures var r := DrainStream(tail.Packets() + rest);
      && r.rest == rest
      && (r.result.Err? <==> EndsInError(tail.later))
    decreases |tail.rows|
  {
    TailStep(tail, count, rest);
    TailEnd(tail, count, rest);
    hide ParseErr, ParseRow, ParseEnd, More, ReadResults, WellFormed, Tail.Valid, Tail.Packets, ReplyPackets;
    if tail.rows == [] {
      if tail.later != [] {
        ResultsExact(tail.later, rest);
      }
    } else {
      DrainExact(tail.Skip(1), count, rest);
    }
  }
}

/** `Connection::Impl`: the loops that take the packets of a reply one by one, and
    the commands made of them. */
module Client {
  import opened Bytes
  import opened ResultSet
  import opened Responses
  import opened Session

  /** `QueryStreamState` */
  class QueryStreamState {
    const id: nat
    const fields: seq<Field>
    var done: bool
    var cleanupStarted: bool

    constructor (id: nat, fields: seq<Field>)
      ensures this.id == id && this.fields == fields && !done && !cleanupStarted
    {
      this.id, this.fields := id, fields;
      done, cleanupStarted := false, false;
    }
  }

  class Connection {
    var connected: bool
    var inbox: seq<bytes>
    var active: QueryStreamState?
    var nextId: nat

    ghost predicate Valid()
      reads this, active
    {
      active != null ==> !active.done && !active.cleanupStarted
    }

    ghost function State(): Conn
      reads this
    {
      Conn(connected, inbox, if active == null then None else Some(Stream(active.id, active.fields)), nextId)
    }

    constructor ()
      ensures Valid() && State() == Conn(false, [], None, 0)
    {
      connected, inbox, active, nextId := false, [], null, 0;
    }

    /** `read_packet` */
    method ReadPacket() returns (r: Result<bytes, Failure>)
      modifies this`inbox
      ensures old(inbox) == [] ==> r == Err(NoPacket) && inbox == []
      ensures old(inbox) != [] ==> r == Ok(old(inbox)[0]) && inbox == old(inbox)[1..]
    {
      if inbox == [] {
        return Err(NoPacket);
      }
      r := Ok(inbox[0]);
      inbox := inbox[1..];
    }

    /** The column loop that every reader of a result set starts with. */
    method ReadColumns(count: nat) returns (r: Result<seq<Field>, Failure>)
      modifies this`inbox
      ensures Read(r, inbox) == Responses.ReadColumns(old(inbox), count)
    {
      var fields: seq<Field> := [];
      hide ParseColumn, ErrorOf, Responses.ReadColumns;
      ColumnsStart(inbox, count);
      for i := 0 to count
        invariant |fields| == i
        invariant Responses.ReadColumns(old(inbox), count) == PrependFields(fields, Responses.ReadColumns(inbox, count - i))
      {
        ColumnsStep(inbox, count - i);
        var p :- ReadPacket();
        if IsErr(p) {
          return Err(ErrorOf(p));
        }
        var column := ParseColumn(p);
        if column.Malformed? {
          return Err(BadPacket);
        }
        PrependFieldsTwice(fields, column.value, Responses.ReadColumns(inbox, count - i - 1));
        fields := fields + [column.value];
      }
      ColumnsStart(inbox, 0);
      assert fields + [] == fields;
      r := Ok(fields);
    }

    static function PrependFields(front: seq<Field>, r: Read<seq<Field>>): Read<seq<Field>> {
      match r.result
      case Err(_) => r
      case Ok(fields) => Read(Ok(front + fields), r.rest)
    }

    static lemma PrependFieldsTwice(front: seq<Field>, field: Field, r: Read<seq<Field>>)
      ensures PrependFields(front, PrependFields([field], r)) == PrependFields(front + [field], r)
    {
      if r.result.Ok? {
        assert front + ([field] + r.result.value) == front + [field] + r.result.value;
      }
    }

    static lemma ColumnsStart(inbox: seq<bytes>, count: nat)
      ensures PrependFields([], Responses.ReadColumns(inbox, count)) == Responses.ReadColumns(inbox, count)
      ensures Responses.ReadColumns(inbox, 0) == Read(Ok([]), inbox)
    {
      var r := Responses.ReadColumns(inbox, count);
      if r.result.Ok? {
        assert [] + r.result.value == r.result.value;
      }
    }

    static lemma ColumnsStep(inbox: seq<bytes>, count: nat)
      requires count > 0
      ensures Responses.ReadColumns(inbox, count) ==
        if inbox == [] then Read(Err(NoPacket), [])
        else if IsErr(inbox[0]) then Read(Err(ErrorOf(inbox[0])), inbox[1..])
        else if ParseColumn(inbox[0]).Malformed? then Read(Err(BadPacket), inbox[1..])
        else PrependFields([ParseColumn(inbox[0]).value], Responses.ReadColumns(inbox[1..], count - 1))
    {
      hide ParseColumn, ErrorOf;
    }

    /** The common beginning of `read_query_result`, `read_query_result_raw` and
        `open_query_stream`. */
    method ReadHead() returns (r: Result<Head, Failure>)
      modifies this`inbox
      ensures Read(r, inbox) == Responses.ReadHead(old(inbox))
    {
      hide ParseEnd, ErrorOf, Responses.ReadColumns, TakeLenenc;
      var first :- ReadPacket();
      if IsErr(first) {
        return Err(ErrorOf(first));
      }
      if IsOk(first) {
        return Ok(Done(first));
      }
      if IsLocalInfile(first) {
        return Err(InfileRequested);
      }
      var count := TakeLenenc(first);
      if count.Malformed? || count.value.None? {
        return Err(BadPacket);
      }
      var fields :- ReadColumns(count.value.value);
      var end :- ReadPacket();
      if !IsEof(end) && !IsOk(end) {
        return Err(BadPacket);
      }
      var ok := ParseEnd(end);
      if ok.Malformed? {
        return Err(BadPacket);
      }
      r := Ok(Header(fields, ok.value));
    }

    /** `read_query_result` */
    method ReadQueryResult() returns (r: Result<QueryResult, Failure>)
      modifies this`inbox
      ensures Read(r, inbox) == ReadResult(old(inbox))
    {
      hide ParseOk, Responses.ReadHead, Responses.ReadRows;
      var head :- ReadHead();
      match head
      case Done(payload) =>
        var ok := ParseOk(payload);
        r := if ok.Malformed? then Err(BadPacket) else Ok(QueryResult(ok.value, [], []));
      case Header(fields, end) =>
        if HasFlag(end.status, CURSOR_EXISTS) {
          return Ok(QueryResult(end, fields, []));
        }
        var rows :- CollectRows(|fields|);
        r := Ok(QueryResult(rows.1, fields, rows.0));
    }

    /** The row loop of `read_query_result`. */
    method CollectRows(count: nat) returns (r: Result<(seq<Row>, OkPacket), Failure>)
      modifies this`inbox
      ensures Read(r, inbox) == Responses.ReadRows(old(inbox), count)
    {
      var rows: seq<Row> := [];
      hide ParseRow, ParseEnd, ErrorOf, Responses.ReadRows;
      RowsStart(Responses.ReadRows(inbox, count));
      while true
        invariant Responses.ReadRows(old(inbox), count) == PrependRows(rows, Responses.ReadRows(inbox, count))
        decreases |inbox|
      {
        RowsStep(inbox, count);
        var p :- ReadPacket();
        if IsErr(p) {
          return Err(ErrorOf(p));
        }
        if IsEof(p) {
          assert rows + [] == rows;
          var end := ParseEnd(p);
          return if end.Malformed? then Err(BadPacket) else Ok((rows, end.value));
        }
        var row := ParseRow(p, count);
        if row.Malformed? {
          return Err(BadPacket);
        }
        PrependRowsTwice(rows, row.value, Responses.ReadRows(inbox, count));
        rows := rows + [row.value];
      }
    }

    static function PrependRows(front: seq<Row>, r: Read<(seq<Row>, OkPacket)>): Read<(seq<Row>, OkPacket)> {
      match r.result
      case Err(_) => r
      case Ok((rows, ok)) => Read(Ok((front + rows, ok)), r.rest)
    }

    static lemma RowsStart(r: Read<(seq<Row>, OkPacket)>)
      ensures PrependRows([], r) == r
    {
      if r.result.Ok? {
        assert [] + r.result.value.0 == r.result.value.0;
      }
    }

    static lemma PrependRowsTwice(front: seq<Row>, row: Row, r: Read<(seq<Row>, OkPacket)>)
      ensures PrependRows(front, PrependRead(row, r)) == PrependRows(front + [row], r)
    {
      if r.result.Ok? {
        assert front + ([row] + r.result.value.0) == front + [row] + r.result.value.0;
      }
    }

    static lemma RowsStep(inbox: seq<bytes>, count: nat)
      ensures Responses.ReadRows(inbox, count) ==
        if inbox == [] then Read(Err(NoPacket), [])
        else if IsErr(inbox[0]) then Read(Err(ErrorOf(inbox[0])), inbox[1..])
        else if IsEof(inbox[0]) then
          Read(if ParseEnd(inbox[0]).Malformed? then Err(BadPacket) else Ok(([], ParseEnd(inbox[0]).value)), inbox[1..])
        else if ParseRow(inbox[0], count).Malformed? then Read(Err(BadPacket), inbox[1..])
        else PrependRead(ParseRow(inbox[0], count).value, Responses.ReadRows(inbox[1..], count))
    {
      hide ParseRow, ParseEnd, ErrorOf;
    }

    /** `read_query_results` */
    method ReadQueryResults() returns (r: Result<seq<QueryResult>, Failure>)
      modifies this`inbox
      ensures Read(r, inbox) == ReadResults(old(inbox))
    {
      var results: seq<QueryResult> := [];
      hide ReadResult, ReadResults, More;
      ResultsStart(ReadResults(inbox));
      while true
        invariant ReadResults(old(inbox)) == PrependResults(results, ReadResults(inbox))
        decreases |inbox|
      {
        ResultsStep(inbox);
        var one :- ReadQueryResult();
        PrependResultsTwice(results, one, ReadResults(inbox));
        results := results + [one];
        if !More(one.ok) {
          return Ok(results);
        }
      }
    }

    static lemma ResultsStart(r: Read<seq<QueryResult>>)
      ensures PrependResults([], r) == r
    {
      if r.result.Ok? {
        assert [] + r.result.value == r.result.value;
      }
    }

    static lemma PrependResultsTwice(front: seq<QueryResult>, one: QueryResult, r: Read<seq<QueryResult>>)
      ensures PrependResults(front, PrependResults([one], r)) == PrependResults(front + [one], r)
    {
      if r.result.Ok? {
        assert front + ([one] + r.result.value) == front + [one] + r.result.value;
      }
    }

    static lemma ResultsStep(inbox: seq<bytes>)
      ensures var one := ReadResult(inbox);
        ReadResults(inbox) ==
          if one.result.Err? then Read(Err(one.result.error), one.rest)
          else if !More(one.result.value.ok) then Read(Ok([one.result.value]), one.rest)
          else PrependResults([one.result.value], ReadResults(one.rest))
    {
      hide ReadResult;
    }

    /** `drain_remaining_query_results` */
    method DrainRemaining() returns (r: Result<(), Failure>)
      modifies this`inbox
      ensures inbox == ReadResults(old(inbox)).rest
      ensures r == match ReadResults(old(inbox)).result case Err(e) => Err(e) case Ok(_) => Ok(())
    {
      hide ReadResult, ReadResults, More;
      while true
        invariant ReadResults(old(inbox)).rest == ReadResults(inbox).rest
        invariant ReadResults(old(inbox)).result.Ok? <==> ReadResults(inbox).result.Ok?
        invariant ReadResults(old(inbox)).result.Err? ==> ReadResults(old(inbox)).result == ReadResults(inbox).result
        decreases |inbox|
      {
        ResultsStep(inbox);
        var one :- ReadQueryResult();
        if !More(one.ok) {
          return Ok(());
        }
      }
    }

    /** `read_query_result_raw`; `shown` is what the callback has seen. */
    method ReadQueryResultRaw(throwAt: Option<nat>) returns (shown: seq<Row>, r: Result<(), Failure>)
      modifies this`inbox, this`connected
      ensures var scan := ReadRaw(old(inbox), throwAt);
        && shown == scan.rows && r == scan.result && inbox == scan.rest
        && connected == (old(connected) && !scan.closed)
    {
      hide Responses.ReadHead, ScanRows;
      shown := [];
      var head := ReadHead();
      match head
      case Err(e) => r := Err(e);
      case Ok(Done(_)) => r := Ok(());
      case Ok(Header(fields, end)) =>
        if HasFlag(end.status, CURSOR_EXISTS) {
          return [], Ok(());
        }
        shown, r := ShowRows(|fields|, throwAt);
    }

    /** The row loop of `read_query_result_raw`. */
    method ShowRows(count: nat, throwAt: Option<nat>) returns (shown: seq<Row>, r: Result<(), Failure>)
      modifies this`inbox, this`connected
      ensures var scan := ScanRows(old(inbox), count, throwAt);
        && shown == scan.rows && r == scan.result && inbox == scan.rest
        && connected == (old(connected) && !scan.closed)
    {
      shown := [];
      var left := throwAt;
      hide ParseRow, ParseEnd, ErrorOf, ScanRows, ReadResults;
      assert [] + ScanRows(inbox, count, throwAt).rows == ScanRows(inbox, count, throwAt).rows;
      while true
        invariant connected == old(connected)
        invariant ScanRows(old(inbox), count, throwAt) == PrependScan(shown, ScanRows(inbox, count, left))
        decreases |inbox|
      {
        ScanStep(inbox, count, left);
        assert shown + [] == shown;
        var p := ReadPacket();
        if p.Err? {
          return shown, Err(NoPacket);
        }
        if IsErr(p.value) {
          return shown, Err(ErrorOf(p.value));
        }
        if IsEof(p.value) {
          var end := ParseEnd(p.value);
          if end.Malformed? {
            return shown, Err(BadPacket);
          }
          if More(end.value) {
            var drained := DrainRemaining();
            return shown, Err(if drained.Err? then drained.error else ManyResults);
          }
          return shown, Ok(());
        }
        var row := ParseRow(p.value, count);
        if row.Malformed? {
          return shown, Err(BadPacket);
        }
        PrependScanTwice(shown, row.value, ScanRows(inbox, count, OneFewer(left)));
        shown := shown + [row.value];
        if left == Some(0) {
          inbox, connected := [], false;
          return shown, Err(CallbackThrew);
        }
        left := OneFewer(left);
      }
    }

    static lemma PrependScanTwice(front: seq<Row>, row: Row, r: RawScan)
      ensures PrependScan(front, PrependScan([row], r)) == PrependScan(front + [row], r)
    {
      assert front + ([row] + r.rows) == front + [row] + r.rows;
    }

    static lemma ScanStep(inbox: seq<bytes>, count: nat, throwAt: Option<nat>)
      ensures ScanRows(inbox, count, throwAt) ==
        if inbox == [] then RawScan.RawScan([], Err(NoPacket), [], false)
        else if IsErr(inbox[0]) then RawScan.RawScan([], Err(ErrorOf(inbox[0])), inbox[1..], false)
        else if IsEof(inbox[0]) then
          if ParseEnd(inbox[0]).Malformed? then RawScan.RawScan([], Err(BadPacket), inbox[1..], false)
          else ScanEnd(ParseEnd(inbox[0]).value, inbox[1..])
        else if ParseRow(inbox[0], count).Malformed? then RawScan.RawScan([], Err(BadPacket), inbox[1..], false)
        else if throwAt == Some(0) then RawScan.RawScan([ParseRow(inbox[0], count).value], Err(CallbackThrew), [], true)
        else PrependScan([ParseRow(inbox[0], count).value], ScanRows(inbox[1..], count, OneFewer(throwAt)))
    {
      hide ParseRow, ParseEnd, ErrorOf, ScanEnd;
    }

    /** `ensure_connected` and the write of a command, which the server answers. */
    method WriteCommand(reply: seq<bytes>) returns (ok: bool)
      modifies this`connected, this`inbox
      ensures ok <==> active == null
      ensures ok ==> connected && inbox == Written(old(State()), reply)
      ensures !ok ==> connected == old(connected) && inbox == old(inbox)
    {
      if active != null {
        return false;
      }
      if !connected {
        connected, inbox := true, [];
      }
      inbox := inbox + reply;
      ok := true;
    }

    method QueryAll(reply: seq<bytes>) returns (o: Outcome)
      requires Valid()
      modifies this`connected, this`inbox
      ensures Valid() && (State(), o) == Execute(old(State()), Command.QueryAll(reply))
    {
      hide ReadResults;
      var ok := WriteCommand(reply);
      if !ok {
        return Refused;
      }
      var results := ReadQueryResults();
      o := All(results);
    }

    method Query(reply: seq<bytes>) returns (o: Outcome)
      requires Valid()
      modifies this`connected, this`inbox
      ensures Valid() && (State(), o) == Execute(old(State()), Command.Query(reply))
    {
      hide ReadResults;
      var all := QueryAll(reply);
      match all
      case Refused => o := Refused;
      case All(results) =>
        if results.Err? {
          return One(Err(results.error));
        }
        o := One(if |results.value| != 1 then Err(ManyResults) else Ok(results.value[0]));
    }

    method QueryEachRaw(reply: seq<bytes>, throwAt: Option<nat>) returns (o: Outcome)
      requires Valid()
      modifies this`connected, this`inbox
      ensures Valid() && (State(), o) == Execute(old(State()), RawQuery(reply, throwAt))
    {
      hide ReadRaw;
      var ok := WriteCommand(reply);
      if !ok {
        return Refused;
      }
      var shown, end := ReadQueryResultRaw(throwAt);
      o := Scanned(shown, end);
    }

    /** `query_stream` with `open_query_stream`. */
    method QueryStream(reply: seq<bytes>) returns (o: Outcome, stream: QueryStreamState?)
      requires Valid()
      modifies this
      ensures Valid() && (State(), o) == Execute(old(State()), OpenStream(reply))
      ensures stream != null <==> o.Opened? && o.stream.Ok? && o.stream.value.Some?
      ensures stream != null ==> fresh(stream) && active == stream
    {
      hide ParseOk, Responses.ReadHead;
      stream := null;
      var ok := WriteCommand(reply);
      if !ok {
        return Refused, null;
      }
      var head := ReadHead();
      match head
      case Err(e) => o := Opened(Err(e));
      case Ok(Done(payload)) =>
        o := Opened(if ParseOk(payload).Malformed? then Err(BadPacket) else Ok(None));
      case Ok(Header(fields, end)) =>
        if HasFlag(end.status, CURSOR_EXISTS) {
          return Opened(Ok(None)), null;
        }
        stream := new QueryStreamState(nextId, fields);
        active := stream;
        o := Opened(Ok(Some(nextId)));
        nextId := nextId + 1;
    }

    /** `finish_query_stream` */
    method FinishQueryStream(stream: QueryStreamState)
      modifies this`active, stream
      ensures stream.done && stream.cleanupStarted
      ensures active == if old(active) == stream then null else old(active)
    {
      if active == stream {
        active := null;
      }
      stream.done, stream.cleanupStarted := true, true;
    }

    /** `read_query_stream_rows`: a stream that has finished, or no longer owns the
        connection, gives no rows and leaves the connection alone. */
    method ReadStreamRows(stream: QueryStreamState, limit: nat) returns (o: Outcome)
      requires Valid()
      modifies this`inbox, this`active, stream
      ensures Valid()
      ensures old(active) == stream ==> (State(), o) == Execute(old(State()), Command.ReadRows(stream.id, limit))
      ensures old(active) == stream && active == null ==> stream.done && stream.cleanupStarted
      ensures old(active) != stream ==> State() == old(State()) && stream.done && o.Streamed? && o.streamed == []
    {
      if stream.done {
        return Streamed([], Ended);
      }
      if active != stream {
        stream.done := true;
        return Streamed([], Failed(BadPacket, true));
      }
      hide ReadStream;
      var rows, state := PushRows(stream, limit);
      o := Streamed(rows, state);
    }

    /** The row loop of `read_query_stream_rows`. */
    method PushRows(stream: QueryStreamState, limit: nat) returns (rows: seq<Row>, state: StreamState)
      requires Valid() && active == stream
      modifies this`inbox, this`active, stream
      ensures Valid()
      ensures StreamRead.StreamRead(rows, state, inbox) == ReadStream(old(inbox), |stream.fields|, limit)
      ensures active == if Finished(state) then null else stream
      ensures Finished(state) ==> stream.done && stream.cleanupStarted
    {
      rows := [];
      var n := 0;
      var count := |stream.fields|;
      hide ParseRow, ParseEnd, ErrorOf, ReadStream, ReadResults, StreamEnd;
      StreamStart(inbox, count, limit);
      while n < limit
        invariant n <= limit && active == stream && Valid()
        invariant ReadStream(old(inbox), count, limit) == PrependStream(rows, ReadStream(inbox, count, limit - n))
        decreases limit - n
      {
        ReadStreamStep(inbox, count, limit - n);
        assert rows + [] == rows;
        var p := ReadPacket();
        if p.Err? {
          return rows, Failed(NoPacket, false);
        }
        if IsErr(p.value) {
          FinishQueryStream(stream);
          return rows, Failed(ErrorOf(p.value), true);
        }
        if IsEof(p.value) {
          var end := ParseEnd(p.value);
          if end.Malformed? {
            return rows, Failed(BadPacket, false);
          }
          state := EndRows(stream, end.value);
          return;
        }
        var row := ParseRow(p.value, count);
        if row.Malformed? {
          return rows, Failed(BadPacket, false);
        }
        PrependStreamTwice(rows, row.value, ReadStream(inbox, count, limit - n - 1));
        rows := rows + [row.value];
        n := n + 1;
      }
      StreamStart(inbox, count, 0);
      assert rows + [] == rows;
      state := Open;
    }

    /** The end of the rows finishes the stream before any drain. */
    method EndRows(stream: QueryStreamState, ok: OkPacket) returns (state: StreamState)
      requires Valid() && active == stream
      modifies this`inbox, this`active, stream
      ensures StreamRead.StreamRead([], state, inbox) == StreamEnd(ok, old(inbox))
      ensures active == null && Finished(state) && stream.done && stream.cleanupStarted
    {
      hide ReadResults;
      FinishQueryStream(stream);
      if More(ok) {
        var drained := DrainRemaining();
        return Failed(if drained.Err? then drained.error else ManyResults, true);
      }
      state := Ended;
    }

    static lemma StreamStart(inbox: seq<bytes>, count: nat, limit: nat)
      ensures PrependStream([], ReadStream(inbox, count, limit)) == ReadStream(inbox, count, limit)
      ensures ReadStream(inbox, count, 0) == StreamRead.StreamRead([], Open, inbox)
    {
      assert [] + ReadStream(inbox, count, limit).rows == ReadStream(inbox, count, limit).rows;
    }

    static lemma PrependStreamTwice(front: seq<Row>, row: Row, r: StreamRead)
      ensures PrependStream(front, PrependStream([row], r)) == PrependStream(front + [row], r)
    {
      assert front + ([row] + r.rows) == front + [row] + r.rows;
    }

    static lemma ReadStreamStep(inbox: seq<bytes>, count: nat, limit: nat)
      requires limit > 0
      ensures ReadStream(inbox, count, limit) ==
        if inbox == [] then StreamRead.StreamRead([], Failed(NoPacket, false), [])
        else if IsErr(inbox[0]) then StreamRead.StreamRead([], Failed(ErrorOf(inbox[0]), true), inbox[1..])
        else if IsEof(inbox[0]) then
          if ParseEnd(inbox[0]).Malformed? then StreamRead.StreamRead([], Failed(BadPacket, false), inbox[1..])
          else StreamEnd(ParseEnd(inbox[0]).value, inbox[1..])
        else if ParseRow(inbox[0], count).Malformed? then StreamRead.StreamRead([], Failed(BadPacket, false), inbox[1..])
        else PrependStream([ParseRow(inbox[0], count).value], ReadStream(inbox[1..], count, limit - 1))
    {
      hide ParseRow, ParseEnd, ErrorOf, StreamEnd;
    }

    /** `drain_active_query_stream` */
    method DrainActive() returns (r: Result<(), Failure>)
      modifies this`inbox
      ensures Read(r, inbox) == DrainStream(old(inbox))
    {
      hide ParseEnd, ParseErr, DrainStream, ReadResults;
      while true
        invariant DrainStream(old(inbox)) == DrainStream(inbox)
        decreases |inbox|
      {
        DrainStep(inbox);
        var p :- ReadPacket();
        if IsErr(p) {
          return if ParseErr(p).Malformed? then Err(BadPacket) else Ok(());
        }
        if IsEof(p) {
          var end := ParseEnd(p);
          if end.Malformed? {
            return Err(BadPacket);
          }
          if More(end.value) {
            r := DrainRemaining();
            return;
          }
          return Ok(());
        }
      }
    }

    static lemma DrainStep(inbox: seq<bytes>)
      ensures DrainStream(inbox) ==
        if inbox == [] then Read(Err(NoPacket), [])
        else if IsErr(inbox[0]) then Read(if ParseErr(inbox[0]).Malformed? then Err(BadPacket) else Ok(()), inbox[1..])
        else if IsEof(inbox[0]) then
          if ParseEnd(inbox[0]).Malformed? then Read(Err(BadPacket), inbox[1..])
          else DrainEnd(ParseEnd(inbox[0]).value, inbox[1..])
        else DrainStream(inbox[1..])
    {
      hide ParseEnd, ParseErr, DrainEnd;
    }

    /** `QueryStreamState::cleanup`: drains the stream if it is still active, and
        does nothing the second time or after the stream has finished. */
    method Cleanup(stream: QueryStreamState)
      requires Valid()
      modifies this`inbox, this`connected, this`active, stream
      ensures Valid() && (stream.done || stream.cleanupStarted) && active != stream
      ensures State() == (if old(active) == stream then Execute(old(State()), Abandon(stream.id)).0 else old(State()))
    {
      hide DrainStream;
      if stream.done || stream.cleanupStarted {
        return;
      }
      stream.cleanupStarted := true;
      if active != stream {
        stream.done := true;
        return;
      }
      var r := DrainActive();
      if r.Err? {
        inbox, connected := [], false;
      }
      FinishQueryStream(stream);
    }
  }
}

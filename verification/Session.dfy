/** A connection over a whole run of commands: when it is at a response boundary,
    and the loops that read replies. */
module Session {
  import opened Bytes
  import opened ResultSet
  import opened Responses

  // ------------------------------------------------------ the state machine

  /** A row stream that owns the connection. */
  datatype Stream = Stream(id: nat, fields: seq<Field>)

  /** Between commands: whether the transport is up, the packets the server has
      sent that nobody has read, and the stream that owns the connection. */
  datatype Conn = Conn(connected: bool, inbox: seq<bytes>, active: Option<Stream>, nextId: nat)

  /** Commands with the packets that the server sends in reply. */
  datatype Command =
    | Query(reply: seq<bytes>)
    | QueryAll(reply: seq<bytes>)
    | RawQuery(reply: seq<bytes>, throwAt: Option<nat>)
    | OpenStream(reply: seq<bytes>)
    | ReadRows(id: nat, limit: nat)
    | Abandon(id: nat)

  datatype Outcome =
    | Refused
    | One(result: Result<QueryResult, Failure>)
    | All(results: Result<seq<QueryResult>, Failure>)
    | Scanned(rows: seq<Row>, end: Result<(), Failure>)
    | Opened(stream: Result<Option<nat>, Failure>)
    | Streamed(streamed: seq<Row>, state: StreamState)
    | Cleaned

  predicate IsWrite(cmd: Command) {
    cmd.Query? || cmd.QueryAll? || cmd.RawQuery? || cmd.OpenStream?
  }

  /** `ensure_connected` and the write: a new transport has nothing unread. */
  function Written(c: Conn, reply: seq<bytes>): seq<bytes> {
    (if c.connected then c.inbox else []) + reply
  }

  function Execute(c: Conn, cmd: Command): (r: (Conn, Outcome)) {
    if IsWrite(cmd) && c.active.Some? then (c, Refused)
    else
      match cmd
      case Query(reply) =>
        var r := ReadSingle(Written(c, reply));
        (c.(connected := true, inbox := r.rest), One(r.result))
      case QueryAll(reply) =>
        var r := ReadResults(Written(c, reply));
        (c.(connected := true, inbox := r.rest), All(r.result))
      case RawQuery(reply, throwAt) =>
        var r := ReadRaw(Written(c, reply), throwAt);
        (c.(connected := !r.closed, inbox := r.rest), Scanned(r.rows, r.result))
      case OpenStream(reply) => AfterOpen(c, ReadStreamHead(Written(c, reply)))
      case ReadRows(id, limit) =>
        if c.active.None? || c.active.value.id != id then (c, Streamed([], Ended))
        else AfterRead(c, ReadStream(c.inbox, |c.active.value.fields|, limit))
      case Abandon(id) =>
        if c.active.None? || c.active.value.id != id then (c, Cleaned)
        else (AfterDrain(c, DrainStream(c.inbox)), Cleaned)
  }

  function AfterOpen(c: Conn, r: Read<Option<seq<Field>>>): (Conn, Outcome) {
    var c' := c.(connected := true, inbox := r.rest);
    match r.result
    case Err(e) => (c', Opened(Err(e)))
    case Ok(None) => (c', Opened(Ok(None)))
    case Ok(Some(fields)) =>
      (c'.(active := Some(Stream(c.nextId, fields)), nextId := c.nextId + 1), Opened(Ok(Some(c.nextId))))
  }

  predicate Finished(s: StreamState) {
    s.Ended? || (s.Failed? && s.finished)
  }

  function AfterRead(c: Conn, r: StreamRead): (Conn, Outcome) {
    (c.(inbox := r.rest, active := if Finished(r.state) then None else c.active), Streamed(r.rows, r.state))
  }

  /** A drain that throws closes the transport; either way the stream is gone. */
  function AfterDrain(c: Conn, r: Read<()>): Conn {
    if r.result.Ok? then c.(inbox := r.rest, active := None)
    else c.(connected := false, inbox := [], active := None)
  }

  // ------------------------------------------------------------ in step

  /** The connection is closed, or idle with nothing unread, or in the middle of
      the row set of a well-formed reply that a stream owns. */
  ghost predicate InStep(c: Conn) {
    c.connected ==>
      match c.active
      case None => c.inbox == []
      case Some(s) => exists tail: Tail :: tail.Valid(|s.fields|) && c.inbox == tail.Packets()
  }

  /** The server answers every command that is written with a well-formed reply. */
  ghost predicate Answers(cmd: Command, reply: seq<Shape>) {
    IsWrite(cmd) ==> WellFormed(reply) && cmd.reply == ReplyPackets(reply)
  }

  /** The one way out of step: a raw scan or a stream whose reply begins with an
      OK packet that announces more results. */
  predicate Derails(c: Conn, cmd: Command, reply: seq<Shape>) {
    (cmd.RawQuery? || cmd.OpenStream?) && c.active.None? && BeginsWithOkAndMore(reply)
  }

  /** A stream that is active at all is active on an open transport. */
  predicate Sane(c: Conn) {
    (c.active.Some? ==> c.connected && c.active.value.id < c.nextId)
  }

  /** One command keeps the connection in step exactly when it does not derail. */
  lemma StepExact(c: Conn, cmd: Command, reply: seq<Shape>)
    requires Sane(c) && InStep(c) && Answers(cmd, reply)
    ensures Sane(Execute(c, cmd).0)
    ensures InStep(Execute(c, cmd).0) <==> !Derails(c, cmd, reply)
  {
    hide ReadSingle, ReadResults, ReadRaw, ReadStreamHead, ReadStream, DrainStream, WellFormed, ReplyPackets,
      Tail.Valid, Tail.Packets;
    if IsWrite(cmd) && c.active.Some? {
    } else if IsWrite(cmd) {
      assert Written(c, cmd.reply) == ReplyPackets(reply) + [] by { Fresh(c, cmd.reply); }
      match cmd
      case Query(_) => SingleExact(reply, []);
      case QueryAll(_) => ResultsExact(reply, []);
      case RawQuery(_, throwAt) =>
        RawExact(reply, throwAt, []);
        RawClosed(ReplyPackets(reply) + [], throwAt);
      case OpenStream(_) => OpenExact(c, reply);
    } else if c.active.Some? && c.active.value.id == cmd.id {
      var count := |c.active.value.fields|;
      var tail: Tail :| tail.Valid(count) && c.inbox == tail.Packets();
      assert c.inbox == tail.Packets() + [];
      if cmd.ReadRows? {
        StreamExact(tail, count, cmd.limit, []);
        if cmd.limit <= |tail.rows| {
          assert tail.Skip(cmd.limit).Packets() + [] == tail.Skip(cmd.limit).Packets();
        }
      } else {
        DrainExact(tail, count, []);
      }
    }
  }

  lemma Fresh(c: Conn, reply: seq<bytes>)
    requires InStep(c) && c.active.None?
    ensures Written(c, reply) == reply + []
  {
  }

  /** A callback that throws leaves nothing in the closed connection. */
  lemma {:induction false} ScanClosed(inbox: seq<bytes>, count: nat, throwAt: Option<nat>)
    ensures ScanRows(inbox, count, throwAt).closed ==> ScanRows(inbox, count, throwAt).rest == []
    decreases |inbox|
  {
    hide ParseRow, ParseEnd, ParseErr, ReadResults;
    if inbox != [] && !IsErr(inbox[0]) && !IsEof(inbox[0]) && throwAt != Some(0) {
      ScanClosed(inbox[1..], count, OneFewer(throwAt));
    }
  }

  lemma RawClosed(inbox: seq<bytes>, throwAt: Option<nat>)
    ensures ReadRaw(inbox, throwAt).closed ==> ReadRaw(inbox, throwAt).rest == []
  {
    hide ReadHead, ScanRows;
    var head := ReadHead(inbox);
    if head.result.Ok? && head.result.value.Header? {
      ScanClosed(head.rest, |head.result.value.fields|, throwAt);
    }
  }

  lemma OpenExact(c: Conn, reply: seq<Shape>)
    requires c.active.None?
    ensures var c' := AfterOpen(c, ReadStreamHead(ReplyPackets(reply) + [])).0;
      WellFormed(reply) ==>
        && (InStep(c') <==> !BeginsWithOkAndMore(reply))
        && (c'.active.Some? <==> BeginsWithRows(reply))
  {
    if !WellFormed(reply) {
      return;
    }
    AfterFirst(reply, []);
    ErrorIsLast(reply);
    hide ReadHead, WellFormed, ReplyPackets, Tail.Valid, Tail.Packets, ParseOk;
    if reply[0].OkShape? {
      HeadOfOk(reply, []);
    } else if BeginsWithRows(reply) {
      HeadOfRows(reply, []);
      assert TailOf(reply).Packets() + [] == TailOf(reply).Packets();
    } else {
      HeadOfError(reply, []);
    }
  }

  // ------------------------------------------------------------ whole runs

  function Run(c: Conn, cmds: seq<Command>): Conn
    decreases |cmds|
  {
    if cmds == [] then c else Run(Execute(c, cmds[0]).0, cmds[1..])
  }

  /** No command of the run derails where it is executed. */
  predicate NeverDerails(c: Conn, cmds: seq<Command>, replies: seq<seq<Shape>>)
    requires |cmds| == |replies|
    decreases |cmds|
  {
    cmds == [] ||
    (!Derails(c, cmds[0], replies[0]) && NeverDerails(Execute(c, cmds[0]).0, cmds[1..], replies[1..]))
  }

  /** Response synchronisation: after any run of commands against well-formed
      replies in which no scan or stream meets an OK packet announcing more, the
      connection is at a response boundary, inside the reply of its active
      stream, or closed. */
  lemma {:induction false} RunInStep(c: Conn, cmds: seq<Command>, replies: seq<seq<Shape>>)
    requires Sane(c) && InStep(c) && |cmds| == |replies|
    requires forall i :: 0 <= i < |cmds| ==> Answers(cmds[i], replies[i])
    requires NeverDerails(c, cmds, replies)
    ensures Sane(Run(c, cmds)) && InStep(Run(c, cmds))
    decreases |cmds|
  {
    hide Execute, InStep, Answers, Sane, Derails;
    if cmds != [] {
      StepExact(c, cmds[0], replies[0]);
      RunInStep(Execute(c, cmds[0]).0, cmds[1..], replies[1..]);
    }
  }

  /** And the first command of a run that derails leaves it out of step. */
  lemma {:induction false} RunOutOfStep(c: Conn, cmds: seq<Command>, replies: seq<seq<Shape>>, last: Command, reply: seq<Shape>)
    requires Sane(c) && InStep(c) && |cmds| == |replies|
    requires forall i :: 0 <= i < |cmds| ==> Answers(cmds[i], replies[i])
    requires NeverDerails(c, cmds, replies)
    requires Answers(last, reply) && Derails(Run(c, cmds), last, reply)
    ensures !InStep(Run(c, cmds + [last]))
  {
    RunInStep(c, cmds, replies);
    RunSnoc(c, cmds, last);
    StepExact(Run(c, cmds), last, reply);
  }

  lemma {:induction false} RunSnoc(c: Conn, cmds: seq<Command>, last: Command)
    ensures Run(c, cmds + [last]) == Execute(Run(c, cmds), last).0
    decreases |cmds|
  {
    hide Execute;
    if cmds == [] {
      assert [last][1..] == [];
    } else {
      RunSnoc(Execute(c, cmds[0]).0, cmds[1..], last);
      assert (cmds + [last])[1..] == cmds[1..] + [last];
    }
  }

  const FIRST_OK: OkPacket := EMPTY_OK.(status := 10)

  function TwoOks(): seq<Shape> {
    [OkShape(OkPayload(FIRST_OK)), OkShape(OkPayload(EMPTY_OK))]
  }

  lemma TwoOksWellFormed()
    ensures WellFormed(TwoOks()) && ReplyPackets(TwoOks()[1..]) == [OkPayload(EMPTY_OK)]
  {
    OkRoundTrip(FIRST_OK);
    OkRoundTrip(EMPTY_OK);
    hide OkPayload, ParseOk;
    var reply := TwoOks();
    assert reply[1..] == [OkShape(OkPayload(EMPTY_OK))] && reply[1..][1..] == [];
    assert WellFormed(reply[1..]);
  }

  /** What a raw scan or a stream that derails leaves behind: every result but the
      first. */
  lemma DerailedInbox(c: Conn, reply: seq<Shape>, throwAt: Option<nat>)
    requires c.connected && c.inbox == [] && c.active.None?
    ensures WellFormed(reply) && BeginsWithOkAndMore(reply) ==>
              && Execute(c, RawQuery(ReplyPackets(reply), throwAt)).0 == c.(inbox := ReplyPackets(reply[1..]))
              && Execute(c, OpenStream(ReplyPackets(reply))).0 == c.(inbox := ReplyPackets(reply[1..]))
  {
    hide ReadRaw, ReadHead, ReplyPackets, WellFormed, ParseOk;
    if WellFormed(reply) && BeginsWithOkAndMore(reply) {
      RawOk(reply, throwAt, []);
      HeadOfOk(reply, []);
      assert Written(c, ReplyPackets(reply)) == ReplyPackets(reply) + [];
      assert ReplyPackets(reply[1..]) + [] == ReplyPackets(reply[1..]);
    }
  }

  /** A concrete way out of step: two OK results and a raw scan. */
  lemma DerailingExample()
    ensures var c := Conn(true, [], None, 0);
      && WellFormed(TwoOks()) && InStep(c)
      && Execute(c, RawQuery(ReplyPackets(TwoOks()), None)).0 == c.(inbox := [OkPayload(EMPTY_OK)])
  {
    hide Execute, ReplyPackets, WellFormed, OkPayload;
    TwoOksWellFormed();
    DerailedInbox(Conn(true, [], None, 0), TwoOks(), None);
  }

  /** No command is written while a stream owns the connection: any run of commands
      is refused one by one and changes nothing. */
  lemma {:induction false} StreamReserves(c: Conn, cmds: seq<Command>)
    requires c.active.Some? && forall i :: 0 <= i < |cmds| ==> IsWrite(cmds[i])
    ensures Run(c, cmds) == c && forall i :: 0 <= i < |cmds| ==> Execute(c, cmds[i]) == (c, Refused)
    decreases |cmds|
  {
    hide ReadSingle, ReadResults, ReadRaw, ReadStreamHead, ReadStream, DrainStream;
    if cmds != [] {
      StreamReserves(c, cmds[1..]);
      forall i | 0 <= i < |cmds| ensures Execute(c, cmds[i]) == (c, Refused) {
        assert i > 0 ==> cmds[i] == cmds[1..][i - 1];
      }
    }
  }

  /** A stream is drained at most once, and a stream that is no longer active, or
      was never this connection's, cannot disturb the connection. */
  lemma AbandonOnce(c: Conn, id: nat, cmds: seq<Command>)
    requires Sane(c) && id < c.nextId
    ensures var c1 := Execute(c, Abandon(id)).0;
      && (c1.active.Some? ==> c1.active.value.id != id)
      && Execute(Run(c1, cmds), Abandon(id)).0 == Run(c1, cmds)
  {
    hide ReadSingle, ReadResults, ReadRaw, ReadStreamHead, ReadStream, DrainStream;
    GoneForGood(Execute(c, Abandon(id)).0, id, cmds);
  }

  lemma {:induction false} GoneForGood(c: Conn, id: nat, cmds: seq<Command>)
    requires id < c.nextId && (c.active.Some? ==> c.active.value.id != id)
    ensures var c' := Run(c, cmds);
      id < c'.nextId && (c'.active.Some? ==> c'.active.value.id != id)
    decreases |cmds|
  {
    hide ReadSingle, ReadResults, ReadRaw, ReadStreamHead, ReadStream, DrainStream;
    if cmds != [] {
      GoneForGood(Execute(c, cmds[0]).0, id, cmds[1..]);
    }
  }
}

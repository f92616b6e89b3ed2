/** Whole exchanges, from what one side writes to what the other side gets: over
    sockets that move the bytes in pieces of any size. */
module EndToEnd {
  import opened Bytes
  import opened Transport
  import opened Framing
  import opened Compression
  import opened ResultSet
  import opened Responses
  import opened ResultRoundTrip
  import Client

  // ------------------------------------------------------- lists of packets

  /** Commands or replies written one after the other. */
  method SendAll(channel: PlainChannel, packets: seq<Packet>) returns (ok: bool)
    modifies channel.transport.socket`sent, channel.transport.socket`schedule
    ensures old(channel.transport.socket.Healthy()) ==> ok && channel.transport.socket.Healthy()
    ensures ok ==> channel.transport.socket.sent == old(channel.transport.socket.sent) + Wire(packets)
  {
    hide Frames, Wire;
    ghost var sent := channel.transport.socket.sent;
    NothingSent();
    for i := 0 to |packets|
      invariant old(channel.transport.socket.Healthy()) ==> channel.transport.socket.Healthy()
      invariant channel.transport.socket.sent == sent + Wire(packets[..i])
    {
      WireSnoc(packets[..i], packets[i]);
      assert packets[..i + 1] == packets[..i] + [packets[i]];
      ok := channel.WritePacket(packets[i].payload, packets[i].id);
      if !ok {
        return;
      }
      assert channel.transport.socket.sent == sent + Wire(packets[..i + 1]);
    }
    assert packets[..|packets|] == packets;
    ok := true;
  }

  lemma NothingSent()
    ensures Wire([]) == []
  {
  }

  /** The next `count` packets. */
  method ReceiveAll(channel: PlainChannel, count: nat) returns (r: Result<seq<Packet>, ()>)
    requires channel.transport.Valid()
    modifies channel.transport, channel.transport.socket`incoming, channel.transport.socket`schedule
    ensures channel.transport.Valid()
    ensures old(channel.transport.socket.Healthy()) ==> channel.transport.socket.Healthy()
    ensures r.Ok? ==> Unwire(old(channel.transport.Unread()), count) == Parsed(r.value, channel.transport.Unread())
    ensures r.Err? ==> Unwire(old(channel.transport.Unread()), count).Malformed? || !old(channel.transport.socket.Healthy())
  {
    hide Unframe, Unwire;
    ghost var s := channel.transport.Unread();
    var packets: seq<Packet> := [];
    NoneUnwired(s);
    PrependedNothing(Unwire(s, count));
    for i := 0 to count
      invariant channel.transport.Valid() && |packets| == i
      invariant old(channel.transport.socket.Healthy()) ==> channel.transport.socket.Healthy()
      invariant Unwire(s, count) == Prepended(packets, Unwire(channel.transport.Unread(), count - i))
    {
      UnwireStep(channel.transport.Unread(), count - i);
      var p := channel.ReadPacket();
      if p.Err? {
        return Err(());
      }
      PrependedTwice(packets, p.value, Unwire(channel.transport.Unread(), count - i - 1));
      packets := packets + [p.value];
    }
    NoneUnwired(channel.transport.Unread());
    PrependedAll(packets, channel.transport.Unread());
    r := Ok(packets);
  }

  lemma NoneUnwired(s: bytes)
    ensures Unwire(s, 0) == Parsed([], s)
  {
  }

  lemma UnwireStep(s: bytes, count: nat)
    requires count > 0
    ensures Unwire(s, count) ==
      match Unframe(s)
      case Malformed => Malformed
      case Parsed(p, rest) => Prepended([p], Unwire(rest, count - 1))
  {
    hide Unframe;
  }

  /** Whatever is written through one channel is read through another, packet by
      packet, however the two sockets cut the bytes; what follows stays unread. */
  method Transfer(packets: seq<Packet>, rest: bytes, outgoing: seq<Event>, incoming: seq<Event>)
    returns (r: Result<seq<Packet>, ()>, reader: PlainChannel)
    requires Fault !in outgoing && Fault !in incoming
    ensures r == Ok(packets) && fresh(reader) && reader.transport.Valid() && reader.transport.Unread() == rest
  {
    var near := new Socket([], outgoing);
    var buffer := new BufferedTransport(near);
    var writer := new PlainChannel(buffer);
    var ok := SendAll(writer, packets);
    assert near.sent == Wire(packets);
    var far := new Socket(near.sent + rest, incoming);
    buffer := new BufferedTransport(far);
    reader := new PlainChannel(buffer);
    UnwireInverse(packets, rest);
    hide Wire, Unwire;
    r := ReceiveAll(reader, |packets|);
  }

  // ------------------------------------------------------- with compression

  method SendAllCompressed(channel: CompressedChannel, packets: seq<Packet>) returns (ok: bool)
    requires channel.Valid()
    modifies channel, channel.transport.socket`sent, channel.transport.socket`schedule
    ensures channel.Valid()
    ensures old(channel.transport.socket.Healthy()) ==> ok && channel.transport.socket.Healthy()
    ensures var wire := CompressedWire(channel.codec, packets, old(channel.sequenceId));
      ok ==> channel.transport.socket.sent == old(channel.transport.socket.sent) + wire
  {
    hide Frames, PackAll, PackedId, CompressedWire, Plain;
    ghost var c, sent, id := channel.codec, channel.transport.socket.sent, channel.sequenceId;
    assert packets[0..] == packets;
    NothingPacked(c, channel.sequenceId);
    for i := 0 to |packets|
      invariant channel.Valid()
      invariant old(channel.transport.socket.Healthy()) ==> channel.transport.socket.Healthy()
      invariant sent + CompressedWire(c, packets, id) ==
        channel.transport.socket.sent + CompressedWire(c, packets[i..], channel.sequenceId)
    {
      PackedStep(c, packets, i, channel.sequenceId, channel.transport.socket.sent);
      ok := channel.WritePacket(packets[i].payload, packets[i].id);
      if !ok {
        return;
      }
    }
    NothingPacked(c, channel.sequenceId);
    assert packets[|packets|..] == [];
    ok := true;
  }

  lemma NothingPacked(c: Codec, id: byte)
    ensures CompressedWire(c, [], id) == []
  {
  }

  lemma PackedStep(c: Codec, packets: seq<Packet>, i: nat, id: byte, sent: bytes)
    requires i < |packets|
    ensures var plain := Frames(packets[i].payload, packets[i].id);
      var start := if packets[i].id == 0 then 0 else id;
      sent + CompressedWire(c, packets[i..], id) ==
      sent + PackAll(c, plain, start) + CompressedWire(c, packets[i + 1..], PackedId(plain, start))
  {
    hide Frames, PackAll, PackedId;
    assert packets[i..][1..] == packets[i + 1..];
  }

  method ReceiveAllCompressed(channel: CompressedChannel, count: nat) returns (r: Result<seq<Packet>, ()>)
    requires channel.Valid()
    modifies channel, channel.transport, channel.transport.socket`incoming, channel.transport.socket`schedule
    ensures channel.Valid()
    ensures old(channel.transport.socket.Healthy()) ==> channel.transport.socket.Healthy()
    ensures r.Ok? ==> Unwire(old(channel.UnreadPlain()), count) == Parsed(r.value, channel.UnreadPlain())
    ensures r.Err? ==> Unwire(old(channel.UnreadPlain()), count).Malformed? || !old(channel.transport.socket.Healthy())
  {
    hide Unframe, Unwire, Plain;
    ghost var s := channel.UnreadPlain();
    var packets: seq<Packet> := [];
    NoneUnwired(s);
    PrependedNothing(Unwire(s, count));
    for i := 0 to count
      invariant channel.Valid() && |packets| == i
      invariant old(channel.transport.socket.Healthy()) ==> channel.transport.socket.Healthy()
      invariant Unwire(s, count) == Prepended(packets, Unwire(channel.UnreadPlain(), count - i))
    {
      UnwireStep(channel.UnreadPlain(), count - i);
      var p := channel.ReadPacket();
      if p.Err? {
        return Err(());
      }
      PrependedTwice(packets, p.value, Unwire(channel.UnreadPlain(), count - i - 1));
      packets := packets + [p.value];
    }
    NoneUnwired(channel.UnreadPlain());
    PrependedAll(packets, channel.UnreadPlain());
    r := Ok(packets);
  }

  /** The same through two compressed channels. */
  method TransferCompressed(codec: LosslessCodec, packets: seq<Packet>, outgoing: seq<Event>, incoming: seq<Event>)
    returns (r: Result<seq<Packet>, ()>, reader: CompressedChannel)
    requires Fault !in outgoing && Fault !in incoming
    ensures r == Ok(packets) && fresh(reader) && reader.Valid() && reader.UnreadPlain() == []
  {
    hide Wire, CompressedWire, Unwire, Plain;
    var near := new Socket([], outgoing);
    var buffer := new BufferedTransport(near);
    var writer := new CompressedChannel(codec, buffer);
    var ok := SendAllCompressed(writer, packets);
    var wire := near.sent;
    assert wire == CompressedWire(codec, packets, 0);
    var far := new Socket(wire, incoming);
    buffer := new BufferedTransport(far);
    reader := new CompressedChannel(codec, buffer);
    CompressedRoundTrip(codec, packets, 0, []);
    NothingInflated(codec);
    assert wire + [] == wire;
    r := ReceiveAllCompressed(reader, |packets|);
  }

  lemma NothingInflated(c: Codec)
    ensures Plain(c, []) == []
  {
  }

  // ---------------------------------------------------- the client's packets

  /** The payloads of all packets that a stretch of the wire holds. */
  function Payloads(s: bytes): seq<bytes>
    decreases |s|
  {
    match Unframe(s)
    case Malformed => []
    case Parsed(p, rest) => [p.payload] + Payloads(rest)
  }

  lemma PayloadsStep(s: bytes)
    ensures Payloads(s) ==
      match Unframe(s)
      case Malformed => []
      case Parsed(p, rest) => [p.payload] + Payloads(rest)
  {
  }

  /** What is sent as the packets of a reply arrives as its payloads. */
  lemma {:induction false} PayloadsOfWire(payloads: seq<bytes>, first: byte)
    ensures Payloads(Wire(Numbered(payloads, first))) == payloads
    decreases |payloads|
  {
    hide Unframe, Frames, IdAfter, FrameCount;
    var packets := Numbered(payloads, first);
    if payloads == [] {
      NothingFramed();
    } else {
      WireHead(packets, []);
      assert Wire(packets) + [] == Wire(packets) && Wire(packets[1..]) + [] == Wire(packets[1..]);
      PayloadsOfWire(payloads[1..], IdAfter(first, FrameCount(|payloads[0]|)));
    }
  }

  lemma NothingFramed()
    ensures Payloads([]) == []
  {
  }

  /** `read_packet` of a connection over a socket without faults: it takes the
      payloads one by one, which is what the reading loops are proved with. */
  method NextPayload(channel: PlainChannel) returns (r: Result<bytes, Failure>)
    requires channel.transport.Valid() && channel.transport.socket.Healthy()
    modifies channel.transport, channel.transport.socket`incoming, channel.transport.socket`schedule
    ensures channel.transport.Valid() && channel.transport.socket.Healthy()
    ensures var inbox := Payloads(old(channel.transport.Unread()));
      && (inbox == [] ==> r == Err(NoPacket))
      && (inbox != [] ==> r == Ok(inbox[0]) && Payloads(channel.transport.Unread()) == inbox[1..])
    ensures r.Ok? ==> |channel.transport.Unread()| < |old(channel.transport.Unread())|
  {
    hide Unframe;
    PayloadsStep(channel.transport.Unread());
    var p := channel.ReadPacket();
    r := if p.Err? then Err(NoPacket) else Ok(p.value.payload);
  }

  lemma AppendOne(front: seq<bytes>, next: bytes, others: seq<bytes>)
    ensures front + ([next] + others) == front + [next] + others
  {
  }

  /** The packets of a reply that has arrived in full. */
  method ReceiveReply(channel: PlainChannel) returns (inbox: seq<bytes>)
    requires channel.transport.Valid() && channel.transport.socket.Healthy()
    modifies channel.transport, channel.transport.socket`incoming, channel.transport.socket`schedule
    ensures channel.transport.Valid() && inbox == Payloads(old(channel.transport.Unread()))
  {
    hide Payloads;
    inbox := [];
    ghost var all := Payloads(channel.transport.Unread());
    while true
      invariant channel.transport.Valid() && channel.transport.socket.Healthy()
      invariant all == inbox + Payloads(channel.transport.Unread())
      decreases |channel.transport.Unread()|
    {
      ghost var left := Payloads(channel.transport.Unread());
      var p := NextPayload(channel);
      if p.Err? {
        assert left == [];
        return;
      }
      AppendOne(inbox, p.value, left[1..]);
      assert left == [left[0]] + left[1..];
      inbox := inbox + [p.value];
    }
  }

  /** From the rows that a server is given to the result that the client returns:
      the server builds and writes its packets, both sockets cut the bytes as they
      like, and the client reads the result, in whole or row by row. */
  method ServeAndRead(rows: seq<Row>, fields: seq<Field>, first: byte, outgoing: seq<Event>, incoming: seq<Event>, raw: bool)
    returns (result: Option<QueryResult>, shown: seq<Row>, end: Result<(), Failure>, client: Client.Connection)
    requires 1 <= |fields| < U64
    requires Fault !in outgoing && Fault !in incoming
    ensures fresh(client) && client.inbox == []
    ensures end == Ok(())
    ensures raw ==> shown == PaddedRows(rows, |fields|) && client.connected
    ensures !raw ==> result == Some(QueryResult(END, Normalised(fields), PaddedRows(rows, |fields|)))
  {
    hide TextResult, Numbered, Wire, ReadResult, ReadRaw, Payloads, Normalised, PaddedRows;
    var reply := BuildTextResultPackets(rows, fields, first);
    var near := new Socket([], outgoing);
    var server := new BufferedTransport(near);
    var ok := server.WriteAll(reply);
    assert near.sent == reply;

    var far := new Socket(near.sent, incoming);
    var buffer := new BufferedTransport(far);
    var channel := new PlainChannel(buffer);
    var inbox := ReceiveReply(channel);
    PayloadsOfWire(TextResult(rows, fields), first);

    client := new Client.Connection();
    client.connected, client.inbox := true, inbox;
    TextResultRoundTrip(rows, fields, []);
    assert TextResult(rows, fields) + [] == TextResult(rows, fields);
    result, shown := None, [];
    if raw {
      shown, end := client.ReadQueryResultRaw(None);
    } else {
      var r := client.ReadQueryResult();
      match r
      case Ok(q) => result, end := Some(q), Ok(());
      case Err(e) => end := Err(e);
    }
  }
}

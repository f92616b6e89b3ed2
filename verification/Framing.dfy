/** Packet framing: a payload of any length is cut into frames of 0xffffff bytes,
    always ended by a shorter one, and put together again. */
module Framing {
  import opened Bytes
  import opened Transport

  const MAX_PAYLOAD: nat := 0xffffff

  /** A whole packet as the reader returns it, or a single frame of one. */
  datatype Packet = Packet(id: byte, payload: bytes)

  function IdAfter(id: byte, frames: nat): byte {
    (id + frames) % 256
  }

  function Header(length: nat, id: byte): (h: bytes)
    ensures |h| == 4
  {
    LittleEndian(length, 3) + [id]
  }

  /** The wire form of one frame. */
  function Frame(id: byte, body: bytes): (s: bytes)
    ensures |s| == 4 + |body|
  {
    Header(|body|, id) + body
  }

  /** The wire form of a payload, as the protocol defines it. */
  function Frames(payload: bytes, id: byte): (s: bytes)
    ensures |s| >= 4
    decreases |payload|
  {
    if |payload| < MAX_PAYLOAD then Frame(id, payload)
    else Frame(id, payload[..MAX_PAYLOAD]) + Frames(payload[MAX_PAYLOAD..], IdAfter(id, 1))
  }

  function FrameCount(length: nat): nat {
    length / MAX_PAYLOAD + 1
  }

  // -------------------------------------------------- the shape of the frames

  /** The frames of a payload, one by one. */
  function FrameList(payload: bytes, id: byte): seq<Packet>
    decreases |payload|
  {
    if |payload| < MAX_PAYLOAD then [Packet(id, payload)]
    else [Packet(id, payload[..MAX_PAYLOAD])] + FrameList(payload[MAX_PAYLOAD..], IdAfter(id, 1))
  }

  function JoinFrames(frames: seq<Packet>): bytes {
    if frames == [] then [] else Frame(frames[0].id, frames[0].payload) + JoinFrames(frames[1..])
  }

  function JoinBodies(frames: seq<Packet>): bytes {
    if frames == [] then [] else frames[0].payload + JoinBodies(frames[1..])
  }

  lemma IdAfterTwice(id: byte, a: nat, b: nat)
    ensures IdAfter(IdAfter(id, a), b) == IdAfter(id, a + b)
  {
  }

  lemma {:induction false} FrameIds(payload: bytes, id: byte, i: nat)
    requires i < |FrameList(payload, id)|
    ensures FrameList(payload, id)[i].id == IdAfter(id, i)
    decreases |payload|
  {
    if |payload| >= MAX_PAYLOAD && i > 0 {
      FrameIds(payload[MAX_PAYLOAD..], IdAfter(id, 1), i - 1);
      IdAfterTwice(id, 1, i - 1);
    }
  }

  lemma {:induction false} FrameLengths(payload: bytes, id: byte)
    ensures var f := FrameList(payload, id);
      && |f| == FrameCount(|payload|)
      && (forall i :: 0 <= i < |f| - 1 ==> |f[i].payload| == MAX_PAYLOAD)
      && |f[|f| - 1].payload| == |payload| % MAX_PAYLOAD
    decreases |payload|
  {
    if |payload| >= MAX_PAYLOAD {
      FrameLengths(payload[MAX_PAYLOAD..], IdAfter(id, 1));
      FrameCountStep(|payload|);
    }
  }

  lemma FrameCountStep(length: nat)
    requires length >= MAX_PAYLOAD
    ensures FrameCount(length) == 1 + FrameCount(length - MAX_PAYLOAD)
    ensures length % MAX_PAYLOAD == (length - MAX_PAYLOAD) % MAX_PAYLOAD
  {
  }

  lemma {:induction false} FrameContents(payload: bytes, id: byte)
    ensures Frames(payload, id) == JoinFrames(FrameList(payload, id))
    ensures JoinBodies(FrameList(payload, id)) == payload
    decreases |payload|
  {
    var f := FrameList(payload, id);
    if |payload| < MAX_PAYLOAD {
      assert f[1..] == [];
      assert Frame(id, payload) + [] == Frame(id, payload);
      assert payload + [] == payload;
    } else {
      FrameContents(payload[MAX_PAYLOAD..], IdAfter(id, 1));
      assert f[1..] == FrameList(payload[MAX_PAYLOAD..], IdAfter(id, 1));
      assert payload == payload[..MAX_PAYLOAD] + payload[MAX_PAYLOAD..];
    }
  }

  /** There are `len / 0xffffff + 1` frames with consecutive ids modulo 256, only
      the last one is short, and their bodies make up the payload. */
  lemma {:induction false} FrameShape(payload: bytes, id: byte)
    ensures var f := FrameList(payload, id);
      && |f| == FrameCount(|payload|)
      && Frames(payload, id) == JoinFrames(f)
      && JoinBodies(f) == payload
      && (forall i :: 0 <= i < |f| ==> f[i].id == IdAfter(id, i))
      && (forall i :: 0 <= i < |f| - 1 ==> |f[i].payload| == MAX_PAYLOAD)
      && |f[|f| - 1].payload| == |payload| % MAX_PAYLOAD < MAX_PAYLOAD
  {
    FrameContents(payload, id);
    FrameLengths(payload, id);
    forall i | 0 <= i < |FrameList(payload, id)| ensures FrameList(payload, id)[i].id == IdAfter(id, i) {
      FrameIds(payload, id, i);
    }
  }

  /** `normal_packet_count_for_payload`, which LOCAL INFILE uploads use to find
      the next sequence id. */
  function NormalPacketCount(length: nat): nat {
    var count := length / MAX_PAYLOAD + 1;
    if length > 0 && length % MAX_PAYLOAD == 0 then count + 1 else count
  }

  /** It is the number of frames written exactly when the length is not a
      positive multiple of 0xffffff, and then one too large; the id used for the
      next chunk continues the sequence in exactly the same cases. */
  lemma {:induction false} NormalPacketCountExact(payload: bytes, id: byte)
    ensures var written := |FrameList(payload, id)|;
      var regular := !(|payload| > 0 && |payload| % MAX_PAYLOAD == 0);
      && (NormalPacketCount(|payload|) == written <==> regular)
      && (!regular ==> NormalPacketCount(|payload|) == written + 1)
      && (IdAfter(id, NormalPacketCount(|payload|)) == IdAfter(id, written) <==> regular)
  {
    FrameLengths(payload, id);
    hide FrameList;
    var written := FrameCount(|payload|);
    assert IdAfter(id, written + 1) != IdAfter(id, written);
  }

  // --------------------------------------------------------------- writing

  /** One frame off the front of the `offset`-th suffix of a payload. */
  lemma FramesStep(payload: bytes, offset: nat, chunk: nat, id: byte)
    requires offset + chunk <= |payload|
    requires chunk == if |payload| - offset < MAX_PAYLOAD then |payload| - offset else MAX_PAYLOAD
    ensures LittleEndian(chunk, 3) + [id] + payload[offset..offset + chunk] == Frame(id, payload[offset..offset + chunk])
    ensures chunk < MAX_PAYLOAD ==> Frames(payload[offset..], id) == Frame(id, payload[offset..offset + chunk])
    ensures chunk == MAX_PAYLOAD ==> forall front: bytes ::
      front + Frame(id, payload[offset..offset + chunk]) + Frames(payload[offset + chunk..], IdAfter(id, 1))
      == front + Frames(payload[offset..], id)
  {
    var rest := payload[offset..];
    assert rest[..chunk] == payload[offset..offset + chunk] && rest[chunk..] == payload[offset + chunk..];
    if chunk < MAX_PAYLOAD {
      assert rest[..chunk] == rest;
    } else {
      forall front: bytes
        ensures front + Frame(id, rest[..chunk]) + Frames(rest[chunk..], IdAfter(id, 1)) == front + Frames(rest, id)
      {
        Concat3(front, Frame(id, rest[..chunk]), Frames(rest[chunk..], IdAfter(id, 1)));
      }
    }
  }

  lemma EmptyFrames(payload: bytes, id: byte)
    ensures Frames(payload[|payload|..], id) == LittleEndian(0, 3) + [id]
  {
    assert Frame(id, []) == LittleEndian(0, 3) + [id];
  }

  /** The sequence id across one frame of a payload of which `left` bytes are left. */
  lemma IdStep(id: byte, left: nat)
    ensures IdAfter(id, 1) == (id + 1) % 256
    ensures left < MAX_PAYLOAD ==> IdAfter(id, FrameCount(left)) == (id + 1) % 256
    ensures left < MAX_PAYLOAD ==> (left % MAX_PAYLOAD == 0 <==> left == 0)
    ensures left >= MAX_PAYLOAD ==>
      && IdAfter(id, FrameCount(left)) == IdAfter((id + 1) % 256, FrameCount(left - MAX_PAYLOAD))
      && left % MAX_PAYLOAD == (left - MAX_PAYLOAD) % MAX_PAYLOAD
  {
    if left >= MAX_PAYLOAD {
      FrameCountStep(left);
      IdAfterTwice(id, 1, FrameCount(left - MAX_PAYLOAD));
    }
  }

  /** `append_packet_bytes` */
  method AppendPacketBytes(out0: bytes, payload: bytes, id0: byte) returns (out: bytes, id: byte)
    ensures out == out0 + Frames(payload, id0)
    ensures id == IdAfter(id0, FrameCount(|payload|))
  {
    out, id := out0, id0;
    var offset := 0;
    var needsEmptyTail := |payload| > 0 && |payload| % MAX_PAYLOAD == 0;
    hide Frames, Frame, LittleEndian, FrameCount, IdAfter;
    assert payload[0..] == payload;
    while true
      invariant 0 <= offset <= |payload|
      invariant offset == |payload| ==> offset == 0
      invariant out0 + Frames(payload, id0) == out + Frames(payload[offset..], id)
      invariant IdAfter(id0, FrameCount(|payload|)) == IdAfter(id, FrameCount(|payload| - offset))
      invariant needsEmptyTail <==> |payload| > 0 && (|payload| - offset) % MAX_PAYLOAD == 0
      decreases |payload| - offset
    {
      var chunk := if |payload| - offset < MAX_PAYLOAD then |payload| - offset else MAX_PAYLOAD;
      FramesStep(payload, offset, chunk, id);
      IdStep(id, |payload| - offset);
      var frame := LittleEndian(chunk, 3) + [id] + payload[offset..offset + chunk];
      out := out + frame;
      offset := offset + chunk;
      id := (id + 1) % 256;
      if offset >= |payload| {
        break;
      }
    }
    if needsEmptyTail {
      EmptyFrames(payload, id);
      IdStep(id, 0);
      out := out + (LittleEndian(0, 3) + [id]);
      id := (id + 1) % 256;
    }
  }

  /** The loop of `write_packet`, which finds out about the empty tail afterwards. */
  method SplitPacket(payload: bytes, id0: byte) returns (packets: bytes)
    ensures packets == Frames(payload, id0)
  {
    packets := [];
    var offset: nat, id: byte := 0, id0;
    var wroteFull := false;
    hide Frames, Frame, LittleEndian;
    assert payload[0..] == payload;
    while true
      invariant 0 <= offset <= |payload|
      invariant offset == |payload| ==> offset == 0
      invariant Frames(payload, id0) == packets + Frames(payload[offset..], id)
      decreases |payload| - offset
    {
      var remaining := |payload| - offset;
      var chunk := if remaining < MAX_PAYLOAD then remaining else MAX_PAYLOAD;
      FramesStep(payload, offset, chunk, id);
      var frame := LittleEndian(chunk, 3) + [id] + payload[offset..offset + chunk];
      packets := packets + frame;
      id := (id + 1) % 256;
      offset := offset + chunk;
      wroteFull := chunk == MAX_PAYLOAD;
      if offset >= |payload| {
        break;
      }
    }
    if wroteFull {
      EmptyFrames(payload, id);
      packets := packets + (LittleEndian(0, 3) + [id]);
    }
  }

  // --------------------------------------------------------------- reading

  /** One frame off the front of a byte string. */
  function TakeFrame(s: bytes): (r: Parsed<Packet>)
    ensures r.Parsed? ==> |r.rest| + 4 + |r.value.payload| == |s|
  {
    var (length, rest) :- TakeLE(s, 3);
    var (id, body) :- TakeBytes(rest, 1);
    var (payload, tail) :- TakeBytes(body, length);
    Parsed(Packet(id[0], payload), tail)
  }

  /** A whole packet off the front; the ids of its later frames are not looked at. */
  function Unframe(s: bytes): (r: Parsed<Packet>)
    ensures r.Parsed? ==> |r.rest| < |s|
    decreases |s|
  {
    var (first, rest) :- TakeFrame(s);
    if |first.payload| < MAX_PAYLOAD then Parsed(first, rest)
    else
      var (more, tail) :- Unframe(rest);
      Parsed(Packet(first.id, first.payload + more.payload), tail)
  }

  function Prepend(front: Packet, r: Parsed<Packet>): Parsed<Packet> {
    match r
    case Malformed => Malformed
    case Parsed(p, rest) => Parsed(Packet(front.id, front.payload + p.payload), rest)
  }

  lemma PrependTwice(front: Packet, next: Packet, r: Parsed<Packet>)
    ensures Prepend(front, Prepend(next, r)) == Prepend(Packet(front.id, front.payload + next.payload), r)
  {
    if r.Parsed? {
      assert front.payload + (next.payload + r.value.payload) == front.payload + next.payload + r.value.payload;
    }
  }

  lemma UnframeStep(s: bytes)
    ensures Unframe(s) ==
      match TakeFrame(s)
      case Malformed => Malformed
      case Parsed(f, rest) => if |f.payload| < MAX_PAYLOAD then Parsed(f, rest) else Prepend(f, Unframe(rest))
  {
  }

  lemma TakeFrameInverse(id: byte, body: bytes, rest: bytes)
    requires |body| <= MAX_PAYLOAD
    ensures TakeFrame(Frame(id, body) + rest) == Parsed(Packet(id, body), rest)
  {
    assert |body| < Pow256(3) by { Pow256Values(); }
    assert Frame(id, body) + rest == LittleEndian(|body|, 3) + ([id] + (body + rest));
    TakeLEInverse(|body|, 3, [id] + (body + rest));
    TakeBytesInverse([id], body + rest);
    TakeBytesInverse(body, rest);
  }

  /** Reading undoes writing for every payload, also of length 0 and of a multiple
      of 0xffffff, and leaves what follows untouched. */
  lemma {:induction false} UnframeInverse(payload: bytes, id: byte, rest: bytes)
    ensures Unframe(Frames(payload, id) + rest) == Parsed(Packet(id, payload), rest)
    decreases |payload|
  {
    if |payload| < MAX_PAYLOAD {
      TakeFrameInverse(id, payload, rest);
    } else {
      var head, tail := payload[..MAX_PAYLOAD], payload[MAX_PAYLOAD..];
      var more := Frames(tail, IdAfter(id, 1)) + rest;
      assert Frames(payload, id) + rest == Frame(id, head) + more;
      TakeFrameInverse(id, head, more);
      UnframeInverse(tail, IdAfter(id, 1), rest);
      assert head + tail == payload;
    }
  }

  /** No two payloads, and no payload and a longer one, share a wire form. */
  lemma FramesInjective(p: bytes, a: byte, q: bytes, b: byte, s: bytes, t: bytes)
    requires Frames(p, a) + s == Frames(q, b) + t
    ensures p == q && a == b && s == t
  {
    UnframeInverse(p, a, s);
    UnframeInverse(q, b, t);
  }

  lemma ZeroHeader()
    ensures Frames([], 0) == ZeroBytes(4)
  {
    assert LittleEndian(0, 3) == [0] + LittleEndian(0, 2);
    assert LittleEndian(0, 2) == [0] + LittleEndian(0, 1) == [0, 0];
  }

  /** The 64 KiB of zeros that a failed refill leaves in the read buffer are read as
      16384 empty packets with id 0 before anything the peer really sends. */
  lemma PhantomPackets(count: nat, incoming: bytes)
    requires 0 < count <= READ_BUFFER_SIZE / 4
    ensures Unframe(ZeroBytes(4 * count) + incoming) == Parsed(Packet(0, []), ZeroBytes(4 * (count - 1)) + incoming)
  {
    hide Unframe, Frames;
    ZeroHeader();
    assert ZeroBytes(4 * count) + incoming == ZeroBytes(4) + (ZeroBytes(4 * (count - 1)) + incoming);
    UnframeInverse([], 0, ZeroBytes(4 * (count - 1)) + incoming);
  }

  // -------------------------------------------------------- runs of packets

  /** Packets written one after the other. */
  function Wire(packets: seq<Packet>): bytes {
    if packets == [] then [] else Frames(packets[0].payload, packets[0].id) + Wire(packets[1..])
  }

  /** Reading `count` packets. */
  function Unwire(s: bytes, count: nat): Parsed<seq<Packet>>
    decreases count
  {
    if count == 0 then Parsed([], s)
    else
      var (first, rest) :- Unframe(s);
      var (others, tail) :- Unwire(rest, count - 1);
      Parsed([first] + others, tail)
  }

  lemma WireHead(packets: seq<Packet>, rest: bytes)
    requires packets != []
    ensures Unframe(Wire(packets) + rest) == Parsed(packets[0], Wire(packets[1..]) + rest)
  {
    var more := Wire(packets[1..]) + rest;
    Concat3(Frames(packets[0].payload, packets[0].id), Wire(packets[1..]), rest);
    UnframeInverse(packets[0].payload, packets[0].id, more);
  }

  lemma {:induction false} UnwireInverse(packets: seq<Packet>, rest: bytes)
    ensures Unwire(Wire(packets) + rest, |packets|) == Parsed(packets, rest)
  {
    hide Unframe, Frames;
    if packets == [] {
      assert [] + rest == rest;
    } else {
      WireHead(packets, rest);
      UnwireInverse(packets[1..], rest);
      hide Wire;
      assert packets == [packets[0]] + packets[1..];
    }
  }

  lemma {:induction false} WireSnoc(packets: seq<Packet>, last: Packet)
    ensures Wire(packets + [last]) == Wire(packets) + Frames(last.payload, last.id)
  {
    hide Frames;
    if packets == [] {
      assert [last][1..] == [];
    } else {
      WireSnoc(packets[1..], last);
      assert (packets + [last])[1..] == packets[1..] + [last];
    }
  }

  /** Payloads with the running sequence id that `append_packet_bytes` threads
      through a reply. */
  function Numbered(payloads: seq<bytes>, id: byte): (packets: seq<Packet>)
    ensures |packets| == |payloads|
    ensures forall i :: 0 <= i < |payloads| ==> packets[i].payload == payloads[i]
  {
    if payloads == [] then []
    else [Packet(id, payloads[0])] + Numbered(payloads[1..], IdAfter(id, FrameCount(|payloads[0]|)))
  }

  /** The sequence id after `payloads`. */
  function NumberAfter(payloads: seq<bytes>, id: byte): byte {
    if payloads == [] then id else NumberAfter(payloads[1..], IdAfter(id, FrameCount(|payloads[0]|)))
  }

  lemma {:induction false} NumberedSnoc(payloads: seq<bytes>, last: bytes, id: byte)
    ensures Numbered(payloads + [last], id) == Numbered(payloads, id) + [Packet(NumberAfter(payloads, id), last)]
    ensures NumberAfter(payloads + [last], id) == IdAfter(NumberAfter(payloads, id), FrameCount(|last|))
  {
    hide IdAfter, FrameCount;
    if payloads == [] {
      assert [last][1..] == [];
    } else {
      NumberedSnoc(payloads[1..], last, IdAfter(id, FrameCount(|payloads[0]|)));
      assert (payloads + [last])[1..] == payloads[1..] + [last];
    }
  }

  /** `read_packet` and `write_packet` with compression off. */
  class PlainChannel {
    const transport: BufferedTransport

    constructor (transport: BufferedTransport)
      ensures this.transport == transport
    {
      this.transport := transport;
    }

    method ReadFrame() returns (r: Result<Packet, ()>)
      requires transport.Valid()
      modifies transport, transport.socket`incoming, transport.socket`schedule
      ensures transport.Valid()
      ensures old(transport.socket.Healthy()) ==> transport.socket.Healthy()
      ensures r.Ok? ==> TakeFrame(old(transport.Unread())) == Parsed(r.value, transport.Unread())
      ensures r.Err? ==> TakeFrame(old(transport.Unread())).Malformed? || !old(transport.socket.Healthy())
    {
      ghost var s := transport.Unread();
      var header :- transport.ReadExact(4);
      HeaderFields(s, header);
      var length := FromLittleEndian(header[..3]);
      var payload := [];
      if length > 0 {
        payload :- transport.ReadExact(length);
      } else {
        assert TakeBytes(s[4..], 0) == Parsed([], s[4..]);
      }
      r := Ok(Packet(header[3], payload));
    }

    static lemma HeaderFields(s: bytes, header: bytes)
      requires 4 <= |s| && header == s[..4]
      ensures TakeFrame(s) ==
        match TakeBytes(s[4..], FromLittleEndian(header[..3]))
        case Malformed => Malformed
        case Parsed(payload, rest) => Parsed(Packet(header[3], payload), rest)
    {
      assert header[..3] == s[..3] && s[3..][..1] == [header[3]] && s[3..][1..] == s[4..];
    }

    /** `read_uncompressed_packet` */
    method ReadPacket() returns (r: Result<Packet, ()>)
      requires transport.Valid()
      modifies transport, transport.socket`incoming, transport.socket`schedule
      ensures transport.Valid()
      ensures old(transport.socket.Healthy()) ==> transport.socket.Healthy()
      ensures r.Ok? ==> Unframe(old(transport.Unread())) == Parsed(r.value, transport.Unread())
      ensures r.Err? ==> Unframe(old(transport.Unread())).Malformed? || !old(transport.socket.Healthy())
    {
      ghost var s := transport.Unread();
      hide Unframe, TakeFrame;
      UnframeStep(s);
      var first :- ReadFrame();
      if |first.payload| < MAX_PAYLOAD {
        return Ok(first);
      }
      var parts := first;
      while true
        invariant transport.Valid()
        invariant old(transport.socket.Healthy()) ==> transport.socket.Healthy()
        invariant Unframe(s) == Prepend(parts, Unframe(transport.Unread()))
        decreases |transport.Unread()|
      {
        UnframeStep(transport.Unread());
        var next :- ReadFrame();
        PrependTwice(parts, next, Unframe(transport.Unread()));
        parts := Packet(parts.id, parts.payload + next.payload);
        if |next.payload| < MAX_PAYLOAD {
          return Ok(parts);
        }
      }
    }

    /** `write_packet` */
    method WritePacket(payload: bytes, id: byte) returns (ok: bool)
      modifies transport.socket`sent, transport.socket`schedule
      ensures old(transport.socket.Healthy()) ==> ok && transport.socket.Healthy()
      ensures ok ==> transport.socket.sent == old(transport.socket.sent) + Frames(payload, id)
      ensures !ok ==>
        exists n :: 0 <= n < |Frames(payload, id)| && transport.socket.sent == old(transport.socket.sent) + Frames(payload, id)[..n]
    {
      var packets := SplitPacket(payload, id);
      ok := transport.WriteAll(packets);
    }
  }
}

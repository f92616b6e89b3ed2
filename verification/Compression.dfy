/** The compressed protocol: plain frames are cut again into chunks, each sent
    deflated when that is shorter, and the reader inflates them into a buffer
    that it compacts in place. */
module Compression {
  import opened Bytes
  import opened Transport
  import opened Framing

  const MAX_INPUT: nat := 16777210

  /** zlib as an abstract pair; `inflate` gives `None` where zlib throws. */
  datatype Codec = Codec(deflate: bytes -> bytes, inflate: bytes -> Option<bytes>)

  ghost predicate Lossless(c: Codec) {
    forall s: bytes :: c.inflate(c.deflate(s)) == Some(s)
  }

  /** Codecs of which inflating undoes deflating, as copying does. */
  type LosslessCodec = c: Codec | Lossless(c) ghost witness Codec(s => s, s => Some(s))

  function CompressedHeader(length: nat, id: byte, plainLength: nat): (h: bytes)
    ensures |h| == 7
  {
    LittleEndian(length, 3) + [id] + LittleEndian(plainLength, 3)
  }

  /** One compressed packet. */
  function Pack(c: Codec, chunk: bytes, id: byte): bytes {
    var deflated := c.deflate(chunk);
    if |deflated| < |chunk| then CompressedHeader(|deflated|, id, |chunk|) + deflated
    else CompressedHeader(|chunk|, id, 0) + chunk
  }

  /** The compressed packets that carry `plain`. */
  function PackAll(c: Codec, plain: bytes, id: byte): bytes
    decreases |plain|
  {
    if |plain| <= MAX_INPUT then Pack(c, plain, id)
    else Pack(c, plain[..MAX_INPUT], id) + PackAll(c, plain[MAX_INPUT..], IdAfter(id, 1))
  }

  /** The compressed sequence id after `PackAll`. */
  function PackedId(plain: bytes, id: byte): byte
    decreases |plain|
  {
    if |plain| <= MAX_INPUT then IdAfter(id, 1) else PackedId(plain[MAX_INPUT..], IdAfter(id, 1))
  }

  /** `append_next_compressed_payload`: the plain bytes of the next packet. */
  function TakeChunk(c: Codec, s: bytes): (r: Parsed<bytes>)
    ensures r.Parsed? ==> |r.rest| < |s|
  {
    var (length, afterLength) :- TakeLE(s, 3);
    var (_, afterId) :- TakeBytes(afterLength, 1);
    var (plainLength, body) :- TakeLE(afterId, 3);
    var (payload, rest) :- TakeBytes(body, length);
    Decoded(c, plainLength, payload, rest)
  }

  function Decoded(c: Codec, plainLength: nat, payload: bytes, rest: bytes): (r: Parsed<bytes>)
    ensures r.Parsed? ==> r.rest == rest
  {
    if plainLength == 0 then Parsed(payload, rest)
    else
      match c.inflate(payload)
      case None => Malformed
      case Some(plain) => if |plain| == plainLength then Parsed(plain, rest) else Malformed
  }

  /** All plain bytes that a stretch of the wire carries. */
  function Plain(c: Codec, s: bytes): bytes
    decreases |s|
  {
    match TakeChunk(c, s)
    case Malformed => []
    case Parsed(chunk, rest) => chunk + Plain(c, rest)
  }

  lemma PackInverse(c: LosslessCodec, chunk: bytes, id: byte, rest: bytes)
    requires |chunk| <= MAX_INPUT
    ensures TakeChunk(c, Pack(c, chunk, id) + rest) == Parsed(chunk, rest)
  {
    var deflated := c.deflate(chunk);
    if |deflated| < |chunk| {
      ChunkFields(c, |deflated|, id, |chunk|, deflated, rest);
      assert c.inflate(deflated) == Some(chunk);
    } else {
      ChunkFields(c, |chunk|, id, 0, chunk, rest);
    }
  }

  lemma ChunkFields(c: Codec, length: nat, id: byte, plainLength: nat, body: bytes, rest: bytes)
    requires length == |body| <= MAX_INPUT && plainLength <= MAX_INPUT
    ensures TakeChunk(c, CompressedHeader(length, id, plainLength) + body + rest)
         == Decoded(c, plainLength, body, rest)
  {
    assert length < Pow256(3) && plainLength < Pow256(3) by { Pow256Values(); }
    var s := CompressedHeader(length, id, plainLength) + body + rest;
    assert s == LittleEndian(length, 3) + ([id] + (LittleEndian(plainLength, 3) + (body + rest)));
    TakeLEInverse(length, 3, [id] + (LittleEndian(plainLength, 3) + (body + rest)));
    TakeBytesInverse([id], LittleEndian(plainLength, 3) + (body + rest));
    TakeLEInverse(plainLength, 3, body + rest);
    TakeBytesInverse(body, rest);
  }

  /** Inflating undoes deflating, however the plain bytes were cut. */
  lemma {:induction false} PackAllInverse(c: LosslessCodec, plain: bytes, id: byte, rest: bytes)
    ensures Plain(c, PackAll(c, plain, id) + rest) == plain + Plain(c, rest)
    decreases |plain|
  {
    hide Pack, TakeChunk;
    if |plain| <= MAX_INPUT {
      PackInverse(c, plain, id, rest);
    } else {
      var head, tail := plain[..MAX_INPUT], plain[MAX_INPUT..];
      var more := PackAll(c, tail, IdAfter(id, 1)) + rest;
      Concat3(Pack(c, head, id), PackAll(c, tail, IdAfter(id, 1)), rest);
      PackInverse(c, head, id, more);
      PackAllInverse(c, tail, IdAfter(id, 1), rest);
      assert head + (tail + Plain(c, rest)) == plain + Plain(c, rest);
    }
  }

  /** Packets written one after the other by `write_packet` with compression on:
      a first sequence id of 0 starts the compressed ids at 0 again. */
  function CompressedWire(c: Codec, packets: seq<Packet>, id: byte): bytes {
    if packets == [] then []
    else
      var plain := Frames(packets[0].payload, packets[0].id);
      var start := if packets[0].id == 0 then 0 else id;
      PackAll(c, plain, start) + CompressedWire(c, packets[1..], PackedId(plain, start))
  }

  lemma {:induction false} CompressedWirePlain(c: LosslessCodec, packets: seq<Packet>, id: byte, rest: bytes)
    ensures Plain(c, CompressedWire(c, packets, id) + rest) == Wire(packets) + Plain(c, rest)
  {
    hide Frames, PackAll, PackedId, Plain;
    if packets == [] {
      assert [] + rest == rest;
    } else {
      var plain := Frames(packets[0].payload, packets[0].id);
      var start := if packets[0].id == 0 then 0 else id;
      var more := CompressedWire(c, packets[1..], PackedId(plain, start));
      Concat3(PackAll(c, plain, start), more, rest);
      PackAllInverse(c, plain, start, more + rest);
      CompressedWirePlain(c, packets[1..], PackedId(plain, start), rest);
    }
  }

  /** The whole stack: the packets written come back with their payloads and first
      sequence ids, in order, and the plain bytes behind them are untouched. */
  lemma CompressedRoundTrip(c: LosslessCodec, packets: seq<Packet>, id: byte, rest: bytes)
    ensures Unwire(Plain(c, CompressedWire(c, packets, id) + rest), |packets|) == Parsed(packets, Plain(c, rest))
  {
    CompressedWirePlain(c, packets, id, rest);
    UnwireInverse(packets, Plain(c, rest));
  }

  /** `read_packet` and `write_packet` with compression on. */
  class CompressedChannel {
    const codec: Codec
    const transport: BufferedTransport
    var sequenceId: byte
    var plainBuffer: bytes
    var plainOffset: nat

    /** Less than half of the plain buffer is already consumed. */
    ghost predicate Valid()
      reads this, transport
    {
      && transport.Valid()
      && plainOffset <= |plainBuffer|
      && (plainOffset > 0 ==> 2 * plainOffset < |plainBuffer|)
    }

    /** The plain stream the reader is entitled to. */
    ghost function UnreadPlain(): bytes
      reads this, transport, transport.socket
      requires Valid()
    {
      plainBuffer[plainOffset..] + Plain(codec, transport.Unread())
    }

    constructor (codec: Codec, transport: BufferedTransport)
      requires transport.Valid()
      ensures Valid() && this.codec == codec && this.transport == transport
      ensures sequenceId == 0 && UnreadPlain() == Plain(codec, transport.Unread())
    {
      this.codec, this.transport := codec, transport;
      sequenceId, plainBuffer, plainOffset := 0, [], 0;
    }

    /** `append_next_compressed_payload` moves bytes from the wire to the plain
        buffer and leaves the plain stream as it is. */
    method AppendChunk() returns (ok: bool)
      requires Valid()
      modifies this`plainBuffer, transport, transport.socket`incoming, transport.socket`schedule
      ensures Valid()
      ensures old(transport.socket.Healthy()) ==> transport.socket.Healthy()
      ensures ok ==> UnreadPlain() == old(UnreadPlain()) && old(plainBuffer) <= plainBuffer
      ensures ok ==> |transport.Unread()| < |old(transport.Unread())|
      ensures !ok ==> plainBuffer == old(plainBuffer)
      ensures !ok ==> TakeChunk(codec, old(transport.Unread())).Malformed? || !old(transport.socket.Healthy())
    {
      hide Plain, TakeChunk;
      PlainStep(codec, transport.Unread());
      var r := ReadChunk();
      if r.Err? {
        return false;
      }
      Concat3(plainBuffer[plainOffset..], r.value, Plain(codec, transport.Unread()));
      assert (plainBuffer + r.value)[plainOffset..] == plainBuffer[plainOffset..] + r.value;
      plainBuffer := plainBuffer + r.value;
      ok := true;
    }

    method ReadChunk() returns (r: Result<bytes, ()>)
      requires transport.Valid()
      modifies transport, transport.socket`incoming, transport.socket`schedule
      ensures transport.Valid()
      ensures old(transport.socket.Healthy()) ==> transport.socket.Healthy()
      ensures r.Ok? ==> TakeChunk(codec, old(transport.Unread())) == Parsed(r.value, transport.Unread())
      ensures r.Err? ==> TakeChunk(codec, old(transport.Unread())).Malformed? || !old(transport.socket.Healthy())
    {
      ghost var s := transport.Unread();
      hide Decoded;
      var header :- transport.ReadExact(7);
      ChunkHeader(codec, s, header);
      var length := FromLittleEndian(header[..3]);
      var plainLength := FromLittleEndian(header[4..]);
      var payload := [];
      if length > 0 {
        payload :- transport.ReadExact(length);
      } else {
        assert TakeBytes(s[7..], 0) == Parsed([], s[7..]);
      }
      assert TakeChunk(codec, s) == Decoded(codec, plainLength, payload, transport.Unread());
      r := Inflate(codec, plainLength, payload, transport.Unread());
    }

    static method Inflate(c: Codec, plainLength: nat, payload: bytes, ghost rest: bytes) returns (r: Result<bytes, ()>)
      ensures r.Ok? ==> Decoded(c, plainLength, payload, rest) == Parsed(r.value, rest)
      ensures r.Err? ==> Decoded(c, plainLength, payload, rest) == Malformed
    {
      if plainLength == 0 {
        return Ok(payload);
      }
      var plain := c.inflate(payload);
      if plain.None? || |plain.value| != plainLength {
        return Err(());
      }
      r := Ok(plain.value);
    }

    static lemma ChunkHeader(c: Codec, s: bytes, header: bytes)
      requires 7 <= |s| && header == s[..7]
      ensures TakeChunk(c, s) ==
        match TakeBytes(s[7..], FromLittleEndian(header[..3]))
        case Malformed => Malformed
        case Parsed(payload, rest) => Decoded(c, FromLittleEndian(header[4..]), payload, rest)
    {
      assert header[..3] == s[..3] && s[3..][1..] == s[4..] && s[4..][..3] == header[4..] && s[4..][3..] == s[7..];
    }

    /** The waiting loops of `read_normal_packet_from_compressed_stream`. */
    method Await(length: nat) returns (ok: bool)
      requires Valid()
      modifies this`plainBuffer, transport, transport.socket`incoming, transport.socket`schedule
      ensures Valid() && old(plainBuffer) <= plainBuffer
      ensures old(transport.socket.Healthy()) ==> transport.socket.Healthy()
      ensures ok ==> |plainBuffer| - plainOffset >= length && UnreadPlain() == old(UnreadPlain())
      ensures !ok ==> |old(UnreadPlain())| < length || !old(transport.socket.Healthy())
    {
      hide Plain, TakeChunk;
      while |plainBuffer| - plainOffset < length
        invariant Valid() && UnreadPlain() == old(UnreadPlain()) && old(plainBuffer) <= plainBuffer
        invariant old(transport.socket.Healthy()) ==> transport.socket.Healthy()
        decreases |transport.Unread()|
      {
        ghost var s := transport.Unread();
        ok := AppendChunk();
        if !ok {
          PlainStep(codec, s);
          return;
        }
      }
      ok := true;
    }

    static lemma PlainStep(c: Codec, s: bytes)
      ensures Plain(c, s) ==
        match TakeChunk(c, s)
        case Malformed => []
        case Parsed(chunk, rest) => chunk + Plain(c, rest)
    {
    }

    /** `read_normal_packet_from_compressed_stream`: one frame off the plain
        stream; the compaction of the buffer loses and repeats nothing. */
    method ReadFrame() returns (r: Result<Packet, ()>)
      requires Valid()
      modifies this`plainBuffer, this`plainOffset, transport, transport.socket`incoming, transport.socket`schedule
      ensures Valid()
      ensures old(transport.socket.Healthy()) ==> transport.socket.Healthy()
      ensures r.Ok? ==> TakeFrame(old(UnreadPlain())) == Parsed(r.value, UnreadPlain())
      ensures r.Err? ==> TakeFrame(old(UnreadPlain())).Malformed? || !old(transport.socket.Healthy())
    {
      hide Plain, TakeFrame, FromLittleEndian;
      ShortFrame(UnreadPlain());
      var ok := Await(4);
      if !ok {
        return Err(());
      }
      var header := plainBuffer[plainOffset..plainOffset + 4];
      var length := FromLittleEndian(header[..3]);
      FrameInBuffer(plainBuffer, plainOffset, Plain(codec, transport.Unread()));
      ok := Await(4 + length);
      if !ok {
        return Err(());
      }
      assert plainBuffer[plainOffset..plainOffset + 4] == header;
      FrameInBuffer(plainBuffer, plainOffset, Plain(codec, transport.Unread()));
      var payload := plainBuffer[plainOffset + 4..plainOffset + 4 + length];
      Consume(4 + length);
      r := Ok(Packet(header[3], payload));
    }

    static lemma ShortFrame(s: bytes)
      ensures |s| < 4 ==> TakeFrame(s).Malformed?
    {
    }

    /** The frame at the offset of a buffer that `tail` continues. */
    static lemma FrameInBuffer(buffer: bytes, offset: nat, tail: bytes)
      requires offset + 4 <= |buffer|
      ensures var header := buffer[offset..offset + 4];
        var end := 4 + FromLittleEndian(header[..3]);
        var s := buffer[offset..] + tail;
        && (|s| < end ==> TakeFrame(s).Malformed?)
        && (offset + end <= |buffer| ==>
              TakeFrame(s) == Parsed(Packet(header[3], buffer[offset + 4..offset + end]), s[end..]))
    {
      var header := buffer[offset..offset + 4];
      var length := FromLittleEndian(header[..3]);
      var s := buffer[offset..] + tail;
      assert header == s[..4];
      PlainChannel.HeaderFields(s, header);
      if offset + 4 + length <= |buffer| {
        Window(buffer, offset, 4, length, tail);
      }
    }

    static lemma Window(buffer: bytes, offset: nat, skip: nat, count: nat, tail: bytes)
      requires offset + skip + count <= |buffer|
      ensures var s := buffer[offset..] + tail;
        && s[skip..skip + count] == buffer[offset + skip..offset + skip + count]
        && TakeBytes(s[skip..], count) == Parsed(buffer[offset + skip..offset + skip + count], s[skip + count..])
    {
      var s := buffer[offset..] + tail;
      assert s[skip..][..count] == s[skip..skip + count] && s[skip..][count..] == s[skip + count..];
    }

    static lemma DropFront(buffer: bytes, offset: nat, count: nat, tail: bytes)
      requires offset + count <= |buffer|
      ensures (buffer[offset..] + tail)[count..] == buffer[offset + count..] + tail
      ensures buffer[offset + count..][0..] == buffer[offset + count..]
    {
    }

    /** Advance the offset; erase the consumed front once it is half of the buffer. */
    method Consume(count: nat)
      requires Valid() && plainOffset + count <= |plainBuffer|
      modifies this`plainBuffer, this`plainOffset
      ensures Valid() && UnreadPlain() == old(UnreadPlain())[count..]
    {
      hide Plain;
      DropFront(plainBuffer, plainOffset, count, Plain(codec, transport.Unread()));
      plainOffset := plainOffset + count;
      if plainOffset > 0 && plainOffset * 2 >= |plainBuffer| {
        plainBuffer := plainBuffer[plainOffset..];
        plainOffset := 0;
      }
    }

    /** `read_compressed_packet` */
    method ReadPacket() returns (r: Result<Packet, ()>)
      requires Valid()
      modifies this`plainBuffer, this`plainOffset, transport, transport.socket`incoming, transport.socket`schedule
      ensures Valid()
      ensures old(transport.socket.Healthy()) ==> transport.socket.Healthy()
      ensures r.Ok? ==> Unframe(old(UnreadPlain())) == Parsed(r.value, UnreadPlain())
      ensures r.Err? ==> Unframe(old(UnreadPlain())).Malformed? || !old(transport.socket.Healthy())
    {
      ghost var s := UnreadPlain();
      hide Unframe, TakeFrame;
      UnframeStep(s);
      var first :- ReadFrame();
      if |first.payload| < MAX_PAYLOAD {
        return Ok(first);
      }
      var parts := first;
      while true
        invariant Valid()
        invariant old(transport.socket.Healthy()) ==> transport.socket.Healthy()
        invariant Unframe(s) == Prepend(parts, Unframe(UnreadPlain()))
        decreases |UnreadPlain()|
      {
        UnframeStep(UnreadPlain());
        var next :- ReadFrame();
        PrependTwice(parts, next, Unframe(UnreadPlain()));
        parts := Packet(parts.id, parts.payload + next.payload);
        if |next.payload| < MAX_PAYLOAD {
          return Ok(parts);
        }
      }
    }

    /** `write_compressed_packets` */
    method WriteChunks(packets: bytes) returns (ok: bool)
      modifies this`sequenceId, transport.socket`sent, transport.socket`schedule
      ensures old(transport.socket.Healthy()) ==> ok && transport.socket.Healthy()
      ensures ok ==> transport.socket.sent == old(transport.socket.sent) + PackAll(codec, packets, old(sequenceId))
      ensures ok ==> sequenceId == PackedId(packets, old(sequenceId))
      ensures !ok ==> CutShort(old(transport.socket.sent), PackAll(codec, packets, old(sequenceId)), transport.socket.sent)
    {
      var offset := 0;
      hide Pack, PackAll, PackedId, CutShort;
      assert packets[0..] == packets;
      while true
        invariant 0 <= offset <= |packets| && (offset == |packets| ==> offset == 0)
        invariant transport.socket.sent + PackAll(codec, packets[offset..], sequenceId)
               == old(transport.socket.sent) + PackAll(codec, packets, old(sequenceId))
        invariant |old(transport.socket.sent)| <= |transport.socket.sent|
        invariant PackedId(packets[offset..], sequenceId) == PackedId(packets, old(sequenceId))
        invariant old(transport.socket.Healthy()) ==> transport.socket.Healthy()
        decreases |packets| - offset
      {
        var remaining := |packets| - offset;
        var length := if remaining < MAX_INPUT then remaining else MAX_INPUT;
        var chunk := packets[offset..offset + length];
        PackStep(codec, packets, offset, length, sequenceId, transport.socket.sent);
        ghost var sent, form := transport.socket.sent, Pack(codec, chunk, sequenceId);
        ghost var more := if offset + length == |packets| then [] else PackAll(codec, packets[offset + length..], IdAfter(sequenceId, 1));
        assert form + [] == form && sent + form + [] == sent + form;
        ok := WriteChunk(chunk);
        if !ok {
          CutLater(old(transport.socket.sent), PackAll(codec, packets, old(sequenceId)), sent, form, more, transport.socket.sent);
          return;
        }
        offset := offset + length;
        if offset >= |packets| {
          break;
        }
      }
    }

    /** A proper initial part of `whole` was added to what was sent before. */
    static ghost predicate CutShort(before: bytes, whole: bytes, sent: bytes) {
      exists n :: 0 <= n < |whole| && sent == before + whole[..n]
    }

    static lemma CutLater(before: bytes, whole: bytes, middle: bytes, form: bytes, more: bytes, sent: bytes)
      requires middle + form + more == before + whole && |before| <= |middle| && CutShort(middle, form, sent)
      ensures CutShort(before, whole, sent)
    {
      var n :| 0 <= n < |form| && sent == middle + form[..n];
      var k := |middle| - |before| + n;
      assert sent == (middle + form + more)[..|middle| + n];
      assert (before + whole)[..|before| + k] == before + whole[..k];
    }

    static lemma PackStep(c: Codec, packets: bytes, offset: nat, length: nat, id: byte, sent: bytes)
      requires offset + length <= |packets|
      requires length == if |packets| - offset < MAX_INPUT then |packets| - offset else MAX_INPUT
      ensures var chunk := packets[offset..offset + length];
        if offset + length == |packets| then
          PackAll(c, packets[offset..], id) == Pack(c, chunk, id) && PackedId(packets[offset..], id) == IdAfter(id, 1)
        else
          && sent + Pack(c, chunk, id) + PackAll(c, packets[offset + length..], IdAfter(id, 1))
             == sent + PackAll(c, packets[offset..], id)
          && PackedId(packets[offset + length..], IdAfter(id, 1)) == PackedId(packets[offset..], id)
    {
      hide Pack;
      var rest := packets[offset..];
      assert rest[..length] == packets[offset..offset + length] && rest[length..] == packets[offset + length..];
      if offset + length == |packets| {
        assert rest[..length] == rest;
      } else {
        Concat3(sent, Pack(c, rest[..length], id), PackAll(c, rest[length..], IdAfter(id, 1)));
      }
    }

    method WriteChunk(chunk: bytes) returns (ok: bool)
      modifies this`sequenceId, transport.socket`sent, transport.socket`schedule
      ensures old(transport.socket.Healthy()) ==> ok && transport.socket.Healthy()
      ensures ok ==> transport.socket.sent == old(transport.socket.sent) + Pack(codec, chunk, old(sequenceId))
      ensures !ok ==> CutShort(old(transport.socket.sent), Pack(codec, chunk, old(sequenceId)), transport.socket.sent)
      ensures sequenceId == IdAfter(old(sequenceId), 1)
    {
      var deflated := codec.deflate(chunk);
      var useCompressed := |deflated| < |chunk|;
      var body := if useCompressed then deflated else chunk;
      var header := CompressedHeader(|body|, sequenceId, if useCompressed then |chunk| else 0);
      sequenceId := (sequenceId + 1) % 256;
      ghost var sent := transport.socket.sent;
      Concat3(sent, header, body);
      assert body == [] ==> sent + header + body == sent + header;
      ok := transport.WriteAll(header);
      if !ok {
        CutLater(sent, header + body, sent, header, body, transport.socket.sent);
        return;
      }
      if |body| > 0 {
        ok := transport.WriteAll(body);
        if !ok {
          assert sent + header + body + [] == sent + (header + body);
          CutLater(sent, header + body, sent + header, body, [], transport.socket.sent);
        }
      }
    }

    /** `write_packet`: a new command also drops whatever plain bytes of the last
        reply are left in the buffer, so nothing is lost exactly when none are. */
    method WritePacket(payload: bytes, id: byte) returns (ok: bool)
      requires Valid()
      modifies this, transport.socket`sent, transport.socket`schedule
      ensures Valid()
      ensures old(transport.socket.Healthy()) ==> ok && transport.socket.Healthy()
      ensures var start := if id == 0 then 0 else old(sequenceId);
        ok ==>
          && transport.socket.sent == old(transport.socket.sent) + PackAll(codec, Frames(payload, id), start)
          && sequenceId == PackedId(Frames(payload, id), start)
      ensures var start := if id == 0 then 0 else old(sequenceId);
        !ok ==> CutShort(old(transport.socket.sent), PackAll(codec, Frames(payload, id), start), transport.socket.sent)
      ensures UnreadPlain() == old(UnreadPlain())[if id == 0 then |old(plainBuffer)| - old(plainOffset) else 0..]
      ensures UnreadPlain() == old(UnreadPlain()) <==> id != 0 || old(plainOffset) == |old(plainBuffer)|
    {
      hide Frames, PackAll, PackedId, Plain, CutShort;
      if id == 0 {
        sequenceId, plainBuffer, plainOffset := 0, [], 0;
      }
      var packets := SplitPacket(payload, id);
      ok := WriteChunks(packets);
    }
  }
}

/** The read-ahead buffer over a socket that returns pieces of any size, and the
    write loop over a socket that takes pieces of any size. */
module Transport {
  import opened Bytes

  const READ_BUFFER_SIZE: nat := 64 * 1024

  /** What the operating system does with one read or write: it moves at least
      one and at most `size` bytes, or it fails. */
  datatype Event = Move(size: nat) | Fault

  /** A connected socket: the bytes the peer has still to deliver, the bytes
      already written to the peer, and an arbitrary schedule of piece sizes and
      failures. When the schedule runs out every piece is as large as it can be. */
  class Socket {
    var incoming: bytes
    var sent: bytes
    var schedule: seq<Event>

    constructor (incoming: bytes, schedule: seq<Event>)
      ensures this.incoming == incoming && this.schedule == schedule && sent == []
    {
      this.incoming := incoming;
      this.schedule := schedule;
      sent := [];
    }

    predicate Healthy()
      reads this
    {
      Fault !in schedule
    }

    method NextEvent() returns (e: Event)
      modifies this`schedule
      ensures old(Healthy()) ==> e.Move? && Healthy()
      ensures e.Fault? ==> !old(Healthy())
    {
      if schedule == [] {
        return Move(READ_BUFFER_SIZE);
      }
      e := schedule[0];
      schedule := schedule[1..];
    }

    /** `read_some_into` without a deadline: some nonempty prefix of what is
        coming, never more than `length` bytes. */
    method ReadSome(length: nat) returns (r: Result<bytes, ()>)
      requires length > 0
      modifies this`incoming, this`schedule
      ensures old(Healthy()) ==> Healthy()
      ensures r.Ok? ==> 1 <= |r.value| <= length && old(incoming) == r.value + incoming
      ensures r.Err? ==> incoming == old(incoming) && (incoming == [] || !old(Healthy()))
    {
      var e := NextEvent();
      if e.Fault? || incoming == [] {
        return Err(());
      }
      var n := if e.size == 0 then 1 else e.size;
      n := if n > length then length else n;
      n := if n > |incoming| then |incoming| else n;
      r := Ok(incoming[..n]);
      incoming := incoming[n..];
    }

    method WriteSome(data: bytes) returns (r: Result<nat, ()>)
      requires data != []
      modifies this`sent, this`schedule
      ensures old(Healthy()) ==> Healthy() && r.Ok?
      ensures r.Ok? ==> 1 <= r.value <= |data| && sent == old(sent) + data[..r.value]
      ensures r.Err? ==> sent == old(sent)
    {
      var e := NextEvent();
      if e.Fault? {
        return Err(());
      }
      var n := if e.size == 0 then 1 else e.size;
      n := if n > |data| then |data| else n;
      r := Ok(n);
      sent := sent + data[..n];
    }
  }

  /** `transport_read_buffer_` and `transport_read_offset_` over a socket. */
  class BufferedTransport {
    const socket: Socket
    var buffer: bytes
    var offset: nat

    ghost predicate Valid()
      reads this
    {
      offset <= |buffer| && (buffer != [] ==> offset < |buffer|)
    }

    /** The byte stream the reader is entitled to: what is buffered and not yet
        handed out, then what the peer has still to deliver. */
    ghost function Unread(): bytes
      reads this, socket
      requires Valid()
    {
      buffer[offset..] + socket.incoming
    }

    constructor (socket: Socket)
      ensures Valid() && this.socket == socket && Unread() == socket.incoming
    {
      this.socket := socket;
      buffer, offset := [], 0;
    }

    /** `refill_transport_read_buffer`: the buffer is resized before the read, so
        a failed read leaves it full of bytes nobody sent. */
    method Refill() returns (ok: bool)
      requires Valid() && buffer == []
      modifies this, socket`incoming, socket`schedule
      ensures Valid() && offset == 0
      ensures old(socket.Healthy()) ==> socket.Healthy()
      ensures ok ==> buffer != [] && |buffer| <= READ_BUFFER_SIZE && Unread() == old(Unread())
      ensures !ok ==> buffer == ZeroBytes(READ_BUFFER_SIZE) && socket.incoming == old(socket.incoming)
      ensures !ok ==> socket.incoming == [] || !old(socket.Healthy())
    {
      buffer := ZeroBytes(READ_BUFFER_SIZE);
      var r := socket.ReadSome(|buffer|);
      offset := 0;
      if r.Err? {
        return false;
      }
      buffer := r.value;
      ok := true;
    }

    /** `memcpy` of what is buffered, clearing the buffer once it is used up. */
    method CopyBuffered(data: array<byte>, at: nat) returns (n: nat)
      requires Valid() && buffer != [] && at < data.Length
      modifies this, data
      ensures Valid() && 1 <= n <= data.Length - at
      ensures n <= |old(Unread())|
      ensures data[..at + n] == old(data[..at]) + old(Unread())[..n]
      ensures Unread() == old(Unread())[n..]
    {
      var available := |buffer| - offset;
      n := if available < data.Length - at then available else data.Length - at;
      var piece := buffer[offset..offset + n];
      assert Unread() == piece + (buffer[offset + n..] + socket.incoming);
      Store(data, at, piece);
      offset := offset + n;
      if offset == |buffer| {
        buffer, offset := [], 0;
      }
    }

    static lemma Unbuffered(buffer: bytes, offset: nat, incoming: bytes)
      requires buffer == [] && offset == 0
      ensures buffer[offset..] + incoming == incoming
    {
    }

    static lemma CutFront(front: bytes, rest: bytes)
      ensures (front + rest)[..|front|] == front && (front + rest)[|front|..] == rest
    {
    }

    /** A large read straight into the caller's memory. */
    method ReadDirect(data: array<byte>, at: nat) returns (r: Result<nat, ()>)
      requires Valid() && buffer == [] && at < data.Length
      modifies data, socket`incoming, socket`schedule
      ensures Valid()
      ensures old(socket.Healthy()) ==> socket.Healthy()
      ensures r.Ok? ==> 1 <= r.value <= data.Length - at && r.value <= |old(Unread())|
      ensures r.Ok? ==> data[..at + r.value] == old(data[..at]) + old(Unread())[..r.value]
      ensures r.Ok? ==> Unread() == old(Unread())[r.value..]
      ensures r.Err? ==> data[..] == old(data[..]) && socket.incoming == old(socket.incoming)
      ensures r.Err? ==> socket.incoming == [] || !old(socket.Healthy())
    {
      Unbuffered(buffer, offset, socket.incoming);
      var piece := socket.ReadSome(data.Length - at);
      if piece.Err? {
        return Err(());
      }
      Unbuffered(buffer, offset, socket.incoming);
      CutFront(piece.value, socket.incoming);
      Store(data, at, piece.value);
      r := Ok(|piece.value|);
    }

    /** One turn of the `read_exact_into` loop: `n` bytes move from the stream to
        `data`; a refill moves none but takes bytes off the socket. */
    method Step(data: array<byte>, at: nat) returns (r: Result<nat, ()>)
      requires Valid() && at < data.Length
      modifies this, data, socket`incoming, socket`schedule
      ensures Valid()
      ensures old(socket.Healthy()) ==> socket.Healthy()
      ensures r.Ok? ==> at + r.value <= data.Length && r.value <= |old(Unread())|
      ensures r.Ok? ==> data[..at + r.value] == old(data[..at]) + old(Unread())[..r.value]
      ensures r.Ok? ==> Unread() == old(Unread())[r.value..]
      ensures r.Ok? ==> r.value > 0 || |socket.incoming| < |old(socket.incoming)|
      ensures r.Err? ==> socket.incoming == old(Unread()) && (socket.incoming == [] || !old(socket.Healthy()))
      ensures r.Err? ==> Unread() == (if data.Length - at >= READ_BUFFER_SIZE then [] else ZeroBytes(READ_BUFFER_SIZE)) + socket.incoming
    {
      if buffer != [] {
        var n := CopyBuffered(data, at);
        return Ok(n);
      }
      assert Unread() == socket.incoming;
      var remaining := data.Length - at;
      if remaining >= READ_BUFFER_SIZE {
        r := ReadDirect(data, at);
        return;
      }
      var ok := Refill();
      r := if ok then Ok(0) else Err(());
    }

    /** `read_exact_into`: on success the next `data.Length` bytes of the stream
        are in `data` and exactly they are gone from the stream. On failure the
        bytes already moved are lost, and unless 64 KiB or more were still
        missing the stream is left starting with 64 KiB of zeros. */
    method ReadExactInto(data: array<byte>) returns (ok: bool)
      requires Valid()
      modifies this, data, socket`incoming, socket`schedule
      ensures Valid()
      ensures old(socket.Healthy()) ==> socket.Healthy()
      ensures ok ==> data.Length <= |old(Unread())|
      ensures ok ==> data[..] == old(Unread())[..data.Length] && Unread() == old(Unread())[data.Length..]
      ensures !ok ==> |old(Unread())| < data.Length || !old(socket.Healthy())
      ensures !ok ==> AfterFailure(old(Unread()), data.Length, socket.incoming, Unread())
    {
      ghost var stream := Unread();
      var at := 0;
      while at < data.Length
        invariant 0 <= at <= data.Length && at <= |stream| && Valid()
        invariant data[..at] == stream[..at]
        invariant Unread() == stream[at..]
        invariant old(socket.Healthy()) ==> socket.Healthy()
        decreases data.Length - at, |socket.incoming|
      {
        var n := Step(data, at);
        if n.Err? {
          Failed(stream, at, data.Length, socket.incoming, Unread());
          return false;
        }
        Advance(stream, at, n.value);
        at := at + n.value;
      }
      assert data[..] == data[..at];
      ok := true;
    }

    /** The state a failed read of `length` bytes leaves: some bytes are consumed
        and dropped, and a failed refill puts 64 KiB of zeros in front. */
    static ghost predicate AfterFailure(stream: bytes, length: nat, incoming: bytes, unread: bytes) {
      exists moved: nat | moved <= |stream| :: moved < length && incoming == stream[moved..] &&
        unread == (if length - moved >= READ_BUFFER_SIZE then [] else ZeroBytes(READ_BUFFER_SIZE)) + incoming
    }

    static lemma Failed(stream: bytes, at: nat, length: nat, incoming: bytes, unread: bytes)
      requires at < length && at <= |stream| && incoming == stream[at..]
      requires unread == (if length - at >= READ_BUFFER_SIZE then [] else ZeroBytes(READ_BUFFER_SIZE)) + incoming
      ensures AfterFailure(stream, length, incoming, unread)
    {
    }

    static lemma Advance(stream: bytes, at: nat, n: nat)
      requires at + n <= |stream|
      ensures stream[..at] + stream[at..][..n] == stream[..at + n]
      ensures stream[at..][n..] == stream[at + n..]
    {
    }

    /** `memcpy` into the caller's memory. */
    static method Store(data: array<byte>, at: nat, piece: bytes)
      requires at + |piece| <= data.Length
      modifies data
      ensures data[..at + |piece|] == old(data[..at]) + piece
    {
      forall i | 0 <= i < |piece| {
        data[at + i] := piece[i];
      }
    }

    /** `read_exact_buffer` */
    method ReadExact(length: nat) returns (r: Result<bytes, ()>)
      requires Valid()
      modifies this, socket`incoming, socket`schedule
      ensures Valid()
      ensures old(socket.Healthy()) ==> socket.Healthy()
      ensures r.Ok? ==> TakeBytes(old(Unread()), length) == Parsed(r.value, Unread())
      ensures r.Err? ==> |old(Unread())| < length || !old(socket.Healthy())
    {
      var data := new byte[length];
      var ok := ReadExactInto(data);
      r := if ok then Ok(data[..]) else Err(());
    }

    /** `write_all`: everything is sent, or an initial part of it and a failure. */
    method WriteAll(data: bytes) returns (ok: bool)
      modifies socket`sent, socket`schedule
      ensures old(socket.Healthy()) ==> ok && socket.Healthy()
      ensures ok ==> socket.sent == old(socket.sent) + data
      ensures !ok ==> exists n :: 0 <= n < |data| && socket.sent == old(socket.sent) + data[..n]
    {
      var at := 0;
      while at < |data|
        invariant 0 <= at <= |data| && socket.sent == old(socket.sent) + data[..at]
        invariant old(socket.Healthy()) ==> socket.Healthy()
      {
        var r := socket.WriteSome(data[at..]);
        if r.Err? {
          return false;
        }
        assert data[..at] + data[at..][..r.value] == data[..at + r.value];
        at := at + r.value;
      }
      ok := true;
    }
  }
}

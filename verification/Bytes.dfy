/** Byte strings, the fixed-width and length-encoded integers of the MySQL
    client/server protocol, and the cursor that reads them back. */
module Bytes {

  type byte = b: int | 0 <= b < 256
  type bytes = seq<byte>

  const U64: nat := 0x1_0000_0000_0000_0000

  type u16 = n: int | 0 <= n < 0x1_0000
  type u32 = n: int | 0 <= n < 0x1_0000_0000
  type u64 = n: int | 0 <= n < U64

  /** A byte string whose length fits `std::size_t`. */
  type blob = s: bytes | |s| < U64 witness []

  datatype Option<+T> = None | Some(value: T)

  /** `value_or(0)` */
  function ValueOr(n: Option<nat>): nat {
    if n.Some? then n.value else 0
  }

  /** The outcome of an operation that throws in the original. */
  datatype Result<+T, +E> = Ok(value: T) | Err(error: E) {
    predicate IsFailure() { Err? }

    function PropagateFailure<U>(): Result<U, E>
      requires Err?
    {
      Err(error)
    }

    function Extract(): T
      requires Ok?
    {
      value
    }
  }

  /** What reading one item from the front of a byte string gives: the item and
      the bytes behind it, or the "unexpected end of packet" failure. */
  datatype Parsed<+T> = Parsed(value: T, rest: bytes) | Malformed {
    predicate IsFailure() { Malformed? }

    function PropagateFailure<U>(): Parsed<U>
      requires Malformed?
    {
      Malformed
    }

    function Extract(): (T, bytes)
      requires Parsed?
    {
      (value, rest)
    }
  }

  /** A list whose first items were read before. */
  function Prepended<T>(front: seq<T>, r: Parsed<seq<T>>): Parsed<seq<T>> {
    match r
    case Malformed => Malformed
    case Parsed(items, rest) => Parsed(front + items, rest)
  }

  lemma PrependedTwice<T>(front: seq<T>, next: T, r: Parsed<seq<T>>)
    ensures Prepended(front, Prepended([next], r)) == Prepended(front + [next], r)
  {
    if r.Parsed? {
      assert front + ([next] + r.value) == front + [next] + r.value;
    }
  }

  lemma PrependedNothing<T>(r: Parsed<seq<T>>)
    ensures Prepended([], r) == r
  {
    if r.Parsed? {
      assert [] + r.value == r.value;
    }
  }

  lemma PrependedAll<T>(front: seq<T>, rest: bytes)
    ensures Prepended(front, Parsed([], rest)) == Parsed(front, rest)
  {
    assert front + [] == front;
  }

  // -------------------------------------------------------------------- text

  /** Text whose characters stand for the bytes of its utf8 encoding. */
  predicate IsByteText(s: string) {
    forall i :: 0 <= i < |s| ==> s[i] as int < 256
  }

  function AsText(s: bytes): (t: string)
    ensures |t| == |s| && IsByteText(t)
  {
    seq(|s|, i requires 0 <= i < |s| => s[i] as char)
  }

  function AsBytes(t: string): (s: bytes)
    requires IsByteText(t)
    ensures |s| == |t|
  {
    seq(|t|, i requires 0 <= i < |t| => t[i] as int)
  }

  lemma TextInverse(t: string)
    requires IsByteText(t)
    ensures AsText(AsBytes(t)) == t
  {
  }

  // ---------------------------------------------------------------- integers

  function Pow256(n: nat): (p: nat)
    ensures p >= 1
  {
    if n == 0 then 1 else 256 * Pow256(n - 1)
  }

  lemma Pow256Values()
    ensures Pow256(1) == 0x100 && Pow256(2) == 0x1_0000 && Pow256(3) == 0x100_0000
    ensures Pow256(4) == 0x1_0000_0000 && Pow256(5) == 0x100_0000_0000
    ensures Pow256(6) == 0x1_0000_0000_0000 && Pow256(8) == 0x1_0000_0000_0000_0000
  {
    assert Pow256(2) == 256 * Pow256(1);
    assert Pow256(3) == 256 * Pow256(2);
    assert Pow256(4) == 256 * Pow256(3);
    assert Pow256(5) == 256 * Pow256(4);
    assert Pow256(6) == 256 * Pow256(5);
    assert Pow256(7) == 256 * Pow256(6);
    assert Pow256(8) == 256 * Pow256(7);
  }

  /** The low `width` bytes of `value`, least significant first. */
  function LittleEndian(value: nat, width: nat): (s: bytes)
    ensures |s| == width
  {
    if width == 0 then [] else [value % 256] + LittleEndian(value / 256, width - 1)
  }

  function FromLittleEndian(s: bytes): nat {
    if s == [] then 0 else s[0] + 256 * FromLittleEndian(s[1..])
  }

  /** The low `width` bytes of `value`, most significant first. */
  function BigEndian(value: nat, width: nat): (s: bytes)
    ensures |s| == width
  {
    if width == 0 then [] else BigEndian(value / 256, width - 1) + [value % 256]
  }

  function FromBigEndian(s: bytes): nat {
    if s == [] then 0 else 256 * FromBigEndian(s[..|s| - 1]) + s[|s| - 1]
  }

  lemma {:induction false} LittleEndianInverse(value: nat, width: nat)
    requires value < Pow256(width)
    ensures FromLittleEndian(LittleEndian(value, width)) == value
  {
    if width > 0 {
      LittleEndianInverse(value / 256, width - 1);
      assert LittleEndian(value, width)[1..] == LittleEndian(value / 256, width - 1);
    }
  }

  lemma LowByte(low: byte, high: nat)
    ensures (low + 256 * high) % 256 == low && (low + 256 * high) / 256 == high
  {
  }

  lemma {:induction false} FromLittleEndianBound(s: bytes)
    ensures FromLittleEndian(s) < Pow256(|s|)
  {
    if s != [] {
      FromLittleEndianBound(s[1..]);
    }
  }

  lemma {:induction false} FromLittleEndianInverse(s: bytes)
    ensures LittleEndian(FromLittleEndian(s), |s|) == s
  {
    if s != [] {
      FromLittleEndianInverse(s[1..]);
      LowByte(s[0], FromLittleEndian(s[1..]));
      assert s == [s[0]] + s[1..];
    }
  }

  lemma {:induction false} BigEndianInverse(value: nat, width: nat)
    requires value < Pow256(width)
    ensures FromBigEndian(BigEndian(value, width)) == value
  {
    if width > 0 {
      BigEndianInverse(value / 256, width - 1);
      var s := BigEndian(value, width);
      assert s[..width - 1] == BigEndian(value / 256, width - 1);
    }
  }

  lemma {:induction false} FromBigEndianBound(s: bytes)
    ensures FromBigEndian(s) < Pow256(|s|)
  {
    if s != [] {
      FromBigEndianBound(s[..|s| - 1]);
    }
  }

  // ------------------------------------------------- length-encoded integers

  /** `append_lenenc_int` */
  function Lenenc(value: nat): (s: bytes)
    requires value < U64
    ensures 1 <= |s| <= 9
    ensures s[0] != 0xfb && s[0] != 0xff
    ensures s[0] == 0xfe ==> |s| == 9
    ensures s[0] == 0 <==> value == 0
  {
    if value < 0xfb then [value]
    else if value <= 0xffff then [0xfc] + LittleEndian(value, 2)
    else if value <= 0xffffff then [0xfd] + LittleEndian(value, 3)
    else [0xfe] + LittleEndian(value, 8)
  }

  /** `append_lenenc_buffer` */
  function LenencBytes(value: bytes): (s: bytes)
    requires |value| < U64
    ensures s == Lenenc(|value|) + value
  {
    Lenenc(|value|) + value
  }

  // ------------------------------------------------------------ reading back

  function TakeBytes(s: bytes, count: nat): (r: Parsed<bytes>)
    ensures r.Parsed? <==> count <= |s|
    ensures r.Parsed? ==> r.value + r.rest == s && |r.value| == count
  {
    if count <= |s| then
      assert s[..count] + s[count..] == s;
      Parsed(s[..count], s[count..])
    else Malformed
  }

  function TakeLE(s: bytes, width: nat): (r: Parsed<nat>)
    ensures r.Parsed? <==> width <= |s|
    ensures r.Parsed? ==> r.value < Pow256(width) && LittleEndian(r.value, width) + r.rest == s
  {
    if width <= |s| then
      FromLittleEndianInverse(s[..width]);
      FromLittleEndianBound(s[..width]);
      assert s[..width] + s[width..] == s;
      Parsed(FromLittleEndian(s[..width]), s[width..])
    else Malformed
  }

  function TakeBE(s: bytes, width: nat): (r: Parsed<nat>)
    ensures r.Parsed? <==> width <= |s|
    ensures r.Parsed? ==> r.value < Pow256(width) && r.rest == s[width..]
  {
    if width <= |s| then
      FromBigEndianBound(s[..width]);
      Parsed(FromBigEndian(s[..width]), s[width..])
    else Malformed
  }

  /** `PacketCursor::read_lenenc_int`; `None` is the NULL marker 0xfb. */
  function TakeLenenc(s: bytes): (r: Parsed<Option<nat>>)
    ensures r.Parsed? ==> |r.rest| < |s| && s[|s| - |r.rest|..] == r.rest
    ensures r.Parsed? && r.value.Some? ==> r.value.value < U64
  {
    if |s| == 0 then Malformed
    else if s[0] < 0xfb then Parsed(Some(s[0]), s[1..])
    else if s[0] == 0xfb then Parsed(None, s[1..])
    else if s[0] == 0xff then Malformed
    else
      Pow256Values();
      var width := if s[0] == 0xfc then 2 else if s[0] == 0xfd then 3 else 8;
      var (value, rest) :- TakeLE(s[1..], width);
      assert |rest| == |s| - 1 - width && rest == s[1..][width..];
      Parsed(Some(value), rest)
  }

  /** `PacketCursor::read_lenenc_buffer` and its view and string forms. */
  function TakeLenencBytes(s: bytes): (r: Parsed<Option<bytes>>)
    ensures r.Parsed? ==> |r.rest| < |s| && s[|s| - |r.rest|..] == r.rest
    ensures r.Parsed? && r.value.Some? ==> |r.value.value| < U64
  {
    var (length, rest) :- TakeLenenc(s);
    if length.None? then Parsed(None, rest)
    else
      var (value, tail) :- TakeBytes(rest, length.value);
      assert tail == rest[length.value..];
      Parsed(Some(value), tail)
  }

  /** `b << 8 * i` */
  function Shift(b: byte, i: nat): nat {
    b * Pow256(i)
  }

  lemma {:induction false} LittleEndianSnoc(s: bytes, i: nat)
    requires i < |s|
    ensures FromLittleEndian(s[..i + 1]) == FromLittleEndian(s[..i]) + Shift(s[i], i)
  {
    if i > 0 {
      LittleEndianSnoc(s[1..], i - 1);
      assert s[..i + 1][1..] == s[1..][..i] && s[..i][1..] == s[1..][..i - 1];
      assert 256 * Shift(s[i], i - 1) == Shift(s[i], i);
    }
  }

  function ZeroBytes(count: nat): (s: bytes)
    ensures |s| == count && forall i :: 0 <= i < count ==> s[i] == 0
  {
    seq(count, _ => 0)
  }

  lemma DropPrefix(a: bytes, b: bytes)
    ensures (a + b)[..|a|] == a && (a + b)[|a|..] == b
  {
  }

  lemma Concat3(a: bytes, b: bytes, c: bytes)
    ensures a + b + c == a + (b + c)
  {
  }

  lemma TakeBytesInverse(value: bytes, rest: bytes)
    ensures TakeBytes(value + rest, |value|) == Parsed(value, rest)
  {
    DropPrefix(value, rest);
  }

  lemma {:induction false} TakeLEInverse(value: nat, width: nat, rest: bytes)
    requires value < Pow256(width)
    ensures TakeLE(LittleEndian(value, width) + rest, width) == Parsed(value, rest)
  {
    DropPrefix(LittleEndian(value, width), rest);
    LittleEndianInverse(value, width);
  }

  lemma {:induction false} TakeBEInverse(value: nat, width: nat, rest: bytes)
    requires value < Pow256(width)
    ensures TakeBE(BigEndian(value, width) + rest, width) == Parsed(value, rest)
  {
    DropPrefix(BigEndian(value, width), rest);
    BigEndianInverse(value, width);
  }

  lemma TakeLenencInverse(value: nat, rest: bytes)
    requires value < U64
    ensures TakeLenenc(Lenenc(value) + rest) == Parsed(Some(value), rest)
  {
    if value < 0xfb {
      assert ([value] + rest)[1..] == rest;
    } else if value <= 0xffff {
      TakeWideInverse(0xfc, value, 2, rest);
    } else if value <= 0xffffff {
      TakeWideInverse(0xfd, value, 3, rest);
    } else {
      TakeWideInverse(0xfe, value, 8, rest);
    }
  }

  lemma TakeWideInverse(marker: byte, value: nat, width: nat, rest: bytes)
    requires (marker, width) in {(0xfc, 2), (0xfd, 3), (0xfe, 8)}
    requires value < (if width == 2 then 0x1_0000 else if width == 3 then 0x100_0000 else U64)
    ensures TakeLenenc([marker] + LittleEndian(value, width) + rest) == Parsed(Some(value), rest)
  {
    var s := [marker] + LittleEndian(value, width) + rest;
    assert value < Pow256(width) by { Pow256Values(); }
    assert s[1..] == LittleEndian(value, width) + rest;
    TakeLEInverse(value, width, rest);
  }

  lemma TakeLenencBytesInverse(value: bytes, rest: bytes)
    requires |value| < U64
    ensures TakeLenencBytes(LenencBytes(value) + rest) == Parsed(Some(value), rest)
  {
    assert LenencBytes(value) + rest == Lenenc(|value|) + (value + rest);
    TakeLenencInverse(|value|, value + rest);
    TakeBytesInverse(value, rest);
  }

  /** `PacketCursor`: a payload and the offset that each read advances. */
  class PacketCursor {
    const payload: bytes
    var offset: nat

    ghost predicate Valid()
      reads this
    {
      offset <= |payload|
    }

    /** The bytes not read yet. */
    function Rest(): bytes
      reads this
      requires Valid()
    {
      payload[offset..]
    }

    constructor (payload: bytes)
      ensures Valid() && this.payload == payload && offset == 0 && Rest() == payload
    {
      this.payload := payload;
      offset := 0;
    }

    method HasMore() returns (more: bool)
      requires Valid()
      ensures more <==> Rest() != []
    {
      more := offset < |payload|;
    }

    method ReadBuffer(length: nat) returns (r: Result<bytes, ()>)
      requires Valid()
      modifies this`offset
      ensures Valid() && old(offset) <= offset
      ensures r.Err? <==> TakeBytes(old(Rest()), length).Malformed?
      ensures r.Ok? ==> TakeBytes(old(Rest()), length) == Parsed(r.value, Rest())
      ensures r.Ok? ==> r.value == payload[old(offset)..offset] && offset == old(offset) + length
      ensures r.Err? ==> offset == old(offset)
    {
      if offset + length > |payload| {
        return Err(());
      }
      r := Ok(payload[offset..offset + length]);
      offset := offset + length;
      assert payload[old(offset)..][length..] == payload[offset..];
      assert payload[old(offset)..][..length] == r.value;
    }

    /** `read_u8`, `read_u16_le`, `read_u24_le`, `read_u32_le`, `read_u64_le`,
        `read_u48_le` and `read_le_integer`, by width. */
    method ReadLE(width: nat) returns (r: Result<nat, ()>)
      requires Valid()
      modifies this`offset
      ensures Valid() && old(offset) <= offset
      ensures r.Err? <==> TakeLE(old(Rest()), width).Malformed?
      ensures r.Ok? ==> TakeLE(old(Rest()), width) == Parsed(r.value, Rest())
      ensures r.Ok? ==> offset == old(offset) + width
      ensures r.Err? ==> offset == old(offset)
    {
      var window :- ReadBuffer(width);
      var value: nat := 0;
      for i := 0 to width
        modifies {}
        invariant |window| == width && value == FromLittleEndian(window[..i])
      {
        LittleEndianSnoc(window, i);
        value := value + Shift(window[i], i);
      }
      assert window[..width] == window;
      r := Ok(value);
    }

    /** `read_be_integer` */
    method ReadBE(width: nat) returns (r: Result<nat, ()>)
      requires Valid()
      modifies this`offset
      ensures Valid() && old(offset) <= offset
      ensures r.Err? <==> TakeBE(old(Rest()), width).Malformed?
      ensures r.Ok? ==> TakeBE(old(Rest()), width) == Parsed(r.value, Rest())
      ensures r.Ok? ==> offset == old(offset) + width
    {
      var window :- ReadBuffer(width);
      var value: nat := 0;
      for i := 0 to width
        modifies {}
        invariant |window| == width && value == FromBigEndian(window[..i])
      {
        assert window[..i + 1][..i] == window[..i];
        value := 256 * value + window[i];
      }
      assert window[..width] == window;
      r := Ok(value);
    }

    method ReadLenenc() returns (r: Result<Option<nat>, ()>)
      requires Valid()
      modifies this`offset
      ensures Valid() && old(offset) <= offset
      ensures r.Err? <==> TakeLenenc(old(Rest())).Malformed?
      ensures r.Ok? ==> TakeLenenc(old(Rest())) == Parsed(r.value, Rest())
      ensures r.Ok? ==> old(offset) < offset
    {
      var first :- ReadLE(1);
      ghost var s := old(Rest());
      assert s[..1] == [s[0]] && FromLittleEndian([s[0]]) == s[0];
      assert first == s[0] && Rest() == s[1..];
      if first < 0xfb {
        return Ok(Some(first));
      }
      if first == 0xfb {
        return Ok(None);
      }
      if first == 0xff {
        return Err(());
      }
      var value :- ReadLE(if first == 0xfc then 2 else if first == 0xfd then 3 else 8);
      r := Ok(Some(value));
    }

    method ReadLenencBytes() returns (r: Result<Option<bytes>, ()>)
      requires Valid()
      modifies this`offset
      ensures Valid() && old(offset) <= offset
      ensures r.Err? <==> TakeLenencBytes(old(Rest())).Malformed?
      ensures r.Ok? ==> TakeLenencBytes(old(Rest())) == Parsed(r.value, Rest())
      ensures r.Ok? ==> old(offset) < offset
    {
      var length :- ReadLenenc();
      if length.None? {
        return Ok(None);
      }
      var value :- ReadBuffer(length.value);
      r := Ok(Some(value));
    }
  }
}

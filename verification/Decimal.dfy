/** The packed DECIMAL of row events: groups of nine digits in four bytes, a
    shorter group at each end, and the sign in the top bit. */
module Decimal {
  import opened Bytes
  import opened Digits

  /** The bytes for a group of `digits` digits. */
  function GroupSize(digits: nat): (size: nat)
    requires digits <= 9
    ensures size <= 4 && (size == 0 <==> digits == 0)
  {
    if digits == 0 then 0 else if digits <= 2 then 1 else if digits <= 4 then 2 else if digits <= 6 then 3 else 4
  }

  /** A group always leaves the top bit of its first byte free for the sign. */
  lemma GroupFits(digits: nat)
    requires 1 <= digits <= 9
    ensures 2 * Pow10(digits) <= Pow256(GroupSize(digits))
  {
    Pow256Values();
    assert Pow10(1) == 10 * Pow10(0) && Pow10(2) == 10 * Pow10(1) && Pow10(3) == 10 * Pow10(2);
    assert Pow10(4) == 10 * Pow10(3) && Pow10(5) == 10 * Pow10(4) && Pow10(6) == 10 * Pow10(5);
    assert Pow10(7) == 10 * Pow10(6) && Pow10(8) == 10 * Pow10(7) && Pow10(9) == 10 * Pow10(8);
  }

  /** The bytes for a run of digits: four for every nine, and a shorter group. */
  function PartSize(digits: nat): (size: nat)
    ensures size == 0 <==> digits == 0
  {
    digits / 9 * 4 + GroupSize(digits % 9)
  }

  function ByteCount(precision: nat, scale: nat): (size: nat)
    requires scale <= precision
    ensures size == 0 <==> precision == 0
  {
    PartSize(precision - scale) + PartSize(scale)
  }

  // ------------------------------------------------------- the stored form

  /** One group of up to nine digits. */
  function Group(ds: string): (s: bytes)
    requires AllDigits(ds) && |ds| <= 9
    ensures |s| == GroupSize(|ds|)
  {
    BigEndian(ValueOf(ds), GroupSize(|ds|))
  }

  /** Full groups. */
  function Nines(ds: string): (s: bytes)
    requires AllDigits(ds) && |ds| % 9 == 0
    ensures |s| == |ds| / 9 * 4
  {
    if ds == [] then [] else Group(ds[..9]) + Nines(ds[9..])
  }

  /** The integer digits: the short group comes first. */
  function PackInteger(ds: string): (s: bytes)
    requires AllDigits(ds)
    ensures |s| == PartSize(|ds|)
  {
    var x := |ds| % 9;
    Group(ds[..x]) + Nines(ds[x..])
  }

  /** The fraction digits: the short group comes last. */
  function PackFraction(ds: string): (s: bytes)
    requires AllDigits(ds)
    ensures |s| == PartSize(|ds|)
  {
    var n := |ds| - |ds| % 9;
    Nines(ds[..n]) + Group(ds[n..])
  }

  /** `b ^ 0x80` */
  function FlipTop(b: byte): byte {
    if b >= 128 then b - 128 else b + 128
  }

  /** `b ^ 0xff` for every byte. */
  function Complement(s: bytes): (r: bytes)
    ensures |r| == |s| && forall i :: 0 <= i < |s| ==> r[i] == 255 - s[i]
  {
    seq(|s|, i requires 0 <= i < |s| => 255 - s[i])
  }

  /** The sign: a negative number has every bit inverted, and then the top bit of
      every number is inverted. */
  function Sign(s: bytes, negative: bool): (r: bytes)
    requires s != []
    ensures |r| == |s|
  {
    var t := if negative then Complement(s) else s;
    t[0 := FlipTop(t[0])]
  }

  /** The stored form of a number given by its sign and its digits. */
  function Pack(negative: bool, intDigits: string, fracDigits: string): (s: bytes)
    requires AllDigits(intDigits) && AllDigits(fracDigits) && |intDigits| + |fracDigits| > 0
    ensures |s| == ByteCount(|intDigits| + |fracDigits|, |fracDigits|)
  {
    Sign(PackInteger(intDigits) + PackFraction(fracDigits), negative)
  }

  // --------------------------------------------------------------- decoding

  /** `count` full groups as text. */
  function NinesText(s: bytes, count: nat): (t: string)
    requires |s| >= 4 * count
    ensures AllDigits(t)
  {
    if count == 0 then [] else ZeroFill(ToText(FromBigEndian(s[..4])), 9) + NinesText(s[4..], count - 1)
  }

  /** The integer part of the text; only its first group is not filled up. */
  function IntegerText(s: bytes, intg: nat): (t: string)
    requires |s| >= PartSize(intg)
    ensures AllDigits(t) && t != []
  {
    var x, n := intg % 9, intg / 9;
    if x > 0 then ToText(FromBigEndian(s[..GroupSize(x)])) + NinesText(s[GroupSize(x)..], n)
    else if n > 0 then ToText(FromBigEndian(s[..4])) + NinesText(s[4..], n - 1)
    else "0"
  }

  function FractionText(s: bytes, scale: nat): (t: string)
    requires |s| >= PartSize(scale)
    ensures AllDigits(t)
  {
    var x, n := scale % 9, scale / 9;
    NinesText(s, n) + (if x > 0 then ZeroFill(ToText(FromBigEndian(s[4 * n..4 * n + GroupSize(x)])), x) else [])
  }

  /** `read_newdecimal_string` on the stored bytes. */
  function Decode(stored: bytes, precision: nat, scale: nat): string
    requires 0 < precision && scale <= precision && |stored| == ByteCount(precision, scale)
  {
    var positive := stored[0] >= 128;
    var flipped := stored[0 := FlipTop(stored[0])];
    PlainText(positive, if positive then flipped else Complement(flipped), precision - scale, scale)
  }

  /** The text for the bytes without the sign. */
  function PlainText(positive: bool, plain: bytes, intg: nat, scale: nat): string
    requires |plain| == PartSize(intg) + PartSize(scale)
  {
    (if positive then "" else "-") + IntegerText(plain, intg)
      + (if scale > 0 then "." + FractionText(plain[PartSize(intg)..], scale) else "")
  }

  // ------------------------------------------------------------- exactness

  lemma {:induction false} GroupText(ds: string, rest: bytes)
    requires AllDigits(ds) && 1 <= |ds| <= 9
    ensures var s := Group(ds) + rest;
      && FromBigEndian(s[..GroupSize(|ds|)]) == ValueOf(ds)
      && s[GroupSize(|ds|)..] == rest
      && ZeroFill(ToText(ValueOf(ds)), |ds|) == ds
  {
    ValueBound(ds);
    GroupFits(|ds|);
    BigEndianInverse(ValueOf(ds), GroupSize(|ds|));
    DropPrefix(Group(ds), rest);
    ZeroFillFixed(ValueOf(ds), |ds|);
  }

  lemma {:induction false} NinesTextExact(ds: string, rest: bytes)
    requires AllDigits(ds) && |ds| % 9 == 0
    ensures NinesText(Nines(ds) + rest, |ds| / 9) == ds
    ensures (Nines(ds) + rest)[|ds| / 9 * 4..] == rest
  {
    hide Group, ValueOf, ToText, ZeroFill, FromBigEndian;
    if ds != [] {
      var more := Nines(ds[9..]) + rest;
      Concat3(Group(ds[..9]), Nines(ds[9..]), rest);
      GroupText(ds[..9], more);
      NinesTextExact(ds[9..], rest);
      DropPrefix(Nines(ds), rest);
      assert |ds| / 9 == |ds[9..]| / 9 + 1;
      assert ds == ds[..9] + ds[9..];
    } else {
      assert [] + rest == rest;
    }
  }

  /** The integer text: the digits, except that the leading zeros of the first
      group are dropped. */
  function Shown(ds: string): (t: string)
    requires AllDigits(ds)
    ensures AllDigits(t) && t != []
  {
    if ds == [] then "0"
    else
      var x := if |ds| % 9 == 0 then 9 else |ds| % 9;
      ToText(ValueOf(ds[..x])) + ds[x..]
  }

  lemma {:induction false} ShownDenotes(ds: string)
    requires AllDigits(ds)
    ensures ValueOf(Shown(ds)) == ValueOf(ds)
  {
    if ds == [] {
      assert "0"[..0] == [];
      assert ValueOf("0") == 10 * ValueOf([]) + DigitValue('0');
    } else {
      hide ValueOf, ToText;
      ShortenedDenotes(ds, if |ds| % 9 == 0 then 9 else |ds| % 9);
    }
  }

  lemma {:induction false} ShortenedDenotes(ds: string, x: nat)
    requires AllDigits(ds) && x <= |ds|
    ensures AllDigits(ToText(ValueOf(ds[..x])) + ds[x..])
    ensures ValueOf(ToText(ValueOf(ds[..x])) + ds[x..]) == ValueOf(ds)
  {
    var first, others := ds[..x], ds[x..];
    ToTextValue(ValueOf(first));
    ValueOfConcat(ToText(ValueOf(first)), others);
    ValueOfConcat(first, others);
    hide ValueOf, ToText, Pow10;
    assert ds == first + others;
  }

  lemma IntegerTextExact(ds: string, rest: bytes)
    requires AllDigits(ds)
    ensures IntegerText(PackInteger(ds) + rest, |ds|) == Shown(ds)
    ensures (PackInteger(ds) + rest)[PartSize(|ds|)..] == rest
  {
    DropPrefix(PackInteger(ds), rest);
    if ds == [] {
    } else if |ds| % 9 > 0 {
      ShortGroupFirst(ds, rest);
    } else {
      FullGroupFirst(ds, rest);
    }
  }

  lemma ShortGroupFirst(ds: string, rest: bytes)
    requires AllDigits(ds) && |ds| % 9 > 0
    ensures IntegerText(PackInteger(ds) + rest, |ds|) == Shown(ds)
  {
    hide ValueOf, ToText, Nines, Group, NinesText, FromBigEndian;
    var x := |ds| % 9;
    Concat3(Group(ds[..x]), Nines(ds[x..]), rest);
    GroupText(ds[..x], Nines(ds[x..]) + rest);
    NinesTextExact(ds[x..], rest);
    assert |ds[x..]| / 9 == |ds| / 9;
  }

  lemma FullGroupFirst(ds: string, rest: bytes)
    requires AllDigits(ds) && |ds| % 9 == 0 && ds != []
    ensures IntegerText(PackInteger(ds) + rest, |ds|) == Shown(ds)
  {
    var more := Nines(ds[9..]) + rest;
    assert ds[..0] == [] && ds[0..] == ds && Group([]) == [];
    assert PackInteger(ds) == Group(ds[..9]) + Nines(ds[9..]);
    hide ValueOf, ToText, Nines, Group, NinesText, FromBigEndian, PackInteger;
    Concat3(Group(ds[..9]), Nines(ds[9..]), rest);
    GroupText(ds[..9], more);
    NinesTextExact(ds[9..], rest);
    assert |ds[9..]| / 9 == |ds| / 9 - 1;
  }

  lemma FractionTextExact(ds: string)
    requires AllDigits(ds)
    ensures FractionText(PackFraction(ds), |ds|) == ds
  {
    hide ValueOf, ToText, Nines, NinesText, FromBigEndian, ZeroFill, Group;
    var x, n := |ds| % 9, |ds| / 9;
    var whole, last := ds[..|ds| - x], ds[|ds| - x..];
    NinesTextExact(whole, Group(last));
    assert |whole| / 9 == n;
    assert whole + last == ds;
    if x > 0 {
      LastGroup(Nines(whole), last);
    } else {
      assert whole + [] == whole == ds;
    }
  }

  lemma LastGroup(front: bytes, last: string)
    requires AllDigits(last) && 1 <= |last| <= 9
    ensures var s, n := front + Group(last), |front|;
      ZeroFill(ToText(FromBigEndian(s[n..n + GroupSize(|last|)])), |last|) == last
  {
    hide ValueOf, ToText, FromBigEndian, ZeroFill, Group;
    GroupText(last, []);
    var s, n := front + Group(last), |front|;
    assert Group(last) + [] == Group(last);
    assert s[n..n + GroupSize(|last|)] == Group(last);
    assert Group(last)[..GroupSize(|last|)] == Group(last);
  }

  lemma IntegerTop(ds: string)
    requires AllDigits(ds) && ds != []
    ensures PackInteger(ds)[0] < 128
  {
    hide BigEndian, ValueOf;
    if |ds| % 9 > 0 {
      GroupTop(ds[..|ds| % 9]);
    } else {
      assert ds[..0] == [] && ds[0..] == ds;
      GroupTop(ds[..9]);
    }
  }

  lemma FractionTop(ds: string)
    requires AllDigits(ds) && ds != []
    ensures PackFraction(ds)[0] < 128
  {
    hide BigEndian, ValueOf;
    if |ds| >= 9 {
      GroupTop(ds[..|ds| - |ds| % 9][..9]);
    } else {
      assert ds[..0] == [] && ds[0..] == ds;
      GroupTop(ds);
    }
  }

  /** The first byte before the sign is put in is below 128. */
  lemma TopBitFree(intDigits: string, fracDigits: string)
    requires AllDigits(intDigits) && AllDigits(fracDigits) && |intDigits| + |fracDigits| > 0
    ensures (PackInteger(intDigits) + PackFraction(fracDigits))[0] < 128
  {
    hide PackInteger, PackFraction;
    if intDigits != [] {
      IntegerTop(intDigits);
    } else {
      FractionTop(fracDigits);
    }
  }

  lemma GroupTop(ds: string)
    requires AllDigits(ds) && 1 <= |ds| <= 9
    ensures Group(ds)[0] < 128
  {
    ValueBound(ds);
    GroupFits(|ds|);
    BigEndianTop(ValueOf(ds), GroupSize(|ds|));
  }

  lemma {:induction false} BigEndianTop(value: nat, width: nat)
    requires width >= 1 && 2 * value < Pow256(width)
    ensures BigEndian(value, width)[0] < 128
  {
    if width > 1 {
      BigEndianTop(value / 256, width - 1);
    } else {
      assert Pow256(1) == 256 * Pow256(0);
      assert BigEndian(value / 256, 0) == [];
    }
  }

  lemma SignInverse(s: bytes, negative: bool)
    requires s != [] && s[0] < 128
    ensures var r := Sign(s, negative);
      var flipped := r[0 := FlipTop(r[0])];
      && (r[0] >= 128 <==> !negative)
      && (if negative then Complement(flipped) else flipped) == s
  {
    var t := if negative then Complement(s) else s;
    assert t[0 := FlipTop(t[0])][0 := t[0]] == t;
    if negative {
      assert Complement(Complement(s)) == s;
    }
  }

  /** Decoding is exact for every precision and scale, every string of digits and
      either sign: the sign, the integer text, and every fraction digit. */
  lemma DecimalExact(negative: bool, intDigits: string, fracDigits: string)
    requires AllDigits(intDigits) && AllDigits(fracDigits) && |intDigits| + |fracDigits| > 0
    ensures Decode(Pack(negative, intDigits, fracDigits), |intDigits| + |fracDigits|, |fracDigits|)
         == (if negative then "-" else "") + Shown(intDigits) + (if fracDigits == "" then "" else "." + fracDigits)
    ensures ValueOf(Shown(intDigits)) == ValueOf(intDigits)
  {
    hide PackInteger, PackFraction, PlainText, PartSize, Shown, ValueOf, Complement, FlipTop, Sign;
    TopBitFree(intDigits, fracDigits);
    SignInverse(PackInteger(intDigits) + PackFraction(fracDigits), negative);
    PlainTextExact(negative, intDigits, fracDigits);
    ShownDenotes(intDigits);
  }

  lemma PlainTextExact(negative: bool, intDigits: string, fracDigits: string)
    requires AllDigits(intDigits) && AllDigits(fracDigits)
    ensures PlainText(!negative, PackInteger(intDigits) + PackFraction(fracDigits), |intDigits|, |fracDigits|)
         == (if negative then "-" else "") + Shown(intDigits) + (if fracDigits == "" then "" else "." + fracDigits)
  {
    hide PackInteger, PackFraction, IntegerText, FractionText, Shown, PartSize, ValueOf;
    IntegerTextExact(intDigits, PackFraction(fracDigits));
    FractionTextExact(fracDigits);
  }

  // ------------------------------------------------------------- the reader

  /** The next `length` bytes of an array, most significant first. */
  method ReadBE(data: array<byte>, offset: nat, length: nat) returns (value: nat)
    requires offset + length <= data.Length
    ensures value == FromBigEndian(data[offset..offset + length])
  {
    value := 0;
    for i := 0 to length
      invariant value == FromBigEndian(data[offset..offset + i])
    {
      assert data[offset..offset + i + 1][..i] == data[offset..offset + i];
      value := 256 * value + data[offset + i];
    }
  }

  /** The sign loop: the bytes are turned back in place. */
  method Unsign(data: array<byte>) returns (positive: bool)
    requires data.Length > 0
    modifies data
    ensures positive <==> old(data[0]) >= 128
    ensures var flipped := old(data[..])[0 := FlipTop(old(data[0]))];
      data[..] == if positive then flipped else Complement(flipped)
  {
    positive := data[0] >= 128;
    data[0] := FlipTop(data[0]);
    ghost var flipped := data[..];
    assert flipped == old(data[..])[0 := FlipTop(old(data[0]))];
    if !positive {
      for i := 0 to data.Length
        invariant forall j :: 0 <= j < i ==> data[j] == 255 - flipped[j]
        invariant forall j :: i <= j < data.Length ==> data[j] == flipped[j]
      {
        data[i] := 255 - data[i];
      }
      assert data[..] == Complement(flipped);
    }
  }

  /** A loop over `count` full groups, each filled up to nine digits. */
  method AppendNines(data: array<byte>, offset0: nat, count: nat, out0: string) returns (out: string, offset: nat)
    requires offset0 + 4 * count <= data.Length
    ensures offset == offset0 + 4 * count
    ensures out == out0 + NinesText(data[offset0..], count)
  {
    hide ToText, ZeroFill, FromBigEndian;
    out, offset := out0, offset0;
    for i := 0 to count
      invariant offset == offset0 + 4 * i
      invariant out0 + NinesText(data[offset0..], count) == out + NinesText(data[offset..], count - i)
    {
      var group := ReadBE(data, offset, 4);
      assert data[offset..][..4] == data[offset..offset + 4] && data[offset..][4..] == data[offset + 4..];
      out := out + ZeroFill(ToText(group), 9);
      offset := offset + 4;
    }
  }

  /** `read_newdecimal_string` */
  method ReadNewDecimal(cursor: PacketCursor, metadata: u16) returns (r: Result<string, ()>)
    requires cursor.Valid()
    modifies cursor`offset
    ensures cursor.Valid() && old(cursor.offset) <= cursor.offset
    ensures var precision, scale := metadata / 256, metadata % 256;
      if precision == 0 || scale > precision then r.Err?
      else
        match TakeBytes(old(cursor.Rest()), ByteCount(precision, scale))
        case Malformed => r.Err?
        case Parsed(stored, rest) => r == Ok(Decode(stored, precision, scale)) && cursor.Rest() == rest
  {
    var precision, scale := metadata / 256, metadata % 256;
    if precision == 0 || scale > precision {
      return Err(());
    }
    var stored :- cursor.ReadBuffer(ByteCount(precision, scale));
    var data := new byte[|stored|](i requires 0 <= i < |stored| => stored[i]);
    assert data[..] == stored;
    var text := DecodeArray(data, precision, scale);
    r := Ok(text);
  }

  method DecodeArray(data: array<byte>, precision: nat, scale: nat) returns (out: string)
    requires 0 < precision && scale <= precision && data.Length == ByteCount(precision, scale)
    modifies data
    ensures out == Decode(old(data[..]), precision, scale)
  {
    hide IntegerText, FractionText, Complement, PartSize;
    var intg := precision - scale;
    var positive := Unsign(data);
    out := if positive then "" else "-";
    out := AppendInteger(data, intg, out);
    if scale > 0 {
      out := out + ".";
      out := AppendFraction(data, PartSize(intg), scale, out);
    }
  }

  /** The integer groups; nothing is filled up before the first of them. */
  method AppendInteger(data: array<byte>, intg: nat, out0: string) returns (out: string)
    requires data.Length >= PartSize(intg)
    ensures out == out0 + IntegerText(data[..], intg)
  {
    hide NinesText, FromBigEndian, ToText;
    var intg0, intg0x := intg / 9, intg % 9;
    var offset: nat, full: nat := 0, intg0;
    out := out0;
    if intg0x > 0 {
      var group := ReadBE(data, 0, GroupSize(intg0x));
      assert data[0..GroupSize(intg0x)] == data[..][..GroupSize(intg0x)];
      out := out + ToText(group);
      offset := GroupSize(intg0x);
    } else if intg0 > 0 {
      var group := ReadBE(data, 0, 4);
      assert data[0..4] == data[..][..4];
      out := out + ToText(group);
      offset, full := 4, intg0 - 1;
    } else {
      NoNines(data[0..]);
      out := out + "0";
    }
    assert data[offset..] == data[..][offset..];
    out, offset := AppendNines(data, offset, full, out);
  }

  method AppendFraction(data: array<byte>, offset0: nat, scale: nat, out0: string) returns (out: string)
    requires data.Length >= offset0 + PartSize(scale)
    ensures out == out0 + FractionText(data[offset0..], scale)
  {
    hide NinesText, FromBigEndian, ToText, ZeroFill;
    var frac0, frac0x := scale / 9, scale % 9;
    var offset;
    out, offset := AppendNines(data, offset0, frac0, out0);
    if frac0x > 0 {
      var group := ReadBE(data, offset, GroupSize(frac0x));
      assert data[offset0..][4 * frac0..4 * frac0 + GroupSize(frac0x)] == data[offset..offset + GroupSize(frac0x)];
      out := out + ZeroFill(ToText(group), frac0x);
    }
  }

  lemma NoNines(s: bytes)
    ensures NinesText(s, 0) == ""
  {
  }
}

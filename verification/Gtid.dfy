/** GTID sets: as text, as sources with their intervals, and as bytes. */
module Gtid {
  import opened Bytes
  import opened Digits

  /** An interval with both ends included. */
  datatype Interval = Interval(start: nat, end: nat) {
    predicate Valid() {
      1 <= start <= end < U64
    }
  }

  datatype Source = Source(sid: string, intervals: seq<Interval>)

  // ---------------------------------------------------------- text utilities

  function TrimRight(s: string): (t: string)
    ensures t <= s
  {
    if s != "" && IsBlank(s[|s| - 1]) then TrimRight(s[..|s| - 1]) else s
  }

  /** `trim_ascii` */
  function Trim(s: string): (t: string)
    ensures |t| <= |s|
  {
    TrimRight(SkipBlanks(s))
  }

  method TrimAscii(s: string) returns (t: string)
    ensures t == Trim(s)
  {
    var first, last := 0, |s|;
    assert s[0..] == s;
    while first < |s| && IsBlank(s[first])
      invariant first <= |s| && SkipBlanks(s) == SkipBlanks(s[first..])
    {
      assert s[first..][1..] == s[first + 1..];
      first := first + 1;
    }
    assert SkipBlanks(s) == s[first..last];
    while last > first && IsBlank(s[last - 1])
      invariant first <= last <= |s| && TrimRight(SkipBlanks(s)) == TrimRight(s[first..last])
    {
      assert s[first..last][..last - first - 1] == s[first..last - 1];
      last := last - 1;
    }
    t := s[first..last];
  }

  /** `split_ascii` */
  function Split(s: string, delimiter: char): (parts: seq<string>)
    ensures |parts| >= 1
    decreases |s|
  {
    match IndexOf(s, delimiter)
    case None => [s]
    case Some(at) => [s[..at]] + Split(s[at + 1..], delimiter)
  }

  method SplitAscii(s: string, delimiter: char) returns (parts: seq<string>)
    ensures parts == Split(s, delimiter)
  {
    parts := [];
    var start := 0;
    assert s[0..] == s;
    while start <= |s|
      invariant start <= |s|
      invariant Split(s, delimiter) == parts + Split(s[start..], delimiter)
    {
      var pos := IndexOf(s[start..], delimiter);
      if pos.None? {
        parts := parts + [s[start..]];
        return;
      }
      assert s[start..][..pos.value] == s[start..start + pos.value];
      assert s[start..][pos.value + 1..] == s[start + pos.value + 1..];
      parts := parts + [s[start..start + pos.value]];
      start := start + pos.value + 1;
    }
  }

  function Join(parts: seq<string>, delimiter: char): string {
    if parts == [] then ""
    else if |parts| == 1 then parts[0]
    else parts[0] + [delimiter] + Join(parts[1..], delimiter)
  }

  lemma {:induction false} SplitJoin(parts: seq<string>, delimiter: char)
    requires parts != [] && forall i :: 0 <= i < |parts| ==> delimiter !in parts[i]
    ensures Split(Join(parts, delimiter), delimiter) == parts
  {
    if |parts| == 1 {
      IndexOfNone(parts[0], delimiter);
    } else {
      var more := Join(parts[1..], delimiter);
      IndexOfFirst(parts[0], delimiter, more);
      SplitJoin(parts[1..], delimiter);
      var s := parts[0] + [delimiter] + more;
      assert s[..|parts[0]|] == parts[0] && s[|parts[0]| + 1..] == more;
    }
  }

  /** Text that trimming leaves alone. */
  predicate Trimmed(s: string) {
    s == "" || (!IsBlank(s[0]) && !IsBlank(s[|s| - 1]))
  }

  lemma TrimNothing(s: string)
    requires Trimmed(s)
    ensures Trim(s) == s
  {
  }

  // ------------------------------------------------------------------- UUIDs

  predicate IsHex(c: char) {
    IsDigit(c) || 'a' <= c <= 'f' || 'A' <= c <= 'F'
  }

  predicate AllHex(s: string) {
    forall i :: 0 <= i < |s| ==> IsHex(s[i])
  }

  /** `hex_digit_value` */
  function HexValue(c: char): (d: nat)
    requires IsHex(c)
    ensures d < 16
  {
    if IsDigit(c) then DigitValue(c)
    else if 'a' <= c <= 'f' then c as int - 'a' as int + 10
    else c as int - 'A' as int + 10
  }

  function HexChar(d: nat): (c: char)
    requires d < 16
    ensures IsHex(c) && HexValue(c) == d
  {
    if d < 10 then DigitChar(d) else ('a' as int + d - 10) as char
  }

  function LowerChar(c: char): char {
    if 'A' <= c <= 'Z' then (c as int + 32) as char else c
  }

  function Lower(s: string): (t: string)
    ensures |t| == |s| && forall i :: 0 <= i < |s| ==> t[i] == LowerChar(s[i])
  {
    seq(|s|, i requires 0 <= i < |s| => LowerChar(s[i]))
  }

  /** The characters other than dashes. */
  function Strip(s: string): string {
    if s == "" then "" else StripOne(s[0]) + Strip(s[1..])
  }

  function StripOne(c: char): string {
    if c == '-' then "" else [c]
  }

  lemma Associative(a: string, b: string, c: string)
    ensures a + b + c == a + (b + c)
  {
  }

  function HexBytes(h: string): (b: bytes)
    requires AllHex(h) && |h| % 2 == 0
    ensures 2 * |b| == |h|
  {
    if h == "" then [] else [16 * HexValue(h[0]) + HexValue(h[1])] + HexBytes(h[2..])
  }

  /** `parse_uuid_bytes` */
  function UuidBytes(uuid: string): (r: Result<bytes, ()>)
    ensures r.Ok? ==> |r.value| == 16
  {
    var hex := Strip(uuid);
    if |hex| == 32 && AllHex(hex) then Ok(HexBytes(hex)) else Err(())
  }

  method StripDashes(uuid: string) returns (hex: string)
    ensures hex == Strip(uuid)
  {
    hex := "";
    for i := 0 to |uuid|
      invariant hex + Strip(uuid[i..]) == Strip(uuid)
    {
      assert uuid[i..][1..] == uuid[i + 1..];
      Associative(hex, StripOne(uuid[i]), Strip(uuid[i + 1..]));
      if uuid[i] != '-' {
        hex := hex + [uuid[i]];
      } else {
        assert hex + "" == hex;
      }
    }
    assert uuid[|uuid|..] == "" && hex + "" == hex;
  }

  method ParseUuidBytes(uuid: string) returns (r: Result<bytes, ()>)
    ensures r == UuidBytes(uuid)
  {
    hide HexValue, IsHex;
    var hex := StripDashes(uuid);
    if |hex| != 32 {
      return Err(());
    }
    var out := new byte[16](_ => 0);
    for i := 0 to 16
      invariant AllHex(hex[..2 * i])
      invariant out[..i] == HexBytes(hex[..2 * i])
    {
      var c, d := hex[2 * i], hex[2 * i + 1];
      if !IsHex(c) || !IsHex(d) {
        return Err(());
      }
      HexBytesSnoc(hex[..2 * i], c, d);
      assert hex[..2 * (i + 1)] == hex[..2 * i] + [c, d];
      ghost var before := out[..i];
      out[i] := 16 * HexValue(c) + HexValue(d);
      assert out[..i + 1] == before + [out[i]];
    }
    assert hex[..32] == hex && out[..16] == out[..];
    r := Ok(out[..]);
  }

  lemma {:induction false} HexBytesSnoc(h: string, c: char, d: char)
    requires AllHex(h) && |h| % 2 == 0 && IsHex(c) && IsHex(d)
    ensures HexBytes(h + [c, d]) == HexBytes(h) + [16 * HexValue(c) + HexValue(d)]
  {
    if h == "" {
      assert h + [c, d] == [c, d];
      assert [c, d][2..] == "";
    } else {
      HexBytesSnoc(h[2..], c, d);
      assert (h + [c, d])[2..] == h[2..] + [c, d];
    }
  }

  function HexText(b: bytes): (s: string)
    ensures |s| == 2 * |b| && AllHex(s)
  {
    if b == [] then "" else ByteText(b[0]) + HexText(b[1..])
  }

  function ByteText(b: byte): (s: string)
    ensures |s| == 2 && AllHex(s)
  {
    [HexChar(b / 16), HexChar(b % 16)]
  }

  predicate DashBefore(i: nat) {
    i == 4 || i == 6 || i == 8 || i == 10
  }

  /** `uuid_from_bytes` */
  function UuidText(b: bytes): string
    requires |b| == 16
  {
    HexText(b[..4]) + "-" + HexText(b[4..6]) + "-" + HexText(b[6..8]) + "-" + HexText(b[8..10]) + "-" + HexText(b[10..])
  }

  /** The text of the first `n` bytes, with the dashes. */
  function DashedTo(b: bytes, n: nat): string
    requires |b| == 16 && n <= 16
  {
    if n == 0 then ""
    else
      var front := DashedTo(b, n - 1);
      (if DashBefore(n - 1) then front + "-" else front) + [HexChar(b[n - 1] / 16)] + [HexChar(b[n - 1] % 16)]
  }

  method UuidFromBytes(b: bytes) returns (r: Result<string, ()>)
    ensures r.Ok? <==> |b| == 16
    ensures r.Ok? ==> r.value == UuidText(b)
  {
    hide HexChar, UuidText, HexText;
    if |b| != 16 {
      return Err(());
    }
    var out := "";
    for i := 0 to 16
      invariant out == DashedTo(b, i)
    {
      if i == 4 || i == 6 || i == 8 || i == 10 {
        out := out + "-";
      }
      out := out + [HexChar(b[i] / 16)];
      out := out + [HexChar(b[i] % 16)];
    }
    DashedIsUuidText(b);
    r := Ok(out);
  }

  lemma {:induction false} HexTextSnoc(s: bytes, b: byte)
    ensures HexText(s + [b]) == HexText(s) + [HexChar(b / 16)] + [HexChar(b % 16)]
  {
    hide HexChar;
    if s == [] {
      assert [b][1..] == [];
    } else {
      HexTextSnoc(s[1..], b);
      assert (s + [b])[1..] == s[1..] + [b];
    }
  }

  lemma PushTwo(a: string, b: string, c: char, d: char)
    ensures a + b + [c] + [d] == a + (b + [c] + [d])
  {
  }

  lemma DashedNext(b: bytes, n: nat)
    requires |b| == 16 && n < 16
    ensures var front := DashedTo(b, n);
      DashedTo(b, n + 1) == (if DashBefore(n) then front + "-" else front) + [HexChar(b[n] / 16)] + [HexChar(b[n] % 16)]
  {
  }

  lemma {:induction false} DashedRun(b: bytes, i: nat, j: nat)
    requires |b| == 16 && i < j <= 16 && forall k :: i < k < j ==> !DashBefore(k)
    ensures DashedTo(b, j) == DashedTo(b, i) + (if DashBefore(i) then "-" else "") + HexText(b[i..j])
    decreases j - i
  {
    hide DashBefore, HexChar, HexText, DashedTo;
    HexTextSnoc(b[i..j - 1], b[j - 1]);
    assert b[i..j] == b[i..j - 1] + [b[j - 1]];
    DashedNext(b, j - 1);
    var front := DashedTo(b, i) + (if DashBefore(i) then "-" else "");
    PushTwo(front, HexText(b[i..j - 1]), HexChar(b[j - 1] / 16), HexChar(b[j - 1] % 16));
    if i < j - 1 {
      DashedRun(b, i, j - 1);
      assert !DashBefore(j - 1);
    } else {
      NoBytes(b[i..i]);
      assert front + "" == front;
      assert DashedTo(b, i) + "" == DashedTo(b, i);
    }
  }

  lemma NoBytes(b: bytes)
    requires b == []
    ensures HexText(b) == ""
  {
  }

  lemma DashedStart(b: bytes)
    requires |b| == 16
    ensures DashedTo(b, 0) == ""
  {
  }

  lemma DashedIsUuidText(b: bytes)
    requires |b| == 16
    ensures DashedTo(b, 16) == UuidText(b)
  {
    hide HexText, DashedTo;
    DashedStart(b);
    DashedRun(b, 0, 4);
    DashedRun(b, 4, 6);
    DashedRun(b, 6, 8);
    DashedRun(b, 8, 10);
    DashedRun(b, 10, 16);
    assert b[0..4] == b[..4] && b[10..16] == b[10..];
  }

  /** A UUID in its canonical form of 8-4-4-4-12 hexadecimal digits of either case. */
  predicate CanonicalUuid(s: string) {
    |s| == 36 && s[8] == '-' && s[13] == '-' && s[18] == '-' && s[23] == '-'
    && AllHex(s[..8]) && AllHex(s[9..13]) && AllHex(s[14..18]) && AllHex(s[19..23]) && AllHex(s[24..])
  }

  lemma {:induction false} StripConcat(a: string, b: string)
    ensures Strip(a + b) == Strip(a) + Strip(b)
  {
    if a == "" {
      assert a + b == b;
    } else {
      StripConcat(a[1..], b);
      assert (a + b)[1..] == a[1..] + b;
      Associative(StripOne(a[0]), Strip(a[1..]), Strip(b));
    }
  }

  lemma {:induction false} StripHex(h: string)
    requires AllHex(h)
    ensures Strip(h) == h
  {
    if h != "" {
      StripHex(h[1..]);
      assert h == [h[0]] + h[1..];
    }
  }

  lemma HexPair(c: char, d: char)
    requires IsHex(c) && IsHex(d)
    ensures ByteText(16 * HexValue(c) + HexValue(d)) == Lower([c, d])
  {
    HexCharInverse(c);
    HexCharInverse(d);
    hide HexValue, HexChar, LowerChar;
    var b := 16 * HexValue(c) + HexValue(d);
    assert b / 16 == HexValue(c) && b % 16 == HexValue(d);
  }

  lemma HexCharInverse(c: char)
    requires IsHex(c)
    ensures HexChar(HexValue(c)) == LowerChar(c)
  {
  }

  lemma {:induction false} HexTextInverse(h: string)
    requires AllHex(h) && |h| % 2 == 0
    ensures HexText(HexBytes(h)) == Lower(h)
  {
    hide HexValue, ByteText, LowerChar;
    if h != "" {
      HexTextInverse(h[2..]);
      HexPair(h[0], h[1]);
      LowerConcat([h[0], h[1]], h[2..]);
      assert h == [h[0], h[1]] + h[2..];
      assert HexBytes(h)[1..] == HexBytes(h[2..]);
    }
  }

  lemma LowerConcat(a: string, b: string)
    ensures Lower(a + b) == Lower(a) + Lower(b)
  {
  }

  lemma {:induction false} HexBytesConcat(a: string, b: string)
    requires AllHex(a) && AllHex(b) && |a| % 2 == 0 && |b| % 2 == 0
    ensures AllHex(a + b) && HexBytes(a + b) == HexBytes(a) + HexBytes(b)
  {
    if a == "" {
      assert a + b == b;
    } else {
      hide HexValue;
      HexBytesConcat(a[2..], b);
      assert (a + b)[2..] == a[2..] + b && (a + b)[0] == a[0] && (a + b)[1] == a[1];
    }
  }

  lemma StripGroup(group: string, more: string)
    requires AllHex(group)
    ensures Strip(group + more) == group + Strip(more)
  {
    hide Strip;
    StripConcat(group, more);
    StripHex(group);
  }

  lemma StripDash(more: string)
    ensures Strip("-" + more) == Strip(more)
  {
    assert ("-" + more)[1..] == more;
    assert "" + Strip(more) == Strip(more);
  }

  /** The digits of a canonical UUID. */
  function Groups(s: string): string
    requires CanonicalUuid(s)
  {
    s[..8] + (s[9..13] + (s[14..18] + (s[19..23] + s[24..])))
  }

  lemma StripCanonical(s: string)
    requires CanonicalUuid(s)
    ensures Strip(s) == Groups(s)
  {
    hide Strip, AllHex;
    var a, b, c, d, e := s[..8], s[9..13], s[14..18], s[19..23], s[24..];
    assert s == a + ("-" + (b + ("-" + (c + ("-" + (d + ("-" + e)))))));
    StripGroup(a, "-" + (b + ("-" + (c + ("-" + (d + ("-" + e)))))));
    StripGroup(b, "-" + (c + ("-" + (d + ("-" + e)))));
    StripGroup(c, "-" + (d + ("-" + e)));
    StripGroup(d, "-" + e);
    StripHex(e);
    StripDash(b + ("-" + (c + ("-" + (d + ("-" + e))))));
    StripDash(c + ("-" + (d + ("-" + e))));
    StripDash(d + ("-" + e));
    StripDash(e);
  }

  lemma GroupBytes(s: string)
    requires CanonicalUuid(s)
    ensures AllHex(Groups(s)) && |Groups(s)| == 32
    ensures HexBytes(Groups(s))
         == HexBytes(s[..8]) + (HexBytes(s[9..13]) + (HexBytes(s[14..18]) + (HexBytes(s[19..23]) + HexBytes(s[24..]))))
  {
    hide HexBytes, AllHex;
    var a, b, c, d, e := s[..8], s[9..13], s[14..18], s[19..23], s[24..];
    HexBytesConcat(d, e);
    HexBytesConcat(c, d + e);
    HexBytesConcat(b, c + (d + e));
    HexBytesConcat(a, b + (c + (d + e)));
  }

  /** Reading a canonical UUID and writing it again only lowers its letters. */
  lemma UuidRoundTrip(s: string)
    requires CanonicalUuid(s)
    ensures UuidBytes(s).Ok? && UuidText(UuidBytes(s).value) == Lower(s)
  {
    hide Strip, HexText, HexBytes, AllHex, Groups;
    StripCanonical(s);
    GroupBytes(s);
    var a, b, c, d, e := s[..8], s[9..13], s[14..18], s[19..23], s[24..];
    var bytes := HexBytes(Groups(s));
    assert bytes[..4] == HexBytes(a) && bytes[4..6] == HexBytes(b) && bytes[6..8] == HexBytes(c);
    assert bytes[8..10] == HexBytes(d) && bytes[10..] == HexBytes(e);
    HexTextInverse(a);
    HexTextInverse(b);
    HexTextInverse(c);
    HexTextInverse(d);
    HexTextInverse(e);
    LowerCanonical(s);
  }

  lemma LowerCanonical(s: string)
    requires CanonicalUuid(s)
    ensures Lower(s)
         == Lower(s[..8]) + "-" + Lower(s[9..13]) + "-" + Lower(s[14..18]) + "-" + Lower(s[19..23]) + "-" + Lower(s[24..])
  {
    hide AllHex;
  }
}

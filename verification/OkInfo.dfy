/** The count of changed rows that the client takes from the text of an OK packet. */
module OkInfo {
  import opened Bytes
  import opened Digits

  /** "changed: " */
  const CHANGED: bytes := [0x63, 0x68, 0x61, 0x6e, 0x67, 0x65, 0x64, 0x3a, 0x20]

  /** `std::string::find` */
  function FindFirst(s: bytes, needle: bytes): (r: Option<nat>)
    ensures r.Some? ==> r.value + |needle| <= |s| && s[r.value..r.value + |needle|] == needle
  {
    if |s| < |needle| then None
    else if s[..|needle|] == needle then Some(0)
    else if s == [] then None
    else
      match FindFirst(s[1..], needle)
      case None => None
      case Some(i) =>
        assert s[1..][i..i + |needle|] == s[i + 1..i + 1 + |needle|];
        Some(i + 1)
  }

  predicate IsDigitByte(b: byte) {
    0x30 <= b <= 0x39
  }

  /** The digits in front of a byte string. */
  function LeadingDigits(s: bytes): (digits: string)
    ensures AllDigits(digits) && |digits| <= |s|
  {
    if s == [] || !IsDigitByte(s[0]) then "" else [s[0] as char] + LeadingDigits(s[1..])
  }

  /** The number behind the first "changed: ", else 0; a number that does not fit
      64 bits is an exception. */
  function ChangedRows(info: bytes): (r: Option<u64>) {
    match FindFirst(info, CHANGED)
    case None => Some(0)
    case Some(at) =>
      var digits := LeadingDigits(info[at + |CHANGED|..]);
      if digits == "" then Some(0)
      else if ValueOf(digits) < U64 then Some(ValueOf(digits)) else None
  }

  lemma FindStep(s: bytes, needle: bytes)
    requires s != [] && |s| >= |needle|
    ensures FindFirst(s, needle) ==
      if s[..|needle|] == needle then Some(0)
      else match FindFirst(s[1..], needle) case None => None case Some(i) => Some(i + 1)
  {
  }

  lemma PrefixParts(s: bytes, t: bytes, n: nat)
    requires n <= |s| <= |t| && t[..|s|] == s
    ensures t[..n] == s[..n]
    ensures s != [] ==> t[1..][..|s[1..]|] == s[1..]
  {
    assert t[..|s|][..n] == t[..n];
  }

  /** What is behind the first occurrence does not matter. */
  lemma {:induction false} FindEarlier(s: bytes, t: bytes, needle: bytes)
    requires |s| <= |t| && t[..|s|] == s && FindFirst(s, needle).Some?
    ensures FindFirst(t, needle) == FindFirst(s, needle)
  {
    PrefixParts(s, t, |needle|);
    if s != [] {
      FindStep(s, needle);
      FindStep(t, needle);
      if s[..|needle|] != needle {
        FindEarlier(s[1..], t[1..], needle);
      }
    }
  }

  lemma {:induction false} LeadingExact(digits: string, rest: bytes)
    requires AllDigits(digits) && (rest == [] || !IsDigitByte(rest[0]))
    ensures LeadingDigits(AsBytes(digits) + rest) == digits
  {
    var s := AsBytes(digits) + rest;
    if digits == [] {
      assert s == rest;
    } else {
      assert IsDigit(digits[0]);
      assert s[0] == digits[0] as int && s[1..] == AsBytes(digits[1..]) + rest;
      LeadingExact(digits[1..], rest);
    }
  }

  /** The first count in a text is found, and fails exactly beyond 64 bits. */
  lemma ChangedRowsExact(front: bytes, n: nat, rest: bytes)
    requires FindFirst(front + CHANGED, CHANGED) == Some(|front|)
    requires rest == [] || !IsDigitByte(rest[0])
    ensures ChangedRows(front + CHANGED + (AsBytes(ToText(n)) + rest)) == if n < U64 then Some(n) else None
  {
    var tail := AsBytes(ToText(n)) + rest;
    var info := front + CHANGED + tail;
    FindEarlier(front + CHANGED, info, CHANGED);
    assert info[|front| + |CHANGED|..] == tail;
    LeadingExact(ToText(n), rest);
    ToTextValue(n);
  }

  /** A text without a count changes nothing. */
  lemma NoChangedRows(info: bytes)
    requires FindFirst(info, CHANGED).None?
    ensures ChangedRows(info) == Some(0)
  {
  }

  lemma LeadingStep(s: bytes, start: nat, end: nat)
    requires start <= end < |s| && IsDigitByte(s[end])
    ensures AsText(s[start..end]) + LeadingDigits(s[end..]) == AsText(s[start..end + 1]) + LeadingDigits(s[end + 1..])
  {
    assert s[end..][1..] == s[end + 1..];
    assert AsText(s[start..end + 1]) == AsText(s[start..end]) + [s[end] as char];
  }

  lemma LeadingEnd(s: bytes, end: nat)
    requires end <= |s| && (end < |s| ==> !IsDigitByte(s[end]))
    ensures LeadingDigits(s[end..]) == ""
  {
  }

  /** The end of `parse_ok_packet`: its loop over the digits. */
  method ScanChangedRows(info: bytes) returns (r: Option<u64>)
    ensures r == ChangedRows(info)
  {
    hide AsText, LeadingDigits, ValueOf;
    var position := FindFirst(info, CHANGED);
    if position.None? {
      return Some(0);
    }
    var start := position.value + |CHANGED|;
    var end := start;
    assert info[start..start] == [];
    while end < |info| && IsDigitByte(info[end])
      invariant start <= end <= |info|
      invariant LeadingDigits(info[start..]) == AsText(info[start..end]) + LeadingDigits(info[end..])
    {
      LeadingStep(info, start, end);
      end := end + 1;
    }
    LeadingEnd(info, end);
    var digits := AsText(info[start..end]);
    assert LeadingDigits(info[start..]) == digits;
    if end == start {
      return Some(0);
    }
    r := if ValueOf(digits) < U64 then Some(ValueOf(digits)) else None;
  }
}

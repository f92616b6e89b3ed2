/** Decimal text of natural numbers, and reading integers back from text. */
module Digits {
  import opened Bytes

  predicate IsDigit(c: char) {
    '0' <= c <= '9'
  }

  predicate AllDigits(s: string) {
    forall i :: 0 <= i < |s| ==> IsDigit(s[i])
  }

  function DigitValue(c: char): (d: nat)
    requires IsDigit(c)
    ensures d <= 9
  {
    c as int - '0' as int
  }

  function DigitChar(d: nat): (c: char)
    requires d <= 9
    ensures IsDigit(c) && DigitValue(c) == d
  {
    ('0' as int + d) as char
  }

  function Pow10(n: nat): (p: nat)
    ensures p >= 1
  {
    if n == 0 then 1 else 10 * Pow10(n - 1)
  }

  /** `std::to_string` */
  function ToText(n: nat): (s: string)
    ensures |s| >= 1 && AllDigits(s)
  {
    if n < 10 then [DigitChar(n)] else ToText(n / 10) + [DigitChar(n % 10)]
  }

  /** The last `width` digits of a number. */
  function Fixed(n: nat, width: nat): (s: string)
    ensures |s| == width && AllDigits(s)
  {
    if width == 0 then [] else Fixed(n / 10, width - 1) + [DigitChar(n % 10)]
  }

  /** The number that a string of digits denotes. */
  function ValueOf(s: string): nat
    requires AllDigits(s)
  {
    if s == [] then 0 else 10 * ValueOf(s[..|s| - 1]) + DigitValue(s[|s| - 1])
  }

  function Zeros(n: nat): (s: string)
    ensures |s| == n && forall i :: 0 <= i < n ==> s[i] == '0'
  {
    seq(n, _ => '0')
  }

  /** Stream output with `width(w)` and `fill('0')`. */
  function ZeroFill(s: string, width: nat): (r: string)
    ensures AllDigits(s) ==> AllDigits(r)
  {
    if |s| >= width then s else Zeros(width - |s|) + s
  }

  lemma {:induction false} ToTextValue(n: nat)
    ensures ValueOf(ToText(n)) == n
  {
    if n >= 10 {
      ToTextValue(n / 10);
      assert ToText(n)[..|ToText(n)| - 1] == ToText(n / 10);
    } else {
      assert ToText(n)[..0] == [];
    }
  }

  lemma {:induction false} FixedValue(n: nat, width: nat)
    requires n < Pow10(width)
    ensures ValueOf(Fixed(n, width)) == n
  {
    if width > 0 {
      FixedValue(n / 10, width - 1);
      assert Fixed(n, width)[..width - 1] == Fixed(n / 10, width - 1);
    }
  }

  lemma {:induction false} ValueBound(s: string)
    requires AllDigits(s)
    ensures ValueOf(s) < Pow10(|s|)
    ensures Fixed(ValueOf(s), |s|) == s
  {
    if s != [] {
      var front, last := s[..|s| - 1], s[|s| - 1];
      ValueBound(front);
      assert ValueOf(s) / 10 == ValueOf(front) && ValueOf(s) % 10 == DigitValue(last);
      assert DigitChar(DigitValue(last)) == last;
      assert s == front + [last];
    }
  }

  lemma {:induction false} ValueOfConcat(a: string, b: string)
    requires AllDigits(a) && AllDigits(b)
    ensures AllDigits(a + b) && ValueOf(a + b) == ValueOf(a) * Pow10(|b|) + ValueOf(b)
  {
    if b == [] {
      assert a + b == a;
    } else {
      var front, last := b[..|b| - 1], b[|b| - 1];
      ValueOfConcat(a, front);
      assert (a + b)[..|a + b| - 1] == a + front;
      assert 10 * (ValueOf(a) * Pow10(|front|)) == ValueOf(a) * Pow10(|b|);
    }
  }

  /** A number filled up to a width it fits has exactly that width. */
  lemma {:induction false} ZeroFillFixed(n: nat, width: nat)
    requires width >= 1 && n < Pow10(width)
    ensures ZeroFill(ToText(n), width) == Fixed(n, width)
  {
    if n < 10 {
      FixedSmall(n, width);
    } else {
      assert width > 1 by {
        assert Pow10(1) == 10 * Pow10(0);
      }
      ZeroFillFixed(n / 10, width - 1);
      var front := ToText(n / 10);
      if |front| < width - 1 {
        assert Zeros(width - 1 - |front|) + front + [DigitChar(n % 10)] == Zeros(width - 1 - |front|) + (front + [DigitChar(n % 10)]);
      }
    }
  }

  lemma {:induction false} FixedSmall(n: nat, width: nat)
    requires width >= 1 && n < 10
    ensures Fixed(n, width) == Zeros(width - 1) + [DigitChar(n)]
  {
    if width == 1 {
      assert Fixed(n / 10, 0) == [] && Zeros(0) == [];
    } else {
      FixedSmall(0, width - 1);
      assert Zeros(width - 2) + ['0'] == Zeros(width - 1);
      assert n / 10 == 0 && n % 10 == n;
    }
  }

  // ------------------------------------------------ integers read from text

  /** `std::isspace` */
  predicate IsBlank(c: char) {
    c == ' ' || 9 <= c as int <= 13
  }

  function SkipBlanks(s: string): (t: string)
    ensures |t| <= |s| && (t == "" || !IsBlank(t[0]))
  {
    if s != "" && IsBlank(s[0]) then SkipBlanks(s[1..]) else s
  }

  function DigitPrefix(s: string): (t: string)
    ensures AllDigits(t)
  {
    if s != "" && IsDigit(s[0]) then [s[0]] + DigitPrefix(s[1..]) else ""
  }

  /** The integer at the front of a string as the C library scans it: blanks, a
      sign, digits; what follows is ignored. */
  function ScanInteger(s: string): Option<int> {
    var t := SkipBlanks(s);
    var signed := t != "" && (t[0] == '-' || t[0] == '+');
    var digits := DigitPrefix(if signed then t[1..] else t);
    if digits == "" then None
    else if signed && t[0] == '-' then Some(0 - ValueOf(digits))
    else Some(ValueOf(digits))
  }

  /** `std::stoi`, then a conversion to an unsigned type. */
  function Stoi(s: string, modulus: nat): (r: Result<nat, ()>)
    requires modulus > 0
    ensures r.Ok? ==> r.value < modulus
  {
    match ScanInteger(s)
    case Some(v) => if -0x8000_0000 <= v < 0x8000_0000 then Ok(v % modulus) else Err(())
    case None => Err(())
  }

  /** `std::stoul` and `std::stoull`, then a conversion to an unsigned type; a
      minus sign negates modulo 2^64. */
  function Stoul(s: string, modulus: nat): (r: Result<nat, ()>)
    requires modulus > 0
    ensures r.Ok? ==> r.value < modulus
  {
    match ScanInteger(s)
    case Some(v) => if 0 - U64 < v < U64 then Ok(v % U64 % modulus) else Err(())
    case None => Err(())
  }

  lemma {:induction false} DigitPrefixExact(ds: string, rest: string)
    requires AllDigits(ds) && (rest == "" || !IsDigit(rest[0]))
    ensures DigitPrefix(ds + rest) == ds
  {
    if ds == "" {
      assert ds + rest == rest;
    } else {
      DigitPrefixExact(ds[1..], rest);
      assert (ds + rest)[1..] == ds[1..] + rest;
      assert ds == [ds[0]] + ds[1..];
    }
  }

  lemma {:induction false} ScanDigits(ds: string)
    requires AllDigits(ds) && ds != ""
    ensures ScanInteger(ds) == Some(ValueOf(ds))
  {
    DigitPrefixExact(ds, "");
    assert ds + "" == ds;
    assert IsDigit(ds[0]);
  }

  /** Reading back a number that fits. */
  lemma StoulDigits(ds: string, modulus: nat)
    requires AllDigits(ds) && ds != "" && ValueOf(ds) < modulus <= U64
    ensures Stoul(ds, modulus) == Ok(ValueOf(ds))
  {
    hide ScanInteger, ValueOf;
    ScanDigits(ds);
    ValueBound(ds);
    SmallModulo(ValueOf(ds), U64);
    SmallModulo(ValueOf(ds), modulus);
  }

  lemma SmallModulo(n: nat, modulus: nat)
    requires n < modulus
    ensures n % modulus == n
  {
  }

  lemma {:induction false} StoiFixed(n: nat, width: nat, modulus: nat)
    requires 1 <= width <= 4 && n < Pow10(width) && n < modulus
    ensures Stoi(Fixed(n, width), modulus) == Ok(n)
  {
    hide ScanInteger, ValueOf, Pow10, Fixed;
    FixedValue(n, width);
    ScanDigits(Fixed(n, width));
    Pow10Values();
    SmallModulo(n, modulus);
  }

  lemma Pow10Values()
    ensures Pow10(0) == 1 && Pow10(1) == 10 && Pow10(2) == 100 && Pow10(3) == 1000 && Pow10(4) == 10000
    ensures Pow10(5) == 100000 && Pow10(6) == 1000000
  {
    assert Pow10(1) == 10 * Pow10(0) && Pow10(2) == 10 * Pow10(1) && Pow10(3) == 10 * Pow10(2);
    assert Pow10(4) == 10 * Pow10(3) && Pow10(5) == 10 * Pow10(4) && Pow10(6) == 10 * Pow10(5);
  }

  /** Putting a one in front of `width` digits and dropping it again keeps their
      leading zeros. */
  lemma {:induction false} PaddedByOne(n: nat, width: nat)
    requires n < Pow10(width)
    ensures |ToText(Pow10(width) + n)| == width + 1 && ToText(Pow10(width) + n)[1..] == Fixed(n, width)
  {
    if width > 0 {
      PaddedByOne(n / 10, width - 1);
      assert Pow10(width) == 10 * Pow10(width - 1);
      assert (Pow10(width) + n) / 10 == Pow10(width - 1) + n / 10 && (Pow10(width) + n) % 10 == n % 10;
      var front := ToText(Pow10(width - 1) + n / 10);
      assert (front + [DigitChar(n % 10)])[1..] == front[1..] + [DigitChar(n % 10)];
    }
  }

  // -------------------------------------------------------------- searching

  /** `std::string::find` */
  function IndexOf(s: string, c: char): (r: Option<nat>)
    ensures r.Some? ==> r.value < |s|
  {
    if s == "" then None
    else if s[0] == c then Some(0)
    else
      match IndexOf(s[1..], c)
      case None => None
      case Some(i) => Some(i + 1)
  }

  lemma {:induction false} IndexOfFirst(a: string, c: char, b: string)
    requires c !in a
    ensures IndexOf(a + [c] + b, c) == Some(|a|)
  {
    if a != "" {
      IndexOfFirst(a[1..], c, b);
      assert (a + [c] + b)[1..] == a[1..] + [c] + b;
    }
  }

  lemma {:induction false} IndexOfNone(s: string, c: char)
    requires c !in s
    ensures IndexOf(s, c) == None
  {
    if s != "" {
      IndexOfNone(s[1..], c);
    }
  }
}

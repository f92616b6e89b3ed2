/** The column type codes of the protocol. */
module ColumnTypes {
  import opened Bytes

  const DECIMAL: byte := 0x00
  const TINY: byte := 0x01
  const SHORT: byte := 0x02
  const LONG: byte := 0x03
  const FLOAT: byte := 0x04
  const DOUBLE: byte := 0x05
  const NULL_TYPE: byte := 0x06
  const TIMESTAMP: byte := 0x07
  const LONGLONG: byte := 0x08
  const INT24: byte := 0x09
  const DATE: byte := 0x0a
  const TIME: byte := 0x0b
  const DATETIME: byte := 0x0c
  const YEAR: byte := 0x0d
  const NEWDATE: byte := 0x0e
  const VARCHAR: byte := 0x0f
  const BIT: byte := 0x10
  const TIMESTAMP2: byte := 0x11
  const DATETIME2: byte := 0x12
  const TIME2: byte := 0x13
  const VECTOR: byte := 0xf2
  const JSON: byte := 0xf5
  const NEWDECIMAL: byte := 0xf6
  const ENUM: byte := 0xf7
  const SET: byte := 0xf8
  const TINY_BLOB: byte := 0xf9
  const MEDIUM_BLOB: byte := 0xfa
  const LONG_BLOB: byte := 0xfb
  const BLOB: byte := 0xfc
  const VAR_STRING: byte := 0xfd
  const STRING: byte := 0xfe
  const GEOMETRY: byte := 0xff

  /** Integers of a fixed width, in two's complement when signed. */
  function Signed(value: nat, width: nat): int {
    if 2 * value < Pow256(width) then value else value - Pow256(width)
  }

  /** What is left of an integer that is cut down to a width. */
  function Wrap(n: int, width: nat, unsigned: bool): int {
    var m := n % Pow256(width);
    if unsigned then m else Signed(m, width)
  }

  predicate InRange(n: int, width: nat, unsigned: bool) {
    if unsigned then 0 <= n < Pow256(width) else 0 <= 2 * n + Pow256(width) < 2 * Pow256(width)
  }

  lemma WrapExact(n: int, width: nat, unsigned: bool)
    ensures Wrap(n, width, unsigned) == n <==> InRange(n, width, unsigned)
  {
    hide Pow256;
    var p: int := Pow256(width);
    if 0 <= n < p {
      SmallRemainder(n, p);
    } else if 0 <= n + p < p {
      NegativeRemainder(n, p);
    }
  }

  lemma SmallRemainder(n: int, p: int)
    requires 0 <= n < p
    ensures n % p == n
  {
  }

  lemma NegativeRemainder(n: int, p: int)
    requires 0 <= n + p < p
    ensures n % p == n + p
  {
    var q := n / p;
    assert n == q * p + n % p;
    if q >= 0 {
      Product(q, p);
    } else if q <= -2 {
      LowProduct(q, p);
    }
  }

  lemma LowProduct(q: int, p: int)
    requires q <= -2 && p >= 0
    ensures q * p <= -2 * p
  {
    Product(-2 - q, p);
    assert (-2 - q) * p == -2 * p - q * p;
  }

  lemma Product(a: int, b: int)
    requires a >= 0 && b >= 0
    ensures a * b >= 0
  {
  }
}

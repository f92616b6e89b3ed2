/** The metadata of the columns of a table map: what a server sends for a column,
    what the parser takes it for, and which values survive that. */
module TableColumns {
  import opened Bytes
  import opened ColumnTypes
  import opened Digits
  import opened RowValues
  import Decimal

  /** `parse_table_map_column_metadata`: the bytes that a column type has. */
  function MetadataWidth(columnType: byte): (width: nat)
    ensures width <= 2
  {
    if columnType in {FLOAT, DOUBLE, BLOB, TINY_BLOB, MEDIUM_BLOB, LONG_BLOB, JSON, GEOMETRY, TIMESTAMP2, DATETIME2, TIME2} then 1
    else if columnType in {VARCHAR, BIT, DECIMAL, NEWDECIMAL, STRING, VAR_STRING, ENUM, SET} then 2
    else 0
  }

  /** A column as it is declared. A server sends DECIMAL columns as precision and
      scale; CHAR columns of up to 1023 bytes as STRING with two bits of the length
      in the type byte; ENUM and SET columns as STRING with their own type and
      width. `Plain` stands for every other column, and for the layout that the
      repository's own tests use for all types: one little-endian number. */
  datatype Column =
    | DecimalColumn(precision: byte, scale: byte)
    | CharColumn(length: nat)
    | EnumColumn(isSet: bool, width: byte)
    | Plain(columnType: byte, metadata: u16)
  {
    predicate Valid() {
      match this
      case DecimalColumn(precision, scale) => precision > 0 && scale <= precision
      case CharColumn(length) => length < 1024
      case EnumColumn(_, width) => 1 <= width <= 8
      case Plain(columnType, metadata) => metadata < Pow256(MetadataWidth(columnType))
    }

    /** The type byte of the table map. */
    function Type(): byte {
      match this
      case DecimalColumn(_, _) => NEWDECIMAL
      case CharColumn(_) => STRING
      case EnumColumn(_, _) => STRING
      case Plain(columnType, _) => columnType
    }

    /** The metadata bytes of the table map. */
    function Sent(): bytes
      requires Valid()
    {
      match this
      case DecimalColumn(precision, scale) => [precision, scale]
      case CharColumn(length) => [STRING - length / 256 * 16, length % 256]
      case EnumColumn(isSet, width) => [if isSet then SET else ENUM, width]
      case Plain(columnType, metadata) => LittleEndian(metadata, MetadataWidth(columnType))
    }

    /** The metadata that the parser makes of them. */
    function Seen(): u16
      requires Valid()
    {
      match this
      case DecimalColumn(precision, scale) => precision + 256 * scale
      case CharColumn(length) => STRING - length / 256 * 16 + 256 * (length % 256)
      case EnumColumn(isSet, width) => (if isSet then SET else ENUM) + 256 * width
      case Plain(_, metadata) => metadata
    }
  }

  lemma TwoBytes(low: byte, high: byte)
    ensures LittleEndian(low + 256 * high, 2) == [low, high]
  {
    assert (low + 256 * high) % 256 == low && (low + 256 * high) / 256 == high;
    assert LittleEndian(high, 1) == [high];
  }

  /** The parser reads two bytes as one little-endian number. */
  lemma SeenExact(c: Column)
    requires c.Valid()
    ensures c.Sent() == LittleEndian(c.Seen(), MetadataWidth(c.Type())) && c.Seen() < Pow256(MetadataWidth(c.Type()))
  {
    Pow256Values();
    match c
    case DecimalColumn(precision, scale) => TwoBytes(precision, scale);
    case CharColumn(length) => TwoBytes(STRING - length / 256 * 16, length % 256);
    case EnumColumn(isSet, width) => TwoBytes(if isSet then SET else ENUM, width);
    case Plain(_, _) =>
  }

  // ------------------------------------------------------------------ DECIMAL

  /** Nothing can be read from a column. */
  ghost predicate Unreadable(columnType: byte, metadata: u16) {
    forall s: bytes :: TakeValue(s, columnType, metadata).Malformed?
  }

  /** The parser takes the first byte for the scale and the second for the precision:
      a column can be read at all exactly when the two are equal. */
  lemma DecimalReadable(precision: byte, scale: byte)
    requires DecimalColumn(precision, scale).Valid()
    ensures Unreadable(NEWDECIMAL, DecimalColumn(precision, scale).Seen()) <==> scale < precision
  {
    var seen := DecimalColumn(precision, scale).Seen();
    assert seen / 256 == scale && seen % 256 == precision;
    if scale == precision {
      var form := ZeroBytes(Decimal.ByteCount(precision, precision));
      TakeBytesInverse(form, []);
      assert TakeValue(form + [], NEWDECIMAL, seen).Parsed?;
    } else {
      hide Decimal.ByteCount, Decimal.Decode;
      forall s: bytes ensures TakeValue(s, NEWDECIMAL, seen).Malformed? {
      }
    }
  }

  /** The text of a DECIMAL value. */
  function DecimalText(negative: bool, intDigits: string, fracDigits: string): string
    requires AllDigits(intDigits)
  {
    (if negative then "-" else "") + Decimal.Shown(intDigits) + (if fracDigits == "" then "" else "." + fracDigits)
  }

  lemma NothingStored(form: bytes, columnType: byte, metadata: u16, v: Value)
    requires Unreadable(columnType, metadata)
    ensures !Stores(form, columnType, metadata, v)
  {
    hide TakeValue;
    assert TakeValue(form + [], columnType, metadata).Malformed?;
  }

  /** A DECIMAL value survives exactly when its column has no integer digits. */
  lemma DecimalColumnExact(negative: bool, intDigits: string, fracDigits: string)
    requires AllDigits(intDigits) && AllDigits(fracDigits) && 0 < |intDigits| + |fracDigits| < 256
    ensures var c := DecimalColumn(|intDigits| + |fracDigits|, |fracDigits|);
      var form, value := Decimal.Pack(negative, intDigits, fracDigits), Text(DecimalText(negative, intDigits, fracDigits));
      c.Valid() && (Stores(form, c.Type(), c.Seen(), value) <==> intDigits == "")
  {
    hide Decimal.Pack, Decimal.Shown, TakeValue, Stores, Unreadable;
    var c := DecimalColumn(|intDigits| + |fracDigits|, |fracDigits|);
    if intDigits == "" {
      StoresDecimal(negative, intDigits, fracDigits);
    } else {
      DecimalReadable(c.precision, c.scale);
      NothingStored(Decimal.Pack(negative, intDigits, fracDigits), NEWDECIMAL, c.Seen(),
                    Text(DecimalText(negative, intDigits, fracDigits)));
    }
  }

  // --------------------------------------------------------------------- CHAR

  /** The width of the length in front of a value, as the server writes it. */
  function CharPrefix(length: nat): nat {
    if length > 255 then 2 else 1
  }

  function CharForm(s: bytes, length: nat): bytes {
    LittleEndian(|s|, CharPrefix(length)) + s
  }

  /** The parser reads a two-byte length exactly when the second metadata byte is
      not zero, as the first is always there. */
  lemma CharSeen(length: nat)
    requires length < 1024
    ensures CharColumn(length).Seen() > 255 <==> length % 256 != 0
  {
  }

  /** A CHAR value survives exactly when the two widths agree: the column is longer
      than 255 bytes, but not of a multiple of 256, or has no room at all. */
  lemma CharColumnExact(s: bytes, length: nat)
    requires |s| <= length < 1024
    ensures var c := CharColumn(length);
      Stores(CharForm(s, length), c.Type(), c.Seen(), Text(AsText(s))) <==>
      length == 0 || (length > 255 && length % 256 != 0)
  {
    CharSeen(length);
    var seen := CharColumn(length).Seen();
    hide Stores, AsText;
    if length == 0 || (length > 255 && length % 256 != 0) {
      StoresText(s, STRING, seen);
    } else if length <= 255 {
      CharTooShort(s, length);
    } else {
      CharTooLong(s, length);
    }
  }

  lemma LengthOfTwo(low: byte, high: byte)
    ensures FromLittleEndian([low, high]) == low + 256 * high
  {
    assert [low, high][1..] == [high];
    assert [high][1..] == [];
    assert FromLittleEndian([high]) == high;
  }

  lemma ShortForm(s: bytes, length: nat)
    requires |s| <= length <= 255
    ensures CharForm(s, length) == [|s|] + s
  {
    assert LittleEndian(|s|, 1) == [|s|];
  }

  /** A length of two bytes that begins with the number of bytes behind it is too long. */
  lemma TwoByteLength(form: bytes)
    requires form != [] && form[0] == |form| - 1
    ensures TakePrefixed(form, 2).Malformed?
  {
    if |form| >= 2 {
      LengthOfTwo(form[0], form[1]);
      assert form[..2] == [form[0], form[1]];
    }
  }

  /** One byte of length is sent and two are read: the value is cut off or not found. */
  lemma CharTooShort(s: bytes, length: nat)
    requires |s| <= length && 0 < length <= 255
    ensures !Stores(CharForm(s, length), STRING, CharColumn(length).Seen(), Text(AsText(s)))
  {
    CharSeen(length);
    ShortForm(s, length);
    var form, seen := CharForm(s, length), CharColumn(length).Seen();
    hide TakeValue, TakePrefixed, CharForm, AsText, Column.Seen;
    assert form + [] == form;
    TwoByteLength(form);
    TextTaken(form, STRING, seen);
    assert TakeValue(form + [], STRING, seen).Malformed?;
  }

  lemma LongForm(s: bytes, length: nat)
    requires |s| <= length && 256 <= length < 1024
    ensures CharForm(s, length) == [|s| % 256, |s| / 256] + s
  {
    TwoBytes(|s| % 256, |s| / 256);
  }

  /** Two bytes of length are sent and one is read: something is left behind the text. */
  lemma CharTooLong(s: bytes, length: nat)
    requires |s| <= length && length in {256, 512, 768}
    ensures !Stores(CharForm(s, length), STRING, CharColumn(length).Seen(), Text(AsText(s)))
  {
    CharSeen(length);
    LongForm(s, length);
    var form, seen := CharForm(s, length), CharColumn(length).Seen();
    hide TakeValue, TakePrefixed, CharForm, AsText, Column.Seen;
    assert form + [] == form;
    OneByteLength(form);
    TextTaken(form, STRING, seen);
    assert TakeValue(form + [], STRING, seen) != Parsed(Text(AsText(s)), []);
  }

  lemma OneByteLength(form: bytes)
    requires form != []
    ensures TakePrefixed(form, 1) == TakeBytes(form[1..], form[0])
  {
    assert form[..1] == [form[0]];
    assert FromLittleEndian([form[0]]) == form[0] by { assert [form[0]][1..] == []; }
  }

  // -------------------------------------------------------------- ENUM and SET

  /** An ENUM or SET value is taken for text, so it never comes back as its number. */
  lemma EnumColumnIsText(c: Column, s: bytes)
    requires c.Valid() && c.EnumColumn?
    ensures TakeValue(s, c.Type(), c.Seen()).Parsed? ==> TakeValue(s, c.Type(), c.Seen()).value.Text?
    ensures TakeValue(s, c.Type(), c.Seen()) ==
      match TakePrefixed(s, 2)
      case Malformed => Malformed
      case Parsed(data, rest) => Parsed(Text(AsText(data)), rest)
  {
    TextTaken(s, c.Type(), c.Seen());
    hide TakePrefixed, AsText, TakeValue;
  }
}

/**
  The scalar format registry (`DataTypes`): ten fixed-width formats, each with a byte
  size, whether it can be shown in hexadecimal, a minimum cell width in pixels and a
  formatter. Integer formats read little-endian bytes, print them in radix 16 or 10,
  pad them to a fixed character count and upper-case them.
*/
module DataType {
  import opened Wrappers
  import opened Numerals

  datatype DataType = Uint8 | Uint16 | Uint32 | Uint64 | Int8 | Int16 | Int32 | Int64 | Float32 | Float64

  /** The byte width of each format. */
  function Size(t: DataType): nat
  {
    match t
    case Uint8 => 1
    case Uint16 => 2
    case Uint32 => 4
    case Uint64 => 8
    case Int8 => 1
    case Int16 => 2
    case Int32 => 4
    case Int64 => 8
    case Float32 => 4
    case Float64 => 8
  }

  predicate IsIntegral(t: DataType) { !(t.Float32? || t.Float64?) }

  predicate IsSigned(t: DataType) { t.Int8? || t.Int16? || t.Int32? || t.Int64? }

  /** `supportsHex`: true for the integer formats, false for the float formats. */
  predicate SupportsHex(t: DataType) { IsIntegral(t) }

  /** `2 * size * (hex ? 1 : 1.204) + (signed ? 1 : 0)`, scaled by 1000 to stay in integers. */
  function ScaledCharCount(t: DataType, hex: bool): nat
  {
    2 * Size(t) * (if hex then 1000 else 1204) + (if IsSigned(t) then 1000 else 0)
  }

  /** `charCount(hex)`: the ceiling of the worst-case character count. */
  function CharCount(t: DataType, hex: bool): (n: nat)
    requires IsIntegral(t)
    ensures (n - 1) * 1000 < ScaledCharCount(t, hex) <= n * 1000
  {
    CeilDiv(ScaledCharCount(t, hex), 1000)
  }

  /** `cellWidth(hex)`: eleven pixels per character plus four for integers, 84 for floats. */
  function CellWidth(t: DataType, hex: bool): (w: nat)
  {
    if IsIntegral(t) then CharCount(t, hex) * 11 + 4 else 84
  }

  /** The value `getter.call(data, offset, true)` reads for an integer format. */
  function DecodeInteger(t: DataType, data: seq<byte>, offset: nat): (v: int)
    requires IsIntegral(t) && offset + Size(t) <= |data|
  {
    var u := LittleEndian(data[offset..offset + Size(t)]);
    if IsSigned(t) then TwosComplement(u, 8 * Size(t)) else u
  }

  function Radix(hex: bool): nat { if hex then 16 else 10 }

  /** The padding character: `'0'` only for unsigned hexadecimal. */
  function PadChar(t: DataType, hex: bool): char
  {
    if IsSigned(t) || !hex then ' ' else '0'
  }

  /** `format(data, offset, hex)` of an integer format. */
  function FormatInteger(t: DataType, data: seq<byte>, offset: nat, hex: bool): string
    requires IsIntegral(t) && offset + Size(t) <= |data|
  {
    ToUpper(PadStart(IntToString(DecodeInteger(t, data, offset), Radix(hex)), CharCount(t, hex), PadChar(t, hex)))
  }

  /** How a float cell is printed: `toFixed` / `toExponential` of the value its bytes hold.
      IEEE 754 printing is not part of this model, so it is supplied by the caller. */
  type FloatPrinter = (DataType, seq<byte>) -> string

  /** `DataTypes[t].format(data, offset, hex)` for any format. */
  function Format(t: DataType, data: seq<byte>, offset: nat, hex: bool, printFloat: FloatPrinter): string
    requires offset + Size(t) <= |data|
  {
    if IsIntegral(t) then FormatInteger(t, data, offset, hex)
    else printFloat(t, data[offset..offset + Size(t)])
  }

  /** The text of the cell whose bytes start at `offset`: the placeholder `"??"` when they
      run past the end of the buffer, the format's own text otherwise. */
  function FormatCell(t: DataType, data: seq<byte>, offset: nat, hex: bool, printFloat: FloatPrinter): string
  {
    if offset + Size(t) > |data| then "??" else Format(t, data, offset, hex, printFloat)
  }

  // ---------------------------------------------------------------------
  // Properties

  /** The catalog's sizes: 1, 2, 4, 8 bytes for 8, 16, 32, 64-bit integers, 4 and 8 for floats. */
  lemma SizeTable()
    ensures Size(Uint8) == Size(Int8) == 1 && Size(Uint16) == Size(Int16) == 2
    ensures Size(Uint32) == Size(Int32) == Size(Float32) == 4
    ensures Size(Uint64) == Size(Int64) == Size(Float64) == 8
    ensures forall t :: Size(t) in {1, 2, 4, 8}
  {
  }

  /** The character counts the formula gives, format by format (hexadecimal, then decimal). */
  lemma CharCountTable()
    ensures CharCount(Uint8, true) == 2 && CharCount(Uint8, false) == 3
    ensures CharCount(Uint16, true) == 4 && CharCount(Uint16, false) == 5
    ensures CharCount(Uint32, true) == 8 && CharCount(Uint32, false) == 10
    ensures CharCount(Uint64, true) == 16 && CharCount(Uint64, false) == 20
    ensures CharCount(Int8, true) == 3 && CharCount(Int8, false) == 4
    ensures CharCount(Int16, true) == 5 && CharCount(Int16, false) == 6
    ensures CharCount(Int32, true) == 9 && CharCount(Int32, false) == 11
    ensures CharCount(Int64, true) == 17 && CharCount(Int64, false) == 21
  {
  }

  /** Every cell width is at least 26 pixels (uint8 in hex), so it is a safe layout divisor;
      float formats are 84 pixels wide whatever the hex flag. */
  lemma CellWidthPositive(t: DataType, hex: bool)
    ensures CellWidth(t, hex) >= 26
    ensures CellWidth(Uint8, true) == 26
    ensures !IsIntegral(t) ==> CellWidth(t, hex) == 84 && !SupportsHex(t)
  {
    CharCountTable();
  }

  /** The value decoded for an integer format lies in the range of its type. */
  lemma DecodeRange(t: DataType, data: seq<byte>, offset: nat)
    requires IsIntegral(t) && offset + Size(t) <= |data|
    ensures !IsSigned(t) ==> 0 <= DecodeInteger(t, data, offset) < Pow(256, Size(t))
    ensures IsSigned(t) ==> -(Pow(2, 8 * Size(t) - 1) as int) <= DecodeInteger(t, data, offset) < Pow(2, 8 * Size(t) - 1)
    ensures IsSigned(t) ==> 2 * Pow(2, 8 * Size(t) - 1) == Pow(256, Size(t))
  {
    var n := Size(t);
    PowMul(2, 8, n);
    assert Pow(2, 8) == 256;
    assert 8 * n == 1 + (8 * n - 1);
    PowAdd(2, 1, 8 * n - 1);
    if IsSigned(t) {
      TwosComplementRange(LittleEndian(data[offset..offset + n]), 8 * n);
    }
  }

  /** The decoded value is the little-endian reading of the cell's bytes, taken as two's
      complement for signed formats: encoding it back gives the same bytes. */
  lemma DecodeIsLittleEndian(t: DataType, data: seq<byte>, offset: nat)
    requires IsIntegral(t) && offset + Size(t) <= |data|
    ensures var v := DecodeInteger(t, data, offset);
            ToLittleEndian(if v < 0 then v + Pow(256, Size(t)) else v, Size(t)) == data[offset..offset + Size(t)]
  {
    var n := Size(t);
    var bytes := data[offset..offset + n];
    var u := LittleEndian(bytes);
    BytesOfLittleEndian(bytes);
    assert |bytes| == n;
    SignedRoundTrip(u, n);
    assert DecodeInteger(t, data, offset) == if IsSigned(t) then TwosComplement(u, 8 * n) else u;
  }

  /** Adding `256^n` to a negative two's-complement reading of `n` bytes gives back the unsigned reading. */
  lemma SignedRoundTrip(u: nat, n: nat)
    requires n >= 1 && u < Pow(256, n)
    ensures var v := TwosComplement(u, 8 * n);
            (if v < 0 then v + Pow(256, n) else v) == u
  {
    PowMul(2, 8, n);
    assert Pow(2, 8) == 256;
  }

  /** Powers relating the value range of each size to its hex and decimal character counts. */
  lemma SizeBounds(n: nat)
    requires n in {1, 2, 4, 8}
    ensures Pow(256, n) == Pow(16, 2 * n)
    ensures Pow(256, n) <= Pow(10, CharCount(if n == 1 then Uint8 else if n == 2 then Uint16 else if n == 4 then Uint32 else Uint64, false))
  {
    PowMul(16, 2, n);
    assert Pow(16, 2) == 256;
    CharCountTable();
    if n == 1 {
      assert Pow(10, 3) == 1000;
    } else if n == 2 {
      assert Pow(256, 2) == 65536 && Pow(10, 5) == 100000;
    } else if n == 4 {
      assert Pow(256, 4) == 0x1_0000_0000 && Pow(10, 10) == 10000000000;
    } else {
      assert Pow(256, 8) == 0x1_0000_0000_0000_0000;
      assert Pow(10, 10) == 10000000000;
      PowAdd(10, 10, 10);
    }
  }

  /** The unsigned format of the same size. */
  function Unsigned(t: DataType): DataType
  {
    match t
    case Int8 => Uint8
    case Int16 => Uint16
    case Int32 => Uint32
    case Int64 => Uint64
    case _ => t
  }

  /** How many digits a value of the format's size can need, before any sign. */
  function DigitBudget(t: DataType, hex: bool): nat
    requires IsIntegral(t)
  {
    if hex then 2 * Size(t) else CharCount(Unsigned(t), false)
  }

  /** The digit budget covers every magnitude below `256^size`, and the character count is
      the budget plus one for a sign. */
  lemma DigitBudgetCovers(t: DataType, hex: bool)
    requires IsIntegral(t)
    ensures DigitBudget(t, hex) >= 1
    ensures Pow(256, Size(t)) <= Pow(Radix(hex), DigitBudget(t, hex))
    ensures CharCount(t, hex) == DigitBudget(t, hex) + (if IsSigned(t) then 1 else 0)
  {
    var n := Size(t);
    SizeBounds(n);
    assert Unsigned(t) == (if n == 1 then Uint8 else if n == 2 then Uint16 else if n == 4 then Uint32 else Uint64);
    CharCountSigned(t, hex);
  }

  /** A signed format needs one character more than the unsigned format of its size. */
  lemma CharCountSigned(t: DataType, hex: bool)
    requires IsIntegral(t)
    ensures CharCount(t, hex) == DigitBudget(t, hex) + (if IsSigned(t) then 1 else 0)
  {
    CharCountTable();
  }

  /** The magnitude of a decoded value is below `256^size`, and only signed formats decode
      negative values. */
  lemma DecodedMagnitude(t: DataType, data: seq<byte>, offset: nat)
    requires IsIntegral(t) && offset + Size(t) <= |data|
    ensures Abs(DecodeInteger(t, data, offset)) < Pow(256, Size(t))
    ensures DecodeInteger(t, data, offset) < 0 ==> IsSigned(t)
  {
    DecodeRange(t, data, offset);
  }

  /** The printed digits of any value of an integer format fit in its character count. */
  lemma RawLength(t: DataType, data: seq<byte>, offset: nat, hex: bool)
    requires IsIntegral(t) && offset + Size(t) <= |data|
    ensures |IntToString(DecodeInteger(t, data, offset), Radix(hex))| <= CharCount(t, hex)
  {
    DecodedMagnitude(t, data, offset);
    DigitBudgetCovers(t, hex);
    IntToStringLength(DecodeInteger(t, data, offset), Radix(hex), DigitBudget(t, hex));
  }

  /** Every formatted integer is exactly `charCount(hex)` characters long. */
  lemma FormattedLength(t: DataType, data: seq<byte>, offset: nat, hex: bool)
    requires IsIntegral(t) && offset + Size(t) <= |data|
    ensures |FormatInteger(t, data, offset, hex)| == CharCount(t, hex)
  {
    RawLength(t, data, offset, hex);
  }

  /** A formatted integer has no lower-case letter, and it is padded with `'0'` for unsigned
      hexadecimal and with spaces otherwise. */
  lemma FormattedShape(t: DataType, data: seq<byte>, offset: nat, hex: bool)
    requires IsIntegral(t) && offset + Size(t) <= |data|
    ensures var s := FormatInteger(t, data, offset, hex);
            forall i :: 0 <= i < |s| ==> !('a' <= s[i] <= 'z')
    ensures var s := FormatInteger(t, data, offset, hex);
            var raw := IntToString(DecodeInteger(t, data, offset), Radix(hex));
            forall i :: 0 <= i < |s| - |raw| ==> s[i] == (if !IsSigned(t) && hex then '0' else ' ')
  {
    var raw := IntToString(DecodeInteger(t, data, offset), Radix(hex));
    ToUpperHasNoLowercase(PadStart(raw, CharCount(t, hex), PadChar(t, hex)));
  }

  /** Trimming a formatted integer and reading it back in the same radix gives the decoded value. */
  lemma FormatRoundTrip(t: DataType, data: seq<byte>, offset: nat, hex: bool)
    requires IsIntegral(t) && offset + Size(t) <= |data|
    ensures ParseInt(Trim(FormatInteger(t, data, offset, hex)), Radix(hex)) == Some(DecodeInteger(t, data, offset))
  {
    DecodeRange(t, data, offset);
    PaddedRoundTrip(DecodeInteger(t, data, offset), Radix(hex), CharCount(t, hex), PadChar(t, hex));
  }

  /** An integer cell shows `"??"` exactly when its bytes run past the end of the buffer, and
      its formatted value otherwise. */
  lemma FormatCellPlaceholder(t: DataType, data: seq<byte>, offset: nat, hex: bool, printFloat: FloatPrinter)
    requires IsIntegral(t)
    ensures FormatCell(t, data, offset, hex, printFloat) == "??" <==> offset + Size(t) > |data|
    ensures offset + Size(t) <= |data| ==> FormatCell(t, data, offset, hex, printFloat) == FormatInteger(t, data, offset, hex)
  {
    if offset + Size(t) <= |data| {
      var v := DecodeInteger(t, data, offset);
      var raw := IntToString(v, Radix(hex));
      NoQuestionMark(raw, Radix(hex), CharCount(t, hex), PadChar(t, hex), v);
    }
  }

  /** A padded number never starts with `?`. */
  lemma NoQuestionMark(raw: string, radix: nat, width: nat, fill: char, v: int)
    requires 2 <= radix <= 16 && raw == IntToString(v, radix) && (fill == ' ' || fill == '0')
    ensures var s := ToUpper(PadStart(raw, width, fill)); |s| > 0 && s[0] != '?'
  {
    var digits := NatDigits(Abs(v), radix);
    NatDigitsValue(Abs(v), radix);
    UpperIntToString(v, radix);
    var s := ToUpper(PadStart(raw, width, fill));
    if |raw| < width {
      assert s[0] == UpperChar(fill);
    } else {
      assert s == ToUpper(raw);
      assert ToUpper(digits)[0] != '?' by {
        assert IsDigit(ToUpper(digits)[0], radix);
      }
    }
  }
}

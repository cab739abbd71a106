/**
  The small amount of JavaScript and Go number handling the grid relies on:
  bytes, floor/ceiling/truncating division, `toString(radix)` of integers,
  `padStart`, `toUpperCase` on the characters those produce, whitespace
  trimming, reading an integer back, little-endian decoding and two's complement.
*/
module Numerals {
  import opened Wrappers

  /** A value of a `Uint8Array` / `DataView` byte, or a Go `byte`. */
  type byte = x: int | 0 <= x < 256

  function Pow(b: nat, e: nat): (r: nat)
    ensures b > 0 ==> r > 0
  {
    if e == 0 then 1 else b * Pow(b, e - 1)
  }

  function Max(a: int, b: int): int { if a < b then b else a }

  function Min(a: int, b: int): int { if a < b then a else b }

  /** `Math.floor(a / b)` for a positive divisor. */
  function FloorDiv(a: int, b: int): (q: int)
    requires b > 0
    ensures q * b <= a < q * b + b
  {
    a / b
  }

  /** `Math.ceil(a / b)` for a positive divisor. */
  function CeilDiv(a: int, b: int): (q: int)
    requires b > 0
    ensures q * b - b < a <= q * b
  {
    -((-a) / b)
  }

  /** Go's integer `/`, which truncates toward zero. */
  function TruncDiv(a: int, b: int): (q: int)
    requires b > 0
    ensures a >= 0 ==> q * b <= a < q * b + b
    ensures a < 0 ==> q * b - b < a <= q * b
  {
    if a >= 0 then a / b else -((-a) / b)
  }

  lemma MulSign(d: int, s: int)
    requires s > 0
    ensures d >= 1 ==> d * s >= s
    ensures d <= -1 ==> d * s <= -s
  {
  }

  /** Dividing a multiple of `s` by `s` gives back the multiplier. */
  lemma MulFloorDiv(a: int, s: int)
    requires s > 0
    ensures FloorDiv(a * s, s) == a
  {
    var q := FloorDiv(a * s, s);
    assert (a - q) * s == a * s - q * s;
    MulSign(a - q, s);
  }

  lemma MulMono(a: int, b: int, c: nat)
    requires a <= b
    ensures a * c <= b * c
  {
  }

  // ---------------------------------------------------------------------
  // toString(radix)

  /** The digit characters `toString` uses: lower-case for 10 to 15. */
  function DigitChar(d: nat): char
    requires d < 16
  {
    "0123456789abcdef"[d]
  }

  /** The digits of `n` in `radix`, most significant first, with no leading zero. */
  function NatDigits(n: nat, radix: nat): (s: string)
    requires 2 <= radix <= 16
    ensures |s| >= 1
    decreases n
  {
    if n < radix then [DigitChar(n)] else NatDigits(n / radix, radix) + [DigitChar(n % radix)]
  }

  /** `Number.prototype.toString(radix)` / `BigInt.prototype.toString(radix)` on an integer. */
  function IntToString(v: int, radix: nat): (s: string)
    requires 2 <= radix <= 16
  {
    if v < 0 then "-" + NatDigits(-v, radix) else NatDigits(v, radix)
  }

  function Repeat(c: char, n: nat): (s: string)
    ensures |s| == n && forall i :: 0 <= i < n ==> s[i] == c
  {
    if n == 0 then [] else [c] + Repeat(c, n - 1)
  }

  /** `String.prototype.padStart(len, fill)` with a one-character fill. */
  function PadStart(s: string, len: nat, fill: char): (r: string)
  {
    if |s| >= len then s else Repeat(fill, len - |s|) + s
  }

  function UpperChar(c: char): char
  {
    if 'a' <= c <= 'z' then (c as int - 32) as char else c
  }

  /** `String.prototype.toUpperCase`, on the ASCII letters that number strings contain. */
  function ToUpper(s: string): (r: string)
    ensures |r| == |s|
    ensures forall i :: 0 <= i < |s| ==> r[i] == UpperChar(s[i])
  {
    if s == [] then [] else [UpperChar(s[0])] + ToUpper(s[1..])
  }

  predicate IsLowerHexLetter(c: char) { 'a' <= c <= 'f' }

  // ---------------------------------------------------------------------
  // Reading an integer back

  /** The value of a digit character in either case, or -1 when it is not one. */
  function DigitValue(c: char): int
  {
    if '0' <= c <= '9' then c as int - '0' as int
    else if 'a' <= c <= 'f' then c as int - 'a' as int + 10
    else if 'A' <= c <= 'F' then c as int - 'A' as int + 10
    else -1
  }

  predicate IsDigit(c: char, radix: nat) { 0 <= DigitValue(c) < radix }

  predicate AllDigits(s: string, radix: nat) { forall i :: 0 <= i < |s| ==> IsDigit(s[i], radix) }

  /** The value of a string of digits, most significant first. */
  function DigitsValue(s: string, radix: nat): nat
    requires AllDigits(s, radix)
  {
    if s == [] then 0 else DigitsValue(s[..|s| - 1], radix) * radix + DigitValue(s[|s| - 1])
  }

  /** A reference reader: an optional `-` followed by at least one digit of `radix`. */
  function ParseInt(s: string, radix: nat): Option<int>
  {
    if |s| > 1 && s[0] == '-' && AllDigits(s[1..], radix) then Some(-(DigitsValue(s[1..], radix) as int))
    else if |s| > 0 && AllDigits(s, radix) then Some(DigitsValue(s, radix))
    else None
  }

  /** The characters ECMAScript's `trim` and `StringToBigInt` treat as white space or line terminators. */
  predicate IsJsWhitespace(c: char)
  {
    c == '\t' || c == '\n' || c == '\U{000B}' || c == '\U{000C}' || c == '\r' || c == ' '
    || c == '\U{00A0}' || c == '\U{1680}' || ('\U{2000}' <= c <= '\U{200A}')
    || c == '\U{2028}' || c == '\U{2029}' || c == '\U{202F}' || c == '\U{205F}'
    || c == '\U{3000}' || c == '\U{FEFF}'
  }

  function TrimStart(s: string): (r: string)
    ensures |r| <= |s| && r == s[|s| - |r|..]
    ensures r == [] || !IsJsWhitespace(r[0])
  {
    if s != [] && IsJsWhitespace(s[0]) then TrimStart(s[1..]) else s
  }

  function TrimEnd(s: string): (r: string)
    ensures |r| <= |s| && r == s[..|r|]
    ensures r == [] || !IsJsWhitespace(r[|r| - 1])
  {
    if s != [] && IsJsWhitespace(s[|s| - 1]) then TrimEnd(s[..|s| - 1]) else s
  }

  /** `String.prototype.trim`. */
  function Trim(s: string): string
  {
    TrimEnd(TrimStart(s))
  }

  // ---------------------------------------------------------------------
  // Bytes

  /** A zero-filled buffer, as `new Uint8Array(n)` or `make([]byte, n)` allocates. */
  function Zeros(n: nat): (s: seq<byte>)
    ensures |s| == n && forall k :: 0 <= k < n ==> s[k] == 0
  {
    seq(n, _ => 0)
  }

  /** The unsigned value of `bytes` read least significant byte first. */
  function LittleEndian(bytes: seq<byte>): (v: nat)
    ensures v < Pow(256, |bytes|)
  {
    if bytes == [] then 0 else bytes[0] + 256 * LittleEndian(bytes[1..])
  }

  /** The `n` bytes of `v`, least significant first. */
  function ToLittleEndian(v: nat, n: nat): (bytes: seq<byte>)
    ensures |bytes| == n
  {
    if n == 0 then [] else [v % 256] + ToLittleEndian(v / 256, n - 1)
  }

  /** The two's complement reading of an unsigned `bits`-wide value. */
  function TwosComplement(u: nat, bits: nat): int
    requires bits >= 1
  {
    if u >= Pow(2, bits - 1) then u - Pow(2, bits) else u
  }

  // ---------------------------------------------------------------------
  // Facts about the definitions above

  lemma DigitCharValue(d: nat)
    requires d < 16
    ensures DigitValue(DigitChar(d)) == d && DigitValue(UpperChar(DigitChar(d))) == d
    ensures !('A' <= DigitChar(d) <= 'Z') && DigitChar(d) != '-' && !IsJsWhitespace(DigitChar(d))
  {
  }

  /** Division by a positive `b` of something below `b * c` leaves something below `c`. */
  lemma DivBelow(a: nat, b: nat, c: nat)
    requires b > 0 && a < b * c
    ensures a / b < c
  {
  }

  /** A number below `radix^k` has at most `k` digits. */
  lemma {:induction false} NatDigitsLength(n: nat, radix: nat, k: nat)
    requires 2 <= radix <= 16 && k >= 1 && n < Pow(radix, k)
    ensures |NatDigits(n, radix)| <= k
    decreases k
  {
    if n >= radix {
      DropDigit(n, radix, k);
      NatDigitsLength(n / radix, radix, k - 1);
      assert NatDigits(n, radix) == NatDigits(n / radix, radix) + [DigitChar(n % radix)];
    }
  }

  /** Dropping the last digit of a number of at least two digits below `radix^k` leaves one below `radix^(k-1)`. */
  lemma DropDigit(n: nat, radix: nat, k: nat)
    requires 2 <= radix <= n && k >= 1 && n < Pow(radix, k)
    ensures k >= 2 && 1 <= n / radix < Pow(radix, k - 1)
  {
    var p := Pow(radix, k - 1);
    assert Pow(radix, k) == radix * p;
    assert Pow(radix, 1) == radix;
    DivBelow(n, radix, p);
    DivAtLeastOne(n, radix);
  }

  lemma DivAtLeastOne(n: nat, d: nat)
    requires 0 < d <= n
    ensures n / d >= 1
  {
  }

  lemma ToUpperAppend(a: string, b: string)
    ensures ToUpper(a + b) == ToUpper(a) + ToUpper(b)
  {
    var l := ToUpper(a + b);
    var r := ToUpper(a) + ToUpper(b);
    forall i | 0 <= i < |l|
      ensures l[i] == r[i]
    {
      if i < |a| {
        assert (a + b)[i] == a[i];
      } else {
        assert (a + b)[i] == b[i - |a|];
      }
    }
  }

  lemma DigitsValueSnoc(s: string, c: char, radix: nat)
    requires AllDigits(s, radix) && IsDigit(c, radix)
    ensures AllDigits(s + [c], radix)
    ensures DigitsValue(s + [c], radix) == DigitsValue(s, radix) * radix + DigitValue(c)
  {
    var u := s + [c];
    assert u[..|u| - 1] == s;
  }

  lemma DivMod(n: nat, radix: nat)
    requires radix > 0
    ensures (n / radix) * radix + n % radix == n
  {
  }

  /** The inductive step of NatDigitsValue: one more low digit. */
  lemma NatDigitsValueStep(n: nat, radix: nat)
    requires 2 <= radix <= 16 && n >= radix
    requires AllDigits(ToUpper(NatDigits(n / radix, radix)), radix)
    requires DigitsValue(ToUpper(NatDigits(n / radix, radix)), radix) == n / radix
    ensures AllDigits(ToUpper(NatDigits(n, radix)), radix)
    ensures DigitsValue(ToUpper(NatDigits(n, radix)), radix) == n
  {
    var q, d := n / radix, n % radix;
    DivMod(n, radix);
    var hi, c := NatDigits(q, radix), DigitChar(d);
    DigitCharValue(d);
    assert NatDigits(n, radix) == hi + [c];
    ToUpperAppend(hi, [c]);
    assert ToUpper([c]) == [UpperChar(c)];
    DigitsValueSnoc(ToUpper(hi), UpperChar(c), radix);
    assert ToUpper(NatDigits(n, radix)) == ToUpper(hi) + [UpperChar(c)];
  }

  /** Upper-cased digits are still digits of the radix, and read back as the number they print. */
  lemma {:induction false} NatDigitsValue(n: nat, radix: nat)
    requires 2 <= radix <= 16
    ensures AllDigits(ToUpper(NatDigits(n, radix)), radix)
    ensures DigitsValue(ToUpper(NatDigits(n, radix)), radix) == n
    decreases n
  {
    if n < radix {
      DigitCharValue(n);
      DigitsValueSnoc([], UpperChar(DigitChar(n)), radix);
      assert ToUpper(NatDigits(n, radix)) == [] + [UpperChar(DigitChar(n))];
    } else {
      NatDigitsValue(n / radix, radix);
      NatDigitsValueStep(n, radix);
    }
  }

  /** Leading zeros do not change the value of a digit string. */
  lemma {:induction false} LeadingZeros(k: nat, s: string, radix: nat)
    requires 2 <= radix && AllDigits(s, radix)
    ensures AllDigits(Repeat('0', k) + s, radix)
    ensures DigitsValue(Repeat('0', k) + s, radix) == DigitsValue(s, radix)
    decreases k, |s|
  {
    var z := Repeat('0', k) + s;
    assert AllDigits(z, radix) by {
      forall i | 0 <= i < |z| ensures IsDigit(z[i], radix) {
        if i >= k { assert z[i] == s[i - k]; }
      }
    }
    if k == 0 {
      assert z == s;
    } else if s == [] {
      assert z == Repeat('0', k - 1) + ['0'];
      assert z[..|z| - 1] == Repeat('0', k - 1) + [];
      LeadingZeros(k - 1, [], radix);
    } else {
      var init := s[..|s| - 1];
      assert z[..|z| - 1] == Repeat('0', k) + init;
      assert z[|z| - 1] == s[|s| - 1];
      LeadingZeros(k, init, radix);
    }
  }

  /** Upper-casing leaves nothing in `a`..`z`. */
  lemma ToUpperHasNoLowercase(s: string)
    ensures forall i :: 0 <= i < |ToUpper(s)| ==> !('a' <= ToUpper(s)[i] <= 'z')
  {
  }

  /** Decoding the little-endian bytes of `v` gives `v` back. */
  lemma {:induction false} LittleEndianOfBytes(v: nat, n: nat)
    requires v < Pow(256, n)
    ensures LittleEndian(ToLittleEndian(v, n)) == v
  {
    if n > 0 {
      assert v / 256 < Pow(256, n - 1);
      LittleEndianOfBytes(v / 256, n - 1);
      assert ToLittleEndian(v, n)[1..] == ToLittleEndian(v / 256, n - 1);
    }
  }

  /** Encoding the little-endian value of `bytes` gives `bytes` back. */
  lemma {:induction false} BytesOfLittleEndian(bytes: seq<byte>)
    ensures ToLittleEndian(LittleEndian(bytes), |bytes|) == bytes
  {
    if bytes != [] {
      BytesOfLittleEndian(bytes[1..]);
      var v := LittleEndian(bytes);
      assert v % 256 == bytes[0] && v / 256 == LittleEndian(bytes[1..]);
    }
  }

  /** Two's complement stays within the signed range of its width. */
  lemma TwosComplementRange(u: nat, bits: nat)
    requires bits >= 1 && u < Pow(2, bits)
    ensures -(Pow(2, bits - 1) as int) <= TwosComplement(u, bits) < Pow(2, bits - 1)
    ensures TwosComplement(u, bits) < 0 <==> u >= Pow(2, bits - 1)
  {
    assert Pow(2, bits) == 2 * Pow(2, bits - 1);
  }

  lemma {:induction false} PowAdd(b: nat, x: nat, y: nat)
    ensures Pow(b, x + y) == Pow(b, x) * Pow(b, y)
  {
    if y > 0 {
      PowAdd(b, x, y - 1);
      var p, q := Pow(b, x), Pow(b, y - 1);
      calc {
        Pow(b, x + y);
        b * Pow(b, x + y - 1);
        b * (p * q);
        { MulComm3(b, p, q); }
        p * (b * q);
        p * Pow(b, y);
      }
    }
  }

  lemma MulComm3(a: int, b: int, c: int)
    ensures a * (b * c) == b * (a * c)
  {
  }

  lemma {:induction false} PowMul(b: nat, x: nat, y: nat)
    ensures Pow(b, x * y) == Pow(Pow(b, x), y)
  {
    if y > 0 {
      PowMul(b, x, y - 1);
      assert x * y == x + x * (y - 1);
      PowAdd(b, x, x * (y - 1));
    }
  }

  /** Leading spaces are trimmed away up to the first non-white-space character. */
  lemma {:induction false} TrimStartSpaces(k: nat, s: string)
    requires s == [] || !IsJsWhitespace(s[0])
    ensures TrimStart(Repeat(' ', k) + s) == s
  {
    var t := Repeat(' ', k) + s;
    if k == 0 {
      assert t == s;
    } else {
      var u := Repeat(' ', k - 1) + s;
      assert t == [' '] + u;
      TrimStartSpace(u);
      TrimStartSpaces(k - 1, s);
    }
  }

  /** One leading space is trimmed. */
  lemma TrimStartSpace(u: string)
    ensures TrimStart([' '] + u) == TrimStart(u)
  {
    assert ([' '] + u)[1..] == u;
  }

  /** The magnitude of `v`. */
  function Abs(v: int): nat { if v < 0 then -v else v }

  /** The upper-cased text of `v`: an optional `-`, then its upper-cased digits. */
  lemma UpperIntToString(v: int, radix: nat)
    requires 2 <= radix <= 16
    ensures ToUpper(IntToString(v, radix))
            == (if v < 0 then "-" else "") + ToUpper(NatDigits(Abs(v), radix))
  {
    if v < 0 { ToUpperAppend("-", NatDigits(Abs(v), radix)); }
  }

  /** The upper-cased text of an integer reads back as that integer. */
  lemma ParseUpperIntToString(v: int, radix: nat)
    requires 2 <= radix <= 16
    ensures ParseInt(ToUpper(IntToString(v, radix)), radix) == Some(v)
  {
    var digits := ToUpper(NatDigits(Abs(v), radix));
    UpperIntToString(v, radix);
    NatDigitsValue(Abs(v), radix);
    DigitsNotWhitespace(digits, radix);
    if v < 0 {
      assert ("-" + digits)[1..] == digits;
    } else {
      assert ("" + digits) == digits;
    }
  }

  /** Trimming removes exactly the spaces that padding added. */
  lemma TrimSpacePadded(v: int, radix: nat, width: nat)
    requires 2 <= radix <= 16
    ensures Trim(ToUpper(PadStart(IntToString(v, radix), width, ' '))) == ToUpper(IntToString(v, radix))
  {
    var raw := IntToString(v, radix);
    var k := if |raw| >= width then 0 else width - |raw|;
    var up := ToUpper(raw);
    UpperTextEnds(v, radix);
    PaddedUpper(raw, width, ' ');
    TrimStartSpaces(k, up);
    assert TrimStart(Repeat(' ', k) + up) == up;
    assert TrimEnd(up) == up;
  }

  /** The upper-cased text of an integer is not empty and neither starts nor ends with white space. */
  lemma UpperTextEnds(v: int, radix: nat)
    requires 2 <= radix <= 16
    ensures var up := ToUpper(IntToString(v, radix));
            |up| > 0 && !IsJsWhitespace(up[0]) && !IsJsWhitespace(up[|up| - 1])
  {
    var up := ToUpper(IntToString(v, radix));
    var digits := ToUpper(NatDigits(Abs(v), radix));
    UpperIntToString(v, radix);
    NatDigitsValue(Abs(v), radix);
    DigitsNotWhitespace(digits, radix);
    assert up[|up| - 1] == digits[|digits| - 1];
    assert up[0] == '-' || up[0] == digits[0];
  }

  /** Padding with a character that is not a lower-case letter commutes with upper-casing:
      the padding stays in front of the upper-cased text. */
  lemma PaddedUpper(raw: string, width: nat, fill: char)
    requires !('a' <= fill <= 'z')
    ensures ToUpper(PadStart(raw, width, fill)) == Repeat(fill, if |raw| >= width then 0 else width - |raw|) + ToUpper(raw)
  {
    var k := if |raw| >= width then 0 else width - |raw|;
    assert PadStart(raw, width, fill) == Repeat(fill, k) + raw;
    ToUpperAppend(Repeat(fill, k), raw);
    assert ToUpper(Repeat(fill, k)) == Repeat(fill, k);
  }

  /** A non-empty digit string is its own trim and reads back as its value. */
  lemma TrimDigits(s: string, radix: nat)
    requires |s| > 0 && AllDigits(s, radix)
    ensures Trim(s) == s
    ensures ParseInt(s, radix) == Some(DigitsValue(s, radix))
  {
    DigitsNotWhitespace(s, radix);
    assert TrimStart(s) == s;
  }

  /** Zero padding of a non-negative integer leaves a digit string of the same value. */
  lemma ZeroPaddedValue(v: nat, radix: nat, width: nat)
    requires 2 <= radix <= 16
    ensures Trim(ToUpper(PadStart(IntToString(v, radix), width, '0')))
            == ToUpper(PadStart(IntToString(v, radix), width, '0'))
    ensures ParseInt(Trim(ToUpper(PadStart(IntToString(v, radix), width, '0'))), radix) == Some(v)
  {
    var raw := IntToString(v, radix);
    var k := if |raw| >= width then 0 else width - |raw|;
    NatDigitsValue(v, radix);
    PaddedUpper(raw, width, '0');
    LeadingZeros(k, ToUpper(raw), radix);
    TrimDigits(Repeat('0', k) + ToUpper(raw), radix);
  }

  /** A padded, upper-cased integer trims and reads back as itself, when the padding is
      spaces, or zeros in front of a number with no sign. */
  lemma PaddedRoundTrip(v: int, radix: nat, width: nat, fill: char)
    requires 2 <= radix <= 16
    requires fill == ' ' || (fill == '0' && v >= 0)
    ensures ParseInt(Trim(ToUpper(PadStart(IntToString(v, radix), width, fill))), radix) == Some(v)
  {
    if fill == ' ' {
      TrimSpacePadded(v, radix, width);
      ParseUpperIntToString(v, radix);
    } else {
      ZeroPaddedValue(v, radix, width);
    }
  }

  /** Digits are neither white space nor a minus sign. */
  lemma DigitsNotWhitespace(s: string, radix: nat)
    requires AllDigits(s, radix)
    ensures forall i :: 0 <= i < |s| ==> !IsJsWhitespace(s[i]) && s[i] != '-'
  {
  }

  /** A number whose magnitude is below `radix^k` prints in at most `k` characters, plus one for a `-`. */
  lemma IntToStringLength(v: int, radix: nat, k: nat)
    requires 2 <= radix <= 16 && k >= 1 && Abs(v) < Pow(radix, k)
    ensures |IntToString(v, radix)| <= k + (if v < 0 then 1 else 0)
  {
    NatDigitsLength(Abs(v), radix, k);
  }

  /** `formatHex` of the table views: `n.toString(16).padStart(2, "0").toUpperCase()`. */
  function FormatHex(n: int): string
  {
    ToUpper(PadStart(IntToString(n, 16), 2, '0'))
  }

  /** `formatHex` gives at least two characters, none of them lower-case. */
  lemma FormatHexShape(n: int)
    ensures |FormatHex(n)| >= 2
    ensures forall i :: 0 <= i < |FormatHex(n)| ==> !('a' <= FormatHex(n)[i] <= 'z')
  {
    ToUpperHasNoLowercase(PadStart(IntToString(n, 16), 2, '0'));
  }

  /** `formatHex` reads back, in radix 16, as the number it was given. */
  lemma FormatHexParses(n: int)
    ensures ParseInt(FormatHex(n), 16) == Some(n)
  {
    if n >= 0 {
      ZeroPaddedValue(n, 16, 2);
    } else {
      assert |IntToString(n, 16)| >= 2;
      assert FormatHex(n) == ToUpper(IntToString(n, 16));
      ParseUpperIntToString(n, 16);
    }
  }
}

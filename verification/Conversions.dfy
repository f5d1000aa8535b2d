/**
 Integers as text in any radix, and as bytes with the most significant first.
 */
module Conversions {
  import opened OdbcCodes
  import opened Digits

  predicate IsInt64(v: int) {
    -TWO63 <= v < TWO63
  }

  // ----- Text -----

  /** The two digit tables. */
  const UPPER_DIGITS := "0123456789ABCDEFGHIJKLMNOPQRSTUVWXYZ"
  const LOWER_DIGITS := "0123456789abcdefghijklmnopqrstuvwxyz"

  /** The digits are those of the tables. */
  lemma DigitsOfTables(d: nat)
    requires d < 36
    ensures Digit(d, true) == UPPER_DIGITS[d] && Digit(d, false) == LOWER_DIGITS[d]
  {
  }

  lemma DigitStandsFor(d: nat, upcase: bool)
    requires d < 36
    ensures DigitValue(Digit(d, upcase)) == d
    ensures Digit(d, upcase) != '-'
  {
  }

  /** The number a string of digits stands for. */
  function Value(s: string, radix: nat): nat {
    if s == "" then 0 else Value(s[..|s| - 1], radix) * radix + DigitValue(s[|s| - 1])
  }

  /** A digit string of the given radix and case, without superfluous leading zeros. */
  ghost predicate IsNumeral(s: string, radix: nat, upcase: bool) {
    && s != ""
    && (|s| > 1 ==> s[0] != '0')
    && forall k :: 0 <= k < |s| ==> IsDigit(s[k], radix, upcase)
  }

  ghost predicate IsDigit(c: char, radix: nat, upcase: bool) {
    DigitValue(c) < Min(radix, 36) && c == Digit(DigitValue(c), upcase)
  }

  lemma Division(u: nat, b: nat)
    requires b >= 2
    ensures 0 <= u / b <= u / 2 && 0 <= u % b < b
    ensures u == (u / b) * b + u % b
    ensures u < b ==> u / b == 0 && u % b == u
    ensures u >= b ==> u / b > 0
  {
    assert u == (u / b) * b + u % b;
    Halved(u / b, u % b, b);
  }

  lemma Halved(q: int, r: int, b: int)
    requires 0 <= r < b && b >= 2 && q * b + r >= 0
    ensures 0 <= q <= (q * b + r) / 2
    ensures q * b + r >= b <==> q > 0
    ensures q == 0 ==> r == q * b + r
  {
    MultipleOf(q, b);
    assert q * b == 2 * q + q * (b - 2);
    if q > 0 && b > 2 {
      MultipleOf(q, b - 2);
    }
  }

  function Numeral(u: nat, radix: nat, upcase: bool): (s: string)
    requires 2 <= radix <= 36
    ensures s != ""
  {
    Division(u, radix);
    if u < radix then [Digit(u, upcase)]
    else Numeral(u / radix, radix, upcase) + [Digit(u % radix, upcase)]
  }

  lemma {:induction false} NumeralIsNumeral(u: nat, radix: nat, upcase: bool)
    requires 2 <= radix <= 36
    ensures IsNumeral(Numeral(u, radix, upcase), radix, upcase)
    ensures u > 0 ==> Numeral(u, radix, upcase)[0] != '0'
  {
    if u < radix {
      DigitStandsFor(u, upcase);
    } else {
      Division(u, radix);
      var q, d := u / radix, u % radix;
      NumeralIsNumeral(q, radix, upcase);
      DigitStandsFor(d, upcase);
      assert IsDigit(Digit(d, upcase), radix, upcase);
    }
  }

  lemma {:induction false} NumeralHasValue(u: nat, radix: nat, upcase: bool)
    requires 2 <= radix <= 36
    ensures Value(Numeral(u, radix, upcase), radix) == u
  {
    var s := Numeral(u, radix, upcase);
    if u < radix {
      DigitStandsFor(u, upcase);
      assert s[..0] == "";
    } else {
      Division(u, radix);
      var q, d := u / radix, u % radix;
      NumeralHasValue(q, radix, upcase);
      DigitStandsFor(d, upcase);
      assert s[..|s| - 1] == Numeral(q, radix, upcase);
    }
  }

  lemma LongerNumeral(v: nat, d: nat, radix: nat, upcase: bool)
    requires 2 <= radix <= 36 && v > 0 && d < radix
    ensures v * radix + d > 0
    ensures Numeral(v * radix + d, radix, upcase) == Numeral(v, radix, upcase) + [Digit(d, upcase)]
  {
    MultipleOf(v, radix);
    QuotientAndRemainder(v, d, radix);
  }

  /** A numeral is the only numeral with its value. */
  lemma {:induction false} NumeralOfValue(s: string, radix: nat, upcase: bool)
    requires 2 <= radix <= 36 && IsNumeral(s, radix, upcase)
    ensures Numeral(Value(s, radix), radix, upcase) == s
    ensures s[0] != '0' ==> Value(s, radix) > 0
    decreases |s|
  {
    var front, last := s[..|s| - 1], s[|s| - 1];
    assert IsDigit(last, radix, upcase);
    assert s == front + [last];
    if front == "" {
      assert Value(s, radix) == DigitValue(last);
    } else {
      assert IsNumeral(front, radix, upcase) by {
        assert forall k :: 0 <= k < |front| ==> front[k] == s[k];
      }
      NumeralOfValue(front, radix, upcase);
      LongerNumeral(Value(front, radix), DigitValue(last), radix, upcase);
    }
  }

  lemma MultipleOf(d: int, b: int)
    requires b > 0
    ensures d >= 1 ==> d * b >= b
    ensures d <= -1 ==> d * b <= -b
  {
    if d >= 1 {
      assert d * b == b + (d - 1) * b;
    } else if d <= -1 {
      assert d * b == -b + (d + 1) * b;
    }
  }

  lemma QuotientAndRemainder(q: int, r: int, b: int)
    requires 0 <= r < b
    ensures (q * b + r) / b == q && (q * b + r) % b == r
  {
    var x := q * b + r;
    var d := x / b - q;
    assert d * b == r - x % b by {
      assert x == (x / b) * b + x % b;
    }
    MultipleOf(d, b);
  }

  /** A number below 2^n has at most n digits in any radix. */
  lemma {:induction false} NumeralLength(u: nat, n: nat, radix: nat, upcase: bool)
    requires 2 <= radix <= 36 && n > 0 && u < Power(2, n)
    ensures |Numeral(u, radix, upcase)| <= n
  {
    Division(u, radix);
    if u >= radix {
      assert n > 1 by {
        assert Power(2, 1) == 2;
      }
      NumeralLength(u / radix, n - 1, radix, upcase);
    }
  }

  /** The radixes ll2str accepts: negative ones ask for a signed conversion. */
  predicate GoodRadix(radix: int) {
    2 <= radix <= 36 || -36 <= radix <= -2
  }

  function Magnitude(radix: int): nat {
    if radix < 0 then -radix else radix
  }

  /** The number written: the 64 bits taken as signed or as unsigned. */
  function Meant(val: int, radix: int): int {
    if radix > 0 then val % TWO64 else val
  }

  function Text(val: int, radix: int, upcase: bool): string
    requires GoodRadix(radix)
  {
    var m := Meant(val, radix);
    if m < 0 then "-" + Numeral(-m, Magnitude(radix), upcase)
    else Numeral(m, Magnitude(radix), upcase)
  }

  /** Reads a numeral with an optional minus sign. */
  function Decode(s: string, radix: nat): int {
    if s != "" && s[0] == '-' then 0 - (Value(s[1..], radix) as int) else Value(s, radix)
  }

  /** Decoding the text gives the number back, signed or modulo 2^64, and 64 digits are enough. */
  lemma TextDecodes(val: int, radix: int, upcase: bool)
    requires -0x8000_0000_0000_0000 <= val < 0x8000_0000_0000_0000
    requires 2 <= radix <= 36 || -36 <= radix <= -2
    ensures Decode(Text(val, radix, upcase), if radix < 0 then -radix else radix)
         == if radix < 0 then val else val % 0x1_0000_0000_0000_0000
    ensures |Text(val, radix, upcase)| <= if radix < 0 && val < 0 then 65 else 64
    ensures Text(val, radix, upcase)[0] == '-' <==> radix < 0 && val < 0
  {
    var m, r := Meant(val, radix), Magnitude(radix);
    var u: nat := if m < 0 then -m else m;
    NumeralIsNumeral(u, r, upcase);
    NumeralHasValue(u, r, upcase);
    NumeralFits(u, r, upcase);
    assert IsDigit(Numeral(u, r, upcase)[0], r, upcase);
    DigitStandsFor(DigitValue(Numeral(u, r, upcase)[0]), upcase);
  }

  /** A 64-bit number has at most 64 digits. */
  lemma NumeralFits(u: nat, radix: nat, upcase: bool)
    requires 2 <= radix <= 36 && u < TWO64
    ensures |Numeral(u, radix, upcase)| <= 64
  {
    var n := 64;
    PowerByBytes(2, 8, 8);
    Powers256(8);
    NumeralLength(u, n, radix, upcase);
  }

  /** A power by groups of factors. */
  lemma {:induction false} PowerByBytes(b: nat, m: nat, k: nat)
    ensures Power(b, m * k) == Power(Power(b, m), k)
  {
    if k > 0 {
      PowerByBytes(b, m, k - 1);
      assert m * k == m + m * (k - 1);
      PowerAdds(b, m, m * (k - 1));
    }
  }

  lemma {:induction false} PowerAdds(b: nat, m: nat, n: nat)
    ensures Power(b, m + n) == Power(b, m) * Power(b, n)
  {
    if m > 0 {
      PowerAdds(b, m - 1, n);
      Associates(b, Power(b, m - 1), Power(b, n));
    }
  }

  lemma Associates(x: int, y: int, z: int)
    ensures x * (y * z) == (x * y) * z
  {
  }

  /**
   ll2str: the digits are put into a local buffer from its end and copied out. The result is the
   index of the closing NUL, or None with nothing written when the radix is bad.
   */
  method Ll2Str(val: int, dst: array<char>, radix: int, upcase: bool) returns (end: Option<nat>)
    requires IsInt64(val)
    requires GoodRadix(radix) ==> |Text(val, radix, upcase)| < dst.Length
    modifies dst
    ensures end.Some? <==> GoodRadix(radix)
    ensures end.None? ==> dst[..] == old(dst[..])
    ensures end.Some? ==>
      && end.value == |Text(val, radix, upcase)|
      && dst[..end.value] == Text(val, radix, upcase) && dst[end.value] == '\0'
      && dst[end.value + 1..] == old(dst[end.value + 1..])
  {
    var at, uval, r := 0, val % TWO64, radix;
    if radix < 0 {
      if radix < -36 || radix > -2 {
        return None;
      }
      if val < 0 {
        dst[0] := '-';
        at, uval := 1, (0 - uval) % TWO64;
      }
      r := -radix;
    } else if radix > 36 || radix < 2 {
      return None;
    }
    MeantBits(val);
    ghost var sign := if at == 1 then "-" else "";
    assert Text(val, radix, upcase) == sign + Numeral(uval, r, upcase);
    assert dst[..at] == sign;
    var length := PutNumeral(dst, at, uval, r, upcase);
    return Some(length);
  }

  lemma MeantBits(val: int)
    requires IsInt64(val)
    ensures val >= 0 ==> val % TWO64 == val
    ensures val < 0 ==> (0 - val % TWO64) % TWO64 == -val
  {
    if val < 0 {
      assert val % TWO64 == val + TWO64;
    }
  }

  /** Copies the digits into the destination and closes them with a NUL. */
  method PutNumeral(dst: array<char>, at: nat, uval: nat, radix: nat, upcase: bool) returns (end: nat)
    requires uval < TWO64 && 2 <= radix <= 36
    requires at + |Numeral(uval, radix, upcase)| < dst.Length
    modifies dst
    ensures end == at + |Numeral(uval, radix, upcase)|
    ensures dst[..end] == old(dst[..at]) + Numeral(uval, radix, upcase)
    ensures dst[end] == '\0' && dst[end + 1..] == old(dst[end + 1..])
  {
    var buffer, p := PutDigits(uval, radix, upcase);
    end := at + (buffer.Length - p);
    Copy(dst, at, buffer, p);
    dst[end] := '\0';
  }

  method Copy(dst: array<char>, at: nat, buffer: array<char>, p: nat)
    requires buffer != dst && p <= buffer.Length && at + (buffer.Length - p) <= dst.Length
    modifies dst
    ensures dst[..] == old(dst[..at]) + buffer[p..] + old(dst[at + (buffer.Length - p)..])
  {
    var i := p;
    while i < buffer.Length
      invariant p <= i <= buffer.Length
      invariant dst[..] == old(dst[..at]) + buffer[p..i] + old(dst[at + (i - p)..])
    {
      dst[at + (i - p)] := buffer[i];
      i := i + 1;
    }
    assert buffer[p..i] == buffer[p..];
  }

  /** The digits of a 64-bit number, right-aligned in 65 characters. */
  method PutDigits(val: nat, radix: nat, upcase: bool) returns (buffer: array<char>, p: nat)
    requires val < TWO64 && 2 <= radix <= 36
    ensures fresh(buffer) && buffer.Length == 65 && p <= 65
    ensures buffer[p..] == Numeral(val, radix, upcase)
  {
    NumeralFits(val, radix, upcase);
    Division(val, radix);
    buffer := new char[65];
    p := 64;
    buffer[p] := Digit(val % radix, upcase);
    var uval: nat := val / radix;
    while uval != 0
      invariant p <= 64
      invariant Numeral(val, radix, upcase) == (if uval == 0 then "" else Numeral(uval, radix, upcase)) + buffer[p..]
    {
      ghost var done := buffer[p..];
      Division(uval, radix);
      p := p - 1;
      buffer[p] := Digit(uval % radix, upcase);
      assert buffer[p..] == [Digit(uval % radix, upcase)] + done;
      uval := uval / radix;
    }
  }

  // ----- Bytes -----

  type Byte = b: int | 0 <= b < 256

  /** The number a byte string stands for, most significant byte first. */
  function FromBytes(s: seq<Byte>): nat {
    if s == [] then 0 else FromBytes(s[..|s| - 1]) * 256 + s[|s| - 1]
  }

  /** The first byte counts most. */
  lemma {:induction false} FirstByteCountsMost(b: Byte, rest: seq<Byte>)
    ensures FromBytes([b] + rest) == b * Power(256, |rest|) + FromBytes(rest)
    decreases |rest|
  {
    var s := [b] + rest;
    if rest == [] {
      assert s[..0] == [];
      assert Power(256, 0) == 1;
    } else {
      var front, last := rest[..|rest| - 1], rest[|rest| - 1];
      assert s[..|s| - 1] == [b] + front;
      FirstByteCountsMost(b, front);
      Distribute(b, 0, Power(256, |front|));
    }
  }

  /** The n low bytes of a number in two's complement. */
  function ToBytes(v: int, n: nat): (s: seq<Byte>)
    ensures |s| == n
    decreases n
  {
    if n == 0 then [] else ToBytes(v / 256, n - 1) + [v % 256]
  }

  lemma {:induction false} FromToBytes(v: int, n: nat)
    ensures FromBytes(ToBytes(v, n)) == v % Power(256, n)
    decreases n
  {
    if n > 0 {
      var s, P := ToBytes(v, n), Power(256, n - 1);
      assert s[..n - 1] == ToBytes(v / 256, n - 1);
      FromToBytes(v / 256, n - 1);
      LowByteSplit(v, P);
    }
  }

  lemma LowByteSplit(v: int, P: nat)
    requires P > 0
    ensures (v / 256 % P) * 256 + v % 256 == v % (256 * P)
  {
    var q := v / 256;
    var k, m := q / P, q % P;
    assert q * 256 == k * (256 * P) + m * 256 by {
      assert q == k * P + m;
    }
    QuotientAndRemainder(k, m * 256 + v % 256, 256 * P);
  }

  lemma {:induction false} ToFromBytes(s: seq<Byte>)
    ensures ToBytes(FromBytes(s), |s|) == s
    ensures FromBytes(s) < Power(256, |s|)
  {
    if s != [] {
      var front, last := s[..|s| - 1], s[|s| - 1];
      ToFromBytes(front);
      QuotientAndRemainder(FromBytes(front), last, 256);
      assert s == front + [last];
    }
  }

  /** The value a 64-bit integer type keeps of a number. */
  function Wrap(x: int, signed: bool): int {
    var u := x % TWO64;
    if signed && u >= TWO63 then u - TWO64 else u
  }

  lemma WrapAdds(x: int, y: int, signed: bool)
    ensures Wrap(Wrap(x, signed) + Wrap(y, signed), signed) == Wrap(x + y, signed)
  {
    var k := x / TWO64 + y / TWO64;
    var z := Wrap(x, signed) + Wrap(y, signed);
    assert (x + y) % TWO64 == z % TWO64;
  }

  lemma Powers256(n: nat)
    requires n <= 8
    ensures Power(256, n) <= TWO64
    ensures n == 8 ==> Power(256, n) == TWO64
    ensures n < 8 ==> Power(256, n) <= TWO63
    decreases 8 - n
  {
    if n < 8 {
      Powers256(n + 1);
    } else {
      PowerAdds(256, 4, 4);
      PowerAdds(256, 2, 2);
    }
  }

  /**
   Writing n bytes and reading them back keeps the low bytes. Read as unsigned that is the value
   modulo 256^n; read as signed it is the value itself exactly for eight bytes or when the value is
   not negative and fits, since shorter byte strings are not sign-extended.
   */
  lemma BytesReadBack(v: int, n: nat)
    requires -0x8000_0000_0000_0000 <= v < 0x8000_0000_0000_0000 && n <= 8
    ensures Wrap(FromBytes(ToBytes(v, n)), false) == v % Power(256, n)
    ensures Wrap(FromBytes(ToBytes(v, n)), true) == v <==> n == 8 || 0 <= v < Power(256, n)
  {
    FromToBytes(v, n);
    Powers256(n);
    WrapOfRemainder(v, Power(256, n));
  }

  lemma WrapOfRemainder(v: int, P: nat)
    requires IsInt64(v) && (0 < P <= TWO63 || P == TWO64)
    ensures Wrap(v % P, false) == v % P
    ensures Wrap(v % P, true) == v <==> P == TWO64 || 0 <= v < P
  {
    if P != TWO64 {
      Remainder(v, P);
    }
  }

  lemma Remainder(v: int, b: nat)
    requires b > 0
    ensures 0 <= v % b < b
    ensures v % b == v <==> 0 <= v < b
  {
    if 0 <= v < b {
      QuotientAndRemainder(0, v, b);
    }
  }

  /** numeric2binary: the low bytes of src, written from the last to the first. */
  method Numeric2Binary(dst: array<Byte>, src: int, byteCount: nat)
    requires byteCount <= dst.Length
    modifies dst
    ensures dst[..] == ToBytes(src, byteCount) + old(dst[byteCount..])
  {
    var count: nat, rest: int := byteCount, src;
    while count > 0
      invariant 0 <= count <= byteCount
      invariant ToBytes(src, byteCount) == ToBytes(rest, count) + dst[count..byteCount]
      invariant dst[byteCount..] == old(dst[byteCount..])
    {
      ghost var done := dst[count..byteCount];
      count := count - 1;
      dst[count] := rest % 256;
      assert dst[count..byteCount] == [rest % 256] + done;
      rest := rest / 256;
    }
    assert dst[..] == dst[..byteCount] + dst[byteCount..];
  }

  /** What the first i bytes contribute to the number. */
  function Sum(src: seq<Byte>, i: nat): int
    requires i <= |src|
  {
    if i == 0 then 0 else Sum(src, i - 1) + src[i - 1] * Power(256, |src| - i)
  }

  lemma {:induction false} SumIsScaled(src: seq<Byte>, i: nat)
    requires i <= |src|
    ensures Sum(src, i) == FromBytes(src[..i]) * Power(256, |src| - i)
  {
    if i > 0 {
      SumIsScaled(src, i - 1);
      assert src[..i][..i - 1] == src[..i - 1];
      Distribute(FromBytes(src[..i - 1]), src[i - 1], Power(256, |src| - i));
    }
  }

  lemma Distribute(f: int, b: int, P: int)
    ensures f * (256 * P) + b * P == (f * 256 + b) * P
  {
  }

  /** binary2numeric for a signed or an unsigned 64-bit type; it ends for at most eight bytes. */
  method Binary2Numeric(src: seq<Byte>, signed: bool) returns (dst: int)
    requires |src| <= 8
    ensures dst == Wrap(FromBytes(src), signed)
  {
    dst := 0;
    var i: nat, len: nat := 0, |src|;
    while len > 0
      invariant i + len == |src|
      invariant dst == Wrap(Sum(src, i), signed)
    {
      len := len - 1;
      var byte := src[i] * Power(256, len);
      WrapAdds(Sum(src, i), byte, signed);
      dst := Wrap(dst + Wrap(byte, signed), signed);
      i := i + 1;
    }
    SumIsScaled(src, i);
    assert src[..i] == src;
  }
}

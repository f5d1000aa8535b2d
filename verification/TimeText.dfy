/**
 What becomes of a TIME value on its way from a fetched text to a literal: insert_param reads the
 digits and prints hours, minutes and seconds again.
 */
module TimeText {
  import opened OdbcCodes
  import opened Digits
  import opened DecimalRuns
  import opened Conversions

  // ---------------------------------------------------------------- str_to_time_as_long

  /** Up to k numbers of 32 bits, and what is left behind them, for a text that starts with a digit. */
  function Numbers(t: string, k: nat): (r: (seq<nat>, string))
    ensures |r.0| <= k && |r.1| <= |t|
    ensures Run(t) > 0 && k > 0 ==> |r.0| > 0 && |r.1| < |t|
    ensures t == "" ==> r == ([], "")
    decreases k
  {
    var n := Run(t);
    if k == 0 || n == 0 then ([], t)
    else
      var (numbers, rest) := Numbers(Skip(t[n..]), k - 1);
      ([Value(t[..n], 10) % TWO32] + numbers, rest)
  }

  /** The value as the digits HHMMSS. A text without digits leaves the result unset; 0 stands for that. */
  function AsLong(s: string): nat
    decreases |s|
  {
    var t := Skip(s);
    if t == "" then 0
    else
      var (d, rest) := Numbers(t, 3);
      if rest != "" then AsLong(rest)
      else if d[0] > 10000 || |d| < 3 then d[0]
      else d[0] * 10000 + d[1] * 100 + d[2]
  }

  /** One more digit of a number of 32 bits. */
  lemma NextDigit(s: string, a: nat, b: nat)
    requires a <= b < |s|
    ensures (Value(s[a..b], 10) % TWO32 * 10 + DigitValue(s[b])) % TWO32 == Value(s[a..b + 1], 10) % TWO32
  {
    ValueOfLonger(s[a..b], s[b]);
    assert s[a..b + 1] == s[a..b] + [s[b]];
    WrappedStep(Value(s[a..b], 10), DigitValue(s[b]));
  }

  lemma ValueOfLonger(s: string, c: char)
    ensures Value(s + [c], 10) == Value(s, 10) * 10 + DigitValue(c)
  {
    assert (s + [c])[..|s|] == s;
  }

  lemma WrappedStep(v: nat, d: nat)
    ensures (v % TWO32 * 10 + d) % TWO32 == (v * 10 + d) % TWO32
  {
    assert v * 10 + d == v % TWO32 * 10 + d + (v / TWO32 * 10) * TWO32;
  }

  /** Reads the number at `pos` and steps to the next digit. */
  method ReadNumber(s: string, pos: nat) returns (number: nat, next: nat)
    requires pos < |s| && IsDecimal(s[pos])
    ensures pos < next <= |s|
    ensures number == Value(s[pos..][..Run(s[pos..])], 10) % TWO32
    ensures s[next..] == Skip(s[pos..][Run(s[pos..])..])
  {
    ghost var t := s[pos..];
    number, next := ReadDigits(s, pos);
    assert s[pos..next] == t[..Run(t)] && s[next..] == t[Run(t)..];
    next := SkipTo(s, next);
  }

  /** The loop over the digits of a number. */
  method ReadDigits(s: string, pos: nat) returns (number: nat, end: nat)
    requires pos < |s| && IsDecimal(s[pos])
    ensures pos < end == pos + Run(s[pos..]) <= |s|
    ensures number == Value(s[pos..end], 10) % TWO32
  {
    end, number := pos, 0;
    assert s[pos..pos] == "";
    while end < |s| && IsDecimal(s[end])
      invariant pos <= end <= |s|
      invariant number == Value(s[pos..end], 10) % TWO32
      invariant end + Run(s[end..]) == pos + Run(s[pos..])
    {
      NextDigit(s, pos, end);
      RunBehind(s, end);
      number := (number * 10 + DigitValue(s[end])) % TWO32;
      end := end + 1;
    }
  }

  lemma RunBehind(s: string, k: nat)
    requires k < |s| && IsDecimal(s[k])
    ensures Run(s[k..]) == 1 + Run(s[k + 1..])
  {
    assert s[k..][1..] == s[k + 1..];
  }

  /** The numbers of t are those of `date` and then those of `rest`. */
  ghost predicate ReadSoFar(t: string, date: seq<nat>, rest: string) {
    && |date| <= 3
    && Numbers(t, 3).0 == date + Numbers(rest, 3 - |date|).0
    && Numbers(t, 3).1 == Numbers(rest, 3 - |date|).1
  }

  lemma ReadMore(t: string, date: seq<nat>, rest: string, number: nat, next: string)
    requires ReadSoFar(t, date, rest) && |date| < 3 && Run(rest) > 0
    requires number == Value(rest[..Run(rest)], 10) % TWO32 && next == Skip(rest[Run(rest)..])
    ensures ReadSoFar(t, date + [number], next)
  {
    FirstNumber(rest, 3 - |date|);
    Associates3(date, [number], Numbers(next, 2 - |date|).0);
  }

  lemma FirstNumber(t: string, k: nat)
    requires k > 0 && Run(t) > 0
    ensures var (d, rest) := Numbers(Skip(t[Run(t)..]), k - 1);
            Numbers(t, k) == ([Value(t[..Run(t)], 10) % TWO32] + d, rest)
  {
  }

  lemma Associates3(a: seq<nat>, b: seq<nat>, c: seq<nat>)
    ensures a + (b + c) == (a + b) + c
  {
  }

  /** Reads up to three numbers from the first digit at or behind the start. */
  method ReadNumbers(s: string) returns (date: seq<nat>, pos: nat)
    ensures pos <= |s| && (date == [] <==> Skip(s) == "")
    ensures Numbers(Skip(s), 3) == (date, s[pos..])
    ensures date != [] ==> pos > 0
  {
    assert s[0..] == s;
    pos := SkipTo(s, 0);
    ghost var t := s[pos..];
    date := [];
    assert [] + Numbers(t, 3).0 == Numbers(t, 3).0;
    while |date| < 3 && pos < |s|
      invariant 0 <= pos <= |s| && ReadSoFar(t, date, s[pos..])
      invariant pos < |s| ==> IsDecimal(s[pos])
      invariant date == [] ==> s[pos..] == t
      invariant date != [] ==> t != "" && pos > 0
      decreases 3 - |date|
    {
      var number, next := ReadNumber(s, pos);
      ReadMore(t, date, s[pos..], number, s[next..]);
      date, pos := date + [number], next;
    }
    assert date + [] == date;
  }

  /** str_to_time_as_long. */
  method StrToTimeAsLong(s: string) returns (time: nat)
    ensures time == AsLong(s)
    decreases |s|
  {
    var date, pos := ReadNumbers(s);
    if date == [] {
      time := 0;
    } else if pos < |s| {
      time := StrToTimeAsLong(s[pos..]);
    } else if date[0] > 10000 || |date| < 3 {
      time := date[0];
    } else {
      time := date[0] * 10000 + (date[1] * 100 + date[2]);
    }
  }

  // ---------------------------------------------------------------- get_fractional_part

  function FirstDot(s: string): (k: nat)
    ensures k <= |s| && '.' !in s[..k]
    ensures k < |s| ==> s[k] == '.'
  {
    if s == "" || s[0] == '.' then 0
    else
      var k := FirstDot(s[1..]);
      assert s[..k + 1] == [s[0]] + s[1..][..k];
      k + 1
  }

  /** The digits behind the decimal point that count: up to nine, and none behind another character. */
  function FractionDigits(s: string): string {
    var k := FirstDot(s);
    if k + 1 >= |s| then ""
    else s[k + 1..][..Min(Run(s[k + 1..]), 9)]
  }

  predicate AllZero(s: string) {
    forall i :: 0 <= i < |s| ==> s[i] == '0'
  }

  /** One of these digits is not zero. */
  predicate HasFraction(s: string) {
    if s == "" then false
    else if s[0] == '.' then SomeDigit(s[1..], 9)
    else HasFraction(s[1..])
  }

  /** One of the first k leading digits is not zero. */
  predicate SomeDigit(s: string, k: nat) {
    k > 0 && s != "" && IsDecimal(s[0]) && (s[0] != '0' || SomeDigit(s[1..], k - 1))
  }

  /** Digit i is one of nine behind the first dot, with digits only between them, and it is not zero. */
  predicate Counts(s: string, dot: nat, i: nat) {
    && dot < i < |s| && i <= dot + 9
    && s[dot] == '.' && (forall k :: 0 <= k < dot ==> s[k] != '.')
    && (forall k :: dot < k <= i ==> '0' <= s[k] <= '9') && s[i] != '0'
  }

  /** Digit i is not zero, and there are digits only up to it. */
  predicate NotZeroAt(s: string, i: nat) {
    i < |s| && s[i] != '0' && forall m :: 0 <= m <= i ==> '0' <= s[m] <= '9'
  }

  lemma {:induction false} DigitFound(s: string, k: nat) returns (i: nat)
    requires SomeDigit(s, k)
    ensures i < k && NotZeroAt(s, i)
    decreases k
  {
    i := 0;
    if s[0] == '0' {
      var j := DigitFound(s[1..], k - 1);
      i := j + 1;
      NotZeroBehind(s, j);
    }
  }

  lemma {:induction false} DigitCounts(s: string, k: nat, i: nat)
    requires i < k && NotZeroAt(s, i)
    ensures SomeDigit(s, k)
    decreases k
  {
    assert '0' <= s[0] <= '9';
    if i > 0 {
      NotZeroBehind(s, i - 1);
      DigitCounts(s[1..], k - 1, i - 1);
    }
  }

  lemma NotZeroBehind(s: string, j: nat)
    requires s != "" && '0' <= s[0] <= '9'
    ensures NotZeroAt(s[1..], j) <==> NotZeroAt(s, j + 1)
  {
    assert forall m :: 0 <= m < |s[1..]| ==> s[1..][m] == s[m + 1];
    assert forall m :: 0 < m < |s| ==> s[m] == s[1..][m - 1];
  }

  /** The text has a fraction exactly if one of the up to nine digits behind its first dot is not zero. */
  lemma {:induction false} HasFractionSpelled(s: string)
    ensures HasFraction(s) <==> exists dot, i :: Counts(s, dot, i)
  {
    if s != "" && s[0] == '.' {
      FractionAtStart(s);
    } else if s != "" {
      HasFractionSpelled(s[1..]);
      if HasFraction(s[1..]) {
        var dot, i :| Counts(s[1..], dot, i);
        CountsShift(s, dot, i);
      }
      if dot: nat, i: nat :| Counts(s, dot, i) {
        assert s[dot] == '.' && dot > 0;
        CountsShift(s, dot - 1, i - 1);
      }
    }
  }

  lemma CountsShift(s: string, dot: nat, i: nat)
    requires s != "" && s[0] != '.'
    ensures Counts(s[1..], dot, i) <==> Counts(s, dot + 1, i + 1)
  {
    var t := s[1..];
    assert forall k :: 0 <= k < |t| ==> t[k] == s[k + 1];
    assert forall k :: 0 < k < |s| ==> s[k] == t[k - 1];
  }

  lemma FractionAtStart(s: string)
    requires s != "" && s[0] == '.'
    ensures SomeDigit(s[1..], 9) <==> exists dot, i :: Counts(s, dot, i)
  {
    var t := s[1..];
    assert forall k :: 0 < k < |s| ==> s[k] == t[k - 1];
    if SomeDigit(t, 9) {
      var i := DigitFound(t, 9);
      assert Counts(s, 0, i + 1);
    }
    if dot: nat, i: nat :| Counts(s, dot, i) {
      assert dot == 0;
      assert forall m :: 0 <= m <= i - 1 ==> t[m] == s[m + 1];
      DigitCounts(t, 9, i - 1);
    }
  }

  /** The fraction in billionths is not zero exactly if one of the digits that count is not. */
  lemma {:induction false} FractionByDigits(s: string)
    ensures HasFraction(s) <==> !AllZero(FractionDigits(s))
  {
    if s != "" {
      if s[0] == '.' {
        SomeDigitIs(s[1..], 9);
      } else {
        FractionByDigits(s[1..]);
        var k := FirstDot(s[1..]);
        if k + 1 < |s[1..]| {
          assert s[k + 2..] == s[1..][k + 1..];
        }
      }
    }
  }

  lemma {:induction false} SomeDigitIs(s: string, k: nat)
    ensures SomeDigit(s, k) <==> !AllZero(s[..Min(Run(s), k)])
  {
    if k > 0 && s != "" && IsDecimal(s[0]) {
      SomeDigitIs(s[1..], k - 1);
      assert s[..Min(Run(s), k)] == [s[0]] + s[1..][..Min(Run(s[1..]), k - 1)];
      FirstZero(s[0], s[1..][..Min(Run(s[1..]), k - 1)]);
    }
  }

  lemma FirstZero(c: char, rest: string)
    ensures AllZero([c] + rest) <==> c == '0' && AllZero(rest)
  {
    var s := [c] + rest;
    assert s[0] == c && forall i :: 0 < i < |s| ==> s[i] == rest[i - 1];
    if AllZero(s) {
      forall i | 0 <= i < |rest|
        ensures rest[i] == '0'
      {
        assert s[i + 1] == rest[i];
      }
    }
  }

  function Zeros(k: nat): string {
    seq(k, _ => '0')
  }

  lemma {:induction false} ZeroDigits(s: string)
    requires AllDecimal(s)
    ensures Value(s, 10) == 0 <==> AllZero(s)
  {
    if s != "" {
      var front := s[..|s| - 1];
      ZeroDigits(front);
      if AllZero(s) {
        assert AllZero(front);
      }
      if Value(s, 10) == 0 {
        assert Value(front, 10) == 0 && DigitValue(s[|s| - 1]) == 0;
      }
    }
  }

  /** get_fractional_part with a dot as the separator: billionths, padded in a buffer of nine digits. */
  method GetFractionalPart(s: string) returns (fraction: nat)
    ensures fraction != 0 <==> HasFraction(s)
  {
    var decptr := FirstDot(s);
    FractionByDigits(s);
    if decptr + 1 >= |s| {
      return 0;
    }
    var buff := FillBuffer(s[decptr + 1..]);
    ghost var rest := s[decptr + 1..];
    ZeroDigits(buff);
    PaddedZero(rest[..Min(Run(rest), 9)]);
    fraction := Value(buff, 10);
  }

  /** The copying loop: the buffer has ten places, of which the last is cut off again. */
  method FillBuffer(rest: string) returns (buff: string)
    ensures AllDecimal(rest[..Min(Run(rest), 9)]) && buff == Padded9(rest[..Min(Run(rest), 9)])
    ensures AllDecimal(buff)
  {
    var str, ptr := 0, 0;
    buff := Zeros(9);
    while str < |rest| && ptr < 10
      invariant 0 <= ptr <= 10 && str == Min(ptr, Run(rest))
      invariant buff == Padded9(rest[..Min(str, 9)])
      decreases 10 - ptr
    {
      if IsDecimal(rest[str]) {
        RunGoesOn(rest, str);
        if ptr < 9 {
          MorePadded(rest, ptr);
          buff := buff[ptr := rest[str]];
        }
        str := str + 1;
      }
      ptr := ptr + 1;
    }
    PaddedDecimal(rest[..Min(Run(rest), 9)]);
  }

  lemma RunGoesOn(rest: string, k: nat)
    requires k <= Run(rest) && k < |rest| && IsDecimal(rest[k])
    ensures k < Run(rest)
  {
  }

  lemma PaddedDecimal(d: string)
    requires |d| <= 9 && AllDecimal(d)
    ensures AllDecimal(Padded9(d))
  {
  }

  /** Digits padded with zeros to nine. */
  function Padded9(d: string): (p: string)
    requires |d| <= 9
    ensures |p| == 9
  {
    d + Zeros(9 - |d|)
  }

  lemma PaddedZero(d: string)
    requires |d| <= 9
    ensures AllZero(Padded9(d)) <==> AllZero(d)
  {
    assert forall i :: 0 <= i < |d| ==> Padded9(d)[i] == d[i];
  }

  lemma MorePadded(rest: string, k: nat)
    requires k < Run(rest) && k < 9
    ensures Padded9(rest[..k])[k := rest[k]] == Padded9(rest[..k + 1])
  {
  }

  // ---------------------------------------------------------------- the literal

  /** A number as printed by `%02d`. */
  function TwoDigits(n: nat): (s: string)
    ensures |s| >= 2
  {
    if n < 10 then "0" + [Digit(n, false)]
    else
      LongNumeral(n);
      Numeral(n, 10, false)
  }

  lemma LongNumeral(n: nat)
    ensures n >= 10 ==> |Numeral(n, 10, false)| >= 2
    ensures n >= 100 ==> |Numeral(n, 10, false)| >= 3
    ensures n < 100 ==> |Numeral(n, 10, false)| <= 2
  {
    if n >= 10 {
      assert Numeral(n, 10, false) == Numeral(n / 10, 10, false) + [Digit(n % 10, false)];
    }
  }

  function Clock(hours: nat, minutes: nat, seconds: nat): string {
    TwoDigits(hours) + ":" + TwoDigits(minutes) + ":" + TwoDigits(seconds)
  }

  /** The refusal with SQLSTATE 22008: a fraction, or more than a day. */
  predicate NotATimeOfDay(s: string) {
    HasFraction(s) || AsLong(s) / 10000 > 23
  }

  /** insert_param for a TIME value given as text; None is the refusal. */
  function Converted(s: string): Option<string> {
    if NotATimeOfDay(s) then None
    else
      var time := AsLong(s);
      Some(Clock(time / 10000, time / 100 % 100, time % 100))
  }

  method ConvertTime(s: string) returns (literal: Option<string>)
    ensures literal == Converted(s)
  {
    var fraction := GetFractionalPart(s);
    if fraction != 0 {
      return None;
    }
    var time := StrToTimeAsLong(s);
    var hours := time / 10000;
    if hours > 23 {
      return None;
    }
    literal := Some(Clock(hours, time / 100 % 100, time % 100));
  }

  // ---------------------------------------------------------------- which values survive

  /** A TIME value; the fraction is given by its digits, as many as the column has. */
  datatype TimeValue = TimeValue(negative: bool, hours: nat, minutes: nat, seconds: nat, fraction: string)

  ghost predicate IsTime(t: TimeValue) {
    && t.hours < TWO32 && t.minutes < 60 && t.seconds < 60
    && AllDecimal(t.fraction) && |t.fraction| <= 6
  }

  function Fraction(digits: string): string {
    if digits == "" then "" else "." + digits
  }

  /** How the server prints a TIME value. */
  function Print(t: TimeValue): string {
    Sign(t.negative) + Clock(t.hours, t.minutes, t.seconds) + Fraction(t.fraction)
  }

  /** What a literal without a fraction means in a column with `digits` of them. */
  function AtPrecision(clock: string, digits: nat): string {
    clock + Fraction(Zeros(digits))
  }

  lemma TwoDigitsIs(n: nat)
    ensures AllDecimal(TwoDigits(n)) && Value(TwoDigits(n), 10) == n
    ensures n < 100 ==> |TwoDigits(n)| == 2
    ensures n >= 100 ==> |TwoDigits(n)| > 2
  {
    LongNumeral(n);
    if n < 10 {
      var d := [Digit(n, false)];
      assert ("0" + d)[..1] == "0" && "0"[..0] == "";
      assert Value("0", 10) == 0;
    } else {
      NumeralHasValue(n, 10, false);
      NumeralIsNumeral(n, 10, false);
      DecimalNumeral(Numeral(n, 10, false));
    }
  }

  lemma DecimalNumeral(s: string)
    requires IsNumeral(s, 10, false)
    ensures AllDecimal(s)
  {
    forall i | 0 <= i < |s|
      ensures IsDecimal(s[i])
    {
      assert IsDigit(s[i], 10, false);
    }
  }

  /** A run of digits is the next number. */
  lemma NumberThen(d: string, rest: string, k: nat, numbers: seq<nat>, left: string)
    requires AllDecimal(d) && d != "" && (rest != "" ==> !IsDecimal(rest[0]))
    requires Numbers(Skip(rest), k) == (numbers, left)
    ensures Numbers(d + rest, k + 1) == ([Value(d, 10) % TWO32] + numbers, left)
  {
    RunOf(d, rest);
    FirstNumber(d + rest, k + 1);
  }

  /** The digits of a number of 32 bits. */
  ghost predicate Shows(d: string, n: nat) {
    d != "" && AllDecimal(d) && Value(d, 10) == n < TWO32
  }

  /** A number with a colon and more numbers behind it. */
  lemma NumberAndColon(d: string, n: nat, tail: string, k: nat, numbers: seq<nat>, left: string)
    requires Shows(d, n) && tail != "" && IsDecimal(tail[0]) && Numbers(tail, k) == (numbers, left)
    ensures Numbers(d + (":" + tail), k + 1) == ([n] + numbers, left)
  {
    SkipColon(tail);
    NumberThen(d, ":" + tail, k, numbers, left);
  }

  lemma SkipColon(tail: string)
    requires tail != "" && IsDecimal(tail[0])
    ensures Skip(":" + tail) == tail
  {
    SkipOne(':', tail);
  }

  lemma LastNumber(d: string, n: nat, digits: string, k: nat)
    requires Shows(d, n) && AllDecimal(digits) && k == 0
    ensures Numbers(d + Fraction(digits), k + 1) == ([n], digits)
  {
    if digits != "" {
      SkipOne('.', digits);
    }
    assert Skip(Fraction(digits)) == digits;
    NumberThen(d, Fraction(digits), k, [], digits);
    assert [n] + [] == [n];
  }

  lemma FirstOf(d: string, rest: string)
    requires d != "" && AllDecimal(d)
    ensures d + rest != "" && IsDecimal((d + rest)[0])
  {
  }

  /** Three numbers with colons between them, with a fraction's digits behind. */
  lemma ThreeNumbers(a: string, h: nat, b: string, m: nat, c: string, sec: nat, digits: string, k: nat)
    requires Shows(a, h) && Shows(b, m) && Shows(c, sec) && AllDecimal(digits) && k == 0
    ensures Numbers(a + (":" + (b + (":" + (c + Fraction(digits))))), k + 3) == ([h, m, sec], digits)
  {
    var last := c + Fraction(digits);
    var both := b + (":" + last);
    LastNumber(c, sec, digits, k);
    FirstOf(c, Fraction(digits));
    NumberAndColon(b, m, last, k + 1, [sec], digits);
    FirstOf(b, ":" + last);
    NumberAndColon(a, h, both, k + 2, [m] + [sec], digits);
    assert [h] + ([m] + [sec]) == [h, m, sec];
  }

  lemma ClockPieces(h: string, m: string, sec: string, f: string)
    ensures (h + ":" + m + ":" + sec) + f == h + (":" + (m + (":" + (sec + f))))
  {
  }

  lemma TwoDigitsShow(n: nat)
    requires n < TWO32
    ensures Shows(TwoDigits(n), n)
  {
    TwoDigitsIs(n);
  }

  /** A printed clock has its three numbers, with the fraction's digits behind them. */
  lemma ClockNumbers(h: nat, m: nat, sec: nat, digits: string)
    requires h < TWO32 && m < 60 && sec < 60 && AllDecimal(digits)
    ensures Numbers(Clock(h, m, sec) + Fraction(digits), 3) == ([h, m, sec], digits)
  {
    TwoDigitsShow(h);
    TwoDigitsShow(m);
    TwoDigitsShow(sec);
    ThreeNumbers(TwoDigits(h), h, TwoDigits(m), m, TwoDigits(sec), sec, digits, 0);
    ClockPieces(TwoDigits(h), TwoDigits(m), TwoDigits(sec), Fraction(digits));
  }

  function Sign(negative: bool): string {
    if negative then "-" else ""
  }

  /** The sign is skipped. */
  lemma SignSkipped(negative: bool, d: string, rest: string)
    requires d != "" && IsDecimal(d[0])
    ensures Skip(Sign(negative) + (d + rest)) == d + rest
  {
    if negative {
      SkipOne('-', d + rest);
    } else {
      assert "" + (d + rest) == d + rest;
    }
  }

  lemma PrintedFromDigits(t: TimeValue)
    requires IsTime(t)
    ensures Skip(Print(t)) == Clock(t.hours, t.minutes, t.seconds) + Fraction(t.fraction)
    ensures Skip(Print(t)) != ""
  {
    var c, f := Clock(t.hours, t.minutes, t.seconds), Fraction(t.fraction);
    ClockStarts(t.hours, t.minutes, t.seconds);
    SignSkipped(t.negative, c, f);
    SignFirst(Sign(t.negative), c, f);
  }

  lemma SignFirst(sign: string, c: string, f: string)
    ensures sign + c + f == sign + (c + f)
    ensures c != "" ==> c + f != ""
  {
  }

  lemma ClockStarts(h: nat, m: nat, sec: nat)
    ensures Clock(h, m, sec) != "" && IsDecimal(Clock(h, m, sec)[0])
  {
    TwoDigitsIs(h);
    assert Clock(h, m, sec)[0] == TwoDigits(h)[0];
  }

  /** What is read of a printed value: the fraction's digits, if there are any, take over. */
  lemma PrintedAsLong(t: TimeValue)
    requires IsTime(t)
    ensures AsLong(Print(t)) ==
            if t.fraction != "" then AsLong(t.fraction)
            else if t.hours > 10000 then t.hours
            else t.hours * 10000 + t.minutes * 100 + t.seconds
  {
    PrintedFromDigits(t);
    ClockNumbers(t.hours, t.minutes, t.seconds, t.fraction);
    NumbersDecide(Print(t), Clock(t.hours, t.minutes, t.seconds) + Fraction(t.fraction), t.hours, t.minutes, t.seconds,
                  t.fraction);
  }

  lemma NumbersDecide(s: string, text: string, h: nat, m: nat, sec: nat, rest: string)
    requires Skip(s) == text && text != "" && Numbers(text, 3) == ([h, m, sec], rest)
    ensures AsLong(s) == if rest != "" then AsLong(rest) else if h > 10000 then h else h * 10000 + m * 100 + sec
  {
  }

  lemma ZerosAsLong(d: string)
    requires d != "" && AllDecimal(d) && AllZero(d)
    ensures AsLong(d) == 0
  {
    assert d + "" == d;
    var k := 2;
    NumberThen(d, "", k, [], "");
    ZeroDigits(d);
    assert [0] + [] == [0];
  }

  lemma {:induction false} DotBehind(a: string, rest: string)
    requires '.' !in a && (rest != "" ==> rest[0] == '.')
    ensures FirstDot(a + rest) == |a|
    decreases |a|
  {
    if a == "" {
      assert a + rest == rest;
    } else {
      assert a[0] in a && forall c :: c in a[1..] ==> c in a;
      assert (a + rest)[1..] == a[1..] + rest;
      DotBehind(a[1..], rest);
    }
  }

  lemma NoDot(t: TimeValue)
    requires IsTime(t)
    ensures '.' !in Sign(t.negative) + Clock(t.hours, t.minutes, t.seconds)
  {
    TwoDigitsIs(t.hours);
    TwoDigitsIs(t.minutes);
    TwoDigitsIs(t.seconds);
  }

  lemma PrintedFraction(t: TimeValue)
    requires IsTime(t)
    ensures HasFraction(Print(t)) <==> !AllZero(t.fraction)
  {
    FractionByDigits(Print(t));
    NoDot(t);
    FractionIs(Sign(t.negative) + Clock(t.hours, t.minutes, t.seconds), t.fraction);
  }

  lemma FractionIs(a: string, digits: string)
    requires '.' !in a && AllDecimal(digits) && |digits| <= 9
    ensures FractionDigits(a + Fraction(digits)) == digits
  {
    DotBehind(a, Fraction(digits));
    if digits != "" {
      assert digits + "" == digits;
      RunOf(digits, "");
      assert (a + Fraction(digits))[|a| + 1..] == digits;
      assert digits[..|digits|] == digits;
    }
  }

  /** The values that survive: with a fraction in the column only midnight, else what lies within a day. */
  predicate Survives(t: TimeValue) {
    && !t.negative
    && AllZero(t.fraction)
    && if t.fraction == "" then t.hours <= 23 else t.hours == t.minutes == t.seconds == 0
  }

  lemma ClockLength(h: nat, m: nat, sec: nat)
    requires m < 60 && sec < 60
    ensures |Clock(h, m, sec)| == |TwoDigits(h)| + 6
  {
    TwoDigitsIs(m);
    TwoDigitsIs(sec);
  }

  lemma ClockIsOne(h: nat, m: nat, sec: nat, h': nat, m': nat, sec': nat)
    requires m < 60 && sec < 60 && m' < 60 && sec' < 60
    requires Clock(h, m, sec) == Clock(h', m', sec')
    ensures h == h' && m == m' && sec == sec'
  {
    TwoDigitsIs(m);
    TwoDigitsIs(m');
    TwoDigitsIs(sec);
    TwoDigitsIs(sec');
    var front, front' := TwoDigits(h) + ":" + TwoDigits(m) + ":", TwoDigits(h') + ":" + TwoDigits(m') + ":";
    SameEnd(front, TwoDigits(sec), front', TwoDigits(sec'));
    SameEnd(TwoDigits(h) + ":" + TwoDigits(m), ":", TwoDigits(h') + ":" + TwoDigits(m'), ":");
    SameEnd(TwoDigits(h) + ":", TwoDigits(m), TwoDigits(h') + ":", TwoDigits(m'));
    SameEnd(TwoDigits(h), ":", TwoDigits(h'), ":");
    TwoDigitsIs(h);
    TwoDigitsIs(h');
  }

  /** A printed value equals a clock at the column's precision exactly if it is that clock, without sign or fraction. */
  lemma PrintIsClock(t: TimeValue, h: nat, m: nat, sec: nat)
    requires IsTime(t) && h < 24 && m < 60 && sec < 60
    ensures Print(t) == AtPrecision(Clock(h, m, sec), |t.fraction|)
            <==> !t.negative && AllZero(t.fraction) && (t.hours, t.minutes, t.seconds) == (h, m, sec)
  {
    var f, z := Fraction(t.fraction), Fraction(Zeros(|t.fraction|));
    var own := Sign(t.negative) + Clock(t.hours, t.minutes, t.seconds);
    SameEnd(own, f, Clock(h, m, sec), z);
    if f == z {
      ZeroFraction(t.fraction);
    }
    if AllZero(t.fraction) {
      assert t.fraction == Zeros(|t.fraction|);
    }
    TwoDigitsIs(h);
    TwoDigitsIs(t.hours);
    ClockLength(h, m, sec);
    ClockLength(t.hours, t.minutes, t.seconds);
    if own == Clock(h, m, sec) && !t.negative {
      ClockIsOne(t.hours, t.minutes, t.seconds, h, m, sec);
    }
  }

  lemma ZeroFraction(d: string)
    requires Fraction(d) == Fraction(Zeros(|d|))
    ensures AllZero(d)
  {
    if d != "" {
      assert Fraction(d)[1..] == d && Fraction(Zeros(|d|))[1..] == Zeros(|d|);
    }
  }

  lemma SameEnd(a: string, f: string, b: string, z: string)
    requires |f| == |z|
    ensures a + f == b + z <==> a == b && f == z
  {
    if a + f == b + z {
      assert |a| == |b|;
      assert (a + f)[..|a|] == a && (b + z)[..|b|] == b;
      assert (a + f)[|a|..] == f && (b + z)[|b|..] == z;
    }
  }

  /**
   The literal made of a printed TIME value means that value exactly if the value is not negative and
   has no fraction, lies within a day where the column has no fraction digits, and is midnight where it
   has some.
   */
  lemma TimeExactly(t: TimeValue)
    requires IsTime(t)
    ensures var literal := Converted(Print(t));
            literal.Some? && AtPrecision(literal.value, |t.fraction|) == Print(t) <==> Survives(t)
  {
    PrintedFraction(t);
    if AllZero(t.fraction) {
      if t.fraction != "" {
        WithFraction(t);
      } else {
        WithoutFraction(t);
      }
    }
  }

  lemma WithFraction(t: TimeValue)
    requires IsTime(t) && t.fraction != "" && AllZero(t.fraction)
    ensures Converted(Print(t)) == Some(Clock(0, 0, 0))
    ensures AtPrecision(Clock(0, 0, 0), |t.fraction|) == Print(t) <==> Survives(t)
  {
    PrintedFraction(t);
    PrintedAsLong(t);
    ZerosAsLong(t.fraction);
    PrintIsClock(t, 0, 0, 0);
  }

  lemma WithoutFraction(t: TimeValue)
    requires IsTime(t) && t.fraction == ""
    ensures var literal := Converted(Print(t));
            literal.Some? && AtPrecision(literal.value, 0) == Print(t) <==> Survives(t)
  {
    var time := AsLong(Print(t));
    ConvertedFrom(t, time);
    if t.hours > 10000 {
      PrintedAsLong(t);
      ReadAsDigits(t);
    } else {
      ReadAsClock(t, AsLong(Print(t)));
      if t.hours <= 23 {
        PrintIsClock(t, t.hours, t.minutes, t.seconds);
      }
    }
  }

  lemma ReadAsClock(t: TimeValue, time: nat)
    requires IsTime(t) && t.fraction == "" && t.hours <= 10000 && time == AsLong(Print(t))
    ensures time / 10000 == t.hours && time / 100 % 100 == t.minutes && time % 100 == t.seconds
  {
    assert time == t.hours * 10000 + t.minutes * 100 + t.seconds by {
      PrintedAsLong(t);
    }
    DigitsBack(t.hours, t.minutes, t.seconds, time);
  }

  lemma ConvertedFrom(t: TimeValue, time: nat)
    requires IsTime(t) && AllZero(t.fraction) && time == AsLong(Print(t))
    ensures Converted(Print(t)) ==
            if time / 10000 > 23 then None else Some(Clock(time / 10000, time / 100 % 100, time % 100))
  {
    PrintedFraction(t);
  }

  lemma NoFraction(clock: string)
    ensures AtPrecision(clock, 0) == clock
  {
    assert Zeros(0) == "";
  }

  /** The sign of a value within a day is dropped. */
  lemma SignIsDropped(t: TimeValue)
    requires IsTime(t) && t.negative && t.hours <= 23 && t.fraction == ""
    ensures Converted(Print(t)) == Some(Print(t.(negative := false)))
    ensures AtPrecision(Print(t.(negative := false)), 0) == Print(t.(negative := false)) != Print(t)
  {
    var clock := Clock(t.hours, t.minutes, t.seconds);
    assert Converted(Print(t)) == Some(clock) by {
      ConvertedFrom(t, AsLong(Print(t)));
      ReadAsClock(t, AsLong(Print(t)));
    }
    SignAlone(clock);
    NoFraction(clock);
  }

  lemma SignAlone(clock: string)
    ensures Sign(false) + clock + Fraction("") == clock
    ensures Sign(true) + clock + Fraction("") != clock
  {
    assert |Sign(true) + clock + Fraction("")| == |clock| + 1;
  }

  lemma DigitsBack(h: nat, m: nat, sec: nat, time: nat)
    requires m < 60 && sec < 60 && time == h * 10000 + m * 100 + sec
    ensures time / 10000 == h && time / 100 % 100 == m && time % 100 == sec
  {
    QuotientAndRemainder(h, m * 100 + sec, 10000);
    QuotientAndRemainder(h * 100 + m, sec, 100);
    QuotientAndRemainder(h, m, 100);
  }

  /** More than 10000 hours are taken for the digits of a time of day. */
  lemma ReadAsDigits(t: TimeValue)
    requires IsTime(t) && t.fraction == "" && t.hours > 10000
    ensures var time := t.hours;
            time / 10000 <= 23 ==> AtPrecision(Clock(time / 10000, time / 100 % 100, time % 100), 0) != Print(t)
  {
    var time := t.hours;
    var c := Clock(time / 10000, time / 100 % 100, time % 100);
    TwoDigitsIs(time / 10000);
    TwoDigitsIs(time / 100 % 100);
    TwoDigitsIs(time % 100);
    TwoDigitsIs(t.hours);
    ClockLength(t.hours, t.minutes, t.seconds);
    if time / 10000 <= 23 {
      assert |c| == 8 && |AtPrecision(c, 0)| == 8;
    }
  }
}

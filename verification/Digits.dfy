/** Digits, powers and the bounds of the driver's integer types. */
module Digits {

  const TWO16 := 0x1_0000
  const TWO32 := 0x1_0000_0000
  const TWO63 := 0x8000_0000_0000_0000
  const TWO64 := 0x1_0000_0000_0000_0000

  function Power(b: nat, n: nat): (p: nat)
    ensures b > 0 ==> p > 0
  {
    if n == 0 then 1 else b * Power(b, n - 1)
  }

  function Digit(d: nat, upcase: bool): char
    requires d < 36
  {
    if d < 10 then '0' + d as char else (if upcase then 'A' else 'a') + (d - 10) as char
  }

  /** What a digit of either case stands for. */
  function DigitValue(c: char): nat {
    if '0' <= c <= '9' then (c - '0') as int
    else if 'A' <= c <= 'Z' then (c - 'A') as int + 10
    else if 'a' <= c <= 'z' then (c - 'a') as int + 10
    else 0
  }
}

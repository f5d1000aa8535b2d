/** Runs of decimal digits in a text, and the steps of the loops that look for them. */
module DecimalRuns {

  predicate IsDecimal(c: char) {
    '0' <= c <= '9'
  }

  predicate AllDecimal(s: string) {
    forall i :: 0 <= i < |s| ==> IsDecimal(s[i])
  }

  /** The length of the run of digits at the start. */
  function Run(s: string): (n: nat)
    ensures n <= |s| && AllDecimal(s[..n])
    ensures n < |s| ==> !IsDecimal(s[n])
  {
    if s == "" || !IsDecimal(s[0]) then 0
    else
      var n := Run(s[1..]);
      assert s[..n + 1] == [s[0]] + s[1..][..n];
      n + 1
  }

  /** The text from its first digit on. */
  function Skip(s: string): (t: string)
    ensures |t| <= |s|
    ensures t != "" ==> IsDecimal(t[0])
  {
    if s == "" || IsDecimal(s[0]) then s else Skip(s[1..])
  }

  lemma {:induction false} RunOf(d: string, rest: string)
    requires AllDecimal(d) && (rest != "" ==> !IsDecimal(rest[0]))
    ensures Run(d + rest) == |d|
    ensures (d + rest)[..|d|] == d && (d + rest)[|d|..] == rest
    decreases |d|
  {
    if d == "" {
      assert d + rest == rest;
    } else {
      assert (d + rest)[1..] == d[1..] + rest;
      RunOf(d[1..], rest);
    }
  }

  lemma SkipOne(c: char, rest: string)
    requires !IsDecimal(c)
    ensures Skip([c] + rest) == Skip(rest)
  {
    assert ([c] + rest)[1..] == rest;
  }

  /** Steps to the next digit. */
  method SkipTo(s: string, pos: nat) returns (next: nat)
    requires pos <= |s|
    ensures pos <= next <= |s| && s[next..] == Skip(s[pos..])
  {
    next := pos;
    while next < |s| && !IsDecimal(s[next])
      invariant pos <= next <= |s|
      invariant Skip(s[next..]) == Skip(s[pos..])
    {
      assert s[next..][1..] == s[next + 1..];
      next := next + 1;
    }
  }
}

/**
 The numbers the driver reads behind the word LIMIT, and for which spellings of the clause they are
 the ones the server reads.
 */
module LimitNumbers {
  import opened OdbcCodes
  import opened Digits
  import opened DecimalRuns
  import opened Conversions
  import opened FnEscapes

  /** Offset, row count, and where the clause ends, counted from behind the word LIMIT. */
  datatype Found = Found(offset: nat, count: nat, end: nat)

  /** How many blanks the text starts with. */
  function Blanks(s: string): (n: nat)
    ensures n <= |s|
    ensures n < |s| ==> !IsSpace(s[n])
  {
    if s == "" || !IsSpace(s[0]) then 0 else 1 + Blanks(s[1..])
  }

  /** What get_limit_numbers finds; a row count is cut to 32 bits. */
  function FoundIn(s: string): Found {
    var t := s[Blanks(s)..];
    var n := Run(t);
    if n == 0 then Found(0, 0, Blanks(s))
    else
      var m := Skip(t[n..]);
      if m == "" then Found(0, Value(t[..n], 10) % TWO32, |s|)
      else Found(Value(t[..n], 10), Value(m[..Run(m)], 10) % TWO32, |s| - |m| + Run(m))
  }

  // ---------------------------------------------------------------- get_limit_numbers

  /** The buffer for digits has thirty places, one of them for the terminator. */
  const BUFFER_SIZE := 30

  /** Both numbers fit the buffer. */
  predicate NumbersFit(s: string) {
    var t := s[Blanks(s)..];
    Run(t) <= 29 && Run(Skip(t[Run(t)..])) <= 29
  }

  method SkipBlanks(s: string) returns (pos: nat)
    ensures pos == Blanks(s)
  {
    pos := 0;
    assert s[0..] == s;
    while pos < |s| && IsSpace(s[pos])
      invariant 0 <= pos <= |s|
      invariant pos + Blanks(s[pos..]) == Blanks(s)
    {
      assert s[pos..][1..] == s[pos + 1..];
      pos := pos + 1;
    }
  }

  /** Copies the digits at `pos` into the buffer and reads them as a number. */
  method CollectNumber(s: string, pos: nat, buf: array<char>) returns (number: nat, end: nat)
    requires pos <= |s| && Run(s[pos..]) < buf.Length
    modifies buf
    ensures end == pos + Run(s[pos..]) <= |s|
    ensures number == Value(s[pos..end], 10)
  {
    end := pos;
    ghost var run := Run(s[pos..]);
    while end < |s| && IsDecimal(s[end])
      invariant pos <= end <= |s| && end - pos < buf.Length
      invariant end + Run(s[end..]) == pos + run
      invariant buf[..end - pos] == s[pos..end]
    {
      assert s[end..][1..] == s[end + 1..];
      buf[end - pos] := s[end];
      end := end + 1;
    }
    number := Value(buf[..end - pos], 10);
  }

  method GetLimitNumbers(s: string) returns (found: Found)
    requires NumbersFit(s)
    ensures found == FoundIn(s)
  {
    var digitBuf := new char[BUFFER_SIZE];
    var start := SkipBlanks(s);
    ghost var t := s[start..];
    var first, behind := CollectNumber(s, start, digitBuf);
    if behind == start {
      return Found(0, 0, start);
    }
    SliceOfRest(s, start, behind);
    var next := SkipTo(s, behind);
    if next == |s| {
      return Found(0, first % TWO32, next);
    }
    var second, end := CollectNumber(s, next, digitBuf);
    SliceOfRest(s, next, end);
    found := Found(first, second % TWO32, end);
  }

  lemma SliceOfRest(s: string, a: nat, b: nat)
    requires a <= b <= |s|
    ensures s[a..][..b - a] == s[a..b] && s[a..][b - a..] == s[b..]
  {
  }

  // ---------------------------------------------------------------- spellings

  /** LIMIT count, LIMIT offset, count, and LIMIT count OFFSET offset; the numbers as they are written. */
  datatype Spelling =
    | Count(count: string)
    | OffsetCount(offset: string, sep: string, count: string)
    | CountOffset(count: string, sep: string, offset: string)

  predicate IsNumber(d: string) {
    d != "" && AllDecimal(d)
  }

  /** Something between two numbers. */
  predicate IsGap(sep: string) {
    sep != "" && forall i :: 0 <= i < |sep| ==> !IsDecimal(sep[i])
  }

  predicate WellSpelled(sp: Spelling) {
    match sp
    case Count(n) => IsNumber(n)
    case OffsetCount(o, sep, n) => IsNumber(o) && IsGap(sep) && IsNumber(n)
    case CountOffset(n, sep, o) => IsNumber(n) && IsGap(sep) && IsNumber(o)
  }

  function Text(sp: Spelling): string {
    match sp
    case Count(n) => n
    case OffsetCount(o, sep, n) => o + sep + n
    case CountOffset(n, sep, o) => n + sep + o
  }

  /** What the server reads of it behind some blanks: the clause ends behind its last number. */
  function Meant(blanks: string, sp: Spelling): Found {
    var end := |blanks + Text(sp)|;
    match sp
    case Count(n) => Found(0, Value(n, 10), end)
    case OffsetCount(o, _, n) => Found(Value(o, 10), Value(n, 10), end)
    case CountOffset(n, _, o) => Found(Value(o, 10), Value(n, 10), end)
  }

  predicate AllBlank(s: string) {
    forall i :: 0 <= i < |s| ==> IsSpace(s[i])
  }

  lemma {:induction false} BlanksOf(blanks: string, rest: string)
    requires AllBlank(blanks) && rest != "" && !IsSpace(rest[0])
    ensures Blanks(blanks + rest) == |blanks| && (blanks + rest)[|blanks|..] == rest
    decreases |blanks|
  {
    if blanks == "" {
      assert blanks + rest == rest;
    } else {
      assert (blanks + rest)[1..] == blanks[1..] + rest;
      BlanksOf(blanks[1..], rest);
    }
  }

  lemma {:induction false} SkipGap(gap: string, rest: string)
    requires forall i :: 0 <= i < |gap| ==> !IsDecimal(gap[i])
    requires rest != "" ==> IsDecimal(rest[0])
    ensures Skip(gap + rest) == rest
    decreases |gap|
  {
    if gap == "" {
      assert gap + rest == rest;
    } else {
      assert (gap + rest)[1..] == gap[1..] + rest;
      SkipGap(gap[1..], rest);
    }
  }

  /** What stands before the first digit. */
  lemma {:induction false} GapOf(s: string) returns (gap: string)
    ensures s == gap + Skip(s)
    ensures forall i :: 0 <= i < |gap| ==> !IsDecimal(gap[i])
  {
    if s == "" || IsDecimal(s[0]) {
      gap := "";
    } else {
      gap := GapOf(s[1..]);
      gap := [s[0]] + gap;
      assert s == [s[0]] + s[1..];
    }
  }

  lemma NoBlank(d: string, rest: string)
    requires IsNumber(d)
    ensures d + rest != "" && !IsSpace((d + rest)[0])
  {
  }

  /** One number and no digit behind it: it is the row count, and the rest of the text is swallowed. */
  lemma FoundOne(blanks: string, d: string, tail: string)
    requires AllBlank(blanks) && IsNumber(d)
    requires forall i :: 0 <= i < |tail| ==> !IsDecimal(tail[i])
    ensures FoundIn(blanks + (d + tail)) == Found(0, Value(d, 10) % TWO32, |blanks + (d + tail)|)
  {
    NoBlank(d, tail);
    BlanksOf(blanks, d + tail);
    RunOf(d, tail);
    SkipGap(tail, "");
    assert tail + "" == tail;
  }

  /** Two numbers: the first is the offset, whatever stands between them. */
  lemma FoundTwo(blanks: string, d: string, gap: string, e: string, tail: string)
    requires AllBlank(blanks) && IsNumber(d) && IsGap(gap) && IsNumber(e)
    requires tail != "" ==> !IsDecimal(tail[0])
    ensures FoundIn(blanks + (d + (gap + (e + tail))))
         == Found(Value(d, 10), Value(e, 10) % TWO32, |blanks| + |d| + |gap| + |e|)
  {
    var rest := gap + (e + tail);
    NoBlank(d, rest);
    BlanksOf(blanks, d + rest);
    assert rest[0] == gap[0];
    RunOf(d, rest);
    SkipGap(gap, e + tail);
    RunOf(e, tail);
  }

  /**
   The clause found is the one the server reads exactly in these cases. LIMIT count: nothing follows it.
   LIMIT offset, count: always. LIMIT count OFFSET offset: both numbers are the same. The row count has
   to fit 32 bits.
   */
  lemma FoundExactly(blanks: string, sp: Spelling, tail: string)
    requires AllBlank(blanks) && WellSpelled(sp) && (tail != "" ==> !IsDecimal(tail[0]))
    ensures FoundIn(blanks + (Text(sp) + tail)) == Meant(blanks, sp) <==>
            match sp
            case Count(n) => tail == "" && Value(n, 10) < TWO32
            case OffsetCount(_, _, n) => Value(n, 10) < TWO32
            case CountOffset(n, _, o) => Value(n, 10) == Value(o, 10) < TWO32
  {
    match sp
    case Count(n) => CountFound(blanks, n, tail);
    case OffsetCount(o, sep, n) => TwoFound(blanks, o, sep, n, tail);
    case CountOffset(n, sep, o) => TwoFound(blanks, n, sep, o, tail);
  }

  lemma TwoFound(blanks: string, d: string, gap: string, e: string, tail: string)
    requires AllBlank(blanks) && IsNumber(d) && IsGap(gap) && IsNumber(e)
    requires tail != "" ==> !IsDecimal(tail[0])
    ensures FoundIn(blanks + ((d + gap + e) + tail))
         == Found(Value(d, 10), Value(e, 10) % TWO32, |blanks + (d + gap + e)|)
    ensures Value(e, 10) % TWO32 == Value(e, 10) <==> Value(e, 10) < TWO32
  {
    PiecesRegroup(d, gap, e, tail);
    CutTo32(Value(e, 10));
    FoundTwo(blanks, d, gap, e, tail);
  }

  lemma CutTo32(v: nat)
    ensures v % TWO32 == v <==> v < TWO32
  {
  }

  lemma PiecesRegroup(d: string, gap: string, e: string, tail: string)
    ensures (d + gap + e) + tail == d + (gap + (e + tail))
  {
  }

  lemma CountFound(blanks: string, n: string, tail: string)
    requires AllBlank(blanks) && IsNumber(n) && (tail != "" ==> !IsDecimal(tail[0]))
    ensures FoundIn(blanks + (n + tail)) == Found(0, Value(n, 10), |blanks + n|) <==> tail == "" && Value(n, 10) < TWO32
  {
    var before := GapOf(tail);
    CutTo32(Value(n, 10));
    if Skip(tail) == "" {
      FoundOne(blanks, n, tail);
    } else {
      var gap, e, rest := NumberInTail(tail);
      FoundTwo(blanks, n, gap, e, rest);
    }
  }

  /** A digit in the tail: a gap, a number, and what follows. */
  lemma NumberInTail(tail: string) returns (gap: string, e: string, rest: string)
    requires Skip(tail) != "" && tail != "" && !IsDecimal(tail[0])
    ensures tail == gap + (e + rest) && IsGap(gap) && IsNumber(e) && (rest != "" ==> !IsDecimal(rest[0]))
  {
    gap := GapOf(tail);
    var m := Skip(tail);
    e, rest := m[..Run(m)], m[Run(m)..];
    assert m == e + rest;
    assert gap != "" by {
      assert gap == "" ==> tail == m;
    }
  }

  lemma NumbersOfExamples()
    ensures Value("10", 10) == 10 && Value("5", 10) == 5
  {
    assert "10"[..1] == "1" && "1"[..0] == "" && "5"[..0] == "";
    assert Value("1", 10) == 1;
  }

  /** LIMIT 10 OFFSET 5 is read as offset 10 and row count 5. */
  lemma OffsetIsSwapped()
    ensures FoundIn(" 10 OFFSET 5") == Found(10, 5, 12)
    ensures Meant(" ", CountOffset("10", " OFFSET ", "5")) == Found(5, 10, 12)
  {
    NumbersOfExamples();
    assert " 10 OFFSET 5" == " " + ("10" + (" OFFSET " + ("5" + "")));
    FoundTwo(" ", "10", " OFFSET ", "5", "");
  }

  /** LIMIT 10 FOR UPDATE: the numbers are right, but the locking clause is taken for a part of it. */
  lemma SuffixIsSwallowed()
    ensures FoundIn(" 10 FOR UPDATE") == Found(0, 10, 14)
    ensures Meant(" ", Count("10")) == Found(0, 10, 3)
  {
    NumbersOfExamples();
    assert " 10 FOR UPDATE" == " " + ("10" + " FOR UPDATE");
    FoundOne(" ", "10", " FOR UPDATE");
  }
}

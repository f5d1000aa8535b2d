/**
 What the server reads in the WHERE clause of a positioned statement, written down from MySQL's rules
 for quoted names, string literals and numbers, and the rows that meet it.
 */
module ClauseReading {
  import opened OdbcCodes
  import opened DecimalRuns
  import Conversions
  import opened TimeText
  import opened PositionedRows
  import opened ClauseText

  // ---------------------------------------------------------------- the reader

  /** The text x stands at i. */
  predicate Holds(s: string, i: nat, x: string) {
    i + |x| <= |s| && forall k: nat :: k < |x| ==> SameAt(s, i, x, k)
  }

  predicate SameAt(s: string, i: nat, x: string, k: nat)
    requires i + |x| <= |s| && k < |x|
  {
    s[i + k] == x[k]
  }

  /** What a backslash and this character stand for in a string; a wildcard keeps its backslash. */
  function Unescaped(c: char): string {
    if c == '0' then "\0"
    else if c == 'b' then [8 as char]
    else if c == 't' then "\t"
    else if c == 'n' then "\n"
    else if c == 'r' then "\r"
    else if c == 'Z' then [26 as char]
    else if c == '%' || c == '_' then ['\\', c]
    else [c]
  }

  /** What is read up to a closing quote, and the position behind it; only strings have escapes. */
  datatype Reading = Nothing | Read(text: string, end: nat) {
    function Behind(front: string): Reading {
      if this == Nothing then Nothing else Read(front + text, end)
    }
  }

  /** The inside of a string or a quoted name from i on. */
  function ReadQuoted(s: string, i: nat, quote: char): Reading
    decreases |s| - i
  {
    if i >= |s| then Nothing
    else if s[i] == '\\' && quote != '`' then
      if i + 1 < |s| then ReadQuoted(s, i + 2, quote).Behind(Unescaped(s[i + 1])) else Nothing
    else if s[i] != quote then ReadQuoted(s, i + 1, quote).Behind([s[i]])
    else if i + 1 < |s| && s[i + 1] == quote then ReadQuoted(s, i + 2, quote).Behind([quote])
    else Read("", i + 1)
  }

  predicate InNumber(c: char) {
    IsDecimal(c) || c in "+-.eE"
  }

  function NumberEnd(s: string, i: nat): (n: nat)
    ensures n >= i
    decreases |s| - i
  {
    if i < |s| && InNumber(s[i]) then NumberEnd(s, i + 1) else i
  }

  /** A string, a string with the binary introducer, or a number. */
  function ReadLiteral(s: string, i: nat): Reading {
    if Holds(s, i, "'") then ReadQuoted(s, i + 1, '\'')
    else if Holds(s, i, "_binary'") then ReadQuoted(s, i + 8, '\'')
    else
      var n := NumberEnd(s, i);
      if i < n <= |s| then Read(s[i..n], n) else Nothing
  }

  /** A condition on a column: a value, or None for IS NULL. */
  datatype Condition = Condition(column: string, value: Option<string>)

  function ReadCondition(s: string, i: nat): Option<(Condition, nat)> {
    if !Holds(s, i, "`") then None
    else
      match ReadQuoted(s, i + 1, '`')
      case Nothing => None
      case Read(name, j) =>
        if Holds(s, j, " IS NULL") then Some((Condition(name, None), j + 8))
        else if !Holds(s, j, "=") then None
        else
          match ReadLiteral(s, j + 1)
          case Nothing => None
          case Read(text, k) => Some((Condition(name, Some(text)), k))
  }

  /** Conditions with AND between them. */
  function ReadConditions(s: string, i: nat): Option<(seq<Condition>, nat)>
    decreases |s| - i
  {
    match ReadCondition(s, i)
    case None => None
    case Some((c, j)) =>
      if !Holds(s, j, " AND ") then Some(([c], j))
      else if j + 5 <= i then None
      else
        match ReadConditions(s, j + 5)
        case None => None
        case Some((cs, k)) => Some(([c] + cs, k))
  }

  /** The conditions and the limit of a clause that ends the text. */
  function ReadWhere(s: string, i: nat): Option<(seq<Condition>, nat)> {
    if !Holds(s, i, " WHERE ") then None
    else
      match ReadConditions(s, i + 7)
      case None => None
      case Some((cs, j)) =>
        if !Holds(s, j, " LIMIT ") || j + 7 >= |s| || !AllDecimal(s[j + 7..]) then None
        else Some((cs, Conversions.Value(s[j + 7..], 10)))
  }

  /** The row meets a condition; a time is compared at the precision of its column. */
  predicate RowMeets(ty: Typing, row: Row, c: Condition) {
    && c.column in row
    && match c.value
       case None => row[c.column] == None
       case Some(text) =>
         row[c.column] == Some(if ty.kind(c.column).Time? then AtPrecision(text, ty.kind(c.column).digits) else text)
  }

  /** The row is one the clause at i selects; a clause that cannot be read selects none. */
  predicate Selects(ty: Typing, s: string, i: nat, row: Row) {
    match ReadWhere(s, i)
    case None => false
    case Some((cs, _)) => forall k :: 0 <= k < |cs| ==> RowMeets(ty, row, cs[k])
  }

  // ---------------------------------------------------------------- quoted texts

  lemma HoldsParts(s: string, i: nat, x: string, y: string)
    ensures Holds(s, i, x + y) <==> Holds(s, i, x) && Holds(s, i + |x|, y)
  {
    if Holds(s, i, x) && Holds(s, i + |x|, y) {
      forall k: nat | k < |x + y|
        ensures SameAt(s, i, x + y, k)
      {
        if k < |x| {
          assert SameAt(s, i, x, k);
        } else {
          assert SameAt(s, i + |x|, y, k - |x|);
        }
      }
    }
    if Holds(s, i, x + y) {
      PrefixHolds(s, i, x, y);
      SuffixHolds(s, i, x, y, i + |x|);
    }
  }

  lemma SuffixHolds(s: string, i: nat, x: string, y: string, j: nat)
    requires Holds(s, i, x + y) && j == i + |x|
    ensures Holds(s, j, y)
  {
    forall k: nat | k < |y|
      ensures SameAt(s, j, y, k)
    {
      assert SameAt(s, i, x + y, |x| + k);
    }
  }

  lemma PrefixHolds(s: string, i: nat, x: string, y: string)
    requires Holds(s, i, x + y)
    ensures Holds(s, i, x)
  {
    forall k: nat | k < |x|
      ensures SameAt(s, i, x, k)
    {
      assert SameAt(s, i, x + y, k);
    }
  }

  lemma HoldsFirst(s: string, i: nat, x: string)
    requires x != ""
    ensures Holds(s, i, x) ==> i < |s| && s[i] == x[0]
  {
    if Holds(s, i, x) {
      assert SameAt(s, i, x, 0);
    }
  }

  lemma QuoteEnds(s: string, j: nat, quote: char)
    requires Holds(s, j, [quote]) && !Holds(s, j + 1, [quote])
    ensures j < |s| && s[j] == quote && (j + 1 < |s| ==> s[j + 1] != quote)
  {
    HoldsFirst(s, j, [quote]);
    if j + 1 < |s| && s[j + 1] == quote {
      assert false;
    }
  }

  /** A text without the quote, or a backslash in a string, is read as it stands. */
  lemma {:induction false} PlainRead(s: string, i: nat, x: string, quote: char)
    requires Holds(s, i, x) && Holds(s, i + |x|, [quote]) && !Holds(s, i + |x| + 1, [quote])
    requires quote != '\\' && quote !in x && (quote == '`' || '\\' !in x)
    ensures ReadQuoted(s, i, quote) == Read(x, i + |x| + 1)
    decreases |x|
  {
    QuoteEnds(s, i + |x|, quote);
    if x != "" {
      assert x == [x[0]] + x[1..];
      HoldsParts(s, i, [x[0]], x[1..]);
      HoldsFirst(s, i, [x[0]]);
      assert x[0] in x;
      PlainRead(s, i + 1, x[1..], quote);
    }
  }

  /** One escaped byte is read as the byte. */
  lemma ByteRead(s: string, i: nat, c: char, stray: bool)
    requires Holds(s, i, EscapedByte(c, stray)) && i + |EscapedByte(c, stray)| < |s| && (stray ==> c as int >= 128)
    ensures ReadQuoted(s, i, '\'') == ReadQuoted(s, i + |EscapedByte(c, stray)|, '\'').Behind([c])
  {
    var e := EscapedByte(c, stray);
    assert SameAt(s, i, e, 0);
    if |e| == 2 {
      assert SameAt(s, i, e, 1);
      PairRead(s, i);
      assert e == "''" || Unescaped(e[1]) == [c];
    }
  }

  /** A backslash with a character behind it, and two quotes. */
  lemma PairRead(s: string, i: nat)
    requires i + 1 < |s|
    ensures s[i] == '\\' ==> ReadQuoted(s, i, '\'') == ReadQuoted(s, i + 2, '\'').Behind(Unescaped(s[i + 1]))
    ensures s[i] == s[i + 1] == '\'' ==> ReadQuoted(s, i, '\'') == ReadQuoted(s, i + 2, '\'').Behind("'")
  {
  }

  /** The escaped bytes from the k-th on stand one behind the other from i to the end. */
  ghost predicate BytesStand(s: string, i: nat, data: string, k: nat, end: nat, cs: Charset)
    decreases |data| - k
  {
    if k >= |data| then i == end
    else
      var e := EscapedByte(data[k], cs.Stray(data, k));
      Holds(s, i, e) && BytesStand(s, i + |e|, data, k + 1, end, cs)
  }

  lemma {:induction false} EscapedStands(s: string, i: nat, data: string, k: nat, cs: Charset)
    requires Holds(s, i, Escaped(data, k, cs))
    ensures BytesStand(s, i, data, k, i + |Escaped(data, k, cs)|, cs)
    decreases |data| - k
  {
    if k < |data| {
      var e := EscapedByte(data[k], cs.Stray(data, k));
      HoldsParts(s, i, e, Escaped(data, k + 1, cs));
      EscapedStands(s, i + |e|, data, k + 1, cs);
    }
  }

  lemma {:induction false} BytesEnd(s: string, i: nat, data: string, k: nat, end: nat, cs: Charset)
    requires BytesStand(s, i, data, k, end, cs)
    ensures i <= end
    decreases |data| - k
  {
    if k < |data| {
      BytesEnd(s, i + |EscapedByte(data[k], cs.Stray(data, k))|, data, k + 1, end, cs);
    }
  }

  /** An escaped value is read as the value. */
  lemma {:induction false} EscapedRead(s: string, i: nat, data: string, k: nat, end: nat, cs: Charset)
    requires k <= |data| && BytesStand(s, i, data, k, end, cs) && Holds(s, end, "'") && !Holds(s, end + 1, "'")
    ensures ReadQuoted(s, i, '\'') == Read(data[k..], end + 1)
    decreases |data| - k
  {
    if k < |data| {
      var j := i + |EscapedByte(data[k], cs.Stray(data, k))|;
      EscapedRead(s, j, data, k + 1, end, cs);
      BytesEnd(s, j, data, k + 1, end, cs);
      ByteInFront(s, i, data, k, j, end, cs);
    } else {
      StringEnds(s, i);
    }
  }

  lemma ByteInFront(s: string, i: nat, data: string, k: nat, j: nat, end: nat, cs: Charset)
    requires k < |data| && Holds(s, i, EscapedByte(data[k], cs.Stray(data, k)))
    requires j == i + |EscapedByte(data[k], cs.Stray(data, k))| < |s|
    requires ReadQuoted(s, j, '\'') == Read(data[k + 1..], end + 1)
    ensures ReadQuoted(s, i, '\'') == Read(data[k..], end + 1)
  {
    ByteRead(s, i, data[k], cs.Stray(data, k));
    OneInFront(data, k);
  }

  lemma StringEnds(s: string, i: nat)
    requires Holds(s, i, "'") && !Holds(s, i + 1, "'")
    ensures ReadQuoted(s, i, '\'') == Read("", i + 1)
  {
    QuoteEnds(s, i, '\'');
  }

  lemma OneInFront(data: string, k: nat)
    requires k < |data|
    ensures data[k..] == [data[k]] + data[k + 1..]
  {
  }

  lemma {:induction false} NumberRead(s: string, i: nat, x: string)
    requires Holds(s, i, x) && Holds(s, i + |x|, " ") && forall k :: 0 <= k < |x| ==> InNumber(x[k])
    ensures NumberEnd(s, i) == i + |x|
    decreases |x|
  {
    if x == "" {
      HoldsFirst(s, i, " ");
    } else {
      assert x == [x[0]] + x[1..];
      HoldsParts(s, i, [x[0]], x[1..]);
      HoldsFirst(s, i, [x[0]]);
      NumberRead(s, i + 1, x[1..]);
    }
  }

  /** The characters of a part. */
  lemma PartIs(s: string, i: nat, x: string)
    requires Holds(s, i, x)
    ensures s[i..i + |x|] == x
  {
    forall k: nat | k < |x|
      ensures s[i..i + |x|][k] == x[k]
    {
      assert SameAt(s, i, x, k);
    }
  }

  // ---------------------------------------------------------------- literals

  /** A text in single quotes, behind which a blank follows. */
  lemma QuotedTextHolds(s: string, i: nat, x: string)
    requires Holds(s, i, "'" + x + "'") && Holds(s, i + |x| + 2, " ")
    ensures Holds(s, i, "'") && Holds(s, i + 1, x) && Holds(s, i + 1 + |x|, "'") && !Holds(s, i + 2 + |x|, "'")
  {
    HoldsParts(s, i, "'" + x, "'");
    HoldsParts(s, i, "'", x);
    HoldsFirst(s, i + |x| + 2, " ");
    HoldsFirst(s, i + 2 + |x|, "'");
  }

  /** What a literal is read as. */
  function LiteralText(kind: Kind, data: string, clock: Option<string>): string {
    if kind.Time? && clock.Some? then clock.value else data
  }

  /** A number as the server prints it. */
  predicate IsNumber(data: string) {
    data != "" && forall k :: 0 <= k < |data| ==> InNumber(data[k])
  }

  lemma {:induction false} NumberStays(data: string)
    requires forall k :: 0 <= k < |data| ==> InNumber(data[k])
    ensures WithoutCommas(data) == data
  {
    if data != "" {
      assert forall k :: 0 <= k < |data[1..]| ==> data[1..][k] == data[k + 1];
      NumberStays(data[1..]);
    }
  }

  lemma ClockIsPlain(data: string)
    ensures IsClock(Converted(data))
  {
    var time := AsLong(data);
    DigitsArePlain(time / 10000);
    DigitsArePlain(time / 100 % 100);
    DigitsArePlain(time % 100);
  }

  lemma DigitsArePlain(n: nat)
    ensures '\'' !in TwoDigits(n) && '\\' !in TwoDigits(n)
  {
    TwoDigitsIs(n);
  }

  lemma StringLiteralRead(s: string, i: nat, data: string, cs: Charset)
    requires Holds(s, i, "'" + Escaped(data, 0, cs) + "'") && Holds(s, i + |Escaped(data, 0, cs)| + 2, " ")
    ensures ReadLiteral(s, i) == Read(data, i + |Escaped(data, 0, cs)| + 2)
  {
    QuotedTextHolds(s, i, Escaped(data, 0, cs));
    EscapedStands(s, i + 1, data, 0, cs);
    EscapedRead(s, i + 1, data, 0, i + 1 + |Escaped(data, 0, cs)|, cs);
    assert data[0..] == data;
  }

  lemma BinaryLiteralRead(s: string, i: nat, data: string, cs: Charset)
    requires Holds(s, i, "_binary'" + Escaped(data, 0, cs) + "'")
    requires Holds(s, i + |Escaped(data, 0, cs)| + 9, " ")
    ensures ReadLiteral(s, i) == Read(data, i + |Escaped(data, 0, cs)| + 9)
  {
    var x := Escaped(data, 0, cs);
    HoldsParts(s, i, "_binary'" + x, "'");
    HoldsParts(s, i, "_binary'", x);
    HoldsFirst(s, i, "_binary'");
    HoldsFirst(s, i, "'");
    HoldsFirst(s, i + |x| + 9, " ");
    HoldsFirst(s, i + |x| + 9, "'");
    EscapedStands(s, i + 8, data, 0, cs);
    EscapedRead(s, i + 8, data, 0, i + 8 + |x|, cs);
    assert data[0..] == data;
  }

  lemma ClockLiteralRead(s: string, i: nat, clock: string)
    requires Holds(s, i, "'" + clock + "'") && Holds(s, i + |clock| + 2, " ")
    requires '\'' !in clock && '\\' !in clock
    ensures ReadLiteral(s, i) == Read(clock, i + |clock| + 2)
  {
    QuotedTextHolds(s, i, clock);
    PlainRead(s, i + 1, clock, '\'');
  }

  lemma NumberLiteralRead(s: string, i: nat, x: string)
    requires IsNumber(x) && Holds(s, i, x) && Holds(s, i + |x|, " ")
    ensures ReadLiteral(s, i) == Read(x, i + |x|)
  {
    HoldsFirst(s, i, x);
    HoldsFirst(s, i, "'");
    HoldsFirst(s, i, "_binary'");
    NumberRead(s, i, x);
    PartIs(s, i, x);
  }

  /** Where nothing stands for the literal nothing is read. */
  lemma MissingLiteral(s: string, i: nat)
    requires Holds(s, i, " ")
    ensures ReadLiteral(s, i) == Nothing
  {
    HoldsFirst(s, i, " ");
    HoldsFirst(s, i, "'");
    HoldsFirst(s, i, "_binary'");
  }

  /** A time of day has no character that a string would have to escape. */
  predicate IsClock(clock: Option<string>) {
    clock.Some? ==> '\'' !in clock.value && '\\' !in clock.value
  }

  /** Every literal is read as the value, or the time of day, it was made of. */
  lemma LiteralRead(s: string, i: nat, kind: Kind, data: string, clock: Option<string>, x: string, cs: Charset)
    requires LiteralWith(kind, data, clock, cs) == Some(x) && IsClock(clock)
    requires kind != Bit && (kind == Floating ==> IsNumber(data))
    requires Holds(s, i, x) && Holds(s, i + |x|, " ")
    ensures ReadLiteral(s, i) == Read(LiteralText(kind, data, clock), i + |x|)
  {
    match kind
    case Plain => StringLiteralRead(s, i, data, cs);
    case Binary => BinaryLiteralRead(s, i, data, cs);
    case Floating =>
      NumberStays(data);
      NumberLiteralRead(s, i, data);
    case Time(_) => ClockLiteralRead(s, i, clock.value);
  }

  // ---------------------------------------------------------------- conditions

  /** A name without a backtick, and a floating-point value that is a number. */
  predicate Readable(ty: Typing, t: Term) {
    && '`' !in t.column
    && (t.value.Some? && ty.kind(t.column) == Floating ==> IsNumber(BeforeNul(t.value.value)))
  }

  /** The condition a term is read as. */
  function ConditionOf(ty: Typing, t: Term): Condition {
    Condition(t.column,
              if t.value == None then None else Some(ValueText(ty.kind(t.column), BeforeNul(t.value.value))))
  }

  function ValueText(kind: Kind, data: string): string {
    LiteralText(kind, data, Converted(data))
  }

  /** A BIT leaves its literal missing. */
  predicate IsMissing(ty: Typing, t: Term) {
    t.value.Some? && ty.kind(t.column) == Bit
  }

  /** A name in backticks, and something else behind it. */
  ghost predicate NameStands(s: string, i: nat, name: string) {
    && Holds(s, i, "`") && Holds(s, i + 1, name)
    && Holds(s, i + |name| + 1, "`") && !Holds(s, i + |name| + 2, "`")
  }

  lemma QuotedNameStands(s: string, i: nat, name: string, rest: string)
    requires rest != "" && rest[0] != '`' && Holds(s, i, QuotedName(name) + rest)
    ensures NameStands(s, i, name) && Holds(s, i + |name| + 2, rest)
  {
    HoldsParts(s, i, QuotedName(name), rest);
    HoldsParts(s, i, "`" + name, "`");
    HoldsParts(s, i, "`", name);
    HoldsFirst(s, i + |name| + 2, rest);
    HoldsFirst(s, i + |name| + 2, "`");
  }

  /** It is read as the name. */
  lemma NameRead(s: string, i: nat, name: string)
    requires '`' !in name && NameStands(s, i, name)
    ensures ReadQuoted(s, i + 1, '`') == Read(name, i + |name| + 2)
  {
    PlainRead(s, i + 1, name, '`');
  }

  /** What is read of a quoted name is shorter than what stands there, unless there is no backtick in it. */
  lemma {:induction false} ReadWithoutDoubles(s: string, i: nat)
    ensures match ReadQuoted(s, i, '`')
            case Nothing => true
            case Read(x, j) => i + |x| + 1 <= j && (i + |x| + 1 == j ==> '`' !in x)
    decreases |s| - i
  {
    if i < |s| && s[i] != '`' {
      ReadWithoutDoubles(s, i + 1);
    } else if i + 1 < |s| && s[i + 1] == '`' {
      ReadWithoutDoubles(s, i + 2);
    }
  }

  /** Backticks in a name are not escaped: the name is read back, and no more than it, exactly if it has none. */
  lemma NameReadExactly(s: string, i: nat, name: string, rest: string)
    requires rest != "" && rest[0] != '`' && Holds(s, i, QuotedName(name) + rest)
    ensures ReadQuoted(s, i + 1, '`') == Read(name, i + |name| + 2) <==> '`' !in name
  {
    if '`' !in name {
      QuotedNameStands(s, i, name, rest);
      NameRead(s, i, name);
    }
    ReadWithoutDoubles(s, i + 1);
  }

  /** Wherever x stands with a blank behind it, it is read as this literal, or not at all. */
  ghost predicate LiteralReadsAs(s: string, x: string, text: Option<string>) {
    forall j: nat :: Holds(s, j, x) && Holds(s, j + |x|, " ") ==>
      ReadLiteral(s, j) == if text == None then Nothing else Read(text.value, j + |x|)
  }

  lemma LiteralWithReadsAs(s: string, kind: Kind, data: string, clock: Option<string>, x: string, cs: Charset)
    requires LiteralWith(kind, data, clock, cs) == Some(x) && IsClock(clock) && (kind == Floating ==> IsNumber(data))
    ensures LiteralReadsAs(s, x, if kind == Bit then None else Some(LiteralText(kind, data, clock)))
  {
    forall j: nat | Holds(s, j, x) && Holds(s, j + |x|, " ")
      ensures ReadLiteral(s, j) == if kind == Bit then Nothing else Read(LiteralText(kind, data, clock), j + |x|)
    {
      if kind == Bit {
        MissingLiteral(s, j);
      } else {
        LiteralRead(s, j, kind, data, clock, x, cs);
      }
    }
  }

  /** The same for a condition. */
  ghost predicate ReadsAs(s: string, x: string, c: Option<Condition>) {
    forall i: nat :: Holds(s, i, x) && Holds(s, i + |x|, " ") ==>
      ReadCondition(s, i) == if c == None then None else Some((c.value, i + |x|))
  }

  lemma NullReadsAs(s: string, name: string)
    requires '`' !in name
    ensures ReadsAs(s, NamedLiteral(name, None), Some(Condition(name, None)))
  {
    var x := NamedLiteral(name, None);
    forall i: nat | Holds(s, i, x) && Holds(s, i + |x|, " ")
      ensures ReadCondition(s, i) == Some((Condition(name, None), i + |x|))
    {
      QuotedNameStands(s, i, name, " IS NULL");
      NameRead(s, i, name);
    }
  }

  lemma EqualsReadsAs(s: string, name: string, x: string, text: Option<string>)
    requires '`' !in name && LiteralReadsAs(s, x, text)
    ensures ReadsAs(s, NamedLiteral(name, Some(x)), if text == None then None else Some(Condition(name, text)))
  {
    var y := NamedLiteral(name, Some(x));
    forall i: nat | Holds(s, i, y) && Holds(s, i + |y|, " ")
      ensures ReadCondition(s, i) == if text == None then None else Some((Condition(name, text), i + |y|))
    {
      NamedStands(s, i, name, x);
      EqualsThere(s, i, name, x, text);
    }
  }

  lemma EqualsThere(s: string, i: nat, name: string, x: string, text: Option<string>)
    requires '`' !in name && LiteralReadsAs(s, x, text)
    requires NameStands(s, i, name) && Holds(s, i + |name| + 2, "=") && Holds(s, i + |name| + 3, x)
    requires Holds(s, i + |name| + 3 + |x|, " ")
    ensures ReadCondition(s, i) ==
            if text == None then None else Some((Condition(name, text), i + |name| + 3 + |x|))
  {
    LiteralThere(s, i + |name| + 3, x, text);
    EqualsRead(s, i, name, ReadLiteral(s, i + |name| + 3));
  }

  lemma NamedStands(s: string, i: nat, name: string, x: string)
    requires Holds(s, i, NamedLiteral(name, Some(x)))
    ensures NameStands(s, i, name) && Holds(s, i + |name| + 2, "=") && Holds(s, i + |name| + 3, x)
    ensures |NamedLiteral(name, Some(x))| == |name| + 3 + |x|
  {
    QuotedNameStands(s, i, name, "=" + x);
    HoldsParts(s, i + |name| + 2, "=", x);
  }

  lemma LiteralThere(s: string, j: nat, x: string, text: Option<string>)
    requires LiteralReadsAs(s, x, text) && Holds(s, j, x) && Holds(s, j + |x|, " ")
    ensures ReadLiteral(s, j) == if text == None then Nothing else Read(text.value, j + |x|)
  {
  }

  /** A name and an equals sign, and then a literal, or nothing that can be read as one. */
  lemma EqualsRead(s: string, i: nat, name: string, literal: Reading)
    requires '`' !in name && NameStands(s, i, name) && Holds(s, i + |name| + 2, "=")
    requires ReadLiteral(s, i + |name| + 3) == literal
    ensures ReadCondition(s, i) ==
            if literal == Nothing then None else Some((Condition(name, Some(literal.text)), literal.end))
  {
    NameRead(s, i, name);
    NoNull(s, i + |name| + 2);
  }

  lemma NoNull(s: string, j: nat)
    requires Holds(s, j, "=")
    ensures !Holds(s, j, " IS NULL")
  {
    HoldsFirst(s, j, "=");
    HoldsFirst(s, j, " IS NULL");
  }

  // ---------------------------------------------------------------- the whole clause

  /** The texts from the k-th on with AND between them. */
  function Joined(texts: seq<string>, k: nat): string
    requires k < |texts|
    decreases |texts| - k, 0
  {
    texts[k] + Further(texts, k + 1)
  }

  function Further(texts: seq<string>, k: nat): string
    requires k <= |texts|
    decreases |texts| - k, 1
  {
    if k < |texts| then " AND " + Joined(texts, k) else ""
  }

  function TextsOf(ty: Typing, terms: seq<Term>, cs: Charset): (texts: seq<string>)
    ensures |texts| == |terms|
  {
    seq(|terms|, k requires 0 <= k < |terms| => TermText(ty, terms[k], cs))
  }

  lemma {:induction false} AndOfIsJoined(ty: Typing, terms: seq<Term>, n: nat, cs: Charset)
    requires 0 < n <= |terms|
    ensures AndOf(ty, terms, n, cs) + Further(TextsOf(ty, terms, cs), n) == Joined(TextsOf(ty, terms, cs), 0)
  {
    if n > 1 {
      AndOfIsJoined(ty, terms, n - 1, cs);
      Reassociated(AndOf(ty, terms, n - 1, cs), TermText(ty, terms[n - 1], cs), Further(TextsOf(ty, terms, cs), n));
    }
  }

  lemma Reassociated(front: string, t: string, rest: string)
    ensures front + " AND " + t + rest == front + (" AND " + (t + rest))
  {
  }

  lemma AllOfThem(ty: Typing, terms: seq<Term>, cs: Charset)
    requires terms != []
    ensures AndOf(ty, terms, |terms|, cs) == Joined(TextsOf(ty, terms, cs), 0)
  {
    AndOfIsJoined(ty, terms, |terms|, cs);
    Alone(AndOf(ty, terms, |terms|, cs));
  }

  lemma Alone(s: string)
    ensures s + "" == s
  {
  }

  lemma WordsDiffer(s: string, j: nat)
    ensures !(Holds(s, j, " LIMIT ") && Holds(s, j, " AND "))
    ensures Holds(s, j, " LIMIT ") || Holds(s, j, " AND ") ==> Holds(s, j, " ")
  {
    HoldsParts(s, j, " ", "LIMIT ");
    HoldsParts(s, j, " ", "AND ");
    assert " " + "LIMIT " == " LIMIT " && " " + "AND " == " AND ";
    HoldsFirst(s, j + 1, "LIMIT ");
    HoldsFirst(s, j + 1, "AND ");
  }

  ghost predicate AllReadAs(s: string, texts: seq<string>, conds: seq<Option<Condition>>) {
    && |conds| == |texts|
    && forall k: nat :: k < |texts| ==> ReadsAs(s, texts[k], conds[k])
  }

  /** The conditions from the k-th on, None if one of them cannot be read. */
  function Together(conds: seq<Option<Condition>>, k: nat): Option<seq<Condition>>
    requires k <= |conds|
    decreases |conds| - k
  {
    if k == |conds| then Some([])
    else if conds[k] == None || Together(conds, k + 1) == None then None
    else Some([conds[k].value] + Together(conds, k + 1).value)
  }

  lemma OneRead(s: string, i: nat, x: string, c: Option<Condition>)
    requires ReadsAs(s, x, c) && Holds(s, i, x) && Holds(s, i + |x|, " ")
    ensures ReadCondition(s, i) == if c == None then None else Some((c.value, i + |x|))
  {
  }

  /** A condition, and behind it the limit or further conditions. */
  lemma ConditionThenMore(s: string, i: nat, j: nat, c: Option<Condition>, more: Option<(seq<Condition>, nat)>)
    requires j >= i && ReadCondition(s, i) == if c == None then None else Some((c.value, j))
    requires Holds(s, j, " LIMIT ") || (Holds(s, j, " AND ") && ReadConditions(s, j + 5) == more)
    ensures ReadConditions(s, i) ==
            if c == None then None
            else if Holds(s, j, " LIMIT ") then Some(([c.value], j))
            else if more == None then None
            else Some(([c.value] + more.value.0, more.value.1))
  {
    WordsDiffer(s, j);
  }

  /** The texts from the k-th on stand one behind the other, with AND between them and LIMIT behind the last. */
  ghost predicate TextsStand(s: string, i: nat, texts: seq<string>, k: nat, end: nat)
    requires k < |texts|
    decreases |texts| - k
  {
    var j := i + |texts[k]|;
    && Holds(s, i, texts[k])
    && if k + 1 == |texts| then j == end && Holds(s, j, " LIMIT ")
       else Holds(s, j, " AND ") && TextsStand(s, j + 5, texts, k + 1, end)
  }

  lemma {:induction false} JoinedStands(s: string, i: nat, texts: seq<string>, k: nat, end: nat)
    requires k < |texts| && end == i + |Joined(texts, k)|
    requires Holds(s, i, Joined(texts, k)) && Holds(s, end, " LIMIT ")
    ensures TextsStand(s, i, texts, k, end)
    decreases |texts| - k
  {
    if k + 1 == |texts| {
      Alone(texts[k]);
    } else {
      HoldsParts(s, i, texts[k], " AND " + Joined(texts, k + 1));
      HoldsParts(s, i + |texts[k]|, " AND ", Joined(texts, k + 1));
      JoinedStands(s, i + |texts[k]| + 5, texts, k + 1, end);
    }
  }

  lemma {:induction false} TextsRead(s: string, i: nat, texts: seq<string>, conds: seq<Option<Condition>>, k: nat,
                                     end: nat)
    requires AllReadAs(s, texts, conds) && k < |texts| && TextsStand(s, i, texts, k, end)
    ensures var all := Together(conds, k); ReadConditions(s, i) == if all == None then None else Some((all.value, end))
    decreases |texts| - k
  {
    var j := i + |texts[k]|;
    WordsDiffer(s, j);
    OneRead(s, i, texts[k], conds[k]);
    if k + 1 == |texts| {
      ConditionThenMore(s, i, j, conds[k], None);
      LastTogether(conds, k);
    } else {
      TextsRead(s, j + 5, texts, conds, k + 1, end);
      MoreTogether(s, i, j, conds, k, end);
    }
  }

  lemma MoreTogether(s: string, i: nat, j: nat, conds: seq<Option<Condition>>, k: nat, end: nat)
    requires j >= i && k < |conds| && Holds(s, j, " AND ")
    requires ReadCondition(s, i) == if conds[k] == None then None else Some((conds[k].value, j))
    requires var rest := Together(conds, k + 1);
             ReadConditions(s, j + 5) == if rest == None then None else Some((rest.value, end))
    ensures var all := Together(conds, k); ReadConditions(s, i) == if all == None then None else Some((all.value, end))
  {
    WordsDiffer(s, j);
    ConditionThenMore(s, i, j, conds[k], ReadConditions(s, j + 5));
  }

  lemma LastTogether(conds: seq<Option<Condition>>, k: nat)
    requires k + 1 == |conds|
    ensures Together(conds, k) == if conds[k] == None then None else Some([conds[k].value])
  {
    assert Together(conds, k + 1) == Some([]);
    if conds[k] != None {
      assert [conds[k].value] + [] == [conds[k].value];
    }
  }

  // ---------------------------------------------------------------- the terms

  /** No literal is refused, and all names and numbers can be read. */
  predicate AllReadable(ty: Typing, terms: seq<Term>) {
    forall i: nat :: i < |terms| ==> ReadableAt(ty, terms, i)
  }

  predicate ReadableAt(ty: Typing, terms: seq<Term>, i: nat)
    requires i < |terms|
  {
    Readable(ty, terms[i]) && !IsRefused(ty, terms[i])
  }

  /** A term's condition, None if its literal is missing. */
  function Sought(ty: Typing, t: Term): Option<Condition> {
    if IsMissing(ty, t) then None else Some(ConditionOf(ty, t))
  }

  function SoughtAll(ty: Typing, terms: seq<Term>): (conds: seq<Option<Condition>>)
    ensures |conds| == |terms|
  {
    seq(|terms|, k requires 0 <= k < |terms| => Sought(ty, terms[k]))
  }

  lemma TermReadsAs(ty: Typing, s: string, t: Term, cs: Charset)
    requires Readable(ty, t) && !IsRefused(ty, t)
    ensures ReadsAs(s, TermText(ty, t, cs), Sought(ty, t))
  {
    if t.value == None {
      NullReadsAs(s, t.column);
    } else {
      var kind, data := ty.kind(t.column), BeforeNul(t.value.value);
      var x := TermLiteral(ty, t, cs);
      ClockIsPlain(data);
      LiteralWithReadsAs(s, kind, data, Converted(data), x, cs);
      EqualsReadsAs(s, t.column, x, if kind == Bit then None else Some(ValueText(kind, data)));
    }
  }

  lemma TermLiteral(ty: Typing, t: Term, cs: Charset) returns (x: string)
    requires t.value != None && !IsRefused(ty, t)
    ensures LiteralOf(ty.kind(t.column), BeforeNul(t.value.value), cs) == Some(x)
    ensures TermText(ty, t, cs) == NamedLiteral(t.column, Some(x))
  {
    RefusedLiteral(ty, t, cs);
    x := LiteralOf(ty.kind(t.column), BeforeNul(t.value.value), cs).value;
  }

  lemma AllTermsReadAs(ty: Typing, s: string, terms: seq<Term>, cs: Charset)
    requires AllReadable(ty, terms)
    ensures AllReadAs(s, TextsOf(ty, terms, cs), SoughtAll(ty, terms))
  {
    forall k: nat | k < |terms|
      ensures ReadsAs(s, TextsOf(ty, terms, cs)[k], SoughtAll(ty, terms)[k])
    {
      assert ReadableAt(ty, terms, k);
      TermReadsAs(ty, s, terms[k], cs);
    }
  }

  lemma {:induction false} TogetherIs(conds: seq<Option<Condition>>, k: nat)
    requires k <= |conds|
    ensures Together(conds, k) == None <==> exists i :: k <= i < |conds| && conds[i] == None
    ensures Together(conds, k) != None ==>
              && |Together(conds, k).value| == |conds| - k
              && forall i :: k <= i < |conds| ==> conds[i] == Some(Together(conds, k).value[i - k])
    decreases |conds| - k
  {
    if k < |conds| {
      TogetherIs(conds, k + 1);
    }
  }

  /** The limit is read as the number it was made of. */
  lemma LimitRead(irow: nat, rowset: nat)
    ensures LimitOf(irow, rowset) != "" && AllDecimal(LimitOf(irow, rowset))
    ensures Conversions.Value(LimitOf(irow, rowset), 10) == if irow == 0 then rowset else 1
  {
    if irow == 0 {
      Conversions.NumeralIsNumeral(rowset, 10, false);
      Conversions.NumeralHasValue(rowset, 10, false);
      var s := Conversions.Numeral(rowset, 10, false);
      forall k | 0 <= k < |s|
        ensures IsDecimal(s[k])
      {
        assert Conversions.IsDigit(s[k], 10, false);
      }
    } else {
      assert "1"[..0] == "";
    }
  }

  lemma HoldsAt(front: string, x: string)
    ensures Holds(front + x, |front|, x)
  {
  }

  lemma FourParts(s: string, i: nat, a: string, x: string, b: string, c: string)
    requires Holds(s, i, a + x + b + c) && |s| == i + |a| + |x| + |b| + |c|
    ensures Holds(s, i, a) && Holds(s, i + |a|, x) && Holds(s, i + |a| + |x|, b) && s[i + |a| + |x| + |b|..] == c
  {
    HoldsParts(s, i, a + x + b, c);
    HoldsParts(s, i, a + x, b);
    HoldsParts(s, i, a, x);
    PartIs(s, i + |a| + |x| + |b|, c);
  }

  /** A clause of joined texts is read if each of them is. */
  lemma WhereRead(query: string, texts: seq<string>, conds: seq<Option<Condition>>, limit: string)
    requires texts != [] && limit != "" && AllDecimal(limit)
    requires AllReadAs(query + (" WHERE " + Joined(texts, 0) + " LIMIT " + limit), texts, conds)
    ensures ReadWhere(query + (" WHERE " + Joined(texts, 0) + " LIMIT " + limit), |query|) ==
            if Together(conds, 0) == None then None
            else Some((Together(conds, 0).value, Conversions.Value(limit, 10)))
  {
    var s, j := query + (" WHERE " + Joined(texts, 0) + " LIMIT " + limit), |query| + 7 + |Joined(texts, 0)|;
    WhereStands(query, Joined(texts, 0), limit);
    JoinedWhereRead(s, |query|, texts, conds, 0, j, limit);
  }

  lemma WhereStands(query: string, x: string, limit: string)
    ensures var s, i := query + (" WHERE " + x + " LIMIT " + limit), |query|;
            && Holds(s, i, " WHERE ") && Holds(s, i + 7, x) && Holds(s, i + 7 + |x|, " LIMIT ")
            && s[i + 7 + |x| + 7..] == limit
  {
    HoldsAt(query, " WHERE " + x + " LIMIT " + limit);
    FourParts(query + (" WHERE " + x + " LIMIT " + limit), |query|, " WHERE ", x, " LIMIT ", limit);
  }

  lemma JoinedWhereRead(s: string, i: nat, texts: seq<string>, conds: seq<Option<Condition>>, k: nat, j: nat,
                        limit: string)
    requires texts != [] && k == 0 && AllReadAs(s, texts, conds) && j == i + 7 + |Joined(texts, k)|
    requires Holds(s, i, " WHERE ") && Holds(s, i + 7, Joined(texts, k)) && Holds(s, j, " LIMIT ")
    requires s[j + 7..] == limit && limit != "" && AllDecimal(limit)
    ensures var all := Together(conds, k);
            ReadWhere(s, i) == if all == None then None else Some((all.value, Conversions.Value(limit, 10)))
  {
    JoinedStands(s, i + 7, texts, k, j);
    TextsRead(s, i + 7, texts, conds, k, j);
    LimitBehind(s, i, j, Together(conds, k), limit);
  }

  lemma LimitBehind(s: string, i: nat, j: nat, conds: Option<seq<Condition>>, limit: string)
    requires Holds(s, i, " WHERE ") && Holds(s, j, " LIMIT ") && s[j + 7..] == limit
    requires limit != "" && AllDecimal(limit)
    requires ReadConditions(s, i + 7) == if conds == None then None else Some((conds.value, j))
    ensures ReadWhere(s, i) == if conds == None then None else Some((conds.value, Conversions.Value(limit, 10)))
  {
  }

  /**
   The server reads back from the clause what it was made of: the conditions in order and the limit; a
   missing literal makes the clause unreadable.
   */
  lemma ClauseRead(ty: Typing, query: string, terms: seq<Term>, irow: nat, rowset: nat, cs: Charset)
    requires terms != [] && AllReadable(ty, terms)
    ensures ReadWhere(query + Clause(ty, terms, irow, rowset, cs), |query|) ==
            var conds := Together(SoughtAll(ty, terms), 0);
            if conds == None then None else Some((conds.value, if irow == 0 then rowset else 1))
  {
    AllOfThem(ty, terms, cs);
    LimitRead(irow, rowset);
    AllTermsReadAs(ty, query + Clause(ty, terms, irow, rowset, cs), terms, cs);
    WhereRead(query, TextsOf(ty, terms, cs), SoughtAll(ty, terms), LimitOf(irow, rowset));
  }

  /** A row meets the condition read exactly if it meets the term. */
  lemma RowMeetsExactly(ty: Typing, row: Row, t: Term)
    requires !IsRefused(ty, t)
    ensures IsMissing(ty, t) ==> !Meets(ty, row, t)
    ensures !IsMissing(ty, t) ==> (RowMeets(ty, row, ConditionOf(ty, t)) <==> Meets(ty, row, t))
  {
    if t.value.Some? {
      RefusedSense(ty, t);
    }
  }

  /** The text of the clause selects exactly the rows the terms match. */
  lemma ClauseSelects(ty: Typing, query: string, terms: seq<Term>, irow: nat, rowset: nat, cs: Charset, row: Row)
    requires terms != [] && AllReadable(ty, terms)
    ensures Selects(ty, query + Clause(ty, terms, irow, rowset, cs), |query|, row) <==> Matches(ty, row, terms)
  {
    ClauseRead(ty, query, terms, irow, rowset, cs);
    MetTogether(ty, terms, row);
  }

  lemma MetTogether(ty: Typing, terms: seq<Term>, row: Row)
    requires AllReadable(ty, terms)
    ensures var conds := Together(SoughtAll(ty, terms), 0);
            Matches(ty, row, terms) <==>
            conds != None && forall k :: 0 <= k < |conds.value| ==> RowMeets(ty, row, conds.value[k])
  {
    var sought := SoughtAll(ty, terms);
    TogetherIs(sought, 0);
    forall i: nat | i < |terms|
      ensures IsMissing(ty, terms[i]) ==> !Meets(ty, row, terms[i])
      ensures !IsMissing(ty, terms[i]) ==>
                (RowMeets(ty, row, ConditionOf(ty, terms[i])) <==> Meets(ty, row, terms[i]))
    {
      assert ReadableAt(ty, terms, i);
      RowMeetsExactly(ty, row, terms[i]);
    }
    if Together(sought, 0) == None {
      var i :| 0 <= i < |terms| && sought[i] == None;
      assert !Meets(ty, row, terms[i]);
    } else {
      forall i | 0 <= i < |terms|
        ensures RowMeets(ty, row, Together(sought, 0).value[i]) <==> Meets(ty, row, terms[i])
      {
        assert sought[i] == Some(Together(sought, 0).value[i - 0]);
      }
    }
  }
}

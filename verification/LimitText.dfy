/**
 The text side of the LIMIT scroller: fixed-width number fields overwritten in place in the query
 buffer, and how the server reads them back.
 */
module LimitText {
  import opened OdbcCodes
  import opened Digits
  import opened DecimalRuns

  /** The widths of the offset and count fields (MAX64_BUFF_SIZE - 1 and MAX32_BUFF_SIZE - 1). */
  const OFFSET_WIDTH := 20
  const COUNT_WIDTH := 10

  function Spaces(k: nat): string {
    seq(k, _ => ' ')
  }

  /** `%*u` with width w, for a number of at most w digits. */
  function Pad(v: nat, w: nat): (s: string)
    ensures |s| == w
  {
    if w == 0 then ""
    else if v < 10 then Spaces(w - 1) + [Digit(v, false)]
    else Pad(v / 10, w - 1) + [Digit(v % 10, false)]
  }

  // ---------------------------------------------------------------- reading a field back

  function SkipSpaces(s: string): string {
    if s != "" && s[0] == ' ' then SkipSpaces(s[1..]) else s
  }

  /** The value of a string of digits, None when some other character is in it. */
  function ParseDigits(s: string): Option<nat> {
    if s == "" then None
    else if !IsDecimal(s[|s| - 1]) then None
    else if |s| == 1 then Some(DigitValue(s[0]))
    else
      match ParseDigits(s[..|s| - 1])
      case None => None
      case Some(v) => Some(10 * v + DigitValue(s[|s| - 1]))
  }

  /** How the server reads a number: leading blanks, then digits up to the end of the field. */
  function ParseField(s: string): Option<nat> {
    ParseDigits(SkipSpaces(s))
  }

  lemma {:induction false} SkipSpacesOfSpaces(k: nat, s: string)
    requires s != "" && s[0] != ' '
    ensures SkipSpaces(Spaces(k) + s) == s
  {
    if k == 0 {
      assert Spaces(0) + s == s;
    } else {
      assert (Spaces(k) + s)[1..] == Spaces(k - 1) + s;
      SkipSpacesOfSpaces(k - 1, s);
    }
  }

  lemma {:induction false} SkipSpacesAppend(s: string, c: char)
    requires SkipSpaces(s) != ""
    ensures SkipSpaces(s + [c]) == SkipSpaces(s) + [c]
  {
    if s[0] == ' ' {
      assert (s + [c])[1..] == s[1..] + [c];
      SkipSpacesAppend(s[1..], c);
    }
  }

  /** A number that fits its field is read back unchanged. */
  lemma {:induction false} PadRoundTrip(v: nat, w: nat)
    requires w > 0 && v < Power(10, w)
    ensures ParseField(Pad(v, w)) == Some(v)
  {
    if v < 10 {
      SkipSpacesOfSpaces(w - 1, [Digit(v, false)]);
    } else {
      assert w > 1;
      PadRoundTrip(v / 10, w - 1);
      var rest := Pad(v / 10, w - 1);
      SkipSpacesAppend(rest, Digit(v % 10, false));
      var all := SkipSpaces(rest) + [Digit(v % 10, false)];
      assert all[..|all| - 1] == SkipSpaces(rest);
    }
  }

  lemma {:induction false} PadCharacters(v: nat, w: nat)
    ensures forall i :: 0 <= i < w ==> Pad(v, w)[i] == ' ' || IsDecimal(Pad(v, w)[i])
  {
    if w > 0 && v >= 10 {
      PadCharacters(v / 10, w - 1);
    }
  }

  /** 64-bit offsets and 32-bit counts fit their fields. */
  lemma FieldsAreWideEnough()
    ensures TWO64 <= Power(10, OFFSET_WIDTH)
    ensures TWO32 <= Power(10, COUNT_WIDTH)
  {
    assert Power(10, 5) == 100000;
    assert Power(10, 10) == 10000000000;
    assert Power(10, 15) == 1000000000000000;
    assert Power(10, 20) == 100000000000000000000;
  }

  // ---------------------------------------------------------------- the query buffer

  /** s with t written over it at `at`. */
  function Splice(s: string, at: nat, t: string): (r: string)
    requires at + |t| <= |s|
    ensures |r| == |s|
  {
    s[..at] + t + s[at + |t|..]
  }

  /**
   The bytes sent to the server: the query up to its LIMIT clause, the rebuilt clause, the rest of
   the query, and blanks up to the fixed length.
   */
  function Layout(head: string, offset: string, count: string, tail: string, len: nat): string
    requires |head| + 7 + |offset| + 1 + |count| + |tail| <= len
  {
    head + " LIMIT " + offset + "," + count + tail
    + Spaces(len - (|head| + 7 + |offset| + 1 + |count| + |tail|))
  }

  /** The tail after the count field has been rewritten: its first character is blanked. */
  function Blanked(tail: string): (t: string)
    ensures |t| == |tail|
  {
    if tail == "" then tail else " " + tail[1..]
  }

  /** Rewriting the count keeps the rest of the query exactly when that rest is empty or starts with a blank. */
  lemma SuffixKept(tail: string)
    ensures Blanked(tail) == tail <==> tail == "" || tail[0] == ' '
  {
    if tail != "" {
      assert Blanked(tail)[0] == ' ';
      assert tail == [tail[0]] + tail[1..];
    }
  }

  lemma SpliceOffset(head: string, offset: string, offset': string, count: string, tail: string, len: nat)
    requires |offset| == |offset'| && |head| + 8 + |offset| + |count| + |tail| <= len
    ensures Splice(Layout(head, offset, count, tail, len) + "\0", |head| + 7, offset' + ",")
         == Layout(head, offset', count, tail, len) + "\0"
  {
    var rest := count + tail + Spaces(len - (|head| + 7 + |offset| + 1 + |count| + |tail|)) + "\0";
    assert Layout(head, offset, count, tail, len) + "\0" == (head + " LIMIT ") + (offset + ",") + rest;
    assert Layout(head, offset', count, tail, len) + "\0" == (head + " LIMIT ") + (offset' + ",") + rest;
    SpliceMiddle(head + " LIMIT ", offset + ",", offset' + ",", rest);
  }

  lemma SpliceMiddle(a: string, b: string, b': string, c: string)
    requires |b| == |b'|
    ensures Splice(a + b + c, |a|, b') == a + b' + c
  {
    assert (a + b + c)[..|a|] == a;
    assert (a + b + c)[|a| + |b|..] == c;
  }

  /** Rewriting the count also blanks the character behind it, which is the first of the tail or of the padding. */
  lemma SpliceCount(head: string, offset: string, count: string, count': string, tail: string, len: nat)
    requires |count| == |count'| && |head| + 9 + |offset| + |count| + |tail| <= len
    ensures Splice(Layout(head, offset, count, tail, len) + "\0", |head| + 8 + |offset|, count' + " ")
         == Layout(head, offset, count', Blanked(tail), len) + "\0"
  {
    var front := head + " LIMIT " + offset + ",";
    var behind := tail + Spaces(len - (|head| + 7 + |offset| + 1 + |count| + |tail|)) + "\0";
    var rest := behind[1..];
    assert Layout(head, offset, count, tail, len) + "\0" == front + (count + [behind[0]]) + rest by {
      assert behind == [behind[0]] + rest;
    }
    BlankedBehind(tail, len - (|head| + 7 + |offset| + 1 + |count| + |tail|));
    assert Layout(head, offset, count', Blanked(tail), len) + "\0" == front + (count' + " ") + rest;
    SpliceMiddle(front, count + [behind[0]], count' + " ", rest);
  }

  lemma BlankedBehind(tail: string, k: nat)
    requires k > 0
    ensures Blanked(tail) + Spaces(k) + "\0" == " " + (tail + Spaces(k) + "\0")[1..]
  {
  }

  // ---------------------------------------------------------------- the server's view

  datatype Window = Window(offset: nat, count: nat)

  /**
   What the server makes of the text: None is a syntax error. `at` is where the rebuilt LIMIT clause
   starts. A NUL anywhere in the text sent is an error, and so is a digit glued to the count.
   */
  function Decode(text: string, at: nat): Option<Window> {
    if '\0' in text || at + 38 > |text| || text[at..at + 7] != " LIMIT " || text[at + 27] != ',' then None
    else if at + 38 < |text| && IsDecimal(text[at + 38]) then None
    else
      match (ParseField(text[at + 7..at + 27]), ParseField(text[at + 28..at + 38]))
      case (Some(offset), Some(count)) => Some(Window(offset, count))
      case _ => None
  }

  /** The text behind the count field, as the server gets it: the tail and the padding. */
  function Behind(text: string, at: nat): string {
    if at + 38 <= |text| then text[at + 38..] else ""
  }

  lemma BehindIsTail(head: string, o: string, c: string, tail: string, len: nat)
    requires |o| == OFFSET_WIDTH && |c| == COUNT_WIDTH && |head| + 39 + |tail| <= len
    ensures Behind(Layout(head, o, c, tail, len), |head|) == tail + Spaces(len - (|head| + 38 + |tail|))
  {
    var front, behind := head + " LIMIT " + o + "," + c, tail + Spaces(len - (|head| + 38 + |tail|));
    assert Layout(head, o, c, tail, len) == front + behind;
    assert (front + behind)[|front|..] == behind;
  }

  /** Padding does not hide a blanked byte. */
  lemma PaddedBlanked(tail: string, k: nat)
    ensures Blanked(tail) + Spaces(k) == tail + Spaces(k) <==> Blanked(tail) == tail
  {
    if Blanked(tail) + Spaces(k) == tail + Spaces(k) {
      assert (Blanked(tail) + Spaces(k))[..|tail|] == Blanked(tail);
      assert (tail + Spaces(k))[..|tail|] == tail;
    }
  }

  lemma BlankedTwice(tail: string)
    ensures Blanked(Blanked(tail)) == Blanked(tail)
  {
  }

  predicate CleanTail(tail: string) {
    '\0' !in tail && (tail != "" ==> !IsDecimal(tail[0]))
  }

  lemma PadHasNoNul(v: nat, w: nat)
    ensures '\0' !in Pad(v, w)
  {
    PadCharacters(v, w);
  }

  /** The server reads the two fields back as the numbers written there, for every 64-bit offset and 32-bit count. */
  lemma DecodesToWindow(head: string, offset: nat, count: nat, tail: string, len: nat)
    requires offset < TWO64 && count < TWO32
    requires |head| + 39 + |tail| <= len
    requires '\0' !in head && CleanTail(tail)
    ensures Decode(Layout(head, Pad(offset, OFFSET_WIDTH), Pad(count, COUNT_WIDTH), tail, len), |head|)
         == Some(Window(offset, count))
  {
    var o, c := Pad(offset, OFFSET_WIDTH), Pad(count, COUNT_WIDTH);
    FieldsAreWideEnough();
    PadRoundTrip(offset, OFFSET_WIDTH);
    PadRoundTrip(count, COUNT_WIDTH);
    PadHasNoNul(offset, OFFSET_WIDTH);
    PadHasNoNul(count, COUNT_WIDTH);
    LayoutFields(head, o, c, tail, len);
    LayoutHasNoNul(head, o, c, tail, len);
  }

  lemma LayoutHasNoNul(head: string, o: string, c: string, tail: string, len: nat)
    requires |head| + 8 + |o| + |c| + |tail| <= len
    requires '\0' !in head && '\0' !in o && '\0' !in c && '\0' !in tail
    ensures '\0' !in Layout(head, o, c, tail, len)
  {
    assert '\0' !in Spaces(len - (|head| + 7 + |o| + 1 + |c| + |tail|));
  }

  /** Where the parts of the rebuilt clause lie in the text. */
  lemma LayoutFields(head: string, o: string, c: string, tail: string, len: nat)
    requires |o| == OFFSET_WIDTH && |c| == COUNT_WIDTH && |head| + 39 + |tail| <= len
    ensures var text, at := Layout(head, o, c, tail, len), |head|;
            && text[at..at + 7] == " LIMIT "
            && text[at + 7..at + 27] == o
            && text[at + 27] == ','
            && text[at + 28..at + 38] == c
            && text[at + 38] == if tail == "" then ' ' else tail[0]
  {
    var padding := Spaces(len - (|head| + 38 + |tail|));
    var text := Layout(head, o, c, tail, len);
    SliceMiddle(head, " LIMIT ", o + "," + c + tail + padding);
    assert text == head + " LIMIT " + (o + "," + c + tail + padding);
    SliceMiddle(head + " LIMIT ", o, "," + c + tail + padding);
    assert text == (head + " LIMIT ") + o + ("," + c + tail + padding);
    SliceMiddle(head + " LIMIT " + o, ",", c + tail + padding);
    assert text == (head + " LIMIT " + o) + "," + (c + tail + padding);
    SliceMiddle(head + " LIMIT " + o + ",", c, tail + padding);
    assert text == (head + " LIMIT " + o + ",") + c + (tail + padding);
  }

  lemma SliceMiddle(a: string, b: string, c: string)
    ensures (a + b + c)[|a|..|a| + |b|] == b
    ensures b != "" ==> (a + b + c)[|a|] == b[0]
    ensures c != "" ==> (a + b + c)[|a| + |b|] == c[0]
  {
  }

  // ---------------------------------------------------------------- writing a field

  /** memcpy. */
  method CopyInto(buf: array<char>, at: nat, s: string)
    requires at + |s| <= buf.Length
    modifies buf
    ensures buf[..] == Splice(old(buf[..]), at, s)
  {
    for i := 0 to |s|
      invariant forall j :: 0 <= j < buf.Length ==> buf[j] == if at <= j < at + i then s[j - at] else old(buf[j])
    {
      buf[at + i] := s[i];
    }
  }

  /** snprintf of `%*u` followed by the driver's overwriting of the terminator with `behind`. */
  method PutNumber(buf: array<char>, at: nat, width: nat, value: nat, behind: char)
    requires value < Power(10, width)
    requires at + width < buf.Length
    modifies buf
    ensures buf[..] == Splice(old(buf[..]), at, Pad(value, width) + [behind])
  {
    CopyInto(buf, at, Pad(value, width) + ['\0']);
    ghost var now := buf[..];
    buf[at + width] := behind;
    assert buf[..] == now[at + width := behind];
    SpliceLast(old(buf[..]), at, Pad(value, width), '\0', behind);
  }

  lemma SpliceLast(s: string, at: nat, t: string, c: char, d: char)
    requires at + |t| < |s|
    ensures Splice(s, at, t + [c])[at + |t| := d] == Splice(s, at, t + [d])
  {
  }
}

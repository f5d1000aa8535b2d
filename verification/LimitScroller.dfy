/**
 The forward-only LIMIT scroller: a query is executed window by window, the next window being
 requested when the rows of the current one run out.
 */
module LimitScroller {
  import opened OdbcCodes
  import opened Digits
  import opened LimitText

  /** The LIMIT clause found in a query, at query[begin..end]; an empty range means there is none. */
  datatype LimitClause = LimitClause(offset: nat, rowCount: nat, begin: nat, end: nat)

  ghost predicate ClauseOf(clause: LimitClause, query: string) {
    && clause.begin <= clause.end <= |query|
    && clause.offset < TWO63
    && clause.rowCount < TWO32
    && (clause.begin == clause.end ==> clause.offset == 0 && clause.rowCount == 0)
  }

  predicate Present(clause: LimitClause) {
    clause.begin != clause.end
  }

  /** Reinterpreting an unsigned 64-bit value as signed. */
  function ToLong(x: nat): (y: int)
    requires x < TWO64
    ensures -0x8000_0000_0000_0000 <= y < 0x8000_0000_0000_0000
    ensures y == x || y == x - 0x1_0000_0000_0000_0000
  {
    if x < TWO63 then x else x - TWO64
  }

  function Slice<T>(s: seq<T>, from: nat, count: nat): seq<T> {
    s[Min(from, |s|)..Min(from + count, |s|)]
  }

  // ---------------------------------------------------------------- window size

  /** The PREFETCH value rounded up to whole rowsets, before it is cut to 32 bits. */
  function Rounded(selected: nat, appFetches: nat): nat {
    if appFetches <= 1 || selected % appFetches == 0 then selected
    else appFetches * (selected / appFetches + 1)
  }

  function CalcPrefetch(selected: nat, appFetches: nat, maxRows: nat): nat
    requires selected < TWO32
  {
    if selected == 0 then 0
    else
      var first := if appFetches > 1 && appFetches > selected then appFetches % TWO32 else selected;
      var result := if appFetches > 1 && selected % appFetches > 0
                    then (appFetches * (selected / appFetches + 1)) % TWO32
                    else first;
      if maxRows > 0 && maxRows < result then maxRows else result
  }

  /** Windows hold whole rowsets and at least PREFETCH rows, unless max_rows or 32 bits cut them. */
  lemma PrefetchHoldsWholeRowsets(selected: nat, appFetches: nat, maxRows: nat)
    requires 0 < selected < TWO32 && 0 < appFetches
    ensures var result := CalcPrefetch(selected, appFetches, maxRows);
            Rounded(selected, appFetches) < TWO32 ==>
              && selected <= Rounded(selected, appFetches) < selected + appFetches
              && Rounded(selected, appFetches) % appFetches == 0
              && result == if maxRows > 0 then Min(maxRows, Rounded(selected, appFetches))
                           else Rounded(selected, appFetches)
  {
    RoundedUp(selected, appFetches);
    if appFetches > selected {
      SmallMod(selected, appFetches);
    }
  }

  lemma RoundedUp(selected: nat, appFetches: nat)
    requires 0 < appFetches
    ensures selected <= Rounded(selected, appFetches) < selected + appFetches
    ensures Rounded(selected, appFetches) % appFetches == 0
  {
    if appFetches > 1 && selected % appFetches != 0 {
      var q := selected / appFetches;
      NextMultiple(selected, q, appFetches);
      MultipleMod(q + 1, appFetches);
    }
  }

  lemma NextMultiple(x: nat, q: nat, a: nat)
    requires a > 0 && q == x / a && x % a != 0
    ensures x < a * (q + 1) < x + a
  {
    assert x == q * a + x % a;
    assert a * (q + 1) == q * a + a;
  }

  lemma MultipleMod(q: nat, a: nat)
    requires a > 0
    ensures (a * q) % a == 0
  {
    var x := a * q;
    var q', r := x / a, x % a;
    assert a * q == a * q' + r;
    if q < q' {
      TimesGrows(a, q + 1, q');
    } else if q' < q {
      TimesGrows(a, q' + 1, q);
    }
  }

  lemma TimesGrows(a: nat, p: nat, q: nat)
    requires p <= q
    ensures a * p <= a * q
  {
    assert a * q == a * p + a * (q - p);
  }

  lemma SmallMod(x: nat, a: nat)
    requires x < a
    ensures x % a == x
  {
  }

  /** The window size is zero exactly when the rounded PREFETCH is a multiple of 2^32. */
  lemma PrefetchIsZero(selected: nat, appFetches: nat, maxRows: nat)
    requires 0 < selected < TWO32 && 0 < appFetches
    ensures CalcPrefetch(selected, appFetches, maxRows) == 0 <==> Rounded(selected, appFetches) % TWO32 == 0
  {
    if appFetches > 1 && appFetches > selected {
      SmallMod(selected, appFetches);
    }
  }

  // ---------------------------------------------------------------- the simple form

  /** One plain execution: LIMIT's offset, then the smaller of LIMIT's count and max_rows. */
  function Plain<Row>(rows: seq<Row>, clause: LimitClause, maxRows: nat): seq<Row> {
    var rest := rows[Min(clause.offset, |rows|)..];
    var limited := if Present(clause) then rest[..Min(clause.rowCount, |rest|)] else rest;
    if maxRows > 0 then limited[..Min(maxRows, |limited|)] else limited
  }

  /** The rows behind the offset, as many as the count, max_rows and the end of the result allow. */
  lemma PlainSpelled<Row>(rows: seq<Row>, clause: LimitClause, maxRows: nat)
    ensures var plain, limited := Plain(rows, clause, maxRows), clause.begin != clause.end;
            && (forall k :: 0 <= k < |plain| ==> clause.offset + k < |rows| && plain[k] == rows[clause.offset + k])
            && (limited ==> |plain| <= clause.rowCount) && (maxRows != 0 ==> |plain| <= maxRows)
            && (|| clause.offset + |plain| >= |rows|
                || (limited && |plain| == clause.rowCount)
                || (maxRows != 0 && |plain| == maxRows))
  {
  }

  function TotalRows(clause: LimitClause, maxRows: nat): nat {
    if !Present(clause) then maxRows
    else if maxRows > 0 then Min(clause.rowCount, maxRows)
    else clause.rowCount
  }

  function WindowSize(clause: LimitClause, selected: nat, appFetches: nat, maxRows: nat): nat
    requires selected < TWO32
  {
    Limited(clause, CalcPrefetch(selected, appFetches, maxRows), maxRows)
  }

  /** A window of a query with a LIMIT clause is not larger than the result. */
  function Limited(clause: LimitClause, size: nat, maxRows: nat): nat {
    if Present(clause) && size > TotalRows(clause, maxRows) then TotalRows(clause, maxRows) else size
  }

  /** The rows the windows cover together. */
  function Covered<Row>(rows: seq<Row>, start: nat, total: nat, size: nat): seq<Row> {
    var rest := rows[Min(start, |rows|)..];
    if size == 0 then [] else if total == 0 then rest else rest[..Min(total, |rest|)]
  }

  /**
   The windows cover exactly what a plain execution returns, unless the window size was truncated
   to zero; then they cover nothing.
   */
  lemma CoveredIsPlain<Row>(rows: seq<Row>, clause: LimitClause, selected: nat, appFetches: nat, maxRows: nat)
    requires 0 < selected < TWO32 && 0 < appFetches
    requires !Present(clause) ==> clause.offset == 0
    ensures var covered := Covered(rows, clause.offset, TotalRows(clause, maxRows),
                                   WindowSize(clause, selected, appFetches, maxRows));
            covered == Plain(rows, clause, maxRows)
            <==> Rounded(selected, appFetches) % TWO32 != 0 || Plain(rows, clause, maxRows) == []
  {
    PrefetchIsZero(selected, appFetches, maxRows);
    var rest := rows[Min(clause.offset, |rows|)..];
    if Present(clause) && clause.rowCount == 0 {
      assert Plain(rows, clause, maxRows) == [];
    } else if Present(clause) && maxRows > 0 {
      assert rest[..Min(clause.rowCount, |rest|)][..Min(maxRows, Min(clause.rowCount, |rest|))]
          == rest[..Min(TotalRows(clause, maxRows), |rest|)];
    }
  }

  /** PREFETCH = 2^32 - 1 with a rowset of two rows gives windows of size zero: nothing is delivered. */
  lemma HugePrefetchDeliversNothing<Row>(rows: seq<Row>, clause: LimitClause, maxRows: nat)
    requires !Present(clause) && clause.offset == 0 && rows != [] && maxRows == 0
    ensures WindowSize(clause, 4294967295, 2, maxRows) == 0
    ensures Covered(rows, 0, 0, WindowSize(clause, 4294967295, 2, maxRows)) != Plain(rows, clause, maxRows)
  {
    assert 2 * ((TWO32 - 1) / 2 + 1) == TWO32;
  }

  /**
   A window as the server cuts it is the same window of the covered rows; the count sent is the
   window size, or what is left where the window reaches the end of a limited result.
   */
  lemma WindowOfCovered<Row>(rows: seq<Row>, start: nat, total: nat, size: nat, from: nat, count: nat)
    requires start <= from
    requires total > 0 ==> size <= total
    requires if total > 0 && from + size >= total + start then count == total - (from - start) else count == size
    ensures Slice(rows, from, count) == Slice(Covered(rows, start, total, size), from - start, size)
  {
    if size > 0 {
      SliceOfRest(rows, start, from, count);
      if total > 0 {
        SliceOfCut(rows[Min(start, |rows|)..], total, from - start, size, count);
      }
    }
  }

  lemma SliceOfRest<Row>(rows: seq<Row>, start: nat, from: nat, count: nat)
    requires start <= from
    ensures Slice(rows, from, count) == Slice(rows[Min(start, |rows|)..], from - start, count)
  {
    if start <= |rows| {
      var a, b := Min(from, |rows|), Min(from + count, |rows|);
      assert rows[start..][a - start..b - start] == rows[a..b];
    }
  }

  lemma SliceOfCut<Row>(rest: seq<Row>, total: nat, from: nat, size: nat, count: nat)
    requires if from + size >= total then count == total - from else count == size
    ensures Slice(rest, from, count) == Slice(rest[..Min(total, |rest|)], from, size)
  {
    var cut := rest[..Min(total, |rest|)];
    var a, b := Min(from, |cut|), Min(from + size, |cut|);
    assert a == Min(from, |rest|) && b == Min(from + count, |rest|);
    assert cut[a..b] == rest[a..b];
  }

  // ---------------------------------------------------------------- the scroller object

  /** The unsigned subtraction of scroller_prefetch gives the signed difference. */
  lemma CountLeft(total: nat, start: nat)
    requires total < TWO64 && start < TWO63 && total - start < TWO63
    ensures ToLong((total - start) % TWO64) == total - start
  {
  }

  /** The offset field before the first move: a stray terminator and blanks. */
  function OffsetField(offset: int): (s: string)
    ensures |s| == OFFSET_WIDTH
  {
    if offset < 0 then "\0" + Spaces(OFFSET_WIDTH - 1) else Pad(offset, OFFSET_WIDTH)
  }

  lemma AppendToBlanks(a: string, t: string, k: nat)
    requires |t| <= k
    ensures Splice(a + Spaces(k), |a|, t) == a + t + Spaces(k - |t|)
  {
  }

  lemma MoreBlanks(a: string, j: nat, k: nat)
    ensures a + Spaces(j + k) == (a + Spaces(j)) + Spaces(k)
  {
  }

  /** Copies t behind the text a of a buffer that is blank from there on. */
  method Append(buf: array<char>, ghost a: string, at: nat, t: string)
    requires at == |a| && at + |t| <= buf.Length
    requires buf[..] == a + Spaces(buf.Length - |a|)
    modifies buf
    ensures buf[..] == (a + t) + Spaces(buf.Length - |a + t|)
  {
    AppendToBlanks(a, t, buf.Length - |a|);
    CopyInto(buf, at, t);
  }

  method AppendNumber(buf: array<char>, ghost a: string, at: nat, width: nat, value: nat)
    requires at == |a| && at + width < buf.Length && value < Power(10, width)
    requires buf[..] == a + Spaces(buf.Length - |a|)
    modifies buf
    ensures buf[..] == (a + Pad(value, width)) + Spaces(buf.Length - |a + Pad(value, width)|)
  {
    ghost var t := Pad(value, width);
    AppendToBlanks(a, t + [' '], buf.Length - |a|);
    PutNumber(buf, at, width, value, ' ');
    MoreBlanks(a + t, 1, buf.Length - |a| - width - 1);
    assert a + (t + [' ']) == (a + t) + Spaces(1);
  }

  /** Fills a blank buffer with the query text, piece by piece. */
  method CreateText(buf: array<char>, head: string, tail: string, rowCount: nat, queryLen: nat)
    requires buf.Length == queryLen + 1 && |head| + 39 + |tail| <= queryLen
    requires buf[..] == Spaces(queryLen + 1)
    requires rowCount < TWO32
    modifies buf
    ensures buf[..] == Layout(head, OffsetField(-1), Pad(rowCount, COUNT_WIDTH), tail, queryLen) + "\0"
  {
    FieldsAreWideEnough();
    var n := queryLen + 1;
    assert buf[..] == "" + Spaces(n);
    Append(buf, "", 0, head);
    assert "" + head == head;
    Append(buf, head, |head|, " LIMIT \0");
    ghost var a := head + " LIMIT \0";
    MoreBlanks(a, OFFSET_WIDTH - 1, n - |head| - 8 - (OFFSET_WIDTH - 1));
    ghost var b := a + Spaces(OFFSET_WIDTH - 1);
    Append(buf, b, |head| + 7 + OFFSET_WIDTH, ",");
    AppendNumber(buf, b + ",", |head| + 8 + OFFSET_WIDTH, COUNT_WIDTH, rowCount);
    ghost var c := b + "," + Pad(rowCount, COUNT_WIDTH);
    Append(buf, c, |head| + 8 + OFFSET_WIDTH + COUNT_WIDTH, tail);
    ghost var d := c + tail;
    ghost var now := buf[..];
    buf[queryLen] := '\0';
    assert buf[..] == now[queryLen := '\0'];
    LastBlank(d, n - |d|);
    CreatedLayout(head, Pad(rowCount, COUNT_WIDTH), tail, queryLen);
  }

  lemma LastBlank(d: string, k: nat)
    requires k > 0
    ensures (d + Spaces(k))[|d| + k - 1 := '\0'] == d + Spaces(k - 1) + "\0"
  {
  }

  lemma CreatedLayout(head: string, c: string, tail: string, len: nat)
    requires |c| == COUNT_WIDTH && |head| + 39 + |tail| <= len
    ensures var d := head + " LIMIT \0" + Spaces(OFFSET_WIDTH - 1) + "," + c + tail;
            Layout(head, OffsetField(-1), c, tail, len) == d + Spaces(len - |d|)
  {
    assert head + " LIMIT \0" + Spaces(OFFSET_WIDTH - 1) == head + " LIMIT " + OffsetField(-1);
  }

  /** What the server makes of the bytes sent. */
  lemma SentText(head: string, offset: nat, count: nat, tail: string, len: nat, text: string)
    requires offset < TWO64 && count < TWO32 && |head| + 39 + |tail| <= len && '\0' !in head && CleanTail(tail)
    requires text == Layout(head, Pad(offset, OFFSET_WIDTH), Pad(count, COUNT_WIDTH), tail, len)
    ensures Decode(text, |head|) == Some(Window(offset, count))
    ensures Behind(text, |head|) == tail + Spaces(len - (|head| + 38 + |tail|))
  {
    DecodesToWindow(head, offset, count, tail, len);
    BehindIsTail(head, Pad(offset, OFFSET_WIDTH), Pad(count, COUNT_WIDTH), tail, len);
  }

  /** MY_LIMIT_SCROLLER: the query buffer with its LIMIT fields, and the window arithmetic. */
  class Scroller {
    const buf: array<char>
    const queryLen: nat
    const offsetPos: nat
    const rowCount: nat
    const startOffset: nat
    const totalRows: nat
    var nextOffset: nat

    /** The query before and behind its LIMIT clause, and the numbers now in the fields. */
    ghost const head: string
    ghost const suffix: string
    /** The count has been rewritten, which blanks the first byte of the suffix. */
    ghost var cut: bool
    ghost var offset: int
    ghost var count: nat

    /** The text now behind the count field. */
    ghost function Tail(): string
      reads `cut
    {
      if cut then Blanked(suffix) else suffix
    }

    /** The bytes of the buffer. */
    ghost function Text(): (text: string)
      requires |head| + 39 + |suffix| <= queryLen
      reads this
      ensures |text| == queryLen + 1
    {
      Layout(head, OffsetField(offset), Pad(count, COUNT_WIDTH), Tail(), queryLen) + "\0"
    }

    ghost predicate Valid()
      reads this, buf
    {
      && |head| + 7 == offsetPos
      && |head| + 39 + |suffix| <= queryLen
      && buf.Length == queryLen + 1
      && '\0' !in head && CleanTail(suffix)
      && forall k :: 0 <= k < buf.Length ==> buf[k] == Text()[k]
    }

    /** Sizes the driver's integer types give. */
    ghost predicate Sizes() {
      && rowCount < TWO32
      && startOffset < TWO63
      && totalRows < TWO64
      && (startOffset > 0 ==> totalRows < TWO32)
      && (totalRows > 0 ==> rowCount <= totalRows)
    }

    /** Where the window last put into the query starts, counted from the start of the result. */
    ghost function WindowStart(): int
      reads this
    {
      nextOffset - rowCount - startOffset
    }

    /**
     scroller_reset and scroller_create for a query with its LIMIT clause found. The tail may not
     start with a digit: what follows the count in the query was not part of the number.
     */
    constructor (query: string, clause: LimitClause, maxRows: nat, windowSize: nat)
      requires ClauseOf(clause, query) && maxRows < TWO64 && windowSize < TWO32
      requires '\0' !in query && CleanTail(query[clause.end..])
      ensures Valid() && fresh(buf)
      ensures head == query[..clause.begin] && suffix == query[clause.end..] && !cut
      ensures queryLen == |query| + 39
      ensures startOffset == nextOffset == clause.offset
      ensures totalRows == TotalRows(clause, maxRows)
      ensures rowCount == count == if Present(clause) && windowSize > totalRows then totalRows else windowSize
    {
      startOffset := clause.offset;
      totalRows := TotalRows(clause, maxRows);
      rowCount := if Present(clause) && windowSize > TotalRows(clause, maxRows) then TotalRows(clause, maxRows)
                  else windowSize;
      nextOffset := clause.offset;
      queryLen := |query| + 7 + (OFFSET_WIDTH + 1) + (COUNT_WIDTH + 1);
      buf := new char[|query| + 7 + (OFFSET_WIDTH + 1) + (COUNT_WIDTH + 1) + 1](_ => ' ');
      offsetPos := clause.begin + 7;
      head, suffix, cut := query[..clause.begin], query[clause.end..], false;
      offset, count := -1, rowCount;
      new;
      CreateText(buf, query[..clause.begin], query[clause.end..], rowCount, queryLen);
      assert buf[..] == Text();
    }

    /** scroller_move: writes the next offset into the query and moves the window on. */
    method Move() returns (next: nat)
      requires Valid() && nextOffset < TWO64
      modifies buf, `nextOffset, `offset
      ensures Valid()
      ensures offset == old(nextOffset)
      ensures next == nextOffset == (old(nextOffset) + rowCount) % TWO64
      ensures old(nextOffset) + rowCount < TWO64 ==> nextOffset == old(nextOffset) + rowCount
    {
      PutOffset(nextOffset);
      nextOffset := (nextOffset + rowCount) % TWO64;
      next := nextOffset;
    }

    method PutOffset(value: nat)
      requires Valid() && value < TWO64
      modifies buf, `offset
      ensures Valid() && offset == value
    {
      FieldsAreWideEnough();
      assert buf[..] == Text();
      SpliceOffset(head, OffsetField(offset), Pad(value, OFFSET_WIDTH), Pad(count, COUNT_WIDTH), Tail(), queryLen);
      PutNumber(buf, offsetPos, OFFSET_WIDTH, value, ',');
      offset := value;
      assert buf[..] == Text();
    }

    method PutCount(value: nat)
      requires Valid() && value < TWO32
      modifies buf, `count, `cut
      ensures Valid() && count == value && cut
    {
      FieldsAreWideEnough();
      assert buf[..] == Text();
      SpliceCount(head, OffsetField(offset), Pad(count, COUNT_WIDTH), Pad(value, COUNT_WIDTH), Tail(), queryLen);
      BlankedTwice(suffix);
      PutNumber(buf, offsetPos + OFFSET_WIDTH + 1, COUNT_WIDTH, value, ' ');
      count := value;
      cut := true;
      assert buf[..] == Text();
    }

    /** The window last put into the query reaches the end of a limited result but does not lie behind it. */
    ghost predicate Reaches()
      reads this
    {
      totalRows > 0 && totalRows - rowCount <= WindowStart() < totalRows
    }

    /**
     The first half of scroller_prefetch: cuts the count where the window reaches the end of a
     limited result, and refuses a window behind that end.
     */
    method CutCount() returns (refused: bool)
      requires Valid() && Sizes()
      requires 0 <= WindowStart() < TWO63 && nextOffset < TWO64
      modifies buf, `count, `cut
      ensures Valid()
      ensures refused <==> totalRows > 0 && WindowStart() >= totalRows
      ensures count == if Reaches() then totalRows - WindowStart() else old(count)
      ensures cut == (old(cut) || Reaches())
    {
      refused := false;
      if totalRows > 0 && nextOffset >= (totalRows + startOffset) % TWO64 {
        CountLeft(totalRows, nextOffset - rowCount - startOffset);
        var left := ToLong((totalRows - (nextOffset - rowCount - startOffset)) % TWO64);
        if left > 0 {
          PutCount(left % TWO32);
        } else {
          refused := true;
        }
      }
    }

    /** What the server reads in the query_len bytes it is sent: the window, and the text behind it. */
    method Sent() returns (window: Option<Window>, behind: string)
      requires Valid() && 0 <= offset < TWO64 && count < TWO32
      ensures window == Some(Window(offset, count))
      ensures behind == Tail() + Spaces(queryLen - (|head| + 38 + |suffix|))
    {
      assert buf[..] == Text();
      assert buf[..queryLen] == Layout(head, OffsetField(offset), Pad(count, COUNT_WIDTH), Tail(), queryLen);
      SentText(head, offset, count, Tail(), queryLen, buf[..queryLen]);
      window := Decode(buf[..queryLen], offsetPos - 7);
      behind := Behind(buf[..queryLen], offsetPos - 7);
    }
  }
}

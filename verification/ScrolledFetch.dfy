/**
 SQLFetch on a statement with a LIMIT scroller: the window the server last returned, the read
 position in it, and the rows delivered to the application.
 */
module ScrolledFetch {
  import opened OdbcCodes
  import opened Digits
  import opened LimitText
  import opened LimitScroller

  /** A row position belongs to one stored result; that result is freed when the next window arrives. */
  datatype Position = Position(result: nat, index: nat)

  lemma TargetFits<Row>(rows: seq<Row>, start: nat, total: nat, size: nat, harmless: bool)
    ensures var target := Target(rows, start, total, size, harmless);
            && |target| <= |rows|
            && (total > 0 ==> |target| <= total)
            && (target != [] ==> start + |target| <= |rows| && size > 0)
  {
  }

  // ---------------------------------------------------------------- the request with the cut count

  /** From the window at `start` on, the window that reaches the end of a limited result. */
  function LastStart(total: nat, size: nat, start: nat): (last: nat)
    ensures start <= last
    ensures start < total ==> last < total
    ensures start < total && size > 0 ==> last + size >= total
    decreases total - start
  {
    if size == 0 || start + size >= total then start else LastStart(total, size, start + size)
  }

  /** It starts a whole number of windows on. */
  lemma {:induction false} LastStartIsOnGrid(total: nat, size: nat, start: nat) returns (k: nat)
    ensures LastStart(total, size, start) == start + k * size
    decreases total - start
  {
    if size == 0 || start + size >= total {
      k := 0;
    } else {
      var k' := LastStartIsOnGrid(total, size, start + size);
      k := k' + 1;
      assert k * size == size + k' * size;
    }
  }

  /**
   How many of the n covered rows are delivered: the window that reaches the end of a limited result
   is requested with a cut count and a blanked suffix, unless it is the first. If the server does not
   take that request, the rows from there on are lost.
   */
  function Delivered(n: nat, total: nat, size: nat, harmless: bool): (m: nat)
    ensures m <= n
  {
    if total == 0 || harmless || LastStart(total, size, 0) == 0 then n else Min(n, LastStart(total, size, 0))
  }

  /** All covered rows are delivered exactly when the cut request is taken, or never sent, or sent in vain. */
  lemma AllDelivered(n: nat, total: nat, size: nat, harmless: bool)
    ensures Delivered(n, total, size, harmless) == n
            <==> || total == 0 || harmless || LastStart(total, size, 0) == 0
                 || n <= LastStart(total, size, 0)
  {
  }

  /** The windows of a scroller start where window after window leads to the last one. */
  ghost predicate OnGrid(total: nat, size: nat, start: int) {
    0 <= start && (start < total ==> LastStart(total, size, start) == LastStart(total, size, 0))
  }

  lemma GridMoves(total: nat, size: nat, start: int)
    requires OnGrid(total, size, start)
    ensures OnGrid(total, size, start + size)
  {
  }

  /** A window that does not reach the end of the result ends where the last one starts, or before. */
  lemma BeforeLast(total: nat, size: nat, start: int)
    requires OnGrid(total, size, start) && size > 0
    requires start < total && start + size < total
    ensures start + size <= LastStart(total, size, 0)
  {
  }

  /** How many rows of a target of n rows fall into a window. */
  function WindowLength(n: nat, start: nat, size: nat): nat {
    Min(start + size, n) - Min(start, n)
  }

  /** The result has the length of the window at `start`, and `count` is good for the windows still to come. */
  ghost predicate LiveAt(n: nat, total: nat, size: nat, start: int, length: nat, count: nat) {
    && OnGrid(total, size, start)
    && length == WindowLength(n, start, size)
    && (count == size || (total > 0 && start + size >= total))
  }

  /**
   Reading on at `index` continues behind the delivered rows of a target of n rows: either the
   window is live, or a limited result has been used up or its last request been turned down, and
   every further window will be refused.
   */
  ghost predicate ContinuesAt(n: nat, total: nat, size: nat, start: int, length: nat, count: nat,
                              delivered: nat, overrun: nat, index: nat)
  {
    && index <= length <= Min(n, size)
    && delivered <= n
    && OnGrid(total, size, start)
    && (overrun == 0 ==> start <= n)
    && (overrun == 1 ==> start <= n + size)
    && (delivered < n ==> overrun == 0)
    && (|| (LiveAt(n, total, size, start, length, count) && delivered == Min(n, start + index))
        || (total > 0 && start + size >= total && delivered == n <= start && index == length))
  }

  /** A window read to its end before the target is: the next window starts right behind the delivered rows. */
  lemma WindowReadToEnd(n: nat, total: nat, size: nat, start: int, length: nat, count: nat, delivered: nat,
                        overrun: nat)
    requires ContinuesAt(n, total, size, start, length, count, delivered, overrun, length)
    requires n > 0 ==> size > 0
    requires total > 0 ==> n <= total
    ensures count == size || (total > 0 && start + size >= total)
    ensures delivered < n ==> start + size == delivered && !(total > 0 && start + size >= total)
  {
  }

  /** Every outcome of asking for the next window keeps the reading point. */
  lemma NextWindowContinues(n: nat, total: nat, size: nat, start: int, length: nat, count: nat,
                            delivered: nat, overrun: nat, length': nat, count': nat)
    requires ContinuesAt(n, total, size, start, length, count, delivered, overrun, length)
    requires n > 0 ==> size > 0
    requires total > 0 ==> n <= total
    ensures var over := if delivered < n then overrun else overrun + 1;
            && (total > 0 && start + size + size >= total && delivered == n <= start + size ==>
                  ContinuesAt(n, total, size, start + size, length, count', delivered, over, length))
            && (LiveAt(n, total, size, start + size, length', count') ==>
                  && ContinuesAt(n, total, size, start + size, length', count', delivered, over, 0)
                  && (delivered < n ==> length' > 0))
  {
    WindowReadToEnd(n, total, size, start, length, count, delivered, overrun);
    GridMoves(total, size, start);
  }

  /** The rows of the window are those of the target from `start` on. */
  ghost predicate Shows<Row>(window: seq<Row>, target: seq<Row>, start: int) {
    0 <= start && forall k :: 0 <= k < |window| ==> start + k < |target| && window[k] == target[start + k]
  }

  lemma SliceShows<Row>(target: seq<Row>, start: nat, size: nat)
    ensures Shows(Slice(target, start, size), target, start)
    ensures |Slice(target, start, size)| == WindowLength(|target|, start, size)
  {
  }

  /** The row at the reading point of a live window is the next row to deliver. */
  lemma RowAtPoint<Row>(target: seq<Row>, total: nat, size: nat, start: int, window: seq<Row>, count: nat,
                        delivered: nat, overrun: nat, index: nat)
    requires ContinuesAt(|target|, total, size, start, |window|, count, delivered, overrun, index)
    requires index < |window| && Shows(window, target, start)
    ensures delivered < |target| && window[index] == target[delivered]
    ensures ContinuesAt(|target|, total, size, start, |window|, count, delivered + 1, overrun, index + 1)
  {
  }

  /** The rows delivered of a result whose last request may be turned down. */
  function Target<Row>(rows: seq<Row>, first: nat, total: nat, size: nat, harmless: bool): (target: seq<Row>)
    ensures |target| == Delivered(|Covered(rows, first, total, size)|, total, size, harmless)
  {
    var covered := Covered(rows, first, total, size);
    covered[..Delivered(|covered|, total, size, harmless)]
  }

  /** What the server answers to a request it takes is the live window of the target. */
  lemma ServedIsLive<Row>(rows: seq<Row>, target: seq<Row>, first: nat, total: nat, size: nat, start: int, count: nat,
                          harmless: bool)
    requires OnGrid(total, size, start)
    requires target == Target(rows, first, total, size, harmless)
    requires total > 0 ==> size <= total
    requires count == if total > 0 && total - size <= start < total then total - start else size
    requires total > 0 ==> start < total
    requires harmless || !(total > 0 && start + size >= total) || start == 0
    ensures Shows(Slice(rows, first + start, count), target, start)
    ensures LiveAt(|target|, total, size, start, |Slice(rows, first + start, count)|, count)
  {
    var covered := Covered(rows, first, total, size);
    assert Slice(rows, first + start, count) == Slice(covered, start, size) by {
      WindowOfCovered(rows, first, total, size, first + start, count);
    }
    assert Slice(covered, start, size) == Slice(target, start, size) by {
      WindowOfTarget(covered, total, size, start, harmless);
    }
    SliceShows(target, start, size);
  }

  /** A window that is requested unharmed is the same window of the rows delivered. */
  lemma WindowOfTarget<Row>(covered: seq<Row>, total: nat, size: nat, start: nat, harmless: bool)
    requires OnGrid(total, size, start)
    requires total > 0 ==> start < total
    requires size == 0 ==> covered == []
    requires harmless || !(total > 0 && start + size >= total) || start == 0
    ensures Slice(covered, start, size) == Slice(covered[..Delivered(|covered|, total, size, harmless)], start, size)
  {
    var n := Delivered(|covered|, total, size, harmless);
    if n < |covered| {
      AllDelivered(|covered|, total, size, harmless);
      BeforeLast(total, size, start);
      SliceOfPrefix(covered, n, start, size);
    } else {
      assert covered[..n] == covered;
    }
  }

  lemma SliceOfPrefix<Row>(covered: seq<Row>, n: nat, start: nat, size: nat)
    requires start + size <= n <= |covered|
    ensures Slice(covered, start, size) == Slice(covered[..n], start, size)
  {
  }

  /** A request that is turned down asks for rows that are not delivered anyway. */
  lemma RequestedInVain<Row>(rows: seq<Row>, first: nat, total: nat, size: nat, start: int)
    requires OnGrid(total, size, start) && size > 0
    requires total > 0 && total - size <= start < total && start > 0
    ensures |Target(rows, first, total, size, false)| <= start
  {
  }

  /** The text behind the LIMIT clause of the query with a blanked suffix is taken by the server. */
  predicate TakesCut(query: string, clause: LimitClause, accepts: string -> bool)
    requires clause.begin <= clause.end <= |query|
  {
    var tail, padding := query[clause.end..], Spaces(clause.end - clause.begin + 1);
    Blanked(tail) + padding == tail + padding || accepts(Blanked(tail) + padding)
  }

  lemma OneMoreRow<Row>(target: seq<Row>, from: nat, end: nat)
    requires from < end <= |target|
    ensures target[from..end] == target[from..end - 1] + [target[end - 1]]
  {
  }

  class Statement<Row> {
    /** The rows of the query without its LIMIT clause, as the server would return them. */
    const rows: seq<Row>
    const scroller: Scroller
    /** The text behind the LIMIT clause of the query, and which other texts there the server takes for it. */
    const behind: string
    const accepts: string -> bool
    /** The rows the windows deliver together. */
    ghost const target: seq<Row>

    var window: seq<Row>
    var result: nat
    var pos: Position
    var endOfSet: Position
    var currentRow: nat
    var rowsFound: nat

    /** Rows delivered so far, windows requested past the last row, and whether SQL_NO_DATA was returned. */
    ghost var delivered: nat
    ghost var overrun: nat
    ghost var done: bool

    /** Bounds that never change. A row count is a signed 64-bit value in the driver. */
    ghost predicate Bounds() {
      && scroller.Sizes()
      && |rows| + 2 * TWO32 <= TWO63
      && |target| <= |rows|
      && (scroller.totalRows > 0 ==> |target| <= scroller.totalRows)
      && (target != [] ==> scroller.startOffset + |target| <= |rows| && scroller.rowCount > 0)
    }

    /** What never changes: bounds, the query's own suffix, and the target. */
    ghost predicate Fixed() {
      && Bounds()
      && behind == Padded(scroller.suffix)
      && forall harmless :: harmless == Harmless() ==>
           target == Target(rows, scroller.startOffset, scroller.totalRows, scroller.rowCount, harmless)
    }

    /** What stands behind the count field for a suffix. */
    ghost function Padded(tail: string): string {
      var k := scroller.queryLen - (|scroller.head| + 38 + |scroller.suffix|);
      if k >= 0 then tail + Spaces(k) else tail
    }

    predicate Takes(text: string) {
      text == behind || accepts(text)
    }

    /** The server takes the request with the blanked suffix. */
    ghost predicate Harmless() {
      Takes(Padded(Blanked(scroller.suffix)))
    }

    ghost function Start(): int
      reads scroller
    {
      scroller.WindowStart()
    }

    /** The current result is the window of the target the scroller points to. */
    ghost predicate Holds()
      reads this, scroller
    {
      Shows(window, target, Start())
    }

    ghost predicate Live()
      reads this, scroller
    {
      && Holds()
      && LiveAt(|target|, scroller.totalRows, scroller.rowCount, Start(), |window|, scroller.count)
    }

    /** Reading on from `p` continues behind the delivered rows, and p is not a position of a freed result. */
    ghost predicate Continues(p: Position)
      reads this, scroller
    {
      && p.result == result
      && ContinuesAt(|target|, scroller.totalRows, scroller.rowCount, Start(), |window|, scroller.count,
                     delivered, overrun, p.index)
      && (p.index < |window| ==> Holds())
      && UncutBeforeLast()
    }

    /** The count field holds the row count until the last window has been reached. */
    ghost predicate UncutBeforeLast()
      reads this, scroller
    {
      Uncut() || (scroller.totalRows > 0 && Start() + scroller.rowCount >= scroller.totalRows)
    }

    /** Where the next fetch will start reading. */
    ghost predicate Ready()
      reads this, scroller
    {
      && overrun <= 1
      && if delivered == 0 then Start() == 0 && Live() && Continues(Position(result, 0))
         else Continues(endOfSet)
    }

    ghost predicate Valid()
      reads this, scroller, scroller.buf
    {
      && scroller.Valid()
      && Fixed()
      && Reading()
    }

    /** The rows delivered so far, and a place to read on from until there is no more data. */
    ghost predicate Reading()
      reads this, scroller
    {
      && currentRow + rowsFound == delivered <= |target|
      && (!done ==> Ready())
    }

    /** Builds the windowed query, for a window size already chosen; nothing has been executed yet. */
    constructor (serverRows: seq<Row>, query: string, clause: LimitClause, windowSize: nat, maxRows: nat,
                 accepts: string -> bool)
      requires ClauseOf(clause, query) && '\0' !in query && CleanTail(query[clause.end..])
      requires windowSize < TWO32 && maxRows < TWO64 && (maxRows > 0 ==> windowSize <= maxRows)
      requires |serverRows| + 2 * TWO32 <= TWO63
      ensures fresh(scroller) && fresh(scroller.buf)
      ensures scroller.Valid() && Fixed() && Start() == 0 && Uncut()
      ensures scroller.offset == scroller.startOffset
      ensures rows == serverRows
      ensures target == Target(serverRows, clause.offset, TotalRows(clause, maxRows),
                               Limited(clause, windowSize, maxRows), TakesCut(query, clause, accepts))
      ensures currentRow == rowsFound == delivered == overrun == 0 && !done
    {
      rows := serverRows;
      this.accepts := accepts;
      var s := new Scroller(query, clause, maxRows, windowSize);
      var next := s.Move();
      scroller := s;
      behind := query[clause.end..] + Spaces(clause.end - clause.begin + 1);
      target := Target(serverRows, clause.offset, TotalRows(clause, maxRows),
                       Limited(clause, windowSize, maxRows), TakesCut(query, clause, accepts));
      window, result, pos, endOfSet := [], 0, Position(0, 0), Position(0, 0);
      currentRow, rowsFound := 0, 0;
      delivered, overrun, done := 0, 0, false;
      new;
      assert behind == Padded(scroller.suffix);
      assert Harmless() == TakesCut(query, clause, accepts);
      TargetFits(rows, scroller.startOffset, scroller.totalRows, scroller.rowCount, Harmless());
    }

    /** Executes the windowed query for the first time. */
    method FirstWindow()
      requires scroller.Valid() && Fixed() && Start() == 0
      requires scroller.offset == scroller.startOffset && Uncut()
      requires currentRow == rowsFound == delivered == overrun == 0
      modifies `window, `result, `pos
      ensures Valid()
    {
      var ret := Execute();
      ServedIsLive(rows, target, scroller.startOffset, scroller.totalRows, scroller.rowCount, 0, scroller.count,
                   Harmless());
    }

    /**
     Sends the query; the server answers with the rows of the window it reads there, if it takes the
     text behind the LIMIT clause.
     */
    method Execute() returns (ret: Ret)
      requires scroller.Valid() && 0 <= scroller.offset < TWO64 && scroller.count < TWO32
      modifies `window, `result, `pos
      ensures ret == if Takes(Padded(scroller.Tail())) then Success else Error
      ensures ret == Success ==> window == Slice(rows, scroller.offset, scroller.count)
      ensures ret == Success ==> result == old(result) + 1 && pos == Position(result, 0)
      ensures ret == Error ==> window == old(window) && result == old(result) && pos == old(pos)
    {
      var sent, text := scroller.Sent();
      if sent == None || !Takes(text) {
        return Error;
      }
      window := Slice(rows, sent.value.offset, sent.value.count);
      result := result + 1;
      pos := Position(result, 0);
      return Success;
    }

    /** The count field still holds the row count. */
    ghost predicate Uncut()
      reads scroller
    {
      scroller.count == scroller.rowCount && !scroller.cut
    }

    /** What a request for the window at the current start comes to. */
    ghost function Answer(): Ret
      reads scroller
    {
      if scroller.totalRows > 0 && Start() >= scroller.totalRows then NoData
      else if scroller.Reaches() && !Harmless() then Error
      else Success
    }

    /** The scroller points past all rows of the target, and no further window will be delivered. */
    ghost predicate UsedUp()
      reads this, scroller
    {
      && scroller.totalRows > 0
      && Start() + scroller.rowCount >= scroller.totalRows
      && |target| <= Start()
    }

    /** A request that is not answered is one for rows that are not delivered. */
    lemma Unanswered()
      requires Fixed() && OnGrid(scroller.totalRows, scroller.rowCount, Start()) && Start() > 0
      requires Answer() != Success
      ensures UsedUp()
    {
      if Answer() == Error {
        RequestedInVain(rows, scroller.startOffset, scroller.totalRows, scroller.rowCount, Start());
      }
    }

    /**
     scroller_prefetch: requests the window the last move has put into the query. SQL_NO_DATA behind
     the end of a limited result; SQL_ERROR if cutting the count has spoilt the query.
     */
    method Prefetch() returns (ret: Ret)
      requires scroller.Valid() && Fixed() && OnGrid(scroller.totalRows, scroller.rowCount, Start())
      requires 0 <= Start() < TWO63 && scroller.nextOffset < TWO64
      requires scroller.offset == Start() + scroller.startOffset
      requires (scroller.totalRows > 0 && Start() >= scroller.totalRows) || Uncut()
      modifies `window, `result, `pos, scroller.buf, scroller`count, scroller`cut
      ensures scroller.Valid() && ret == Answer() && UncutBeforeLast()
      ensures ret == Success ==> Live() && result == old(result) + 1 && pos == Position(result, 0)
      ensures ret != Success ==> window == old(window) && result == old(result) && pos == old(pos)
    {
      var refused := scroller.CutCount();
      if refused {
        return NoData;
      }
      ret := Execute();
      if ret == Success {
        AnsweredIsLive();
      }
    }

    /** A window served for the numbers now in the query is live. */
    lemma AnsweredIsLive()
      requires Fixed() && OnGrid(scroller.totalRows, scroller.rowCount, Start())
      requires scroller.offset == Start() + scroller.startOffset && Answer() == Success
      requires scroller.count == if scroller.Reaches() then scroller.totalRows - Start() else scroller.rowCount
      requires window == Slice(rows, scroller.offset, scroller.count)
      ensures Live()
    {
      ServedIsLive(rows, target, scroller.startOffset, scroller.totalRows, scroller.rowCount, Start(), scroller.count,
                   Harmless());
    }

    /** mysql_fetch_row: None behind the last row; only the current result may be read. */
    method FetchRow() returns (row: Option<Row>)
      requires pos.result == result && pos.index <= |window|
      modifies `pos
      ensures if old(pos.index) == |window| then row == None && pos == old(pos)
              else row == Some(window[old(pos.index)]) && pos == Position(result, old(pos.index) + 1)
    {
      if pos.index == |window| {
        return None;
      }
      row := Some(window[pos.index]);
      pos := Position(pos.result, pos.index + 1);
    }

    /** scroller_move and scroller_prefetch, one after the other. */
    method MoveAndPrefetch() returns (ret: Ret)
      requires scroller.Valid() && Fixed() && OnGrid(scroller.totalRows, scroller.rowCount, Start())
      requires 0 <= Start() <= |target| + scroller.rowCount
      requires UncutBeforeLast()
      modifies `window, `result, `pos
      modifies scroller.buf, scroller`nextOffset, scroller`offset, scroller`count, scroller`cut
      ensures scroller.Valid()
      ensures Start() == old(Start()) + scroller.rowCount
      ensures if ret == Success then Live() else UsedUp()
      ensures ret == Success ==> pos == Position(result, 0)
      ensures ret != Success ==> window == old(window) && result == old(result) && pos == old(pos)
      ensures UncutBeforeLast()
    {
      GridMoves(scroller.totalRows, scroller.rowCount, Start());
      var next := scroller.Move();
      ret := Prefetch();
      if ret != Success {
        Unanswered();
      }
    }

    /**
     Behind the end of the current window: moves on and asks for the next one. Rows are lost by an
     SQL_ERROR here only if they are not part of the target.
     */
    method NextWindow() returns (ret: Ret)
      requires scroller.Valid() && Fixed() && Continues(pos) && overrun <= 1 && pos.index == |window|
      modifies `window, `result, `pos, `overrun
      modifies scroller.buf, scroller`nextOffset, scroller`offset, scroller`count, scroller`cut
      ensures scroller.Valid() && Continues(pos)
      ensures overrun == if delivered < |target| then old(overrun) else old(overrun) + 1
      ensures delivered < |target| ==> ret == Success && pos.index < |window|
      ensures ret == Success || pos == old(pos)
    {
      var total, size := scroller.totalRows, scroller.rowCount;
      ghost var n, start, length, count := |target|, Start(), |window|, scroller.count;
      WindowReadToEnd(n, total, size, start, length, count, delivered, overrun);
      GridMoves(total, size, start);
      ret := MoveAndPrefetch();
      NextWindowContinues(n, total, size, start, length, count, delivered, overrun, |window|, scroller.count);
      if delivered == |target| {
        overrun := overrun + 1;
      }
    }

    /** Reads the row at the read position of the current window. */
    method TakeRow() returns (row: Row)
      requires Continues(pos) && pos.index < |window|
      modifies `pos, `delivered
      ensures Continues(pos)
      ensures old(delivered) < |target| && row == target[old(delivered)] && delivered == old(delivered) + 1
    {
      RowAtPoint(target, scroller.totalRows, scroller.rowCount, Start(), window, scroller.count, delivered, overrun,
                 pos.index);
      var fetched := FetchRow();
      row := fetched.value;
      delivered := delivered + 1;
    }

    /**
     The fetching step of SQLExtendedFetch: a row of the current window, or, when that has run out,
     the first row of the next one. `renewed` tells that another window has been requested.
     */
    method NextRow() returns (row: Option<Row>, renewed: bool)
      requires scroller.Valid() && Fixed() && Continues(pos) && overrun <= 1
      modifies `window, `result, `pos, `overrun, `delivered
      modifies scroller.buf, scroller`nextOffset, scroller`offset, scroller`count, scroller`cut
      ensures scroller.Valid() && Continues(pos)
      ensures if old(delivered) < |target|
              then row == Some(target[old(delivered)]) && delivered == old(delivered) + 1 && overrun == old(overrun)
              else row == None && delivered == old(delivered) && overrun == old(overrun) + 1
    {
      renewed := false;
      if pos.index == |window| {
        renewed := true;
        var ret := NextWindow();
        if ret != Success || pos.index == |window| {
          return None, renewed;
        }
      }
      var next := TakeRow();
      row := Some(next);
    }

    /**
     compute_cur_row for SQL_FETCH_NEXT: continues at the saved position, or at the start of the
     first window. Reading forwards never gets in front of the scroller, so it is not moved here.
     */
    method SeekNext()
      requires Bounds() && Reading() && !done && scroller.nextOffset < TWO64
      modifies `pos, `currentRow
      ensures Continues(pos) && currentRow == delivered && Ready()
    {
      var maxRow := ToLong(if scroller.nextOffset > 0 then scroller.nextOffset - scroller.rowCount + |window|
                           else |window|);
      var curRow := currentRow + rowsFound;
      if curRow > maxRow {
        assert false;
      }
      if curRow != 0 && curRow == currentRow + rowsFound {
        pos := endOfSet;
      } else {
        pos := Position(result, curRow);
      }
      currentRow := curRow;
    }

    /** The fetching cycle; `savePosition` is the position the result is reset to afterwards. */
    method ReadRowset(size: nat) returns (fetched: seq<Row>, savePosition: Position)
      requires scroller.Valid() && Fixed() && Continues(pos) && overrun <= 1
      modifies `window, `result, `pos, `overrun, `delivered
      modifies scroller.buf, scroller`nextOffset, scroller`offset, scroller`count, scroller`cut
      ensures scroller.Valid() && Continues(pos)
      ensures delivered == Min(old(delivered) + size, |target|)
      ensures fetched == target[old(delivered)..delivered]
      ensures overrun == old(overrun) + if delivered < old(delivered) + size then 1 else 0
    {
      ghost var from, over := delivered, overrun;
      fetched := [];
      savePosition := pos;
      var i, more := 0, true;
      while i < size && more
        invariant 0 <= i <= size
        invariant scroller.Valid()
        invariant Continues(pos)
        invariant delivered == from + i <= |target|
        invariant overrun == over + if more then 0 else 1
        invariant !more ==> i < size && delivered == |target|
        invariant fetched == target[from..delivered]
        decreases size - i, more
      {
        var renewed;
        fetched, renewed, more := AddRow(fetched, from);
        savePosition := if more && renewed then pos else savePosition;
        i := i + if more then 1 else 0;
      }
    }

    /** Fetches one more row, if there is one, and fills it in. */
    method AddRow(rowset: seq<Row>, ghost from: nat) returns (fetched: seq<Row>, renewed: bool, more: bool)
      requires scroller.Valid() && Fixed() && Continues(pos) && overrun <= 1
      requires from <= delivered <= |target| && rowset == target[from..delivered]
      modifies `window, `result, `pos, `overrun, `delivered
      modifies scroller.buf, scroller`nextOffset, scroller`offset, scroller`count, scroller`cut
      ensures scroller.Valid() && Continues(pos)
      ensures more == (old(delivered) < |target|)
      ensures delivered == old(delivered) + if more then 1 else 0
      ensures overrun == old(overrun) + if more then 0 else 1
      ensures delivered <= |target| && fetched == target[from..delivered]
    {
      fetched := rowset;
      var row;
      row, renewed := NextRow();
      more := row != None;
      if more {
        OneMoreRow(target, from, delivered);
        fetched := fetched + [row.value];
      }
    }

    /**
     SQLFetch with a rowset of `size` rows, every row converting without error: the next rows of the
     target, SQL_NO_DATA when there are none.
     */
    method Fetch(size: nat) returns (ret: Ret, fetched: seq<Row>)
      requires Valid() && !done
      modifies this, scroller, scroller.buf
      ensures Valid()
      ensures delivered == Min(old(delivered) + size, |target|)
      ensures fetched == target[old(delivered)..delivered]
      ensures ret == if fetched == [] then NoData else Success
      ensures done == (size > 0 && fetched == [])
    {
      SeekNext();
      if size == 0 {
        rowsFound := 0;
        return NoData, [];
      }
      fetched := FetchRows(size);
      ret := if fetched == [] then NoData else Success;
    }

    /** The part of SQLFetch behind the seek. */
    method FetchRows(size: nat) returns (fetched: seq<Row>)
      requires scroller.Valid() && Fixed() && Continues(pos) && overrun <= 1
      requires currentRow == delivered && size > 0
      modifies this, scroller, scroller.buf
      ensures scroller.Valid() && Reading()
      ensures delivered == Min(old(delivered) + size, |target|)
      ensures fetched == target[old(delivered)..delivered]
      ensures done == (fetched == [])
    {
      var savePosition;
      fetched, savePosition := ReadRowset(size);
      ResetPosition(|fetched|, savePosition);
    }

    /** The end of a fetch: remembers where the rowset ended and resets the result position. */
    method ResetPosition(count: nat, savePosition: Position)
      requires Continues(pos)
      requires currentRow + count == delivered <= |target| && (count > 0 ==> overrun <= 1)
      modifies `rowsFound, `endOfSet, `pos, `done
      ensures Reading() && done == (count == 0)
    {
      rowsFound := count;
      endOfSet := pos;
      pos := savePosition;
      done := count == 0;
    }
  }

  /** do_query with a scroller: chooses the window size from PREFETCH and the rowset size. */
  method DoQuery<Row>(rows: seq<Row>, query: string, clause: LimitClause, prefetch: nat, arraySize: nat, maxRows: nat,
                      accepts: string -> bool)
    returns (stmt: Statement<Row>)
    requires ClauseOf(clause, query) && '\0' !in query && CleanTail(query[clause.end..])
    requires 0 < prefetch < TWO32 && maxRows < TWO64
    requires |rows| + 2 * TWO32 <= TWO63
    ensures fresh(stmt) && fresh(stmt.scroller) && fresh(stmt.scroller.buf)
    ensures stmt.Valid() && stmt.rows == rows && stmt.delivered == 0 && !stmt.done
    ensures stmt.target == Target(rows, clause.offset, TotalRows(clause, maxRows),
                                  WindowSize(clause, prefetch, arraySize, maxRows), TakesCut(query, clause, accepts))
  {
    var windowSize := CalcPrefetch(prefetch, arraySize, maxRows);
    stmt := new Statement(rows, query, clause, windowSize, maxRows, accepts);
    stmt.FirstWindow();
  }

  /** Calls SQLFetch until it returns SQL_NO_DATA, with a rowset size of its own for every call. */
  method FetchAll<Row>(stmt: Statement<Row>, sizes: nat -> nat) returns (all: seq<Row>)
    requires stmt.Valid() && !stmt.done && stmt.delivered == 0
    requires forall k :: sizes(k) > 0
    modifies stmt, stmt.scroller, stmt.scroller.buf
    ensures all == stmt.target
  {
    all := [];
    var k := 0;
    while true
      invariant stmt.Valid() && !stmt.done
      invariant all == stmt.target[..stmt.delivered]
      decreases |stmt.target| - stmt.delivered
    {
      var ret, fetched := stmt.Fetch(sizes(k));
      if ret == NoData {
        return;
      }
      all := all + fetched;
      k := k + 1;
    }
  }

  /**
   A query executed through the scroller and fetched to the end delivers a beginning of the rows of
   one plain execution, in order, without gap, repetition or overrun. It delivers all of them exactly
   when the window size, cut to 32 bits, is not zero, and the request with the cut count is taken by
   the server, or is never sent, or is sent when all rows have been delivered.
   */
  method RunScrolled<Row>(rows: seq<Row>, query: string, clause: LimitClause, prefetch: nat, arraySize: nat,
                          maxRows: nat, accepts: string -> bool, sizes: nat -> nat)
    returns (all: seq<Row>)
    requires ClauseOf(clause, query) && '\0' !in query && CleanTail(query[clause.end..])
    requires 0 < prefetch < TWO32 && 0 < arraySize && maxRows < TWO64
    requires |rows| + 2 * TWO32 <= TWO63
    requires forall k :: sizes(k) > 0
    ensures all <= Plain(rows, clause, maxRows)
    ensures all == Plain(rows, clause, maxRows)
            <==> || Plain(rows, clause, maxRows) == []
                 || (&& Rounded(prefetch, arraySize) % TWO32 != 0
                     && NothingLost(|Plain(rows, clause, maxRows)|, query, clause, prefetch, arraySize, maxRows,
                                    accepts))
  {
    var stmt := DoQuery(rows, query, clause, prefetch, arraySize, maxRows, accepts);
    all := FetchAll(stmt, sizes);
    ghost var total, size := TotalRows(clause, maxRows), WindowSize(clause, prefetch, arraySize, maxRows);
    CoveredIsPlain(rows, clause, prefetch, arraySize, maxRows);
    PrefetchIsZero(prefetch, arraySize, maxRows);
    AllDelivered(|Covered(rows, clause.offset, total, size)|, total, size, TakesCut(query, clause, accepts));
  }

  /** No row of a result of n rows is lost by cutting the count of the last request. */
  predicate NothingLost(n: nat, query: string, clause: LimitClause, prefetch: nat, arraySize: nat, maxRows: nat,
                        accepts: string -> bool)
    requires clause.begin <= clause.end <= |query| && prefetch < TWO32
  {
    var total := TotalRows(clause, maxRows);
    var last := LastStart(total, WindowSize(clause, prefetch, arraySize, maxRows), 0);
    total == 0 || last == 0 || n <= last || TakesCut(query, clause, accepts)
  }

  /** A suffix that is empty or starts with a blank is not damaged. */
  lemma BlankSuffixIsSafe(query: string, clause: LimitClause, accepts: string -> bool)
    requires clause.begin <= clause.end <= |query|
    requires clause.end == |query| || query[clause.end] == ' '
    ensures TakesCut(query, clause, accepts)
  {
    SuffixKept(query[clause.end..]);
  }

  /**
   A LIMIT clause behind which a parenthesis closes: with PREFETCH 5 the second of two windows is
   requested with the parenthesis blanked, and unless the server takes that, five of ten rows are lost.
   */
  lemma ParenthesisLosesRows(accepts: string -> bool)
    ensures var query := "SELECT * FROM (SELECT a FROM t LIMIT 0,10) x";
            var clause := LimitClause(0, 10, 31, 41);
            && ClauseOf(clause, query) && query[31..41] == "LIMIT 0,10" && query[41..] == ") x"
            && (TakesCut(query, clause, accepts) <==> accepts("  x" + Spaces(11)))
            && (NothingLost(10, query, clause, 5, 1, 0, accepts) <==> TakesCut(query, clause, accepts))
            && Delivered(10, 10, 5, false) == 5
  {
    var query := "SELECT * FROM (SELECT a FROM t LIMIT 0,10) x";
    var tail := query[41..];
    assert tail == ") x";
    assert Blanked(tail) == "  x";
    PaddedBlanked(tail, 11);
    assert LastStart(10, 5, 0) == LastStart(10, 5, 5) == 5;
  }
}

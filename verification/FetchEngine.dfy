/**
 The rowset cursor over a stored result: where a fetch starts, how it seeks there, which rows it
 reads, and what SQLSetPos and the positioned statements then see.

 Positions in the stored result are indices; the index n (the number of rows) stands for the null
 position behind the last row.
 */
module FetchEngine {
  import opened OdbcCodes
  import opened Digits

  datatype FetchType =
    | Next
    | Prior
    | First
    | Last
    | Absolute(irow: int)
    | Relative(irow: int)
    | Bookmark(irow: int)

  /** What filling the application's buffers for one row returned, and filling its bookmark. */
  datatype Conversion = Conversion(row: Ret, bookmark: Ret)

  datatype RowStatus = RowSuccess | RowInfo | RowError | NoRow

  function ToRowStatus(r: Ret): RowStatus {
    match r
    case Success => RowSuccess
    case Info => RowInfo
    case _ => RowError
  }

  /** The cursor fields of a statement, plus the read position of its stored result. */
  datatype Cursor = Cursor(currentRow: int, rowsFound: nat, endOfSet: nat, pos: nat, cursorRow: int)

  /**
   A statement executed for the first time: nothing fetched, no remembered end of rowset, no positioned
   row. A later execution keeps the remembered end of a rowset of the earlier result.
   */
  function Fresh(n: nat): Cursor {
    Cursor(0, 0, n, 0, -1)
  }

  ghost predicate Inv(n: nat, c: Cursor) {
    && -1 <= c.currentRow
    && 0 <= c.currentRow + c.rowsFound + 1
    && c.currentRow + c.rowsFound <= n
    && (c.currentRow == -1 ==> c.rowsFound == 0)
    && c.endOfSet <= n
    && c.pos <= n
  }

  // ---------------------------------------------------------------- where a fetch starts

  /** The row a fetch asks for, before it is clipped to the result. */
  function TargetRow(currentRow: int, rowsFound: nat, n: nat, ft: FetchType, size: nat): int {
    match ft
    case Next => if currentRow < 0 then 0 else currentRow + rowsFound
    case Prior => if currentRow <= 0 then -1 else currentRow - size
    case First => 0
    case Last => n - size
    case Absolute(irow) =>
      if irow < 0 then
        if n + irow < 0 && -irow <= size then 0 else n + irow
      else
        irow - 1
    case Relative(irow) =>
      var row := currentRow + irow;
      if currentRow > 0 && row < 0 && -irow <= size then 0 else row
    case Bookmark(irow) => if irow < 0 && -irow <= size then 0 else irow
  }

  /** The saved-position seek is used instead of absolute addressing exactly here. */
  predicate TakesShortcut(c: Cursor, row: int) {
    row != 0 && row == c.currentRow + c.rowsFound
  }

  // ---------------------------------------------------------------- overall return code

  function Combine(res: Ret, i: nat, row: Ret, bookmark: Ret): Ret {
    if res != row || res != bookmark then
      if Succeeded(row) then Info
      else if i == 0 then Error
      else Info
    else res
  }

  /** The code accumulated over the first `count` rows of a rowset. */
  function Overall(conv: nat -> Conversion, count: nat): Ret {
    if count == 0 then Success
    else Combine(Overall(conv, count - 1), count - 1, conv(count - 1).row, conv(count - 1).bookmark)
  }

  lemma {:induction false} OverallIsSuccess(conv: nat -> Conversion, count: nat)
    ensures Overall(conv, count) == Success <==>
            forall i: nat :: i < count ==> conv(i) == Conversion(Success, Success)
  {
    if count > 0 {
      OverallIsSuccess(conv, count - 1);
    }
  }

  /** SQL_ERROR needs the first row to fail and every later row to fail together with its bookmark. */
  lemma {:induction false} OverallIsError(conv: nat -> Conversion, count: nat)
    ensures Overall(conv, count) == Error <==>
            && count > 0
            && !Succeeded(conv(0).row)
            && forall i: nat :: 0 < i < count ==> conv(i) == Conversion(Error, Error)
  {
    if count > 0 {
      OverallIsError(conv, count - 1);
      if count == 1 {
        assert Overall(conv, 0) == Success;
      } else {
        assert Overall(conv, count) == Error <==>
               Overall(conv, count - 1) == Error && conv(count - 1) == Conversion(Error, Error);
      }
    }
  }

  /** Without bookmarks the call fails as a whole only for a rowset of one row that fails. */
  lemma OverallWithoutBookmarks(conv: nat -> Conversion, count: nat)
    requires forall i: nat :: i < count ==> conv(i).bookmark == Success
    ensures Overall(conv, count) == Error <==> count == 1 && !Succeeded(conv(0).row)
  {
    OverallIsError(conv, count);
    if count > 1 {
      assert conv(1).bookmark == Success;
    }
  }

  /** With failing bookmarks a rowset of two failing rows is reported as SQL_ERROR too. */
  lemma TwoFailingRowsWithBookmarks()
    ensures Overall(i => Conversion(Error, Error), 2) == Error
  {
    OverallIsError(i => Conversion(Error, Error), 2);
  }

  // ---------------------------------------------------------------- one fetch

  /** What a fetch leaves: the cursor, its return code, and the rows read (`count` from `start`). */
  datatype Fetched = Fetched(cursor: Cursor, ret: Ret, start: nat, count: nat)

  /** Reading a rowset for row `row` with the read position at `from`. */
  function RowsetStep(n: nat, c: Cursor, row: nat, from: nat, size: nat, conv: nat -> Conversion): Fetched
    requires row <= n && from <= n
  {
    var want := Min(n - row, size);
    if want == 0 then
      Fetched(c.(currentRow := row, rowsFound := 0, pos := from), NoData, from, 0)
    else
      var got := Min(want, n - from);
      var res := Overall(conv, got);
      var ret := if Succeeded(res) && got == 0 then NoData else res;
      if Succeeded(res) then
        Fetched(c.(currentRow := row, rowsFound := got, endOfSet := from + got, pos := from), ret, from, got)
      else
        Fetched(c.(currentRow := row, rowsFound := got, pos := from + got), ret, from, got)
  }

  /** Moving the cursor first does not change what the rowset leaves behind. */
  lemma RowsetStepOverwrites(n: nat, c: Cursor, row: nat, from: nat, size: nat, conv: nat -> Conversion)
    requires row <= n && from <= n
    ensures RowsetStep(n, c.(currentRow := row, pos := from), row, from, size, conv)
         == RowsetStep(n, c, row, from, size, conv)
  {
  }

  /** A fetch that asked for row `target`: seeks, by saved position or absolutely, and reads the rowset. */
  function FetchAt(n: nat, c: Cursor, target: int, size: nat, conv: nat -> Conversion): Fetched
    requires c.endOfSet <= n
  {
    if target < 0 then
      Fetched(c.(currentRow := -1, rowsFound := 0, pos := 0), NoData, 0, 0)
    else
      var row := Min(target, n);
      RowsetStep(n, c, row, if TakesShortcut(c, row) then c.endOfSet else row, size, conv)
  }

  function FetchStep(n: nat, c: Cursor, ft: FetchType, size: nat, conv: nat -> Conversion): Fetched
    requires c.endOfSet <= n
  {
    FetchAt(n, c, TargetRow(c.currentRow, c.rowsFound, n, ft, size), size, conv)
  }

  lemma OverallIsOneOfThree(conv: nat -> Conversion, count: nat)
    ensures Overall(conv, count) == Success || Overall(conv, count) == Info || Overall(conv, count) == Error
  {
  }

  /** SQL_SUCCESS for a rowset whose rows and bookmarks all converted without a warning. */
  predicate AllConvert(conv: nat -> Conversion, count: nat) {
    forall i: nat :: i < count ==> conv(i).row == Success && conv(i).bookmark == Success
  }

  /** SQL_ERROR for a rowset whose first row failed and whose later rows failed together with their bookmarks. */
  predicate AllFail(conv: nat -> Conversion, count: nat) {
    && count > 0 && conv(0).row != Success && conv(0).row != Info
    && forall i: nat :: 0 < i < count ==> conv(i).row == Error && conv(i).bookmark == Error
  }

  /** What a fetch answers for a rowset of `count` rows: SQL_NO_DATA exactly when there is none. */
  predicate Answers(ret: Ret, conv: nat -> Conversion, count: nat) {
    if count == 0 then ret == NoData
    else if AllConvert(conv, count) then ret == Success
    else if AllFail(conv, count) then ret == Error
    else ret == Info
  }

  /** The call answers SQL_NO_DATA exactly when no row is read, else what the outcomes of the rows read call for. */
  lemma FetchAnswers(n: nat, c: Cursor, target: int, size: nat, conv: nat -> Conversion)
    requires Inv(n, c)
    ensures var f := FetchAt(n, c, target, size, conv); Answers(f.ret, conv, f.count)
  {
    var count := FetchAt(n, c, target, size, conv).count;
    OverallIsSuccess(conv, count);
    OverallIsError(conv, count);
    OverallIsOneOfThree(conv, count);
  }

  /** The cursor a NEXT fetch can continue behind: the end of the last rowset is remembered. */
  ghost predicate CanContinue(n: nat, c: Cursor) {
    && Inv(n, c) && c.currentRow >= 0
    && (0 < c.currentRow + c.rowsFound < n ==> c.endOfSet == c.currentRow + c.rowsFound)
  }

  /** A NEXT fetch that does not fail reads the rows behind the last rowset, and SQL_NO_DATA means there are none. */
  lemma NextFetch(n: nat, c: Cursor, size: nat, conv: nat -> Conversion)
    requires CanContinue(n, c) && size > 0 && forall count: nat :: !AllFail(conv, count)
    ensures var from, f := c.currentRow + c.rowsFound, FetchStep(n, c, Next, size, conv);
            && f.count == (if size <= n - from then size else n - from)
            && (f.count > 0 ==> f.start == from)
            && CanContinue(n, f.cursor) && f.cursor.currentRow + f.cursor.rowsFound == from + f.count
            && (f.ret == NoData <==> from == n)
  {
    var from := c.currentRow + c.rowsFound;
    FetchKeepsInv(n, c, from, size, conv);
    FetchAnswers(n, c, from, size, conv);
    var f := FetchStep(n, c, Next, size, conv);
    OverallIsError(conv, f.count);
    OverallIsOneOfThree(conv, f.count);
    assert !AllFail(conv, f.count);
  }

  // ---------------------------------------------------------------- SQLSetPos

  /** SQL_POSITION on row `irow` of the rowset; an invalid row number changes nothing. */
  function PositionStep(c: Cursor, n: nat, irow: nat): (c': Cursor)
    requires Inv(n, c)
    ensures Inv(n, c')
  {
    if irow == 0 || irow > n || irow > c.rowsFound then c
    else c.(cursorRow := c.currentRow + irow - 1, pos := c.currentRow + irow - 1)
  }

  /** The row a positioned update or delete of rowset row `irow` is meant for. */
  function MeantRow(c: Cursor, irow: nat): int {
    c.currentRow + irow - 1
  }

  /** SQLSetPos lets an update or delete through: a row of the rowset, or 0 for the whole rowset. */
  predicate Accepts(c: Cursor, n: nat, irow: nat) {
    irow <= n && irow <= c.rowsFound
  }

  /** A WHERE clause: the row its values come from, and whether it is limited to a rowset, not to one row. */
  datatype Aim = Aim(row: int, many: bool)

  /**
   The last row for which a clause is built: the first at which the call ends early, or the end. The
   first row is tried in any case.
   */
  function LastBuilt(at: nat, end: nat, fails: nat -> bool): (last: nat)
    ensures at <= last && (last == at || last <= end)
    ensures forall k :: at <= k < last ==> !fails(k)
    ensures last < end ==> fails(last)
    decreases end - at
  {
    if at + 1 <= end && !fails(at) then LastBuilt(at + 1, end, fails) else at
  }

  /** How many rows of the rowset a call for row 0 gets to. */
  function RowsReached(c: Cursor, fails: nat -> bool): (count: nat)
    ensures count <= c.rowsFound
  {
    if c.rowsFound == 0 then 0 else LastBuilt(1, c.rowsFound, fails)
  }

  /** What the WHERE clauses of an accepted call should be. */
  function MeantAims(c: Cursor, irow: nat, fails: nat -> bool): seq<Aim> {
    if irow == 0 then seq(RowsReached(c, fails), i => Aim(c.currentRow + i, false))
    else [Aim(MeantRow(c, irow), false)]
  }

  /** Row numbers are handed on as 16-bit values. */
  function Narrow(irow: nat): nat {
    irow % TWO16
  }

  /** The row build_where_clause_std addresses for a narrowed row number; 0 stands for the first row. */
  function AimedRow(c: Cursor, k: nat): int {
    if k == 0 then c.currentRow else MeantRow(c, k)
  }

  /** Building one WHERE clause: repositions unless cursorRow says the read position is right already. */
  function AimStep(c: Cursor, k: nat): Cursor {
    var row := AimedRow(c, k);
    if c.cursorRow == row then c else c.(cursorRow := row, pos := if row < 0 then 0 else row)
  }

  /** A result without rows has nowhere to reposition to: SQL_NO_DATA. */
  predicate NowhereToGo(n: nat, c: Cursor, k: nat) {
    n == 0 && c.cursorRow != AimedRow(c, k)
  }

  /** The clauses for rowset rows `at` to `end`; the first is tried in any case. */
  function AimLoop(n: nat, c: Cursor, at: nat, end: nat): (Cursor, seq<Aim>)
    decreases end - at
  {
    var k := Narrow(at);
    if NowhereToGo(n, c, k) then (c, [])
    else
      var c' := AimStep(c, k);
      var aim := Aim(c'.pos, k == 0);
      if at + 1 <= end then
        var (last, aims) := AimLoop(n, c', at + 1, end);
        (last, [aim] + aims)
      else (c', [aim])
  }

  /**
   SQLSetPos(SQL_UPDATE or SQL_DELETE): a narrowed row number of 0 goes for the whole rowset. `fails`
   tells at which rowset rows the call ends: the clause is refused, or an UPDATE fails.
   */
  function WhereStep(c: Cursor, n: nat, irow: nat, fails: nat -> bool): (Cursor, seq<Aim>) {
    if !Accepts(c, n, irow) then (c, [])
    else if Narrow(irow) == 0 then AimLoop(n, c, 1, LastBuilt(1, c.rowsFound, fails))
    else AimLoop(n, c, Narrow(irow), Narrow(irow))
  }

  lemma {:induction false} AimLoopKeepsInv(n: nat, c: Cursor, at: nat, end: nat)
    requires Inv(n, c) && at >= 1 && (at <= c.rowsFound || at == 1) && (end <= c.rowsFound || end == at)
    ensures Inv(n, AimLoop(n, c, at, end).0)
    decreases end - at
  {
    assert Narrow(at) <= at;
    if at + 1 <= end {
      AimLoopKeepsInv(n, AimStep(c, Narrow(at)), at + 1, end);
    }
  }

  lemma WhereKeepsInv(n: nat, c: Cursor, irow: nat, fails: nat -> bool)
    requires Inv(n, c)
    ensures Inv(n, WhereStep(c, n, irow, fails).0)
  {
    if Accepts(c, n, irow) {
      if Narrow(irow) == 0 {
        AimLoopKeepsInv(n, c, 1, LastBuilt(1, c.rowsFound, fails));
      } else {
        AimLoopKeepsInv(n, c, Narrow(irow), Narrow(irow));
      }
    }
  }

  /** After SQL_POSITION on a row of the rowset, a positioned statement for it finds the cursor on that row. */
  lemma PositionThenWhere(n: nat, c: Cursor, irow: nat, fails: nat -> bool)
    requires Inv(n, c) && 0 < irow <= c.rowsFound && irow < 65536
    ensures var c' := PositionStep(c, n, irow);
            && c' == c.(pos := c.currentRow + irow - 1, cursorRow := c.currentRow + irow - 1)
            && WhereStep(c', n, irow, fails) == (c', [Aim(c.currentRow + irow - 1, false)])
  {
  }

  /** A row number outside the rowset is refused. */
  lemma PositionRefused(n: nat, c: Cursor, irow: nat, fails: nat -> bool)
    requires Inv(n, c) && irow > c.rowsFound
    ensures PositionStep(c, n, irow) == c && WhereStep(c, n, irow, fails) == (c, [])
    ensures PositionStep(c, n, 0) == c
  {
  }

  // ---------------------------------------------------------------- runs

  datatype Op =
    | Fetch(ft: FetchType, size: nat, conv: nat -> Conversion)
    | Position(irow: nat)
    | Where(irow: nat, fails: nat -> bool)

  function Step(n: nat, c: Cursor, op: Op): Cursor
    requires Inv(n, c)
  {
    match op
    case Fetch(ft, size, conv) => FetchStep(n, c, ft, size, conv).cursor
    case Position(irow) => PositionStep(c, n, irow)
    case Where(irow, fails) => WhereStep(c, n, irow, fails).0
  }

  lemma FetchKeepsInv(n: nat, c: Cursor, target: int, size: nat, conv: nat -> Conversion)
    requires Inv(n, c)
    ensures Inv(n, FetchAt(n, c, target, size, conv).cursor)
  {
  }

  /** Every operation, failing or not, keeps the cursor inside the result. */
  lemma StepKeepsInv(n: nat, c: Cursor, op: Op)
    requires Inv(n, c)
    ensures Inv(n, Step(n, c, op))
  {
    if op.Fetch? {
      FetchKeepsInv(n, c, TargetRow(c.currentRow, c.rowsFound, n, op.ft, op.size), op.size, op.conv);
    } else if op.Where? {
      WhereKeepsInv(n, c, op.irow, op.fails);
    }
  }

  function Run(n: nat, c: Cursor, ops: seq<Op>): (c': Cursor)
    requires Inv(n, c)
    ensures Inv(n, c')
    decreases |ops|
  {
    if ops == [] then c
    else
      StepKeepsInv(n, c, ops[0]);
      Run(n, Step(n, c, ops[0]), ops[1..])
  }

  lemma RunTwo(n: nat, c: Cursor, a: Op, b: Op)
    requires Inv(n, c)
    ensures Inv(n, Step(n, c, a)) && Run(n, c, [a, b]) == Step(n, Step(n, c, a), b)
  {
    StepKeepsInv(n, c, a);
    StepKeepsInv(n, Step(n, c, a), b);
    assert [a, b][1..] == [b];
    assert Run(n, Step(n, c, a), [b]) == Run(n, Step(n, Step(n, c, a), b), [b][1..]);
  }

  lemma RunFour(n: nat, c: Cursor, a: Op, b: Op, d: Op, e: Op)
    requires Inv(n, c)
    ensures Inv(n, Run(n, c, [a, b])) && Run(n, c, [a, b, d, e]) == Run(n, Run(n, c, [a, b]), [d, e])
  {
    RunAppends(n, c, [a, b], [d, e]);
    assert [a, b] + [d, e] == [a, b, d, e];
  }

  lemma {:induction false} RunAppends(n: nat, c: Cursor, ops: seq<Op>, more: seq<Op>)
    requires Inv(n, c)
    ensures Run(n, c, ops + more) == Run(n, Run(n, c, ops), more)
    decreases |ops|
  {
    if ops == [] {
      assert ops + more == more;
    } else {
      var c' := Step(n, c, ops[0]);
      StepKeepsInv(n, c, ops[0]);
      assert (ops + more)[0] == ops[0] && (ops + more)[1..] == ops[1..] + more;
      RunAppends(n, c', ops[1..], more);
      assert Run(n, c, ops) == Run(n, c', ops[1..]);
      assert Run(n, c, ops + more) == Run(n, c', ops[1..] + more);
    }
  }

  // ---------------------------------------------------------------- the simple form

  /**
   The reference cursor only counts rows and always addresses them absolutely. `lastEnd` is the row
   behind the last rowset that was read and did not end in SQL_ERROR; an application can keep it.
   */
  datatype Reference = Reference(currentRow: int, rowsFound: nat, lastEnd: nat)

  function ReferenceRow(n: nat, r: Reference, op: Op): int
    requires op.Fetch?
  {
    Min(TargetRow(r.currentRow, r.rowsFound, n, op.ft, op.size), n)
  }

  function ReferenceCount(n: nat, r: Reference, op: Op): nat
    requires op.Fetch?
  {
    var row := ReferenceRow(n, r, op);
    if row < 0 then 0 else Min(n - row, op.size)
  }

  function ReferenceStep(n: nat, r: Reference, op: Op): Reference {
    if !op.Fetch? then r
    else
      var row := ReferenceRow(n, r, op);
      var count := ReferenceCount(n, r, op);
      if row < 0 then r.(currentRow := -1, rowsFound := 0)
      else if count > 0 && Succeeded(Overall(op.conv, count)) then Reference(row, count, row + count)
      else r.(currentRow := row, rowsFound := count)
  }

  /** The fetch reads what the reference reads: rows ReferenceRow, ReferenceRow + 1, ... */
  predicate ReadsRight(n: nat, c: Cursor, r: Reference, op: Op)
    requires c.endOfSet <= n
  {
    op.Fetch? ==>
      var f := FetchStep(n, c, op.ft, op.size, op.conv);
      && f.count == ReferenceCount(n, r, op)
      && (f.count > 0 ==> f.start == ReferenceRow(n, r, op))
  }

  predicate AllReadsRight(n: nat, c: Cursor, r: Reference, ops: seq<Op>)
    requires Inv(n, c)
    decreases |ops|
  {
    ops != [] ==>
      && ReadsRight(n, c, r, ops[0])
      && (StepKeepsInv(n, c, ops[0]); AllReadsRight(n, Step(n, c, ops[0]), ReferenceStep(n, r, ops[0]), ops[1..]))
  }

  /**
   The application-level condition: a fetch that continues where the last rowset stopped, and has
   rows to read, comes after a rowset that ended right there without SQL_ERROR.
   */
  predicate Continuable(n: nat, r: Reference, op: Op) {
    (&& op.Fetch?
     && ReferenceCount(n, r, op) > 0
     && ReferenceRow(n, r, op) != 0
     && ReferenceRow(n, r, op) == r.currentRow + r.rowsFound)
    ==> r.lastEnd == ReferenceRow(n, r, op)
  }

  predicate AllContinuable(n: nat, r: Reference, ops: seq<Op>)
    decreases |ops|
  {
    ops != [] ==> Continuable(n, r, ops[0]) && AllContinuable(n, ReferenceStep(n, r, ops[0]), ops[1..])
  }

  predicate Agree(c: Cursor, r: Reference) {
    c.currentRow == r.currentRow && c.rowsFound == r.rowsFound && c.endOfSet == r.lastEnd
  }

  /** One step: the saved position is good exactly when the fetch is continuable. */
  lemma StepExact(n: nat, c: Cursor, r: Reference, op: Op)
    requires Inv(n, c) && Agree(c, r)
    ensures ReadsRight(n, c, r, op) <==> Continuable(n, r, op)
    ensures ReadsRight(n, c, r, op) ==> Agree(Step(n, c, op), ReferenceStep(n, r, op))
  {
    if op.Where? {
      WhereKeepsPlace(n, c, op.irow, op.fails);
    }
  }

  /**
   Over every run of fetches and SQLSetPos calls the driver reads the rows the reference reads if
   and only if every fetch of the run is continuable.
   */
  lemma {:induction false} RunExact(n: nat, c: Cursor, r: Reference, ops: seq<Op>)
    requires Inv(n, c) && Agree(c, r)
    ensures AllReadsRight(n, c, r, ops) <==> AllContinuable(n, r, ops)
    decreases |ops|
  {
    if ops != [] {
      StepExact(n, c, r, ops[0]);
      StepKeepsInv(n, c, ops[0]);
      if ReadsRight(n, c, r, ops[0]) {
        RunExact(n, Step(n, c, ops[0]), ReferenceStep(n, r, ops[0]), ops[1..]);
      }
    }
  }

  /** No rowset of the run is of size zero or ends in SQL_ERROR. */
  predicate NoFailedRowset(n: nat, r: Reference, ops: seq<Op>)
    decreases |ops|
  {
    ops != [] ==>
      && (ops[0].Fetch? ==>
            && ops[0].size > 0
            && Succeeded(Overall(ops[0].conv, ReferenceCount(n, r, ops[0]))))
      && NoFailedRowset(n, ReferenceStep(n, r, ops[0]), ops[1..])
  }

  /** Either the last rowset is remembered, or the cursor sits where nothing is left to continue with. */
  ghost predicate Remembered(n: nat, r: Reference) {
    && -1 <= r.currentRow <= n
    && (0 < r.currentRow + r.rowsFound < n ==> r.lastEnd == r.currentRow + r.rowsFound)
  }

  lemma {:induction false} NoFailureIsContinuable(n: nat, r: Reference, ops: seq<Op>)
    requires Remembered(n, r) && NoFailedRowset(n, r, ops)
    ensures AllContinuable(n, r, ops)
    decreases |ops|
  {
    if ops != [] {
      NoFailureIsContinuable(n, ReferenceStep(n, r, ops[0]), ops[1..]);
    }
  }

  /** A fresh statement whose rowsets never fail as a whole reads every rowset right, whatever the fetch types. */
  lemma RunsWithoutFailureReadRight(n: nat, ops: seq<Op>)
    requires NoFailedRowset(n, Reference(0, 0, n), ops)
    ensures AllReadsRight(n, Fresh(n), Reference(0, 0, n), ops)
  {
    NoFailureIsContinuable(n, Reference(0, 0, n), ops);
    RunExact(n, Fresh(n), Reference(0, 0, n), ops);
  }

  /** A rowset read in full from a good position. */
  lemma GoodFetch(n: nat, c: Cursor, ft: FetchType, size: nat, conv: nat -> Conversion)
    requires c.endOfSet <= n && 0 < size && Overall(conv, size) == Success
    requires var row := TargetRow(c.currentRow, c.rowsFound, n, ft, size);
             && 0 <= row <= n - size
             && (TakesShortcut(c, row) ==> c.endOfSet == row)
    ensures var row := TargetRow(c.currentRow, c.rowsFound, n, ft, size);
            FetchStep(n, c, ft, size, conv)
            == Fetched(c.(currentRow := row, rowsFound := size, endOfSet := row + size, pos := row), Success, row, size)
  {
  }

  /** A single row that fails leaves the read position behind it and the saved position before it. */
  lemma BadFetch(n: nat, c: Cursor, ft: FetchType, conv: nat -> Conversion)
    requires c.endOfSet <= n && Overall(conv, 1) == Error
    requires var row := TargetRow(c.currentRow, c.rowsFound, n, ft, 1);
             && 0 <= row < n
             && (TakesShortcut(c, row) ==> c.endOfSet == row)
    ensures var row := TargetRow(c.currentRow, c.rowsFound, n, ft, 1);
            FetchStep(n, c, ft, 1, conv)
            == Fetched(c.(currentRow := row, rowsFound := 1, pos := row + 1), Error, row, 1)
  {
  }

  /**
   A single-row fetch that fails makes the next NEXT read the failed row again: row 1 is delivered
   in the place of row 2.
   */
  lemma FailedRowIsReadAgain(n: nat, good: nat -> Conversion, bad: nat -> Conversion)
    requires n >= 3 && Overall(good, 1) == Success && Overall(bad, 1) == Error
    ensures
      var c := Run(n, Fresh(n), [Fetch(Next, 1, good), Fetch(Next, 1, bad)]);
      var f := FetchStep(n, c, Next, 1, good);
      f.cursor.currentRow == 2 && f.start == 1 && f.count == 1
  {
    GoodFetch(n, Fresh(n), Next, 1, good);
    BadFetch(n, Cursor(0, 1, 1, 0, -1), Next, bad);
    RunTwo(n, Fresh(n), Fetch(Next, 1, good), Fetch(Next, 1, bad));
  }

  /** Past the end the saved position can be stale, but then no row is read through it. */
  lemma StaleSeekPastTheEnd(n: nat, beyond: nat, good: nat -> Conversion)
    requires 1 < n < beyond && Overall(good, 1) == Success
    ensures
      var c := Run(n, Fresh(n), [Fetch(First, 1, good), Fetch(Absolute(beyond), 1, good)]);
      var f := FetchStep(n, c, Next, 1, good);
      TakesShortcut(c, n) && f.cursor.pos == 1 && f.cursor.currentRow == n && f.count == 0
  {
    GoodFetch(n, Fresh(n), First, 1, good);
    RunTwo(n, Fresh(n), Fetch(First, 1, good), Fetch(Absolute(beyond), 1, good));
  }

  // ---------------------------------------------------------------- NEXT from the start

  function SizeOf(op: Op): nat {
    if op.Fetch? then op.size else 0
  }

  function TotalSize(ops: seq<Op>): nat {
    if ops == [] then 0
    else SizeOf(ops[0]) + TotalSize(ops[1..])
  }

  predicate NextOnly(ops: seq<Op>) {
    ops != [] ==> (ops[0].Fetch? ==> ops[0].ft == Next) && NextOnly(ops[1..])
  }

  /** The row numbers one operation reads into the application's buffers. */
  function RowsOf(n: nat, c: Cursor, op: Op): seq<int>
    requires Inv(n, c)
  {
    if !op.Fetch? then []
    else
      var f := FetchStep(n, c, op.ft, op.size, op.conv);
      Span(f.start, f.count)
  }

  /** All row numbers a run reads, in order. */
  function RowsRead(n: nat, c: Cursor, ops: seq<Op>): seq<int>
    requires Inv(n, c)
    decreases |ops|
  {
    if ops == [] then []
    else
      StepKeepsInv(n, c, ops[0]);
      RowsOf(n, c, ops[0]) + RowsRead(n, Step(n, c, ops[0]), ops[1..])
  }

  function ReferenceRowsOf(n: nat, r: Reference, op: Op): seq<int> {
    if !op.Fetch? then [] else Span(ReferenceRow(n, r, op), ReferenceCount(n, r, op))
  }

  /** All row numbers the reference cursor reads in a run, in order. */
  function ReferenceRows(n: nat, r: Reference, ops: seq<Op>): seq<int>
    decreases |ops|
  {
    if ops == [] then []
    else ReferenceRowsOf(n, r, ops[0]) + ReferenceRows(n, ReferenceStep(n, r, ops[0]), ops[1..])
  }

  lemma RightReadsRows(n: nat, c: Cursor, r: Reference, op: Op)
    requires Inv(n, c) && ReadsRight(n, c, r, op)
    ensures RowsOf(n, c, op) == ReferenceRowsOf(n, r, op)
  {
  }

  lemma {:induction false} RightRunReadsReferenceRows(n: nat, c: Cursor, r: Reference, ops: seq<Op>)
    requires Inv(n, c) && AllReadsRight(n, c, r, ops)
    ensures RowsRead(n, c, ops) == ReferenceRows(n, r, ops)
    decreases |ops|
  {
    if ops != [] {
      RightReadsRows(n, c, r, ops[0]);
      StepKeepsInv(n, c, ops[0]);
      RightRunReadsReferenceRows(n, Step(n, c, ops[0]), ReferenceStep(n, r, ops[0]), ops[1..]);
    }
  }

  /** What one operation of a NEXT-only run reads, and where the following one continues. */
  lemma NextStep(n: nat, r: Reference, op: Op)
    requires 0 <= r.currentRow && r.currentRow + r.rowsFound <= n
    requires op.Fetch? ==> op.ft == Next
    ensures var r' := ReferenceStep(n, r, op);
            var from := r.currentRow + r.rowsFound;
            var count := Min(n - from, SizeOf(op));
            && 0 <= r'.currentRow
            && r'.currentRow + r'.rowsFound == from + count
            && ReferenceRowsOf(n, r, op) == Span(from, count)
  {
  }

  lemma SpanSplits(from: int, a: nat, b: nat)
    ensures Span(from, a) + Span(from + a, b) == Span(from, a + b)
  {
  }

  /** Rowsets of the given sizes laid end to end, starting at `from` and clipped to the result. */
  function EndToEnd(n: nat, from: nat, ops: seq<Op>): seq<int>
    requires from <= n
    decreases |ops|
  {
    if ops == [] then []
    else
      var count := Min(n - from, SizeOf(ops[0]));
      Span(from, count) + EndToEnd(n, from + count, ops[1..])
  }

  lemma {:induction false} EndToEndIsSpan(n: nat, from: nat, ops: seq<Op>)
    requires from <= n
    ensures EndToEnd(n, from, ops) == Span(from, Min(n - from, TotalSize(ops)))
    decreases |ops|
  {
    if ops != [] {
      var count := Min(n - from, SizeOf(ops[0]));
      EndToEndIsSpan(n, from + count, ops[1..]);
      SpanSplits(from, count, Min(n - from - count, TotalSize(ops[1..])));
    }
  }

  lemma {:induction false} NextReadsEndToEnd(n: nat, r: Reference, ops: seq<Op>)
    requires 0 <= r.currentRow && r.currentRow + r.rowsFound <= n
    requires NextOnly(ops)
    ensures ReferenceRows(n, r, ops) == EndToEnd(n, r.currentRow + r.rowsFound, ops)
    decreases |ops|
  {
    if ops != [] {
      NextStep(n, r, ops[0]);
      NextReadsEndToEnd(n, ReferenceStep(n, r, ops[0]), ops[1..]);
    }
  }

  /** NEXT fetches of the reference cursor read on from wherever it is, without gap or repetition. */
  lemma NextReadsOn(n: nat, r: Reference, ops: seq<Op>)
    requires 0 <= r.currentRow && r.currentRow + r.rowsFound <= n
    requires NextOnly(ops)
    ensures var from := r.currentRow + r.rowsFound;
            ReferenceRows(n, r, ops) == Span(from, Min(n - from, TotalSize(ops)))
  {
    NextReadsEndToEnd(n, r, ops);
    EndToEndIsSpan(n, r.currentRow + r.rowsFound, ops);
  }

  /** A run from a fresh statement whose rowsets never fail as a whole delivers the reference rows. */
  lemma RunsWithoutFailureReadReference(n: nat, ops: seq<Op>)
    requires NoFailedRowset(n, Reference(0, 0, n), ops)
    ensures RowsRead(n, Fresh(n), ops) == ReferenceRows(n, Reference(0, 0, n), ops)
  {
    RunsWithoutFailureReadRight(n, ops);
    RightRunReadsReferenceRows(n, Fresh(n), Reference(0, 0, n), ops);
  }

  /**
   NEXT fetches of any positive sizes, with SQLSetPos calls between them, read rows 0, 1, 2, ... each
   exactly once, up to the end of the result.
   */
  lemma NextCoversTheResult(n: nat, ops: seq<Op>)
    requires NextOnly(ops) && NoFailedRowset(n, Reference(0, 0, n), ops)
    ensures RowsRead(n, Fresh(n), ops) == Span(0, Min(n, TotalSize(ops)))
  {
    RunsWithoutFailureReadReference(n, ops);
    NextReadsOn(n, Reference(0, 0, n), ops);
  }

  // ---------------------------------------------------------------- execution after execution

  /** The reference remembers no rowset yet, or the same end as the cursor. */
  predicate AgreeOrUnset(n: nat, c: Cursor, r: Reference) {
    && c.currentRow == r.currentRow && c.rowsFound == r.rowsFound
    && (c.endOfSet == r.lastEnd || r.lastEnd == n)
  }

  lemma {:induction false} ContinuableReadsRight(n: nat, c: Cursor, r: Reference, ops: seq<Op>)
    requires Inv(n, c) && AgreeOrUnset(n, c, r) && AllContinuable(n, r, ops)
    ensures AllReadsRight(n, c, r, ops)
    decreases |ops|
  {
    if ops != [] {
      StepAgrees(n, c, r, ops[0]);
      StepKeepsInv(n, c, ops[0]);
      ContinuableReadsRight(n, Step(n, c, ops[0]), ReferenceStep(n, r, ops[0]), ops[1..]);
    }
  }

  lemma StepAgrees(n: nat, c: Cursor, r: Reference, op: Op)
    requires Inv(n, c) && AgreeOrUnset(n, c, r) && Continuable(n, r, op)
    ensures ReadsRight(n, c, r, op) && AgreeOrUnset(n, Step(n, c, op), ReferenceStep(n, r, op))
  {
    if op.Where? {
      WhereKeepsPlace(n, c, op.irow, op.fails);
    } else if op.Fetch? {
      var target := TargetRow(c.currentRow, c.rowsFound, n, op.ft, op.size);
      if target >= 0 && Min(n - Min(target, n), op.size) > 0 {
        RowsetAgrees(n, c, r, op, target);
      }
    }
  }

  /** A continuable fetch with rows to read starts at its row, by whichever seek. */
  lemma RowsetAgrees(n: nat, c: Cursor, r: Reference, op: Op, row: nat)
    requires Inv(n, c) && AgreeOrUnset(n, c, r) && Continuable(n, r, op) && op.Fetch?
    requires row == TargetRow(c.currentRow, c.rowsFound, n, op.ft, op.size) < n && op.size > 0
    ensures ReadsRight(n, c, r, op) && AgreeOrUnset(n, Step(n, c, op), ReferenceStep(n, r, op))
  {
    assert !TakesShortcut(c, row) || c.endOfSet == row;
    assert FetchStep(n, c, op.ft, op.size, op.conv) == RowsetStep(n, c, row, row, op.size, op.conv);
  }

  /**
   After a re-execution the remembered end is a position of the freed result, so anything at all. The
   runs that read right wherever it leads are exactly those in which every fetch is continuable, that
   is, no fetch continues before a rowset of the new result has been read without SQL_ERROR.
   */
  lemma ReexecutionExact(n: nat, ops: seq<Op>)
    ensures (forall left: nat :: left <= n ==> AllReadsRight(n, Fresh(n).(endOfSet := left), Reference(0, 0, n), ops))
            <==> AllContinuable(n, Reference(0, 0, n), ops)
  {
    var r := Reference(0, 0, n);
    if AllContinuable(n, r, ops) {
      forall left: nat | left <= n
        ensures AllReadsRight(n, Fresh(n).(endOfSet := left), r, ops)
      {
        ContinuableReadsRight(n, Fresh(n).(endOfSet := left), r, ops);
      }
    } else {
      RunExact(n, Fresh(n), r, ops);
      assert Fresh(n).(endOfSet := n) == Fresh(n);
    }
  }

  /** A first row that fails after a re-execution: the next NEXT reads wherever the old position leads. */
  lemma StalePositionIsUsed(n: nat, left: nat, good: nat -> Conversion, bad: nat -> Conversion)
    requires 1 < n && left < n && Overall(good, 1) == Success && Overall(bad, 1) == Error
    ensures
      var c := Step(n, Fresh(n).(endOfSet := left), Fetch(Next, 1, bad));
      var f := FetchStep(n, c, Next, 1, good);
      f.cursor.currentRow == 1 && f.start == left && f.count == 1
  {
    BadFetch(n, Fresh(n).(endOfSet := left), Next, bad);
  }

  // ---------------------------------------------------------------- positioned statements

  /**
   What an application can know: the row it last positioned on or modified (-1 for none), and
   whether it has fetched since.
   */
  datatype History = History(last: int, moved: bool)

  function HistoryStep(n: nat, c: Cursor, h: History, op: Op): History {
    match op
    case Fetch(_, _, _) => h.(moved := true)
    case Position(irow) => if irow > 0 && Accepts(c, n, irow) then History(MeantRow(c, irow), false) else h
    case Where(irow, fails) =>
      if !Accepts(c, n, irow) then h
      else if irow == 0 then if c.rowsFound == 0 then h else History(MeantRow(c, RowsReached(c, fails)), false)
      else if h.last != MeantRow(c, irow) then History(MeantRow(c, irow), false) else h
  }

  /** The remembered row is asked for again, off the first row of the rowset, after a fetch. */
  predicate StaleTarget(c: Cursor, h: History, irow: nat) {
    h.last == MeantRow(c, irow) && h.moved && irow >= 2
  }

  /**
   A statement that hits what it is meant for: a row number below 65536 that is no stale target, or 0
   with a rowset of which fewer than 65536 rows are reached, and which is empty only if the result is.
   */
  predicate GoodTarget(n: nat, c: Cursor, h: History, irow: nat, fails: nat -> bool) {
    if irow > 0 then irow < TWO16 && !StaleTarget(c, h, irow)
    else if c.rowsFound > 0 then RowsReached(c, fails) < TWO16
    else n == 0 && h.last != c.currentRow
  }

  ghost predicate Tracks(c: Cursor, h: History) {
    && c.cursorRow == h.last
    && (!h.moved && h.last >= 0 ==> c.pos == h.last)
    && (h.moved && c.rowsFound > 0 ==> c.pos == c.currentRow)
    && (h.last < 0 ==> h.moved || c.rowsFound == 0)
  }

  /** Every positioned statement of the run builds the clauses it is meant to build. */
  predicate AllWheresRight(n: nat, c: Cursor, ops: seq<Op>)
    requires Inv(n, c)
    decreases |ops|
  {
    ops != [] ==>
      && (ops[0].Where? && Accepts(c, n, ops[0].irow) ==>
            WhereStep(c, n, ops[0].irow, ops[0].fails).1 == MeantAims(c, ops[0].irow, ops[0].fails))
      && (StepKeepsInv(n, c, ops[0]); AllWheresRight(n, Step(n, c, ops[0]), ops[1..]))
  }

  predicate AllGoodTargets(n: nat, c: Cursor, h: History, ops: seq<Op>)
    requires Inv(n, c)
    decreases |ops|
  {
    ops != [] ==>
      && (ops[0].Where? && Accepts(c, n, ops[0].irow) ==> GoodTarget(n, c, h, ops[0].irow, ops[0].fails))
      && (StepKeepsInv(n, c, ops[0]); AllGoodTargets(n, Step(n, c, ops[0]), HistoryStep(n, c, h, ops[0]), ops[1..]))
  }

  /** The clauses for rows `at` to `end` once the read position is right for the first of them. */
  lemma {:induction false} LoopHitsRows(n: nat, c: Cursor, at: nat, end: nat)
    requires n > 0 && 1 <= at <= end < TWO16 && 0 <= c.currentRow
    requires c.cursorRow == MeantRow(c, at) ==> c.pos == MeantRow(c, at)
    ensures var (c', aims) := AimLoop(n, c, at, end);
            && aims == seq(end + 1 - at, i => Aim(c.currentRow + at - 1 + i, false))
            && c' == c.(cursorRow := MeantRow(c, end), pos := MeantRow(c, end))
    decreases end - at
  {
    var c1 := AimStep(c, at);
    assert c1 == c.(cursorRow := MeantRow(c, at), pos := MeantRow(c, at));
    if at < end {
      LoopHitsRows(n, c1, at + 1, end);
      OneMoreAimed(c.currentRow + at - 1, end - at);
    }
  }

  lemma OneMoreAimed(row: int, count: nat)
    ensures [Aim(row, false)] + seq(count, i => Aim(row + 1 + i, false)) == seq(count + 1, i => Aim(row + i, false))
  {
  }

  lemma {:induction false} LoopLength(n: nat, c: Cursor, at: nat, end: nat)
    requires n > 0
    ensures |AimLoop(n, c, at, end).1| == if at < end then end + 1 - at else 1
    decreases end - at
  {
    if at + 1 <= end {
      LoopLength(n, AimStep(c, Narrow(at)), at + 1, end);
    }
  }

  /** Rowset row 65536 is addressed as row 0, with a clause for a whole rowset. */
  lemma {:induction false} LoopWraps(n: nat, c: Cursor, at: nat, end: nat)
    requires n > 0 && at <= TWO16 <= end
    ensures var aims := AimLoop(n, c, at, end).1; TWO16 - at < |aims| && aims[TWO16 - at].many
    decreases TWO16 - at
  {
    if at < TWO16 {
      LoopWraps(n, AimStep(c, Narrow(at)), at + 1, end);
    } else {
      assert Narrow(TWO16) == 0;
    }
  }

  /** One row of the rowset. */
  lemma RowExact(n: nat, c: Cursor, h: History, irow: nat, fails: nat -> bool)
    requires Inv(n, c) && Tracks(c, h) && Accepts(c, n, irow) && 0 < irow
    ensures WhereStep(c, n, irow, fails).1 == MeantAims(c, irow, fails) <==> GoodTarget(n, c, h, irow, fails)
    ensures GoodTarget(n, c, h, irow, fails) ==>
              Tracks(WhereStep(c, n, irow, fails).0, HistoryStep(n, c, h, Where(irow, fails)))
  {
    if irow < TWO16 {
      assert Narrow(irow) == irow;
    } else if Narrow(irow) == 0 {
      var last := LastBuilt(1, c.rowsFound, fails);
      LoopLength(n, c, 1, last);
      FarRowIsMissed(n, c, h, irow, 1);
      assert AimLoop(n, c, 1, last).1[0] == Aim(AimStep(c, 1).pos, false);
    } else {
      assert Narrow(irow) < irow;
      assert WhereStep(c, n, irow, fails).1 == [Aim(AimStep(c, Narrow(irow)).pos, false)];
      FarRowIsMissed(n, c, h, irow, Narrow(irow));
    }
  }

  /** A row number cut to 16 bits leads to an earlier row of the rowset. */
  lemma FarRowIsMissed(n: nat, c: Cursor, h: History, irow: nat, k: nat)
    requires Inv(n, c) && Tracks(c, h) && Accepts(c, n, irow) && 0 < k < irow && irow >= TWO16
    ensures AimStep(c, k).pos != MeantRow(c, irow)
  {
    var row := MeantRow(c, k);
    if c.cursorRow == row {
      assert c.pos == c.cursorRow || c.pos == c.currentRow;
    }
  }

  /** The whole rowset. */
  lemma RowsetExact(n: nat, c: Cursor, h: History, fails: nat -> bool)
    requires Inv(n, c) && Tracks(c, h)
    ensures WhereStep(c, n, 0, fails).1 == MeantAims(c, 0, fails) <==> GoodTarget(n, c, h, 0, fails)
    ensures GoodTarget(n, c, h, 0, fails) ==>
              Tracks(WhereStep(c, n, 0, fails).0, HistoryStep(n, c, h, Where(0, fails)))
  {
    var last := LastBuilt(1, c.rowsFound, fails);
    if n > 0 {
      LoopLength(n, c, 1, last);
    }
    if c.rowsFound > 0 {
      RowsetLoopExact(n, c, h, last);
    }
  }

  lemma RowsetLoopExact(n: nat, c: Cursor, h: History, last: nat)
    requires Inv(n, c) && Tracks(c, h) && 1 <= last <= c.rowsFound
    ensures AimLoop(n, c, 1, last).1 == seq(last, i => Aim(c.currentRow + i, false)) <==> last < TWO16
    ensures last < TWO16 ==>
              AimLoop(n, c, 1, last).0 == c.(cursorRow := MeantRow(c, last), pos := MeantRow(c, last))
  {
    if last < TWO16 {
      LoopHitsRows(n, c, 1, last);
      assert seq(last, i => Aim(c.currentRow + i, false))
          == seq(last + 1 - 1, i => Aim(c.currentRow + 1 - 1 + i, false));
    } else {
      LoopWraps(n, c, 1, last);
      assert !seq(last, i => Aim(c.currentRow + i, false))[TWO16 - 1].many;
    }
  }

  /** One positioned statement builds the right clauses exactly for a good target. */
  lemma WhereExact(n: nat, c: Cursor, h: History, irow: nat, fails: nat -> bool)
    requires Inv(n, c) && Tracks(c, h) && Accepts(c, n, irow)
    ensures WhereStep(c, n, irow, fails).1 == MeantAims(c, irow, fails) <==> GoodTarget(n, c, h, irow, fails)
    ensures GoodTarget(n, c, h, irow, fails) ==>
              Tracks(WhereStep(c, n, irow, fails).0, HistoryStep(n, c, h, Where(irow, fails)))
  {
    if irow == 0 {
      RowsetExact(n, c, h, fails);
    } else {
      RowExact(n, c, h, irow, fails);
    }
  }

  /** A positioned statement leaves the rowset and its remembered end alone. */
  lemma {:induction false} LoopKeepsPlace(n: nat, c: Cursor, at: nat, end: nat)
    ensures var c' := AimLoop(n, c, at, end).0; c' == c.(cursorRow := c'.cursorRow, pos := c'.pos)
    decreases end - at
  {
    if at + 1 <= end {
      LoopKeepsPlace(n, AimStep(c, Narrow(at)), at + 1, end);
    }
  }

  lemma WhereKeepsPlace(n: nat, c: Cursor, irow: nat, fails: nat -> bool)
    ensures var c' := WhereStep(c, n, irow, fails).0; c' == c.(cursorRow := c'.cursorRow, pos := c'.pos)
  {
    LoopKeepsPlace(n, c, 1, LastBuilt(1, c.rowsFound, fails));
    LoopKeepsPlace(n, c, Narrow(irow), Narrow(irow));
  }

  /** A fetch that succeeds, and SQL_POSITION, keep what the application knows in line with the cursor. */
  lemma HistoryKept(n: nat, c: Cursor, r: Reference, h: History, op: Op)
    requires Inv(n, c) && Agree(c, r) && Tracks(c, h) && Remembered(n, r) && !op.Where?
    requires op.Fetch? ==> op.size > 0 && Succeeded(Overall(op.conv, ReferenceCount(n, r, op)))
    ensures Tracks(Step(n, c, op), HistoryStep(n, c, h, op))
  {
    if op.Fetch? {
      StepExact(n, c, r, op);
    }
  }

  lemma SuccessKept(n: nat, c: Cursor, r: Reference, op: Op)
    requires Inv(n, c) && Agree(c, r) && Remembered(n, r)
    requires op.Fetch? ==> op.size > 0 && Succeeded(Overall(op.conv, ReferenceCount(n, r, op)))
    ensures var c', r' := Step(n, c, op), ReferenceStep(n, r, op);
            Inv(n, c') && Agree(c', r') && Remembered(n, r')
  {
    StepKeepsInv(n, c, op);
    StepExact(n, c, r, op);
  }

  /**
   Over every run without failed rowsets the WHERE clauses take their values from the meant rows, one
   row each, if and only if every positioned statement has a good target.
   */
  lemma {:induction false} WheresExact(n: nat, c: Cursor, r: Reference, h: History, ops: seq<Op>)
    requires Inv(n, c) && Agree(c, r) && Tracks(c, h) && Remembered(n, r) && NoFailedRowset(n, r, ops)
    ensures AllWheresRight(n, c, ops) <==> AllGoodTargets(n, c, h, ops)
    decreases |ops|
  {
    if ops != [] {
      var op := ops[0];
      SuccessKept(n, c, r, op);
      if op.Where? && Accepts(c, n, op.irow) {
        WhereExact(n, c, h, op.irow, op.fails);
      } else if !op.Where? {
        HistoryKept(n, c, r, h, op);
      }
      if !(op.Where? && Accepts(c, n, op.irow)) || GoodTarget(n, c, h, op.irow, op.fails) {
        WheresExact(n, Step(n, c, op), ReferenceStep(n, r, op), HistoryStep(n, c, h, op), ops[1..]);
      }
    }
  }

  /** The remembered row lies before the rowset once a NEXT has moved on. */
  ghost predicate BehindRowset(c: Cursor, h: History) {
    && 0 <= c.currentRow
    && (h.moved && c.rowsFound > 0 ==> h.last < c.currentRow)
    && h.last < c.currentRow + c.rowsFound
  }

  lemma BehindKept(n: nat, c: Cursor, h: History, op: Op)
    requires Inv(n, c) && BehindRowset(c, h)
    requires op.Fetch? ==> op.ft == Next
    ensures BehindRowset(Step(n, c, op), HistoryStep(n, c, h, op))
  {
    if op.Where? {
      WhereKeepsPlace(n, c, op.irow, op.fails);
    }
  }

  /** Every statement names a row below 65536, or a rowset of fewer rows, empty only if the result is. */
  predicate AllNarrow(n: nat, c: Cursor, ops: seq<Op>)
    requires Inv(n, c)
    decreases |ops|
  {
    ops != [] ==>
      && (ops[0].Where? && Accepts(c, n, ops[0].irow) ==>
            if ops[0].irow > 0 then ops[0].irow < TWO16
            else RowsReached(c, ops[0].fails) < TWO16 && (c.rowsFound == 0 ==> n == 0))
      && (StepKeepsInv(n, c, ops[0]); AllNarrow(n, Step(n, c, ops[0]), ops[1..]))
  }

  lemma {:induction false} NextOnlyNeverStale(n: nat, c: Cursor, h: History, ops: seq<Op>)
    requires Inv(n, c) && BehindRowset(c, h) && NextOnly(ops)
    ensures AllGoodTargets(n, c, h, ops) <==> AllNarrow(n, c, ops)
    decreases |ops|
  {
    if ops != [] {
      BehindKept(n, c, h, ops[0]);
      StepKeepsInv(n, c, ops[0]);
      NextOnlyNeverStale(n, Step(n, c, ops[0]), HistoryStep(n, c, h, ops[0]), ops[1..]);
    }
  }

  /**
   In a NEXT-only run from a fresh statement all positioned statements hit what they are meant for if
   and only if their row numbers, or for row number 0 the rowsets, fit 16 bits, and no statement goes for
   an empty rowset of a result with rows.
   */
  lemma NextOnlyWheresRight(n: nat, ops: seq<Op>)
    requires NextOnly(ops) && NoFailedRowset(n, Reference(0, 0, n), ops)
    ensures AllWheresRight(n, Fresh(n), ops) <==> AllNarrow(n, Fresh(n), ops)
  {
    NextOnlyNeverStale(n, Fresh(n), History(-1, true), ops);
    WheresExact(n, Fresh(n), Reference(0, 0, n), History(-1, true), ops);
  }

  /** The cursor after the first rowset. */
  lemma FirstRowset(n: nat, size: nat, good: nat -> Conversion)
    requires 0 < size <= n && Overall(good, size) == Success
    ensures Step(n, Fresh(n), Fetch(Next, size, good)) == Cursor(0, size, size, 0, -1)
  {
    GoodFetch(n, Fresh(n), Next, size, good);
  }

  /** Deleting row 65537 of a large rowset takes its WHERE values from the first row of it. */
  lemma FarRowHitsTheFirst(n: nat, size: nat, good: nat -> Conversion, fails: nat -> bool)
    requires 65536 < size <= n && Overall(good, size) == Success
    ensures
      var c := Step(n, Fresh(n), Fetch(Next, size, good));
      && MeantAims(c, 65537, fails) == [Aim(65536, false)]
      && WhereStep(c, n, 65537, fails).1 == [Aim(0, false)]
  {
    FirstRowset(n, size, good);
    assert Narrow(65537) == 1;
  }

  /** Row number 65536 goes for the whole rowset. */
  lemma RowBecomesRowset(n: nat, size: nat, good: nat -> Conversion, fails: nat -> bool)
    requires 65536 <= size <= n && Overall(good, size) == Success
    ensures
      var c := Step(n, Fresh(n), Fetch(Next, size, good));
      |MeantAims(c, 65536, fails)| == 1 && |WhereStep(c, n, 65536, fails).1| == LastBuilt(1, size, fails)
  {
    FirstRowset(n, size, good);
    NarrowedToRowset(n, Step(n, Fresh(n), Fetch(Next, size, good)), 65536, fails);
  }

  /** A row number that is cut to 0 builds a clause for every row of the rowset it gets to. */
  lemma NarrowedToRowset(n: nat, c: Cursor, irow: nat, fails: nat -> bool)
    requires n > 0 && Accepts(c, n, irow) && irow == TWO16
    ensures |WhereStep(c, n, irow, fails).1| == LastBuilt(1, c.rowsFound, fails)
  {
    LoopLength(n, c, 1, LastBuilt(1, c.rowsFound, fails));
  }

  /** With no rowset fetched, row number 0 still builds a clause, for the first row of the result. */
  lemma EmptyRowsetHitsARow(n: nat, fails: nat -> bool)
    requires n > 0
    ensures Accepts(Fresh(n), n, 0) && MeantAims(Fresh(n), 0, fails) == []
    ensures WhereStep(Fresh(n), n, 0, fails).1 == [Aim(0, false)]
  {
  }

  lemma ScrollingBackSteps(n: nat, good: nat -> Conversion, fails: nat -> bool)
    requires n >= 4 && Overall(good, 2) == Success
    ensures Step(n, Fresh(n), Fetch(Next, 2, good)) == Cursor(0, 2, 2, 0, -1)
    ensures Step(n, Cursor(0, 2, 2, 0, -1), Where(2, fails)) == Cursor(0, 2, 2, 1, 1)
    ensures Step(n, Cursor(0, 2, 2, 1, 1), Fetch(Next, 2, good)) == Cursor(2, 2, 4, 2, 1)
    ensures Step(n, Cursor(2, 2, 4, 2, 1), Fetch(First, 2, good)) == Cursor(0, 2, 2, 0, 1)
  {
    GoodFetch(n, Fresh(n), Next, 2, good);
    GoodFetch(n, Cursor(0, 2, 2, 1, 1), Next, 2, good);
    GoodFetch(n, Cursor(2, 2, 4, 2, 1), First, 2, good);
  }

  lemma ScrollingBackCursor(n: nat, good: nat -> Conversion, fails: nat -> bool)
    requires n >= 4 && Overall(good, 2) == Success
    ensures Run(n, Fresh(n), [Fetch(Next, 2, good), Where(2, fails), Fetch(Next, 2, good), Fetch(First, 2, good)])
         == Cursor(0, 2, 2, 0, 1)
  {
    ScrollingBackSteps(n, good, fails);
    var next, first := Fetch(Next, 2, good), Fetch(First, 2, good);
    RunTwo(n, Fresh(n), next, Where(2, fails));
    RunTwo(n, Cursor(0, 2, 2, 1, 1), next, first);
    RunFour(n, Fresh(n), next, Where(2, fails), next, first);
  }

  /**
   Scrolling back breaks it: after modifying row 1, fetching on and returning to the first rowset,
   a positioned statement for row 1 takes its WHERE values from row 0.
   */
  lemma ScrollingBackHitsTheWrongRow(n: nat, good: nat -> Conversion, fails: nat -> bool)
    requires n >= 4 && Overall(good, 2) == Success
    ensures
      var c := Run(n, Fresh(n), [Fetch(Next, 2, good), Where(2, fails), Fetch(Next, 2, good), Fetch(First, 2, good)]);
      MeantAims(c, 2, fails) == [Aim(1, false)] && WhereStep(c, n, 2, fails).1 == [Aim(0, false)]
  {
    ScrollingBackCursor(n, good, fails);
    assert WhereStep(Cursor(0, 2, 2, 0, 1), n, 2, fails).1 == [Aim(0, false)];
  }

  // ---------------------------------------------------------------- the statement object

  /** Whether a fetch gets as far as its reading loop, and so writes the row status array. */
  predicate Loops(n: nat, c: Cursor, ft: FetchType, size: nat) {
    var target := TargetRow(c.currentRow, c.rowsFound, n, ft, size);
    0 <= target < n && size > 0
  }

  /** The status array after a rowset of `got` rows out of `size`; slots behind `size` are not touched. */
  function Statuses(before: seq<RowStatus>, size: nat, got: nat, conv: nat -> Conversion): (after: seq<RowStatus>)
    ensures |after| == |before|
  {
    seq(|before|, i requires 0 <= i < |before| =>
      if i < got then ToRowStatus(conv(i).row) else if i < size then NoRow else before[i])
  }

  /** Slot by slot: the outcome of each row fetched, no row behind them, and nothing behind the rowset. */
  predicate SlotsWritten(before: seq<RowStatus>, after: seq<RowStatus>, size: nat, got: nat, conv: nat -> Conversion) {
    && |after| == |before|
    && forall k: nat :: k < |after| ==>
         after[k] == if k >= size then before[k]
                     else if k >= got then NoRow
                     else if conv(k).row == Success then RowSuccess
                     else if conv(k).row == Info then RowInfo
                     else RowError
  }

  lemma StatusesWriteSlots(before: seq<RowStatus>, size: nat, got: nat, conv: nat -> Conversion)
    requires got <= size
    ensures SlotsWritten(before, Statuses(before, size, got, conv), size, got, conv)
  {
  }

  /** Marks the status slots no row was fetched for. */
  method FillNoRow(status: array<RowStatus>, from: nat, size: nat)
    requires from <= size <= status.Length
    modifies status
    ensures forall k :: 0 <= k < status.Length ==> status[k] == if from <= k < size then NoRow else old(status[k])
  {
    for i := from to size
      invariant forall k :: 0 <= k < status.Length ==> status[k] == if from <= k < i then NoRow else old(status[k])
    {
      status[i] := NoRow;
    }
  }

  /** A statement with a stored result; `pos` is the read position of that result. */
  class Statement<Row> {
    const rows: seq<Row>
    var currentRow: int
    var rowsFound: nat
    var endOfSet: nat
    var pos: nat
    var cursorRow: int

    ghost function Abs(): Cursor
      reads this
    {
      Cursor(currentRow, rowsFound, endOfSet, pos, cursorRow)
    }

    ghost predicate Valid()
      reads this
    {
      Inv(|rows|, Abs())
    }

    constructor (result: seq<Row>)
      ensures rows == result && Valid() && Abs() == Fresh(|result|)
    {
      rows := result;
      currentRow, rowsFound, endOfSet, pos, cursorRow := 0, 0, |result|, 0, -1;
    }

    /**
     Moves the cursor and seeks. None is the SQL_NO_DATA exit before the first row; otherwise the
     count of the previous rowset stays in place until the rowset has been read.
     */
    method SeekRow(target: int) returns (row: Option<nat>)
      requires Valid()
      modifies this
      ensures if target < 0 then
                row == None && Abs() == old(Abs()).(currentRow := -1, rowsFound := 0, pos := 0)
              else
                && row == Some(Min(target, |rows|))
                && Abs() == old(Abs()).(currentRow := row.value,
                                        pos := if TakesShortcut(old(Abs()), row.value) then endOfSet else row.value)
    {
      if target < 0 {
        currentRow := -1;
        rowsFound := 0;
        pos := 0;
        return None;
      }
      var curRow := target;
      if curRow > |rows| {
        curRow := |rows|;
      }
      if curRow != 0 && curRow == currentRow + rowsFound {
        pos := endOfSet;
      } else {
        pos := curRow;
      }
      currentRow := curRow;
      return Some(curRow);
    }

    /** The fetching cycle: reads up to `count` rows from the read position, one status slot each. */
    method ReadRows(count: nat, conv: nat -> Conversion, status: array?<RowStatus>)
      returns (res: Ret, fetched: seq<Row>)
      requires pos <= |rows|
      requires status != null ==> count <= status.Length
      modifies this`pos, status
      ensures var got := Min(count, |rows| - old(pos));
              && fetched == rows[old(pos)..old(pos) + got]
              && pos == old(pos) + got
              && res == Overall(conv, got)
              && (status != null ==> forall k :: 0 <= k < status.Length ==>
                    status[k] == if k < got then ToRowStatus(conv(k).row) else old(status[k]))
    {
      fetched := [];
      res := Success;
      var i := 0;
      while i < count && pos < |rows|
        invariant 0 <= i <= count
        invariant pos == old(pos) + i <= |rows|
        invariant fetched == rows[old(pos)..pos]
        invariant res == Overall(conv, i)
        invariant status != null ==>
                    forall k :: 0 <= k < status.Length ==>
                      status[k] == if k < i then ToRowStatus(conv(k).row) else old(status[k])
      {
        fetched := fetched + [rows[pos]];
        pos := pos + 1;
        res := Combine(res, i, conv(i).row, conv(i).bookmark);
        if status != null {
          status[i] := ToRowStatus(conv(i).row);
        }
        i := i + 1;
      }
    }

    /** The part of a fetch behind the seek, for a cursor already moved to `currentRow`. */
    method ReadRowset(size: nat, conv: nat -> Conversion, status: array?<RowStatus>)
      returns (ret: Ret, fetched: seq<Row>)
      requires 0 <= currentRow <= |rows| && pos <= |rows|
      requires status != null ==> size <= status.Length
      modifies this, status
      ensures var f := RowsetStep(|rows|, old(Abs()), old(currentRow), old(pos), size, conv);
              Abs() == f.cursor && ret == f.ret && fetched == rows[f.start..f.start + f.count]
      ensures status != null ==>
                status[..] == if size == 0 || old(currentRow) == |rows| then old(status[..])
                              else Statuses(old(status[..]), size, |fetched|, conv)
    {
      var rowsToFetch := Min(|rows| - currentRow, size);
      if rowsToFetch == 0 {
        rowsFound := 0;
        return NoData, [];
      }
      var savePosition := pos;
      ret, fetched := ReadRows(rowsToFetch, conv, status);
      rowsFound := |fetched|;
      if status != null {
        FillNoRow(status, |fetched|, size);
      }
      if Succeeded(ret) {
        endOfSet := pos;
        pos := savePosition;
      }
      if Succeeded(ret) && rowsFound < size && rowsFound == 0 {
        ret := NoData;
      }
    }

    /** Seeks to the row asked for and reads a rowset there. */
    method FetchRowset(target: int, size: nat, conv: nat -> Conversion, status: array?<RowStatus>)
      returns (ret: Ret, fetched: seq<Row>)
      requires Valid()
      requires status != null ==> size <= status.Length
      modifies this, status
      ensures Valid()
      ensures var f := FetchAt(|rows|, old(Abs()), target, size, conv);
              Abs() == f.cursor && ret == f.ret && fetched == rows[f.start..f.start + f.count]
      ensures status != null ==>
                status[..] == if size == 0 || !(0 <= target < |rows|) then old(status[..])
                              else Statuses(old(status[..]), size, |fetched|, conv)
    {
      ghost var before := Abs();
      FetchKeepsInv(|rows|, before, target, size, conv);
      var row := SeekRow(target);
      if row == None {
        return NoData, [];
      }
      RowsetStepOverwrites(|rows|, before, row.value, pos, size, conv);
      ret, fetched := ReadRowset(size, conv, status);
    }

    /** SQLExtendedFetch: reads one rowset, converting the row read into slot i with outcome conv(i). */
    method ExtendedFetch(ft: FetchType, size: nat, conv: nat -> Conversion, status: array?<RowStatus>)
      returns (ret: Ret, fetched: seq<Row>)
      requires Valid()
      requires status != null ==> size <= status.Length
      modifies this, status
      ensures Valid()
      ensures var f := FetchStep(|rows|, old(Abs()), ft, size, conv);
              Abs() == f.cursor && ret == f.ret && fetched == rows[f.start..f.start + f.count]
      ensures status != null ==>
                status[..] == if !Loops(|rows|, old(Abs()), ft, size) then old(status[..])
                              else Statuses(old(status[..]), size, |fetched|, conv)
    {
      var target := TargetRow(currentRow, rowsFound, |rows|, ft, size);
      ret, fetched := FetchRowset(target, size, conv, status);
    }

    /**
     What an application does to read a result: it fetches NEXT until SQL_NO_DATA. `outcome` gives the
     conversions of each fetch, none of which fails as a whole.
     */
    method FetchToEnd(size: nat, outcome: nat -> nat -> Conversion) returns (read: seq<Row>)
      requires Abs() == Fresh(|rows|) && size > 0
      requires forall k: nat, count: nat :: !AllFail(outcome(k), count)
      modifies this
      ensures Valid() && read == rows
    {
      read := [];
      var k := 0;
      while true
        invariant CanContinue(|rows|, Abs())
        invariant read == rows[..currentRow + rowsFound]
        decreases |rows| - |read|
      {
        NextFetch(|rows|, Abs(), size, outcome(k));
        var ret, fetched := ExtendedFetch(Next, size, outcome(k), null);
        if ret == NoData {
          return;
        }
        read, k := read + fetched, k + 1;
      }
    }

    /** SQLSetPos(SQL_POSITION): returns the row positioned on, None where the call is refused. */
    method SetPosition(irow: nat) returns (value: Option<Row>)
      requires Valid()
      modifies this
      ensures Valid() && Abs() == PositionStep(old(Abs()), |rows|, irow)
      ensures value == if irow > 0 && Accepts(old(Abs()), |rows|, irow)
                       then Some(rows[MeantRow(old(Abs()), irow)]) else None
    {
      if irow > |rows| || irow == 0 || irow > rowsFound {
        return None;
      }
      cursorRow := currentRow + irow - 1;
      pos := cursorRow;
      value := Some(rows[pos]);
      pos := cursorRow;
    }

    /**
     set_current_cursor_data and the reading of one row for a WHERE clause. The stored rows are a linked
     list, so repositioning walks it from the head. A value of None stands for a position behind the
     last row.
     */
    method AimAt(k: nat) returns (found: bool, value: Option<Row>)
      requires Valid() && (k <= 1 || k <= rowsFound)
      modifies this
      ensures Valid() && found == !NowhereToGo(|rows|, old(Abs()), k)
      ensures Abs() == if found then AimStep(old(Abs()), k) else old(Abs())
      ensures value == if found then ValueAt(rows, pos) else None
    {
      var rowPos := if k != 0 then currentRow + k - 1 else currentRow;
      if cursorRow != rowPos {
        if rows == [] {
          return false, None;
        }
        var node, nrow := 0, 0;
        while nrow < rowPos
          invariant 0 <= nrow && node == nrow && (nrow <= rowPos || nrow == 0)
        {
          node := node + 1;
          nrow := nrow + 1;
        }
        pos := node;
        cursorRow := rowPos;
      }
      found, value := true, if pos < |rows| then Some(rows[pos]) else None;
    }

    /**
     The loop of setpos_delete_std and setpos_update_std for rowset rows `at` to `end`: the rows whose
     values enter the WHERE clauses, and which clauses are limited to a rowset. A refused clause ends
     it, and so does an UPDATE that fails.
     */
    method AimAtRows(at: nat, end: nat, fails: nat -> bool) returns (values: seq<Option<Row>>, ghost aims: seq<Aim>)
      requires Valid() && 1 <= at <= end + 1 && (at <= rowsFound || at == 1) && end <= rowsFound
      modifies this
      ensures Valid() && (Abs(), aims) == AimLoop(|rows|, old(Abs()), at, LastBuilt(at, end, fails))
      ensures AreAims(rows, values, aims)
    {
      values, aims := [], [];
      ghost var start, last := Abs(), LastBuilt(at, end, fails);
      var i, more := at, true;
      while more
        invariant Valid() && at <= i && (i <= rowsFound || i == 1)
        invariant rowsFound == old(rowsFound)
        invariant more ==> LastBuilt(i, end, fails) == last
        invariant AreAims(rows, values, aims)
        invariant if more then Extends(AimLoop(|rows|, start, at, last), aims, AimLoop(|rows|, Abs(), i, last))
                  else (Abs(), aims) == AimLoop(|rows|, start, at, last)
        decreases end - i, more
      {
        AimLoopOnce(|rows|, start, at, aims, Abs(), i, last);
        var found, value := AimAt(i % TWO16);
        if !found {
          return;
        }
        OneMoreAim(rows, values, aims, Aim(pos, i % TWO16 == 0));
        values := values + [value];
        aims := aims + [Aim(pos, i % TWO16 == 0)];
        more := i + 1 <= end && !fails(i);
        i := if more then i + 1 else i;
      }
    }

    /**
     SQLSetPos(SQL_DELETE or SQL_UPDATE): the rows whose values enter the WHERE clauses; None where the
     row number is refused.
     */
    method WhereValues(irow: nat, fails: nat -> bool)
      returns (values: Option<seq<Option<Row>>>, ghost aims: seq<Aim>)
      requires Valid()
      modifies this
      ensures Valid() && (Abs(), aims) == WhereStep(old(Abs()), |rows|, irow, fails)
      ensures values.Some? <==> Accepts(old(Abs()), |rows|, irow)
      ensures values.Some? ==> AreAims(rows, values.value, aims)
    {
      if irow > |rows| || irow > rowsFound {
        return None, [];
      }
      var at, end := 1, rowsFound;
      if irow % TWO16 != 0 {
        at, end := irow % TWO16, irow % TWO16;
      }
      var found;
      found, aims := AimAtRows(at, end, fails);
      values := Some(found);
    }
  }

  /** The values are those of the rows aimed at. */
  ghost predicate AreAims<Row>(rows: seq<Row>, values: seq<Option<Row>>, aims: seq<Aim>) {
    && |values| == |aims|
    && forall i :: 0 <= i < |aims| ==> values[i] == ValueAt(rows, aims[i].row)
  }

  function ValueAt<Row>(rows: seq<Row>, row: int): Option<Row> {
    if 0 <= row < |rows| then Some(rows[row]) else None
  }

  lemma OneMoreAim<Row>(rows: seq<Row>, values: seq<Option<Row>>, aims: seq<Aim>, aim: Aim)
    requires AreAims(rows, values, aims)
    ensures AreAims(rows, values + [ValueAt(rows, aim.row)], aims + [aim])
  {
  }

  /** The whole is what has been built so far, followed by what is still to be built. */
  ghost predicate Extends(whole: (Cursor, seq<Aim>), done: seq<Aim>, rest: (Cursor, seq<Aim>)) {
    whole.0 == rest.0 && whole.1 == done + rest.1
  }

  lemma AimLoopOnce(n: nat, start: Cursor, at: nat, done: seq<Aim>, c: Cursor, i: nat, end: nat)
    requires Extends(AimLoop(n, start, at, end), done, AimLoop(n, c, i, end))
    ensures var c' := AimStep(c, Narrow(i));
            var done' := done + [Aim(c'.pos, Narrow(i) == 0)];
            if NowhereToGo(n, c, Narrow(i)) then (c, done) == AimLoop(n, start, at, end)
            else if i + 1 <= end then Extends(AimLoop(n, start, at, end), done', AimLoop(n, c', i + 1, end))
            else (c', done') == AimLoop(n, start, at, end)
  {
    assert done + [] == done;
  }
}

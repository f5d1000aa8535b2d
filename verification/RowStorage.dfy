/**
 The storage a forward-only prepared statement and the catalogue functions keep rows in: one flat
 vector of cells, rows one after another, with a current row. A prepared result is read two rows
 ahead into it before the first row is delivered.
 */
module RowStorage {
  import opened OdbcCodes

  /** A row of values; None is NULL. */
  type Row = seq<Option<string>>

  /** xstring: a text with a NULL mark that hides it. */
  datatype Cell = Cell(text: string, isNull: bool) {
    function Seen(): Option<string> {
      if isNull then None else Some(text)
    }

    /** set_data on one cell: a NULL replaces it, a text is assigned and leaves the mark as it is. */
    function Set(v: Option<string>): Cell {
      if v.Some? then this.(text := v.value) else Cell("", true)
    }
  }

  /** A new xstring for a value. */
  function CellOf(v: Option<string>): (cell: Cell)
    ensures cell.Seen() == v
  {
    if v.Some? then Cell(v.value, false) else Cell("", true)
  }

  const BLANK := Cell("", false)

  function SeenRow(cells: seq<Cell>): (row: Row)
    ensures |row| == |cells|
  {
    seq(|cells|, i requires 0 <= i < |cells| => cells[i].Seen())
  }

  /** A value of the row is NULL. */
  predicate NullAt(row: Row, i: nat) {
    i < |row| && row[i] == None
  }

  /** What set_data leaves of a row: values that were NULL stay NULL. */
  function Assigned(before: Row, row: Row): (after: Row)
    ensures |after| == |row|
  {
    seq(|row|, i requires 0 <= i < |row| => if NullAt(before, i) then None else row[i])
  }

  /** No value is assigned over a NULL. */
  predicate NoNullOverwritten(before: Row, row: Row) {
    forall i: nat :: i < |row| && NullAt(before, i) ==> NullAt(row, i)
  }

  /** set_data stores the row exactly when no value goes over a NULL. */
  lemma AssignedExactly(before: Row, row: Row)
    ensures Assigned(before, row) == row <==> NoNullOverwritten(before, row)
  {
    if Assigned(before, row) == row {
      forall i: nat | i < |row| && NullAt(before, i)
        ensures NullAt(row, i)
      {
        assert Assigned(before, row)[i] == row[i];
      }
    }
  }

  /** std::vector::resize: cut, or filled up with blank cells. */
  function Resized(data: seq<Cell>, size: nat): (r: seq<Cell>)
    ensures |r| == size
    ensures forall k :: 0 <= k < size ==> r[k] == if k < |data| then data[k] else BLANK
  {
    if size <= |data| then data[..size] else data + seq(size - |data|, _ => BLANK)
  }

  /** The first row after resizing. */
  function Leading(data: seq<Cell>, count: nat): (row: Row)
    ensures |row| == count
  {
    SeenRow(Resized(data, count))
  }

  /** Where row i starts among rows of c cells. */
  function Offset(i: nat, c: nat): nat {
    if i == 0 then 0 else Offset(i - 1, c) + c
  }

  lemma {:induction false} OffsetIsProduct(i: nat, c: nat)
    ensures Offset(i, c) == i * c
  {
    if i > 0 {
      OffsetIsProduct(i - 1, c);
      assert i * c == (i - 1) * c + c;
    }
  }

  lemma {:induction false} Earlier(i: nat, j: nat, c: nat)
    requires i < j
    ensures Offset(i, c) + c <= Offset(j, c)
    decreases j
  {
    if i < j - 1 {
      Earlier(i, j - 1, c);
    }
  }

  /** The i-th row of a flat vector of rows of c cells. */
  function RowAt(data: seq<Cell>, c: nat, i: nat): seq<Cell> {
    if Offset(i, c) + c <= |data| then data[Offset(i, c)..Offset(i, c) + c] else []
  }

  function Rows(data: seq<Cell>, c: nat, n: nat): (rows: seq<seq<Cell>>)
    ensures |rows| == n
  {
    seq(n, i requires 0 <= i < n => RowAt(data, c, i))
  }

  /** The first row of a storage that holds one. */
  lemma FirstIsLeading(data: seq<Cell>, c: nat, n: nat)
    requires |data| == Offset(n, c) && n > 0
    ensures SeenRow(RowAt(data, c, 0)) == Leading(data, c)
  {
    Earlier(0, n, c);
  }

  lemma LeadingIsFirst(data: seq<Cell>, c: nat, n: nat)
    requires n > 0
    ensures c <= Offset(n, c) && SeenRow(RowAt(Resized(data, Offset(n, c)), c, 0)) == Leading(data, c)
  {
    Earlier(0, n, c);
  }

  /** The cells of row i are those from `at` on; no others differ. */
  ghost predicate OnlyRow(data: seq<Cell>, data': seq<Cell>, at: nat, c: nat) {
    |data'| == |data| && forall k :: 0 <= k < |data| && !(at <= k < at + c) ==> data'[k] == data[k]
  }

  /** Overwriting the cells of row i changes that row only. */
  lemma RowReplaced(data: seq<Cell>, data': seq<Cell>, c: nat, n: nat, i: nat)
    requires |data| == Offset(n, c) && i < n && OnlyRow(data, data', Offset(i, c), c)
    ensures Offset(i, c) + c <= |data|
    ensures Rows(data', c, n) == Rows(data, c, n)[i := RowAt(data', c, i)]
  {
    Earlier(i, n, c);
    forall j | 0 <= j < n
      ensures RowAt(data', c, j) == Rows(data, c, n)[i := RowAt(data', c, i)][j]
    {
      Earlier(j, n, c);
      if j < i {
        Earlier(j, i, c);
      } else if i < j {
        Earlier(i, j, c);
      }
    }
  }

  /** Growing or cutting the vector at a row boundary keeps the rows that fit. */
  lemma RowsResized(data: seq<Cell>, data': seq<Cell>, c: nat, n: nat, n': nat)
    requires |data| == Offset(n, c) && |data'| == Offset(n', c)
    requires forall k :: 0 <= k < Min(|data|, |data'|) ==> data'[k] == data[k]
    ensures forall i :: 0 <= i < Min(n, n') ==> Rows(data', c, n')[i] == Rows(data, c, n)[i]
  {
    forall i | 0 <= i < Min(n, n')
      ensures RowAt(data', c, i) == RowAt(data, c, i)
    {
      Earlier(i, n, c);
      Earlier(i, n', c);
    }
  }

  function SeenRows(rows: seq<seq<Cell>>): (seen: seq<Row>)
    ensures |seen| == |rows|
  {
    seq(|rows|, i requires 0 <= i < |rows| => SeenRow(rows[i]))
  }

  lemma SeenReplaced(rows: seq<seq<Cell>>, i: nat, cells: seq<Cell>)
    requires i < |rows|
    ensures SeenRows(rows[i := cells]) == SeenRows(rows)[i := SeenRow(cells)]
  {
  }

  /** The values after row i has been overwritten by cells that show as `seen`. */
  lemma SeenAfter(data: seq<Cell>, data': seq<Cell>, c: nat, n: nat, i: nat, seen: Row)
    requires |data| == Offset(n, c) && i < n && |seen| == c && OnlyRow(data, data', Offset(i, c), c)
    requires Offset(i, c) + c <= |data|
    requires forall k :: 0 <= k < c ==> data'[Offset(i, c) + k].Seen() == seen[k]
    ensures SeenRows(Rows(data', c, n)) == SeenRows(Rows(data, c, n))[i := seen]
  {
    RowReplaced(data, data', c, n, i);
    SeenReplaced(Rows(data, c, n), i, RowAt(data', c, i));
    assert SeenRow(RowAt(data', c, i)) == seen;
  }

  /** The values of row i before and after set_data. */
  lemma SeenAfterSet(data: seq<Cell>, data': seq<Cell>, c: nat, n: nat, i: nat, row: Row)
    requires |data| == Offset(n, c) && i < n && |row| == c && OnlyRow(data, data', Offset(i, c), c)
    requires Offset(i, c) + c <= |data|
    requires forall k :: 0 <= k < c ==> data'[Offset(i, c) + k] == data[Offset(i, c) + k].Set(row[k])
    ensures var before := SeenRows(Rows(data, c, n));
            && SeenRows(Rows(data', c, n)) == before[i := Assigned(before[i], row)]
            && (Assigned(before[i], row) == row <==> NoNullOverwritten(before[i], row))
  {
    var cells := RowAt(data, c, i);
    var before := SeenRow(cells);
    forall k | 0 <= k < c
      ensures data'[Offset(i, c) + k].Seen() == Assigned(before, row)[k]
    {
      var v := row[k];
      assert data[Offset(i, c) + k] == cells[k] && before[k] == cells[k].Seen();
      assert data'[Offset(i, c) + k] == cells[k].Set(v);
      assert Assigned(before, row)[k] == if NullAt(before, k) then None else v;
    }
    SeenAfter(data, data', c, n, i, Assigned(before, row));
    AssignedExactly(before, row);
  }

  /** Sets the cells from `at` on by operator[], or with `assign` as set_data does. */
  method SetCells(data: seq<Cell>, at: nat, row: Row, assign: bool) returns (data': seq<Cell>)
    requires at + |row| <= |data|
    ensures OnlyRow(data, data', at, |row|)
    ensures forall k :: 0 <= k < |row| ==> data'[at + k] == if assign then data[at + k].Set(row[k]) else CellOf(row[k])
  {
    data' := data;
    for i := 0 to |row|
      invariant OnlyRow(data, data', at, i)
      invariant forall k :: 0 <= k < i ==> data'[at + k] == if assign then data[at + k].Set(row[k]) else CellOf(row[k])
    {
      data' := data'[at + i := if assign then data'[at + i].Set(row[i]) else CellOf(row[i])];
    }
  }

  /** The ROW_STORAGE structure. */
  class Storage {
    var rnum: nat
    var cnum: nat
    var curRow: nat
    var eof: bool
    var data: seq<Cell>

    /** The vector holds rnum rows, and the current row is one of them. */
    ghost predicate Valid()
      reads this
    {
      && |data| == Offset(rnum, cnum)
      && (rnum > 0 ==> cnum > 0 && curRow < rnum)
      && (rnum == 0 ==> curRow == 0)
    }

    ghost function Cells(): (rows: seq<seq<Cell>>)
      reads this
      ensures |rows| == rnum
    {
      Rows(data, cnum, rnum)
    }

    /** The values of the stored rows. */
    ghost function Stored(): (rows: seq<Row>)
      reads this
      ensures |rows| == rnum
    {
      SeenRows(Cells())
    }

    /** The stored rows not delivered yet. */
    ghost function Unread(): seq<Row>
      reads this
    {
      if eof || curRow > rnum then [] else Stored()[curRow..]
    }

    constructor ()
      ensures Valid() && rnum == 0 && eof && data == []
    {
      rnum, cnum, curRow, eof, data := 0, 0, 0, true, [];
    }

    method SetSize(newRows: nat, newCols: nat)
      requires Valid() && (newRows > 0 ==> newCols > 0)
      modifies this
      ensures Valid() && rnum == newRows && cnum == newCols && eof == old(eof)
      ensures newRows > 0 ==> curRow == Min(old(curRow), newRows - 1)
      ensures newRows > 0 && newCols == old(cnum) ==>
        forall i :: 0 <= i < Min(newRows, old(rnum)) ==> Stored()[i] == old(Stored())[i]
      ensures newRows > 0 ==> Stored()[0] == Leading(old(data), newCols)
    {
      var newSize := newRows * newCols;
      OffsetIsProduct(newRows, newCols);
      rnum, cnum := newRows, newCols;
      if newRows > 0 {
        Earlier(0, newRows, newCols);
      }
      if newSize > 0 {
        data := Resized(data, newSize);
        if curRow >= newRows {
          curRow := newRows - 1;
        }
        if newCols == old(cnum) {
          RowsResized(old(data), data, newCols, old(rnum), newRows);
        }
        LeadingIsFirst(old(data), newCols, newRows);
      } else {
        data, curRow := [], 0;
      }
    }

    /** invalidate: STMT::reset calls it before an execution. */
    method Invalidate() returns (was: bool)
      requires Valid()
      modifies this
      ensures Valid() && rnum == 0 && eof && data == []
      ensures was == (old(rnum) > 0)
    {
      was := rnum > 0;
      eof := true;
      SetSize(0, 0);
      assert data == [];
    }

    /** The next row to write: one more is added when fewer than two follow. */
    method NextRow() returns (enough: bool)
      requires Valid() && rnum > 0
      modifies this
      ensures Valid() && cnum == old(cnum) && eof == old(eof)
      ensures curRow == old(curRow) + 1
      ensures enough == (curRow < old(rnum) - 1)
      ensures rnum == if enough then old(rnum) else old(rnum) + 1
      ensures Stored()[..old(rnum)] == old(Stored())
      ensures !enough ==> Stored()[old(rnum)] == seq(cnum, _ => Some(""))
    {
      curRow := curRow + 1;
      if curRow < rnum - 1 {
        return true;
      }
      var c, n, d := cnum, rnum, data;
      rnum := rnum + 1;
      data := data + seq(cnum, _ => BLANK);
      RowsResized(d, data, c, n, n + 1);
      assert RowAt(data, c, n) == seq(c, _ => BLANK);
      return false;
    }

    method FirstRow()
      requires Valid()
      modifies this`curRow, this`eof
      ensures Valid() && curRow == 0 && eof == (rnum == 0)
    {
      curRow, eof := 0, rnum == 0;
    }

    /** Writes every cell of the current row through operator[]. */
    method WriteRow(row: Row)
      requires Valid() && rnum > 0 && |row| == cnum
      modifies this`data
      ensures Valid()
      ensures Stored() == old(Stored())[curRow := row]
    {
      Earlier(curRow, rnum, cnum);
      OffsetIsProduct(curRow, cnum);
      ghost var d := data;
      data := SetCells(data, curRow * cnum, row, false);
      SeenAfter(d, data, cnum, rnum, curRow, row);
    }

    /** set_data: copies a fetched row from the bind buffers. What was NULL in the current row stays NULL. */
    method SetData(row: Row)
      requires Valid() && rnum > 0 && |row| == cnum
      modifies this`data, this`eof
      ensures Valid() && !eof
      ensures Stored() == old(Stored())[curRow := Assigned(old(Stored())[curRow], row)]
      ensures Stored()[curRow] == row <==> NoNullOverwritten(old(Stored())[curRow], row)
    {
      Earlier(curRow, rnum, cnum);
      OffsetIsProduct(curRow, cnum);
      ghost var d := data;
      data := SetCells(data, curRow * cnum, row, true);
      eof := false;
      SeenAfterSet(d, data, cnum, rnum, curRow, row);
    }

    /** fill_data: copies the current row to the bind buffers and steps to the next one. */
    method FillData(bind: Row) returns (row: Row)
      requires Valid()
      modifies this`eof, this`curRow
      ensures Valid()
      ensures old(Unread()) == [] ==> row == bind && eof == old(eof) && curRow == old(curRow)
      ensures old(Unread()) != [] ==> row == old(Unread())[0] && Unread() == old(Unread())[1..]
    {
      row := bind;
      if curRow >= rnum || eof {
        return;
      }
      Earlier(curRow, rnum, cnum);
      OffsetIsProduct(curRow, cnum);
      row := SeenRow(data[curRow * cnum..curRow * cnum + cnum]);
      eof := rnum <= curRow + 1;
      curRow := curRow + if eof then 0 else 1;
    }

    /** The catalogue loop: write a row, step to the next, for every row of the answer. */
    method WriteRows(size: nat, rows: seq<Row>, cols: nat)
      requires Valid() && size > 0 && cols > 0
      requires forall k :: 0 <= k < |rows| ==> |rows[k]| == cols
      modifies this
      ensures Valid() && cnum == cols && curRow == |rows| < rnum
      ensures size <= rnum
      ensures Stored()[..|rows|] == rows
    {
      SetSize(size, cols);
      FirstRow();
      var k := 0;
      while k < |rows|
        invariant 0 <= k <= |rows|
        invariant Valid() && cnum == cols && curRow == k < rnum && size <= rnum
        invariant Stored()[..k] == rows[..k]
      {
        WriteRow(rows[k]);
        assert Stored()[..k + 1] == rows[..k + 1];
        ghost var was := Stored();
        var _ := NextRow();
        assert Stored()[..k + 1] == was[..k + 1];
        k := k + 1;
      }
    }
  }
}

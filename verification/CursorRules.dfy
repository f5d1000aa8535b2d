/**
 The cursor positioning rules of SQLFetchScroll (ODBC API Reference, "Cursor Positioning Rules"),
 written down from the standard, and exactly where the driver departs from them.
 */
module CursorRules {
  import opened FetchEngine

  /** Where a cursor is: before the first row, on a rowset that starts at a row counted from 1, or behind the last. */
  datatype Place = Before | At(start: int) | After

  /** The row after the current rowset is where NEXT goes; `found` is the size of that rowset. */
  function StandardNext(last: nat, here: Place, found: nat): Place {
    match here
    case Before => At(1)
    case At(start) => if start + found <= last then At(start + found) else After
    case After => After
  }

  function StandardPrior(last: nat, here: Place, size: nat): Place {
    match here
    case Before => Before
    case At(start) =>
      if start == 1 then Before
      else if start <= size then At(1)
      else At(start - size)
    case After => if last < size then At(1) else At(last - size + 1)
  }

  function StandardAbsolute(last: nat, offset: int, size: nat): Place {
    if offset < 0 && -offset <= last then At(last + offset + 1)
    else if offset < 0 && -offset > size then Before
    else if offset < 0 then At(1)
    else if offset == 0 then Before
    else if offset <= last then At(offset)
    else After
  }

  function StandardRelative(last: nat, here: Place, offset: int, size: nat): Place {
    match here
    case Before => if offset > 0 then StandardAbsolute(last, offset, size) else Before
    case After => if offset < 0 then StandardAbsolute(last, offset, size) else After
    case At(start) =>
      if start == 1 && offset < 0 then Before
      else if start > 1 && start + offset < 1 then if -offset > size then Before else At(1)
      else if start + offset <= last then At(start + offset)
      else After
  }

  function StandardPlace(last: nat, here: Place, found: nat, ft: FetchType, size: nat): Place
    requires !ft.Bookmark?
  {
    match ft
    case Next => StandardNext(last, here, found)
    case Prior => StandardPrior(last, here, size)
    case First => At(1)
    case Last => if size <= last then At(last - size + 1) else At(1)
    case Absolute(irow) => StandardAbsolute(last, irow, size)
    case Relative(irow) => StandardRelative(last, here, irow, size)
  }

  /** Nothing has been fetched yet: the driver keeps row 0 and an empty rowset. */
  predicate Unfetched(n: nat, c: Cursor) {
    c.currentRow == 0 && c.rowsFound == 0 && n > 0
  }

  function PlaceOf(n: nat, c: Cursor): Place {
    if c.currentRow < 0 || Unfetched(n, c) then Before
    else if c.currentRow < n then At(c.currentRow + 1)
    else After
  }

  /** The place a fetch moves the driver's cursor to. */
  function DriverPlace(n: nat, c: Cursor, ft: FetchType, size: nat): Place {
    var row := TargetRow(c.currentRow, c.rowsFound, n, ft, size);
    if row < 0 then Before else if row < n then At(row + 1) else After
  }

  /** PRIOR or LAST with a rowset larger than what is there, and RELATIVE as the very first fetch. */
  predicate Departs(n: nat, c: Cursor, ft: FetchType, size: nat) {
    match ft
    case Prior => 0 < c.currentRow < size
    case Last => n < size
    case Relative(irow) => Unfetched(n, c) && irow >= 0 && (irow == 0 || irow <= n)
    case _ => false
  }

  /** The driver follows the standard for every cursor state, fetch type and rowset size but those. */
  lemma FollowsTheStandard(n: nat, c: Cursor, ft: FetchType, size: nat)
    requires Inv(n, c) && n > 0 && size > 0 && !ft.Bookmark?
    ensures DriverPlace(n, c, ft, size) == StandardPlace(n, PlaceOf(n, c), c.rowsFound, ft, size)
            <==> !Departs(n, c, ft, size)
  {
    match ft
    case Relative(irow) =>
      if Unfetched(n, c) {
        assert DriverPlace(n, c, ft, size) == if irow < 0 then Before else if irow < n then At(irow + 1) else After;
      }
    case _ =>
  }

  /** A bookmark is the number of a row counted from 0; a negative one within a rowset of the start gives row 1. */
  lemma PlaceOfBookmark(n: nat, c: Cursor, irow: int, size: nat)
    requires n > 0
    ensures DriverPlace(n, c, Bookmark(irow), size) ==
            if 0 <= irow < n then At(irow + 1)
            else if irow >= n then After
            else if irow + size >= 0 then At(1)
            else Before
  {
  }

  /** What the driver does where it departs: no rows at all, where the standard starts at row 1. */
  lemma DeparturesOfPriorAndLast(n: nat, c: Cursor, ft: FetchType, size: nat)
    requires Inv(n, c) && n > 0 && (ft == Prior || ft == Last) && Departs(n, c, ft, size)
    ensures DriverPlace(n, c, ft, size) == Before
    ensures StandardPlace(n, PlaceOf(n, c), c.rowsFound, ft, size) == At(1)
  {
  }

  /** The cursor the fetch leaves is at the place it moved to, whenever the rowset has a row. */
  lemma PlaceAfterFetch(n: nat, c: Cursor, ft: FetchType, size: nat, conv: nat -> Conversion)
    requires Inv(n, c)
    ensures var f := FetchStep(n, c, ft, size, conv);
            f.count > 0 ==> PlaceOf(n, f.cursor) == DriverPlace(n, c, ft, size)
  {
  }
}

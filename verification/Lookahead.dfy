/**
 Reading a forward-only prepared result: two rows are read ahead when the result is obtained, and
 the fetches take first the stored rows and then the server's.
 */
module Lookahead {
  import opened OdbcCodes
  import opened RowStorage

  /** What STMT::fetch_row comes back with: a row, no more data, or an exception. */
  datatype Fetched = Got(row: Row) | End | Failed

  lemma StoredFirst(stored: seq<Row>, rest: seq<Row>)
    ensures stored == [] ==> stored + rest == rest
    ensures stored != [] ==> (stored + rest)[0] == stored[0] && (stored + rest)[1..] == stored[1..] + rest
  {
  }

  lemma Delivered(all: seq<Row>, row: Row, rest: seq<Row>)
    ensures all + ([row] + rest) == (all + [row]) + rest
  {
  }

  /** A statement over a server-side cursor holding the rows not yet read from the network. */
  class Statement {
    const storage: Storage
    const columns: nat
    var server: seq<Row>
    /** The connection breaks where the rows run out. */
    const breaks: bool
    var bind: Row

    ghost predicate Valid()
      reads this, storage
    {
      && storage.Valid()
      && (storage.rnum == 0 ==> storage.eof)
      && columns > 0
      && forall k :: 0 <= k < |server| ==> |server[k]| == columns
    }

    /** The rows still to be delivered, in order. */
    ghost function Pending(): seq<Row>
      reads this, storage
    {
      storage.Unread() + server
    }

    constructor (columns: nat, rows: seq<Row>, breaks: bool)
      requires columns > 0
      requires forall k :: 0 <= k < |rows| ==> |rows[k]| == columns
      ensures Valid() && server == rows && Pending() == rows
      ensures this.columns == columns && this.breaks == breaks && fresh(storage) && storage.data == []
    {
      this.columns, this.breaks := columns, breaks;
      server, bind := rows, [];
      storage := new Storage();
    }

    /** The first of the rows is taken, or there is none. */
    ghost predicate Delivers(f: Fetched, rows: seq<Row>, rest: seq<Row>) {
      if f.Got? then rows != [] && f.row == rows[0] && rest == rows[1..]
      else rows == rest == [] && f == if breaks then Failed else End
    }

    /** fetch_row: from the storage unless that is at its end or the caller reads past it. */
    method FetchRow(readUnbuffered: bool) returns (f: Fetched)
      requires Valid()
      modifies this`server, this`bind, storage`eof, storage`curRow
      ensures Valid()
      ensures readUnbuffered ==> storage.eof == old(storage.eof) && storage.curRow == old(storage.curRow)
      ensures readUnbuffered ==> Delivers(f, old(server), server)
      ensures !readUnbuffered ==> Delivers(f, old(Pending()), Pending())
    {
      if readUnbuffered || storage.eof {
        f := ReadServer();
      } else {
        StoredFirst(storage.Unread(), server);
        bind := storage.FillData(bind);
        f := Got(bind);
      }
    }

    /** mysql_stmt_fetch. */
    method ReadServer() returns (f: Fetched)
      modifies this`server, this`bind
      ensures Delivers(f, old(server), server)
    {
      if server == [] {
        return if breaks then Failed else End;
      }
      bind, server := server[0], server[1..];
      f := Got(bind);
    }

    /**
     ssps_get_result for a forward-only cursor. The first row is stored over the first cells of the
     storage, where a NULL left from an earlier result stays. When the server has no row the storage is
     left as it was, so rows of an earlier result would still be delivered.
     */
    method GetResult() returns (ret: Ret)
      requires Valid()
      modifies this`server, this`bind, storage
      ensures Valid()
      ensures Pending() == Result(old(storage.data), old(Pending()), old(server))
      ensures old(server) != [] ==> |storage.Unread()| == Min(2, |old(server)|)
      ensures old(server) != [] ==> Holds(Assigned(Leading(old(storage.data), columns), old(server)[0]))
      ensures ret == if breaks && |old(server)| < 2 then Error else Success
    {
      ghost var data, rows := storage.data, server;
      var first := FetchRow(true);
      if !first.Got? {
        return if first.Failed? then Error else Success;
      }
      ghost var stored := Assigned(Leading(data, columns), rows[0]);
      StoreFirst(first.row);
      var second := FetchRow(true);
      if second.Failed? {
        return Error;
      }
      if second.Got? {
        StoreSecond(second.row, stored);
      }
      storage.FirstRow();
      return Success;
    }

    /** The first row in the storage. */
    ghost predicate Holds(row: Row)
      reads this, storage
    {
      storage.rnum > 0 && storage.cnum == columns && storage.Stored()[0] == row
    }

    /** Makes the storage one row long and stores the first row there. */
    method StoreFirst(row: Row)
      requires storage.Valid() && columns == |row| > 0
      modifies storage
      ensures storage.Valid() && storage.cnum == columns && storage.curRow == 0 && !storage.eof
      ensures storage.Stored() == [Assigned(Leading(old(storage.data), columns), row)]
    {
      storage.SetSize(1, columns);
      storage.SetData(row);
    }

    /** Adds the second row behind the first. */
    method StoreSecond(row: Row, ghost first: Row)
      requires storage.Valid() && storage.Stored() == [first] && storage.curRow == 0
      requires storage.cnum == columns == |row|
      modifies storage
      ensures storage.Valid() && storage.cnum == columns && !storage.eof && storage.Stored() == [first, row]
    {
      var _ := storage.NextRow();
      ghost var stored := storage.Stored();
      assert stored[0] == stored[..1][0] == first;
      storage.SetData(row);
      assert Assigned(stored[1], row) == row;
    }

    /** What is delivered after ssps_get_result, for the cells left over and the rows of the server. */
    ghost function Result(data: seq<Cell>, before: seq<Row>, rows: seq<Row>): seq<Row> {
      if rows == [] then before else [Assigned(Leading(data, columns), rows[0])] + rows[1..]
    }

    /** The server's rows are delivered exactly when no value of the first one goes over a left-over NULL. */
    lemma ResultExactly(data: seq<Cell>, before: seq<Row>, rows: seq<Row>)
      requires rows != []
      ensures Result(data, before, rows) == rows <==> NoNullOverwritten(Leading(data, columns), rows[0])
    {
      AssignedExactly(Leading(data, columns), rows[0]);
      assert rows == [rows[0]] + rows[1..];
      if Result(data, before, rows) == rows {
        assert Result(data, before, rows)[0] == rows[0];
      }
    }

    /** The next result of the same statement, with the storage as the last one left it. */
    method NextResult(rows: seq<Row>)
      requires Valid() && forall k :: 0 <= k < |rows| ==> |rows[k]| == columns
      modifies this`server
      ensures Valid() && server == rows
    {
      server := rows;
    }

    /** Fetching until there is no more data delivers every pending row once, in order. */
    method FetchAll() returns (all: seq<Row>, failed: bool)
      requires Valid()
      modifies this`server, this`bind, storage`eof, storage`curRow
      ensures all == old(Pending()) && failed == breaks && Pending() == []
    {
      all := [];
      while true
        invariant Valid()
        invariant all + Pending() == old(Pending())
        decreases |Pending()|
      {
        ghost var rows := Pending();
        var f := FetchRow(false);
        if !f.Got? {
          return all, f.Failed?;
        }
        assert rows == [f.row] + Pending();
        Delivered(all, f.row, Pending());
        all := all + [f.row];
      }
    }
  }

  /** A cleared storage holds no NULL. */
  lemma ClearedIsSafe(columns: nat, row: Row)
    ensures NoNullOverwritten(Leading([], columns), row)
  {
  }

  /** Reading two rows ahead and then fetching to the end delivers the server's rows. */
  method ReadResult(columns: nat, rows: seq<Row>, breaks: bool)
    returns (ret: Ret, all: seq<Row>, failed: bool)
    requires columns > 0
    requires forall k :: 0 <= k < |rows| ==> |rows[k]| == columns
    ensures ret == if breaks && |rows| < 2 then Error else Success
    ensures ret.Success? ==> all == rows && failed == breaks
  {
    var stmt;
    stmt, ret := Open(columns, rows, breaks);
    all, failed := stmt.FetchAll();
  }

  /** A new statement with its result read ahead. */
  method Open(columns: nat, rows: seq<Row>, breaks: bool) returns (stmt: Statement, ret: Ret)
    requires columns > 0
    requires forall k :: 0 <= k < |rows| ==> |rows[k]| == columns
    ensures fresh(stmt) && fresh(stmt.storage) && stmt.Valid()
    ensures stmt.columns == columns && stmt.breaks == breaks && stmt.Pending() == rows
    ensures rows != [] ==> |stmt.storage.Unread()| == Min(2, |rows|) && stmt.Holds(rows[0])
    ensures ret == if breaks && |rows| < 2 then Error else Success
  {
    stmt := new Statement(columns, rows, breaks);
    if rows != [] {
      ClearedIsSafe(columns, rows[0]);
      AssignedExactly(Leading([], columns), rows[0]);
      stmt.ResultExactly([], [], rows);
    }
    ret := stmt.GetResult();
  }

  /**
   The results of two parameter sets, the storage not being cleared between them. With no row in the
   second, rows of the first are delivered; otherwise the second is delivered exactly when its first row
   has a NULL wherever the first row of the first has one.
   */
  method ReadNextResult(columns: nat, rows: seq<Row>, next: seq<Row>) returns (all: seq<Row>)
    requires columns > 0 && rows != []
    requires forall k :: 0 <= k < |rows| ==> |rows[k]| == columns
    requires forall k :: 0 <= k < |next| ==> |next[k]| == columns
    ensures next == [] ==> all == rows[..Min(2, |rows|)]
    ensures next != [] ==> (all == next <==> NoNullOverwritten(rows[0], next[0]))
  {
    var stmt, ret := Open(columns, rows, false);
    assert stmt.storage.Unread() == rows[..Min(2, |rows|)];
    stmt.NextResult(next);
    all := ReadOver(stmt, rows[0]);
  }

  /** Reading a result into a storage that holds a row. */
  method ReadOver(stmt: Statement, ghost row: Row) returns (all: seq<Row>)
    requires stmt.Valid() && stmt.Holds(row)
    modifies stmt, stmt.storage
    ensures old(stmt.server) == [] ==> all == old(stmt.storage.Unread())
    ensures old(stmt.server) != [] ==> (all == old(stmt.server) <==> NoNullOverwritten(row, old(stmt.server)[0]))
  {
    FirstIsLeading(stmt.storage.data, stmt.columns, stmt.storage.rnum);
    if stmt.server != [] {
      stmt.ResultExactly(stmt.storage.data, stmt.Pending(), stmt.server);
    }
    var ret := stmt.GetResult();
    var failed;
    all, failed := stmt.FetchAll();
  }
}

/**
 The effect of a positioned delete: which rows the WHERE clause built from the cursor row matches,
 and which row LIMIT 1 lets the server remove.
 */
module PositionedRows {
  import opened OdbcCodes
  import opened UniqueKeys
  import opened TimeText

  /** A column value; None is NULL. */
  type Value = Option<string>
  type Row = map<string, Value>

  /**
   How the conversions of insert_param treat a column: TIME with its number of fraction digits, BIT(1)
   (and BOOL on MatrixOne), floating-point, binary, and everything else.
   */
  datatype Kind = Plain | Binary | Floating | Time(digits: nat) | Bit

  /**
   The table's column types, and how the server prints floating-point values. A stored floating-point
   value is written here as its exact text, a TIME value as it is printed.
   */
  datatype Typing = Typing(kind: string -> Kind, show: string -> string)

  function Printed(ty: Typing, column: string, v: Value): Value {
    if v.Some? && ty.kind(column) == Floating then Some(ty.show(v.value)) else v
  }

  /** The value of a C string. */
  function BeforeNul(s: string): (r: string)
    ensures '\0' !in r
    ensures r == s <==> '\0' !in s
  {
    if s == "" || s[0] == '\0' then "" else [s[0]] + BeforeNul(s[1..])
  }

  /** What a condition asks for: a NULL, or a value; the literal can also be refused or be missing. */
  datatype Sense = IsNull | Means(text: string) | Refused | Missing

  /**
   What insert_field_std makes of a fetched value. It ends at the first zero byte; a TIME value is read
   and printed again, and nothing is written for a BIT.
   */
  function SenseOf(ty: Typing, column: string, v: Value): Sense {
    if v == None then IsNull
    else
      match ty.kind(column)
      case Bit => Missing
      case Time(digits) =>
        var literal := Converted(BeforeNul(v.value));
        if literal == None then Refused else Means(AtPrecision(literal.value, digits))
      case _ => Means(BeforeNul(v.value))
  }

  function Stored(v: Value): (s: Sense)
    ensures s.IsNull? || s.Means?
  {
    if v == None then IsNull else Means(v.value)
  }

  lemma StoredOnce(v: Value, w: Value)
    ensures Stored(v) == Stored(w) <==> v == w
  {
  }

  /** The condition built from a fetched value asks for the stored value it was printed from. */
  predicate Exact(ty: Typing, column: string, v: Value) {
    SenseOf(ty, column, Printed(ty, column, v)) == Stored(v)
  }

  /** For text, numbers and the like that means: no zero byte. */
  lemma ExactIfPlain(ty: Typing, column: string, v: Value)
    requires ty.kind(column) == Plain || ty.kind(column) == Binary
    ensures Exact(ty, column, v) <==> (v.Some? ==> '\0' !in v.value)
  {
  }

  /** A BIT is found only if it is NULL. */
  lemma ExactIfBit(ty: Typing, column: string, v: Value)
    requires ty.kind(column) == Bit
    ensures Exact(ty, column, v) <==> v == None
  {
  }

  lemma PrintHasNoNul(t: TimeValue)
    requires IsTime(t)
    ensures '\0' !in Print(t)
  {
    TwoDigitsIs(t.hours);
    TwoDigitsIs(t.minutes);
    TwoDigitsIs(t.seconds);
    assert '\0' !in Clock(t.hours, t.minutes, t.seconds);
    assert '\0' !in Fraction(t.fraction);
  }

  /**
   A TIME value is found exactly if it is not negative, has no fraction, and lies within a day; where
   the column has fraction digits, only midnight is.
   */
  lemma ExactIfTime(ty: Typing, column: string, t: TimeValue)
    requires IsTime(t) && ty.kind(column) == Time(|t.fraction|)
    ensures Exact(ty, column, Some(Print(t))) <==> Survives(t)
  {
    PrintHasNoNul(t);
    TimeExactly(t);
  }

  /** A column and its fetched value, for a condition in the clause. */
  datatype Term = Term(column: string, value: Value)

  /** The row meets all conditions; a refused or missing literal leaves a statement that finds no row. */
  predicate Matches(ty: Typing, row: Row, terms: seq<Term>) {
    forall i :: 0 <= i < |terms| ==> Meets(ty, row, terms[i])
  }

  predicate Meets(ty: Typing, row: Row, t: Term) {
    t.column in row && Stored(row[t.column]) == SenseOf(ty, t.column, t.value)
  }

  /** The terms for the result columns ts, with the values of the cursor row. */
  function TermsFor(fields: seq<string>, values: seq<Value>, ts: seq<nat>): (terms: seq<Term>)
    requires |values| == |fields| && forall i :: 0 <= i < |ts| ==> ts[i] < |fields|
    ensures |terms| == |ts|
  {
    seq(|ts|, i requires 0 <= i < |ts| => Term(fields[ts[i]], values[ts[i]]))
  }

  /** The table row shows the cursor's values in all result columns. */
  predicate RowShows(ty: Typing, row: Row, fields: seq<string>, values: seq<Value>)
    requires |values| == |fields|
  {
    forall n :: 0 <= n < |fields| ==> fields[n] in row && values[n] == Printed(ty, fields[n], row[fields[n]])
  }

  /** Every row has exactly the table's columns. */
  ghost predicate Table(rows: seq<Row>, columns: set<string>) {
    forall i :: 0 <= i < |rows| ==> rows[i].Keys == columns
  }

  /** Two rows agree on a key and have no NULL in it. */
  ghost predicate SameKey(a: Row, b: Row, pk: seq<string>) {
    forall k :: 0 <= k < |pk| ==> pk[k] in a && pk[k] in b && a[pk[k]].Some? && a[pk[k]] == b[pk[k]]
  }

  /** The unique key holds; as in SQL, a NULL in it lifts the restriction. */
  ghost predicate UniqueOn(rows: seq<Row>, pk: seq<string>) {
    forall i, j :: 0 <= i < j < |rows| ==> !SameKey(rows[i], rows[j], pk)
  }

  function Removed<T>(s: seq<T>, i: nat): seq<T>
    requires i < |s|
  {
    s[..i] + s[i + 1..]
  }

  /** DELETE ... WHERE terms LIMIT 1: one matching row goes, of the server's choice, if there is one. */
  ghost predicate DeleteOne(ty: Typing, rows: seq<Row>, terms: seq<Term>, rows': seq<Row>) {
    if forall i :: 0 <= i < |rows| ==> !Matches(ty, rows[i], terms) then rows' == rows
    else exists i: nat :: i < |rows| && Matches(ty, rows[i], terms) && rows' == Removed(rows, i)
  }

  // ---------------------------------------------------------------- by unique key

  ghost predicate KeyNotNull(fields: seq<string>, values: seq<Value>, ts: seq<nat>)
    requires |values| == |fields|
  {
    forall t :: t in ts && t < |fields| ==> values[t].Some?
  }

  ghost predicate KeyTerms(fields: seq<string>, values: seq<Value>, pk: seq<string>, ts: seq<nat>) {
    && |values| == |fields|
    && Bijection(fields, pk, ts)
    && forall i :: 0 <= i < |ts| ==> ts[i] in ts && ts[i] < |fields|
  }

  /** All key values of the row survive printing and being cut. */
  ghost predicate KeyExact(ty: Typing, row: Row, pk: seq<string>) {
    forall k :: 0 <= k < |pk| ==> pk[k] in row ==> Exact(ty, pk[k], row[pk[k]])
  }

  /** A row that shows the cursor's values is matched exactly if its key is. */
  lemma ShownIsMatched(ty: Typing, row: Row, fields: seq<string>, values: seq<Value>, pk: seq<string>, ts: seq<nat>)
    requires KeyTerms(fields, values, pk, ts) && RowShows(ty, row, fields, values)
    ensures Matches(ty, row, TermsFor(fields, values, ts)) <==> KeyExact(ty, row, pk)
  {
    var terms := TermsFor(fields, values, ts);
    if KeyExact(ty, row, pk) {
      forall i | 0 <= i < |ts|
        ensures Meets(ty, row, terms[i])
      {
        var t := ts[i];
        assert t in ts && fields[t] in pk;
        var k :| 0 <= k < |pk| && pk[k] == fields[t];
        assert terms[i] == Term(pk[k], values[t]);
      }
    }
    if Matches(ty, row, terms) {
      forall k | 0 <= k < |pk| && pk[k] in row
        ensures Exact(ty, pk[k], row[pk[k]])
      {
        var i := TermOfKey(fields, values, pk, ts, k);
        assert terms[i] == Term(pk[k], values[ts[i]]) && Meets(ty, row, terms[i]);
      }
    }
  }

  /** The term for the k-th key column. */
  lemma TermOfKey(fields: seq<string>, values: seq<Value>, pk: seq<string>, ts: seq<nat>, k: nat) returns (i: nat)
    requires KeyTerms(fields, values, pk, ts) && k < |pk|
    ensures i < |ts| && ts[i] < |fields| && fields[ts[i]] == pk[k]
  {
    var column := pk[k];
    var t :| t in ts && t < |fields| && fields[t] == column;
    i :| 0 <= i < |ts| && ts[i] == t;
  }

  /** Two matched rows have the same key. */
  lemma MatchedHaveSameKey(ty: Typing, a: Row, b: Row, fields: seq<string>, values: seq<Value>, pk: seq<string>,
                           ts: seq<nat>)
    requires KeyTerms(fields, values, pk, ts) && KeyNotNull(fields, values, ts)
    requires Matches(ty, a, TermsFor(fields, values, ts)) && Matches(ty, b, TermsFor(fields, values, ts))
    ensures SameKey(a, b, pk)
  {
    var terms := TermsFor(fields, values, ts);
    forall k | 0 <= k < |pk|
      ensures pk[k] in a && pk[k] in b && a[pk[k]].Some? && a[pk[k]] == b[pk[k]]
    {
      var i := TermOfKey(fields, values, pk, ts, k);
      assert terms[i] == Term(pk[k], values[ts[i]]) && ts[i] in ts;
      assert Meets(ty, a, terms[i]) && Meets(ty, b, terms[i]);
      StoredOnce(a[pk[k]], b[pk[k]]);
    }
  }

  /** With no NULL in the key at most one row is matched. */
  lemma AtMostOneMatch(ty: Typing, rows: seq<Row>, i: nat, j: nat, fields: seq<string>, values: seq<Value>,
                       pk: seq<string>, ts: seq<nat>)
    requires KeyTerms(fields, values, pk, ts) && KeyNotNull(fields, values, ts) && UniqueOn(rows, pk)
    requires i < |rows| && j < |rows|
    requires Matches(ty, rows[i], TermsFor(fields, values, ts)) && Matches(ty, rows[j], TermsFor(fields, values, ts))
    ensures i == j
  {
    MatchedHaveSameKey(ty, rows[i], rows[j], fields, values, pk, ts);
    MatchedHaveSameKey(ty, rows[j], rows[i], fields, values, pk, ts);
  }

  /** With an exact key the delete takes the cursor row c and nothing else. */
  lemma KeyDeletesCursorRow(ty: Typing, rows: seq<Row>, c: nat, rows': seq<Row>, fields: seq<string>,
                            values: seq<Value>, pk: seq<string>, ts: seq<nat>)
    requires KeyTerms(fields, values, pk, ts) && KeyNotNull(fields, values, ts) && UniqueOn(rows, pk)
    requires c < |rows| && RowShows(ty, rows[c], fields, values) && KeyExact(ty, rows[c], pk)
    requires DeleteOne(ty, rows, TermsFor(fields, values, ts), rows')
    ensures rows' == Removed(rows, c)
  {
    ShownIsMatched(ty, rows[c], fields, values, pk, ts);
    var i: nat :| i < |rows| && Matches(ty, rows[i], TermsFor(fields, values, ts)) && rows' == Removed(rows, i);
    AtMostOneMatch(ty, rows, i, c, fields, values, pk, ts);
  }

  /** With an inexact key it never takes the cursor row. */
  lemma InexactKeySparesCursorRow(ty: Typing, rows: seq<Row>, c: nat, rows': seq<Row>, fields: seq<string>,
                                  values: seq<Value>, pk: seq<string>, ts: seq<nat>)
    requires KeyTerms(fields, values, pk, ts)
    requires c < |rows| && RowShows(ty, rows[c], fields, values) && !KeyExact(ty, rows[c], pk)
    requires DeleteOne(ty, rows, TermsFor(fields, values, ts), rows')
    ensures rows' == rows || exists i: nat :: i < |rows| && i != c && rows' == Removed(rows, i)
  {
    ShownIsMatched(ty, rows[c], fields, values, pk, ts);
  }

  /** What the scan keeps is the distinct columns of a unique key, all of them in the result. */
  lemma ScanKeepsKey(keys: seq<Key>, fields: seq<string>) returns (key: Key)
    requires AllProper(keys) && Scan(AllRows(keys), fields, 0, [], 0) != []
    ensures key in keys && Proper(key) && Usable(key, fields)
    ensures key.columns == Scan(AllRows(keys), fields, 0, [], 0)
  {
    ScanFindsFirstUsable(keys, fields);
    FirstUsableIsUsable(keys, fields);
    var j :| 0 <= j < |keys| && Usable(keys[j], fields) && FirstUsable(keys, fields) == keys[j].columns;
    key := keys[j];
    EachProper(keys, j);
  }

  lemma {:induction false} EachProper(keys: seq<Key>, j: nat)
    requires AllProper(keys) && j < |keys|
    ensures Proper(keys[j])
  {
    if j > 0 {
      EachProper(keys[1..], j - 1);
    }
  }

  ghost predicate KeysHold(rows: seq<Row>, keys: seq<Key>) {
    forall k :: k in keys && k.unique ==> UniqueOn(rows, k.columns)
  }

  /**
   From SHOW KEYS to the table: if a key was found and its columns all found their terms, a delete
   with an exact key without NULL takes the cursor row and nothing else, in every table that keeps its
   keys.
   */
  lemma FoundKeyDeletesCursorRow(ty: Typing, keys: seq<Key>, fields: seq<string>, values: seq<Value>,
                                 rows: seq<Row>, c: nat, rows': seq<Row>)
    requires AllProper(keys) && KeysHold(rows, keys) && |values| == |fields|
    requires c < |rows| && RowShows(ty, rows[c], fields, values)
    requires var pk := Scan(AllRows(keys), fields, 0, [], 0);
             var ts := Terms(fields, pk, 0);
             && pk != [] && |ts| == |pk| && KeyNotNull(fields, values, ts) && KeyExact(ty, rows[c], pk)
             && (forall i :: 0 <= i < |ts| ==> ts[i] < |fields|)
             && DeleteOne(ty, rows, TermsFor(fields, values, ts), rows')
    ensures rows' == Removed(rows, c)
  {
    var key := ScanKeepsKey(keys, fields);
    var pk := key.columns;
    CountMeansBijection(fields, pk);
    KeyDeletesCursorRow(ty, rows, c, rows', fields, values, pk, Terms(fields, pk, 0));
  }

  // ---------------------------------------------------------------- which keys are safe

  /**
   For every table that satisfies the key and has the cursor row, the delete removes one copy of the
   cursor row.
   */
  ghost predicate SafeDelete(ty: Typing, columns: set<string>, fields: seq<string>, values: seq<Value>,
                             pk: seq<string>, ts: seq<nat>, cursor: Row)
    requires KeyTerms(fields, values, pk, ts)
  {
    forall rows: seq<Row>, c: nat, rows': seq<Row> ::
      && Table(rows, columns) && UniqueOn(rows, pk)
      && c < |rows| && rows[c] == cursor
      && DeleteOne(ty, rows, TermsFor(fields, values, ts), rows')
      ==> multiset(rows') == multiset(rows) - multiset{cursor}
  }

  lemma RemovedMultiset<T>(s: seq<T>, i: nat)
    requires i < |s|
    ensures multiset(Removed(s, i)) == multiset(s) - multiset{s[i]}
  {
    assert s == s[..i] + [s[i]] + s[i + 1..];
  }

  /** If the key is made of all the table's columns, matched rows are equal. */
  lemma MatchedAreEqual(ty: Typing, a: Row, b: Row, columns: set<string>, fields: seq<string>, values: seq<Value>,
                        pk: seq<string>, ts: seq<nat>)
    requires KeyTerms(fields, values, pk, ts) && a.Keys == columns && b.Keys == columns
    requires forall x :: x in columns ==> x in pk
    requires Matches(ty, a, TermsFor(fields, values, ts)) && Matches(ty, b, TermsFor(fields, values, ts))
    ensures a == b
  {
    var terms := TermsFor(fields, values, ts);
    forall x | x in columns
      ensures a[x] == b[x]
    {
      var k :| 0 <= k < |pk| && pk[k] == x;
      var i := TermOfKey(fields, values, pk, ts, k);
      assert terms[i] == Term(x, values[ts[i]]);
    }
  }

  lemma SafeIfNotNullOrAllColumns(ty: Typing, columns: set<string>, fields: seq<string>, values: seq<Value>,
                                  pk: seq<string>, ts: seq<nat>, cursor: Row)
    requires KeyTerms(fields, values, pk, ts) && RowShows(ty, cursor, fields, values) && KeyExact(ty, cursor, pk)
    requires KeyNotNull(fields, values, ts) || forall x :: x in columns ==> x in pk
    ensures SafeDelete(ty, columns, fields, values, pk, ts, cursor)
  {
    forall rows: seq<Row>, c: nat, rows': seq<Row> |
      && Table(rows, columns) && UniqueOn(rows, pk)
      && c < |rows| && rows[c] == cursor
      && DeleteOne(ty, rows, TermsFor(fields, values, ts), rows')
      ensures multiset(rows') == multiset(rows) - multiset{cursor}
    {
      OneCopyGoes(ty, columns, fields, values, pk, ts, rows, c, rows');
    }
  }

  lemma OneCopyGoes(ty: Typing, columns: set<string>, fields: seq<string>, values: seq<Value>, pk: seq<string>,
                    ts: seq<nat>, rows: seq<Row>, c: nat, rows': seq<Row>)
    requires KeyTerms(fields, values, pk, ts) && Table(rows, columns) && UniqueOn(rows, pk)
    requires c < |rows| && RowShows(ty, rows[c], fields, values) && KeyExact(ty, rows[c], pk)
    requires KeyNotNull(fields, values, ts) || forall x :: x in columns ==> x in pk
    requires DeleteOne(ty, rows, TermsFor(fields, values, ts), rows')
    ensures multiset(rows') == multiset(rows) - multiset{rows[c]}
  {
    ShownIsMatched(ty, rows[c], fields, values, pk, ts);
    var i: nat :| i < |rows| && Matches(ty, rows[i], TermsFor(fields, values, ts)) && rows' == Removed(rows, i);
    if KeyNotNull(fields, values, ts) {
      AtMostOneMatch(ty, rows, i, c, fields, values, pk, ts);
    } else {
      MatchedAreEqual(ty, rows[i], rows[c], columns, fields, values, pk, ts);
    }
    RemovedMultiset(rows, i);
  }

  /** An inexact key already fails in the table that has the cursor row only. */
  lemma InexactKeyIsUnsafe(ty: Typing, columns: set<string>, fields: seq<string>, values: seq<Value>, pk: seq<string>,
                           ts: seq<nat>, cursor: Row)
    requires KeyTerms(fields, values, pk, ts) && cursor.Keys == columns && RowShows(ty, cursor, fields, values)
    requires !KeyExact(ty, cursor, pk)
    ensures !SafeDelete(ty, columns, fields, values, pk, ts, cursor)
  {
    var rows := [cursor];
    ShownIsMatched(ty, cursor, fields, values, pk, ts);
    assert Table(rows, columns) && UniqueOn(rows, pk) && rows[0] == cursor;
    assert DeleteOne(ty, rows, TermsFor(fields, values, ts), rows);
    assert multiset(rows)[cursor] == 1 && (multiset(rows) - multiset{cursor})[cursor] == 0;
  }

  /** A value outside the key does not matter to the clause. */
  lemma TwinIsMatched(ty: Typing, row: Row, other: string, v: Value, fields: seq<string>, values: seq<Value>,
                      pk: seq<string>, ts: seq<nat>)
    requires KeyTerms(fields, values, pk, ts) && other !in pk
    requires Matches(ty, row, TermsFor(fields, values, ts))
    ensures Matches(ty, row[other := v], TermsFor(fields, values, ts))
  {
    var terms := TermsFor(fields, values, ts);
    forall i | 0 <= i < |ts|
      ensures Meets(ty, row[other := v], terms[i])
    {
      assert fields[ts[i]] in pk && Meets(ty, row, terms[i]);
    }
  }

  /** A NULL in the key of the first row lifts the restriction for a table of two. */
  lemma NullLiftsUniqueness(a: Row, b: Row, pk: seq<string>, k: nat)
    requires k < |pk| && (pk[k] in a ==> a[pk[k]] == None)
    ensures UniqueOn([a, b], pk)
  {
  }

  /** Two rows that differ outside the key only, with a NULL in the key: the wrong one can be taken. */
  lemma NullKeyIsUnsafe(ty: Typing, columns: set<string>, fields: seq<string>, values: seq<Value>, pk: seq<string>,
                        ts: seq<nat>, row: Row, t: nat, other: string)
    requires KeyTerms(fields, values, pk, ts) && KeyExact(ty, row, pk)
    requires row.Keys == columns && RowShows(ty, row, fields, values)
    requires t in ts && t < |fields| && values[t] == None
    requires other in columns && other !in pk
    ensures !SafeDelete(ty, columns, fields, values, pk, ts, row)
  {
    ShownIsMatched(ty, row, fields, values, pk, ts);
    var v: Value := if row[other] == None then Some("") else None;
    TwinIsMatched(ty, row, other, v, fields, values, pk, ts);
    var k := NullKeyColumn(ty, fields, values, pk, ts, row, t);
    NullLiftsUniqueness(row[other := v], row, pk, k);
    TwinGoesFirst(ty, columns, fields, values, pk, ts, row[other := v], row);
  }

  /** The key column of a term whose value is NULL. */
  lemma NullKeyColumn(ty: Typing, fields: seq<string>, values: seq<Value>, pk: seq<string>, ts: seq<nat>, row: Row,
                      t: nat)
    returns (k: nat)
    requires KeyTerms(fields, values, pk, ts) && RowShows(ty, row, fields, values)
    requires t in ts && t < |fields| && values[t] == None
    ensures k < |pk| && pk[k] in row && row[pk[k]] == None
  {
    k :| 0 <= k < |pk| && pk[k] == fields[t];
  }

  /** A matched twin of the cursor row in front of it can be taken instead. */
  lemma TwinGoesFirst(ty: Typing, columns: set<string>, fields: seq<string>, values: seq<Value>, pk: seq<string>,
                      ts: seq<nat>, twin: Row, row: Row)
    requires KeyTerms(fields, values, pk, ts) && twin.Keys == row.Keys == columns && twin != row
    requires Matches(ty, twin, TermsFor(fields, values, ts)) && UniqueOn([twin, row], pk)
    ensures !SafeDelete(ty, columns, fields, values, pk, ts, row)
  {
    FirstCanGo(ty, twin, row, TermsFor(fields, values, ts));
    OtherCopyGone(twin, row);
    UnsafeBy(ty, columns, fields, values, pk, ts, [twin, row], 1, [row]);
  }

  lemma UnsafeBy(ty: Typing, columns: set<string>, fields: seq<string>, values: seq<Value>, pk: seq<string>,
                 ts: seq<nat>, rows: seq<Row>, c: nat, rows': seq<Row>)
    requires KeyTerms(fields, values, pk, ts) && Table(rows, columns) && UniqueOn(rows, pk) && c < |rows|
    requires DeleteOne(ty, rows, TermsFor(fields, values, ts), rows')
    requires multiset(rows') != multiset(rows) - multiset{rows[c]}
    ensures !SafeDelete(ty, columns, fields, values, pk, ts, rows[c])
  {
  }

  lemma FirstCanGo(ty: Typing, twin: Row, row: Row, terms: seq<Term>)
    requires Matches(ty, twin, terms)
    ensures DeleteOne(ty, [twin, row], terms, [row])
  {
    var rows := [twin, row];
    assert Matches(ty, rows[0], terms) && Removed(rows, 0) == [row];
  }

  lemma OtherCopyGone(twin: Row, row: Row)
    requires twin != row
    ensures multiset([row]) != multiset([twin, row]) - multiset{row}
  {
    assert (multiset([twin, row]) - multiset{row})[row] == 0 && multiset([row])[row] == 1;
  }

  /**
   A positioned delete by key is safe in every table exactly when every key value survives printing and
   being cut, and the cursor row has no NULL in the key or the key consists of all the table's columns.
   */
  lemma KeyDeleteSafeExactly(ty: Typing, columns: set<string>, fields: seq<string>, values: seq<Value>, pk: seq<string>,
                             ts: seq<nat>, cursor: Row)
    requires KeyTerms(fields, values, pk, ts)
    requires cursor.Keys == columns && RowShows(ty, cursor, fields, values)
    ensures SafeDelete(ty, columns, fields, values, pk, ts, cursor) <==>
            KeyExact(ty, cursor, pk) && (KeyNotNull(fields, values, ts) || forall x :: x in columns ==> x in pk)
  {
    if !KeyExact(ty, cursor, pk) {
      InexactKeyIsUnsafe(ty, columns, fields, values, pk, ts, cursor);
    } else if KeyNotNull(fields, values, ts) || forall x :: x in columns ==> x in pk {
      SafeIfNotNullOrAllColumns(ty, columns, fields, values, pk, ts, cursor);
    } else {
      var t :| t in ts && t < |fields| && values[t] == None;
      var other :| other in columns && other !in pk;
      NullKeyIsUnsafe(ty, columns, fields, values, pk, ts, cursor, t, other);
    }
  }

  /** A TIME column holds printed TIME values of its precision. */
  ghost predicate OfType(ty: Typing, column: string, v: Value) {
    ty.kind(column).Time? && v.Some? ==> exists t :: PrintsAs(t, ty.kind(column).digits, v.value)
  }

  ghost predicate PrintsAs(t: TimeValue, digits: nat, text: string) {
    IsTime(t) && |t.fraction| == digits && Print(t) == text
  }

  /**
   The values a condition finds again: NULL; text and numbers without a zero byte; TIME values that
   survive; no BIT; floating-point values that are what the server prints of them.
   */
  ghost predicate FoundAgain(ty: Typing, column: string, v: Value) {
    v.Some? ==>
      match ty.kind(column)
      case Plain => '\0' !in v.value
      case Binary => '\0' !in v.value
      case Floating => BeforeNul(ty.show(v.value)) == v.value
      case Bit => false
      case Time(digits) => exists t :: PrintsAs(t, digits, v.value) && Survives(t)
  }

  lemma ExactByType(ty: Typing, column: string, v: Value)
    requires OfType(ty, column, v)
    ensures Exact(ty, column, v) <==> FoundAgain(ty, column, v)
  {
    if ty.kind(column).Time? && v.Some? {
      var digits := ty.kind(column).digits;
      var t :| PrintsAs(t, digits, v.value);
      ExactIfTime(ty, column, t);
      if FoundAgain(ty, column, v) {
        var u :| PrintsAs(u, digits, v.value) && Survives(u);
        ExactIfTime(ty, column, u);
      }
    }
  }

  /** Which keys are exact, type by type. */
  lemma KeyExactByType(ty: Typing, row: Row, pk: seq<string>)
    requires forall k :: 0 <= k < |pk| && pk[k] in row ==> OfType(ty, pk[k], row[pk[k]])
    ensures KeyExact(ty, row, pk) <==> forall k :: 0 <= k < |pk| && pk[k] in row ==> FoundAgain(ty, pk[k], row[pk[k]])
  {
    forall k | 0 <= k < |pk| && pk[k] in row
      ensures Exact(ty, pk[k], row[pk[k]]) <==> FoundAgain(ty, pk[k], row[pk[k]])
    {
      ExactByType(ty, pk[k], row[pk[k]]);
    }
  }

  /** A table of one column k with two rows; the clause is built from the second. */
  ghost predicate TakesTheFirst(ty: Typing, first: string, second: string) {
    var a, b := map["k" := Some(first)], map["k" := Some(second)];
    var values := [b["k"]];
    && KeyTerms(["k"], values, ["k"], [0]) && KeyNotNull(["k"], values, [0])
    && UniqueOn([a, b], ["k"]) && RowShows(ty, b, ["k"], values)
    && forall rows' :: DeleteOne(ty, [a, b], TermsFor(["k"], values, [0]), rows') ==> rows' == [b]
  }

  lemma SenseTakesTheFirst(ty: Typing, first: string, second: string)
    requires first != second && ty.kind("k") != Floating && SenseOf(ty, "k", Some(second)) == Means(first)
    ensures TakesTheFirst(ty, first, second)
  {
    var a, b := map["k" := Some(first)], map["k" := Some(second)];
    var terms := TermsFor(["k"], [b["k"]], [0]);
    assert terms == [Term("k", Some(second))];
    assert Meets(ty, a, terms[0]) && !Meets(ty, b, terms[0]);
    FirstGoes(ty, a, b, terms);
    assert ["k"][0] == "k";
  }

  lemma FirstGoes(ty: Typing, a: Row, b: Row, terms: seq<Term>)
    requires Matches(ty, a, terms) && !Matches(ty, b, terms)
    ensures forall rows' :: DeleteOne(ty, [a, b], terms, rows') ==> rows' == [b]
  {
    var rows := [a, b];
    assert rows[0] == a && Removed(rows, 0) == [b];
  }

  /** A key value with a zero byte: the delete takes the row whose key is the part before it. */
  lemma ZeroByteTakesTheOtherRow(ty: Typing)
    requires ty.kind("k") == Plain
    ensures TakesTheFirst(ty, "a", "a\0b")
  {
    CutOfExample();
    assert |"a\0b"| == 3;
    SenseTakesTheFirst(ty, "a", "a\0b");
  }

  lemma CutOfExample()
    ensures BeforeNul("a\0b") == "a"
  {
    var s := "a\0b";
    assert s[1..][0] == '\0';
    assert BeforeNul(s[1..]) == "";
  }

  /** A negative TIME key within a day: the delete takes the row with the same time without the sign. */
  lemma NegativeTimeTakesTheOtherRow(ty: Typing, t: TimeValue)
    requires IsTime(t) && t.negative && t.hours <= 23 && t.fraction == "" && ty.kind("k") == Time(0)
    ensures TakesTheFirst(ty, Print(t.(negative := false)), Print(t))
  {
    PrintHasNoNul(t);
    SignIsDropped(t);
    SenseTakesTheFirst(ty, Print(t.(negative := false)), Print(t));
  }

  /** A BIT that is not NULL: the statement has a literal missing, and no row is deleted. */
  lemma BitFindsNoRow(ty: Typing, rows: seq<Row>, terms: seq<Term>, i: nat, rows': seq<Row>)
    requires i < |terms| && ty.kind(terms[i].column) == Bit && terms[i].value.Some?
    requires DeleteOne(ty, rows, terms, rows')
    ensures rows' == rows
  {
    forall r | 0 <= r < |rows|
      ensures !Matches(ty, rows[r], terms)
    {
      assert !Meets(ty, rows[r], terms[i]);
    }
  }

  // ---------------------------------------------------------------- by all columns

  /** The names of the underlying table's columns. */
  function ColumnNames(cols: seq<string>): set<string> {
    set c | c in cols
  }

  function FirstIndex(fields: seq<string>, name: string): (j: nat)
    ensures j <= |fields|
    ensures j < |fields| ==> fields[j] == name
    ensures j == |fields| <==> name !in fields
  {
    if fields == [] then 0
    else if fields[0] == name then 0
    else 1 + FirstIndex(fields[1..], name)
  }

  /** The fallback can be used: as many columns as result columns, none floating-point, all in the result. */
  predicate AllColumnsUsable(ty: Typing, cols: seq<string>, fields: seq<string>) {
    && |cols| == |fields|
    && forall i :: 0 <= i < |cols| ==> ty.kind(cols[i]) != Floating && cols[i] in fields
  }

  function TermOf(column: string, fields: seq<string>, values: seq<Value>): Term
    requires |values| == |fields|
  {
    var j := FirstIndex(fields, column);
    Term(column, if j < |fields| then values[j] else None)
  }

  /** insert_param refuses the literal. */
  predicate IsRefused(ty: Typing, t: Term) {
    t.value.Some? && ty.kind(t.column).Time? && NotATimeOfDay(BeforeNul(t.value.value))
  }

  lemma RefusedSense(ty: Typing, t: Term)
    ensures IsRefused(ty, t) <==> SenseOf(ty, t.column, t.value) == Refused
  {
  }

  /** append_all_fields_std: one term for every column of the table, None where the fallback fails. */
  method AppendAllFields(ty: Typing, cols: seq<string>, fields: seq<string>, values: seq<Value>)
    returns (terms: Option<seq<Term>>)
    requires |values| == |fields|
    ensures terms.Some? <==>
            && |cols| == |fields|
            && forall i :: 0 <= i < |cols| ==>
                 ty.kind(cols[i]) != Floating && cols[i] in fields && !IsRefused(ty, TermOf(cols[i], fields, values))
    ensures terms.Some? ==> AllTerms(terms.value, cols, fields, values)
  {
    if |cols| != |fields| {
      return None;
    }
    var found: seq<Term> := [];
    for i := 0 to |cols|
      invariant |found| == i
      invariant forall k :: 0 <= k < i ==>
                  && ty.kind(cols[k]) != Floating && cols[k] in fields
                  && found[k] == TermOf(cols[k], fields, values) && !IsRefused(ty, found[k])
    {
      if ty.kind(cols[i]) == Floating {
        return None;
      }
      var j := FieldNamed(fields, cols[i]);
      if j == |fields| {
        return None;
      }
      var t := Term(cols[i], values[j]);
      if IsRefused(ty, t) {
        return None;
      }
      found := found + [t];
    }
    terms := Some(found);
  }

  method FieldNamed(fields: seq<string>, name: string) returns (j: nat)
    ensures j == FirstIndex(fields, name)
  {
    j := 0;
    while j < |fields| && fields[j] != name
      invariant 0 <= j <= |fields|
      invariant j + FirstIndex(fields[j..], name) == FirstIndex(fields, name)
    {
      assert fields[j..][1..] == fields[j + 1..];
      j := j + 1;
    }
  }

  ghost predicate AllTerms(terms: seq<Term>, cols: seq<string>, fields: seq<string>, values: seq<Value>) {
    && |values| == |fields| && |terms| == |cols|
    && forall i :: 0 <= i < |cols| ==> terms[i] == TermOf(cols[i], fields, values)
  }

  /** The row is the one the conditions built from the cursor row ask for. */
  ghost predicate AskedFor(ty: Typing, row: Row, cursor: Row) {
    && row.Keys == cursor.Keys
    && forall x :: x in cursor ==> Stored(row[x]) == SenseOf(ty, x, cursor[x])
  }

  /** No two different rows are asked for. */
  lemma AskedForOnce(ty: Typing, a: Row, b: Row, cursor: Row)
    requires AskedFor(ty, a, cursor) && AskedFor(ty, b, cursor)
    ensures a == b
  {
    forall x | x in cursor
      ensures a[x] == b[x]
    {
      StoredOnce(a[x], b[x]);
    }
  }

  /** A row of the table is matched by the all-columns terms exactly if it is the one asked for. */
  lemma AllColumnsMatchCopies(ty: Typing, row: Row, cursor: Row, cols: seq<string>, fields: seq<string>,
                              values: seq<Value>, terms: seq<Term>)
    requires AllTerms(terms, cols, fields, values) && AllColumnsUsable(ty, cols, fields)
    requires row.Keys == cursor.Keys == ColumnNames(cols)
    requires RowShows(ty, cursor, fields, values)
    ensures Matches(ty, row, terms) <==> AskedFor(ty, row, cursor)
  {
    forall i | 0 <= i < |cols|
      ensures cols[i] in cursor.Keys && terms[i] == Term(cols[i], cursor[cols[i]])
    {
      TermShows(ty, cursor, cols, fields, values, i);
    }
    if Matches(ty, row, terms) {
      forall x | x in cursor
        ensures Stored(row[x]) == SenseOf(ty, x, cursor[x])
      {
        var i :| 0 <= i < |cols| && cols[i] == x;
        assert Meets(ty, row, terms[i]);
      }
    }
    if AskedFor(ty, row, cursor) {
      forall i | 0 <= i < |terms|
        ensures Meets(ty, row, terms[i])
      {
        assert cols[i] in cursor;
      }
    }
  }

  lemma TermShows(ty: Typing, cursor: Row, cols: seq<string>, fields: seq<string>, values: seq<Value>, i: nat)
    requires |values| == |fields| && AllColumnsUsable(ty, cols, fields) && i < |cols|
    requires RowShows(ty, cursor, fields, values)
    ensures cols[i] in cursor && cursor[cols[i]] == TermOf(cols[i], fields, values).value
  {
    var j := FirstIndex(fields, cols[i]);
    assert fields[j] == cols[i] && fields[j] in cursor;
  }

  /**
   With the fallback and LIMIT 1, exactly one copy of the row asked for leaves the table, taken as a
   multiset; if none is there, nothing changes.
   */
  lemma FallbackRemovesOneCopy(ty: Typing, rows: seq<Row>, cursor: Row, rows': seq<Row>, cols: seq<string>,
                               fields: seq<string>, values: seq<Value>, terms: seq<Term>)
    requires AllTerms(terms, cols, fields, values) && AllColumnsUsable(ty, cols, fields)
    requires Table(rows, ColumnNames(cols)) && cursor.Keys == ColumnNames(cols) && RowShows(ty, cursor, fields, values)
    requires DeleteOne(ty, rows, terms, rows')
    ensures forall row :: AskedFor(ty, row, cursor) ==> multiset(rows') == multiset(rows) - multiset{row}
    ensures (forall row :: row in rows ==> !AskedFor(ty, row, cursor)) ==> rows' == rows
  {
    forall i | 0 <= i < |rows|
      ensures Matches(ty, rows[i], terms) <==> AskedFor(ty, rows[i], cursor)
    {
      AllColumnsMatchCopies(ty, rows[i], cursor, cols, fields, values, terms);
    }
    forall row | AskedFor(ty, row, cursor)
      ensures multiset(rows') == multiset(rows) - multiset{row}
    {
      CopyGoes(ty, rows, terms, rows', cursor, row);
    }
  }

  lemma CopyGoes(ty: Typing, rows: seq<Row>, terms: seq<Term>, rows': seq<Row>, cursor: Row, row: Row)
    requires forall i :: 0 <= i < |rows| ==> (Matches(ty, rows[i], terms) <==> AskedFor(ty, rows[i], cursor))
    requires DeleteOne(ty, rows, terms, rows') && AskedFor(ty, row, cursor)
    ensures multiset(rows') == multiset(rows) - multiset{row}
  {
    if exists i :: 0 <= i < |rows| && Matches(ty, rows[i], terms) {
      var i: nat :| i < |rows| && Matches(ty, rows[i], terms) && rows' == Removed(rows, i);
      AskedForOnce(ty, rows[i], row, cursor);
      RemovedMultiset(rows, i);
    } else {
      assert row !in rows;
    }
  }

  ghost predicate SafeFallback(ty: Typing, columns: set<string>, terms: seq<Term>, cursor: Row) {
    forall rows: seq<Row>, rows': seq<Row> ::
      Table(rows, columns) && cursor in rows && DeleteOne(ty, rows, terms, rows')
      ==> multiset(rows') == multiset(rows) - multiset{cursor}
  }

  /**
   The fallback removes one copy of the cursor row from every table that has it exactly when every
   value of the cursor row is found again.
   */
  lemma FallbackSafeExactly(ty: Typing, cursor: Row, cols: seq<string>, fields: seq<string>, values: seq<Value>,
                            terms: seq<Term>)
    requires AllTerms(terms, cols, fields, values) && AllColumnsUsable(ty, cols, fields)
    requires cursor.Keys == ColumnNames(cols) && RowShows(ty, cursor, fields, values)
    requires forall x :: x in cursor ==> OfType(ty, x, cursor[x])
    ensures SafeFallback(ty, ColumnNames(cols), terms, cursor) <==>
            forall x :: x in cursor ==> FoundAgain(ty, x, cursor[x])
  {
    CursorAskedFor(ty, cursor, cols);
    if AskedFor(ty, cursor, cursor) {
      forall rows: seq<Row>, rows': seq<Row> |
        Table(rows, ColumnNames(cols)) && cursor in rows && DeleteOne(ty, rows, terms, rows')
        ensures multiset(rows') == multiset(rows) - multiset{cursor}
      {
        FallbackRemovesOneCopy(ty, rows, cursor, rows', cols, fields, values, terms);
      }
    } else {
      var rows := [cursor];
      AllColumnsMatchCopies(ty, cursor, cursor, cols, fields, values, terms);
      assert Table(rows, ColumnNames(cols)) && cursor in rows && DeleteOne(ty, rows, terms, rows);
      assert multiset(rows)[cursor] == 1 && (multiset(rows) - multiset{cursor})[cursor] == 0;
    }
  }

  /** The cursor row itself is asked for exactly if all its values are found again. */
  lemma CursorAskedFor(ty: Typing, cursor: Row, cols: seq<string>)
    requires cursor.Keys == ColumnNames(cols) && forall i :: 0 <= i < |cols| ==> ty.kind(cols[i]) != Floating
    requires forall x :: x in cursor ==> OfType(ty, x, cursor[x])
    ensures AskedFor(ty, cursor, cursor) <==> forall x :: x in cursor ==> FoundAgain(ty, x, cursor[x])
  {
    forall x | x in cursor
      ensures Stored(cursor[x]) == SenseOf(ty, x, cursor[x]) <==> FoundAgain(ty, x, cursor[x])
    {
      ExactByType(ty, x, cursor[x]);
    }
  }
}

/**
 Choosing the key of a positioned update or delete: the scan over the rows of SHOW KEYS, and the
 matching of key columns with result columns. Column names are compared after case folding, so the
 names here are folded names.
 */
module UniqueKeys {
  import opened OdbcCodes

  const MAX_PK_PARTS := 32

  /** One row of SHOW KEYS: column 2 (non-unique), column 4 (number in the index), column 5 (name). */
  datatype KeyRow = KeyRow(nonUnique: bool, number: nat, column: string)

  datatype Key = Key(unique: bool, columns: seq<string>)

  /** A key the server can have: distinct columns, at least one and no more than fit the cursor. */
  ghost predicate Proper(k: Key) {
    && 1 <= |k.columns| <= 32
    && forall i, j :: 0 <= i < j < |k.columns| ==> k.columns[i] != k.columns[j]
  }

  /** The rows of one key, numbered from 1. */
  function RowsOf(k: Key): (rows: seq<KeyRow>)
    ensures |rows| == |k.columns|
  {
    seq(|k.columns|, i requires 0 <= i < |k.columns| => KeyRow(!k.unique, i + 1, k.columns[i]))
  }

  function AllRows(keys: seq<Key>): seq<KeyRow> {
    if keys == [] then [] else RowsOf(keys[0]) + AllRows(keys[1..])
  }

  ghost predicate AllProper(keys: seq<Key>) {
    keys != [] ==> Proper(keys[0]) && AllProper(keys[1..])
  }

  /** have_field_in_result. */
  predicate Has(fields: seq<string>, column: string) {
    column in fields
  }

  /** The columns kept when the scan ends, from row i on with the given parts of a key in progress. */
  function Scan(rows: seq<KeyRow>, fields: seq<string>, i: nat, pk: seq<string>, number: nat): seq<string>
    requires i <= |rows|
    decreases |rows| - i
  {
    if i == |rows| || |pk| >= MAX_PK_PARTS || rows[i].number <= number then pk
    else if rows[i].nonUnique || rows[i].number != number + 1 then Scan(rows, fields, i + 1, pk, number)
    else if Has(fields, rows[i].column) then Scan(rows, fields, i + 1, pk + [rows[i].column], rows[i].number)
    else Scan(rows, fields, i + 1, [], 0)
  }

  // ---------------------------------------------------------------- what the scan means

  ghost predicate Usable(k: Key, fields: seq<string>) {
    k.unique && forall i :: 0 <= i < |k.columns| ==> k.columns[i] in fields
  }

  /** The columns of the first unique key that lies wholly in the result, none if there is no such key. */
  ghost function FirstUsable(keys: seq<Key>, fields: seq<string>): seq<string> {
    if keys == [] then []
    else if Usable(keys[0], fields) then keys[0].columns
    else FirstUsable(keys[1..], fields)
  }

  lemma {:induction false} FirstUsableIsUsable(keys: seq<Key>, fields: seq<string>)
    requires AllProper(keys)
    ensures FirstUsable(keys, fields) != [] <==> exists k :: k in keys && Usable(k, fields)
    ensures FirstUsable(keys, fields) != [] ==>
              exists j :: 0 <= j < |keys| && Usable(keys[j], fields) && FirstUsable(keys, fields) == keys[j].columns
                          && forall m :: 0 <= m < j ==> !Usable(keys[m], fields)
  {
    if keys != [] {
      if !Usable(keys[0], fields) {
        var rest := keys[1..];
        FirstUsableIsUsable(rest, fields);
        if FirstUsable(rest, fields) != [] {
          var j :| 0 <= j < |rest| && Usable(rest[j], fields) && FirstUsable(rest, fields) == rest[j].columns
                   && forall m :: 0 <= m < j ==> !Usable(rest[m], fields);
          assert keys[j + 1] == rest[j];
          assert forall m :: 0 <= m < j + 1 ==> !Usable(keys[m], fields) by {
            forall m | 0 <= m < j + 1 ensures !Usable(keys[m], fields) {
              if m > 0 { assert keys[m] == rest[m - 1]; }
            }
          }
        }
        assert (exists k :: k in keys && Usable(k, fields)) <==> (exists k :: k in rest && Usable(k, fields)) by {
          forall k | k in keys && Usable(k, fields) ensures k in rest {
          }
        }
      }
    }
  }

  /** The rows of a key that cannot be used any more are all passed over. */
  lemma {:induction false} PassesOver(before: seq<KeyRow>, k: Key, j: nat, after: seq<KeyRow>, fields: seq<string>)
    requires j <= |k.columns| && (!k.unique || j > 0)
    ensures var rows := before + RowsOf(k) + after;
            Scan(rows, fields, |before| + j, [], 0) == Scan(rows, fields, |before| + |k.columns|, [], 0)
    decreases |k.columns| - j
  {
    if j < |k.columns| {
      var rows := before + RowsOf(k) + after;
      assert rows[|before| + j] == RowsOf(k)[j];
      PassesOver(before, k, j + 1, after, fields);
    }
  }

  /** With the first j columns of a unique key found, the scan completes the key or forgets it. */
  lemma {:induction false} FollowsKey(before: seq<KeyRow>, k: Key, j: nat, after: seq<KeyRow>, fields: seq<string>)
    requires Proper(k) && k.unique && j <= |k.columns|
    requires forall i :: 0 <= i < j ==> k.columns[i] in fields
    requires after != [] ==> after[0].number == 1
    ensures var rows := before + RowsOf(k) + after;
            Scan(rows, fields, |before| + j, k.columns[..j], j)
            == if Usable(k, fields) then k.columns else Scan(rows, fields, |before| + |k.columns|, [], 0)
    decreases |k.columns| - j
  {
    var rows := before + RowsOf(k) + after;
    if j < |k.columns| {
      assert rows[|before| + j] == RowsOf(k)[j];
      if k.columns[j] in fields {
        assert k.columns[..j] + [k.columns[j]] == k.columns[..j + 1];
        FollowsKey(before, k, j + 1, after, fields);
      } else {
        PassesOver(before, k, j + 1, after, fields);
      }
    } else {
      assert k.columns[..j] == k.columns;
      if after != [] {
        assert rows[|before| + j] == after[0];
      }
    }
  }

  lemma AfterStartsAtOne(keys: seq<Key>)
    requires AllProper(keys)
    ensures AllRows(keys) != [] ==> AllRows(keys)[0].number == 1
  {
  }

  /** The rows of one key: the scan ends with its columns, or goes on behind it with nothing kept. */
  lemma ScanKey(before: seq<KeyRow>, k: Key, after: seq<KeyRow>, fields: seq<string>)
    requires Proper(k)
    requires after != [] ==> after[0].number == 1
    ensures var rows := before + RowsOf(k) + after;
            Scan(rows, fields, |before|, [], 0)
            == if Usable(k, fields) then k.columns else Scan(rows, fields, |before + RowsOf(k)|, [], 0)
  {
    if k.unique {
      FollowsKey(before, k, 0, after, fields);
      assert k.columns[..0] == [];
    } else {
      PassesOver(before, k, 0, after, fields);
    }
  }

  lemma Regroup(a: seq<KeyRow>, b: seq<KeyRow>, c: seq<KeyRow>)
    ensures a + (b + c) == a + b + c
  {
  }

  lemma {:induction false} ScanFrom(before: seq<KeyRow>, keys: seq<Key>, fields: seq<string>)
    requires AllProper(keys)
    ensures Scan(before + AllRows(keys), fields, |before|, [], 0) == FirstUsable(keys, fields)
    decreases |keys|
  {
    if keys != [] {
      var k, rest := keys[0], keys[1..];
      AfterStartsAtOne(rest);
      Regroup(before, RowsOf(k), AllRows(rest));
      ScanKey(before, k, AllRows(rest), fields);
      ScanFrom(before + RowsOf(k), rest, fields);
    }
  }

  /** The scan stores the full column list of the first unique key in the result, or nothing. */
  lemma ScanFindsFirstUsable(keys: seq<Key>, fields: seq<string>)
    requires AllProper(keys)
    ensures Scan(AllRows(keys), fields, 0, [], 0) == FirstUsable(keys, fields)
  {
    ScanFrom([], keys, fields);
    assert [] + AllRows(keys) == AllRows(keys);
  }

  // ---------------------------------------------------------------- matching key and result columns

  /** The result columns that name a key column, in result order, from column n on. */
  function Terms(fields: seq<string>, pk: seq<string>, n: nat): seq<nat>
    requires n <= |fields|
    decreases |fields| - n
  {
    if n == |fields| then []
    else (if fields[n] in pk then [n] else []) + Terms(fields, pk, n + 1)
  }

  lemma {:induction false} IsTerm(fields: seq<string>, pk: seq<string>, n: nat, t: nat)
    requires n <= |fields|
    ensures t in Terms(fields, pk, n) <==> n <= t < |fields| && fields[t] in pk
    decreases |fields| - n
  {
    if n < |fields| {
      IsTerm(fields, pk, n + 1, t);
    }
  }

  lemma {:induction false} TermsIncrease(fields: seq<string>, pk: seq<string>, n: nat)
    requires n <= |fields|
    ensures forall i, j :: 0 <= i < j < |Terms(fields, pk, n)| ==> Terms(fields, pk, n)[i] < Terms(fields, pk, n)[j]
    decreases |fields| - n
  {
    if n < |fields| {
      TermsIncrease(fields, pk, n + 1);
      var rest := Terms(fields, pk, n + 1);
      forall j | 0 <= j < |rest|
        ensures rest[j] > n
      {
        IsTerm(fields, pk, n + 1, rest[j]);
      }
    }
  }

  /** The terms are the result columns with a key column's name, each once. */
  lemma TermsAre(fields: seq<string>, pk: seq<string>)
    ensures forall t: nat :: t in Terms(fields, pk, 0) <==> t < |fields| && fields[t] in pk
    ensures Distinct(Terms(fields, pk, 0))
  {
    TermsIncrease(fields, pk, 0);
    forall t: nat
      ensures t in Terms(fields, pk, 0) <==> t < |fields| && fields[t] in pk
    {
      IsTerm(fields, pk, 0, t);
    }
  }

  ghost predicate Distinct<T>(names: seq<T>) {
    forall i, j :: 0 <= i < j < |names| ==> names[i] != names[j]
  }

  /** Every key column is named by exactly one of the terms. */
  ghost predicate Bijection(fields: seq<string>, pk: seq<string>, ts: seq<nat>) {
    && (forall t :: t in ts ==> t < |fields| && fields[t] in pk)
    && (forall i :: 0 <= i < |pk| ==> exists t :: t in ts && t < |fields| && fields[t] == pk[i])
    && (forall t, u :: t in ts && u in ts && t < |fields| && u < |fields| && fields[t] == fields[u] ==> t == u)
  }

  function SetOf<T(==)>(s: seq<T>): set<T> {
    set x | x in s
  }

  lemma {:induction false} SizeOfDistinct<T>(s: seq<T>)
    requires Distinct(s)
    ensures |SetOf(s)| == |s|
    decreases |s|
  {
    if s != [] {
      var last, rest := s[|s| - 1], s[..|s| - 1];
      SizeOfDistinct(rest);
      assert SetOf(s) == SetOf(rest) + {last};
    }
  }

  /** The names the terms stand for. */
  function Named(fields: seq<string>, ts: set<nat>): set<string>
    requires forall t :: t in ts ==> t < |fields|
  {
    set t | t in ts :: fields[t]
  }

  /** A set of columns has no more names than columns, and just as many only without a repeated name. */
  lemma {:induction false} NamesCounted(fields: seq<string>, ts: set<nat>)
    requires forall t :: t in ts ==> t < |fields|
    ensures |Named(fields, ts)| <= |ts|
    ensures |Named(fields, ts)| == |ts| ==>
              forall t, u :: t in ts && u in ts && fields[t] == fields[u] ==> t == u
    decreases ts
  {
    if ts != {} {
      var t :| t in ts;
      var rest := ts - {t};
      NamesCounted(fields, rest);
      assert Named(fields, ts) == Named(fields, rest) + {fields[t]};
    }
  }

  /**
   insert_pk_fields_std succeeds, for a key whose columns are all in the result, exactly when its
   terms and the key columns are in bijection.
   */
  lemma CountMeansBijection(fields: seq<string>, pk: seq<string>)
    requires Distinct(pk) && forall i :: 0 <= i < |pk| ==> pk[i] in fields
    ensures |Terms(fields, pk, 0)| == |pk| <==> Bijection(fields, pk, Terms(fields, pk, 0))
  {
    TermsAre(fields, pk);
    var ts := Terms(fields, pk, 0);
    SizeOfDistinct(ts);
    SizeOfDistinct(pk);
    var tset := SetOf(ts);
    forall i | 0 <= i < |pk|
      ensures exists t :: t in ts && t < |fields| && fields[t] == pk[i]
    {
      var t :| 0 <= t < |fields| && fields[t] == pk[i];
      assert t in ts;
    }
    assert Named(fields, tset) == SetOf(pk);
    NamesCounted(fields, tset);
    if Bijection(fields, pk, ts) {
      OneToOne(fields, tset);
    }
  }

  lemma {:induction false} OneToOne(fields: seq<string>, ts: set<nat>)
    requires forall t :: t in ts ==> t < |fields|
    requires forall t, u :: t in ts && u in ts && fields[t] == fields[u] ==> t == u
    ensures |Named(fields, ts)| == |ts|
    decreases ts
  {
    if ts != {} {
      var t :| t in ts;
      var rest := ts - {t};
      OneToOne(fields, rest);
      assert Named(fields, ts) == Named(fields, rest) + {fields[t]};
    }
  }

  // ---------------------------------------------------------------- the statement's key handler

  datatype PkColumn = PkColumn(name: string, bindDone: bool)

  function Names(cols: seq<PkColumn>): (ns: seq<string>)
    ensures |ns| == |cols|
  {
    seq(|cols|, i requires 0 <= i < |cols| => cols[i].name)
  }

  /** MYCURSOR. */
  class KeyCursor {
    var pkcol: seq<PkColumn>
    var pkValidated: bool

    constructor ()
      ensures pkcol == [] && !pkValidated
    {
      pkcol, pkValidated := [], false;
    }

    /** check_if_usable_unique_key_exists, given the answer to SHOW KEYS; asked only once. */
    method CheckUsableUniqueKey(rows: seq<KeyRow>, fields: seq<string>) returns (exists_: bool)
      requires !pkValidated ==> pkcol == []
      modifies this
      ensures pkValidated && exists_ == (pkcol != [])
      ensures old(pkValidated) ==> pkcol == old(pkcol)
      ensures !old(pkValidated) ==> Names(pkcol) == Scan(rows, fields, 0, [], 0)
    {
      if pkValidated {
        return pkcol != [];
      }
      var number, i := 0, 0;
      while i < |rows| && |pkcol| < MAX_PK_PARTS
        invariant 0 <= i <= |rows|
        invariant Scan(rows, fields, i, Names(pkcol), number) == Scan(rows, fields, 0, [], 0)
        decreases |rows| - i
      {
        var row := rows[i];
        if row.number <= number {
          break;
        }
        i := i + 1;
        if row.nonUnique || row.number != number + 1 {
          continue;
        }
        if Has(fields, row.column) {
          assert Names(pkcol + [PkColumn(row.column, false)]) == Names(pkcol) + [row.column];
          pkcol := pkcol + [PkColumn(row.column, false)];
          number := row.number;
        } else {
          assert Names([]) == [];
          pkcol, number := [], 0;
        }
      }
      pkValidated := true;
      exists_ := pkcol != [];
    }

    /**
     insert_pk_fields_std: the result columns to put into the WHERE clause, None when their number
     is not the number of key columns.
     */
    method InsertPkFields(fields: seq<string>) returns (terms: Option<seq<nat>>)
      modifies `pkcol
      ensures Names(pkcol) == old(Names(pkcol))
      ensures terms == if |Terms(fields, Names(pkcol), 0)| == |pkcol| then Some(Terms(fields, Names(pkcol), 0))
                       else None
    {
      ghost var names := Names(pkcol);
      var found: seq<nat> := [];
      for n := 0 to |fields|
        invariant Names(pkcol) == names
        invariant found + Terms(fields, names, n) == Terms(fields, names, 0)
      {
        var index := FindColumn(fields[n]);
        if index < |pkcol| {
          found := found + [n];
          pkcol := pkcol[index := pkcol[index].(bindDone := true)];
        }
      }
      assert found + [] == found;
      terms := if |found| == |pkcol| then Some(found) else None;
    }

    /** The first key column of that name, or the number of key columns. */
    method FindColumn(name: string) returns (index: nat)
      ensures index <= |pkcol|
      ensures index < |pkcol| <==> name in Names(pkcol)
    {
      index := 0;
      while index < |pkcol| && pkcol[index].name != name
        invariant 0 <= index <= |pkcol|
        invariant forall k :: 0 <= k < index ==> Names(pkcol)[k] != name
      {
        index := index + 1;
      }
      if index < |pkcol| {
        assert Names(pkcol)[index] == name;
      }
    }
  }
}

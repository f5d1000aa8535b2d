/**
 Chunked bulk insert: the rows of a rowset are sent in as many INSERT statements as the transmission
 buffer makes necessary.
 */
module BulkInsert {
  import opened OdbcCodes

  /** The tuples of rows i..j, separated by commas. */
  function Tuples(rows: seq<string>, i: nat, j: nat): string
    requires i < j <= |rows|
    decreases j
  {
    if i + 1 == j then "(" + rows[i] + ")"
    else Tuples(rows, i, j - 1) + "," + "(" + rows[j - 1] + ")"
  }

  /** Tuple lists of adjoining ranges join to the list of the whole range. */
  lemma {:induction false} TuplesJoin(rows: seq<string>, i: nat, j: nat, k: nat)
    requires i < j < k <= |rows|
    ensures Tuples(rows, i, j) + "," + Tuples(rows, j, k) == Tuples(rows, i, k)
    decreases k
  {
    var t := "(" + rows[k - 1] + ")";
    if j + 1 == k {
      assert Tuples(rows, i, k) == Tuples(rows, i, j) + "," + t;
    } else {
      TuplesJoin(rows, i, j, k - 1);
      Associates(Tuples(rows, i, j) + ",", Tuples(rows, j, k - 1), ",", t);
    }
  }

  lemma Associates(a: string, b: string, c: string, d: string)
    ensures a + (b + c + d) == (a + b) + c + d
  {
  }

  /** Where the tuple of row k starts in the list that starts with row i. */
  function TupleStart(rows: seq<string>, i: nat, k: nat): nat
    requires i <= k <= |rows|
  {
    if i == k then 0 else TupleStart(rows, i, k - 1) + |rows[k - 1]| + 3
  }

  /** A tuple list byte by byte: each row in parentheses, with a comma behind all but the last. */
  ghost predicate TupleAt(list: string, at: nat, row: string, last: bool) {
    && at + |row| + 2 <= |list|
    && list[at] == '(' && list[at + 1..at + 1 + |row|] == row && list[at + 1 + |row|] == ')'
    && if last then |list| == at + |row| + 2 else at + |row| + 2 < |list| && list[at + |row| + 2] == ','
  }

  lemma {:induction false} TuplesSpelled(rows: seq<string>, i: nat, j: nat, k: nat)
    requires i <= k < j <= |rows|
    ensures |Tuples(rows, i, j)| == TupleStart(rows, i, j) - 1
    ensures TupleAt(Tuples(rows, i, j), TupleStart(rows, i, k), rows[k], k + 1 == j)
    decreases j
  {
    if i + 1 == j {
      assert TupleStart(rows, i, i) == 0;
    } else {
      var front, at := Tuples(rows, i, j - 1), TupleStart(rows, i, k);
      TuplesSpelled(rows, i, j - 1, if k < j - 1 then k else i);
      LongerList(front, at, rows, k, rows[j - 1], j);
    }
  }

  lemma LongerList(front: string, at: nat, rows: seq<string>, k: nat, row: string, j: nat)
    requires k < j <= |rows| && row == rows[j - 1]
    requires k < j - 1 ==> TupleAt(front, at, rows[k], k + 2 == j)
    requires k == j - 1 ==> at == |front| + 1
    ensures TupleAt(front + "," + "(" + row + ")", at, rows[k], k + 1 == j)
  {
    var list := front + "," + "(" + row + ")";
    if k < j - 1 {
      assert list[at + 1..at + 1 + |rows[k]|] == front[at + 1..at + 1 + |rows[k]|];
    } else {
      assert list[at + 1..at + 1 + |row|] == row;
    }
  }

  /**
   A statement of the rows from `first` up to c with the comma behind it, and the tuple buffer, would go
   over the length of the transmission buffer.
   */
  predicate Overflows(base: string, rows: seq<string>, first: nat, c: nat, bufLen: nat -> nat)
    requires first < c <= |rows|
  {
    |base| + |Tuples(rows, first, c)| + 1 + |rows[c - 1]| + 1 >= bufLen(c)
  }

  /** A statement ends behind the first row that fills it, or with the last row. */
  ghost predicate EndsRight(base: string, rows: seq<string>, first: nat, count: nat, total: nat, bufLen: nat -> nat) {
    && first < count <= total <= |rows|
    && (forall c :: first < c < count ==> !Overflows(base, rows, first, c, bufLen))
    && (Overflows(base, rows, first, count, bufLen) || count == total)
  }

  ghost predicate AllEndRight(base: string, rows: seq<string>, cuts: seq<nat>, total: nat, bufLen: nat -> nat) {
    forall k: nat :: k + 1 < |cuts| ==> EndsRight(base, rows, cuts[k], cuts[k + 1], total, bufLen)
  }

  lemma OneMoreEnd(base: string, rows: seq<string>, cuts: seq<nat>, next: nat, total: nat, bufLen: nat -> nat)
    requires cuts != [] && AllEndRight(base, rows, cuts, total, bufLen)
    requires EndsRight(base, rows, cuts[|cuts| - 1], next, total, bufLen)
    ensures AllEndRight(base, rows, cuts + [next], total, bufLen)
  {
    var cuts' := cuts + [next];
    forall k: nat | k + 1 < |cuts'|
      ensures EndsRight(base, rows, cuts'[k], cuts'[k + 1], total, bufLen)
    {
      if k + 1 < |cuts| {
        assert EndsRight(base, rows, cuts[k], cuts[k + 1], total, bufLen);
      }
    }
  }

  /** The ranges between the cuts are non-empty, adjoining, and start at row 0. */
  ghost predicate Cuts(cuts: seq<nat>) {
    && cuts != []
    && cuts[0] == 0
    && forall k :: 0 < k < |cuts| ==> cuts[k - 1] < cuts[k]
  }

  /** Every statement is the base INSERT with the tuples of one range. */
  ghost predicate Statements(sent: seq<string>, base: string, rows: seq<string>, cuts: seq<nat>) {
    && |cuts| == |sent| + 1
    && forall k :: 0 <= k < |sent| ==> IsStatement(sent[k], base, rows, cuts, k)
  }

  ghost predicate IsStatement(s: string, base: string, rows: seq<string>, cuts: seq<nat>, k: nat) {
    && k + 1 < |cuts|
    && cuts[k] < cuts[k + 1] <= |rows|
    && s == base + Tuples(rows, cuts[k], cuts[k + 1])
  }

  /** The tuple lists of the statements sent, with commas between them. */
  function TupleLists(base: string, sent: seq<string>): string
    requires AllStartWith(base, sent)
  {
    if sent == [] then ""
    else
      var last := sent[|sent| - 1][|base|..];
      if |sent| == 1 then last else TupleLists(base, sent[..|sent| - 1]) + "," + last
  }

  predicate AllStartWith(base: string, sent: seq<string>) {
    forall k :: 0 <= k < |sent| ==> base <= sent[k]
  }

  lemma StatementsStart(sent: seq<string>, base: string, rows: seq<string>, cuts: seq<nat>)
    requires Statements(sent, base, rows, cuts)
    ensures AllStartWith(base, sent)
  {
    forall k | 0 <= k < |sent|
      ensures base <= sent[k]
    {
      assert IsStatement(sent[k], base, rows, cuts, k);
    }
  }

  /** Together the statements hold every row in front of the last cut, in order. */
  lemma {:induction false} SentJoins(sent: seq<string>, base: string, rows: seq<string>, cuts: seq<nat>)
    requires Cuts(cuts) && Statements(sent, base, rows, cuts) && sent != []
    ensures AllStartWith(base, sent) && cuts[|sent|] <= |rows| && 0 < cuts[|sent|]
    ensures TupleLists(base, sent) == Tuples(rows, 0, cuts[|sent|])
    decreases |sent|
  {
    StatementsStart(sent, base, rows, cuts);
    var n := |sent| - 1;
    assert IsStatement(sent[n], base, rows, cuts, n);
    assert sent[n][|base|..] == Tuples(rows, cuts[n], cuts[n + 1]);
    if n > 0 {
      FewerStatements(sent, base, rows, cuts);
      SentJoins(sent[..n], base, rows, cuts[..n + 1]);
      TuplesJoin(rows, 0, cuts[n], cuts[n + 1]);
    }
  }

  lemma FewerStatements(sent: seq<string>, base: string, rows: seq<string>, cuts: seq<nat>)
    requires Cuts(cuts) && Statements(sent, base, rows, cuts) && |sent| > 1
    ensures Cuts(cuts[..|sent|]) && Statements(sent[..|sent| - 1], base, rows, cuts[..|sent|])
    ensures cuts[..|sent|][|sent| - 1] == cuts[|sent| - 1]
  {
    var front := sent[..|sent| - 1];
    forall k | 0 <= k < |front|
      ensures IsStatement(front[k], base, rows, cuts[..|sent|], k)
    {
      assert IsStatement(sent[k], base, rows, cuts, k);
    }
  }

  predicate InRange(cuts: seq<nat>, k: nat, row: nat) {
    k + 1 < |cuts| && cuts[k] <= row < cuts[k + 1]
  }

  /** Every row in front of the last cut lies in exactly one range. */
  lemma {:induction false} EveryRowOnce(cuts: seq<nat>, row: nat) returns (k: nat)
    requires Cuts(cuts) && row < cuts[|cuts| - 1]
    ensures InRange(cuts, k, row)
    ensures forall m: nat :: InRange(cuts, m, row) ==> m == k
  {
    var before := cuts[..|cuts| - 1];
    if row < cuts[|before| - 1] {
      k := EveryRowOnce(before, row);
    } else {
      k := |before| - 1;
    }
    forall m: nat | InRange(cuts, m, row)
      ensures m == k
    {
      if m < k {
        CutsGrow(cuts, m + 1, k);
      } else if k < m {
        CutsGrow(cuts, k + 1, m);
      }
    }
  }

  lemma {:induction false} CutsGrow(cuts: seq<nat>, i: nat, j: nat)
    requires Cuts(cuts) && i <= j < |cuts|
    ensures cuts[i] <= cuts[j]
    decreases j
  {
    if i < j {
      CutsGrow(cuts, i, j - 1);
    }
  }

  /** One more statement behind those already sent. */
  lemma OneMoreStatement(sent: seq<string>, base: string, rows: seq<string>, cuts: seq<nat>, next: nat)
    requires Cuts(cuts) && Statements(sent, base, rows, cuts) && cuts[|cuts| - 1] < next <= |rows|
    ensures Cuts(cuts + [next])
    ensures Statements(sent + [base + Tuples(rows, cuts[|cuts| - 1], next)], base, rows, cuts + [next])
  {
    var cuts', s := cuts + [next], base + Tuples(rows, cuts[|cuts| - 1], next);
    MoreCuts(cuts, next);
    forall k | 0 <= k < |sent + [s]|
      ensures IsStatement((sent + [s])[k], base, rows, cuts', k)
    {
      if k < |sent| {
        StatementKept(sent[k], base, rows, cuts, next, k);
      } else {
        LastStatement(base, rows, cuts, next);
      }
    }
  }

  lemma LastStatement(base: string, rows: seq<string>, cuts: seq<nat>, next: nat)
    requires cuts != [] && cuts[|cuts| - 1] < next <= |rows|
    ensures IsStatement(base + Tuples(rows, cuts[|cuts| - 1], next), base, rows, cuts + [next], |cuts| - 1)
  {
  }

  lemma MoreCuts(cuts: seq<nat>, next: nat)
    requires Cuts(cuts) && cuts[|cuts| - 1] < next
    ensures Cuts(cuts + [next])
  {
  }

  lemma StatementKept(s: string, base: string, rows: seq<string>, cuts: seq<nat>, next: nat, k: nat)
    requires IsStatement(s, base, rows, cuts, k)
    ensures IsStatement(s, base, rows, cuts + [next], k)
  {
  }

  lemma FitsOneMore(base: string, rows: seq<string>, i: nat, j: nat)
    requires i < j < |rows|
    ensures base + Tuples(rows, i, j) + "," + "(" + rows[j] + ")," == base + Tuples(rows, i, j + 1) + ","
  {
  }

  /** The statements sent so far hold the rows in front of `count`. */
  ghost predicate SentSoFar(sent: seq<string>, base: string, rows: seq<string>, cuts: seq<nat>, count: nat, total: nat,
                            bufLen: nat -> nat)
  {
    && Cuts(cuts) && Statements(sent, base, rows, cuts) && cuts[|cuts| - 1] == count
    && AllEndRight(base, rows, cuts, total, bufLen)
  }

  lemma OneMoreSent(sent: seq<string>, base: string, rows: seq<string>, cuts: seq<nat>, count: nat, next: nat,
                    total: nat, bufLen: nat -> nat)
    requires SentSoFar(sent, base, rows, cuts, count, total, bufLen)
    requires EndsRight(base, rows, count, next, total, bufLen)
    ensures SentSoFar(sent + [base + Tuples(rows, count, next)], base, rows, cuts + [next], next, total, bufLen)
  {
    OneMoreStatement(sent, base, rows, cuts, next);
    OneMoreEnd(base, rows, cuts, next, total, bufLen);
  }

  /** Builds one statement: rows from `count` on until the buffer would overflow. */
  method BuildStatement(base: string, rows: seq<string>, first: nat, insertCount: nat, bufLen: nat -> nat)
    returns (query: string, count: nat, full: bool)
    requires first < insertCount <= |rows|
    ensures first < count <= insertCount
    ensures query == base + Tuples(rows, first, count)
    ensures EndsRight(base, rows, first, count, insertCount, bufLen)
    ensures full <==> Overflows(base, rows, first, count, bufLen)
  {
    query, count, full := base, first, false;
    while count < insertCount && !full
      invariant first <= count <= insertCount
      invariant query == if count == first then base else base + Tuples(rows, first, count) + ","
      invariant full <==> count > first && Overflows(base, rows, first, count, bufLen)
      invariant forall c :: first < c < count ==> !Overflows(base, rows, first, c, bufLen)
      decreases insertCount - count, !full
    {
      if count > first {
        FitsOneMore(base, rows, first, count);
      }
      query := query + "(";
      var length := |rows[count]| + 1;
      query := query + rows[count];
      query := query + "),";
      count := count + 1;
      if |query| + length >= bufLen(count) {
        full := true;
      }
    }
    query := query[..|query| - 1];
  }

  /**
   batch_insert_std on the bound rows: the statements sent, in order. `bufLen` is the length of the
   transmission buffer after each row, `ok` what the server makes of each statement. The rows of the
   whole rowset are inserted for irow = 0; for any other row number it is always the first bound row.
   */
  method BatchInsert(base: string, rows: seq<string>, irow: nat, bufLen: nat -> nat, ok: nat -> bool)
    returns (ret: Ret, sent: seq<string>, ghost cuts: seq<nat>)
    requires |rows| > 0
    ensures Cuts(cuts) && Statements(sent, base, rows, cuts)
    ensures sent != [] && AllStartWith(base, sent) && 0 < cuts[|sent|] <= |rows|
    ensures TupleLists(base, sent) == Tuples(rows, 0, cuts[|sent|])
    ensures ret == Success <==> forall k :: 0 <= k < |sent| ==> ok(k)
    ensures forall k :: 0 <= k < |sent| - 1 ==> ok(k)
    ensures AllEndRight(base, rows, cuts, if irow == 0 then |rows| else 1, bufLen)
    ensures ret == Success || ret == Error
    ensures ret == Success ==> cuts[|cuts| - 1] == if irow == 0 then |rows| else 1
    ensures irow != 0 ==> |sent| == 1 && cuts[1] == 1
  {
    var insertCount := if irow == 0 && |rows| > 1 then |rows| else 1;
    var count := 0;
    sent, cuts, ret := [], [0], Success;
    var breakInsert := true;
    while breakInsert && count < insertCount
      invariant count <= insertCount
      invariant !breakInsert ==> count == insertCount
      invariant SentSoFar(sent, base, rows, cuts, count, insertCount, bufLen)
      invariant forall k :: 0 <= k < |sent| ==> ok(k)
      invariant insertCount == 1 ==> |sent| == count
      invariant sent == [] <==> count == 0
      decreases insertCount - count
    {
      var query, next, full := BuildStatement(base, rows, count, insertCount, bufLen);
      OneMoreSent(sent, base, rows, cuts, count, next, insertCount, bufLen);
      sent := sent + [query];
      cuts := cuts + [next];
      count := next;
      breakInsert := full;
      if !ok(|sent| - 1) {
        SentJoins(sent, base, rows, cuts);
        return Error, sent, cuts;
      }
    }
    SentJoins(sent, base, rows, cuts);
  }
}

/**
 The data-at-execution protocol: SQLExecute or SQLSetPos asks for data, SQLParamData names the next
 parameter, SQLPutData sends its value in pieces, and the last SQLParamData executes.
 */
module DataAtExec {
  import opened OdbcCodes

  type Bytes = seq<int>

  /** dae_type. */
  datatype Kind = Idle | Normal | SetPosInsert | SetPosUpdate | SetPosDone

  /**
   A descriptor record: whether its length says data-at-execution, whether its C type is
   SQL_C_DEFAULT, its value buffer, which stays allocated once it has held a byte, and the is_dae flag.
   */
  datatype Param = Param(atExec: bool, cDefault: bool, held: bool, data: Bytes, flagged: bool) {
    /** par.reset(). */
    function Reset(): Param {
      this.(data := [], flagged := false)
    }

    function Append(chunk: Bytes): Param {
      this.(data := data + chunk, held := held || chunk != [])
    }
  }

  /** One SQLPutData call: a piece of the value, or SQL_NULL_DATA. */
  datatype Put = Chunk(bytes: Bytes) | Null

  /** What goes into the statement for a parameter: a value, or the DEFAULT keyword. */
  datatype Sent = Value(bytes: Bytes) | Default

  /**
   insert_param for a data-at-execution record: DEFAULT if its buffer was never allocated. An insert by
   SQLSetPos passes the length of a flagged record instead, so that an empty one is an empty value,
   unless its C type is SQL_C_DEFAULT.
   */
  function ValueSent(kind: Kind, p: Param): Sent {
    if kind == SetPosInsert && p.flagged then
      if p.data == [] && p.cDefault && !p.held then Default else Value(p.data)
    else if p.held then Value(p.data)
    else Default
  }

  /** An executed operation, its row number and the parameters it was executed with. */
  datatype Execution = Execution(kind: Kind, row: nat, params: seq<Param>)

  /** What a call returns: SQL_NEED_DATA carries the index of the parameter asked for, if one is named. */
  datatype Answer = Done | NeedData(asked: Option<nat>) | Refused

  /** The first data-at-execution record from `from` on, below n. */
  function NextAtExec(ps: seq<Param>, from: nat, n: nat): (i: nat)
    requires n <= |ps|
    ensures from <= n ==> from <= i <= n
    ensures i < n ==> ps[i].atExec
    ensures forall k :: from <= k < i && k < n ==> !ps[k].atExec
    decreases n - from
  {
    if from >= n then from else if ps[from].atExec then from else NextAtExec(ps, from + 1, n)
  }

  /** The protocol state of a statement. */
  datatype State = State(
    apd: seq<Param>, paramCount: nat, arraySize: nat,
    ard: seq<Param>, rowsetSize: nat, setPosApd: Option<seq<Param>>,
    current: nat, kind: Kind, setPosRow: nat, log: seq<Execution>)
  {
    /** Every parameter marker has its record in the application parameter descriptor. */
    predicate Valid() {
      paramCount <= |apd| && (kind in {SetPosInsert, SetPosUpdate} ==> setPosApd.Some?)
    }

    /** The records and the count select_dae_param_desc picks. */
    function Records(): seq<Param>
      requires Valid() && InSequence()
    {
      if kind == Normal then apd else setPosApd.value
    }

    function Count(): (n: nat)
      requires Valid() && InSequence()
      ensures n <= |Records()|
    {
      if kind == Normal then paramCount else |setPosApd.value|
    }

    predicate InSequence() {
      kind in {Normal, SetPosInsert, SetPosUpdate}
    }

    function WithRecords(ps: seq<Param>): State
      requires InSequence()
    {
      if kind == Normal then this.(apd := ps) else this.(setPosApd := Some(ps))
    }
  }

  // ---------------------------------------------------------------- the calls

  function ResetAll(ps: seq<Param>): (rs: seq<Param>)
    ensures |rs| == |ps|
    ensures forall i :: 0 <= i < |ps| ==> rs[i] == ps[i].Reset()
  {
    seq(|ps|, i requires 0 <= i < |ps| => ps[i].Reset())
  }

  /** SQLExecute of a prepared statement. */
  function Execute(st: State): (r: (State, Answer))
    requires st.Valid()
  {
    var clean := st.(apd := ResetAll(st.apd), kind := Idle);
    var first := NextAtExec(clean.apd, 0, |clean.apd|);
    if st.paramCount > 0 && first < |clean.apd| then
      if st.arraySize > 1 then (clean, Refused)
      else (clean.(current := first, kind := Normal), NeedData(None))
    else (clean.(log := st.log + [Execution(Normal, 0, clean.apd)]), Done)
  }

  /** SQLSetPos with SQL_ADD or SQL_UPDATE on row irow (0: the whole rowset). */
  function SetPos(st: State, irow: nat, kind: Kind): (r: (State, Answer))
    requires st.Valid() && kind in {SetPosInsert, SetPosUpdate}
  {
    var first := NextAtExec(st.ard, 0, |st.ard|);
    if st.kind != SetPosDone && first < |st.ard| then
      if irow == 0 && st.rowsetSize > 1 then (st, Refused)
      else (st.(setPosApd := Some(st.ard), current := first, kind := kind, setPosRow := irow), NeedData(None))
    else
      var used := if st.setPosApd.Some? then st.setPosApd.value else st.ard;
      (st.(log := st.log + [Execution(kind, irow, used)]), Done)
  }

  /** execute_dae: runs the postponed operation and ends the sequence. */
  function ExecuteDae(st: State): State
    requires st.Valid() && st.InSequence()
  {
    if st.kind == Normal then st.(log := st.log + [Execution(Normal, 0, st.apd)], kind := Idle)
    else SetPos(st.(kind := SetPosDone), st.setPosRow, st.kind).0.(setPosApd := None, kind := Idle)
  }

  /** SQLParamData: names the next parameter, or executes when there is none. */
  function ParamData(st: State): (r: (State, Answer))
    requires st.Valid()
  {
    if !st.InSequence() then (st, Refused)
    else
      var ps := st.Records();
      var n := st.Count();
      var i := NextAtExec(ps, st.current, n);
      if i < n then
        (st.WithRecords(ps[i := ps[i].Reset().(flagged := true)]).(current := i + 1), NeedData(Some(i)))
      else (ExecuteDae(st), Done)
  }

  function AfterPut(p: Param, put: Put): Param {
    match put
    case Chunk(bytes) => p.Append(bytes)
    case Null => p.Reset()
  }

  /** There is a descriptor for SQLPutData to look into; without one the driver follows a null pointer. */
  predicate HasRecords(st: State) {
    st.kind == Normal || st.setPosApd.Some?
  }

  /** The descriptor SQLPutData looks into. */
  function PutRecords(st: State): seq<Param>
    requires HasRecords(st)
  {
    if st.kind == Normal then st.apd else st.setPosApd.value
  }

  /** SQLPutData: adds to the record in front of the current one, or fails when there is none. */
  function PutData(st: State, put: Put): (State, bool)
    requires HasRecords(st)
  {
    var ps, k := PutRecords(st), st.current - 1;
    if 0 <= k < |ps| then
      var qs := ps[k := AfterPut(ps[k], put)];
      (if st.kind == Normal then st.(apd := qs) else st.(setPosApd := Some(qs)), true)
    else (st, false)
  }

  /** A parameter has been asked for. */
  predicate CanPut(st: State) {
    st.Valid() && st.InSequence() && 0 < st.current <= |st.Records()|
  }

  // ---------------------------------------------------------------- whole sequences

  function AfterPuts(p: Param, puts: seq<Put>): Param {
    if puts == [] then p else AfterPut(AfterPuts(p, puts[..|puts| - 1]), puts[|puts| - 1])
  }

  /** The value put: everything since the last SQL_NULL_DATA, in order. */
  function Collected(puts: seq<Put>): Bytes {
    if puts == [] then []
    else
      match puts[|puts| - 1]
      case Null => []
      case Chunk(bytes) => Collected(puts[..|puts| - 1]) + bytes
  }

  predicate SomeByte(puts: seq<Put>) {
    exists i :: 0 <= i < |puts| && IsByte(puts[i])
  }

  predicate IsByte(put: Put) {
    put.Chunk? && put.bytes != []
  }

  lemma {:induction false} PutsAreCollected(p: Param, puts: seq<Put>)
    requires p.data == []
    ensures AfterPuts(p, puts).data == Collected(puts)
    ensures AfterPuts(p, puts).atExec == p.atExec && AfterPuts(p, puts).cDefault == p.cDefault
    decreases |puts|
  {
    if puts != [] {
      PutsAreCollected(p, puts[..|puts| - 1]);
    }
  }

  /** The buffer is allocated once it has held a byte; SQL_NULL_DATA takes the flag away. */
  lemma {:induction false} PutsHold(p: Param, puts: seq<Put>)
    ensures AfterPuts(p, puts).held == (p.held || SomeByte(puts))
    ensures AfterPuts(p, puts).flagged == (p.flagged && Null !in puts)
    decreases |puts|
  {
    if puts != [] {
      var init, last := puts[..|puts| - 1], puts[|puts| - 1];
      PutsHold(p, init);
      assert puts == init + [last];
      SomeByteSplits(init, last);
    }
  }

  lemma SomeByteSplits(init: seq<Put>, last: Put)
    ensures SomeByte(init + [last]) <==> SomeByte(init) || IsByte(last)
  {
    var puts := init + [last];
    if SomeByte(init) {
      var i :| 0 <= i < |init| && IsByte(init[i]);
      assert IsByte(puts[i]);
    }
    if IsByte(last) {
      assert IsByte(puts[|init|]);
    }
  }

  /** The value put is sent exactly in these cases, and DEFAULT otherwise. */
  predicate IsSent(kind: Kind, p: Param, puts: seq<Put>) {
    p.held || SomeByte(puts) || (kind == SetPosInsert && Null !in puts && !p.cDefault)
  }

  /** A record asked for and given its puts is executed with the value put, or with DEFAULT. */
  lemma SentExactly(kind: Kind, p: Param, puts: seq<Put>)
    ensures ValueSent(kind, AfterPuts(p.Reset().(flagged := true), puts))
         == if IsSent(kind, p, puts) then Value(Collected(puts)) else Default
  {
    var q := p.Reset().(flagged := true);
    PutsAreCollected(q, puts);
    PutsHold(q, puts);
  }

  /** An empty piece, or a lone SQL_NULL_DATA, executes DEFAULT on a fresh record and an empty value later. */
  lemma EmptyPutDependsOnThePast(p: Param, put: Put)
    requires put == Chunk([]) || put == Null
    ensures var q := AfterPuts(p.Reset().(flagged := true), [put]);
            ValueSent(Normal, q) == if p.held then Value([]) else Default
  {
    SentExactly(Normal, p, [put]);
    assert [put][..0] == [];
    assert Collected([put]) == [];
    assert !SomeByte([put]);
  }

  function PutAll(st: State, puts: seq<Put>): (st': State)
    requires CanPut(st)
    ensures CanPut(st') && st'.kind == st.kind && st'.current == st.current && |st'.Records()| == |st.Records()|
    decreases |puts|
  {
    if puts == [] then st else PutData(PutAll(st, puts[..|puts| - 1]), puts[|puts| - 1]).0
  }

  /** Putting changes the value of the parameter asked for and nothing else. */
  lemma {:induction false} PutAllIs(st: State, puts: seq<Put>)
    requires CanPut(st)
    ensures var ps, k := st.Records(), st.current - 1;
            PutAll(st, puts) == st.WithRecords(ps[k := AfterPuts(ps[k], puts)])
    decreases |puts|
  {
    var ps, k := st.Records(), st.current - 1;
    if puts == [] {
      assert ps[k := ps[k]] == ps;
    } else {
      var init := puts[..|puts| - 1];
      PutAllIs(st, init);
      var q := AfterPuts(ps[k], init);
      assert ps[k := q][k := AfterPut(q, puts[|puts| - 1])] == ps[k := AfterPut(q, puts[|puts| - 1])];
      assert PutAll(st, puts) == PutData(st.WithRecords(ps[k := q]), puts[|puts| - 1]).0;
    }
  }

  /** The data-at-execution records from `from` on, below n. */
  function AtExec(ps: seq<Param>, from: nat, n: nat): seq<nat>
    requires n <= |ps|
    decreases n - from
  {
    if from >= n then []
    else if ps[from].atExec then [from] + AtExec(ps, from + 1, n)
    else AtExec(ps, from + 1, n)
  }

  /** The records after every data-at-execution one from `from` on has been asked for and given its puts. */
  function Filled(ps: seq<Param>, from: nat, n: nat, script: seq<seq<Put>>): (qs: seq<Param>)
    requires n <= |ps| && |script| == |AtExec(ps, from, n)|
    ensures |qs| == |ps|
    decreases n - from
  {
    if from >= n then ps
    else if !ps[from].atExec then Filled(ps, from + 1, n, script)
    else
      FillKeepsRest(ps, from, n, script[0]);
      Filled(ps[from := AfterPuts(ps[from].Reset().(flagged := true), script[0])], from + 1, n, script[1..])
  }

  lemma {:induction false} SameAtExec(ps: seq<Param>, qs: seq<Param>, from: nat, n: nat)
    requires n <= |ps| == |qs|
    requires forall k :: from <= k < n ==> ps[k].atExec == qs[k].atExec
    ensures AtExec(ps, from, n) == AtExec(qs, from, n)
    decreases n - from
  {
    if from < n {
      SameAtExec(ps, qs, from + 1, n);
    }
  }

  lemma FillKeepsRest(ps: seq<Param>, from: nat, n: nat, puts: seq<Put>)
    requires from < n <= |ps|
    ensures var p := AfterPuts(ps[from].Reset().(flagged := true), puts);
            AtExec(ps[from := p], from + 1, n) == AtExec(ps, from + 1, n)
  {
    SameAtExec(ps, ps[from := AfterPuts(ps[from].Reset().(flagged := true), puts)], from + 1, n);
  }

  /**
   What the filled records are: the j-th data-at-execution one is given the j-th puts, and every other
   is left alone.
   */
  lemma {:induction false} FilledRecord(ps: seq<Param>, from: nat, n: nat, script: seq<seq<Put>>, j: nat)
    requires n <= |ps| && |script| == |AtExec(ps, from, n)| && j < |script|
    ensures var i := AtExec(ps, from, n)[j];
            && from <= i < n
            && Filled(ps, from, n, script)[i] == AfterPuts(ps[i].Reset().(flagged := true), script[j])
    decreases n - from
  {
    if from < n {
      if !ps[from].atExec {
        FilledRecord(ps, from + 1, n, script, j);
      } else {
        var qs := ps[from := AfterPuts(ps[from].Reset().(flagged := true), script[0])];
        FillKeepsRest(ps, from, n, script[0]);
        if j > 0 {
          FilledRecord(qs, from + 1, n, script[1..], j - 1);
        } else {
          FilledKeeps(qs, from + 1, n, script[1..], from);
        }
      }
    }
  }

  lemma {:induction false} FilledKeeps(ps: seq<Param>, from: nat, n: nat, script: seq<seq<Put>>, k: nat)
    requires n <= |ps| && |script| == |AtExec(ps, from, n)| && k < |ps|
    requires k < from || n <= k || !ps[k].atExec
    ensures Filled(ps, from, n, script)[k] == ps[k]
    decreases n - from
  {
    if from < n {
      if !ps[from].atExec {
        FilledKeeps(ps, from + 1, n, script, k);
      } else {
        FillKeepsRest(ps, from, n, script[0]);
        FilledKeeps(ps[from := AfterPuts(ps[from].Reset().(flagged := true), script[0])], from + 1, n, script[1..], k);
      }
    }
  }

  /** The j-th data-at-execution parameter holds the j-th collected value, and is sent as such or as DEFAULT. */
  ghost predicate HoldsValue(kind: Kind, p: Param, q: Param, puts: seq<Put>) {
    && q.data == Collected(puts)
    && ValueSent(kind, q) == if IsSent(kind, p, puts) then Value(Collected(puts)) else Default
  }

  lemma FilledValues(kind: Kind, ps: seq<Param>, from: nat, n: nat, script: seq<seq<Put>>)
    requires n <= |ps| && |script| == |AtExec(ps, from, n)|
    ensures forall j :: 0 <= j < |script| ==>
              var i := AtExec(ps, from, n)[j];
              from <= i < n && HoldsValue(kind, ps[i], Filled(ps, from, n, script)[i], script[j])
    ensures forall k :: 0 <= k < |ps| && k !in AtExec(ps, from, n) ==> Filled(ps, from, n, script)[k] == ps[k]
  {
    forall j | 0 <= j < |script|
      ensures var i := AtExec(ps, from, n)[j];
              from <= i < n && HoldsValue(kind, ps[i], Filled(ps, from, n, script)[i], script[j])
    {
      FilledRecord(ps, from, n, script, j);
      var p := ps[AtExec(ps, from, n)[j]];
      PutsAreCollected(p.Reset().(flagged := true), script[j]);
      SentExactly(kind, p, script[j]);
    }
    forall k | 0 <= k < |ps| && k !in AtExec(ps, from, n)
      ensures Filled(ps, from, n, script)[k] == ps[k]
    {
      IsAsked(ps, from, n, k);
      FilledKeeps(ps, from, n, script, k);
    }
  }

  /**
   A whole sequence: SQLParamData, the puts of the script, SQLParamData, ..., until a call does not
   ask for data. Returns the final state, the last answer and the parameters asked for.
   */
  function Play(st: State, script: seq<seq<Put>>): (State, Answer, seq<nat>)
    requires st.Valid()
    decreases |script|
  {
    var (st1, answer) := ParamData(st);
    if !answer.NeedData? || answer.asked == None || script == [] || !CanPut(st1) then (st1, answer, [])
    else
      var (st2, last, asked) := Play(PutAll(st1, script[0]), script[1..]);
      (st2, last, [answer.asked.value] + asked)
  }

  /** The record to ask for next is the first of those still to come. */
  lemma {:induction false} NextIsFirst(ps: seq<Param>, from: nat, n: nat)
    requires n <= |ps|
    ensures var i := NextAtExec(ps, from, n);
            AtExec(ps, from, n) == if i < n then [i] + AtExec(ps, i + 1, n) else []
    decreases n - from
  {
    if from >= n {
      assert AtExec(ps, from, n) == [];
    } else if ps[from].atExec {
      assert AtExec(ps, from, n) == [from] + AtExec(ps, from + 1, n);
    } else {
      NextIsFirst(ps, from + 1, n);
      assert AtExec(ps, from, n) == AtExec(ps, from + 1, n);
    }
  }

  lemma {:induction false} FilledFromNext(ps: seq<Param>, from: nat, n: nat, script: seq<seq<Put>>)
    requires n <= |ps| && |script| == |AtExec(ps, from, n)|
    ensures script == [] ==> Filled(ps, from, n, script) == ps
    ensures script != [] ==>
              var i := NextAtExec(ps, from, n);
              && i < n
              && var qs := ps[i := AfterPuts(ps[i].Reset().(flagged := true), script[0])];
                 && |script[1..]| == |AtExec(qs, i + 1, n)|
                 && Filled(ps, from, n, script) == Filled(qs, i + 1, n, script[1..])
    decreases n - from
  {
    NextIsFirst(ps, from, n);
    if from < n {
      if ps[from].atExec {
        FillKeepsRest(ps, from, n, script[0]);
      } else {
        FilledFromNext(ps, from + 1, n, script);
      }
    }
  }

  /** One round: SQLParamData asks for the next parameter and the puts fill it. */
  lemma OneRound(st: State, puts: seq<Put>)
    requires st.Valid() && st.InSequence() && NextAtExec(st.Records(), st.current, st.Count()) < st.Count()
    ensures var i := NextAtExec(st.Records(), st.current, st.Count());
            var (st1, answer) := ParamData(st);
            && answer == NeedData(Some(i))
            && CanPut(st1)
            && var st2 := PutAll(st1, puts);
               && st2.Valid() && st2.InSequence()
               && st2.Count() == st.Count()
               && var p := AfterPuts(st.Records()[i].Reset().(flagged := true), puts);
                  && st2 == st.WithRecords(st.Records()[i := p]).(current := i + 1)
                  && st2.Records() == st.Records()[i := p]
  {
    var i := NextAtExec(st.Records(), st.current, st.Count());
    var ps := st.Records();
    var p := ps[i].Reset().(flagged := true);
    var st1 := ParamData(st).0;
    PutAllIs(st1, puts);
    assert ps[i := p][i := AfterPuts(p, puts)] == ps[i := AfterPuts(p, puts)];
  }

  /** The operation of the sequence has been executed with the given records, and the sequence is over. */
  ghost predicate Ends(st: State, st': State, last: Answer, used: seq<Param>) {
    && last == Done && st'.kind == Idle
    && st'.log == st.log + [Execution(st.kind, if st.kind == Normal then 0 else st.setPosRow, used)]
    && (st.kind != Normal ==> st'.setPosApd == None)
  }

  /** With nothing left to ask for, SQLParamData executes. */
  lemma PlayEnds(st: State)
    requires st.Valid() && st.InSequence() && NextAtExec(st.Records(), st.current, st.Count()) >= st.Count()
    ensures var (st', last, asked) := Play(st, []);
            asked == [] && Ends(st, st', last, st.Records())
  {
  }

  /** A round, and then the rest of the sequence. */
  lemma PlayGoesOn(st: State, script: seq<seq<Put>>)
    requires st.Valid() && st.InSequence() && script != []
    requires NextAtExec(st.Records(), st.current, st.Count()) < st.Count()
    ensures var st1 := ParamData(st).0;
            && CanPut(st1) && PutAll(st1, script[0]).Valid()
            && var (st', last, asked) := Play(PutAll(st1, script[0]), script[1..]);
               Play(st, script) == (st', last, [NextAtExec(st.Records(), st.current, st.Count())] + asked)
  {
    OneRound(st, script[0]);
  }

  /** The rest of the sequence is asked for in order, filled as the script says, and executed once. */
  ghost predicate Completes(st: State, script: seq<seq<Put>>)
    requires st.Valid() && st.InSequence()
  {
    && |script| == |AtExec(st.Records(), st.current, st.Count())|
    && var (st', last, asked) := Play(st, script);
       && asked == AtExec(st.Records(), st.current, st.Count())
       && Ends(st, st', last, Filled(st.Records(), st.current, st.Count(), script))
  }

  /** The state after one round. */
  function NextRound(st: State, puts: seq<Put>): (st2: State)
    requires st.Valid() && st.InSequence() && NextAtExec(st.Records(), st.current, st.Count()) < st.Count()
    ensures st2.Valid() && st2.InSequence()
  {
    OneRound(st, puts);
    PutAll(ParamData(st).0, puts)
  }

  lemma RoundLeaves(st: State, script: seq<seq<Put>>)
    requires st.Valid() && st.InSequence() && NextAtExec(st.Records(), st.current, st.Count()) < st.Count()
    requires script != [] && |script| == |AtExec(st.Records(), st.current, st.Count())|
    ensures var st2 := NextRound(st, script[0]);
            && |script[1..]| == |AtExec(st2.Records(), st2.current, st2.Count())|
            && Filled(st2.Records(), st2.current, st2.Count(), script[1..])
               == Filled(st.Records(), st.current, st.Count(), script)
            && AtExec(st.Records(), st.current, st.Count())
               == [NextAtExec(st.Records(), st.current, st.Count())]
                  + AtExec(st2.Records(), st2.current, st2.Count())
            && st2.kind == st.kind && st2.setPosRow == st.setPosRow && st2.log == st.log
  {
    var ps, n := st.Records(), st.Count();
    NextIsFirst(ps, st.current, n);
    FilledFromNext(ps, st.current, n, script);
    OneRound(st, script[0]);
    FillKeepsRest(ps, NextAtExec(ps, st.current, n), n, script[0]);
  }

  lemma RoundCompletes(st: State, script: seq<seq<Put>>)
    requires st.Valid() && st.InSequence() && NextAtExec(st.Records(), st.current, st.Count()) < st.Count()
    requires script != [] && |script| == |AtExec(st.Records(), st.current, st.Count())|
    requires Completes(NextRound(st, script[0]), script[1..])
    ensures Completes(st, script)
  {
    RoundLeaves(st, script);
    PlayGoesOn(st, script);
  }

  /** From any point of a sequence on: the rest is asked for in order, filled, and executed once. */
  lemma {:induction false} PlayFillsAndExecutes(st: State, script: seq<seq<Put>>)
    requires st.Valid() && st.InSequence()
    requires |script| == |AtExec(st.Records(), st.current, st.Count())|
    ensures Completes(st, script)
    decreases |script|
  {
    NextIsFirst(st.Records(), st.current, st.Count());
    if script == [] {
      FilledFromNext(st.Records(), st.current, st.Count(), script);
      PlayEnds(st);
    } else {
      RoundLeaves(st, script);
      PlayFillsAndExecutes(NextRound(st, script[0]), script[1..]);
      RoundCompletes(st, script);
    }
  }

  lemma {:induction false} NothingBefore(ps: seq<Param>, from: nat, upTo: nat, n: nat)
    requires n <= |ps| && from <= upTo
    requires forall k :: from <= k < upTo && k < n ==> !ps[k].atExec
    ensures AtExec(ps, from, n) == AtExec(ps, upTo, n)
    decreases upTo - from
  {
    if from < upTo {
      NothingBefore(ps, from + 1, upTo, n);
    }
  }

  lemma {:induction false} IsAsked(ps: seq<Param>, from: nat, n: nat, k: nat)
    requires n <= |ps|
    ensures k in AtExec(ps, from, n) <==> from <= k < n && ps[k].atExec
    decreases n - from
  {
    if from < n {
      IsAsked(ps, from + 1, n, k);
    }
  }

  lemma {:induction false} AskedIncrease(ps: seq<Param>, from: nat, n: nat)
    requires n <= |ps|
    ensures forall a, b :: 0 <= a < b < |AtExec(ps, from, n)| ==> AtExec(ps, from, n)[a] < AtExec(ps, from, n)[b]
    decreases n - from
  {
    if from < n {
      AskedIncrease(ps, from + 1, n);
      var rest := AtExec(ps, from + 1, n);
      forall j | 0 <= j < |rest|
        ensures rest[j] > from
      {
        IsAsked(ps, from + 1, n, rest[j]);
      }
    }
  }

  /** The parameters asked for are the data-at-execution ones, in increasing order. */
  lemma AskedInOrder(ps: seq<Param>, from: nat, n: nat)
    requires n <= |ps|
    ensures var idx := AtExec(ps, from, n);
            && (forall a, b :: 0 <= a < b < |idx| ==> idx[a] < idx[b])
            && (forall k: nat :: k in idx <==> from <= k < n && ps[k].atExec)
  {
    AskedIncrease(ps, from, n);
    forall k: nat
      ensures k in AtExec(ps, from, n) <==> from <= k < n && ps[k].atExec
    {
      IsAsked(ps, from, n, k);
    }
  }

  /** One more execution has been logged. */
  ghost predicate LogsOne(st: State, st': State, kind: Kind, row: nat) {
    && |st'.log| == |st.log| + 1 && st'.log[..|st.log|] == st.log
    && st'.log[|st.log|].kind == kind && st'.log[|st.log|].row == row
  }

  /** The records used: the ones asked for hold and send what was put, the others are as they were. */
  ghost predicate Used(kind: Kind, used: seq<Param>, ps: seq<Param>, idx: seq<nat>, script: seq<seq<Put>>) {
    && |used| == |ps| && |idx| == |script|
    && (forall j :: 0 <= j < |idx| ==> idx[j] < |ps| && HoldsValue(kind, ps[idx[j]], used[idx[j]], script[j]))
    && (forall k :: 0 <= k < |ps| && k !in idx ==> used[k] == ps[k])
  }

  /** Some record says data-at-execution. */
  predicate SomeAtExec(ps: seq<Param>) {
    exists k :: 0 <= k < |ps| && ps[k].atExec
  }

  lemma FoundIfAny(ps: seq<Param>, from: nat)
    requires from <= |ps|
    ensures NextAtExec(ps, from, |ps|) < |ps| <==> SomeAtExec(ps[from..])
  {
    if SomeAtExec(ps[from..]) {
      var k :| 0 <= k < |ps[from..]| && ps[from..][k].atExec;
      assert ps[from + k].atExec;
    }
  }

  /** Values of an earlier sequence are gone; how a record is bound is not touched. */
  predicate Emptied(ps: seq<Param>, qs: seq<Param>) {
    && |qs| == |ps|
    && forall k :: 0 <= k < |ps| ==>
         && qs[k].data == [] && !qs[k].flagged
         && qs[k].atExec == ps[k].atExec && qs[k].cDefault == ps[k].cDefault && qs[k].held == ps[k].held
  }

  /**
   What SQLExecute answers: with a parameter and some record at execution it asks for data, unless the
   array holds more than one set; in all other cases it executes, once, with the records as bound.
   */
  lemma ExecuteAnswers(st: State)
    requires st.Valid()
    ensures var (st', answer) := Execute(st);
            && Emptied(st.apd, st'.apd)
            && st' == st.(apd := st'.apd, kind := st'.kind, current := st'.current, log := st'.log)
            && if st.paramCount > 0 && SomeAtExec(st.apd) then
                 && answer == (if st.arraySize <= 1 then NeedData(None) else Refused)
                 && st'.log == st.log
                 && st'.kind == (if st.arraySize <= 1 then Normal else Idle)
               else
                 && answer == Done && st'.kind == Idle
                 && st'.log == st.log + [Execution(Normal, 0, st'.apd)]
  {
    var apd := ResetAll(st.apd);
    assert apd[0..] == apd;
    FoundIfAny(apd, 0);
    assert forall k :: 0 <= k < |apd| ==> apd[k].atExec == st.apd[k].atExec;
  }

  /**
   What SQLSetPos answers: with some row descriptor record at execution, and not called to end a sequence,
   it asks for data, on a copy of the descriptor, unless it is for a whole rowset of several rows. In all
   other cases it executes, once.
   */
  lemma SetPosAnswers(st: State, irow: nat, kind: Kind)
    requires st.Valid() && kind in {SetPosInsert, SetPosUpdate}
    ensures var (st', answer) := SetPos(st, irow, kind);
            if !SomeAtExec(st.ard) || st.kind == SetPosDone then
              && answer == Done
              && st' == st.(log := st'.log)
              && var used := if st.setPosApd == None then st.ard else st.setPosApd.value;
                 st'.log == st.log + [Execution(kind, irow, used)]
            else if irow == 0 && st.rowsetSize >= 2 then answer == Refused && st' == st
            else
              && answer == NeedData(None)
              && st' == st.(setPosApd := Some(st.ard), current := st'.current, kind := kind, setPosRow := irow)
  {
    assert st.ard[0..] == st.ard;
    FoundIfAny(st.ard, 0);
  }

  /**
   SQLExecute with data-at-execution parameters: each is asked for once, in increasing order, the
   statement is executed once with what was put and the other parameters as bound, and the sequence is
   over.
   */
  lemma ExecuteSequence(st: State, script: seq<seq<Put>>)
    requires st.Valid() && st.paramCount > 0 && SomeAtExec(st.apd) && st.arraySize <= 1
    requires |script| == |AtExec(st.apd, 0, st.paramCount)|
    ensures var idx := AtExec(st.apd, 0, st.paramCount);
            var (st', last, asked) := Play(Execute(st).0, script);
            && asked == idx && last == Done
            && st'.kind == Idle
            && LogsOne(st, st', Normal, 0)
            && Used(Normal, st'.log[|st.log|].params, ResetAll(st.apd), idx, script)
  {
    var st1 := Execute(st).0;
    ExecuteAnswers(st);
    SameAtExec(st.apd, st1.apd, 0, st.paramCount);
    NothingBefore(st1.apd, 0, st1.current, st.paramCount);
    PlayFillsAndExecutes(st1, script);
    FilledValues(Normal, st1.apd, st1.current, st.paramCount, script);
  }

  /** The same for SQLSetPos: the operation runs once, with what was put, on a copy of the row descriptor. */
  lemma SetPosSequence(st: State, irow: nat, kind: Kind, script: seq<seq<Put>>)
    requires st.Valid() && kind in {SetPosInsert, SetPosUpdate} && st.kind != SetPosDone
    requires SomeAtExec(st.ard) && (irow == 0 ==> st.rowsetSize <= 1)
    requires |script| == |AtExec(st.ard, 0, |st.ard|)|
    ensures var idx := AtExec(st.ard, 0, |st.ard|);
            var (st', last, asked) := Play(SetPos(st, irow, kind).0, script);
            && asked == idx && last == Done
            && st'.kind == Idle && st'.setPosApd == None
            && LogsOne(st, st', kind, irow)
            && Used(kind, st'.log[|st.log|].params, st.ard, idx, script)
  {
    var st1 := SetPos(st, irow, kind).0;
    SetPosAnswers(st, irow, kind);
    NothingBefore(st.ard, 0, st1.current, |st.ard|);
    PlayFillsAndExecutes(st1, script);
    FilledValues(kind, st.ard, st1.current, |st.ard|, script);
  }

  /**
   A piece put before the first SQLParamData: refused, or lost in a record that is not a
   data-at-execution one.
   */
  lemma EarlyPutIsLost(st: State, put: Put)
    requires st.Valid() && st.paramCount > 0 && SomeAtExec(st.apd) && st.arraySize <= 1
    ensures var st1 := Execute(st).0;
            var (st2, accepted) := PutData(st1, put);
            && (accepted <==> !st1.apd[0].atExec)
            && st2 == st1.(apd := st2.apd)
            && |st2.apd| == |st1.apd|
            && forall k :: 0 <= k < |st1.apd| && st1.apd[k].atExec ==> st2.apd[k] == st1.apd[k]
  {
    ExecuteAnswers(st);
  }

  // ---------------------------------------------------------------- arbitrary runs of calls

  datatype Call = CallExecute | CallSetPos(irow: nat, kind: Kind) | CallParamData | CallPut(put: Put)

  predicate Callable(st: State, call: Call) {
    match call
    case CallSetPos(_, kind) => kind in {SetPosInsert, SetPosUpdate}
    case CallPut(_) => HasRecords(st)
    case _ => true
  }

  function Do(st: State, call: Call): (r: (State, Answer))
    requires st.Valid() && Callable(st, call)
  {
    match call
    case CallExecute => Execute(st)
    case CallSetPos(irow, kind) => SetPos(st, irow, kind)
    case CallParamData => ParamData(st)
    case CallPut(put) => var (st', accepted) := PutData(st, put); (st', if accepted then Done else Refused)
  }

  /** What an application knows from the answers: whether a sequence is open. */
  function OpenAfter(open: bool, call: Call, answer: Answer): bool {
    match call
    case CallExecute => answer.NeedData?
    case CallSetPos(_, _) => open || answer.NeedData?
    case CallParamData => open && answer.NeedData?
    case CallPut(_) => open
  }

  /** The final state of a run, whether a sequence is open then, and how many operations were answered as done. */
  datatype Trace = Trace(st: State, open: bool, done: nat)

  function TraceStep(t: Trace, call: Call): Trace
    requires t.st.Valid() && Callable(t.st, call)
  {
    var (st', answer) := Do(t.st, call);
    Trace(st', OpenAfter(t.open, call, answer), t.done + if !call.CallPut? && answer == Done then 1 else 0)
  }

  lemma CallKeepsValid(st: State, call: Call)
    requires st.Valid() && Callable(st, call)
    ensures Do(st, call).0.Valid()
  {
  }

  /** The run goes through and ends in t'. */
  ghost predicate Runs(t: Trace, calls: seq<Call>, t': Trace)
    decreases |calls|
  {
    if calls == [] then t' == t
    else t.st.Valid() && Callable(t.st, calls[0]) && Runs(TraceStep(t, calls[0]), calls[1..], t')
  }

  ghost predicate Consistent(t: Trace) {
    t.st.Valid() && t.open == t.st.InSequence() && t.done == |t.st.log|
  }

  lemma StepConsistent(t: Trace, call: Call)
    requires Consistent(t) && Callable(t.st, call)
    ensures Consistent(TraceStep(t, call))
  {
    CallKeepsValid(t.st, call);
  }

  /**
   Over every run of calls: SQLParamData is refused exactly when the answers so far leave no sequence
   open, a refusal changes nothing, and every operation answered as done has been executed, once.
   */
  lemma {:induction false} RefusedExactly(t: Trace, calls: seq<Call>, t': Trace)
    requires Consistent(t) && Runs(t, calls, t')
    ensures Consistent(t') && t'.done == |t'.st.log|
    ensures ParamData(t'.st).1 == Refused <==> !t'.open
    ensures !t'.open ==> ParamData(t'.st).0 == t'.st
    decreases |calls|
  {
    if calls == [] {
      ParamDataRefused(t.st);
    } else {
      StepConsistent(t, calls[0]);
      RefusedExactly(TraceStep(t, calls[0]), calls[1..], t');
    }
  }

  /** Outside a sequence SQLParamData is refused and changes nothing; inside one it never is. */
  lemma ParamDataRefused(st: State)
    requires st.Valid()
    ensures ParamData(st).1 == Refused <==> !st.InSequence()
    ensures ParamData(st).1 == Refused ==> ParamData(st).0 == st
  {
  }

  /** SQL_NULL_DATA does not store a NULL: it only empties the value, which later pieces fill again. */
  lemma NullOnlyEmpties(p: Param, puts: seq<Put>, bytes: Bytes)
    requires p.data == []
    ensures AfterPuts(p, puts + [Null]).data == []
    ensures AfterPuts(p, puts + [Null] + [Chunk(bytes)]).data == bytes
  {
    PutsAreCollected(p, puts + [Null]);
    PutsAreCollected(p, puts + [Null] + [Chunk(bytes)]);
    assert (puts + [Null] + [Chunk(bytes)])[..|puts| + 1] == puts + [Null];
  }

  // ---------------------------------------------------------------- the statement object

  class Statement {
    var st: State

    constructor (apd: seq<Param>, paramCount: nat, arraySize: nat, ard: seq<Param>, rowsetSize: nat)
      requires paramCount <= |apd|
      ensures st == State(apd, paramCount, arraySize, ard, rowsetSize, None, 0, Idle, 0, [])
      ensures st.Valid()
    {
      st := State(apd, paramCount, arraySize, ard, rowsetSize, None, 0, Idle, 0, []);
    }

    /** desc_find_dae_rec and the loop of find_next_dae_param. */
    static method FindAtExec(ps: seq<Param>, from: nat, n: nat) returns (i: nat)
      requires n <= |ps|
      ensures i == NextAtExec(ps, from, n)
    {
      i := from;
      while i < n && !ps[i].atExec
        invariant i <= n || i == from
        invariant NextAtExec(ps, i, n) == NextAtExec(ps, from, n)
        decreases n - i
      {
        i := i + 1;
      }
    }

    method SQLExecute() returns (answer: Answer)
      requires st.Valid()
      modifies this
      ensures (st, answer) == Execute(old(st)) && st.Valid()
    {
      st := st.(apd := ResetAll(st.apd), kind := Idle);
      if st.paramCount > 0 {
        var rec := FindAtExec(st.apd, 0, |st.apd|);
        if rec < |st.apd| {
          if st.arraySize > 1 {
            return Refused;
          }
          st := st.(current := rec, kind := Normal);
          return NeedData(None);
        }
      }
      st := st.(log := st.log + [Execution(Normal, 0, st.apd)]);
      answer := Done;
    }

    method SQLSetPos(irow: nat, kind: Kind) returns (answer: Answer)
      requires st.Valid() && kind in {SetPosInsert, SetPosUpdate}
      modifies this
      ensures (st, answer) == SetPos(old(st), irow, kind) && st.Valid()
    {
      if st.kind != SetPosDone {
        var rec := FindAtExec(st.ard, 0, |st.ard|);
        if rec < |st.ard| {
          if irow == 0 && st.rowsetSize > 1 {
            return Refused;
          }
          st := st.(setPosApd := Some(st.ard), current := rec, kind := kind, setPosRow := irow);
          return NeedData(None);
        }
      }
      var used := if st.setPosApd.Some? then st.setPosApd.value else st.ard;
      st := st.(log := st.log + [Execution(kind, irow, used)]);
      answer := Done;
    }

    method SQLParamData() returns (answer: Answer)
      requires st.Valid()
      modifies this
      ensures (st, answer) == ParamData(old(st)) && st.Valid()
    {
      if !st.InSequence() {
        return Refused;
      }
      var ps, n := st.Records(), st.Count();
      var i := FindAtExec(ps, st.current, n);
      if i < n {
        st := st.WithRecords(ps[i := ps[i].Reset().(flagged := true)]).(current := i + 1);
        return NeedData(Some(i));
      }
      if st.kind == Normal {
        st := st.(log := st.log + [Execution(Normal, 0, st.apd)]);
      } else {
        var kind := st.kind;
        st := st.(kind := SetPosDone);
        var done := SQLSetPos(st.setPosRow, kind);
        st := st.(setPosApd := None);
      }
      st := st.(kind := Idle);
      answer := Done;
    }

    method SQLPutData(put: Put) returns (accepted: bool)
      requires HasRecords(st)
      modifies this
      ensures (st, accepted) == PutData(old(st), put)
      ensures old(st).Valid() ==> st.Valid()
    {
      var ps, k := PutRecords(st), st.current - 1;
      if k < 0 || k >= |ps| {
        return false;
      }
      match put {
        case Null => ps := ps[k := ps[k].Reset()];
        case Chunk(bytes) => ps := ps[k := ps[k].Append(bytes)];
      }
      st := if st.kind == Normal then st.(apd := ps) else st.(setPosApd := Some(ps));
      accepted := true;
    }
  }
}

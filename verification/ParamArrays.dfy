/**
 Executing a statement that returns no rows with an array of parameter sets: the status array, the
 number of sets processed and the overall return code.
 */
module ParamArrays {
  import opened OdbcCodes

  datatype ParamStatus = ParamSuccess | ParamInfo | ParamError | Unused | DiagUnavailable

  /**
   One set: ignored, or what binding it and executing it return, and whether the connection is found
   lost behind it.
   */
  datatype ParamSet = Ignored | Bound(bind: Ret, exec: Ret, lost: bool)

  predicate Runs(s: ParamSet) {
    s.Bound? && Succeeded(s.bind)
  }

  /** The connection was lost behind one of the first n sets. */
  predicate LostBefore(sets: seq<ParamSet>, n: nat)
    requires n <= |sets|
  {
    exists k :: 0 <= k < n && Runs(sets[k]) && sets[k].lost
  }

  /** What the execution of a set comes to: on a lost connection every further set fails. */
  function Executed(sets: seq<ParamSet>, row: nat): Ret
    requires row < |sets| && Runs(sets[row])
  {
    if LostBefore(sets, row) then Error else sets[row].exec
  }

  /** The last return code of a set: of binding if that failed, of executing otherwise. */
  function Outcome(sets: seq<ParamSet>, row: nat): Ret
    requires row < |sets| && sets[row].Bound?
  {
    if Succeeded(sets[row].bind) then Executed(sets, row) else sets[row].bind
  }

  predicate Fails(sets: seq<ParamSet>, row: nat)
    requires row < |sets|
  {
    sets[row].Bound? && !Succeeded(Outcome(sets, row))
  }

  /** Row fails and no set between it and n does. */
  predicate LastFailure(sets: seq<ParamSet>, row: nat, n: nat)
    requires row < n <= |sets|
  {
    Fails(sets, row) && forall k :: row < k < n ==> !Fails(sets, k)
  }

  /** The status a set ends with. */
  function FinalStatus(sets: seq<ParamSet>, row: nat): ParamStatus
    requires row < |sets|
  {
    if sets[row].Ignored? then Unused
    else if Outcome(sets, row) == Success then ParamSuccess
    else if Outcome(sets, row) == Info then ParamInfo
    else if LastFailure(sets, row, |sets|) then ParamError
    else DiagUnavailable
  }

  /** A set ran, and with SQL_SUCCESS. */
  predicate RanWell(sets: seq<ParamSet>, row: nat)
    requires row < |sets|
  {
    Runs(sets[row]) && Executed(sets, row) == Success
  }

  /** A set was bound and executed with SQL_SUCCESS throughout. */
  predicate Flawless(sets: seq<ParamSet>, row: nat)
    requires row < |sets|
  {
    RanWell(sets, row) && sets[row].bind == Success
  }

  predicate SomeRanWell(sets: seq<ParamSet>, n: nat)
    requires n <= |sets|
  {
    exists k :: 0 <= k < n && RanWell(sets, k)
  }

  predicate AllFlawless(sets: seq<ParamSet>, n: nat)
    requires n <= |sets|
  {
    forall k :: 0 <= k < n && sets[k].Bound? ==> Flawless(sets, k)
  }

  /** map_error_to_param_status: true for an error that has been entered. */
  method MapError(status: array?<ParamStatus>, row: nat, rc: Ret) returns (entered: bool)
    requires status != null ==> row < status.Length
    modifies status
    ensures entered == (status != null && !Succeeded(rc))
    ensures status != null ==>
              forall k :: 0 <= k < status.Length ==>
                status[k] == if k != row then old(status[k])
                             else match rc case Success => ParamSuccess case Info => ParamInfo case _ => DiagUnavailable
  {
    entered := false;
    if status != null {
      match rc
      case Success => status[row] := ParamSuccess;
      case Info => status[row] := ParamInfo;
      case _ =>
        status[row] := DiagUnavailable;
        entered := true;
    }
  }

  /** The status of a set before the last failure is known. */
  function RawStatus(sets: seq<ParamSet>, row: nat): ParamStatus
    requires row < |sets|
  {
    if sets[row].Ignored? then Unused
    else match Outcome(sets, row) case Success => ParamSuccess case Info => ParamInfo case _ => DiagUnavailable
  }

  lemma LostGrows(sets: seq<ParamSet>, n: nat)
    requires n < |sets|
    ensures LostBefore(sets, n + 1) <==> LostBefore(sets, n) || (Runs(sets[n]) && sets[n].lost)
  {
  }

  lemma WellGrows(sets: seq<ParamSet>, n: nat)
    requires n < |sets|
    ensures SomeRanWell(sets, n + 1) <==> SomeRanWell(sets, n) || RanWell(sets, n)
    ensures AllFlawless(sets, n + 1) <==> AllFlawless(sets, n) && (sets[n].Bound? ==> Flawless(sets, n))
  {
  }

  /**
   The parameter-set loop of my_SQLExecute for a statement without a result, more than one set, and
   no data-at-execution parameter.
   */
  method ExecuteSets(sets: seq<ParamSet>, status: array?<ParamStatus>) returns (rc: Ret, processed: nat)
    requires |sets| > 1
    requires status != null ==> status.Length == |sets|
    modifies status
    ensures processed == |sets|
    ensures status != null ==> forall k :: 0 <= k < |sets| ==> status[k] == FinalStatus(sets, k)
    ensures rc == if !SomeRanWell(sets, |sets|) then Error
                  else if AllFlawless(sets, |sets|) then Success
                  else Info
  {
    processed, rc := 0, Success;
    var allFailed, notSucceeded, connectionFailure := true, false, false;
    var lastError: int := -1;
    var row := 0;
    while row < |sets|
      invariant 0 <= row <= |sets| && processed == row
      invariant connectionFailure == LostBefore(sets, row)
      invariant allFailed == !SomeRanWell(sets, row)
      invariant notSucceeded == !AllFlawless(sets, row)
      invariant !notSucceeded ==> rc == Success
      invariant -1 <= lastError < row
      invariant lastError >= 0 ==> status != null && LastFailure(sets, lastError, row)
      invariant lastError < 0 && status != null ==> forall k :: 0 <= k < row ==> !Fails(sets, k)
      invariant status != null ==> forall k :: 0 <= k < row ==> status[k] == RawStatus(sets, k)
      decreases |sets| - row
    {
      LostGrows(sets, row);
      WellGrows(sets, row);
      processed := processed + 1;
      if sets[row].Ignored? {
        if status != null {
          status[row] := Unused;
        }
        row := row + 1;
        continue;
      }
      rc := sets[row].bind;
      var entered := MapError(status, row, rc);
      if entered {
        lastError := row;
      }
      if rc != Success {
        notSucceeded := true;
      }
      if !Succeeded(rc) {
        row := row + 1;
        continue;
      }
      rc := if connectionFailure then Error else sets[row].exec;
      if sets[row].lost {
        connectionFailure := true;
      }
      entered := MapError(status, row, rc);
      if entered {
        lastError := row;
      }
      if rc != Success {
        notSucceeded := true;
      } else {
        allFailed := false;
      }
      row := row + 1;
    }
    if lastError >= 0 {
      status[lastError] := ParamError;
    }
    if allFailed {
      rc := Error;
    } else if notSucceeded {
      rc := Info;
    }
  }

  /** A set in front of this one ran and left a lost connection. */
  predicate ConnectionGone(sets: seq<ParamSet>, row: nat)
    requires row <= |sets|
  {
    exists k :: 0 <= k < row && sets[k].Bound? && (sets[k].bind == Success || sets[k].bind == Info) && sets[k].lost
  }

  /** The set was bound, with or without a warning, on a good connection, and its execution answered rc. */
  predicate RanWith(sets: seq<ParamSet>, row: nat, rc: Ret)
    requires row < |sets|
  {
    && sets[row].Bound? && (sets[row].bind == Success || sets[row].bind == Info)
    && !ConnectionGone(sets, row) && sets[row].exec == rc
  }

  /** The statuses one by one; all other sets have failed. */
  lemma StatusesSpelled(sets: seq<ParamSet>, row: nat)
    requires row < |sets|
    ensures FinalStatus(sets, row) == Unused <==> sets[row].Ignored?
    ensures FinalStatus(sets, row) == ParamSuccess <==> RanWith(sets, row, Success)
    ensures FinalStatus(sets, row) == ParamInfo <==> RanWith(sets, row, Info)
    ensures FinalStatus(sets, row) == ParamError <==> LastFailure(sets, row, |sets|)
    ensures Fails(sets, row) <==>
            sets[row].Bound? && !RanWith(sets, row, Success) && !RanWith(sets, row, Info)
  {
    assert LostBefore(sets, row) <==> ConnectionGone(sets, row);
  }

  /** The return code: SQL_ERROR if no set ran with SQL_SUCCESS, SQL_SUCCESS if each one bound and ran like that. */
  lemma ReturnCodeSpelled(sets: seq<ParamSet>)
    ensures SomeRanWell(sets, |sets|) <==> exists k :: 0 <= k < |sets| && RanWith(sets, k, Success)
    ensures AllFlawless(sets, |sets|) <==>
            forall k :: 0 <= k < |sets| && sets[k].Bound? ==> sets[k].bind == Success && RanWith(sets, k, Success)
  {
    forall k | 0 <= k < |sets|
      ensures RanWell(sets, k) <==> RanWith(sets, k, Success)
    {
      StatusesSpelled(sets, k);
    }
  }

  /** There is an ERROR status exactly when a set failed, and then only one, on the last failing set. */
  lemma OneErrorForTheLastFailure(sets: seq<ParamSet>)
    ensures (exists k :: 0 <= k < |sets| && FinalStatus(sets, k) == ParamError) <==>
            (exists k :: 0 <= k < |sets| && Fails(sets, k))
    ensures forall k, m | 0 <= k < |sets| && 0 <= m < |sets| && FinalStatus(sets, k) == ParamError ::
              (FinalStatus(sets, m) == ParamError ==> k == m) && (Fails(sets, m) ==> m <= k)
  {
    if exists k :: 0 <= k < |sets| && Fails(sets, k) {
      var k := LastOf(sets, |sets|);
      assert FinalStatus(sets, k) == ParamError;
    }
  }

  lemma {:induction false} LastOf(sets: seq<ParamSet>, n: nat) returns (k: nat)
    requires n <= |sets| && exists k :: 0 <= k < n && Fails(sets, k)
    ensures k < n && LastFailure(sets, k, n)
  {
    if Fails(sets, n - 1) {
      k := n - 1;
    } else {
      k := LastOf(sets, n - 1);
    }
  }
}

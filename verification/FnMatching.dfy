/**
 What the {fn ...} rewriter means, said without a stack: the braces it blanks are the function
 escapes and the braces that match them.
 */
module FnMatching {
  import opened OdbcCodes
  import opened FnEscapes

  /** A brace in code: an opening one with the keyword position behind it, or a closing one. */
  datatype Token =
    | Open(pos: nat, keyword: nat, function_: bool)
    | Close(pos: nat)

  /** The braces in code from position i on. */
  function Tokens(s: string, i: nat, mode: Mode): seq<Token>
    requires i <= |s|
    decreases |s| - i
  {
    if i == |s| then []
    else
      var (next, mode') := Advance(s, i, mode);
      if mode == Code && s[i] == '{' then
        [Open(i, Keyword(s, i), IsFnKeyword(s, Keyword(s, i)))] + Tokens(s, next, mode')
      else if mode == Code && s[i] == '}' then [Close(i)] + Tokens(s, next, mode')
      else Tokens(s, next, mode')
  }

  function CodeBraces(s: string): seq<Token> {
    Tokens(s, 0, Code)
  }

  // ---------------------------------------------------------------- matching braces

  /** Opening minus closing braces among the first k tokens. */
  function Height(ts: seq<Token>, k: nat): int
    requires k <= |ts|
  {
    if k == 0 then 0 else Height(ts, k - 1) + if ts[k - 1].Open? then 1 else -1
  }

  /** Closing brace j is the one that closes opening brace i. */
  ghost predicate Matches(ts: seq<Token>, i: nat, j: nat) {
    && i < j < |ts|
    && ts[i].Open?
    && ts[j].Close?
    && Height(ts, j) == Height(ts, i + 1)
    && forall m :: i + 1 <= m <= j ==> Height(ts, m) >= Height(ts, i + 1)
  }

  lemma HigherInside(ts: seq<Token>, i: nat, i': nat, j: nat)
    requires Matches(ts, i, j) && i < i' < j && ts[i'].Open?
    ensures Height(ts, i' + 1) > Height(ts, j)
  {
    assert Height(ts, i') >= Height(ts, i + 1);
  }

  lemma MatchIsUnique(ts: seq<Token>, i: nat, i': nat, j: nat)
    requires Matches(ts, i, j) && Matches(ts, i', j)
    ensures i == i'
  {
    if i < i' {
      HigherInside(ts, i, i', j);
    } else if i' < i {
      HigherInside(ts, i', i, j);
    }
  }

  lemma DropsBehind(ts: seq<Token>, i: nat, j: nat)
    requires Matches(ts, i, j)
    ensures Height(ts, j + 1) < Height(ts, i + 1)
  {
  }

  lemma ClosedOnce(ts: seq<Token>, i: nat, j: nat, j': nat)
    requires Matches(ts, i, j) && Matches(ts, i, j')
    ensures j == j'
  {
    DropsBehind(ts, i, j);
    DropsBehind(ts, i, j');
  }

  /** Position p belongs to the wrapper of a function escape by way of token u. */
  ghost predicate Wrapper(ts: seq<Token>, u: nat, p: nat)
    requires u < |ts|
  {
    match ts[u]
    case Open(pos, keyword, function_) => function_ && (p == pos || p == keyword || p == keyword + 1)
    case Close(pos) => p == pos && exists i: nat :: Matches(ts, i, u) && ts[i].function_
  }

  // ---------------------------------------------------------------- the stack finds the matches

  function BlankedBy(ts: seq<Token>, stack: seq<bool>): set<nat> {
    if ts == [] then {}
    else
      match ts[0]
      case Open(pos, keyword, function_) =>
        (if function_ then {pos, keyword, keyword + 1} else {}) + BlankedBy(ts[1..], stack + [function_])
      case Close(pos) =>
        if stack == [] then BlankedBy(ts[1..], stack)
        else (if stack[|stack| - 1] then {pos} else {}) + BlankedBy(ts[1..], stack[..|stack| - 1])
  }

  lemma {:induction false} BlankedIsByTokens(s: string, i: nat, mode: Mode, stack: seq<bool>)
    requires i <= |s|
    ensures Blanked(s, i, mode, stack) == BlankedBy(Tokens(s, i, mode), stack)
    decreases |s| - i
  {
    if i < |s| {
      var (next, mode') := Advance(s, i, mode);
      if mode == Code && s[i] == '{' {
        var f := IsFnKeyword(s, Keyword(s, i));
        BlankedIsByTokens(s, next, mode', stack + [f]);
        assert Tokens(s, i, mode)[1..] == Tokens(s, next, mode');
      } else if mode == Code && s[i] == '}' {
        assert Tokens(s, i, mode)[1..] == Tokens(s, next, mode');
        BlankedIsByTokens(s, next, mode', if stack == [] then stack else stack[..|stack| - 1]);
      } else {
        BlankedIsByTokens(s, next, mode', stack);
      }
    }
  }

  /** `open` holds the tokens before t that are still open, outermost first. */
  ghost predicate StackAt(ts: seq<Token>, t: nat, open: seq<nat>) {
    && t <= |ts|
    && (forall k :: 0 <= k < |open| ==> OpenSince(ts, t, open[k], |open| - 1 - k))
    && (forall i :: 0 <= i < t && ts[i].Open? && i !in open ==> ClosedBefore(ts, i, t))
  }

  /** Opening brace i has not been closed before t, and `above` braces opened inside it are open too. */
  ghost predicate OpenSince(ts: seq<Token>, t: nat, i: nat, above: int) {
    && i < t <= |ts|
    && ts[i].Open?
    && Height(ts, i + 1) == Height(ts, t) - above
    && forall m :: i + 1 <= m <= t ==> Height(ts, m) >= Height(ts, i + 1)
  }

  ghost predicate ClosedBefore(ts: seq<Token>, i: nat, t: nat) {
    exists j: nat :: j < t && Matches(ts, i, j)
  }

  function Flags(ts: seq<Token>, open: seq<nat>): (fs: seq<bool>)
    requires AllOpen(ts, open)
    ensures |fs| == |open|
  {
    seq(|open|, k requires 0 <= k < |open| => ts[open[k]].function_)
  }

  /** A closing brace closes the innermost open one; with none open it closes nothing. */
  lemma ClosesInnermost(ts: seq<Token>, t: nat, open: seq<nat>)
    requires StackAt(ts, t, open) && t < |ts| && ts[t].Close?
    ensures open != [] ==> Matches(ts, open[|open| - 1], t)
    ensures open == [] ==> forall i: nat :: !Matches(ts, i, t)
  {
    if open != [] {
      assert OpenSince(ts, t, open[|open| - 1], 0);
    } else {
      forall i: nat | Matches(ts, i, t)
        ensures false
      {
        assert ClosedBefore(ts, i, t);
        var j: nat :| j < t && Matches(ts, i, j);
        ClosedOnce(ts, i, j, t);
      }
    }
  }

  lemma StackAfterOpen(ts: seq<Token>, t: nat, open: seq<nat>)
    requires StackAt(ts, t, open) && t < |ts| && ts[t].Open?
    ensures StackAt(ts, t + 1, open + [t])
  {
    var open' := open + [t];
    forall k | 0 <= k < |open'|
      ensures OpenSince(ts, t + 1, open'[k], |open'| - 1 - k)
    {
      if k < |open| {
        assert OpenSince(ts, t, open[k], |open| - 1 - k);
      }
    }
    forall i | 0 <= i < t + 1 && ts[i].Open? && i !in open'
      ensures ClosedBefore(ts, i, t + 1)
    {
      assert open'[|open|] == t;
      assert forall x :: x in open ==> x in open';
      assert ClosedBefore(ts, i, t);
    }
  }

  lemma ClosedOrOpen(ts: seq<Token>, t: nat, open: seq<nat>, i: nat)
    requires StackAt(ts, t, open) && t < |ts| && ts[t].Close?
    requires i < t && ts[i].Open?
    ensures ClosedBefore(ts, i, t + 1) || (open != [] && i in open[..|open| - 1])
  {
    if i in open {
      ClosesInnermost(ts, t, open);
      assert open == open[..|open| - 1] + [open[|open| - 1]];
    } else {
      assert ClosedBefore(ts, i, t);
    }
  }

  lemma StackAfterClose(ts: seq<Token>, t: nat, open: seq<nat>)
    requires StackAt(ts, t, open) && t < |ts| && ts[t].Close?
    ensures StackAt(ts, t + 1, if open == [] then open else open[..|open| - 1])
  {
    var open' := if open == [] then open else open[..|open| - 1];
    forall k | 0 <= k < |open'|
      ensures OpenSince(ts, t + 1, open'[k], |open'| - 1 - k)
    {
      assert OpenSince(ts, t, open[k], |open| - 1 - k);
    }
    forall i | 0 <= i < t + 1 && ts[i].Open? && i !in open'
      ensures ClosedBefore(ts, i, t + 1)
    {
      ClosedOrOpen(ts, t, open, i);
    }
  }

  /** Some token from t on makes p a wrapper position. */
  ghost predicate WrappedFrom(ts: seq<Token>, t: nat, p: nat) {
    exists u: nat :: t <= u < |ts| && Wrapper(ts, u, p)
  }

  lemma WrappedHereOrLater(ts: seq<Token>, t: nat, p: nat)
    requires t < |ts|
    ensures WrappedFrom(ts, t, p) <==> Wrapper(ts, t, p) || WrappedFrom(ts, t + 1, p)
  {
  }

  /** The stack algorithm with the open tokens themselves on the stack. */
  function BlankedFrom(ts: seq<Token>, t: nat, open: seq<nat>): set<nat>
    requires t <= |ts| && AllOpen(ts, open)
    decreases |ts| - t
  {
    if t == |ts| then {}
    else
      match ts[t]
      case Open(pos, keyword, function_) =>
        (if function_ then {pos, keyword, keyword + 1} else {}) + BlankedFrom(ts, t + 1, open + [t])
      case Close(pos) =>
        if open == [] then BlankedFrom(ts, t + 1, open)
        else (if ts[Top(open)].function_ then {pos} else {}) + BlankedFrom(ts, t + 1, open[..|open| - 1])
  }

  predicate AllOpen(ts: seq<Token>, open: seq<nat>) {
    forall k :: 0 <= k < |open| ==> open[k] < |ts| && ts[open[k]].Open?
  }

  function Top(open: seq<nat>): nat
    requires open != []
  {
    open[|open| - 1]
  }

  lemma {:induction false} TokensOrFlags(ts: seq<Token>, t: nat, open: seq<nat>)
    requires t <= |ts| && AllOpen(ts, open)
    ensures BlankedFrom(ts, t, open) == BlankedBy(ts[t..], Flags(ts, open))
    decreases |ts| - t
  {
    if t < |ts| {
      assert ts[t..][1..] == ts[t + 1..];
      if ts[t].Open? {
        TokensOrFlags(ts, t + 1, open + [t]);
        assert Flags(ts, open + [t]) == Flags(ts, open) + [ts[t].function_];
      } else if open == [] {
        TokensOrFlags(ts, t + 1, open);
      } else {
        TokensOrFlags(ts, t + 1, open[..|open| - 1]);
        assert Flags(ts, open[..|open| - 1]) == Flags(ts, open)[..|open| - 1];
      }
    }
  }

  /** What an opening brace contributes to the blanked positions. */
  lemma OpenBlanks(ts: seq<Token>, t: nat, open: seq<nat>, p: nat)
    requires AllOpen(ts, open) && t < |ts| && ts[t].Open?
    ensures AllOpen(ts, open + [t])
    ensures p in BlankedFrom(ts, t, open) <==> Wrapper(ts, t, p) || p in BlankedFrom(ts, t + 1, open + [t])
  {
  }

  /** What a closing brace contributes. */
  lemma CloseBlanks(ts: seq<Token>, t: nat, open: seq<nat>, p: nat)
    requires StackAt(ts, t, open) && AllOpen(ts, open) && t < |ts| && ts[t].Close?
    ensures var open' := if open == [] then open else open[..|open| - 1];
            && AllOpen(ts, open')
            && (p in BlankedFrom(ts, t, open) <==> Wrapper(ts, t, p) || p in BlankedFrom(ts, t + 1, open'))
  {
    ClosesInnermost(ts, t, open);
    if open == [] {
      assert !Wrapper(ts, t, p);
    } else {
      InnermostDecides(ts, t, Top(open), p);
    }
  }

  /** From token t on, the stack blanks exactly the wrapper positions of function escapes. */
  lemma {:induction false} StackBlanksWrappers(ts: seq<Token>, t: nat, open: seq<nat>, p: nat)
    requires StackAt(ts, t, open) && AllOpen(ts, open)
    ensures p in BlankedFrom(ts, t, open) <==> WrappedFrom(ts, t, p)
    decreases |ts| - t
  {
    if t < |ts| {
      WrappedHereOrLater(ts, t, p);
      if ts[t].Open? {
        StackAfterOpen(ts, t, open);
        OpenBlanks(ts, t, open, p);
        StackBlanksWrappers(ts, t + 1, open + [t], p);
      } else {
        StackAfterClose(ts, t, open);
        CloseBlanks(ts, t, open, p);
        StackBlanksWrappers(ts, t + 1, if open == [] then open else open[..|open| - 1], p);
      }
    }
  }

  lemma InnermostDecides(ts: seq<Token>, t: nat, top: nat, p: nat)
    requires Matches(ts, top, t)
    ensures Wrapper(ts, t, p) <==> ts[top].function_ && p == ts[t].pos
  {
    if Wrapper(ts, t, p) {
      var i: nat :| Matches(ts, i, t) && ts[i].function_;
      MatchIsUnique(ts, i, top, t);
    }
  }

  /**
   The rewritten text: a byte is blanked if and only if it is the opening brace or the keyword of a
   function escape in code, or the closing brace that matches such an opening brace. All other bytes
   are kept.
   */
  lemma BlanksExactlyTheWrappers(s: string, p: nat)
    requires p < |s|
    ensures var ts := CodeBraces(s);
            Rewritten(s)[p] == if WrappedFrom(ts, 0, p) then ' ' else s[p]
  {
    var ts := CodeBraces(s);
    BlankedIsByTokens(s, 0, Code, []);
    assert StackAt(ts, 0, []);
    StackBlanksWrappers(ts, 0, [], p);
    TokensOrFlags(ts, 0, []);
    assert ts[0..] == ts;
    assert Flags(ts, []) == [];
  }

  // ---------------------------------------------------------------- quoted and commented bytes

  /** The mode in which the lexer, at position i in `mode`, comes to read position p; None where it steps over p. */
  function ModeAt(s: string, i: nat, mode: Mode, p: nat): Option<Mode>
    requires i <= |s|
    decreases |s| - i
  {
    if i >= p then if i == p then Some(mode) else None
    else if i == |s| then None
    else
      var (next, mode') := Advance(s, i, mode);
      ModeAt(s, next, mode', p)
  }

  lemma {:induction false} ModeAfter(s: string, i: nat, mode: Mode, p: nat, m: Mode)
    requires i <= p < |s| && ModeAt(s, i, mode, p) == Some(m)
    ensures var (next, m') := Advance(s, p, m); ModeAt(s, i, mode, next) == Some(m')
    decreases |s| - i
  {
    if i < p {
      var (next, mode') := Advance(s, i, mode);
      ModeAfter(s, next, mode', p, m);
    }
  }

  ghost predicate TokenOf(s: string, i: nat, mode: Mode, t: Token)
    requires i <= |s|
  {
    && i <= t.pos < |s|
    && ModeAt(s, i, mode, t.pos) == Some(Code)
    && s[t.pos] == (if t.Open? then '{' else '}')
    && (t.Open? ==> t.keyword == Keyword(s, t.pos) && t.function_ == IsFnKeyword(s, t.keyword))
  }

  /** The tokens are braces read in code, in increasing order of position. */
  lemma {:induction false} TokensAreCode(s: string, i: nat, mode: Mode)
    requires i <= |s|
    ensures forall u :: 0 <= u < |Tokens(s, i, mode)| ==> TokenOf(s, i, mode, Tokens(s, i, mode)[u])
    ensures forall u, v :: 0 <= u < v < |Tokens(s, i, mode)| ==> Tokens(s, i, mode)[u].pos < Tokens(s, i, mode)[v].pos
    decreases |s| - i
  {
    if i < |s| {
      var (next, mode') := Advance(s, i, mode);
      TokensAreCode(s, next, mode');
      var ts, rest := Tokens(s, i, mode), Tokens(s, next, mode');
      forall t | TokenOf(s, next, mode', t)
        ensures TokenOf(s, i, mode, t)
      {
      }
      if mode == Code && Brace(s[i]) {
        assert ts == [ts[0]] + rest && TokenOf(s, i, mode, ts[0]);
      }
    }
  }

  /** From an opening brace in code on to its keyword everything is code. */
  lemma {:induction false} CodeUpTo(s: string, brace: nat, p: nat)
    requires brace < |s| && s[brace] == '{' && ModeAt(s, 0, Code, brace) == Some(Code)
    requires brace < p <= Keyword(s, brace)
    ensures ModeAt(s, 0, Code, p) == Some(Code)
    decreases p
  {
    if p == brace + 1 {
      ModeAfter(s, 0, Code, brace, Code);
    } else {
      CodeUpTo(s, brace, p - 1);
      ModeAfter(s, 0, Code, p - 1, Code);
    }
  }

  lemma WrapperIsCode(s: string, u: nat, p: nat)
    requires u < |CodeBraces(s)| && Wrapper(CodeBraces(s), u, p)
    ensures p < |s| && s[p] in "{}fFnN" && ModeAt(s, 0, Code, p) == Some(Code)
    ensures Brace(s[p]) ==> p == CodeBraces(s)[u].pos
  {
    TokensAreCode(s, 0, Code);
    var t := CodeBraces(s)[u];
    assert TokenOf(s, 0, Code, t);
    if t.Open? && p != t.pos {
      KeywordIsCode(s, t, p);
    }
  }

  /** The keyword of a function escape is two letters in code. */
  lemma KeywordIsCode(s: string, t: Token, p: nat)
    requires t.Open? && TokenOf(s, 0, Code, t) && t.function_ && (p == t.keyword || p == t.keyword + 1)
    ensures p < |s| && s[p] in "fFnN" && ModeAt(s, 0, Code, p) == Some(Code)
  {
    CodeUpTo(s, t.pos, t.keyword);
    ModeAfter(s, 0, Code, t.keyword, Code);
  }

  /** A byte that changes is a brace or a letter of a keyword in code: quoted and commented text is left alone. */
  lemma OnlyCodeChanges(s: string, p: nat)
    requires p < |s| && Rewritten(s)[p] != s[p]
    ensures Rewritten(s)[p] == ' ' && s[p] in "{}fFnN" && ModeAt(s, 0, Code, p) == Some(Code)
  {
    BlanksExactlyTheWrappers(s, p);
    var u: nat :| u < |CodeBraces(s)| && Wrapper(CodeBraces(s), u, p);
    WrapperIsCode(s, u, p);
  }

  // ---------------------------------------------------------------- what is left stays balanced

  /** Starting with d braces open, every closing brace closes one and none stays open. */
  predicate Balanced(ts: seq<Token>, d: nat) {
    if ts == [] then d == 0
    else if ts[0].Open? then Balanced(ts[1..], d + 1)
    else d > 0 && Balanced(ts[1..], d - 1)
  }

  /** Both braces of a pair are blanked or both are kept. */
  lemma PairsStayTogether(ts: seq<Token>, i: nat, j: nat)
    requires Matches(ts, i, j)
    ensures Wrapper(ts, i, ts[i].pos) <==> ts[i].function_
    ensures Wrapper(ts, j, ts[j].pos) <==> ts[i].function_
  {
    InnermostDecides(ts, j, i, ts[j].pos);
  }

  /** The tokens from t on that the rewriter does not blank. */
  ghost function Standing(ts: seq<Token>, t: nat): seq<Token>
    requires t <= |ts|
    decreases |ts| - t
  {
    if t == |ts| then []
    else if Wrapper(ts, t, ts[t].pos) then Standing(ts, t + 1)
    else [ts[t]] + Standing(ts, t + 1)
  }

  /** How many of the open braces are not function escapes. */
  function Plain(ts: seq<Token>, open: seq<nat>): nat
    requires AllOpen(ts, open)
  {
    if open == [] then 0
    else Plain(ts, open[..|open| - 1]) + if ts[Top(open)].function_ then 0 else 1
  }

  /** What the stack algorithm keeps, with the open tokens on the stack. */
  function KeptFrom(ts: seq<Token>, t: nat, open: seq<nat>): seq<Token>
    requires t <= |ts| && AllOpen(ts, open)
    decreases |ts| - t
  {
    if t == |ts| then []
    else if ts[t].Open? then
      if ts[t].function_ then KeptFrom(ts, t + 1, open + [t])
      else [ts[t]] + KeptFrom(ts, t + 1, open + [t])
    else if open == [] then [ts[t]] + KeptFrom(ts, t + 1, open)
    else if ts[Top(open)].function_ then KeptFrom(ts, t + 1, open[..|open| - 1])
    else [ts[t]] + KeptFrom(ts, t + 1, open[..|open| - 1])
  }

  lemma TopDecides(ts: seq<Token>, t: nat, open: seq<nat>)
    requires StackAt(ts, t, open) && AllOpen(ts, open) && t < |ts| && ts[t].Close?
    ensures Wrapper(ts, t, ts[t].pos) <==> open != [] && ts[Top(open)].function_
  {
    ClosesInnermost(ts, t, open);
    if open != [] {
      InnermostDecides(ts, t, Top(open), ts[t].pos);
    }
  }

  lemma {:induction false} StandingIsKept(ts: seq<Token>, t: nat, open: seq<nat>)
    requires StackAt(ts, t, open) && AllOpen(ts, open)
    ensures Standing(ts, t) == KeptFrom(ts, t, open)
    decreases |ts| - t
  {
    if t < |ts| {
      if ts[t].Open? {
        StackAfterOpen(ts, t, open);
        StandingIsKept(ts, t + 1, open + [t]);
      } else {
        TopDecides(ts, t, open);
        StackAfterClose(ts, t, open);
        StandingIsKept(ts, t + 1, if open == [] then open else open[..|open| - 1]);
      }
    }
  }

  lemma PlainPush(ts: seq<Token>, open: seq<nat>, t: nat)
    requires AllOpen(ts, open) && t < |ts| && ts[t].Open?
    ensures AllOpen(ts, open + [t])
    ensures Plain(ts, open + [t]) == Plain(ts, open) + if ts[t].function_ then 0 else 1
  {
    assert (open + [t])[..|open|] == open;
  }

  /** Braces behind a brace that is kept, or dropped, at depth d. */
  lemma BalancedBehind(t: Token, rest: seq<Token>, d: nat)
    ensures t.Open? && Balanced(rest, d + 1) ==> Balanced([t] + rest, d)
    ensures t.Close? && Balanced(rest, d) ==> Balanced([t] + rest, d + 1)
  {
    assert ([t] + rest)[1..] == rest;
  }

  lemma KeptAtOpen(ts: seq<Token>, t: nat, open: seq<nat>)
    requires t < |ts| && AllOpen(ts, open) && ts[t].Open?
    requires AllOpen(ts, open + [t]) && Balanced(KeptFrom(ts, t + 1, open + [t]), Plain(ts, open + [t]))
    ensures Balanced(KeptFrom(ts, t, open), Plain(ts, open))
  {
    PlainPush(ts, open, t);
    BalancedBehind(ts[t], KeptFrom(ts, t + 1, open + [t]), Plain(ts, open));
  }

  lemma KeptAtClose(ts: seq<Token>, t: nat, open: seq<nat>, open': seq<nat>)
    requires t < |ts| && AllOpen(ts, open) && ts[t].Close? && open != [] && open' == open[..|open| - 1]
    requires AllOpen(ts, open') && Balanced(KeptFrom(ts, t + 1, open'), Plain(ts, open'))
    ensures Balanced(KeptFrom(ts, t, open), Plain(ts, open))
  {
    PlainPush(ts, open', Top(open));
    assert open == open' + [Top(open)];
    BalancedBehind(ts[t], KeptFrom(ts, t + 1, open'), Plain(ts, open'));
  }

  lemma {:induction false} KeptIsBalanced(ts: seq<Token>, t: nat, open: seq<nat>)
    requires t <= |ts| && AllOpen(ts, open)
    requires Balanced(ts[t..], |open|)
    ensures Balanced(KeptFrom(ts, t, open), Plain(ts, open))
    decreases |ts| - t
  {
    if t < |ts| {
      assert ts[t..][1..] == ts[t + 1..];
      if ts[t].Open? {
        PlainPush(ts, open, t);
        KeptIsBalanced(ts, t + 1, open + [t]);
        KeptAtOpen(ts, t, open);
      } else {
        KeptIsBalanced(ts, t + 1, open[..|open| - 1]);
        KeptAtClose(ts, t, open, open[..|open| - 1]);
      }
    }
  }

  /** A code brace of the original survives in the rewritten text exactly when it is not part of a function wrapper. */
  lemma BraceSurvives(s: string, u: nat)
    requires u < |CodeBraces(s)|
    ensures var ts := CodeBraces(s);
            && ts[u].pos < |s|
            && (Rewritten(s)[ts[u].pos] == s[ts[u].pos] <==> !Wrapper(ts, u, ts[u].pos))
  {
    var ts := CodeBraces(s);
    TokensAreCode(s, 0, Code);
    var p := ts[u].pos;
    assert TokenOf(s, 0, Code, ts[u]);
    BlanksExactlyTheWrappers(s, p);
    if WrappedFrom(ts, 0, p) {
      var v: nat :| v < |ts| && Wrapper(ts, v, p);
      WrapperIsCode(s, v, p);
      assert u == v;
    }
  }

  /** If the braces in code are balanced, the braces that survive are balanced too. */
  lemma SurvivorsAreBalanced(s: string)
    requires Balanced(CodeBraces(s), 0)
    ensures Balanced(Standing(CodeBraces(s), 0), 0)
  {
    var ts := CodeBraces(s);
    assert ts[0..] == ts;
    StandingIsKept(ts, 0, []);
    KeptIsBalanced(ts, 0, []);
  }
}

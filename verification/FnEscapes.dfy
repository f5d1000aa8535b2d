/**
 The in-place rewriter of {fn ...} escapes: a lexer with quotes, comments and a stack of braces that
 blanks the wrapper of function escapes and leaves every other byte alone.
 */
module FnEscapes {
  import opened OdbcCodes

  /** isspace in the C locale. */
  predicate IsSpace(c: char) {
    c == ' ' || c == '\t' || c == '\n' || c == '\r' || c == 11 as char || c == 12 as char
  }

  predicate IsQuote(c: char) {
    c == '\'' || c == '"' || c == '`'
  }

  datatype Mode = Code | Quoted(quote: char) | LineComment | BlockComment

  predicate OpensLineComment(s: string, i: nat)
    requires i < |s|
  {
    s[i] == '#' || (s[i] == '-' && i + 2 < |s| && s[i + 1] == '-' && IsSpace(s[i + 2]))
  }

  predicate Pair(s: string, i: nat, a: char, b: char)
    requires i < |s|
  {
    s[i] == a && i + 1 < |s| && s[i + 1] == b
  }

  /** One turn of the lexer at position i: the next position and the mode there. */
  function Advance(s: string, i: nat, mode: Mode): (next: (nat, Mode))
    requires i < |s|
    ensures i < next.0 <= |s|
  {
    match mode
    case LineComment => (i + 1, if s[i] == '\n' || s[i] == '\r' then Code else LineComment)
    case BlockComment => if Pair(s, i, '*', '/') then (i + 2, Code) else (i + 1, BlockComment)
    case Quoted(q) =>
      if s[i] == '\\' && i + 1 < |s| then (i + 2, mode)
      else if s[i] == q then if i + 1 < |s| && s[i + 1] == q then (i + 2, mode) else (i + 1, Code)
      else (i + 1, mode)
    case Code =>
      if OpensLineComment(s, i) then (i + 1, LineComment)
      else if Pair(s, i, '/', '*') then (i + 2, BlockComment)
      else if IsQuote(s[i]) then (i + 1, Quoted(s[i]))
      else (i + 1, Code)
  }

  /** The first position from k on that holds no white space. */
  function SkipSpace(s: string, k: nat): (r: nat)
    requires k <= |s|
    ensures k <= r <= |s|
    ensures forall j :: k <= j < r ==> IsSpace(s[j])
    ensures r < |s| ==> !IsSpace(s[r])
    decreases |s| - k
  {
    if k < |s| && IsSpace(s[k]) then SkipSpace(s, k + 1) else k
  }

  predicate IsFnKeyword(s: string, k: nat) {
    && k + 2 < |s|
    && (s[k] == 'f' || s[k] == 'F')
    && (s[k + 1] == 'n' || s[k + 1] == 'N')
    && IsSpace(s[k + 2])
  }

  function Keyword(s: string, i: nat): (k: nat)
    requires i < |s|
    ensures i < k <= |s|
  {
    SkipSpace(s, i + 1)
  }

  /** The positions blanked from position i on, with the given open braces (true for a function escape). */
  function Blanked(s: string, i: nat, mode: Mode, stack: seq<bool>): set<nat>
    requires i <= |s|
    decreases |s| - i
  {
    if i == |s| then {}
    else
      var (next, mode') := Advance(s, i, mode);
      if mode == Code && s[i] == '{' then
        var k := Keyword(s, i);
        var function_ := IsFnKeyword(s, k);
        (if function_ then {i, k, k + 1} else {}) + Blanked(s, next, mode', stack + [function_])
      else if mode == Code && s[i] == '}' && stack != [] then
        (if stack[|stack| - 1] then {i} else {}) + Blanked(s, next, mode', stack[..|stack| - 1])
      else Blanked(s, next, mode', stack)
  }

  function Rewritten(s: string): (r: string)
    ensures |r| == |s|
  {
    seq(|s|, i requires 0 <= i < |s| => if i in Blanked(s, 0, Code, []) then ' ' else s[i])
  }

  // ---------------------------------------------------------------- the loop

  /** a is s with the positions of `blanks` overwritten. */
  ghost predicate Blanks(a: string, s: string, blanks: set<nat>) {
    && |a| == |s|
    && forall j :: 0 <= j < |s| ==> a[j] == if j in blanks then ' ' else s[j]
  }

  /**
   The overwritten bytes from position i on belong to one keyword, `pending`, reached through white
   space in code.
   */
  ghost predicate OnlyPending(s: string, i: nat, mode: Mode, blanks: set<nat>, pending: Option<nat>) {
    match pending
    case None => forall j :: j in blanks ==> j < i
    case Some(k) =>
      && k in blanks
      && (forall j :: j in blanks && j >= i ==> j == k || j == k + 1)
      && (i <= k + 1 ==>
            && mode == Code
            && IsFnKeyword(s, k)
            && forall j :: i <= j < k && j < |s| ==> IsSpace(s[j]))
  }

  /** Overwriting does not mislead the lexer: it advances on the new text as on the old one. */
  lemma SameAdvance(a: string, s: string, i: nat, mode: Mode, blanks: set<nat>, pending: Option<nat>)
    requires i < |s| && Blanks(a, s, blanks) && OnlyPending(s, i, mode, blanks, pending)
    ensures Advance(a, i, mode) == Advance(s, i, mode)
    ensures a[i] == s[i] || (mode == Code && a[i] == ' ' && s[i] in "fFnN")
  {
  }

  lemma SameKeyword(a: string, s: string, i: nat, blanks: set<nat>)
    requires i < |s| && Blanks(a, s, blanks)
    requires forall j :: j in blanks ==> j < i
    ensures Keyword(a, i) == Keyword(s, i)
    ensures IsFnKeyword(a, Keyword(a, i)) == IsFnKeyword(s, Keyword(s, i))
  {
    SameSkip(a, s, i + 1, blanks);
  }

  lemma {:induction false} SameSkip(a: string, s: string, k: nat, blanks: set<nat>)
    requires k <= |s| && Blanks(a, s, blanks)
    requires forall j :: j in blanks ==> j < k
    ensures SkipSpace(a, k) == SkipSpace(s, k)
    decreases |s| - k
  {
    if k < |s| && IsSpace(s[k]) {
      SameSkip(a, s, k + 1, blanks);
    }
  }

  /** The lexer mode the three flags of the loop stand for. */
  function ModeOf(quote: char, lineComment: bool, blockComment: bool): Mode {
    if lineComment then LineComment
    else if blockComment then BlockComment
    else if quote != '\0' then Quoted(quote)
    else Code
  }

  /** The state of the loop at position i: the text rewritten so far and what is still to come. */
  ghost predicate LoopAt(a: string, s: string, i: nat, mode: Mode, stack: seq<bool>, blanks: set<nat>,
                         pending: Option<nat>)
  {
    && i <= |s|
    && Blanks(a, s, blanks)
    && OnlyPending(s, i, mode, blanks, pending)
    && blanks + Blanked(s, i, mode, stack) == Blanked(s, 0, Code, [])
  }

  predicate Brace(c: char) {
    c == '{' || c == '}'
  }

  /** A turn on anything but a code brace changes nothing. */
  lemma TurnPlain(a: string, s: string, i: nat, mode: Mode, stack: seq<bool>, blanks: set<nat>, pending: Option<nat>)
    requires LoopAt(a, s, i, mode, stack, blanks, pending) && i < |s|
    requires mode == Code ==> !Brace(a[i]) || (a[i] == '}' && stack == [])
    ensures var (next, mode') := Advance(a, i, mode); LoopAt(a, s, next, mode', stack, blanks, pending)
  {
    SameAdvance(a, s, i, mode, blanks, pending);
  }

  /** At a code brace nothing further on has been overwritten, and the lexer steps over it. */
  lemma AtBrace(a: string, s: string, i: nat, stack: seq<bool>, blanks: set<nat>, pending: Option<nat>)
    requires LoopAt(a, s, i, Code, stack, blanks, pending) && i < |s| && Brace(a[i])
    ensures s[i] == a[i] && forall j :: j in blanks ==> j < i
    ensures Advance(s, i, Code) == (i + 1, Code)
  {
    SameAdvance(a, s, i, Code, blanks, pending);
  }

  lemma BlankThree(a: string, s: string, i: nat, k: nat, blanks: set<nat>, f: bool)
    requires Blanks(a, s, blanks) && i < |s| && (f ==> k + 1 < |s|)
    ensures Blanks(if f then a[i := ' '][k := ' '][k + 1 := ' '] else a, s, blanks + if f then {i, k, k + 1} else {})
  {
  }

  /** What the loop finds behind an opening brace is what the original text holds there. */
  lemma FindsKeyword(a: string, s: string, i: nat, stack: seq<bool>, blanks: set<nat>, pending: Option<nat>)
    requires LoopAt(a, s, i, Code, stack, blanks, pending) && i < |s| && a[i] == '{'
    ensures s[i] == '{' && forall j :: j in blanks ==> j < i
    ensures Keyword(a, i) == Keyword(s, i)
    ensures IsFnKeyword(a, Keyword(a, i)) == IsFnKeyword(s, Keyword(s, i))
  {
    AtBrace(a, s, i, stack, blanks, pending);
    SameKeyword(a, s, i, blanks);
  }

  lemma BlankedAtOpen(s: string, i: nat, stack: seq<bool>, blanks: set<nat>)
    requires i < |s| && s[i] == '{'
    ensures var k := Keyword(s, i);
            var f := IsFnKeyword(s, k);
            blanks + Blanked(s, i, Code, stack)
            == (blanks + if f then {i, k, k + 1} else {}) + Blanked(s, i + 1, Code, stack + [f])
  {
  }

  lemma TurnOpen(a: string, s: string, i: nat, k: nat, f: bool, stack: seq<bool>, blanks: set<nat>,
                 pending: Option<nat>)
    requires Blanks(a, s, blanks) && i < |s| && s[i] == '{' && (forall j :: j in blanks ==> j < i)
    requires blanks + Blanked(s, i, Code, stack) == Blanked(s, 0, Code, [])
    requires pending.Some? ==> pending.value in blanks
    requires k == Keyword(s, i) && f == IsFnKeyword(s, k)
    ensures LoopAt(if f then a[i := ' '][k := ' '][k + 1 := ' '] else a, s, i + 1, Code, stack + [f],
                   blanks + (if f then {i, k, k + 1} else {}), if f then Some(k) else pending)
  {
    BlankThree(a, s, i, k, blanks, f);
    BlankedAtOpen(s, i, stack, blanks);
  }

  lemma TurnClose(a: string, a': string, s: string, i: nat, stack: seq<bool>, blanks: set<nat>, pending: Option<nat>)
    requires LoopAt(a, s, i, Code, stack, blanks, pending) && i < |s| && a[i] == '}' && stack != []
    requires var f := stack[|stack| - 1]; a' == if f then a[i := ' '] else a
    ensures var f := stack[|stack| - 1];
            LoopAt(a', s, i + 1, Code, stack[..|stack| - 1], if f then blanks + {i} else blanks, pending)
  {
    AtBrace(a, s, i, stack, blanks, pending);
    var added := if stack[|stack| - 1] then {i} else {};
    assert (blanks + added) + Blanked(s, i + 1, Code, stack[..|stack| - 1]) == blanks + Blanked(s, i, Code, stack);
  }

  /** At most one of the three flags is up. */
  predicate OneFlag(quote: char, lineComment: bool, blockComment: bool) {
    && (lineComment ==> !blockComment && quote == '\0')
    && (blockComment ==> quote == '\0')
  }

  /** The part of the loop body for positions inside comments and quotes. */
  method StepInside(query: array<char>, i: nat, quote: char, lineComment: bool, blockComment: bool)
    returns (i': nat, quote': char, lineComment': bool, blockComment': bool)
    requires i < query.Length && OneFlag(quote, lineComment, blockComment)
    requires ModeOf(quote, lineComment, blockComment) != Code
    ensures OneFlag(quote', lineComment', blockComment')
    ensures (i', ModeOf(quote', lineComment', blockComment'))
         == Advance(query[..], i, ModeOf(quote, lineComment, blockComment))
  {
    var length, ch := query.Length, query[i];
    i', quote', lineComment', blockComment' := i, quote, lineComment, blockComment;
    if lineComment {
      if ch == '\n' || ch == '\r' {
        lineComment' := false;
      }
    } else if blockComment {
      if ch == '*' && i + 1 < length && query[i + 1] == '/' {
        blockComment' := false;
        i' := i' + 1;
      }
    } else if ch == '\\' && i + 1 < length {
      i' := i' + 1;
    } else if ch == quote {
      if i + 1 < length && query[i + 1] == quote {
        i' := i' + 1;
      } else {
        quote' := '\0';
      }
    }
    i' := i' + 1;
  }

  /** The part of the loop body for comments and quotes that open in code. */
  method StepOpening(query: array<char>, i: nat)
    returns (starts: bool, i': nat, quote: char, lineComment: bool, blockComment: bool)
    requires i < query.Length
    ensures OneFlag(quote, lineComment, blockComment)
    ensures (i' + (if starts then 0 else 1), ModeOf(quote, lineComment, blockComment)) == Advance(query[..], i, Code)
    ensures starts ==> !Brace(query[i])
    ensures !starts ==> i' == i && ModeOf(quote, lineComment, blockComment) == Code
  {
    var length, ch := query.Length, query[i];
    starts, i', quote, lineComment, blockComment := false, i, '\0', false, false;
    if ch == '#' || (ch == '-' && i + 2 < length && query[i + 1] == '-' && IsSpace(query[i + 2])) {
      starts, lineComment, i' := true, true, i + 1;
    } else if ch == '/' && i + 1 < length && query[i + 1] == '*' {
      starts, blockComment, i' := true, true, i + 2;
    } else if ch == '\'' || ch == '"' || ch == '`' {
      starts, quote, i' := true, ch, i + 1;
    }
  }

  /** The part of the loop body for an opening brace in code: finds the keyword and blanks a function wrapper. */
  method OpenBrace(query: array<char>, i: nat) returns (function_: bool, keyword: nat)
    requires i < query.Length
    modifies query
    ensures keyword == Keyword(old(query[..]), i)
    ensures function_ == IsFnKeyword(old(query[..]), keyword)
    ensures query[..] == if function_ then old(query[..])[i := ' '][keyword := ' '][keyword + 1 := ' ']
                         else old(query[..])
  {
    var length := query.Length;
    keyword := i + 1;
    while keyword < length && IsSpace(query[keyword])
      invariant i < keyword <= length
      invariant SkipSpace(query[..], keyword) == Keyword(query[..], i)
    {
      keyword := keyword + 1;
    }
    function_ :=
      && keyword + 2 < length
      && (query[keyword] == 'f' || query[keyword] == 'F')
      && (query[keyword + 1] == 'n' || query[keyword + 1] == 'N')
      && IsSpace(query[keyword + 2]);
    if function_ {
      query[i] := ' ';
      query[keyword] := ' ';
      query[keyword + 1] := ' ';
    }
  }

  /** The part of the loop body for everything else in code: braces, and bytes that mean nothing. */
  method StepBrace(query: array<char>, i: nat, escapes: seq<bool>, ghost s: string, ghost blanks: set<nat>,
                   ghost pending: Option<nat>)
    returns (escapes': seq<bool>, ghost blanks': set<nat>, ghost pending': Option<nat>)
    requires LoopAt(query[..], s, i, Code, escapes, blanks, pending) && i < |s|
    requires Advance(query[..], i, Code) == (i + 1, Code)
    modifies query
    ensures LoopAt(query[..], s, i + 1, Code, escapes', blanks', pending')
  {
    ghost var now := query[..];
    escapes', blanks', pending' := escapes, blanks, pending;
    if query[i] == '{' {
      FindsKeyword(now, s, i, escapes, blanks, pending);
      var function_, keyword := OpenBrace(query, i);
      TurnOpen(now, s, i, keyword, function_, escapes, blanks, pending);
      escapes' := escapes + [function_];
      if function_ {
        blanks', pending' := blanks + {i, keyword, keyword + 1}, Some(keyword);
      }
    } else if query[i] == '}' && escapes != [] {
      if escapes[|escapes| - 1] {
        query[i] := ' ';
        blanks' := blanks + {i};
      }
      TurnClose(now, query[..], s, i, escapes, blanks, pending);
      escapes' := escapes[..|escapes| - 1];
    } else {
      TurnPlain(now, s, i, Code, escapes, blanks, pending);
    }
  }

  /** rewrite_odbc_function_escapes: one pass over the query buffer. */
  method Rewrite(query: array<char>)
    modifies query
    ensures query[..] == Rewritten(old(query[..]))
  {
    ghost var s := query[..];
    var quote, lineComment, blockComment := '\0', false, false;
    var escapes: seq<bool> := [];
    ghost var blanks: set<nat>, pending: Option<nat> := {}, None;
    var i := 0;
    while i < query.Length
      invariant OneFlag(quote, lineComment, blockComment)
      invariant LoopAt(query[..], s, i, ModeOf(quote, lineComment, blockComment), escapes, blanks, pending)
      decreases query.Length - i
    {
      ghost var mode := ModeOf(quote, lineComment, blockComment);
      if lineComment || blockComment || quote != '\0' {
        TurnPlain(query[..], s, i, mode, escapes, blanks, pending);
        i, quote, lineComment, blockComment := StepInside(query, i, quote, lineComment, blockComment);
        continue;
      }
      var starts, next;
      starts, next, quote, lineComment, blockComment := StepOpening(query, i);
      if starts {
        TurnPlain(query[..], s, i, mode, escapes, blanks, pending);
        i := next;
        continue;
      }
      escapes, blanks, pending := StepBrace(query, i, escapes, s, blanks, pending);
      i := i + 1;
    }
  }
}

/**
 The query tokenizer: nested skipping loops over quotes, comments and white space that record the
 offsets of the parameter markers, proved against an automaton that reads one character at a time.
 */
module Tokenizer {
  import opened OdbcCodes

  /** What the character set says of the character at an offset: its class and how many bytes it takes. */
  datatype CharClass = CharClass(space: bool, control: bool, bytes: nat)

  /** A query text with the character class at every offset. */
  datatype Text = Text(bytes: string, ctype: nat -> CharClass) {
    function Length(): nat {
      |bytes|
    }

    /** step_char: a character of no known length still moves one byte on. */
    function Next(p: nat): (q: nat)
      ensures q > p
    {
      if ctype(p).bytes > 0 then p + ctype(p).bytes else p + 1
    }

    predicate Is(p: nat, c: char) {
      p < |bytes| && bytes[p] == c && ctype(p).bytes == 1
    }

    /** parser_compare. */
    predicate StartsWith(p: nat, word: string) {
      p + |word| <= |bytes| && forall i :: 0 <= i < |word| ==> bytes[p + i] == word[i]
    }

    predicate IsQuote(p: nat) {
      Is(p, '\'') || Is(p, '"') || Is(p, '`')
    }

    predicate IsMarker(p: nat) {
      Is(p, '?')
    }
  }

  /** The bytes that mean something to the lexer are neither white space nor control characters. */
  ghost predicate Sane(t: Text) {
    forall p :: 0 <= p < |t.bytes| && t.bytes[p] in "'\"`;\\#-/?" ==> !t.ctype(p).space && !t.ctype(p).control
  }

  // ---------------------------------------------------------------- the automaton

  datatype State = Code | Quoted(quote: char) | LineComment | BlockComment

  /** A comment ends in front of its terminator; the terminator itself is read as code. */
  function Settle(t: Text, p: nat, state: State): State {
    match state
    case LineComment => if t.StartsWith(p, "\n") then Code else state
    case BlockComment => if t.StartsWith(p, "*/") then Code else state
    case _ => state
  }

  /** A comment that opens at p; the text marked with an exclamation mark is not one. */
  function CommentAt(t: Text, p: nat): Option<State> {
    if t.StartsWith(p, "#") then Some(LineComment)
    else if t.StartsWith(p, "-- ") then Some(LineComment)
    else if t.StartsWith(p, "/*!") then None
    else if t.StartsWith(p, "/*") then Some(BlockComment)
    else None
  }

  /** One character in code. */
  function TurnCode(t: Text, p: nat): (next: (nat, State))
    requires p < t.Length()
    ensures next.0 > p
  {
    if t.StartsWith(p, ";") then (p + 1, Code)
    else if t.StartsWith(p, "\\g") then (p + 2, Code)
    else if t.IsQuote(p) then (t.Next(p), Quoted(t.bytes[p]))
    else if CommentAt(t, p).Some? then (t.Next(p), CommentAt(t, p).value)
    else (t.Next(p), Code)
  }

  /** One character in a quoted string: escapes, and a quote of any kind right behind the closing one. */
  function TurnQuoted(t: Text, p: nat, q: char): (next: (nat, State))
    requires p < t.Length()
    ensures next.0 > p
  {
    var after := t.Next(p);
    if t.Is(p, '\\') then (if after < t.Length() then t.Next(after) else after, Quoted(q))
    else if t.Is(p, q) then
      if t.IsQuote(after) then (t.Next(after), Quoted(t.bytes[after])) else (after, Code)
    else (after, Quoted(q))
  }

  function Turn(t: Text, p: nat, state: State): (next: (nat, State))
    requires p < t.Length()
    ensures next.0 > p
  {
    match Settle(t, p, state)
    case Code => TurnCode(t, p)
    case Quoted(q) => TurnQuoted(t, p, q)
    case other => (t.Next(p), other)
  }

  predicate MarkerInCode(t: Text, p: nat, state: State) {
    Settle(t, p, state) == Code && t.IsMarker(p)
  }

  /** The offsets of the markers the automaton reads in code, from p on. */
  function Markers(t: Text, p: nat, state: State): seq<nat>
    decreases t.Length() - p
  {
    if p >= t.Length() then []
    else
      var (next, state') := Turn(t, p, state);
      (if MarkerInCode(t, p, state) then [p] else []) + Markers(t, next, state')
  }

  /** The state in which the automaton, starting at p in `state`, comes to read offset o; None where it does not. */
  function StateAt(t: Text, p: nat, state: State, o: nat): Option<State>
    decreases t.Length() - p
  {
    if p >= t.Length() || p > o then None
    else if p == o then Some(Settle(t, p, state))
    else
      var (next, state') := Turn(t, p, state);
      StateAt(t, next, state', o)
  }

  lemma {:induction false} MarkersInRange(t: Text, p: nat, state: State)
    ensures forall i :: 0 <= i < |Markers(t, p, state)| ==>
              p <= Markers(t, p, state)[i] < t.Length() && t.IsMarker(Markers(t, p, state)[i])
    decreases t.Length() - p
  {
    if p < t.Length() {
      var (next, state') := Turn(t, p, state);
      MarkersInRange(t, next, state');
    }
  }

  lemma {:induction false} MarkersIncrease(t: Text, p: nat, state: State)
    ensures forall i, j :: 0 <= i < j < |Markers(t, p, state)| ==> Markers(t, p, state)[i] < Markers(t, p, state)[j]
    decreases t.Length() - p
  {
    if p < t.Length() {
      var (next, state') := Turn(t, p, state);
      MarkersIncrease(t, next, state');
      MarkersInRange(t, next, state');
    }
  }

  lemma {:induction false} MarkersRead(t: Text, p: nat, state: State, o: nat)
    ensures o in Markers(t, p, state) <==> t.IsMarker(o) && StateAt(t, p, state, o) == Some(Code)
    decreases t.Length() - p
  {
    if p < t.Length() {
      var (next, state') := Turn(t, p, state);
      MarkersRead(t, next, state', o);
      MarkersInRange(t, next, state');
    }
  }

  /** The recorded offsets are strictly increasing, in range, and exactly the markers read in code. */
  lemma MarkersAreExact(t: Text, p: nat, state: State)
    ensures var ms := Markers(t, p, state);
            && (forall i :: 0 <= i < |ms| ==> p <= ms[i] < t.Length() && t.bytes[ms[i]] == '?')
            && (forall i, j :: 0 <= i < j < |ms| ==> ms[i] < ms[j])
            && (forall o: nat :: o in ms <==> t.IsMarker(o) && StateAt(t, p, state, o) == Some(Code))
  {
    MarkersInRange(t, p, state);
    MarkersIncrease(t, p, state);
    forall o: nat
      ensures o in Markers(t, p, state) <==> t.IsMarker(o) && StateAt(t, p, state, o) == Some(Code)
    {
      MarkersRead(t, p, state, o);
    }
  }

  // ---------------------------------------------------------------- the parser object

  /** MY_PARSER together with the parts of MY_PARSED_QUERY the tokenizer fills. */
  class Parser {
    const text: Text
    var pos: nat
    var quote: Option<char>
    var hashComment: bool
    var dashComment: bool
    var cStyleComment: bool
    var tokens: seq<nat>
    var params: seq<nat>
    var lastChar: Option<nat>

    constructor (query: Text)
      ensures text == query && pos == 0 && quote == None && tokens == [] && params == [] && lastChar == None
    {
      text := query;
      pos, quote := 0, None;
      hashComment, dashComment, cStyleComment := false, false, false;
      tokens, params, lastChar := [], [], None;
    }

    /** Offsets that have been recorded lie in the query. */
    ghost predicate InRange()
      reads this
    {
      && (forall k :: 0 <= k < |tokens| ==> tokens[k] < text.Length())
      && (lastChar.Some? ==> lastChar.value < text.Length())
    }

    predicate EndNotReached()
      reads `pos
    {
      pos < text.Length()
    }

    /** What the automaton would still record from here on, in the given state. */
    ghost function Ahead(state: State): seq<nat>
      reads `pos
    {
      Markers(text, pos, state)
    }

    method StepChar()
      modifies `pos
      ensures pos == text.Next(old(pos))
    {
      pos := text.Next(pos);
    }

    method SkipSpaces() returns (ended: bool)
      requires Sane(text)
      modifies `pos
      ensures Ahead(Code) == old(Ahead(Code))
      ensures pos >= old(pos)
      ensures ended == !EndNotReached()
    {
      while EndNotReached() && (text.ctype(pos).space || text.ctype(pos).control)
        invariant Ahead(Code) == old(Ahead(Code)) && pos >= old(pos)
        decreases text.Length() - pos
      {
        BlankTurn(text, pos);
        StepChar();
      }
      ended := !EndNotReached();
    }

    method AddToken()
      requires InRange()
      modifies `tokens
      ensures InRange()
    {
      if EndNotReached() {
        tokens := tokens + [pos];
      }
    }

    /** is_comment: raises the flag of the comment that opens here. */
    method IsComment() returns (opens: bool)
      requires EndNotReached()
      modifies `hashComment, `dashComment, `cStyleComment
      ensures opens == CommentAt(text, pos).Some?
      ensures opens ==> CommentState() == CommentAt(text, pos).value
      ensures opens ==> hashComment || dashComment || cStyleComment
      ensures (hashComment || dashComment) ==> !cStyleComment
    {
      hashComment, dashComment, cStyleComment := false, false, false;
      if text.StartsWith(pos, "#") {
        hashComment := true;
        return true;
      } else if text.StartsWith(pos, "-- ") {
        dashComment := true;
        return true;
      } else if text.StartsWith(pos, "/*!") {
        return false;
      } else if text.StartsWith(pos, "/*") {
        cStyleComment := true;
        return true;
      }
      return false;
    }

    ghost function CommentState(): State
      reads `hashComment, `dashComment, `cStyleComment
    {
      if hashComment || dashComment then LineComment else if cStyleComment then BlockComment else Code
    }

    /** skip_comment: stops in front of the terminator. */
    method SkipComment() returns (ended: bool)
      requires hashComment || dashComment || cStyleComment
      requires (hashComment || dashComment) ==> !cStyleComment
      modifies `pos
      ensures Ahead(Code) == old(Ahead(CommentState()))
      ensures pos >= old(pos)
      ensures old(EndNotReached()) && Settle(text, old(pos), CommentState()) != Code ==> pos > old(pos)
    {
      ghost var state := CommentState();
      while EndNotReached()
        && ((hashComment && !text.StartsWith(pos, "\n"))
            || (dashComment && !text.StartsWith(pos, "\n"))
            || (cStyleComment && !text.StartsWith(pos, "*/")))
        invariant Ahead(state) == old(Ahead(state))
        invariant pos >= old(pos)
        decreases text.Length() - pos
      {
        StepChar();
      }
      ended := !EndNotReached();
    }

    /** find_closing_quote: leaves the position behind the closing quote, and returns where that was. */
    method FindClosingQuote() returns (closing: Option<nat>)
      requires quote.Some? && EndNotReached()
      modifies `pos, `quote
      ensures Ahead(Code) == old(Ahead(Quoted(quote.value)))
      ensures pos > old(pos)
      ensures closing.Some? ==> closing.value < text.Length()
    {
      closing := None;
      while EndNotReached()
        invariant quote.Some? && pos >= old(pos)
        invariant Ahead(Quoted(quote.value)) == old(Ahead(Quoted(quote.value)))
        invariant EndNotReached() || pos > old(pos)
        invariant closing.Some? ==> closing.value < text.Length()
        decreases text.Length() - pos
      {
        QuotedTurn(text, pos, quote.value);
        if text.Is(pos, '\\') {
          StepChar();
        } else if text.Is(pos, quote.value) {
          closing := Some(pos);
          StepChar();
          if !text.IsQuote(pos) {
            break;
          }
          quote := Some(text.bytes[pos]);
        }
        StepChar();
      }
    }

    /** is_query_separator: steps behind a statement separator. */
    method IsQuerySeparator() returns (stepped: bool)
      requires EndNotReached()
      modifies `pos
      ensures stepped ==> pos > old(pos) && Ahead(Code) == old(Ahead(Code))
      ensures !stepped ==> pos == old(pos) && !text.StartsWith(pos, ";") && !text.StartsWith(pos, "\\g")
    {
      SeparatorTurn(text, pos);
      if text.StartsWith(pos, ";") {
        pos := pos + 1;
        return true;
      }
      if text.StartsWith(pos, "\\g") {
        pos := pos + 2;
        return true;
      }
      return false;
    }

    method AddParameter()
      modifies `params
      ensures params == old(params) + [pos]
    {
      params := params + [pos];
    }

    /** What has been recorded and what the automaton would still record. */
    ghost function Total(): seq<nat>
      reads this
    {
      params + Ahead(if quote.Some? then Quoted(quote.value) else Code)
    }

    /** Skips a comment that opens here. */
    method TryComment() returns (skipped: bool)
      requires EndNotReached() && !text.IsQuote(pos)
      requires !text.StartsWith(pos, ";") && !text.StartsWith(pos, "\\g")
      modifies `pos, `hashComment, `dashComment, `cStyleComment
      ensures skipped == CommentAt(text, old(pos)).Some?
      ensures skipped ==> pos > old(pos) && Ahead(Code) == old(Ahead(Code))
      ensures !skipped ==> pos == old(pos)
    {
      skipped := IsComment();
      if skipped {
        CommentTurn(text, pos);
        var ended := SkipComment();
      }
    }

    /** The part of the loop for a character that is no white space and no separator. */
    method StepSignificant()
      requires InRange() && EndNotReached() && quote == None
      requires !text.StartsWith(pos, ";") && !text.StartsWith(pos, "\\g")
      modifies this
      ensures InRange() && Total() == old(Total()) && pos > old(pos)
    {
      lastChar := Some(pos);
      if text.IsQuote(pos) {
        CodeTurn(text, pos);
        quote := Some(text.bytes[pos]);
        AddToken();
      } else {
        var comment := StepUnquoted();
        if comment {
          return;
        }
      }
      StepChar();
    }

    /** Skips a comment, or records a marker; then one character is still to be stepped over. */
    method StepUnquoted() returns (comment: bool)
      requires EndNotReached() && quote == None && !text.IsQuote(pos)
      requires !text.StartsWith(pos, ";") && !text.StartsWith(pos, "\\g")
      modifies `pos, `hashComment, `dashComment, `cStyleComment, `params
      ensures comment ==> pos > old(pos) && Total() == old(Total())
      ensures !comment ==> pos == old(pos) && params + Markers(text, text.Next(pos), Code) == old(Total())
    {
      CodeTurn(text, pos);
      comment := TryComment();
      if !comment && text.IsMarker(pos) {
        Recorded(params, pos, Markers(text, text.Next(pos), Code));
        AddParameter();
      }
    }

    /** The part of the loop for white space and separators; `again` starts the loop over. */
    method StepBlank() returns (again: bool)
      requires Sane(text) && InRange() && EndNotReached() && quote == None
      modifies `pos, `tokens
      ensures InRange() && Total() == old(Total()) && pos >= old(pos)
      ensures again ==> pos > old(pos)
      ensures !again ==> EndNotReached() && !text.StartsWith(pos, ";") && !text.StartsWith(pos, "\\g")
    {
      if text.ctype(pos).space {
        BlankTurn(text, pos);
        StepChar();
        var ended := SkipSpaces();
        if ended {
          return true;
        }
        AddToken();
      }
      again := IsQuerySeparator();
      if again {
        var ended := SkipSpaces();
        AddToken();
      }
    }

    /** tokenize: records the markers the automaton reads in code. */
    method Tokenize()
      requires Sane(text) && pos == 0 && quote == None && params == [] && InRange()
      modifies this
      ensures params == Markers(text, 0, Code)
      ensures InRange()
    {
      var ended := SkipSpaces();
      AddToken();
      while EndNotReached()
        invariant InRange() && Total() == Markers(text, 0, Code)
        decreases text.Length() - pos
      {
        if quote.Some? {
          lastChar := FindClosingQuote();
          quote := None;
          continue;
        }
        var again := StepBlank();
        if again {
          continue;
        }
        StepSignificant();
      }
    }
  }

  lemma Recorded(params: seq<nat>, p: nat, rest: seq<nat>)
    ensures params + ([p] + rest) == (params + [p]) + rest
  {
  }

  /** What one character in code contributes. */
  lemma CodeTurn(t: Text, p: nat)
    requires p < t.Length()
    ensures var (next, state) := TurnCode(t, p);
            Markers(t, p, Code) == (if t.IsMarker(p) then [p] else []) + Markers(t, next, state)
  {
  }

  lemma FirstByte(t: Text, p: nat, word: string)
    requires word != ""
    ensures t.StartsWith(p, word) ==> t.bytes[p] == word[0]
  {
    if t.StartsWith(p, word) {
      assert t.bytes[p] == t.bytes[p..p + |word|][0];
    }
  }

  /** A separator is read in code without effect. */
  lemma SeparatorTurn(t: Text, p: nat)
    requires p < t.Length()
    ensures t.StartsWith(p, ";") ==> Markers(t, p, Code) == Markers(t, p + 1, Code)
    ensures !t.StartsWith(p, ";") && t.StartsWith(p, "\\g") ==> Markers(t, p, Code) == Markers(t, p + 2, Code)
  {
    CodeTurn(t, p);
    FirstByte(t, p, ";");
    FirstByte(t, p, "\\g");
  }

  /** A comment can be read from its first character on. */
  lemma CommentTurn(t: Text, p: nat)
    requires p < t.Length() && CommentAt(t, p).Some?
    requires !t.StartsWith(p, ";") && !t.StartsWith(p, "\\g") && !t.IsQuote(p)
    ensures var comment := CommentAt(t, p).value;
            Settle(t, p, comment) == comment && Markers(t, p, Code) == Markers(t, p, comment)
  {
    var comment := CommentAt(t, p).value;
    FirstByte(t, p, "-- ");
    FirstByte(t, p, "/*");
    FirstByte(t, p, "#");
    FirstByte(t, p, "\n");
    FirstByte(t, p, "*/");
    assert TurnCode(t, p) == (t.Next(p), comment);
    assert Turn(t, p, comment) == (t.Next(p), comment);
  }

  /** White space and control characters are read in code without effect. */
  lemma BlankTurn(t: Text, p: nat)
    requires Sane(t) && p < t.Length() && (t.ctype(p).space || t.ctype(p).control)
    ensures Turn(t, p, Code) == (t.Next(p), Code) && !MarkerInCode(t, p, Code)
    ensures Markers(t, p, Code) == Markers(t, t.Next(p), Code)
  {
    assert t.bytes[p] !in "'\"`;\\#-/?";
    FirstByte(t, p, ";");
    FirstByte(t, p, "\\g");
    FirstByte(t, p, "#");
    FirstByte(t, p, "-- ");
    FirstByte(t, p, "/*");
    assert !t.IsQuote(p) && CommentAt(t, p) == None;
  }

  /** Nothing is recorded inside quotes. */
  lemma QuotedTurn(t: Text, p: nat, q: char)
    requires p < t.Length()
    ensures Markers(t, p, Quoted(q)) == Markers(t, TurnQuoted(t, p, q).0, TurnQuoted(t, p, q).1)
    ensures t.Is(p, '\\') ==> Markers(t, p, Quoted(q)) == Markers(t, t.Next(t.Next(p)), Quoted(q))
  {
  }
}

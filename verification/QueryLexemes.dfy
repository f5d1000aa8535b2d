/**
 What the tokenizer means, said by the characters of the query: every query divides into markers,
 strings, comments and ordinary characters, and the offsets recorded are those of the markers.
 A character is the string of its bytes.
 */
module QueryLexemes {
  import opened OdbcCodes
  import opened Tokenizer

  type Glyph = string

  datatype Lexeme = Ordinary | Marker | Separator | Quotes | Unclosed | Line | Block

  /** The characters of an ASCII word stand at i. */
  predicate Word(gs: seq<Glyph>, i: nat, word: string) {
    i + |word| <= |gs| && forall k :: 0 <= k < |word| ==> gs[i + k] == [word[k]]
  }

  predicate Quote(g: Glyph) {
    g == "'" || g == "\"" || g == "`"
  }

  /** Between a and b stand escaped characters, and others that are neither the quote nor a backslash. */
  predicate Inside(gs: seq<Glyph>, a: nat, b: nat, quote: Glyph)
    requires b <= |gs|
    decreases b - a
  {
    || a == b
    || (a < b && if gs[a] == "\\" then Inside(gs, a + 2, b, quote) else gs[a] != quote && Inside(gs, a + 1, b, quote))
  }

  /** The characters from i to j are this lexeme, where a comment ends in front of its terminator. */
  predicate Reads(gs: seq<Glyph>, i: nat, l: Lexeme, j: nat)
    requires i < j <= |gs|
  {
    match l
    case Marker => j == i + 1 && gs[i] == "?"
    case Separator => j == i + 2 && Word(gs, i, "\\g")
    case Quotes => Quote(gs[i]) && i + 1 < j && Inside(gs, i + 1, j - 1, gs[i]) && gs[j - 1] == gs[i]
    case Unclosed =>
      && Quote(gs[i]) && j == |gs|
      && (Inside(gs, i + 1, j, gs[i]) || (i + 1 < j && Inside(gs, i + 1, j - 1, gs[i]) && gs[j - 1] == "\\"))
    case Line =>
      && (gs[i] == "#" || Word(gs, i, "-- "))
      && (forall k :: i < k < j ==> gs[k] != "\n")
      && (j == |gs| || gs[j] == "\n")
    case Block =>
      && Word(gs, i, "/*") && !Word(gs, i, "/*!")
      && (forall k :: i < k < j ==> !Word(gs, k, "*/"))
      && (j == |gs| || Word(gs, j, "*/"))
    case Ordinary =>
      && j == i + 1
      && gs[i] != "?" && gs[i] != "#" && !Quote(gs[i])
      && !Word(gs, i, "\\g") && !Word(gs, i, "-- ") && (Word(gs, i, "/*") ==> Word(gs, i, "/*!"))
  }

  datatype Piece = Piece(lexeme: Lexeme, end: nat)

  /** From i on the text is a row of lexemes. */
  predicate Divided(gs: seq<Glyph>, i: nat, ps: seq<Piece>)
    requires i <= |gs|
    decreases |ps|
  {
    if ps == [] then i == |gs|
    else i < ps[0].end <= |gs| && Reads(gs, i, ps[0].lexeme, ps[0].end) && Divided(gs, ps[0].end, ps[1..])
  }

  /** The byte offset of the i-th character. */
  function At(gs: seq<Glyph>, i: nat): nat
    requires i <= |gs|
  {
    if i == 0 then 0 else At(gs, i - 1) + |gs[i - 1]|
  }

  /** The byte offsets of the marker lexemes. */
  function MarkersOf(gs: seq<Glyph>, i: nat, ps: seq<Piece>): seq<nat>
    requires i <= |gs| && Divided(gs, i, ps)
    decreases |ps|
  {
    if ps == [] then []
    else if ps[0].lexeme == Marker then [At(gs, i)] + MarkersOf(gs, ps[0].end, ps[1..])
    else MarkersOf(gs, ps[0].end, ps[1..])
  }

  /** An ASCII character of one byte, or one of any width that begins with a higher byte, at offset p. */
  predicate Character(t: Text, p: nat, g: Glyph) {
    && g != "" && p + |g| <= |t.bytes|
    && (forall k :: 0 <= k < |g| ==> t.bytes[p + k] == g[k])
    && if g[0] as int < 128 then |g| == 1 && t.ctype(p).bytes == 1
       else t.ctype(p).bytes == |g| || (t.ctype(p).bytes == 0 && |g| == 1)
  }

  /** The text is these characters, and the character set says so. */
  ghost predicate Spelled(t: Text, gs: seq<Glyph>) {
    && At(gs, |gs|) == |t.bytes|
    && forall i: nat :: i < |gs| ==> SpelledAt(t, gs, i)
  }

  predicate SpelledAt(t: Text, gs: seq<Glyph>, i: nat)
    requires i < |gs|
  {
    Character(t, At(gs, i), gs[i])
  }

  // ---------------------------------------------------------------- one character

  predicate Ascii(word: string) {
    forall k :: 0 <= k < |word| ==> word[k] as int < 128
  }

  lemma CharacterIs(t: Text, gs: seq<Glyph>, i: nat)
    requires Spelled(t, gs) && i < |gs|
    ensures At(gs, i) < t.Length() && t.Next(At(gs, i)) == At(gs, i + 1) && t.bytes[At(gs, i)] == gs[i][0]
    ensures forall c: char :: c as int < 128 ==> (t.Is(At(gs, i), c) <==> gs[i] == [c])
  {
    assert SpelledAt(t, gs, i);
  }

  lemma {:induction false} InOrder(gs: seq<Glyph>, i: nat, j: nat)
    requires i <= j <= |gs|
    ensures At(gs, i) <= At(gs, j)
    decreases j - i
  {
    if i < j {
      InOrder(gs, i, j - 1);
    }
  }

  lemma StartsByOne(t: Text, p: nat, word: string)
    requires word != ""
    ensures t.StartsWith(p, word) <==> p < |t.bytes| && t.bytes[p] == word[0] && t.StartsWith(p + 1, word[1..])
  {
    if p < |t.bytes| && t.bytes[p] == word[0] && t.StartsWith(p + 1, word[1..]) {
      forall k | 0 <= k < |word|
        ensures t.bytes[p + k] == word[k]
      {
        assert k > 0 ==> t.bytes[p + 1 + (k - 1)] == word[1..][k - 1];
      }
    }
    if t.StartsWith(p, word) {
      forall k | 0 <= k < |word[1..]|
        ensures t.bytes[p + 1 + k] == word[1..][k]
      {
        assert t.bytes[p + (k + 1)] == word[k + 1];
      }
    }
  }

  lemma WordByOne(gs: seq<Glyph>, i: nat, word: string)
    requires word != ""
    ensures Word(gs, i, word) <==> i < |gs| && gs[i] == [word[0]] && Word(gs, i + 1, word[1..])
  {
    if i < |gs| && gs[i] == [word[0]] && Word(gs, i + 1, word[1..]) {
      forall k | 0 <= k < |word|
        ensures gs[i + k] == [word[k]]
      {
        assert k > 0 ==> gs[i + 1 + (k - 1)] == [word[1..][k - 1]];
      }
    }
    if Word(gs, i, word) {
      forall k | 0 <= k < |word[1..]|
        ensures gs[i + 1 + k] == [word[1..][k]]
      {
        assert gs[i + (k + 1)] == [word[k + 1]];
      }
    }
  }

  /** Comparing bytes with an ASCII word is comparing characters. */
  lemma {:induction false} WordIsThere(t: Text, gs: seq<Glyph>, i: nat, word: string)
    requires Spelled(t, gs) && i <= |gs| && Ascii(word)
    ensures t.StartsWith(At(gs, i), word) <==> Word(gs, i, word)
    decreases |word|
  {
    if word == "" {
      InOrder(gs, i, |gs|);
    } else {
      StartsByOne(t, At(gs, i), word);
      WordByOne(gs, i, word);
      var there := FirstByteIs(t, gs, i, word[0]);
      if there {
        AsciiTail(word);
        WordIsThere(t, gs, i + 1, word[1..]);
      }
    }
  }

  lemma AsciiTail(word: string)
    requires Ascii(word) && word != ""
    ensures Ascii(word[1..])
  {
  }

  lemma FirstByteIs(t: Text, gs: seq<Glyph>, i: nat, c: char) returns (there: bool)
    requires Spelled(t, gs) && i <= |gs| && c as int < 128
    ensures there <==> i < |gs| && gs[i] == [c]
    ensures there <==> At(gs, i) < |t.bytes| && t.bytes[At(gs, i)] == c
    ensures there ==> At(gs, i + 1) == At(gs, i) + 1
  {
    there := i < |gs| && gs[i] == [c];
    if i < |gs| {
      assert SpelledAt(t, gs, i);
    }
  }

  /** What the separators and comment openers look like in characters. */
  lemma WordsAt(t: Text, gs: seq<Glyph>, i: nat)
    requires Spelled(t, gs) && i < |gs|
    ensures t.StartsWith(At(gs, i), ";") <==> gs[i] == ";"
    ensures t.StartsWith(At(gs, i), "\\g") <==> Word(gs, i, "\\g")
    ensures t.StartsWith(At(gs, i), "#") <==> gs[i] == "#"
    ensures t.StartsWith(At(gs, i), "-- ") <==> Word(gs, i, "-- ")
    ensures t.StartsWith(At(gs, i), "/*!") <==> Word(gs, i, "/*!")
    ensures t.StartsWith(At(gs, i), "/*") <==> Word(gs, i, "/*")
  {
    OneCharacterIsThere(t, gs, i, ";");
    WordIsThere(t, gs, i, "\\g");
    OneCharacterIsThere(t, gs, i, "#");
    WordIsThere(t, gs, i, "-- ");
    BlockOpenersAt(t, gs, i);
  }

  lemma OneCharacterIsThere(t: Text, gs: seq<Glyph>, i: nat, word: string)
    requires Spelled(t, gs) && i < |gs| && |word| == 1 && Ascii(word)
    ensures t.StartsWith(At(gs, i), word) <==> gs[i] == word
  {
    WordIsThere(t, gs, i, word);
    WordByOne(gs, i, word);
    assert word == [word[0]];
  }

  lemma BlockOpenersAt(t: Text, gs: seq<Glyph>, i: nat)
    requires Spelled(t, gs) && i < |gs|
    ensures t.StartsWith(At(gs, i), "/*!") <==> Word(gs, i, "/*!")
    ensures t.StartsWith(At(gs, i), "/*") <==> Word(gs, i, "/*")
  {
    WordIsThere(t, gs, i, "/*!");
    WordIsThere(t, gs, i, "/*");
  }

  lemma WordBegins(gs: seq<Glyph>, i: nat)
    ensures Word(gs, i, "\\g") ==> i + 2 <= |gs| && gs[i] == "\\" && gs[i + 1] == "g"
    ensures Word(gs, i, "-- ") ==> i + 3 <= |gs| && gs[i] == "-" && gs[i + 1] == "-" && gs[i + 2] == " "
    ensures Word(gs, i, "/*") ==> i + 2 <= |gs| && gs[i] == "/" && gs[i + 1] == "*"
    ensures Word(gs, i, "/*!") ==> Word(gs, i, "/*")
    ensures Word(gs, i, "*/") ==> i + 2 <= |gs| && gs[i] == "*" && gs[i + 1] == "/"
  {
    if Word(gs, i, "\\g") {
      assert gs[i + 0] == ["\\g"[0]] && gs[i + 1] == ["\\g"[1]];
    }
    if Word(gs, i, "-- ") {
      assert gs[i + 0] == ["-- "[0]] && gs[i + 1] == ["-- "[1]] && gs[i + 2] == ["-- "[2]];
    }
    if Word(gs, i, "/*") {
      assert gs[i + 0] == ["/*"[0]] && gs[i + 1] == ["/*"[1]];
    }
    if Word(gs, i, "/*!") {
      assert gs[i + 0] == ["/*!"[0]] && gs[i + 1] == ["/*!"[1]];
    }
    if Word(gs, i, "*/") {
      assert gs[i + 0] == ["*/"[0]] && gs[i + 1] == ["*/"[1]];
    }
  }

  // ---------------------------------------------------------------- what one lexeme does

  /** From the i-th character in one state the same markers lie ahead as from the j-th in another. */
  ghost predicate Leads(t: Text, gs: seq<Glyph>, i: nat, state: State, j: nat, state': State)
    requires i <= |gs| && j <= |gs|
  {
    Markers(t, At(gs, i), state) == Markers(t, At(gs, j), state')
  }

  /** An ordinary character in code. */
  lemma OrdinaryTurn(t: Text, gs: seq<Glyph>, i: nat)
    requires Spelled(t, gs) && i < |gs| && Reads(gs, i, Ordinary, i + 1)
    ensures Leads(t, gs, i, Code, i + 1, Code)
  {
    CharacterIs(t, gs, i);
    WordsAt(t, gs, i);
    CodeTurn(t, At(gs, i));
  }

  lemma MarkerTurn(t: Text, gs: seq<Glyph>, i: nat)
    requires Spelled(t, gs) && i < |gs| && gs[i] == "?"
    ensures Markers(t, At(gs, i), Code) == [At(gs, i)] + Markers(t, At(gs, i + 1), Code)
  {
    CharacterIs(t, gs, i);
    WordsAt(t, gs, i);
    WordBegins(gs, i);
    CodeTurn(t, At(gs, i));
  }

  lemma TwoTurns(t: Text, gs: seq<Glyph>, i: nat)
    requires Spelled(t, gs) && i + 1 < |gs| && Word(gs, i, "\\g")
    ensures Leads(t, gs, i, Code, i + 2, Code)
  {
    CharacterIs(t, gs, i);
    WordsAt(t, gs, i);
    WordBegins(gs, i);
    assert SpelledAt(t, gs, i + 1);
    CodeTurn(t, At(gs, i));
  }

  lemma OpensString(t: Text, gs: seq<Glyph>, i: nat)
    requires Spelled(t, gs) && i < |gs| && Quote(gs[i])
    ensures Leads(t, gs, i, Code, i + 1, Quoted(gs[i][0]))
  {
    CharacterIs(t, gs, i);
    WordsAt(t, gs, i);
    WordBegins(gs, i);
    CodeTurn(t, At(gs, i));
  }

  /** A quote right behind a string opens the next one, as it would in code. */
  lemma ClosesString(t: Text, gs: seq<Glyph>, i: nat)
    requires Spelled(t, gs) && i < |gs| && Quote(gs[i])
    ensures Leads(t, gs, i, Quoted(gs[i][0]), i + 1, Code)
  {
    CharacterIs(t, gs, i);
    if i + 1 < |gs| {
      CharacterIs(t, gs, i + 1);
      if Quote(gs[i + 1]) {
        OpensString(t, gs, i + 1);
      }
    }
  }

  lemma PlainInString(t: Text, gs: seq<Glyph>, i: nat, q: Glyph)
    requires Spelled(t, gs) && i < |gs| && Quote(q) && gs[i] != "\\" && gs[i] != q
    ensures Leads(t, gs, i, Quoted(q[0]), i + 1, Quoted(q[0]))
  {
    CharacterIs(t, gs, i);
  }

  lemma EscapedInString(t: Text, gs: seq<Glyph>, i: nat, q: Glyph)
    requires Spelled(t, gs) && i + 1 < |gs| && Quote(q) && gs[i] == "\\"
    ensures Leads(t, gs, i, Quoted(q[0]), i + 2, Quoted(q[0]))
  {
    CharacterIs(t, gs, i);
    CharacterIs(t, gs, i + 1);
    QuotedTurn(t, At(gs, i), q[0]);
  }

  lemma {:induction false} StringTurns(t: Text, gs: seq<Glyph>, a: nat, b: nat, q: Glyph)
    requires Spelled(t, gs) && a <= b <= |gs| && Quote(q) && Inside(gs, a, b, q)
    ensures Leads(t, gs, a, Quoted(q[0]), b, Quoted(q[0]))
    decreases b - a
  {
    if a < b {
      if gs[a] == "\\" {
        EscapedInString(t, gs, a, q);
        StringTurns(t, gs, a + 2, b, q);
      } else {
        PlainInString(t, gs, a, q);
        StringTurns(t, gs, a + 1, b, q);
      }
    }
  }

  /** A string records nothing, and reading goes on in code behind it. */
  lemma QuotesTurn(t: Text, gs: seq<Glyph>, i: nat, j: nat)
    requires Spelled(t, gs) && i < j <= |gs| && Reads(gs, i, Quotes, j)
    ensures Leads(t, gs, i, Code, j, Code)
  {
    OpensString(t, gs, i);
    StringTurns(t, gs, i + 1, j - 1, gs[i]);
    ClosesString(t, gs, j - 1);
  }

  lemma AtEnd(t: Text, gs: seq<Glyph>, state: State, state': State)
    requires Spelled(t, gs)
    ensures Markers(t, At(gs, |gs|), state) == [] && Leads(t, gs, |gs|, state, |gs|, state')
  {
  }

  lemma UnclosedTurn(t: Text, gs: seq<Glyph>, i: nat, j: nat)
    requires Spelled(t, gs) && i < j <= |gs| && Reads(gs, i, Unclosed, j)
    ensures Leads(t, gs, i, Code, j, Code)
  {
    OpensString(t, gs, i);
    if Inside(gs, i + 1, j, gs[i]) {
      StringTurns(t, gs, i + 1, j, gs[i]);
    } else {
      StringTurns(t, gs, i + 1, j - 1, gs[i]);
      LastBackslash(t, gs, gs[i]);
    }
    AtEnd(t, gs, Quoted(gs[i][0]), Code);
  }

  lemma LastBackslash(t: Text, gs: seq<Glyph>, q: Glyph)
    requires Spelled(t, gs) && gs != [] && gs[|gs| - 1] == "\\" && Quote(q)
    ensures Leads(t, gs, |gs| - 1, Quoted(q[0]), |gs|, Quoted(q[0]))
  {
    CharacterIs(t, gs, |gs| - 1);
  }

  lemma InComment(t: Text, gs: seq<Glyph>, i: nat, state: State, word: string)
    requires Spelled(t, gs) && i < |gs| && !Word(gs, i, word)
    requires (state == LineComment && word == "\n") || (state == BlockComment && word == "*/")
    ensures Leads(t, gs, i, state, i + 1, state)
  {
    CharacterIs(t, gs, i);
    WordIsThere(t, gs, i, word);
  }

  lemma {:induction false} CommentTurns(t: Text, gs: seq<Glyph>, a: nat, b: nat, state: State, word: string)
    requires Spelled(t, gs) && a <= b <= |gs|
    requires (state == LineComment && word == "\n") || (state == BlockComment && word == "*/")
    requires forall k :: a <= k < b ==> !Word(gs, k, word)
    ensures Leads(t, gs, a, state, b, state)
    decreases b - a
  {
    if a < b {
      InComment(t, gs, a, state, word);
      CommentTurns(t, gs, a + 1, b, state, word);
    }
  }

  lemma CommentEnds(t: Text, gs: seq<Glyph>, j: nat, state: State, word: string)
    requires Spelled(t, gs) && j < |gs| && Word(gs, j, word)
    requires (state == LineComment && word == "\n") || (state == BlockComment && word == "*/")
    ensures Leads(t, gs, j, state, j, Code)
  {
    CharacterIs(t, gs, j);
    WordIsThere(t, gs, j, word);
  }

  /** A comment opener is read as one character of code with the comment behind it. */
  lemma OpensComment(t: Text, gs: seq<Glyph>, i: nat, state: State)
    requires Spelled(t, gs) && i < |gs|
    requires
      || (state == LineComment && (gs[i] == "#" || Word(gs, i, "-- ")))
      || (state == BlockComment && Word(gs, i, "/*") && !Word(gs, i, "/*!"))
    ensures Leads(t, gs, i, Code, i + 1, state)
  {
    CharacterIs(t, gs, i);
    WordsAt(t, gs, i);
    WordBegins(gs, i);
    CodeTurn(t, At(gs, i));
  }

  lemma WholeComment(t: Text, gs: seq<Glyph>, i: nat, j: nat, state: State, word: string)
    requires Spelled(t, gs) && i < j <= |gs|
    requires
      || (state == LineComment && word == "\n" && (gs[i] == "#" || Word(gs, i, "-- ")))
      || (state == BlockComment && word == "*/" && Word(gs, i, "/*") && !Word(gs, i, "/*!"))
    requires (forall k :: i < k < j ==> !Word(gs, k, word)) && (j == |gs| || Word(gs, j, word))
    ensures Leads(t, gs, i, Code, j, Code)
  {
    OpensComment(t, gs, i, state);
    CommentTurns(t, gs, i + 1, j, state, word);
    if j < |gs| {
      CommentEnds(t, gs, j, state, word);
    } else {
      AtEnd(t, gs, state, Code);
    }
  }

  lemma LineTurn(t: Text, gs: seq<Glyph>, i: nat, j: nat)
    requires Spelled(t, gs) && i < j <= |gs| && Reads(gs, i, Line, j)
    ensures Leads(t, gs, i, Code, j, Code)
  {
    forall k | i < k <= j && k < |gs|
      ensures Word(gs, k, "\n") <==> gs[k] == "\n"
    {
      WordByOne(gs, k, "\n");
    }
    WholeComment(t, gs, i, j, LineComment, "\n");
  }

  /** Reading any lexeme but a marker records nothing and ends in code behind it. */
  lemma LexemeTurn(t: Text, gs: seq<Glyph>, i: nat, l: Lexeme, j: nat)
    requires Spelled(t, gs) && i < j <= |gs| && Reads(gs, i, l, j) && l != Marker
    ensures Leads(t, gs, i, Code, j, Code)
  {
    match l
    case Ordinary => OrdinaryTurn(t, gs, i);
    case Separator => TwoTurns(t, gs, i);
    case Quotes => QuotesTurn(t, gs, i, j);
    case Unclosed => UnclosedTurn(t, gs, i, j);
    case Line => LineTurn(t, gs, i, j);
    case Block => WholeComment(t, gs, i, j, BlockComment, "*/");
  }

  /** One lexeme of a divided text. */
  lemma PieceTurn(t: Text, gs: seq<Glyph>, i: nat, l: Lexeme, j: nat)
    requires Spelled(t, gs) && i < j <= |gs| && Reads(gs, i, l, j)
    ensures Markers(t, At(gs, i), Code) == (if l == Marker then [At(gs, i)] else []) + Markers(t, At(gs, j), Code)
  {
    if l == Marker {
      MarkerTurn(t, gs, i);
    } else {
      LexemeTurn(t, gs, i, l, j);
    }
  }

  /** However a query divides into lexemes, the markers recorded are its marker lexemes, at their offsets. */
  lemma {:induction false} RecordsTheMarkers(t: Text, gs: seq<Glyph>, i: nat, ps: seq<Piece>)
    requires Spelled(t, gs) && i <= |gs| && Divided(gs, i, ps)
    ensures Markers(t, At(gs, i), Code) == MarkersOf(gs, i, ps)
    decreases |ps|
  {
    if ps == [] {
      AtEnd(t, gs, Code, Code);
    } else {
      RecordsTheMarkers(t, gs, ps[0].end, ps[1..]);
      PieceTurn(t, gs, i, ps[0].lexeme, ps[0].end);
    }
  }

  // ---------------------------------------------------------------- every text divides

  /** Where a string that opens in front of a ends: at its quote, behind the last character, or behind a backslash. */
  lemma {:induction false} StringEnd(gs: seq<Glyph>, a: nat, q: Glyph) returns (b: nat)
    requires a <= |gs|
    ensures a <= b <= |gs| && Inside(gs, a, b, q)
    ensures b == |gs| || gs[b] == q || (b == |gs| - 1 && gs[b] == "\\")
    decreases |gs| - a
  {
    if a == |gs| || gs[a] == q || (a == |gs| - 1 && gs[a] == "\\") {
      b := a;
    } else if gs[a] == "\\" {
      b := StringEnd(gs, a + 2, q);
    } else {
      b := StringEnd(gs, a + 1, q);
    }
  }

  lemma {:induction false} CommentEnd(gs: seq<Glyph>, a: nat, word: string) returns (b: nat)
    requires a <= |gs|
    ensures a <= b <= |gs| && (b == |gs| || Word(gs, b, word))
    ensures forall k :: a <= k < b ==> !Word(gs, k, word)
    decreases |gs| - a
  {
    b := a;
    if a < |gs| && !Word(gs, a, word) {
      b := CommentEnd(gs, a + 1, word);
    }
  }

  lemma LineEnd(gs: seq<Glyph>, i: nat) returns (j: nat)
    requires i < |gs| && (gs[i] == "#" || Word(gs, i, "-- "))
    ensures i < j <= |gs| && Reads(gs, i, Line, j)
  {
    j := CommentEnd(gs, i + 1, "\n");
    forall k | i < k <= j && k < |gs|
      ensures Word(gs, k, "\n") <==> gs[k] == "\n"
    {
      WordByOne(gs, k, "\n");
    }
  }

  /** The lexeme that begins with the i-th character. */
  lemma NextLexeme(gs: seq<Glyph>, i: nat) returns (p: Piece)
    requires i < |gs|
    ensures i < p.end <= |gs| && Reads(gs, i, p.lexeme, p.end)
  {
    if gs[i] == "?" {
      p := Piece(Marker, i + 1);
    } else if Quote(gs[i]) {
      var b := StringEnd(gs, i + 1, gs[i]);
      p := if b < |gs| && gs[b] == gs[i] then Piece(Quotes, b + 1) else Piece(Unclosed, |gs|);
    } else if gs[i] == "#" || Word(gs, i, "-- ") {
      var j := LineEnd(gs, i);
      p := Piece(Line, j);
    } else if Word(gs, i, "/*") && !Word(gs, i, "/*!") {
      var j := CommentEnd(gs, i + 1, "*/");
      p := Piece(Block, j);
    } else if Word(gs, i, "\\g") {
      p := Piece(Separator, i + 2);
    } else {
      p := Piece(Ordinary, i + 1);
    }
  }

  lemma {:induction false} EveryTextDivides(gs: seq<Glyph>, i: nat) returns (ps: seq<Piece>)
    requires i <= |gs|
    ensures Divided(gs, i, ps)
    decreases |gs| - i
  {
    ps := [];
    if i < |gs| {
      var p := NextLexeme(gs, i);
      var rest := EveryTextDivides(gs, p.end);
      ps := [p] + rest;
      assert ps[1..] == rest;
    }
  }

  /** A question mark in a string is text; the one behind the string is a marker. */
  lemma MarkerBehindString(t: Text)
    requires Spelled(t, ["'", "?", "'", "?"])
    ensures Markers(t, 0, Code) == [3]
  {
    var gs := ["'", "?", "'", "?"];
    var ps := [Piece(Quotes, 3), Piece(Marker, 4)];
    assert Inside(gs, 2, 2, "'");
    assert ps[1..] == [ps[1]] && ps[1..][1..] == [];
    assert At(gs, 1) == 1 && At(gs, 2) == 2 && At(gs, 3) == 3;
    assert Divided(gs, 3, ps[1..]);
    RecordsTheMarkers(t, gs, 0, ps);
  }
}

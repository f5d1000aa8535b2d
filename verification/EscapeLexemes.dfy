/**
 What the {fn ...} rewriter means, said by the text itself: every text divides into strings, comments,
 braces, function escapes and ordinary characters, and the braces the rewriter counts are those lexemes.
 */
module EscapeLexemes {
  import opened OdbcCodes
  import opened FnEscapes
  import opened FnMatching

  /** A brace of a function escape comes with the place of its keyword. */
  datatype Lexeme = Ordinary | Quotes | Unclosed | Line | Block | Opening | Function(keyword: nat) | Closing

  predicate White(c: char) {
    c == ' ' || 9 <= c as int <= 13
  }

  predicate Quote(c: char) {
    c == '\'' || c == '"' || c == '`'
  }

  predicate Newline(c: char) {
    c == '\n' || c == '\r'
  }

  predicate Two(s: string, i: int, a: char, b: char) {
    0 <= i && i + 1 < |s| && s[i] == a && s[i + 1] == b
  }

  /** Two dashes with white space behind them. */
  predicate Dashes(s: string, i: nat) {
    i + 2 < |s| && s[i] == '-' && s[i + 1] == '-' && White(s[i + 2])
  }

  /** Behind i there is only white space up to k, and then fn, in any letter case, with white space behind it. */
  predicate FnAt(s: string, i: nat, k: nat) {
    && i < k && k + 2 < |s|
    && (forall m :: i < m < k ==> White(s[m]))
    && (s[k] == 'f' || s[k] == 'F') && (s[k + 1] == 'n' || s[k + 1] == 'N') && White(s[k + 2])
  }

  /** Between a and b stand escaped characters, and others that are neither the quote nor a backslash. */
  predicate Inside(s: string, a: nat, b: nat, quote: char)
    requires b <= |s|
    decreases b - a
  {
    || a == b
    || (a < b && if s[a] == '\\' then Inside(s, a + 2, b, quote) else s[a] != quote && Inside(s, a + 1, b, quote))
  }

  predicate OrdinaryAt(s: string, i: nat)
    requires i < |s|
  {
    && !Quote(s[i]) && s[i] != '#' && s[i] != '{' && s[i] != '}'
    && !Two(s, i, '/', '*') && !Dashes(s, i)
  }

  /** The characters from i to j are this lexeme in code. */
  ghost predicate Reads(s: string, i: nat, l: Lexeme, j: nat)
    requires i < j <= |s|
  {
    match l
    case Ordinary => j == i + 1 && OrdinaryAt(s, i)
    case Quotes => Quote(s[i]) && i + 1 < j && Inside(s, i + 1, j - 1, s[i]) && s[j - 1] == s[i]
    case Unclosed =>
      && Quote(s[i]) && j == |s|
      && (Inside(s, i + 1, j, s[i]) || (i + 1 < j && Inside(s, i + 1, j - 1, s[i]) && s[j - 1] == '\\'))
    case Line =>
      && (s[i] == '#' || Dashes(s, i))
      && (forall k :: i < k < j - 1 ==> !Newline(s[k]))
      && (j == |s| || Newline(s[j - 1]))
    case Block =>
      && Two(s, i, '/', '*') && i + 2 <= j
      && (forall k :: i + 2 <= k < j - 2 ==> !Two(s, k, '*', '/'))
      && (j == |s| || (i + 4 <= j && Two(s, j - 2, '*', '/')))
    case Opening => j == i + 1 && s[i] == '{' && forall k :: !FnAt(s, i, k)
    case Function(k) => j == i + 1 && s[i] == '{' && FnAt(s, i, k)
    case Closing => j == i + 1 && s[i] == '}'
  }

  datatype Piece = Piece(lexeme: Lexeme, end: nat)

  /** From i on the text is a row of lexemes. */
  ghost predicate Divided(s: string, i: nat, ps: seq<Piece>)
    requires i <= |s|
    decreases |ps|
  {
    if ps == [] then i == |s|
    else i < ps[0].end <= |s| && Reads(s, i, ps[0].lexeme, ps[0].end) && Divided(s, ps[0].end, ps[1..])
  }

  /** The tokens are the braces among the lexemes, function escapes marked as such. */
  ghost predicate BracesOf(ts: seq<Token>, i: nat, ps: seq<Piece>)
    decreases |ps|
  {
    if ps == [] then ts == []
    else
      match ps[0].lexeme
      case Opening =>
        && ts != [] && ts[0].Open? && ts[0].pos == i && !ts[0].function_
        && BracesOf(ts[1..], ps[0].end, ps[1..])
      case Function(k) => ts != [] && ts[0] == Open(i, k, true) && BracesOf(ts[1..], ps[0].end, ps[1..])
      case Closing => ts != [] && ts[0] == Close(i) && BracesOf(ts[1..], ps[0].end, ps[1..])
      case _ => BracesOf(ts, ps[0].end, ps[1..])
  }

  // ---------------------------------------------------------------- what one lexeme does

  ghost predicate Leads(s: string, i: nat, mode: Mode, j: nat, mode': Mode)
    requires i <= |s| && j <= |s|
  {
    Tokens(s, i, mode) == Tokens(s, j, mode')
  }

  lemma OrdinaryTurn(s: string, i: nat)
    requires i < |s| && Reads(s, i, Ordinary, i + 1)
    ensures Leads(s, i, Code, i + 1, Code)
  {
  }

  lemma OpensString(s: string, i: nat)
    requires i < |s| && Quote(s[i])
    ensures Leads(s, i, Code, i + 1, Quoted(s[i]))
  {
  }

  /** Two quotes in a string are read on as a string that ends and one that opens. */
  lemma ClosesString(s: string, i: nat)
    requires i < |s| && Quote(s[i])
    ensures Leads(s, i, Quoted(s[i]), i + 1, Code)
  {
    if i + 1 < |s| && s[i + 1] == s[i] {
      OpensString(s, i + 1);
    }
  }

  lemma EscapedInString(s: string, i: nat, q: char)
    requires i + 1 < |s| && s[i] == '\\'
    ensures Leads(s, i, Quoted(q), i + 2, Quoted(q))
  {
  }

  lemma PlainInString(s: string, i: nat, q: char)
    requires i < |s| && s[i] != '\\' && s[i] != q
    ensures Leads(s, i, Quoted(q), i + 1, Quoted(q))
  {
  }

  lemma {:induction false} StringTurns(s: string, a: nat, b: nat, q: char)
    requires a <= b <= |s| && Inside(s, a, b, q)
    ensures Leads(s, a, Quoted(q), b, Quoted(q))
    decreases b - a
  {
    if a < b {
      if s[a] == '\\' {
        EscapedInString(s, a, q);
        StringTurns(s, a + 2, b, q);
      } else {
        PlainInString(s, a, q);
        StringTurns(s, a + 1, b, q);
      }
    }
  }

  lemma QuotesTurn(s: string, i: nat, j: nat)
    requires i < j <= |s| && Reads(s, i, Quotes, j)
    ensures Leads(s, i, Code, j, Code)
  {
    OpensString(s, i);
    StringTurns(s, i + 1, j - 1, s[i]);
    ClosesString(s, j - 1);
  }

  lemma LastBackslash(s: string, q: char)
    requires s != [] && s[|s| - 1] == '\\' && Quote(q)
    ensures Leads(s, |s| - 1, Quoted(q), |s|, Code)
  {
  }

  lemma UnclosedTurn(s: string, i: nat, j: nat)
    requires i < j <= |s| && Reads(s, i, Unclosed, j)
    ensures Leads(s, i, Code, j, Code)
  {
    OpensString(s, i);
    if Inside(s, i + 1, j, s[i]) {
      StringTurns(s, i + 1, j, s[i]);
    } else {
      StringTurns(s, i + 1, j - 1, s[i]);
      LastBackslash(s, s[i]);
    }
  }

  lemma {:induction false} LineTurns(s: string, a: nat, b: nat)
    requires a <= b <= |s| && forall k :: a <= k < b ==> !Newline(s[k])
    ensures Leads(s, a, LineComment, b, LineComment)
    decreases b - a
  {
    if a < b {
      LineTurns(s, a + 1, b);
    }
  }

  lemma LineTurn(s: string, i: nat, j: nat)
    requires i < j <= |s| && Reads(s, i, Line, j)
    ensures Leads(s, i, Code, j, Code)
  {
    assert Leads(s, i, Code, i + 1, LineComment);
    if i + 1 < j {
      LineTurns(s, i + 1, j - 1);
      AtEnd(s);
      assert Leads(s, j - 1, LineComment, j, Code);
    }
  }

  lemma {:induction false} BlockTurns(s: string, a: nat, b: nat)
    requires a <= b <= |s| && forall k :: a <= k < b ==> !Two(s, k, '*', '/')
    ensures Leads(s, a, BlockComment, b, BlockComment)
    decreases b - a
  {
    if a < b {
      assert !Two(s, a, '*', '/');
      BlockTurns(s, a + 1, b);
    }
  }

  lemma BlockTurn(s: string, i: nat, j: nat)
    requires i < j <= |s| && Reads(s, i, Block, j)
    ensures Leads(s, i, Code, j, Code)
  {
    assert Leads(s, i, Code, i + 2, BlockComment);
    if i + 4 <= j {
      BlockTurns(s, i + 2, j - 2);
      LastOfBlock(s, j - 2, j);
    } else {
      LastOfBlock(s, i + 2, j);
    }
  }

  /** The terminator of a block comment, or the last bytes of the text in it. */
  lemma LastOfBlock(s: string, i: nat, j: nat)
    requires i <= j <= i + 2 && j <= |s|
    requires (j == |s| && forall k :: i <= k < j - 2 ==> !Two(s, k, '*', '/')) || (j == i + 2 && Two(s, i, '*', '/'))
    ensures Leads(s, i, BlockComment, j, Code)
  {
    AtEnd(s);
    if i + 1 < j && !Two(s, i, '*', '/') {
      assert Leads(s, i, BlockComment, i + 1, BlockComment);
    }
  }

  lemma AtEnd(s: string)
    ensures forall mode :: Tokens(s, |s|, mode) == []
  {
  }

  /** Any lexeme but a brace is read without a token, and reading goes on in code behind it. */
  lemma LexemeTurn(s: string, i: nat, l: Lexeme, j: nat)
    requires i < j <= |s| && Reads(s, i, l, j) && !l.Opening? && !l.Function? && !l.Closing?
    ensures Leads(s, i, Code, j, Code)
  {
    match l
    case Ordinary => OrdinaryTurn(s, i);
    case Quotes => QuotesTurn(s, i, j);
    case Unclosed => UnclosedTurn(s, i, j);
    case Line => LineTurn(s, i, j);
    case Block => BlockTurn(s, i, j);
  }

  /** White space is skipped in front of a keyword. */
  lemma {:induction false} SkipsTo(s: string, a: nat, k: nat)
    requires a <= k < |s| && (forall m :: a <= m < k ==> White(s[m])) && !White(s[k])
    ensures SkipSpace(s, a) == k
    decreases k - a
  {
    if a < k {
      SkipsTo(s, a + 1, k);
    }
  }

  /** The keyword the rewriter finds behind a brace is that of the lexeme. */
  lemma KeywordFound(s: string, i: nat)
    requires i < |s|
    ensures IsFnKeyword(s, Keyword(s, i)) ==> FnAt(s, i, Keyword(s, i))
    ensures forall k :: FnAt(s, i, k) ==> k == Keyword(s, i) && IsFnKeyword(s, k)
  {
    forall k | FnAt(s, i, k)
      ensures k == Keyword(s, i)
    {
      SkipsTo(s, i + 1, k);
    }
  }

  lemma BraceTurn(s: string, i: nat, l: Lexeme)
    requires i < |s| && Reads(s, i, l, i + 1) && (l.Opening? || l.Function? || l.Closing?)
    ensures Tokens(s, i, Code) != [] && Tokens(s, i, Code)[1..] == Tokens(s, i + 1, Code)
    ensures l.Opening? ==> Tokens(s, i, Code)[0] == Open(i, Keyword(s, i), false)
    ensures l.Function? ==> Tokens(s, i, Code)[0] == Open(i, l.keyword, true)
    ensures l.Closing? ==> Tokens(s, i, Code)[0] == Close(i)
  {
    KeywordFound(s, i);
  }

  /** However a text divides into lexemes, the braces in code are its brace lexemes, function escapes told apart. */
  lemma {:induction false} FindsTheBraces(s: string, i: nat, ps: seq<Piece>)
    requires i <= |s| && Divided(s, i, ps)
    ensures BracesOf(Tokens(s, i, Code), i, ps)
    decreases |ps|
  {
    if ps != [] {
      var l, j := ps[0].lexeme, ps[0].end;
      FindsTheBraces(s, j, ps[1..]);
      if l.Opening? || l.Function? || l.Closing? {
        BraceTurn(s, i, l);
      } else {
        LexemeTurn(s, i, l, j);
      }
    }
  }

  // ---------------------------------------------------------------- every text divides

  /** Where a string that opens in front of a ends: at its quote, behind the last character, or behind a backslash. */
  lemma {:induction false} StringEnd(s: string, a: nat, q: char) returns (b: nat)
    requires a <= |s|
    ensures a <= b <= |s| && Inside(s, a, b, q)
    ensures b == |s| || s[b] == q || (b == |s| - 1 && s[b] == '\\')
    decreases |s| - a
  {
    if a == |s| || s[a] == q || (a == |s| - 1 && s[a] == '\\') {
      b := a;
    } else if s[a] == '\\' {
      b := StringEnd(s, a + 2, q);
    } else {
      b := StringEnd(s, a + 1, q);
    }
  }

  lemma {:induction false} LineEnd(s: string, a: nat) returns (b: nat)
    requires a <= |s|
    ensures a <= b <= |s| && (b == |s| || Newline(s[b])) && forall k :: a <= k < b ==> !Newline(s[k])
    decreases |s| - a
  {
    b := a;
    if a < |s| && !Newline(s[a]) {
      b := LineEnd(s, a + 1);
    }
  }

  lemma {:induction false} BlockEnd(s: string, a: nat) returns (b: nat)
    requires a <= |s|
    ensures a <= b <= |s| && (b == |s| || Two(s, b, '*', '/')) && forall k :: a <= k < b ==> !Two(s, k, '*', '/')
    decreases |s| - a
  {
    b := a;
    if a < |s| && !Two(s, a, '*', '/') {
      b := BlockEnd(s, a + 1);
    }
  }

  lemma NextBrace(s: string, i: nat) returns (l: Lexeme)
    requires i < |s| && (s[i] == '{' || s[i] == '}')
    ensures Reads(s, i, l, i + 1)
  {
    KeywordFound(s, i);
    if s[i] == '}' {
      l := Closing;
    } else if IsFnKeyword(s, Keyword(s, i)) {
      l := Function(Keyword(s, i));
    } else {
      l := Opening;
    }
  }

  /** The lexeme that begins with the i-th character. */
  lemma NextLexeme(s: string, i: nat) returns (p: Piece)
    requires i < |s|
    ensures i < p.end <= |s| && Reads(s, i, p.lexeme, p.end)
  {
    if Quote(s[i]) {
      var b := StringEnd(s, i + 1, s[i]);
      p := if b < |s| && s[b] == s[i] then Piece(Quotes, b + 1) else Piece(Unclosed, |s|);
    } else if s[i] == '#' || Dashes(s, i) {
      var b := LineEnd(s, i + 1);
      p := Piece(Line, if b < |s| then b + 1 else b);
    } else if Two(s, i, '/', '*') {
      var b := BlockEnd(s, i + 2);
      p := Piece(Block, if b < |s| then b + 2 else b);
    } else if s[i] == '{' || s[i] == '}' {
      var l := NextBrace(s, i);
      p := Piece(l, i + 1);
    } else {
      p := Piece(Ordinary, i + 1);
    }
  }

  lemma {:induction false} EveryTextDivides(s: string, i: nat) returns (ps: seq<Piece>)
    requires i <= |s|
    ensures Divided(s, i, ps)
    decreases |s| - i
  {
    ps := [];
    if i < |s| {
      var p := NextLexeme(s, i);
      var rest := EveryTextDivides(s, p.end);
      ps := [p] + rest;
      assert ps[1..] == rest;
    }
  }

  // ---------------------------------------------------------------- texts

  lemma {:induction false} NoFunctionToken(ts: seq<Token>, i: nat, ps: seq<Piece>, u: nat)
    requires BracesOf(ts, i, ps) && u < |ts|
    requires forall v :: 0 <= v < |ps| ==> !ps[v].lexeme.Function?
    ensures ts[u].Open? ==> !ts[u].function_
    decreases |ps|
  {
    if ps != [] {
      var l := ps[0].lexeme;
      if !l.Opening? && !l.Closing? {
        NoFunctionToken(ts, ps[0].end, ps[1..], u);
      } else if u > 0 {
        NoFunctionToken(ts[1..], ps[0].end, ps[1..], u - 1);
      }
    }
  }

  /**
   A text without a function escape in code stays as it is: other braces are kept, and so is a function
   escape in a string or in a comment, which is part of another lexeme.
   */
  lemma NothingToRewrite(s: string, ps: seq<Piece>)
    requires Divided(s, 0, ps) && forall v :: 0 <= v < |ps| ==> !ps[v].lexeme.Function?
    ensures Rewritten(s) == s
  {
    FindsTheBraces(s, 0, ps);
    var ts := CodeBraces(s);
    forall p | 0 <= p < |s|
      ensures Rewritten(s)[p] == s[p]
    {
      BlanksExactlyTheWrappers(s, p);
      if WrappedFrom(ts, 0, p) {
        var u: nat :| u < |ts| && Wrapper(ts, u, p);
        NoFunctionToken(ts, 0, ps, u);
        var i: nat :| Matches(ts, i, u) && ts[i].function_;
        NoFunctionToken(ts, 0, ps, i);
      }
    }
  }

  /** No quote, brace or comment opener. */
  predicate AllOrdinary(x: string) {
    forall k: nat :: k < |x| ==> OrdinaryAt(x, k)
  }

  lemma {:induction false} PlainTurns(s: string, i: nat, j: nat)
    requires i <= j <= |s| && forall k: nat :: i <= k < j ==> OrdinaryAt(s, k)
    ensures Leads(s, i, Code, j, Code)
    decreases j - i
  {
    if i < j {
      assert OrdinaryAt(s, i);
      OrdinaryTurn(s, i);
      PlainTurns(s, i + 1, j);
    }
  }

  /** The part x of the text from i on, with a brace or nothing behind it. */
  predicate Part(s: string, i: nat, x: string) {
    && i + |x| <= |s|
    && (forall k :: 0 <= k < |x| ==> s[i + k] == x[k])
    && (i + |x| < |s| ==> s[i + |x|] == '{' || s[i + |x|] == '}')
  }

  /** Plain text is read without a token. */
  lemma PlainPart(s: string, i: nat, x: string)
    requires Part(s, i, x) && AllOrdinary(x)
    ensures Leads(s, i, Code, i + |x|, Code)
  {
    forall k: nat | i <= k < i + |x|
      ensures OrdinaryAt(s, k)
    {
      OrdinaryThere(s, i, x, k - i);
      assert i + (k - i) == k;
    }
    PlainTurns(s, i, i + |x|);
  }

  lemma OrdinaryThere(s: string, i: nat, x: string, k: nat)
    requires Part(s, i, x) && k < |x| && OrdinaryAt(x, k)
    ensures OrdinaryAt(s, i + k)
  {
    assert s[i + k] == x[k];
    assert k + 1 < |x| ==> s[i + (k + 1)] == x[k + 1];
    assert k + 2 < |x| ==> s[i + (k + 2)] == x[k + 2];
  }

  /** A function escape in plain text, with plain text in it. */
  datatype Escape = Escape(before: string, blanks: string, f: char, n: char, blank: char, body: string, after: string) {
    /** What stands between the braces. */
    function Inner(): string {
      blanks + [f, n, blank] + body
    }

    function Text(): string {
      before + "{" + Inner() + "}" + after
    }

    predicate Ok() {
      && AllOrdinary(before) && AllOrdinary(body) && AllOrdinary(after)
      && (forall m :: 0 <= m < |blanks| ==> White(blanks[m])) && White(blank)
      && (f == 'f' || f == 'F') && (n == 'n' || n == 'N')
    }

    function Keyword(): nat {
      |before| + 1 + |blanks|
    }

    function Close(): nat {
      |before| + 1 + |Inner()|
    }
  }

  lemma InnerIsPlain(e: Escape)
    requires e.Ok()
    ensures AllOrdinary(e.Inner())
  {
    var head := e.blanks + [e.f, e.n, e.blank];
    forall k: nat | k < |e.Inner()|
      ensures OrdinaryAt(e.Inner(), k)
    {
      if k >= |head| {
        assert OrdinaryAt(e.body, k - |head|);
      }
    }
  }

  /** Where the parts of the text stand. */
  lemma Layout(e: Escape)
    requires e.Ok()
    ensures |e.Text()| == e.Close() + 1 + |e.after|
    ensures Part(e.Text(), 0, e.before) && e.Text()[|e.before|] == '{'
    ensures Part(e.Text(), |e.before| + 1, e.Inner()) && e.Text()[e.Close()] == '}'
    ensures Part(e.Text(), e.Close() + 1, e.after)
  {
  }

  lemma InnerBegins(e: Escape)
    requires e.Ok()
    ensures |e.Inner()| >= |e.blanks| + 3
    ensures forall m :: 0 <= m < |e.blanks| ==> White(e.Inner()[m])
    ensures e.Inner()[|e.blanks|] == e.f && e.Inner()[|e.blanks| + 1] == e.n && e.Inner()[|e.blanks| + 2] == e.blank
  {
  }

  /** A part that begins with white space and the keyword, seen from the brace in front of it. */
  lemma KeywordInPart(s: string, i: nat, x: string, w: nat)
    requires Part(s, i + 1, x) && w + 2 < |x| && forall m :: 0 <= m < w ==> White(x[m])
    requires (x[w] == 'f' || x[w] == 'F') && (x[w + 1] == 'n' || x[w + 1] == 'N') && White(x[w + 2])
    ensures FnAt(s, i, i + 1 + w)
  {
    forall m | i < m < i + 1 + w
      ensures White(s[m])
    {
      assert s[i + 1 + (m - i - 1)] == x[m - i - 1];
    }
    assert s[i + 1 + (w + 1)] == x[w + 1] && s[i + 1 + (w + 2)] == x[w + 2];
  }

  /** The tokens of three plain parts with a function escape around the middle one. */
  lemma PartTokens(s: string, x: string, y: string, z: string, k: nat)
    requires AllOrdinary(x) && AllOrdinary(y) && AllOrdinary(z)
    requires Part(s, 0, x) && |x| < |s| && s[|x|] == '{' && FnAt(s, |x|, k)
    requires Part(s, |x| + 1, y) && |s| == |x| + 1 + |y| + 1 + |z| && s[|x| + 1 + |y|] == '}'
    requires Part(s, |x| + 1 + |y| + 1, z)
    ensures CodeBraces(s) == [Open(|x|, k, true), Close(|x| + 1 + |y|)]
  {
    PlainPart(s, 0, x);
    BraceTurn(s, |x|, Function(k));
    PlainPart(s, |x| + 1, y);
    LastBrace(s, |x| + 1 + |y|, z);
  }

  lemma LastBrace(s: string, c: nat, z: string)
    requires AllOrdinary(z) && |s| == c + 1 + |z| && s[c] == '}' && Part(s, c + 1, z)
    ensures Tokens(s, c, Code) == [Close(c)]
  {
    BraceTurn(s, c, Closing);
    PlainPart(s, c + 1, z);
    AtEnd(s);
  }

  lemma EscapeTokens(e: Escape)
    requires e.Ok()
    ensures CodeBraces(e.Text()) == [Open(|e.before|, e.Keyword(), true), Close(e.Close())]
  {
    Layout(e);
    InnerBegins(e);
    TokensOfParts(e, e.Text(), e.Inner());
  }

  lemma TokensOfParts(e: Escape, s: string, y: string)
    requires e.Ok() && y == e.Inner() && |y| >= |e.blanks| + 3
    requires forall m :: 0 <= m < |e.blanks| ==> White(y[m])
    requires y[|e.blanks|] == e.f && y[|e.blanks| + 1] == e.n && y[|e.blanks| + 2] == e.blank
    requires |s| == |e.before| + 1 + |y| + 1 + |e.after|
    requires Part(s, 0, e.before) && s[|e.before|] == '{'
    requires Part(s, |e.before| + 1, y) && s[|e.before| + 1 + |y|] == '}'
    requires Part(s, |e.before| + 1 + |y| + 1, e.after)
    ensures CodeBraces(s) == [Open(|e.before|, e.Keyword(), true), Close(|e.before| + 1 + |y|)]
  {
    InnerIsPlain(e);
    KeywordInPart(s, |e.before|, y, |e.blanks|);
    PartTokens(s, e.before, y, e.after, e.Keyword());
  }

  /** The opening brace, the two letters of the keyword and the closing brace become blank, and nothing else. */
  lemma EscapeIsUnwrapped(e: Escape)
    requires e.Ok()
    ensures |e.Text()| == e.Close() + 1 + |e.after|
    ensures Rewritten(e.Text())
         == e.Text()[|e.before| := ' '][e.Keyword() := ' '][e.Keyword() + 1 := ' '][e.Close() := ' ']
  {
    var s, ts := e.Text(), CodeBraces(e.Text());
    Layout(e);
    EscapeTokens(e);
    BlankedIsByTokens(s, 0, Code, []);
    assert ts[1..] == [Close(e.Close())] && ts[1..][1..] == [];
    assert BlankedBy(ts[1..], [true]) == {e.Close()};
    assert Blanked(s, 0, Code, []) == {|e.before|, e.Keyword(), e.Keyword() + 1, e.Close()};
  }
}

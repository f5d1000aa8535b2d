/**
 The text of the WHERE clause of a positioned statement: quoted names, escaped literals, and the
 conditions with AND between them.
 */
module ClauseText {
  import opened OdbcCodes
  import opened Conversions
  import opened TimeText
  import opened PositionedRows

  /**
   The connection's character set, one in which the bytes of a longer character are all above 127; it
   tells which of them only look like the start of a character.
   */
  datatype Charset = Charset(looksLikeStart: (string, nat) -> bool) {
    predicate Stray(data: string, k: nat) {
      k < |data| && data[k] as int >= 128 && looksLikeStart(data, k)
    }
  }

  /** What a byte becomes in a literal. */
  function EscapedByte(c: char, stray: bool): string {
    if c == '\'' then "''"
    else if stray then ['\\', c]
    else if c == '\0' then "\\0"
    else if c == '\n' then "\\n"
    else if c == '\r' then "\\r"
    else if c == '\\' || c == '"' then ['\\', c]
    else if c == 26 as char then "\\Z"
    else [c]
  }

  /** The escapes one by one; every other byte stands for itself. */
  lemma EscapesSpelled(c: char)
    ensures EscapedByte('\'', false) == "''" && EscapedByte('"', false) == "\\\""
    ensures EscapedByte('\\', false) == "\\\\" && EscapedByte('\0', false) == "\\0"
    ensures EscapedByte('\n', false) == "\\n" && EscapedByte('\r', false) == "\\r"
    ensures EscapedByte(26 as char, false) == "\\Z"
    ensures EscapedByte(c, false) != [c] <==> c in "'\"\\\0\n\r" || c as int == 26
    ensures c != '\'' ==> EscapedByte(c, true) == "\\" + [c]
  {
  }

  /** The bytes of the literal from the k-th byte of the value on. */
  function Escaped(data: string, k: nat, cs: Charset): string
    decreases |data| - k
  {
    if k >= |data| then "" else EscapedByte(data[k], cs.Stray(data, k)) + Escaped(data, k + 1, cs)
  }

  /** The character written behind a backslash, or as the second of two quotes, in the place of c; zero for none. */
  method ChooseEscape(c: char, stray: bool) returns (escape: char)
    requires stray ==> c != '\0'
    ensures EscapedByte(c, stray)
         == if escape == '\0' then [c] else [if escape == '\'' then '\'' else '\\', escape]
  {
    escape := '\0';
    if c == '\'' {
      escape := '\'';
    } else if stray {
      escape := c;
    } else {
      match c {
        case '\0' => escape := '0';
        case '\n' => escape := 'n';
        case '\r' => escape := 'r';
        case '\\' => escape := '\\';
        case '"' => escape := '"';
        case _ => escape := if c == 26 as char then 'Z' else '\0';
      }
    }
  }

  /** myodbc_escape_string for a literal. */
  method EscapeString(data: string, cs: Charset) returns (to: string)
    ensures to == Escaped(data, 0, cs)
  {
    to := "";
    for k := 0 to |data|
      invariant to + Escaped(data, k, cs) == Escaped(data, 0, cs)
    {
      var escape := ChooseEscape(data[k], cs.Stray(data, k));
      ghost var before := to;
      if escape != '\0' {
        to := to + [if escape == '\'' then '\'' else '\\', escape];
      } else {
        to := to + [data[k]];
      }
      OneMoreByte(before, to, data, k, cs);
    }
  }

  lemma OneMoreByte(before: string, to: string, data: string, k: nat, cs: Charset)
    requires k < |data| && to == before + EscapedByte(data[k], cs.Stray(data, k))
    ensures to + Escaped(data, k + 1, cs) == before + Escaped(data, k, cs)
  {
  }

  /** myodbc_append_quoted_name_std, which does not look into the name. */
  function QuotedName(name: string): string {
    "`" + name + "`"
  }

  /** A number loses its thousands separators, and is 0 if nothing is left. */
  function NumberText(data: string): string {
    var digits := WithoutCommas(data);
    if digits == "" then "0" else digits
  }

  function WithoutCommas(data: string): string {
    if data == "" then "" else (if data[0] == ',' then "" else [data[0]]) + WithoutCommas(data[1..])
  }

  /** Exactly the commas are gone. */
  lemma {:induction false} CommasGo(data: string)
    ensures ',' !in WithoutCommas(data)
    ensures ',' !in data ==> WithoutCommas(data) == data
    decreases |data|
  {
    if data != "" {
      CommasGo(data[1..]);
      assert data == [data[0]] + data[1..];
    }
  }

  lemma {:induction false} OtherBytesStay(data: string, more: string)
    ensures WithoutCommas(data + more) == WithoutCommas(data) + WithoutCommas(more)
    decreases |data|
  {
    if data == "" {
      assert data + more == more;
    } else {
      assert (data + more)[1..] == data[1..] + more;
      OtherBytesStay(data[1..], more);
    }
  }

  method LocaleNumber(data: string) returns (to: string)
    ensures to == NumberText(data)
  {
    to := "";
    for k := 0 to |data|
      invariant to + WithoutCommas(data[k..]) == WithoutCommas(data)
    {
      assert data[k..][0] == data[k] && data[k..][1..] == data[k + 1..];
      if data[k] != ',' {
        to := to + [data[k]];
      }
    }
    if to == "" {
      to := "0";
    }
  }

  /** The text insert_param writes for a value of a column; None is a refusal. */
  function LiteralOf(kind: Kind, data: string, cs: Charset): Option<string> {
    LiteralWith(kind, data, Converted(data), cs)
  }

  /** The same, given the time of day a TIME value is converted to. */
  function LiteralWith(kind: Kind, data: string, clock: Option<string>, cs: Charset): Option<string> {
    match kind
    case Bit => Some("")
    case Time(_) => if clock == None then None else Some("'" + clock.value + "'")
    case Floating => Some(NumberText(data))
    case Binary => Some("_binary'" + Escaped(data, 0, cs) + "'")
    case Plain => Some("'" + Escaped(data, 0, cs) + "'")
  }

  /** A refused literal is a refused condition. */
  lemma RefusedLiteral(ty: Typing, t: Term, cs: Charset)
    requires t.value.Some?
    ensures IsRefused(ty, t) <==> LiteralOf(ty.kind(t.column), BeforeNul(t.value.value), cs) == None
  {
  }

  /** A condition on a column: equal to a literal, or NULL. */
  function NamedLiteral(name: string, literal: Option<string>): string {
    QuotedName(name) + match literal case None => " IS NULL" case Some(x) => "=" + x
  }

  /** One condition of the clause, if its literal is not refused. */
  function TermText(ty: Typing, t: Term, cs: Charset): string {
    NamedLiteral(t.column,
                 if t.value == None then None else LiteralOf(ty.kind(t.column), BeforeNul(t.value.value), cs))
  }

  /** The first n conditions with AND between them. */
  function AndOf(ty: Typing, terms: seq<Term>, n: nat, cs: Charset): string
    requires n <= |terms|
  {
    if n == 0 then ""
    else if n == 1 then TermText(ty, terms[0], cs)
    else AndOf(ty, terms, n - 1, cs) + " AND " + TermText(ty, terms[n - 1], cs)
  }

  lemma Snoc(s: string, c: char)
    ensures (s + [c])[..|s|] == s
  {
  }

  /** strlen. */
  method CLength(s: string) returns (n: nat)
    ensures n <= |s| && s[..n] == BeforeNul(s)
  {
    n := 0;
    while n < |s| && s[n] != '\0'
      invariant 0 <= n <= |s|
      invariant '\0' !in s[..n]
    {
      n := n + 1;
    }
    BeforeFirstNul(s, n);
  }

  lemma {:induction false} BeforeFirstNul(s: string, n: nat)
    requires n <= |s| && '\0' !in s[..n] && (n < |s| ==> s[n] == '\0')
    ensures BeforeNul(s) == s[..n]
    decreases n
  {
    if n > 0 {
      assert s[..n][0] == s[0] && s[1..][..n - 1] == s[..n][1..];
      BeforeFirstNul(s[1..], n - 1);
    }
  }

  /** insert_param for text without a bind. */
  method InsertParam(kind: Kind, data: string, cs: Charset) returns (text: Option<string>)
    ensures text == LiteralOf(kind, data, cs)
  {
    match kind {
      case Bit =>
        return Some("");
      case Time(_) =>
        var clock := ConvertTime(data);
        return if clock == None then None else Some("'" + clock.value + "'");
      case Floating =>
        var number := LocaleNumber(data);
        return Some(number);
      case _ =>
        var introducer := if kind == Binary then "_binary" else "";
        var escaped := EscapeString(data, cs);
        WithIntroducer(escaped);
        return Some(introducer + "'" + escaped + "'");
    }
  }

  lemma WithIntroducer(escaped: string)
    ensures "_binary" + "'" + escaped + "'" == "_binary'" + escaped + "'"
    ensures "" + "'" + escaped + "'" == "'" + escaped + "'"
  {
    assert "_binary" + "'" == "_binary'" && "" + "'" == "'";
  }

  /** insert_field_std behind the quoted name: the value, or the equals sign taken back for IS NULL. */
  method AppendTerm(ty: Typing, str: string, t: Term, cs: Charset) returns (str': Option<string>)
    ensures str' == if IsRefused(ty, t) then None else Some(str + TermText(ty, t, cs) + " AND ")
  {
    var s := str + QuotedName(t.column);
    Snoc(s, '=');
    s := s + "=";
    match t.value
    case Some(v) =>
      var length := CLength(v);
      RefusedLiteral(ty, t, cs);
      var text := InsertParam(ty.kind(t.column), v[..length], cs);
      if text == None {
        return None;
      }
      TermPieces(str, QuotedName(t.column), "=", text.value);
      str' := Some(s + text.value + " AND ");
    case None =>
      TermPieces(str, QuotedName(t.column), "", " IS NULL");
      str' := Some(s[..|s| - 1] + (" IS NULL" + " AND "));
  }

  lemma TermPieces(str: string, name: string, sign: string, text: string)
    ensures (str + name + sign) + text + " AND " == str + (name + (sign + text)) + " AND "
    ensures sign == "" ==> (str + name) + (text + " AND ") == str + (name + text) + " AND "
  {
  }

  /** One row, or for row number 0 as many as the rowset has. */
  function LimitOf(irow: nat, rowset: nat): string {
    if irow == 0 then Numeral(rowset, 10, false) else "1"
  }

  /** The clause for a row number: the conditions and the limit. */
  function Clause(ty: Typing, terms: seq<Term>, irow: nat, rowset: nat, cs: Charset): string {
    " WHERE " + AndOf(ty, terms, |terms|, cs) + " LIMIT " + LimitOf(irow, rowset)
  }

  /**
   build_where_clause_std once the terms are known: a clause with AND only between the conditions; None
   if a literal is refused.
   */
  method BuildWhere(ty: Typing, query: string, terms: seq<Term>, irow: nat, rowset: nat, cs: Charset)
    returns (str: Option<string>)
    requires terms != []
    ensures str.None? <==> exists i :: 0 <= i < |terms| && IsRefused(ty, terms[i])
    ensures str.Some? ==> str.value == query + Clause(ty, terms, irow, rowset, cs)
  {
    var s := AppendTerms(ty, query + " WHERE ", terms, cs);
    WrittenIfNotRefused(ty, query + " WHERE ", terms, |terms|, cs);
    if s == None {
      return None;
    }
    WrittenIs(ty, query + " WHERE ", terms, |terms|, cs);
    str := Some(Finish(query, s.value, irow, rowset, AndOf(ty, terms, |terms|, cs)));
  }

  /** Erases the last AND and appends the limit. */
  function Finish(query: string, s: string, irow: nat, rowset: nat, ghost conditions: string): (str: string)
    requires s == query + " WHERE " + conditions + " AND "
    ensures str == query + (" WHERE " + conditions + " LIMIT " + LimitOf(irow, rowset))
  {
    LastAndErased(query + " WHERE " + conditions);
    ClauseBehind(query, conditions, " LIMIT " + LimitOf(irow, rowset));
    s[..|s| - 5] + (" LIMIT " + LimitOf(irow, rowset))
  }

  /** Appends the conditions, each with an AND behind it; None if a literal is refused. */
  method AppendTerms(ty: Typing, front: string, terms: seq<Term>, cs: Charset) returns (str: Option<string>)
    ensures str == Written(ty, front, terms, |terms|, cs)
  {
    str := Some(front);
    var i := 0;
    while i < |terms| && str.Some?
      invariant 0 <= i <= |terms|
      invariant str == Written(ty, front, terms, i, cs)
      invariant str == None ==> Written(ty, front, terms, |terms|, cs) == None
    {
      var more := AppendTerm(ty, str.value, terms[i], cs);
      if more == None {
        StaysRefused(ty, front, terms, i + 1, |terms|, cs);
      }
      str, i := more, i + 1;
    }
  }

  /** The text after i conditions, each with an AND behind it; None once one is refused. */
  ghost function Written(ty: Typing, front: string, terms: seq<Term>, i: nat, cs: Charset): Option<string>
    requires i <= |terms|
  {
    if i == 0 then Some(front)
    else
      match Written(ty, front, terms, i - 1, cs)
      case None => None
      case Some(s) =>
        if IsRefused(ty, terms[i - 1]) then None else Some(s + TermText(ty, terms[i - 1], cs) + " AND ")
  }

  lemma {:induction false} StaysRefused(ty: Typing, front: string, terms: seq<Term>, i: nat, n: nat, cs: Charset)
    requires i <= n <= |terms| && Written(ty, front, terms, i, cs) == None
    ensures Written(ty, front, terms, n, cs) == None
    decreases n
  {
    if i < n {
      StaysRefused(ty, front, terms, i, n - 1, cs);
    }
  }

  /** Nothing is written exactly if a condition is refused. */
  lemma {:induction false} WrittenIfNotRefused(ty: Typing, front: string, terms: seq<Term>, i: nat, cs: Charset)
    requires i <= |terms|
    ensures Written(ty, front, terms, i, cs) == None <==> exists k :: 0 <= k < i && IsRefused(ty, terms[k])
  {
    if i > 0 {
      WrittenIfNotRefused(ty, front, terms, i - 1, cs);
    }
  }

  /** Otherwise all conditions are. */
  lemma {:induction false} WrittenIs(ty: Typing, front: string, terms: seq<Term>, i: nat, cs: Charset)
    requires 0 < i <= |terms| && Written(ty, front, terms, i, cs) != None
    ensures Written(ty, front, terms, i, cs) == Some(front + AndOf(ty, terms, i, cs) + " AND ")
  {
    if i > 1 {
      WrittenIs(ty, front, terms, i - 1, cs);
      Regrouped(front, AndOf(ty, terms, i - 1, cs), TermText(ty, terms[i - 1], cs));
    }
  }

  lemma LastAndErased(s: string)
    ensures (s + " AND ")[..|s + " AND "| - 5] == s
  {
  }

  lemma ClauseBehind(query: string, terms: string, limit: string)
    ensures (query + " WHERE " + terms) + limit == query + (" WHERE " + terms + limit)
  {
  }

  lemma Regrouped(front: string, terms: string, t: string)
    ensures (front + terms + " AND ") + t + " AND " == front + (terms + " AND " + t) + " AND "
  {
  }
}

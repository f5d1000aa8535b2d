/**
 Client-side building of the query text: literals substituted at the recorded marker offsets, braces
 blanked around an embraced query, and parameter arrays of a SELECT joined by UNION ALL.
 */
module ParamText {
  import opened OdbcCodes
  import opened Tokenizer

  /**
   What converting one parameter gives: its literal, possibly with a warning, or a failure behind what
   has been written of it; a parameter may also not be bound at all.
   */
  datatype Literal = Literal(text: string, info: bool) | Failed(partial: string) | NotBound

  // ---------------------------------------------------------------- weaving

  /** The first i pieces, each followed by its literal. */
  function Woven(pieces: seq<string>, lits: seq<string>, i: nat): string
    requires i <= |pieces| && i <= |lits|
  {
    if i == 0 then "" else Woven(pieces, lits, i - 1) + (pieces[i - 1] + lits[i - 1])
  }

  /** Where the i-th piece starts. */
  function Offset(pieces: seq<string>, lits: seq<string>, i: nat): nat
    requires i <= |pieces| && i <= |lits|
  {
    if i == 0 then 0 else Offset(pieces, lits, i - 1) + |pieces[i - 1]| + |lits[i - 1]|
  }

  /** Pieces with the literals between them. */
  function Weave(pieces: seq<string>, lits: seq<string>): string
    requires |pieces| == |lits| + 1
  {
    Woven(pieces, lits, |lits|) + pieces[|lits|]
  }

  lemma {:induction false} WovenLength(pieces: seq<string>, lits: seq<string>, i: nat)
    requires i <= |pieces| && i <= |lits|
    ensures |Woven(pieces, lits, i)| == Offset(pieces, lits, i)
  {
    if i > 0 {
      WovenLength(pieces, lits, i - 1);
    }
  }

  lemma TakeOfSum(a: string, b: string, k: nat)
    requires k <= |a|
    ensures (a + b)[..k] == a[..k]
  {
  }

  lemma SlicesOfSum(a: string, b: string, c: string)
    ensures (a + (b + c))[|a|..|a| + |b|] == b
    ensures (a + (b + c))[|a| + |b|..|a| + |b| + |c|] == c
  {
  }

  /** A text that starts with a woven part has the same slices there. */
  lemma {:induction false} WovenPrefix(pieces: seq<string>, lits: seq<string>, i: nat, j: nat)
    requires i <= j <= |pieces| && j <= |lits|
    ensures |Woven(pieces, lits, i)| <= |Woven(pieces, lits, j)|
    ensures Woven(pieces, lits, j)[..|Woven(pieces, lits, i)|] == Woven(pieces, lits, i)
    decreases j
  {
    if i < j {
      WovenPrefix(pieces, lits, i, j - 1);
      TakeOfSum(Woven(pieces, lits, j - 1), pieces[j - 1] + lits[j - 1], |Woven(pieces, lits, i)|);
    }
  }

  lemma WeavePrefix(pieces: seq<string>, lits: seq<string>, i: nat)
    requires |pieces| == |lits| + 1 && i <= |lits|
    ensures Offset(pieces, lits, i) <= |Weave(pieces, lits)|
    ensures Weave(pieces, lits)[..Offset(pieces, lits, i)] == Woven(pieces, lits, i)
  {
    WovenLength(pieces, lits, i);
    WovenPrefix(pieces, lits, i, |lits|);
    TakeOfSum(Woven(pieces, lits, |lits|), pieces[|lits|], Offset(pieces, lits, i));
  }

  lemma SliceOfTake(s: string, k: nat, a: nat, b: nat)
    requires a <= b <= k <= |s|
    ensures s[a..b] == s[..k][a..b]
  {
  }

  /** The i-th piece and the i-th literal stand one behind the other at the i-th offset. */
  lemma PieceAt(pieces: seq<string>, lits: seq<string>, i: nat)
    requires |pieces| == |lits| + 1 && i < |lits|
    ensures var r, at, mid := Weave(pieces, lits), Offset(pieces, lits, i), Offset(pieces, lits, i) + |pieces[i]|;
            && mid + |lits[i]| <= |r|
            && r[at..mid] == pieces[i]
            && r[mid..mid + |lits[i]|] == lits[i]
  {
    var r, at := Weave(pieces, lits), Offset(pieces, lits, i);
    var mid, end := at + |pieces[i]|, Offset(pieces, lits, i + 1);
    WovenLength(pieces, lits, i);
    WeavePrefix(pieces, lits, i + 1);
    SlicesOfSum(Woven(pieces, lits, i), pieces[i], lits[i]);
    SliceOfTake(r, end, at, mid);
    SliceOfTake(r, end, mid, end);
  }

  lemma LastPiece(pieces: seq<string>, lits: seq<string>)
    requires |pieces| == |lits| + 1
    ensures var r, at := Weave(pieces, lits), Offset(pieces, lits, |lits|);
            at <= |r| && r[at..] == pieces[|lits|]
  {
    WovenLength(pieces, lits, |lits|);
  }

  // ---------------------------------------------------------------- substitution at offsets

  /** Offsets of markers in the query, in increasing order. */
  ghost predicate MarkersOf(q: string, ms: seq<nat>) {
    && (forall i :: 0 <= i < |ms| ==> ms[i] < |q| && q[ms[i]] == '?')
    && (forall i, j :: 0 <= i < j < |ms| ==> ms[i] < ms[j])
  }

  /** Where the query continues behind its first i markers. */
  function Behind(ms: seq<nat>, i: nat): nat
    requires i <= |ms|
  {
    if i == 0 then 0 else ms[i - 1] + 1
  }

  function PieceEnd(q: string, ms: seq<nat>, i: nat): nat
    requires i <= |ms|
  {
    if i < |ms| then ms[i] else |q|
  }

  /** The parts of the query between its markers. */
  function Pieces(q: string, ms: seq<nat>): (ps: seq<string>)
    requires MarkersOf(q, ms)
    ensures |ps| == |ms| + 1
  {
    seq(|ms| + 1, i requires 0 <= i < |ms| + 1 && MarkersOf(q, ms) => q[Behind(ms, i)..PieceEnd(q, ms, i)])
  }

  /** The query with the i-th marker replaced by the i-th literal. */
  function Substituted(q: string, ms: seq<nat>, lits: seq<string>): string
    requires MarkersOf(q, ms) && |lits| == |ms|
  {
    Weave(Pieces(q, ms), lits)
  }

  /** One marker for each parameter. */
  function Marks(n: nat): (ls: seq<string>)
    ensures |ls| == n
  {
    seq(n, _ => "?")
  }

  lemma TakeGrows(q: string, a: nat, b: nat)
    requires a <= b < |q| && q[b] == '?'
    ensures q[..b + 1] == q[..a] + (q[a..b] + "?")
  {
  }

  lemma {:induction false} MarksRecoverPrefix(q: string, ms: seq<nat>, i: nat)
    requires MarkersOf(q, ms) && i <= |ms|
    ensures Woven(Pieces(q, ms), Marks(|ms|), i) == q[..Behind(ms, i)]
  {
    if i > 0 {
      MarksRecoverPrefix(q, ms, i - 1);
      TakeGrows(q, Behind(ms, i - 1), ms[i - 1]);
    }
  }

  /**
   Putting the markers back recovers the query: it is the weaving of the same pieces with markers in
   the places of the literals.
   */
  lemma MarkersPutBack(q: string, ms: seq<nat>)
    requires MarkersOf(q, ms)
    ensures Substituted(q, ms, Marks(|ms|)) == q
  {
    MarksRecoverPrefix(q, ms, |ms|);
    assert q == q[..Behind(ms, |ms|)] + q[Behind(ms, |ms|)..];
  }

  /** How much longer the first i literals are than their markers. */
  function Growth(lits: seq<string>, i: nat): int
    requires i <= |lits|
  {
    if i == 0 then 0 else Growth(lits, i - 1) + |lits[i - 1]| - 1
  }

  lemma {:induction false} OffsetIsGrowth(q: string, ms: seq<nat>, lits: seq<string>, i: nat)
    requires MarkersOf(q, ms) && |lits| == |ms| && i <= |ms|
    ensures Offset(Pieces(q, ms), lits, i) == Behind(ms, i) + Growth(lits, i)
  {
    if i > 0 {
      OffsetIsGrowth(q, ms, lits, i - 1);
    }
  }

  /** The i-th literal stands where the i-th marker stood, moved by the growth of the literals before it. */
  lemma LiteralsPlaced(q: string, ms: seq<nat>, lits: seq<string>, i: nat)
    requires MarkersOf(q, ms) && |lits| == |ms| && i < |ms|
    ensures var at, r := ms[i] + Growth(lits, i), Substituted(q, ms, lits);
            0 <= at <= at + |lits[i]| <= |r| && r[at..at + |lits[i]|] == lits[i]
  {
    OffsetIsGrowth(q, ms, lits, i);
    LiteralAt(Pieces(q, ms), lits, i, Substituted(q, ms, lits), ms[i] + Growth(lits, i));
  }

  lemma LiteralAt(pieces: seq<string>, lits: seq<string>, i: nat, r: string, at: int)
    requires |pieces| == |lits| + 1 && i < |lits| && r == Weave(pieces, lits)
    requires at == Offset(pieces, lits, i) + |pieces[i]|
    ensures 0 <= at <= at + |lits[i]| <= |r| && r[at..at + |lits[i]|] == lits[i]
  {
    PieceAt(pieces, lits, i);
  }

  lemma ByteOfSlice(r: string, q: string, a: nat, b: nat, c: nat, d: nat, k: nat)
    requires a <= b <= |r| && c <= d <= |q| && r[a..b] == q[c..d] && c <= k < d
    ensures a + k - c < |r| && r[a + k - c] == q[k]
  {
    assert r[a..b][k - c] == q[c..d][k - c];
  }

  /** A byte with i markers before it, and no marker itself, is kept and moved by their growth. */
  lemma BytesKept(q: string, ms: seq<nat>, lits: seq<string>, k: nat, i: nat)
    requires MarkersOf(q, ms) && |lits| == |ms| && k < |q|
    requires i <= |ms| && Behind(ms, i) <= k && (i < |ms| ==> k < ms[i])
    ensures var at := k + Growth(lits, i);
            0 <= at < |Substituted(q, ms, lits)| && Substituted(q, ms, lits)[at] == q[k]
  {
    OffsetIsGrowth(q, ms, lits, i);
    PieceKept(q, ms, lits, i);
    var at := Offset(Pieces(q, ms), lits, i);
    ByteOfSlice(Substituted(q, ms, lits), q, at, at + PieceEnd(q, ms, i) - Behind(ms, i), Behind(ms, i),
                PieceEnd(q, ms, i), k);
  }

  /** The part of the query behind its first i markers is found at the i-th offset. */
  lemma PieceKept(q: string, ms: seq<nat>, lits: seq<string>, i: nat)
    requires MarkersOf(q, ms) && |lits| == |ms| && i <= |ms|
    ensures var r, at, end := Substituted(q, ms, lits), Offset(Pieces(q, ms), lits, i), PieceEnd(q, ms, i);
            && Behind(ms, i) <= end <= |q|
            && at + end - Behind(ms, i) <= |r|
            && r[at..at + end - Behind(ms, i)] == q[Behind(ms, i)..end]
  {
    if i < |ms| {
      PieceAt(Pieces(q, ms), lits, i);
    } else {
      LastPiece(Pieces(q, ms), lits);
    }
  }

  /** Nothing else is in the built text. */
  lemma SubstitutedLength(q: string, ms: seq<nat>, lits: seq<string>)
    requires MarkersOf(q, ms) && |lits| == |ms|
    ensures |Substituted(q, ms, lits)| == |q| + Growth(lits, |ms|)
  {
    OffsetIsGrowth(q, ms, lits, |ms|);
    WovenLength(Pieces(q, ms), lits, |ms|);
  }

  /** The tokenizer's offsets are markers of its query in this sense. */
  lemma TokenizerGivesMarkers(t: Text)
    ensures MarkersOf(t.bytes, Markers(t, 0, Code))
  {
    MarkersAreExact(t, 0, Code);
  }

  // ---------------------------------------------------------------- insert_params

  function Texts(ls: seq<Literal>): (ts: seq<string>)
    ensures |ts| == |ls|
  {
    seq(|ls|, i requires 0 <= i < |ls| => if ls[i].Literal? then ls[i].text else "")
  }

  predicate AllUsable(ls: seq<Literal>) {
    forall i :: 0 <= i < |ls| ==> ls[i].Literal?
  }

  /** The first parameter from i on that cannot be used. */
  function FirstUnusable(ls: seq<Literal>, i: nat): (k: nat)
    requires i <= |ls|
    ensures i <= k <= |ls|
    ensures k < |ls| ==> !ls[k].Literal?
    ensures forall j :: i <= j < k ==> ls[j].Literal?
    decreases |ls| - i
  {
    if i < |ls| && ls[i].Literal? then FirstUnusable(ls, i + 1) else i
  }

  /** What a set of parameters leaves in the buffer. */
  function Appended(q: string, ms: seq<nat>, ls: seq<Literal>): string
    requires MarkersOf(q, ms) && |ls| == |ms|
  {
    var k, pieces := FirstUnusable(ls, 0), Pieces(q, ms);
    if k == |ls| then Substituted(q, ms, Texts(ls))
    else Woven(pieces, Texts(ls), k) + if ls[k].Failed? then pieces[k] + ls[k].partial else ""
  }

  /** What a parameter that cannot be used leaves: the query up to it with its literals, and what it wrote itself. */
  lemma LeftBehind(q: string, ms: seq<nat>, ls: seq<Literal>, k: nat)
    requires MarkersOf(q, ms) && |ls| == |ms| && k < |ls| && k == FirstUnusable(ls, 0)
    ensures MarkersOf(q[..ms[k]], ms[..k]) && MarkersOf(q[..Behind(ms, k)], ms[..k])
    ensures Appended(q, ms, ls) ==
            if ls[k].Failed? then Substituted(q[..ms[k]], ms[..k], Texts(ls)[..k]) + ls[k].partial
            else Substituted(q[..Behind(ms, k)], ms[..k], Texts(ls)[..k])
  {
    SamePieces(q, ms, Texts(ls), k, ms[k]);
    SamePieces(q, ms, Texts(ls), k, Behind(ms, k));
    LeftTexts(Woven(Pieces(q, ms), Texts(ls), k), q[Behind(ms, k)..ms[k]], if ls[k].Failed? then ls[k].partial else "");
    assert Pieces(q, ms)[k] == q[Behind(ms, k)..ms[k]];
  }

  lemma LeftTexts(woven: string, piece: string, partial: string)
    ensures woven + (piece + partial) == (woven + piece) + partial && woven + "" == woven
  {
  }

  /** The query cut somewhere behind its first k markers, and before the next. */
  lemma SamePieces(q: string, ms: seq<nat>, lits: seq<string>, k: nat, end: nat)
    requires MarkersOf(q, ms) && |lits| == |ms| && k < |ms| && Behind(ms, k) <= end <= ms[k]
    ensures MarkersOf(q[..end], ms[..k])
    ensures Substituted(q[..end], ms[..k], lits[..k]) == Woven(Pieces(q, ms), lits, k) + q[Behind(ms, k)..end]
  {
    MarkersStay(q, ms, k, end);
    SameWoven(q, ms, lits, k, end);
    CutPiece(q, ms, k, end);
  }

  lemma CutPiece(q: string, ms: seq<nat>, k: nat, end: nat)
    requires MarkersOf(q, ms) && k < |ms| && Behind(ms, k) <= end <= ms[k] && MarkersOf(q[..end], ms[..k])
    ensures Pieces(q[..end], ms[..k])[k] == q[Behind(ms, k)..end]
  {
    assert Behind(ms[..k], k) == Behind(ms, k);
  }

  lemma SameWoven(q: string, ms: seq<nat>, lits: seq<string>, k: nat, end: nat)
    requires MarkersOf(q, ms) && |lits| == |ms| && k < |ms| && Behind(ms, k) <= end <= ms[k]
    requires MarkersOf(q[..end], ms[..k])
    ensures Woven(Pieces(q[..end], ms[..k]), lits[..k], k) == Woven(Pieces(q, ms), lits, k)
  {
    forall i: nat | i < k
      ensures Pieces(q[..end], ms[..k])[i] == Pieces(q, ms)[i]
    {
      SamePiece(q, ms, k, end, i);
    }
    WovenOfSame(Pieces(q[..end], ms[..k]), Pieces(q, ms), lits[..k], lits, k);
  }

  lemma {:induction false} WovenOfSame(ps: seq<string>, qs: seq<string>, ls: seq<string>, ms: seq<string>, i: nat)
    requires i <= |ps| && i <= |qs| && i <= |ls| && i <= |ms|
    requires forall j :: 0 <= j < i ==> ps[j] == qs[j] && ls[j] == ms[j]
    ensures Woven(ps, ls, i) == Woven(qs, ms, i)
  {
    if i > 0 {
      WovenOfSame(ps, qs, ls, ms, i - 1);
    }
  }

  lemma MarkersStay(q: string, ms: seq<nat>, k: nat, end: nat)
    requires MarkersOf(q, ms) && k < |ms| && Behind(ms, k) <= end <= ms[k]
    ensures MarkersOf(q[..end], ms[..k])
  {
  }

  lemma SamePiece(q: string, ms: seq<nat>, k: nat, end: nat, i: nat)
    requires MarkersOf(q, ms) && i < k < |ms| && Behind(ms, k) <= end <= ms[k]
    requires MarkersOf(q[..end], ms[..k])
    ensures Pieces(q[..end], ms[..k])[i] == Pieces(q, ms)[i]
  {
    assert Behind(ms[..k], i) == Behind(ms, i);
  }

  predicate SomeInfo(ls: seq<Literal>) {
    exists i :: 0 <= i < |ls| && ls[i].Literal? && ls[i].info
  }

  /** The statement's append-only text buffer. */
  class Buffer {
    var text: string

    constructor ()
      ensures text == ""
    {
      text := "";
    }

    method Add(s: string)
      modifies this
      ensures text == old(text) + s
    {
      text := text + s;
    }
  }

  /**
   insert_params on the client side: appends the query with its literals to the buffer; the query to
   send is then the whole buffer. The first parameter that cannot be used stops it, and what has been
   appended by then stays.
   */
  method InsertParams(query: string, ms: seq<nat>, ls: seq<Literal>, buf: Buffer) returns (rc: Ret, final: string)
    requires MarkersOf(query, ms) && |ls| == |ms|
    modifies buf
    ensures rc == if !AllUsable(ls) then Error else if SomeInfo(ls) then Info else Success
    ensures buf.text == old(buf.text) + Appended(query, ms, ls)
    ensures AllUsable(ls) ==> final == buf.text == old(buf.text) + Substituted(query, ms, Texts(ls))
  {
    ghost var before, pieces, texts := buf.text, Pieces(query, ms), Texts(ls);
    var k, hadInfo := InsertLiterals(query, ms, ls, buf);
    if k < |ms| {
      BufferedIs(before, pieces, texts, k, if ls[k].Failed? then pieces[k] + ls[k].partial else "");
      return Error, "";
    }
    BufferedIs(before, pieces, texts, k, pieces[k]);
    InfoBeforeIs(ls, k);
    buf.Add(query[Behind(ms, k)..]);
    rc, final := if hadInfo then Info else Success, buf.text;
  }

  /** The loop of insert_params, up to the first parameter that cannot be used. */
  method InsertLiterals(query: string, ms: seq<nat>, ls: seq<Literal>, buf: Buffer) returns (k: nat, hadInfo: bool)
    requires MarkersOf(query, ms) && |ls| == |ms|
    modifies buf
    ensures k == FirstUnusable(ls, 0)
    ensures hadInfo == InfoBefore(ls, k)
    ensures var pieces := Pieces(query, ms);
            var sum := Buffered(old(buf.text), pieces, Texts(ls), k);
            buf.text == if k < |ls| then sum + (if ls[k].Failed? then pieces[k] + ls[k].partial else "") else sum
  {
    k, hadInfo := 0, false;
    var from: nat := 0;
    ghost var before, pieces, texts := buf.text, Pieces(query, ms), Texts(ls);
    while k < |ms|
      invariant 0 <= k <= |ms| && FirstUnusable(ls, k) == FirstUnusable(ls, 0)
      invariant from == Behind(ms, k)
      invariant hadInfo == InfoBefore(ls, k)
      invariant buf.text == Buffered(before, pieces, texts, k)
    {
      var done := InsertParam(query, ms, ls, k, from, buf);
      if !done {
        return;
      }
      hadInfo := hadInfo || ls[k].info;
      from := ms[k] + 1;
      k := k + 1;
    }
  }

  /** One of the first i literals came with a warning. */
  ghost predicate InfoBefore(ls: seq<Literal>, i: nat)
    requires i <= |ls|
  {
    i > 0 && (InfoBefore(ls, i - 1) || (ls[i - 1].Literal? && ls[i - 1].info))
  }

  lemma {:induction false} InfoBeforeIs(ls: seq<Literal>, i: nat)
    requires i <= |ls|
    ensures InfoBefore(ls, i) <==> exists k :: 0 <= k < i && ls[k].Literal? && ls[k].info
  {
    if i > 0 {
      InfoBeforeIs(ls, i - 1);
    }
  }

  /** The buffer after i parameters. */
  ghost function Buffered(before: string, pieces: seq<string>, texts: seq<string>, i: nat): string
    requires i <= |pieces| && i <= |texts|
  {
    if i == 0 then before else Buffered(before, pieces, texts, i - 1) + (pieces[i - 1] + texts[i - 1])
  }

  lemma {:induction false} BufferedIs(before: string, pieces: seq<string>, texts: seq<string>, i: nat, rest: string)
    requires i <= |pieces| && i <= |texts|
    ensures Buffered(before, pieces, texts, i) + rest == before + (Woven(pieces, texts, i) + rest)
  {
    if i == 0 {
      assert "" + rest == rest;
    } else {
      var part := pieces[i - 1] + texts[i - 1];
      BufferedIs(before, pieces, texts, i - 1, part);
      AssociatesText(before, Woven(pieces, texts, i), rest);
    }
  }

  lemma AssociatesText(a: string, b: string, c: string)
    ensures (a + b) + c == a + (b + c)
  {
  }

  /** The loop body of insert_params: the text up to the marker, and the literal in its place. */
  method InsertParam(query: string, ms: seq<nat>, ls: seq<Literal>, i: nat, from: nat, buf: Buffer)
    returns (done: bool)
    requires MarkersOf(query, ms) && |ls| == |ms| && i < |ms| && from == Behind(ms, i)
    modifies buf
    ensures done == ls[i].Literal?
    ensures var pieces := Pieces(query, ms);
            match ls[i]
            case Literal(_, _) => buf.text == old(buf.text) + (pieces[i] + Texts(ls)[i])
            case Failed(partial) => buf.text == old(buf.text) + (pieces[i] + partial)
            case NotBound => buf.text == old(buf.text) + ""
  {
    if ls[i].NotBound? {
      return false;
    }
    ghost var before := buf.text;
    var written := if ls[i].Literal? then ls[i].text else ls[i].partial;
    buf.Add(query[from..ms[i]]);
    buf.Add(written);
    assert buf.text == before + (Pieces(query, ms)[i] + written);
    done := ls[i].Literal?;
  }

  /** A query prepared by the tokenizer and filled in from an empty buffer. */
  method BuildText(t: Text, ls: seq<Literal>) returns (rc: Ret, final: string)
    requires Sane(t) && |ls| == |Markers(t, 0, Code)|
    ensures MarkersOf(t.bytes, Markers(t, 0, Code))
    ensures rc == if !AllUsable(ls) then Error else if SomeInfo(ls) then Info else Success
    ensures AllUsable(ls) ==> final == Substituted(t.bytes, Markers(t, 0, Code), Texts(ls))
  {
    var parser := new Parser(t);
    parser.Tokenize();
    TokenizerGivesMarkers(t);
    var buf := new Buffer();
    rc, final := InsertParams(t.bytes, parser.params, ls, buf);
  }

  // ---------------------------------------------------------------- remove_braces

  /** The query is embraced: its first token is an opening brace and its last character a closing one. */
  predicate Embraced(q: string, tokens: seq<nat>, lastChar: Option<nat>)
    requires forall k :: 0 <= k < |tokens| ==> tokens[k] < |q|
    requires lastChar.Some? ==> lastChar.value < |q|
  {
    tokens != [] && lastChar.Some? && q[tokens[0]] == '{' && q[lastChar.value] == '}'
  }

  /** remove_braces: blanks the braces around an embraced query, and drops the tokens they were. */
  method RemoveBraces(query: array<char>, tokens: seq<nat>, lastChar: Option<nat>)
    returns (removed: bool, tokens': seq<nat>)
    requires forall k :: 0 <= k < |tokens| ==> tokens[k] < query.Length
    requires lastChar.Some? ==> lastChar.value < query.Length
    modifies query
    ensures removed <==>
            && tokens != [] && lastChar.Some?
            && old(query[..])[tokens[0]] == '{' && old(query[..])[lastChar.value] == '}'
    ensures query[..] == if removed then old(query[..])[tokens[0] := ' '][lastChar.value := ' '] else old(query[..])
    ensures !removed ==> tokens' == tokens
    ensures removed ==>
              tokens' == if |tokens| > 1 && tokens[|tokens| - 1] == lastChar.value then tokens[1..|tokens| - 1]
                         else tokens[1..]
  {
    removed, tokens' := false, tokens;
    if |tokens| > 0 {
      var token := tokens[0];
      if query[token] == '{' && lastChar.Some? && query[lastChar.value] == '}' {
        query[token] := ' ';
        query[lastChar.value] := ' ';
        tokens' := tokens[1..];
        if |tokens'| > 0 && tokens'[|tokens'| - 1] == lastChar.value {
          tokens' := tokens'[..|tokens'| - 1];
        }
        removed := true;
      }
    }
  }

  /** The recorded offsets stay good: no marker is touched, moved or added, and no other byte changes. */
  lemma OffsetsSurviveBraces(q: string, ms: seq<nat>, tokens: seq<nat>, lastChar: Option<nat>)
    requires forall k :: 0 <= k < |tokens| ==> tokens[k] < |q|
    requires lastChar.Some? ==> lastChar.value < |q|
    requires Embraced(q, tokens, lastChar) && MarkersOf(q, ms)
    ensures var q' := q[tokens[0] := ' '][lastChar.value := ' '];
            && MarkersOf(q', ms)
            && Substituted(q', ms, Marks(|ms|)) == q'
            && forall k :: 0 <= k < |q| ==> (q'[k] == '?' <==> q[k] == '?')
  {
    MarkersPutBack(q[tokens[0] := ' '][lastChar.value := ' '], ms);
  }

  // ---------------------------------------------------------------- SELECT parameter arrays

  /** One set of an array of parameters. */
  datatype SelectSet = Ignored | Bound(literals: seq<Literal>)

  ghost predicate GoodSets(ms: seq<nat>, sets: seq<SelectSet>) {
    forall k :: 0 <= k < |sets| && sets[k].Bound? ==> |sets[k].literals| == |ms| && AllUsable(sets[k].literals)
  }

  /** The texts of the first n sets that are not ignored. */
  function UsedTexts(q: string, ms: seq<nat>, sets: seq<SelectSet>, n: nat): seq<string>
    requires MarkersOf(q, ms) && GoodSets(ms, sets) && n <= |sets|
  {
    if n == 0 then []
    else
      UsedTexts(q, ms, sets, n - 1) +
      (if sets[n - 1].Ignored? then [] else [Substituted(q, ms, Texts(sets[n - 1].literals))])
  }

  const BINDER := " UNION ALL "

  function UnionOf(texts: seq<string>): string {
    if texts == [] then ""
    else if |texts| == 1 then texts[0]
    else UnionOf(texts[..|texts| - 1]) + BINDER + texts[|texts| - 1]
  }

  /** What the buffer holds while further sets are to come: every text followed by the binder. */
  function Open(texts: seq<string>): string {
    if texts == [] then "" else UnionOf(texts) + BINDER
  }

  /** Where the k-th text starts in the joined text. */
  function TextStart(texts: seq<string>, k: nat): nat
    requires k <= |texts|
  {
    if k == 0 then 0 else TextStart(texts, k - 1) + |texts[k - 1]| + 11
  }

  /** The text t stands at this place, with UNION ALL behind it unless it ends the whole. */
  predicate SelectAt(all: string, at: nat, t: string, last: bool) {
    && at + |t| <= |all|
    && all[at..at + |t|] == t
    && if last then at + |t| == |all| else at + |t| + 11 <= |all| && all[at + |t|..at + |t| + 11] == " UNION ALL "
  }

  /** Every text stands in the executed one, in order, and between them there is UNION ALL. */
  lemma {:induction false} UnionSpelled(texts: seq<string>, k: nat)
    requires k < |texts|
    ensures |UnionOf(texts)| + 11 == TextStart(texts, |texts|)
    ensures SelectAt(UnionOf(texts), TextStart(texts, k), texts[k], k + 1 == |texts|)
    decreases |texts|
  {
    var n := |texts| - 1;
    var front := texts[..n];
    StartOfFront(texts, n, n);
    StartOfFront(texts, n, if k < n then k else n);
    if n > 0 {
      UnionSpelled(front, if k < n then k else 0);
      LongerUnion(UnionOf(front), texts[n], TextStart(texts, k), texts[k], k < n, k + 1 == n);
    } else {
      assert TextStart(texts, 1) == TextStart(texts, 0) + |texts[0]| + 11;
    }
  }

  lemma LongerUnion(front: string, t: string, at: nat, s: string, inFront: bool, lastInFront: bool)
    requires if inFront then SelectAt(front, at, s, lastInFront) else at == |front| + 11 && s == t
    ensures SelectAt(front + " UNION ALL " + t, at, s, !inFront)
  {
    var all := front + " UNION ALL " + t;
    if inFront {
      assert all[at..at + |s|] == front[at..at + |s|];
      if lastInFront {
        assert all[at + |s|..at + |s| + 11] == " UNION ALL ";
      } else {
        assert all[at + |s|..at + |s| + 11] == front[at + |s|..at + |s| + 11];
      }
    }
  }

  lemma {:induction false} StartOfFront(texts: seq<string>, n: nat, k: nat)
    requires k <= n <= |texts|
    ensures TextStart(texts[..n], k) == TextStart(texts, k)
  {
    if k > 0 {
      StartOfFront(texts, n, k - 1);
    }
  }

  lemma OneMore(texts: seq<string>, t: string)
    ensures UnionOf(texts + [t]) == Open(texts) + t
  {
    assert (texts + [t])[..|texts|] == texts;
  }

  /**
   The parameter-set loop of my_SQLExecute for a SELECT, every set that is not ignored binding well:
   what is executed at the last set, None when that set is ignored.
   */
  method BuildUnion(query: string, ms: seq<nat>, sets: seq<SelectSet>, buf: Buffer) returns (executed: Option<string>)
    requires MarkersOf(query, ms) && GoodSets(ms, sets) && |sets| > 1
    requires buf.text == ""
    modifies buf
    ensures executed == if sets[|sets| - 1].Ignored? then None else Some(UnionOf(UsedTexts(query, ms, sets, |sets|)))
  {
    executed := None;
    for row := 0 to |sets|
      invariant row < |sets| ==> executed == None && buf.text == Open(UsedTexts(query, ms, sets, row))
      invariant row == |sets| ==>
                  executed == if sets[row - 1].Ignored? then None else Some(UnionOf(UsedTexts(query, ms, sets, row)))
    {
      if sets[row].Ignored? {
        assert UsedTexts(query, ms, sets, row + 1) == UsedTexts(query, ms, sets, row);
        continue;
      }
      ghost var t := Substituted(query, ms, Texts(sets[row].literals));
      OneMore(UsedTexts(query, ms, sets, row), t);
      assert UsedTexts(query, ms, sets, row + 1) == UsedTexts(query, ms, sets, row) + [t];
      var rc, final := InsertParams(query, ms, sets[row].literals, buf);
      if row < |sets| - 1 {
        buf.Add(BINDER);
      } else {
        executed := Some(final);
      }
    }
  }
}

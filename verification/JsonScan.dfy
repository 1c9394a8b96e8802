/** The string-aware brace scan that recovers a JSON object from surrounding prose. */
module JsonScan {
  import opened Wrappers

  // ---------------------------------------------------------------- JSON texts (RFC 8259, sections 2 to 7)

  datatype Piece = Plain(c: char) | Escaped(c: char) | Unicode(a: char, b: char, c: char, d: char)

  datatype Exponent = Exponent(mark: char, sign: string, digits: string)

  /** A JSON text with its white space. A number's fraction is the digits behind the point, if any. */
  datatype Json =
    | Literal(name: string)
    | Number(minus: bool, whole: string, fraction: string, exponent: Option<Exponent>)
    | JString(pieces: seq<Piece>)
    | JArray(elems: Elems)
    | JObject(members: Members)
  datatype Elems = NoElems(ws: string) | Elem(pre: string, v: Json, post: string, rest: Option<Elems>)
  datatype Members =
    | NoMembers(ws: string)
    | Member(pre: string, key: seq<Piece>, mid: string, mid': string, v: Json, post: string, rest: Option<Members>)

  predicate IsWs(s: string) {
    forall i :: 0 <= i < |s| ==> s[i] in {' ', '\t', '\n', '\r'}
  }

  /** No character the scanner reacts to outside strings. */
  predicate Inert(s: string) {
    forall i :: 0 <= i < |s| ==> s[i] != '"' && s[i] != '{' && s[i] != '}'
  }

  predicate IsHex(c: char) {
    '0' <= c <= '9' || 'a' <= c <= 'f' || 'A' <= c <= 'F'
  }

  predicate ValidPiece(p: Piece) {
    match p
    case Plain(c) => c != '"' && c != '\\' && c as int >= 0x20
    case Escaped(c) => c in {'"', '\\', '/', 'b', 'f', 'n', 'r', 't'}
    case Unicode(a, b, c, d) => IsHex(a) && IsHex(b) && IsHex(c) && IsHex(d)
  }

  predicate IsDigits(s: string) {
    forall i :: 0 <= i < |s| ==> '0' <= s[i] <= '9'
  }

  predicate ValidExponent(e: Exponent) {
    && (e.mark == 'e' || e.mark == 'E') && (e.sign == "" || e.sign == "+" || e.sign == "-")
    && IsDigits(e.digits) && e.digits != ""
  }

  predicate ValidPieces(ps: seq<Piece>) {
    forall i :: 0 <= i < |ps| ==> ValidPiece(ps[i])
  }

  predicate Valid(v: Json) {
    match v
    case Literal(name) => name == "true" || name == "false" || name == "null"
    case Number(_, whole, fraction, exponent) =>
      && IsDigits(whole) && whole != "" && (|whole| > 1 ==> whole[0] != '0')
      && IsDigits(fraction) && (exponent.Some? ==> ValidExponent(exponent.value))
    case JString(ps) => ValidPieces(ps)
    case JArray(es) => ValidElems(es)
    case JObject(ms) => ValidMembers(ms)
  }

  predicate ValidElems(es: Elems) {
    match es
    case NoElems(ws) => IsWs(ws)
    case Elem(pre, v, post, rest) =>
      IsWs(pre) && Valid(v) && IsWs(post) && (rest.None? || (rest.value.Elem? && ValidElems(rest.value)))
  }

  predicate ValidMembers(ms: Members) {
    match ms
    case NoMembers(ws) => IsWs(ws)
    case Member(pre, key, mid, mid', v, post, rest) =>
      && IsWs(pre) && ValidPieces(key) && IsWs(mid) && IsWs(mid') && Valid(v) && IsWs(post)
      && (rest.None? || (rest.value.Member? && ValidMembers(rest.value)))
  }

  function PieceText(p: Piece): string {
    match p
    case Plain(c) => [c]
    case Escaped(c) => ['\\', c]
    case Unicode(a, b, c, d) => ['\\', 'u', a, b, c, d]
  }

  function PiecesText(ps: seq<Piece>): string {
    if ps == [] then "" else PieceText(ps[0]) + PiecesText(ps[1..])
  }

  function StringText(ps: seq<Piece>): string {
    "\"" + (PiecesText(ps) + "\"")
  }

  function NumberText(minus: bool, whole: string, fraction: string, exponent: Option<Exponent>): string {
    (if minus then "-" else "") + whole + (if fraction == "" then "" else "." + fraction)
    + match exponent case None => "" case Some(e) => [e.mark] + e.sign + e.digits
  }

  function Text(v: Json): string
    decreases v, 0
  {
    match v
    case Literal(name) => name
    case Number(minus, whole, fraction, exponent) => NumberText(minus, whole, fraction, exponent)
    case JString(ps) => StringText(ps)
    case JArray(es) => "[" + (ElemsText(es) + "]")
    case JObject(ms) => ObjectText(ms)
  }

  function ElemsText(es: Elems): string
    decreases es, 0
  {
    match es
    case NoElems(ws) => ws
    case Elem(pre, v, post, rest) =>
      pre + (Text(v) + (post + (if rest.None? then "" else "," + ElemsText(rest.value))))
  }

  function MembersText(ms: Members): string
    decreases ms, 0
  {
    match ms
    case NoMembers(ws) => ws
    case Member(pre, key, mid, mid', v, post, rest) =>
      pre + (StringText(key) + (mid + (":" + (mid' + (Text(v) + (post + (if rest.None? then "" else "," + MembersText(rest.value))))))))
  }

  function ObjectText(ms: Members): string
    decreases ms, 1
  {
    "{" + (MembersText(ms) + "}")
  }

  // ---------------------------------------------------------------- the inner scan

  datatype Scan = Scan(depth: int, inStr: bool, esc: bool)

  function Step(st: Scan, c: char): Scan {
    if st.inStr then
      if st.esc then st.(esc := false)
      else if c == '\\' then st.(esc := true)
      else if c == '"' then st.(inStr := false)
      else st
    else if c == '"' then st.(inStr := true)
    else if c == '{' then st.(depth := st.depth + 1)
    else if c == '}' then st.(depth := st.depth - 1)
    else st
  }

  predicate Closes(st: Scan, c: char) {
    !st.inStr && c == '}' && st.depth == 1
  }

  /** How many characters the scan reads before the one that closes, if it closes at all. */
  function Close(st: Scan, s: string): Option<nat>
    decreases |s|
  {
    if s == "" then None
    else if Closes(st, s[0]) then Some(0)
    else Plus(1, Close(Step(st, s[0]), s[1..]))
  }

  function Plus(n: nat, k: Option<nat>): Option<nat> {
    match k case None => None case Some(m) => Some(n + m)
  }

  const OUTSIDE: Scan := Scan(0, false, false)

  function At(depth: int): Scan {
    Scan(depth, false, false)
  }

  /** Scanning `s` moves from state `st` to `st'` without closing. */
  predicate Moves(st: Scan, s: string, st': Scan)
    decreases |s|
  {
    if s == "" then st == st'
    else !Closes(st, s[0]) && Moves(Step(st, s[0]), s[1..], st')
  }

  lemma {:induction false} MovesThen(st: Scan, a: string, mid: Scan, b: string, st': Scan)
    requires Moves(st, a, mid) && Moves(mid, b, st')
    ensures Moves(st, a + b, st')
    decreases |a|
  {
    if a == "" {
      assert a + b == b;
    } else {
      MovesThen(Step(st, a[0]), a[1..], mid, b, st');
      assert (a + b)[1..] == a[1..] + b;
    }
  }

  /** What a non-closing stretch is good for: it only shifts where the scan closes, whatever follows. */
  lemma {:induction false} MovesShift(st: Scan, s: string, st': Scan, rest: string)
    requires Moves(st, s, st')
    ensures Close(st, s + rest) == Plus(|s|, Close(st', rest))
    decreases |s|
  {
    if s == "" {
      assert s + rest == rest;
    } else {
      MovesShift(Step(st, s[0]), s[1..], st', rest);
      assert (s + rest)[1..] == s[1..] + rest;
    }
  }

  lemma {:induction false} InertMoves(d: int, s: string)
    requires Inert(s)
    ensures Moves(At(d), s, At(d))
  {
    if s != "" { InertMoves(d, s[1..]); }
  }

  lemma NumberIsInert(minus: bool, whole: string, fraction: string, exponent: Option<Exponent>)
    requires Valid(Number(minus, whole, fraction, exponent))
    ensures Inert(NumberText(minus, whole, fraction, exponent))
  {
  }

  lemma WsMoves(d: int, s: string)
    requires IsWs(s)
    ensures Moves(At(d), s, At(d))
  {
    assert forall i :: 0 <= i < |s| ==> s[i] in {' ', '\t', '\n', '\r'};
    assert Inert(s);
    InertMoves(d, s);
  }

  lemma PieceMoves(d: int, p: Piece)
    requires ValidPiece(p)
    ensures Moves(Scan(d, true, false), PieceText(p), Scan(d, true, false))
  {
    var inside := Scan(d, true, false);
    match p
    case Plain(c) => OneMove(inside, c);
    case Escaped(c) => EscapeMoves(d, c);
    case Unicode(a, b, c, e) =>
      EscapeMoves(d, 'u');
      HexMoves(d, a, b);
      HexMoves(d, c, e);
      MovesThen(inside, ['\\', 'u'], inside, [a, b], inside);
      MovesThen(inside, ['\\', 'u'] + [a, b], inside, [c, e], inside);
      assert ['\\', 'u'] + [a, b] + [c, e] == ['\\', 'u', a, b, c, e];
  }

  lemma OneMove(st: Scan, c: char)
    requires !Closes(st, c)
    ensures Moves(st, [c], Step(st, c))
  {
    assert [c][1..] == "";
  }

  lemma EscapeMoves(d: int, c: char)
    ensures Moves(Scan(d, true, false), ['\\', c], Scan(d, true, false))
  {
    OneMove(Scan(d, true, false), '\\');
    OneMove(Scan(d, true, true), c);
    MovesThen(Scan(d, true, false), ['\\'], Scan(d, true, true), [c], Scan(d, true, false));
    assert ['\\'] + [c] == ['\\', c];
  }

  lemma HexMoves(d: int, a: char, b: char)
    requires IsHex(a) && IsHex(b)
    ensures Moves(Scan(d, true, false), [a, b], Scan(d, true, false))
  {
    OneMove(Scan(d, true, false), a);
    OneMove(Scan(d, true, false), b);
    MovesThen(Scan(d, true, false), [a], Scan(d, true, false), [b], Scan(d, true, false));
    assert [a] + [b] == [a, b];
  }

  lemma {:induction false} PiecesMove(d: int, ps: seq<Piece>)
    requires ValidPieces(ps)
    ensures Moves(Scan(d, true, false), PiecesText(ps), Scan(d, true, false))
  {
    var inside := Scan(d, true, false);
    if ps != [] {
      PieceMoves(d, ps[0]);
      PiecesMove(d, ps[1..]);
      MovesThen(inside, PieceText(ps[0]), inside, PiecesText(ps[1..]), inside);
    }
  }

  lemma StringMoves(d: int, ps: seq<Piece>)
    requires ValidPieces(ps)
    ensures Moves(At(d), StringText(ps), At(d))
  {
    var inside := Scan(d, true, false);
    OneMove(At(d), '"');
    PiecesMove(d, ps);
    OneMove(inside, '"');
    MovesThen(inside, PiecesText(ps), inside, "\"", At(d));
    MovesThen(At(d), "\"", inside, PiecesText(ps) + "\"", At(d));
  }

  /** A value inside an open object leaves the scan exactly where it was: braces in strings, escaped quotes and
      nested objects included. */
  lemma {:induction false} ValueMoves(d: int, v: Json)
    requires d >= 1 && Valid(v)
    ensures Moves(At(d), Text(v), At(d))
    decreases v
  {
    match v
    case Literal(name) =>
      InertMoves(d, name);
    case Number(minus, whole, fraction, exponent) =>
      NumberIsInert(minus, whole, fraction, exponent);
      InertMoves(d, Text(v));
    case JString(ps) =>
      StringMoves(d, ps);
    case JArray(es) =>
      ElemsMove(d, es);
      BracketsMove(d, ElemsText(es));
    case JObject(ms) =>
      MembersMove(d + 1, ms);
      BracesMove(d, MembersText(ms));
  }

  lemma BracketsMove(d: int, s: string)
    requires Moves(At(d), s, At(d))
    ensures Moves(At(d), "[" + (s + "]"), At(d))
  {
    OneMove(At(d), '[');
    OneMove(At(d), ']');
    MovesThen(At(d), s, At(d), "]", At(d));
    MovesThen(At(d), "[", At(d), s + "]", At(d));
  }

  lemma BracesMove(d: int, s: string)
    requires d >= 1 && Moves(At(d + 1), s, At(d + 1))
    ensures Moves(At(d), "{" + (s + "}"), At(d))
  {
    OneMove(At(d), '{');
    OneMove(At(d + 1), '}');
    MovesThen(At(d + 1), s, At(d + 1), "}", At(d));
    MovesThen(At(d), "{", At(d + 1), s + "}", At(d));
  }

  lemma {:induction false} ElemsMove(d: int, es: Elems)
    requires d >= 1 && ValidElems(es)
    ensures Moves(At(d), ElemsText(es), At(d))
    decreases es
  {
    match es
    case NoElems(ws) =>
      WsMoves(d, ws);
    case Elem(pre, v, post, rest) =>
      var tail := if rest.None? then "" else "," + ElemsText(rest.value);
      WsMoves(d, pre);
      ValueMoves(d, v);
      WsMoves(d, post);
      if rest.Some? {
        InertMoves(d, ",");
        ElemsMove(d, rest.value);
        MovesThen(At(d), ",", At(d), ElemsText(rest.value), At(d));
      }
      MovesThen(At(d), post, At(d), tail, At(d));
      MovesThen(At(d), Text(v), At(d), post + tail, At(d));
      MovesThen(At(d), pre, At(d), Text(v) + (post + tail), At(d));
  }

  lemma {:induction false} MembersMove(d: int, ms: Members)
    requires d >= 1 && ValidMembers(ms)
    ensures Moves(At(d), MembersText(ms), At(d))
    decreases ms
  {
    match ms
    case NoMembers(ws) =>
      WsMoves(d, ws);
    case Member(pre, key, mid, mid', v, post, rest) =>
      var tail := if rest.None? then "" else "," + MembersText(rest.value);
      WsMoves(d, pre);
      StringMoves(d, key);
      WsMoves(d, mid);
      InertMoves(d, ":");
      WsMoves(d, mid');
      ValueMoves(d, v);
      WsMoves(d, post);
      if rest.Some? {
        InertMoves(d, ",");
        MembersMove(d, rest.value);
        MovesThen(At(d), ",", At(d), MembersText(rest.value), At(d));
      }
      MovesThen(At(d), post, At(d), tail, At(d));
      MovesThen(At(d), Text(v), At(d), post + tail, At(d));
      MovesThen(At(d), mid', At(d), Text(v) + (post + tail), At(d));
      MovesThen(At(d), ":", At(d), mid' + (Text(v) + (post + tail)), At(d));
      MovesThen(At(d), mid, At(d), ":" + (mid' + (Text(v) + (post + tail))), At(d));
      MovesThen(At(d), StringText(key), At(d), mid + (":" + (mid' + (Text(v) + (post + tail)))), At(d));
      MovesThen(At(d), pre, At(d), StringText(key) + (mid + (":" + (mid' + (Text(v) + (post + tail))))), At(d));
  }

  /** A text that opens with a brace and, whatever follows it, closes exactly at its own end. */
  ghost predicate SelfClosing(text: string) {
    text != "" && text[0] == '{' && forall suffix :: Close(OUTSIDE, text + suffix) == Some(|text| - 1)
  }

  /** Scanning an object's text, followed by anything at all, closes exactly at its last brace. */
  lemma ObjectSelfCloses(ms: Members)
    requires ValidMembers(ms)
    ensures SelfClosing(ObjectText(ms))
  {
    MembersMove(1, ms);
    BodyCloses(MembersText(ms));
  }

  lemma BodyCloses(body: string)
    requires Moves(At(1), body, At(1))
    ensures SelfClosing("{" + (body + "}"))
  {
    OneMove(OUTSIDE, '{');
    MovesThen(OUTSIDE, "{", At(1), body, At(1));
    forall suffix: string ensures Close(OUTSIDE, "{" + (body + "}") + suffix) == Some(|body| + 1) {
      MovesShift(OUTSIDE, "{" + body, At(1), "}" + suffix);
      assert "{" + (body + "}") + suffix == ("{" + body) + ("}" + suffix);
    }
  }
}

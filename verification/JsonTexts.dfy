/** The texts of strings and numbers, piece by piece as RFC 8259 writes them. */
module JsonTexts {
  import opened Wrappers
  import opened JsonScan

  /** The text of a string is that of its pieces, in order. */
  lemma {:induction false} PiecesJoin(a: seq<Piece>, b: seq<Piece>)
    ensures PiecesText(a + b) == PiecesText(a) + PiecesText(b)
  {
    if a == [] {
      assert a + b == b;
    } else {
      PiecesJoin(a[1..], b);
      assert (a + b)[1..] == a[1..] + b;
      Associates(PieceText(a[0]), PiecesText(a[1..]), PiecesText(b));
    }
  }

  /** A piece is written as it stands, behind a backslash, or as a backslash, `u` and four digits. */
  lemma PieceIsWritten(p: Piece)
    ensures p.Plain? ==> PiecesText([p]) == [p.c]
    ensures p.Escaped? ==> PiecesText([p]) == ['\\', p.c]
    ensures p.Unicode? ==> PiecesText([p]) == ['\\', 'u', p.a, p.b, p.c, p.d]
  {
    assert PieceText(p) + "" == PieceText(p);
  }

  /** A string is its pieces between quotation marks. */
  lemma StringIsQuoted(ps: seq<Piece>)
    ensures StringText(ps) == ['"'] + PiecesText(ps) + ['"']
  {
  }

  /** A number is its sign, its digits, a point before a fraction, and its exponent. */
  lemma NumberIsWritten(minus: bool, whole: string, fraction: string, e: Exponent)
    ensures NumberText(false, whole, "", None) == whole
    ensures fraction != "" ==> NumberText(false, whole, fraction, None) == whole + "." + fraction
    ensures NumberText(false, whole, fraction, Some(e)) ==
              NumberText(false, whole, fraction, None) + ([e.mark] + e.sign + e.digits)
    ensures NumberText(true, whole, fraction, Some(e)) == "-" + NumberText(false, whole, fraction, Some(e))
    ensures NumberText(true, whole, fraction, None) == "-" + NumberText(false, whole, fraction, None)
  {
  }
}

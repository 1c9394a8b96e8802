/** The text of an audit cursor: what `encodeCursor` and `decodeCursor` wrap in base64url. */
module Cursors {
  import opened Wrappers

  /** A calendar date as its eight digits, year first. */
  type Date = d: nat | d < 100000000

  /** A position in the ledger, and what a cursor carries. */
  datatype Key = Key(date: Date, index: nat)

  predicate IsDigits(s: string) {
    forall i :: 0 <= i < |s| ==> '0' <= s[i] <= '9'
  }

  function Digit(n: nat): (c: char)
    requires n < 10
    ensures '0' <= c <= '9' && c as int - '0' as int == n
  {
    ('0' as int + n) as char
  }

  function Pow10(width: nat): (r: nat)
    ensures r > 0
  {
    if width == 0 then 1 else 10 * Pow10(width - 1)
  }

  /** The last `width` decimal digits of `n`. */
  function Fixed(n: nat, width: nat): (s: string)
    ensures |s| == width && IsDigits(s)
  {
    if width == 0 then "" else Fixed(n / 10, width - 1) + [Digit(n % 10)]
  }

  function Decimal(n: nat): (s: string)
    ensures s != "" && IsDigits(s)
  {
    if n < 10 then [Digit(n)] else Decimal(n / 10) + [Digit(n % 10)]
  }

  function Value(s: string): nat
    requires IsDigits(s)
  {
    if s == "" then 0 else 10 * Value(s[..|s| - 1]) + (s[|s| - 1] as int - '0' as int)
  }

  lemma ValueSnoc(s: string, n: nat)
    requires IsDigits(s) && n < 10
    ensures IsDigits(s + [Digit(n)]) && Value(s + [Digit(n)]) == 10 * Value(s) + n
  {
    assert (s + [Digit(n)])[..|s|] == s;
  }

  lemma {:induction false} FixedReads(n: nat, width: nat)
    requires n < Pow10(width)
    ensures Value(Fixed(n, width)) == n
  {
    if width > 0 {
      FixedReads(n / 10, width - 1);
      ValueSnoc(Fixed(n / 10, width - 1), n % 10);
    }
  }

  lemma DateDigitsRead(year: nat, month: nat, day: nat)
    requires year < 10000 && month < 100 && day < 100
    ensures Value(Fixed(year, 4)) == year && Value(Fixed(month, 2)) == month && Value(Fixed(day, 2)) == day
  {
    assert Pow10(2) == 100 && Pow10(4) == 10000;
    FixedReads(year, 4);
    FixedReads(month, 2);
    FixedReads(day, 2);
  }

  lemma {:induction false} DecimalReads(n: nat)
    ensures Value(Decimal(n)) == n
  {
    if n >= 10 {
      DecimalReads(n / 10);
      ValueSnoc(Decimal(n / 10), n % 10);
    } else {
      ValueSnoc("", n);
      assert "" + [Digit(n)] == [Digit(n)];
    }
  }

  /** YYYY-MM-DD. */
  function Stamp(date: Date): (s: string)
    ensures |s| == 10
  {
    Fixed(Year(date), 4) + "-" + Fixed(Month(date), 2) + "-" + Fixed(Day(date), 2)
  }

  function Year(date: Date): (n: nat)
    ensures n < 10000
  {
    date / 10000
  }

  function Month(date: Date): (n: nat)
    ensures n < 100
  {
    date / 100 % 100
  }

  function Day(date: Date): (n: nat)
    ensures n < 100
  {
    date % 100
  }

  /** `encodeCursor`. */
  function EncodeCursor(key: Key): string {
    Stamp(key.date) + " " + Decimal(key.index)
  }

  /** What `decodeCursor` matches: a date, a space and digits, and nothing else. */
  predicate WellFormed(text: string) {
    && |text| >= 12 && IsDigits(text[..4]) && text[4] == '-' && IsDigits(text[5..7]) && text[7] == '-'
    && IsDigits(text[8..10]) && text[10] == ' ' && IsDigits(text[11..])
  }

  /** That is: a four-digit year, a two-digit month and day with dashes, one space, and at least one digit. */
  lemma WellFormedIsDateAndIndex(year: string, month: string, day: string, rest: string)
    requires |year| == 4 && |month| == |day| == 2
    ensures WellFormed(year + "-" + month + "-" + day + " " + rest) <==>
              IsDigits(year) && IsDigits(month) && IsDigits(day) && IsDigits(rest) && rest != ""
  {
    StampParts(year, month, day, rest);
  }

  /** And only such texts are. */
  lemma WellFormedParts(text: string)
    requires WellFormed(text)
    ensures text == text[..4] + "-" + text[5..7] + "-" + text[8..10] + " " + text[11..]
  {
  }

  /** `decodeCursor`; nothing stands for the error it throws. */
  function DecodeCursor(text: string): (r: Option<Key>)
    ensures r.Some? <==> WellFormed(text)
  {
    if !WellFormed(text) then None
    else
      DigitsFit(text[..4]);
      DigitsFit(text[5..7]);
      DigitsFit(text[8..10]);
      assert Pow10(2) == 100 && Pow10(4) == 10000;
      Some(Key(10000 * Value(text[..4]) + 100 * Value(text[5..7]) + Value(text[8..10]), Value(text[11..])))
  }

  lemma {:induction false} DigitsFit(s: string)
    requires IsDigits(s)
    ensures Value(s) < Pow10(|s|)
  {
    if s != "" { DigitsFit(s[..|s| - 1]); }
  }

  lemma StampParts(year: string, month: string, day: string, rest: string)
    requires |year| == 4 && |month| == |day| == 2
    ensures var text := year + "-" + month + "-" + day + " " + rest;
      && text[..4] == year && text[4] == '-' && text[5..7] == month && text[7] == '-'
      && text[8..10] == day && text[10] == ' ' && text[11..] == rest
  {
  }

  lemma DateParts(date: Date)
    ensures 10000 * Year(date) + 100 * Month(date) + Day(date) == date
  {
    assert date / 100 / 100 == date / 10000;
  }

  lemma Reads(year: string, month: string, day: string, rest: string)
    requires |year| == 4 && |month| == |day| == 2 && rest != ""
    requires IsDigits(year) && IsDigits(month) && IsDigits(day) && IsDigits(rest)
    ensures var r := DecodeCursor(year + "-" + month + "-" + day + " " + rest);
      r.Some? && r.value.index == Value(rest) && r.value.date == 10000 * Value(year) + 100 * Value(month) + Value(day)
  {
    StampParts(year, month, day, rest);
  }

  /** An issued cursor is read back as the position it was issued for. */
  lemma CursorRoundTrip(key: Key)
    ensures DecodeCursor(EncodeCursor(key)) == Some(key)
  {
    DateParts(key.date);
    DateDigitsRead(Year(key.date), Month(key.date), Day(key.date));
    DecimalReads(key.index);
    Reads(Fixed(Year(key.date), 4), Fixed(Month(key.date), 2), Fixed(Day(key.date), 2), Decimal(key.index));
  }
}

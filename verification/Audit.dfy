/** The append-only audit ledger and its newest-first keyset pagination. */
module Audit {
  import opened Wrappers
  import opened Cursors

  datatype Record = Record(planId: string, body: string)
  datatype Line = BlankLine | CorruptLine | RecordLine(record: Record)
  type Files = map<Date, seq<Line>>

  datatype Entry = Entry(key: Key, record: Record)

  predicate Newer(a: Key, b: Key) {
    a.date > b.date || (a.date == b.date && a.index > b.index)
  }

  /** The filter of a request; an absent or empty plan id filters nothing. */
  predicate Wanted(filter: Option<string>, r: Record) {
    filter.None? || filter.value == "" || r.planId == filter.value
  }

  predicate Matches(filter: Option<string>, cursor: Option<Key>, key: Key, line: Line) {
    line.RecordLine? && Wanted(filter, line.record) && (cursor.None? || Newer(cursor.value, key))
  }

  // ---------------------------------------------------------------- the full newest-first listing

  /** The matching entries among the first `n` lines of one file, newest first. */
  function InFile(filter: Option<string>, cursor: Option<Key>, date: Date, lines: seq<Line>, n: nat): seq<Entry>
    requires n <= |lines|
  {
    if n == 0 then []
    else
      var key := Key(date, n - 1);
      (if Matches(filter, cursor, key, lines[n - 1]) then [Entry(key, lines[n - 1].record)] else [])
      + InFile(filter, cursor, date, lines, n - 1)
  }

  function LinesOf(files: Files, date: Date): seq<Line> {
    if date in files then files[date] else []
  }

  function InFiles(filter: Option<string>, cursor: Option<Key>, files: Files, dates: seq<Date>): seq<Entry> {
    if dates == [] then []
    else
      var lines := LinesOf(files, dates[0]);
      InFile(filter, cursor, dates[0], lines, |lines|) + InFiles(filter, cursor, files, dates[1..])
  }

  function Insert(d: Date, sorted: seq<Date>): seq<Date> {
    if sorted == [] then [d] else if d >= sorted[0] then [d] + sorted else [sorted[0]] + Insert(d, sorted[1..])
  }

  /** A directory listing sorted newest first. */
  function NewestFirst(dates: seq<Date>): seq<Date> {
    if dates == [] then [] else Insert(dates[0], NewestFirst(dates[1..]))
  }

  ghost predicate Descending(dates: seq<Date>) {
    forall i, j :: 0 <= i < j < |dates| ==> dates[i] > dates[j]
  }

  lemma {:induction false} InsertDescends(d: Date, sorted: seq<Date>)
    requires Descending(sorted) && d !in sorted
    ensures Descending(Insert(d, sorted)) && forall x :: x in Insert(d, sorted) <==> x == d || x in sorted
  {
    if sorted != [] {
      if d < sorted[0] {
        InsertDescends(d, sorted[1..]);
        HeadDescends(sorted[0], Insert(d, sorted[1..]));
      } else {
        HeadDescends(d, sorted);
      }
    }
  }

  lemma HeadDescends(d: Date, rest: seq<Date>)
    requires Descending(rest) && forall x <- rest :: x < d
    ensures Descending([d] + rest)
  {
    assert forall i :: 0 <= i < |rest| ==> rest[i] in rest;
  }

  lemma {:induction false} NewestFirstDescends(dates: seq<Date>)
    requires forall i, j :: 0 <= i < j < |dates| ==> dates[i] != dates[j]
    ensures Descending(NewestFirst(dates)) && forall x :: x in NewestFirst(dates) <==> x in dates
  {
    if dates != [] {
      NewestFirstDescends(dates[1..]);
      InsertDescends(dates[0], NewestFirst(dates[1..]));
      assert dates == [dates[0]] + dates[1..];
    }
  }

  /** A listing of the directory: its files, in any order, each once. */
  ghost predicate ListingOf(files: Files, listing: seq<Date>) {
    (forall d :: d in listing <==> d in files) && forall i, j :: 0 <= i < j < |listing| ==> listing[i] != listing[j]
  }

  // ---------------------------------------------------------------- what the listing holds

  ghost predicate Sorted(es: seq<Entry>) {
    forall i, j :: 0 <= i < j < |es| ==> Newer(es[i].key, es[j].key)
  }

  /** `e` is a record of the ledger, of the plan asked for (if one is), on an earlier day than the cursor's or
      further up the same day's file. */
  ghost predicate Present(filter: Option<string>, cursor: Option<Key>, files: Files, e: Entry) {
    && e.key.date in files && e.key.index < |files[e.key.date]|
    && files[e.key.date][e.key.index] == RecordLine(e.record)
    && (filter.Some? && filter.value != "" ==> e.record.planId == filter.value)
    && (cursor.Some? ==>
          e.key.date < cursor.value.date || (e.key.date == cursor.value.date && e.key.index < cursor.value.index))
  }

  /** `e` is a matching record of the file's lines. */
  ghost predicate OfFile(filter: Option<string>, cursor: Option<Key>, date: Date, lines: seq<Line>, e: Entry) {
    && e.key.date == date && e.key.index < |lines|
    && lines[e.key.index] == RecordLine(e.record) && Matches(filter, cursor, e.key, lines[e.key.index])
  }

  /** `es` lists the matching records of the first `n` lines, newest first. */
  ghost predicate ListsFile(filter: Option<string>, cursor: Option<Key>, date: Date, lines: seq<Line>, n: nat, es: seq<Entry>) {
    && Sorted(es)
    && (forall i :: 0 <= i < |es| ==> es[i].key.date == date && es[i].key.index < n)
    && forall e :: e in es <==> e.key.index < n && OfFile(filter, cursor, date, lines, e)
  }

  lemma MatchInFront(filter: Option<string>, cursor: Option<Key>, date: Date, lines: seq<Line>, n: nat, es: seq<Entry>)
    requires n < |lines| && ListsFile(filter, cursor, date, lines, n, es)
    requires Matches(filter, cursor, Key(date, n), lines[n])
    ensures ListsFile(filter, cursor, date, lines, n + 1, [Entry(Key(date, n), lines[n].record)] + es)
  {
    var x := Entry(Key(date, n), lines[n].record);
    forall e: Entry ensures e in [x] + es <==> e.key.index < n + 1 && OfFile(filter, cursor, date, lines, e) {
      assert e in [x] + es <==> e == x || e in es;
    }
  }

  lemma NoMatchInFront(filter: Option<string>, cursor: Option<Key>, date: Date, lines: seq<Line>, n: nat, es: seq<Entry>)
    requires n < |lines| && ListsFile(filter, cursor, date, lines, n, es)
    requires !Matches(filter, cursor, Key(date, n), lines[n])
    ensures ListsFile(filter, cursor, date, lines, n + 1, es)
  {
    forall e: Entry | e.key.index == n ensures !OfFile(filter, cursor, date, lines, e) {
      assert e.key.date == date ==> e.key == Key(date, n);
    }
  }

  lemma {:induction false} InFileHolds(filter: Option<string>, cursor: Option<Key>, date: Date, lines: seq<Line>, n: nat)
    requires n <= |lines|
    ensures ListsFile(filter, cursor, date, lines, n, InFile(filter, cursor, date, lines, n))
  {
    if n > 0 {
      var es := InFile(filter, cursor, date, lines, n - 1);
      InFileHolds(filter, cursor, date, lines, n - 1);
      if Matches(filter, cursor, Key(date, n - 1), lines[n - 1]) {
        MatchInFront(filter, cursor, date, lines, n - 1, es);
      } else {
        NoMatchInFront(filter, cursor, date, lines, n - 1, es);
        assert InFile(filter, cursor, date, lines, n) == es;
      }
    }
  }

  lemma {:induction false} InFilesHolds(filter: Option<string>, cursor: Option<Key>, files: Files, dates: seq<Date>)
    requires Descending(dates)
    ensures var es := InFiles(filter, cursor, files, dates);
      Sorted(es) && forall e :: e in es <==> e.key.date in dates && Present(filter, cursor, files, e)
  {
    if dates != [] {
      var date, rest := dates[0], dates[1..];
      var lines := LinesOf(files, date);
      InFileHolds(filter, cursor, date, lines, |lines|);
      InFilesHolds(filter, cursor, files, rest);
      assert dates == [date] + rest;
      var a, b := InFile(filter, cursor, date, lines, |lines|), InFiles(filter, cursor, files, rest);
      forall i, j | 0 <= i < |a| && 0 <= j < |b| ensures Newer(a[i].key, b[j].key) {
        assert b[j] in b;
      }
    }
  }

  /** All matching entries of the ledger, newest first. */
  ghost predicate IsListing(filter: Option<string>, cursor: Option<Key>, files: Files, es: seq<Entry>) {
    Sorted(es) && forall e :: e in es <==> Present(filter, cursor, files, e)
  }

  lemma ListingHolds(filter: Option<string>, cursor: Option<Key>, files: Files, listing: seq<Date>)
    requires ListingOf(files, listing)
    ensures IsListing(filter, cursor, files, InFiles(filter, cursor, files, NewestFirst(listing)))
  {
    NewestFirstDescends(listing);
    InFilesHolds(filter, cursor, files, NewestFirst(listing));
  }

  /** Two newest-first listings with the same entries are the same sequence. */
  lemma {:induction false} ListingIsUnique(a: seq<Entry>, b: seq<Entry>)
    requires Sorted(a) && Sorted(b) && forall e :: e in a <==> e in b
    ensures a == b
  {
    assert |b| == 0 || b[0] in b;
    if a != [] {
      assert a[0] in a && b != [];
      assert b[0] in b && b[0] in a;
      assert a[0] == b[0] by {
        var i, j :| 0 <= i < |b| && 0 <= j < |a| && b[i] == a[0] && a[j] == b[0];
        assert i > 0 ==> Newer(b[0].key, a[0].key);
        assert j > 0 ==> Newer(a[0].key, b[0].key);
      }
      TailIsTheRest(a);
      TailIsTheRest(b);
      ListingIsUnique(a[1..], b[1..]);
      assert a == [a[0]] + a[1..] && b == [b[0]] + b[1..];
    }
  }

  lemma TailIsTheRest(es: seq<Entry>)
    requires es != [] && Sorted(es)
    ensures Sorted(es[1..]) && forall e :: e in es[1..] <==> e in es && e != es[0]
  {
    assert es == [es[0]] + es[1..];
    forall i | 0 <= i < |es[1..]| ensures es[1..][i] != es[0] {
      assert Newer(es[0].key, es[i + 1].key);
    }
  }

  // ---------------------------------------------------------------- one page

  function Bounded(limit: int): nat {
    if limit > 0 then limit else 100
  }

  /** The first entries of a listing, and a cursor exactly when more remain. */
  function PageOf(all: seq<Entry>, limit: int): (seq<Entry>, Option<Key>) {
    var n := Bounded(limit);
    if |all| <= n then (all, None) else (all[..n], Some(all[n - 1].key))
  }

  /** `records` and `next` are those of the listing's first page. */
  ghost predicate IsPage(all: seq<Entry>, limit: int, records: seq<Record>, next: Option<Key>) {
    var (page, more) := PageOf(all, limit);
    next == more && |records| == |page| && forall i :: 0 <= i < |page| ==> records[i] == page[i].record
  }

  /** How an append ends: a torn one leaves part of its line, or (`complete`) all of it but the newline. */
  datatype WriteOutcome = Written | Torn(complete: bool) | Failed

  /** A file's lines after writing `line` at its end; on a file that does not end in a newline (`unfinished`) the
      text continues the last line, which then holds two records or parts of them and no longer decodes. */
  function Continued(lines: seq<Line>, unfinished: bool, line: Line): seq<Line> {
    if unfinished && lines != [] then lines[..|lines| - 1] + [CorruptLine] else lines + [line]
  }

  function AppendLine(files: Files, unfinished: set<Date>, date: Date, line: Line): Files {
    files[date := Continued(LinesOf(files, date), date in unfinished, line)]
  }

  /** An append to this day would garble a record now readable: the file ends in one, without its newline. */
  predicate EndsInUnfinishedRecord(files: Files, unfinished: set<Date>, date: Date) {
    date in unfinished && LinesOf(files, date) != [] && LinesOf(files, date)[|LinesOf(files, date)| - 1] != CorruptLine
  }

  class AuditLedger {
    var files: Files
    /** The days whose file does not end in a newline. */
    var unfinished: set<Date>

    constructor ()
      ensures files == map[] && unfinished == {} && Valid()
    {
      files, unfinished := map[], {};
    }

    ghost predicate Valid()
      reads this
    {
      forall d <- unfinished :: LinesOf(files, d) != []
    }

    /** `appendAudit`: one write at the end of the record's own day, which never throws. What was there stays as it
        was exactly unless the file ended in an unfinished record, and an acknowledged record is stored exactly when
        the file ended in a newline. */
    method AppendAudit(date: Date, record: Record, outcome: WriteOutcome) returns (ok: bool)
      requires Valid()
      modifies this
      ensures Valid() && (ok <==> outcome == Written)
      ensures files == match outcome
                       case Written => AppendLine(old(files), old(unfinished), date, RecordLine(record))
                       case Torn(complete) =>
                         AppendLine(old(files), old(unfinished), date, if complete then RecordLine(record) else CorruptLine)
                       case Failed => old(files)
      ensures unfinished == match outcome
                            case Written => old(unfinished) - {date}
                            case Torn(_) => old(unfinished) + {date}
                            case Failed => old(unfinished)
      ensures Grows(old(files), files) <==> outcome.Failed? || !EndsInUnfinishedRecord(old(files), old(unfinished), date)
      ensures ok ==> (files[date] == LinesOf(old(files), date) + [RecordLine(record)] <==> date !in old(unfinished))
    {
      match outcome
      case Failed =>
        return false;
      case Torn(complete) =>
        AppendGrows(files, unfinished, date, if complete then RecordLine(record) else CorruptLine);
        files := AppendLine(files, unfinished, date, if complete then RecordLine(record) else CorruptLine);
        unfinished := unfinished + {date};
        return false;
      case Written =>
        AppendGrows(files, unfinished, date, RecordLine(record));
        files := AppendLine(files, unfinished, date, RecordLine(record));
        unfinished := unfinished - {date};
        return true;
    }

    /** `readAudit`: rejects a cursor that is not of the shape it issues; otherwise the page after the cursor of the
        newest-first listing. `listing` is the directory, in any order. */
    method ReadAudit(listing: seq<Date>, filter: Option<string>, cursor: Option<string>, limit: int)
      returns (r: Response)
      requires ListingOf(files, listing)
      ensures r.MalformedCursor? <==> cursor.Some? && cursor.value != "" && !WellFormed(cursor.value)
      ensures r.Page? ==> IsPage(AllEntries(filter, Resume(cursor), files), limit, r.records, Resume(r.next))
      ensures r.Page? ==> |r.records| <= if limit > 0 then limit else 100
      ensures r.Page? && r.next.Some? ==> |r.records| == if limit > 0 then limit else 100
      ensures r.Page? && r.next.None? ==> |r.records| == |AllEntries(filter, Resume(cursor), files)|
      ensures r.Page? && r.next.Some? ==> r.next.value != "" && WellFormed(r.next.value)
    {
      if cursor.Some? && cursor.value != "" && DecodeCursor(cursor.value).None? {
        return MalformedCursor;
      }
      NewestFirstDescends(listing);
      ListedEntries(filter, Resume(cursor), files, listing);
      var records, next := ReadFiles(files, NewestFirst(listing), filter, Resume(cursor), limit);
      ReplyResumes(records, next);
      return Reply(records, next);
    }
  }

  lemma ListedEntries(filter: Option<string>, cursor: Option<Key>, files: Files, listing: seq<Date>)
    requires ListingOf(files, listing)
    ensures InFiles(filter, cursor, files, NewestFirst(listing)) == AllEntries(filter, cursor, files)
  {
    ListingHolds(filter, cursor, files, listing);
    ListingIsUnique(InFiles(filter, cursor, files, NewestFirst(listing)), AllEntries(filter, cursor, files));
  }

  function Reply(records: seq<Record>, next: Option<Key>): Response {
    Page(records, if next.None? then None else Some(EncodeCursor(next.value)))
  }

  /** A reply's cursor resumes exactly where its page ended. */
  lemma ReplyResumes(records: seq<Record>, next: Option<Key>)
    ensures var cursor := Reply(records, next).next;
      Resume(cursor) == next && (cursor.Some? ==> cursor.value != "" && WellFormed(cursor.value))
  {
    if next.Some? { CursorRoundTrip(next.value); }
  }

  datatype Response = Page(records: seq<Record>, next: Option<string>) | MalformedCursor

  /** The position a request resumes after; an absent or empty cursor starts at the newest record. */
  function Resume(cursor: Option<string>): Option<Key> {
    if cursor.None? || cursor.value == "" then None else DecodeCursor(cursor.value)
  }

  lemma AppendGrows(files: Files, unfinished: set<Date>, date: Date, line: Line)
    requires date in unfinished ==> LinesOf(files, date) != []
    ensures Grows(files, AppendLine(files, unfinished, date, line)) <==> !EndsInUnfinishedRecord(files, unfinished, date)
  {
    var lines := LinesOf(files, date);
    var after := Continued(lines, date in unfinished, line);
    if date in unfinished {
      assert lines == lines[..|lines| - 1] + [lines[|lines| - 1]];
      assert date in files;
      assert lines <= after <==> lines[|lines| - 1] == CorruptLine by {
        assert after[|lines| - 1] == CorruptLine;
      }
    }
  }

  /** An append that is acknowledged after a torn one is lost: its record is not in the ledger at all. */
  lemma TornTakesTheNext(files: Files, date: Date, first: Record, second: Record, complete: bool)
    requires date !in files
    ensures var torn := AppendLine(files, {}, date, if complete then RecordLine(first) else CorruptLine);
      AppendLine(torn, {date}, date, RecordLine(second))[date] == [CorruptLine]
  {
  }

  /** The outer loop, over the files newest first. */
  method ReadFiles(files: Files, dates: seq<Date>, filter: Option<string>, cursor: Option<Key>, limit: int)
    returns (records: seq<Record>, next: Option<Key>)
    requires forall d <- dates :: d in files
    ensures IsPage(InFiles(filter, cursor, files, dates), limit, records, next)
  {
    var bound := Bounded(limit);
    ghost var all := InFiles(filter, cursor, files, dates);
    ghost var page, rest := [], all;
    records, next := [], None;
    var last: Option<Key> := None;
    for d := 0 to |dates|
      invariant rest == InFiles(filter, cursor, files, dates[d..])
      invariant page + rest == all
      invariant PageSoFar(page, records, last, bound)
    {
      ghost var here := InFile(filter, cursor, dates[d], files[dates[d]], |files[dates[d]]|);
      ghost var later := InFiles(filter, cursor, files, dates[d + 1..]);
      FirstFile(filter, cursor, files, dates, d);
      Associates(page, here, later);
      assert (page + here) + later == all;
      var full;
      records, last, full := ReadNextFile(filter, cursor, dates[d], files[dates[d]], bound, records, last, page);
      page, rest := page + here, later;
      if full {
        FullPage(page, later, limit, records, last);
        return records, last;
      }
    }
    assert rest == [] && page + rest == page;
    WholePage(page, limit, records, last);
  }

  /** One round of the outer loop: a file newer than the cursor has been served already, any other is read. */
  method ReadNextFile(filter: Option<string>, cursor: Option<Key>, date: Date, lines: seq<Line>, bound: nat,
                      records0: seq<Record>, last0: Option<Key>, ghost page0: seq<Entry>)
    returns (records: seq<Record>, last: Option<Key>, full: bool)
    requires bound > 0 && PageSoFar(page0, records0, last0, bound)
    ensures var all := page0 + InFile(filter, cursor, date, lines, |lines|);
      if full then bound < |all| && PageSoFar(all[..bound], records, last, bound)
      else PageSoFar(all, records, last, bound)
  {
    if cursor.Some? && date > cursor.value.date {
      SkippedFileIsServed(filter, cursor, date, lines, |lines|);
      assert page0 + [] == page0;
      return records0, last0, false;
    }
    records, last, full := ReadFile(filter, cursor, date, lines, bound, records0, last0, page0);
  }

  lemma FirstFile(filter: Option<string>, cursor: Option<Key>, files: Files, dates: seq<Date>, d: nat)
    requires d < |dates|
    ensures InFiles(filter, cursor, files, dates[d..]) ==
              InFile(filter, cursor, dates[d], LinesOf(files, dates[d]), |LinesOf(files, dates[d])|)
              + InFiles(filter, cursor, files, dates[d + 1..])
  {
    assert dates[d..][0] == dates[d] && dates[d..][1..] == dates[d + 1..];
  }

  lemma FullPage(head: seq<Entry>, later: seq<Entry>, limit: int, records: seq<Record>, last: Option<Key>)
    requires Bounded(limit) < |head| && PageSoFar(head[..Bounded(limit)], records, last, Bounded(limit))
    ensures IsPage(head + later, limit, records, last)
  {
    assert (head + later)[..Bounded(limit)] == head[..Bounded(limit)];
  }

  lemma WholePage(all: seq<Entry>, limit: int, records: seq<Record>, last: Option<Key>)
    requires PageSoFar(all, records, last, Bounded(limit))
    ensures IsPage(all, limit, records, None)
  {
  }

  /** The inner loop: one file walked backwards, stopping at the first match that no longer fits. */
  method ReadFile(filter: Option<string>, cursor: Option<Key>, date: Date, lines: seq<Line>, bound: nat,
                  records0: seq<Record>, last0: Option<Key>, ghost page0: seq<Entry>)
    returns (records: seq<Record>, last: Option<Key>, full: bool)
    requires bound > 0 && PageSoFar(page0, records0, last0, bound)
    requires cursor.Some? ==> date <= cursor.value.date
    ensures var all := page0 + InFile(filter, cursor, date, lines, |lines|);
      if full then bound < |all| && PageSoFar(all[..bound], records, last, bound)
      else PageSoFar(all, records, last, bound)
  {
    records, last, full := records0, last0, false;
    ghost var page := page0;
    ghost var all := page0 + InFile(filter, cursor, date, lines, |lines|);
    var idx := |lines|;
    while idx > 0
      invariant 0 <= idx <= |lines|
      invariant page + InFile(filter, cursor, date, lines, idx) == all
      invariant PageSoFar(page, records, last, bound)
    {
      idx := idx - 1;
      var line := lines[idx];
      var key := Key(date, idx);
      if line.BlankLine? || (cursor.Some? && date == cursor.value.date && idx >= cursor.value.index)
         || line.CorruptLine? || !Wanted(filter, line.record) {
        assert !Matches(filter, cursor, key, line);
      } else {
        assert Matches(filter, cursor, key, line);
        if |records| >= bound {
          FullHere(page, InFile(filter, cursor, date, lines, idx + 1), bound);
          full := true;
          return;
        }
        records := records + [line.record];
        page := page + [Entry(key, line.record)];
        last := Some(key);
      }
    }
  }

  lemma FullHere(page: seq<Entry>, rest: seq<Entry>, bound: nat)
    requires |page| == bound && rest != []
    ensures bound < |page + rest| && (page + rest)[..bound] == page
  {
  }

  /** What the read loops maintain about the page under construction. */
  ghost predicate PageSoFar(page: seq<Entry>, records: seq<Record>, last: Option<Key>, bound: nat) {
    && |page| <= bound && |records| == |page|
    && (forall i :: 0 <= i < |page| ==> records[i] == page[i].record)
    && last == if page == [] then None else Some(page[|page| - 1].key)
  }

  lemma {:induction false} SkippedFileIsServed(filter: Option<string>, cursor: Option<Key>, date: Date, lines: seq<Line>, n: nat)
    requires n <= |lines| && cursor.Some? && date > cursor.value.date
    ensures InFile(filter, cursor, date, lines, n) == []
  {
    if n > 0 { SkippedFileIsServed(filter, cursor, date, lines, n - 1); }
  }

  // ---------------------------------------------------------------- paging

  /** Files only ever gain lines at their end. */
  ghost predicate Grows(before: Files, after: Files) {
    forall d <- before :: d in after && before[d] <= after[d]
  }

  /** The newest-first listing of a ledger. */
  ghost function AllEntries(filter: Option<string>, cursor: Option<Key>, files: Files): (es: seq<Entry>)
    ensures IsListing(filter, cursor, files, es)
  {
    SomeListing(files, files.Keys);
    var listing :| ListingOf(files, listing);
    ListingHolds(filter, cursor, files, listing);
    InFiles(filter, cursor, files, NewestFirst(listing))
  }

  lemma {:induction false} SomeListing(files: Files, keys: set<Date>)
    requires keys <= files.Keys
    ensures exists listing: seq<Date> :: (forall d :: d in listing <==> d in keys)
              && forall i, j :: 0 <= i < j < |listing| ==> listing[i] != listing[j]
    ensures keys == files.Keys ==> exists listing :: ListingOf(files, listing)
  {
    if keys == {} {
      var empty: seq<Date> := [];
      assert forall d :: d in empty <==> d in keys;
    } else {
      var k :| k in keys;
      SomeListing(files, keys - {k});
      var rest: seq<Date> :| (forall d :: d in rest <==> d in keys - {k})
        && forall i, j :: 0 <= i < j < |rest| ==> rest[i] != rest[j];
      var whole := rest + [k];
      assert forall d :: d in whole <==> d in keys;
    }
    var l: seq<Date> :| (forall d :: d in l <==> d in keys) && forall i, j :: 0 <= i < j < |l| ==> l[i] != l[j];
    assert keys == files.Keys ==> ListingOf(files, l);
  }

  /** Below the cursor issued after the first `n` entries lies exactly the rest of the listing. */
  lemma RestAfterCursor(filter: Option<string>, cursor: Option<Key>, files: Files, n: nat)
    requires 0 < n <= |AllEntries(filter, cursor, files)|
    ensures AllEntries(filter, Some(AllEntries(filter, cursor, files)[n - 1].key), files)
              == AllEntries(filter, cursor, files)[n..]
  {
    var all := AllEntries(filter, cursor, files);
    var k := all[n - 1].key;
    assert all[n - 1] in all;
    forall e ensures e in all[n..] <==> Present(filter, Some(k), files, e) {
      SplitAtKey(all, n, e);
      assert Present(filter, Some(k), files, e) <==> e in all && Newer(k, e.key);
    }
    ListingIsUnique(AllEntries(filter, Some(k), files), all[n..]);
  }

  lemma SplitAtKey(all: seq<Entry>, n: nat, e: Entry)
    requires Sorted(all) && 0 < n <= |all|
    ensures e in all[n..] <==> e in all && Newer(all[n - 1].key, e.key)
    ensures e in all && e !in all[..n] ==> e in all[n..]
  {
    if e in all {
      var i :| 0 <= i < |all| && all[i] == e;
      if i < n {
        assert i < n - 1 ==> Newer(all[i].key, all[n - 1].key);
        assert all[..n][i] == e;
      } else {
        assert all[n..][i - n] == e;
      }
    }
    if e in all[n..] {
      var j :| 0 <= j < |all[n..]| && all[n..][j] == e;
      assert Newer(all[n - 1].key, all[n + j].key);
    }
  }

  /** Everything a client collects by following `next_cursor` to the end, with any limits. */
  ghost function PageThrough(filter: Option<string>, cursor: Option<Key>, files: Files, limits: nat -> int, p: nat): seq<Entry>
    decreases |AllEntries(filter, cursor, files)|
  {
    var all := AllEntries(filter, cursor, files);
    var (page, next) := PageOf(all, limits(p));
    if next.None? then page
    else
      RestAfterCursor(filter, cursor, files, Bounded(limits(p)));
      page + PageThrough(filter, next, files, limits, p + 1)
  }

  /** Paging an unchanging ledger returns the whole listing: no gap, no duplicate, whatever the limits. */
  lemma {:induction false} PagingIsComplete(filter: Option<string>, cursor: Option<Key>, files: Files, limits: nat -> int, p: nat)
    ensures PageThrough(filter, cursor, files, limits, p) == AllEntries(filter, cursor, files)
    decreases |AllEntries(filter, cursor, files)|
  {
    var all := AllEntries(filter, cursor, files);
    var n := Bounded(limits(p));
    var (page, next) := PageOf(all, limits(p));
    if next.Some? {
      RestAfterCursor(filter, cursor, files, n);
      PagingIsComplete(filter, next, files, limits, p + 1);
      assert all == all[..n] + all[n..];
    }
  }

  /** The same with the ledger growing between pages: what is collected, and whether the last page was reached. */
  ghost function Session(filter: Option<string>, cursor: Option<Key>, stores: seq<Files>, limits: nat -> int): (seq<Entry>, bool)
    decreases |stores|
  {
    if stores == [] then ([], false)
    else
      var (page, next) := PageOf(AllEntries(filter, cursor, stores[0]), limits(|stores|));
      if next.None? then (page, true)
      else
        var (rest, done) := Session(filter, next, stores[1..], limits);
        (page + rest, done)
  }

  ghost predicate Growing(stores: seq<Files>) {
    forall i :: 0 <= i < |stores| - 1 ==> Grows(stores[i], stores[i + 1])
  }

  /** A page cut from a sorted listing, followed by anything sorted below its last entry, is sorted. */
  lemma PageThenRest(all: seq<Entry>, n: nat, rest: seq<Entry>)
    requires Sorted(all) && Sorted(rest) && 0 < n <= |all|
    requires forall e <- rest :: Newer(all[n - 1].key, e.key)
    ensures Sorted(all[..n] + rest)
    ensures forall e <- rest :: Newer(all[0].key, e.key)
  {
    forall i, j | 0 <= i < n && 0 <= j < |rest| ensures Newer(all[i].key, rest[j].key) {
      assert rest[j] in rest;
      assert i < n - 1 ==> Newer(all[i].key, all[n - 1].key);
    }
    forall e | e in rest ensures Newer(all[0].key, e.key) {
      var j :| 0 <= j < |rest| && rest[j] == e;
      assert Newer(all[0].key, rest[j].key);
    }
  }

  /** Whatever is appended between pages, a session keeps its keys strictly descending and below its cursor. */
  lemma {:induction false} SessionDescends(filter: Option<string>, cursor: Option<Key>, stores: seq<Files>, limits: nat -> int)
    ensures Sorted(Session(filter, cursor, stores, limits).0)
    ensures cursor.Some? ==> forall e <- Session(filter, cursor, stores, limits).0 :: Newer(cursor.value, e.key)
    decreases |stores|
  {
    if stores != [] {
      var all := AllEntries(filter, cursor, stores[0]);
      var (page, next) := PageOf(all, limits(|stores|));
      assert forall i :: 0 <= i < |all| ==> all[i] in all;
      if next.Some? {
        SessionDescends(filter, next, stores[1..], limits);
        var rest := Session(filter, next, stores[1..], limits).0;
        PageThenRest(all, |page|, rest);
        assert cursor.Some? ==> Newer(cursor.value, all[0].key);
      }
    }
  }

  /** A session that reaches the last page has returned every record present at its start, once each. */
  lemma {:induction false} SessionIsComplete(filter: Option<string>, cursor: Option<Key>, stores: seq<Files>, limits: nat -> int, e: Entry)
    requires Growing(stores) && stores != [] && Session(filter, cursor, stores, limits).1
    requires Present(filter, cursor, stores[0], e)
    ensures e in Session(filter, cursor, stores, limits).0
    ensures forall i, j :: 0 <= i < j < |Session(filter, cursor, stores, limits).0| ==>
              Session(filter, cursor, stores, limits).0[i] != Session(filter, cursor, stores, limits).0[j]
    decreases |stores|
  {
    SessionDescends(filter, cursor, stores, limits);
    var all := AllEntries(filter, cursor, stores[0]);
    var (page, next) := PageOf(all, limits(|stores|));
    if next.Some? && e !in page {
      SplitAtKey(all, |page|, e);
      assert Grows(stores[0], stores[0 + 1]);
      assert Growing(stores[1..]) by {
        forall i | 0 <= i < |stores[1..]| - 1 ensures Grows(stores[1..][i], stores[1..][i + 1]) {
          assert Grows(stores[i + 1], stores[i + 1 + 1]);
        }
      }
      SessionIsComplete(filter, next, stores[1..], limits, e);
    }
  }
}

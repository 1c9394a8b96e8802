/** How anchors and coupling-map members are written: their parsers read back what their notation says. */
module ZoneText {
  import opened Wrappers
  import opened Text
  import opened Paths
  import opened Zones
  import Braces
  import PathLaws

  lemma NotFound(s: string, c: char)
    ensures IndexOf(s, c) < 0 <==> c !in s
  {
  }

  lemma CutAtFirst(head: string, tail: string, c: char)
    requires c !in head
    ensures IndexOf(head + [c] + tail, c) == |head|
    ensures (head + [c] + tail)[..|head|] == head && (head + [c] + tail)[|head| + 1..] == tail
  {
    IndexOfAppend(head, tail, c);
  }

  // ---------------------------------------------------------------- anchors

  /** An anchor as written: a repo, a path, and possibly a symbol, which may itself contain colons. */
  datatype AnchorText = AnchorText(repo: string, path: string, symbol: Option<string>)

  function WriteAnchor(a: AnchorText): string {
    a.repo + [':'] + (if a.symbol.None? then a.path else a.path + [':'] + a.symbol.value)
  }

  /** The anchor parses exactly when its trimmed repo is a bare name and its trimmed path stays inside the repo, and
      then to those two, the path cleaned, and to its trimmed symbol. */
  lemma AnchorIsRead(a: AnchorText)
    requires ':' !in a.repo && ':' !in a.path
    ensures var repo, raw := TrimSpace(a.repo), TrimSpace(a.path);
      && RawPath(WriteAnchor(a)) == raw
      && ParseAnchor(WriteAnchor(a)) ==
           if ValidBareRepo(repo) && CleanRepoRelative(raw).Some?
           then Some(Anchor(repo, CleanRepoRelative(raw).value,
                            if a.symbol.None? then "" else TrimSpace(a.symbol.value)))
           else None
  {
    var rest := if a.symbol.None? then a.path else a.path + [':'] + a.symbol.value;
    CutAtFirst(a.repo, rest, ':');
    if a.symbol.None? {
      NotFound(a.path, ':');
    } else {
      CutAtFirst(a.path, a.symbol.value, ':');
    }
  }

  /** Without a colon there is no anchor. */
  lemma ColonIsNeeded(text: string)
    requires ':' !in text
    ensures ParseAnchor(text).None?
  {
    NotFound(text, ':');
  }

  /** Every text with a colon is an anchor so written, so the two lemmas say what any text parses to. */
  lemma EveryAnchorIsWritten(text: string) returns (a: AnchorText)
    requires ':' in text
    ensures WriteAnchor(a) == text && ':' !in a.repo && ':' !in a.path
  {
    NotFound(text, ':');
    var i := IndexOf(text, ':');
    var rest := text[i + 1..];
    var j := IndexOf(rest, ':');
    CutAt(text, i);
    if j < 0 {
      a := AnchorText(text[..i], rest, None);
    } else {
      CutAt(rest, j);
      a := AnchorText(text[..i], rest[..j], Some(rest[j + 1..]));
    }
  }

  lemma UpIsRefused()
    ensures CleanRepoRelative(DOT_DOT).None?
  {
    assert Segments(DOT_DOT) == [DOT_DOT];
    PathLaws.CleanSnoc([], DOT_DOT, false);
    assert [] + [DOT_DOT] == [DOT_DOT];
    RelativeIsJudged(DOT_DOT);
  }

  /** A bare repo names one directory below the root of the repos: it is a path of one segment, accepted as it stands,
      that is not the root itself; and it holds no backslash. */
  lemma BareRepoIsOneDirectory(repo: string)
    ensures ValidBareRepo(repo) <==>
              && |Segments(repo)| == 1 && CleanRepoRelative(repo) == Some(repo) && repo != DOT
              && '\\' !in repo
  {
    NotFound(repo, '/');
    if '/' !in repo {
      assert Segments(repo) == [repo];
      if repo == DOT_DOT {
        UpIsRefused();
      } else if repo != "" && repo != DOT {
        PathLaws.PlainPathIsItself(repo);
      }
    }
  }

  // ---------------------------------------------------------------- members

  /** A member as written: a repo, path expressions joined with `+`, and possibly a parenthesised note. */
  function WriteMember(repo: string, parts: seq<string>, note: string): string {
    repo + [':'] + (Join(parts, '+') + note)
  }

  predicate IsPart(part: string) {
    '+' !in part && '(' !in part
  }

  lemma {:induction false} JoinAvoids(parts: seq<string>, c: char, sep: char)
    requires c != sep && forall i :: 0 <= i < |parts| ==> c !in parts[i]
    ensures c !in Join(parts, sep)
  {
    if |parts| > 1 { JoinAvoids(parts[1..], c, sep); }
  }

  /** A member's repo is what stands before the first colon; its parts are those before the note. */
  lemma MemberIsRead(repo: string, parts: seq<string>, note: string)
    requires ':' !in repo && parts != [] && forall i :: 0 <= i < |parts| ==> IsPart(parts[i])
    requires note == "" || note[0] == '('
    ensures MemberRepo(WriteMember(repo, parts, note)) == TrimSpace(repo)
    ensures MemberParts(WriteMember(repo, parts, note)) == parts
  {
    var body := Join(parts, '+');
    CutAtFirst(repo, body + note, ':');
    JoinAvoids(parts, '(', '+');
    SplitJoin(parts, '+');
    if note == "" {
      assert body + note == body;
      NotFound(body, '(');
    } else {
      assert body + note == body + ['('] + note[1..];
      CutAtFirst(body, note[1..], '(');
    }
  }

  /** Every text with a colon is a member so written. */
  lemma EveryMemberIsWritten(text: string) returns (repo: string, parts: seq<string>, note: string)
    requires ':' in text
    ensures WriteMember(repo, parts, note) == text
    ensures ':' !in repo && parts != [] && forall i :: 0 <= i < |parts| ==> IsPart(parts[i])
    ensures note == "" || note[0] == '('
  {
    NotFound(text, ':');
    var i := IndexOf(text, ':');
    repo := text[..i];
    CutAt(text, i);
    var body;
    body, note := CutNote(text[i + 1..]);
    parts := Split(body, '+');
    JoinSplit(body, '+');
    Braces.PiecesAreSubstrings(body, '+', '(');
  }

  lemma CutNote(rest: string) returns (body: string, note: string)
    ensures body + note == rest && '(' !in body && (note == "" || note[0] == '(')
  {
    NotFound(rest, '(');
    var j := IndexOf(rest, '(');
    if j < 0 {
      body, note := rest, "";
    } else {
      body, note := rest[..j], rest[j..];
    }
  }

  /** The paths of a member are those of its parts, in order. */
  lemma {:induction false} PathsOfParts(a: seq<string>, b: seq<string>)
    ensures MemberPaths(a + b) == MemberPaths(a) + MemberPaths(b)
  {
    if b == [] {
      assert a + b == a;
    } else {
      var front, last := b[..|b| - 1], b[|b| - 1];
      PathsOfParts(a, front);
      assert (a + b)[..|a + b| - 1] == a + front && (a + b)[|a + b| - 1] == last;
      Associates(MemberPaths(a), MemberPaths(front), PartPaths(TrimSpace(last)));
    }
  }

  /** One part names nothing if it is blank, and otherwise the trimmed product of its brace groups. */
  lemma PathsOfPart(part: string, pattern: seq<Braces.Part>)
    requires TrimSpace(part) == Braces.Render(pattern)
    requires forall p <- pattern :: Braces.FlatPart(p)
    ensures MemberPaths([part]) == if Blank(part) then [] else TrimAll(Braces.Product(pattern))
  {
    TrimSpaceCuts(part);
    Braces.ExpandIsProduct(pattern);
    assert [part][..0] == [];
  }
}

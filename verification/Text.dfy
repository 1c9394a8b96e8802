/** Text primitives shared by the anchor, zone, brace and CSV models. */
module Text {

  /** White space that `strings.TrimSpace` and `String.prototype.trim` agree on. */
  predicate IsCommonSpace(c: char) {
    var n := c as int;
    9 <= n <= 13 || n == 0x20 || n == 0xA0 || n == 0x1680 || 0x2000 <= n <= 0x200A
    || n == 0x2028 || n == 0x2029 || n == 0x202F || n == 0x205F || n == 0x3000
  }

  /** White space in Go (`unicode.IsSpace`). */
  predicate IsSpace(c: char) {
    IsCommonSpace(c) || c as int == 0x85
  }

  /** White space in JavaScript. */
  predicate IsJsSpace(c: char) {
    IsCommonSpace(c) || c as int == 0xFEFF
  }

  /** The characters both sides trim, and the one each side has for itself. */
  lemma SpacesListed(c: char)
    ensures var common := {9, 10, 11, 12, 13, 0x20, 0xA0, 0x1680, 0x2000, 0x2001, 0x2002, 0x2003, 0x2004, 0x2005, 0x2006,
                           0x2007, 0x2008, 0x2009, 0x200A, 0x2028, 0x2029, 0x202F, 0x205F, 0x3000};
      && (IsSpace(c) <==> c as int in common + {0x85})
      && (IsJsSpace(c) <==> c as int in common + {0xFEFF})
  {
  }

  /** Whose white space a trim removes. */
  datatype Space = Go | JavaScript {
    predicate Has(c: char) {
      if Go? then IsSpace(c) else IsJsSpace(c)
    }
  }

  /** `s.trim().length === 0` in JavaScript. */
  predicate JsBlank(s: string) {
    forall c <- s :: IsJsSpace(c)
  }

  /** `strings.TrimSpace(s) == ""` in Go. */
  predicate Blank(s: string) {
    forall c <- s :: IsSpace(c)
  }

  function TrimLeft(s: string, space: Space): string {
    if s != [] && space.Has(s[0]) then TrimLeft(s[1..], space) else s
  }

  function TrimRight(s: string, space: Space): string {
    if s != [] && space.Has(s[|s| - 1]) then TrimRight(s[..|s| - 1], space) else s
  }

  function Trim(s: string, space: Space): string {
    TrimRight(TrimLeft(s, space), space)
  }

  /** Go's `strings.TrimSpace`. */
  function TrimSpace(s: string): string {
    Trim(s, Go)
  }

  /** JavaScript's `trim`. */
  function JsTrim(s: string): string {
    Trim(s, JavaScript)
  }

  predicate AllSpace(s: string, space: Space) {
    forall i :: 0 <= i < |s| ==> space.Has(s[i])
  }

  lemma {:induction false} TrimLeftIsSuffix(s: string, space: Space) returns (a: nat)
    ensures a <= |s| && TrimLeft(s, space) == s[a..] && AllSpace(s[..a], space)
    ensures a < |s| ==> !space.Has(s[a])
  {
    if s != [] && space.Has(s[0]) {
      a := TrimLeftIsSuffix(s[1..], space);
      forall i | 0 <= i < a + 1 ensures space.Has(s[i]) {
        assert i > 0 ==> s[i] == s[1..][..a][i - 1];
      }
      a := a + 1;
    } else {
      a := 0;
    }
  }

  lemma {:induction false} TrimRightIsPrefix(s: string, space: Space) returns (b: nat)
    ensures b <= |s| && TrimRight(s, space) == s[..b] && AllSpace(s[b..], space)
    ensures b > 0 ==> !space.Has(s[b - 1])
  {
    var n := |s| - 1;
    if s != [] && space.Has(s[n]) {
      b := TrimRightIsPrefix(s[..n], space);
      forall i | b <= i < |s| ensures space.Has(s[i]) {
        assert i < n ==> s[i] == s[..n][b..][i - b];
      }
    } else {
      b := |s|;
    }
  }

  /** Trimming cuts off white space only, and all of it. */
  lemma TrimCuts(s: string, space: Space) returns (a: nat, b: nat)
    ensures a <= b <= |s| && Trim(s, space) == s[a..b]
    ensures AllSpace(s[..a], space) && AllSpace(s[b..], space)
    ensures a < b ==> !space.Has(s[a]) && !space.Has(s[b - 1])
  {
    a := TrimLeftIsSuffix(s, space);
    var l := s[a..];
    var m := TrimRightIsPrefix(l, space);
    b := a + m;
    assert l[..m] == s[a..b];
    assert l[m..] == s[b..];
  }

  /** A text with space around a core that neither begins nor ends with space trims to the core. */
  lemma {:induction false} TrimIsCore(before: string, core: string, after: string, space: Space)
    requires AllSpace(before, space) && AllSpace(after, space)
    requires core != [] ==> !space.Has(core[0]) && !space.Has(core[|core| - 1])
    ensures Trim(before + core + after, space) == core
  {
    var s := before + core + after;
    var a, b := TrimCuts(s, space);
    forall i | 0 <= i < |before| ensures space.Has(s[i]) {
      assert s[i] == before[i];
    }
    forall i | |before| + |core| <= i < |s| ensures space.Has(s[i]) {
      assert s[i] == after[i - |before| - |core|];
    }
    EndsAgree(s, a, b, |before|, |before| + |core|, space);
    assert s[|before|..|before| + |core|] == core;
  }

  lemma EndsAgree(s: string, a: nat, b: nat, x: nat, y: nat, space: Space)
    requires a <= b <= |s| && x <= y <= |s|
    requires AllSpace(s[..a], space) && AllSpace(s[b..], space)
    requires (forall i :: 0 <= i < x ==> space.Has(s[i])) && forall i :: y <= i < |s| ==> space.Has(s[i])
    requires a < b ==> !space.Has(s[a]) && !space.Has(s[b - 1])
    requires x < y ==> !space.Has(s[x]) && !space.Has(s[y - 1])
    ensures s[a..b] == s[x..y]
  {
    assert forall i :: 0 <= i < a ==> space.Has(s[..a][i]) && s[i] == s[..a][i];
    assert forall i :: b <= i < |s| ==> space.Has(s[b..][i - b]) && s[i] == s[b..][i - b];
    if x < y {
      assert a < b;
      assert a == x && b == y;
    }
  }

  lemma TrimSpaceCuts(s: string)
    ensures forall c <- TrimSpace(s) :: c in s
    ensures TrimSpace(s) == "" <==> Blank(s)
  {
    var a, b := TrimCuts(s, Go);
    var r := TrimSpace(s);
    assert forall i :: 0 <= i < |r| ==> r[i] == s[a + i];
    if a == b {
      forall i | 0 <= i < |s| ensures IsSpace(s[i]) {
        assert i < a ==> s[i] == s[..a][i];
        assert i >= b ==> s[i] == s[b..][i - b];
      }
    } else {
      assert s[a] in s;
    }
  }

  /** The first position of `c` in `s`, or -1. */
  function IndexOf(s: string, c: char): (r: int)
    ensures -1 <= r < |s|
    ensures r == -1 ==> c !in s
    ensures r >= 0 ==> s[r] == c && c !in s[..r]
  {
    if s == [] then -1
    else if s[0] == c then 0
    else
      var k := IndexOf(s[1..], c);
      assert k >= 0 ==> s[..k + 1] == [s[0]] + s[1..][..k];
      assert s == [s[0]] + s[1..];
      if k < 0 then -1 else k + 1
  }

  /** The pieces of `s` between occurrences of `c`: `strings.Split` with a one-character separator. */
  function Split(s: string, c: char): (r: seq<string>)
    ensures |r| >= 1
    ensures forall i :: 0 <= i < |r| ==> c !in r[i]
    decreases |s|
  {
    var k := IndexOf(s, c);
    if k < 0 then [s] else [s[..k]] + Split(s[k + 1..], c)
  }

  function Join(parts: seq<string>, c: char): string {
    if parts == [] then ""
    else if |parts| == 1 then parts[0]
    else parts[0] + [c] + Join(parts[1..], c)
  }

  lemma JoinStep(head: string, rest: seq<string>, c: char)
    requires rest != []
    ensures Join([head] + rest, c) == head + [c] + Join(rest, c)
  {
    assert ([head] + rest)[1..] == rest;
  }

  lemma CutAt(s: string, k: nat)
    requires k < |s|
    ensures s == s[..k] + [s[k]] + s[k + 1..]
  {
  }

  lemma {:induction false} JoinSplit(s: string, c: char)
    ensures Join(Split(s, c), c) == s
    decreases |s|
  {
    var k := IndexOf(s, c);
    if k >= 0 {
      JoinSplit(s[k + 1..], c);
      JoinStep(s[..k], Split(s[k + 1..], c), c);
      CutAt(s, k);
    }
  }

  lemma IndexOfAppend(a: string, b: string, c: char)
    requires c !in a
    ensures IndexOf(a + [c] + b, c) == |a|
  {
    var s := a + [c] + b;
    assert s[|a|] == c;
    var k := IndexOf(s, c);
    assert c in s;
    assert forall j :: 0 <= j < |a| ==> s[j] == a[j];
    assert forall j :: 0 <= j < k ==> s[..k][j] == s[j];
  }

  lemma SplitStep(head: string, tail: string, c: char)
    requires c !in head
    ensures Split(head + [c] + tail, c) == [head] + Split(tail, c)
  {
    var s := head + [c] + tail;
    IndexOfAppend(head, tail, c);
    assert s[..|head|] == head;
    assert s[|head| + 1..] == tail;
  }

  lemma {:induction false} SplitJoin(parts: seq<string>, c: char)
    requires parts != []
    requires forall i :: 0 <= i < |parts| ==> c !in parts[i]
    ensures Split(Join(parts, c), c) == parts
  {
    if |parts| > 1 {
      SplitJoin(parts[1..], c);
      SplitStep(parts[0], Join(parts[1..], c), c);
    } else {
      assert c !in parts[0];
    }
  }
}

/** Code anchors, the coupling map, and the zone-routing check. */
module Zones {
  import opened Wrappers
  import opened Text
  import opened Paths
  import opened PlanModel
  import Braces

  // ---------------------------------------------------------------- anchors

  datatype Anchor = Anchor(repo: string, path: string, symbol: string)

  predicate ValidBareRepo(repo: string) {
    repo != "" && repo != DOT && repo != DOT_DOT && '/' !in repo && '\\' !in repo
  }

  /** `parseAnchor`: `repo:path[:symbol]` with a bare repo and a path inside it. */
  function ParseAnchor(anchor: string): Option<Anchor> {
    var i := IndexOf(anchor, ':');
    if i < 0 then None
    else
      var rest := anchor[i + 1..];
      var j := IndexOf(rest, ':');
      var repo := TrimSpace(anchor[..i]);
      var raw := TrimSpace(if j < 0 then rest else rest[..j]);
      if repo == "" || raw == "" || !ValidBareRepo(repo) then None
      else
        match CleanRepoRelative(raw)
        case None => None
        case Some(cleaned) => Some(Anchor(repo, cleaned, if j < 0 then "" else TrimSpace(rest[j + 1..])))
  }

  /** The path part of an anchor before cleaning. */
  function RawPath(anchor: string): string {
    var i := IndexOf(anchor, ':');
    if i < 0 then ""
    else
      var rest := anchor[i + 1..];
      var j := IndexOf(rest, ':');
      TrimSpace(if j < 0 then rest else rest[..j])
  }

  // ---------------------------------------------------------------- case folding

  ghost predicate KeepsPathSyntax(f: char -> char) {
    forall c: char :: (f(c) == '/' <==> c == '/') && (f(c) == '.' <==> c == '.')
  }

  /** A rune-by-rune lower-casing; all that matters of it here is that it neither makes nor loses a slash or a dot. */
  type CaseFold = f: char -> char | KeepsPathSyntax(f) witness c => c

  function Fold(lower: CaseFold, s: string): string {
    seq(|s|, i requires 0 <= i < |s| => lower(s[i]))
  }

  function FoldAll(lower: CaseFold, segs: seq<string>): seq<string> {
    seq(|segs|, i requires 0 <= i < |segs| => Fold(lower, segs[i]))
  }

  lemma {:induction false} FoldSplits(lower: CaseFold, s: string)
    ensures Segments(Fold(lower, s)) == FoldAll(lower, Segments(s))
    decreases |s|
  {
    var k := IndexOf(s, '/');
    if k < 0 {
      assert '/' !in Fold(lower, s);
    } else {
      FoldSplits(lower, s[k + 1..]);
      FoldAtSlash(lower, s, k);
    }
  }

  lemma FoldJoins(lower: CaseFold, a: string, b: string)
    ensures Fold(lower, a + b) == Fold(lower, a) + Fold(lower, b)
  {
  }

  lemma FoldAllCons(lower: CaseFold, head: string, rest: seq<string>)
    ensures FoldAll(lower, [head] + rest) == [Fold(lower, head)] + FoldAll(lower, rest)
  {
  }

  lemma FoldAtSlash(lower: CaseFold, s: string, k: nat)
    requires k < |s| && s[k] == '/' && '/' !in s[..k]
    requires Segments(Fold(lower, s[k + 1..])) == FoldAll(lower, Segments(s[k + 1..]))
    ensures Segments(Fold(lower, s)) == FoldAll(lower, Segments(s))
  {
    var head, tail := s[..k], s[k + 1..];
    CutAt(s, k);
    FoldJoins(lower, head + ['/'], tail);
    FoldJoins(lower, head, ['/']);
    assert Fold(lower, ['/']) == ['/'];
    assert '/' !in Fold(lower, head);
    SplitStep(Fold(lower, head), Fold(lower, tail), '/');
    SplitStep(head, tail, '/');
    FoldAllCons(lower, head, Segments(tail));
  }

  // ---------------------------------------------------------------- the coupling map

  datatype Member = Member(repo: string, prefixes: seq<string>)
  datatype Zone = Zone(id: string, members: seq<Member>)
  datatype RawZone = RawZone(id: string, members: seq<string>, usesAnchors: bool)

  datatype MapError =
    | EmptyZoneId
    | IllegalZoneId(id: string)
    | DuplicateZoneId(id: string)
    | UnknownAnchorsKey(id: string)
    | NoMembers(id: string)
    | BadMember(id: string, member: string)

  datatype Loaded = Zones(zones: seq<Zone>) | MapFailure(error: MapError)

  const ZONE_ENUM: seq<string> := ["none", "shared-write"]

  /** Zone ids a coupling map may declare: the plan vocabulary without the `none` sentinel. */
  predicate LegalZoneId(id: string) {
    id in ZONE_ENUM && id != "none"
  }

  function MemberRepo(member: string): string {
    var i := IndexOf(member, ':');
    if i < 0 then "" else TrimSpace(member[..i])
  }

  /** The path expressions of a member: up to the first parenthesis, split at `+`, trimmed. */
  function MemberParts(member: string): seq<string> {
    var i := IndexOf(member, ':');
    if i < 0 then []
    else
      var rest := member[i + 1..];
      var paren := IndexOf(rest, '(');
      Split(if paren < 0 then rest else rest[..paren], '+')
  }

  /** Every path a member names, braces expanded, in order. */
  function MemberPaths(parts: seq<string>): seq<string> {
    if parts == [] then [] else MemberPaths(parts[..|parts| - 1]) + PartPaths(TrimSpace(parts[|parts| - 1]))
  }

  function PartPaths(part: string): seq<string> {
    if part == "" then [] else TrimAll(Braces.ExpandBraces(part))
  }

  function TrimAll(xs: seq<string>): (r: seq<string>)
    ensures |r| == |xs| && forall i :: 0 <= i < |xs| ==> r[i] == TrimSpace(xs[i])
  {
    seq(|xs|, i requires 0 <= i < |xs| => TrimSpace(xs[i]))
  }

  /** A path the loader takes: inside the repo and not the repo root itself. */
  predicate LoadablePath(p: string) {
    CleanRepoRelative(p).Some? && CleanRepoRelative(p).value != DOT
  }

  /** The two sequences correspond, element by element. */
  ghost predicate Matched<A(!new), B(!new)>(xs: seq<A>, ys: seq<B>, rel: (A, B) -> bool) {
    |xs| == |ys| && forall k :: 0 <= k < |xs| ==> rel(xs[k], ys[k])
  }

  lemma MatchedSnoc<A(!new), B(!new)>(xs: seq<A>, ys: seq<B>, x: A, y: B, rel: (A, B) -> bool)
    requires Matched(xs, ys, rel) && rel(x, y)
    ensures Matched(xs + [x], ys + [y], rel)
  {
  }

  ghost predicate AllLoadable(paths: seq<string>) {
    forall i :: 0 <= i < |paths| ==> LoadablePath(paths[i])
  }

  ghost function Cleaning(lower: CaseFold): (string, string) -> bool {
    (path: string, prefix: string) => LoadablePath(path) && prefix == Fold(lower, CleanRepoRelative(path).value)
  }

  /** `prefixes` are the cleaned and folded `paths`, one by one. */
  ghost predicate CleanedTo(lower: CaseFold, paths: seq<string>, prefixes: seq<string>) {
    Matched(paths, prefixes, Cleaning(lower))
  }

  lemma CleanedAreLoadable(lower: CaseFold, paths: seq<string>, prefixes: seq<string>)
    requires CleanedTo(lower, paths, prefixes)
    ensures AllLoadable(paths)
  {
    forall i | 0 <= i < |paths| ensures LoadablePath(paths[i]) {
      assert Cleaning(lower)(paths[i], prefixes[i]);
    }
  }

  lemma OneBadPath(paths: seq<string>, i: nat)
    requires i < |paths| && !LoadablePath(paths[i])
    ensures !AllLoadable(paths)
  {
  }

  ghost predicate WellFormedMember(member: string) {
    && ':' in member
    && ValidBareRepo(MemberRepo(member))
    && MemberPaths(MemberParts(member)) != []
    && AllLoadable(MemberPaths(MemberParts(member)))
  }

  /** `m` is the folded, cleaned form of the member string. */
  ghost predicate MemberOf(lower: CaseFold, member: string, m: Member) {
    m.repo == Fold(lower, MemberRepo(member)) && CleanedTo(lower, MemberPaths(MemberParts(member)), m.prefixes)
  }

  method CleanOne(lower: CaseFold, path: string) returns (r: Option<string>)
    ensures r.Some? ==> Cleaning(lower)(path, r.value)
    ensures r.None? ==> !LoadablePath(path)
  {
    var cleaned := CleanRepoRelative(path);
    if cleaned.None? || cleaned.value == DOT {
      return None;
    }
    return Some(Fold(lower, cleaned.value));
  }

  /** Cleans and folds each path, or stops at the first that is not loadable. */
  method CleanPaths(lower: CaseFold, paths: seq<string>) returns (r: Option<seq<string>>, ghost bad: nat)
    ensures r.Some? ==> CleanedTo(lower, paths, r.value)
    ensures r.None? ==> bad < |paths| && !LoadablePath(paths[bad])
  {
    var prefixes := [];
    ghost var rel := Cleaning(lower);
    for k := 0 to |paths|
      invariant Matched(paths[..k], prefixes, rel)
    {
      var prefix := CleanOne(lower, paths[k]);
      if prefix.None? {
        return None, k;
      }
      MatchedSnoc(paths[..k], prefixes, paths[k], prefix.value, rel);
      assert paths[..k + 1] == paths[..k] + [paths[k]];
      prefixes := prefixes + [prefix.value];
    }
    assert paths[..|paths|] == paths;
    return Some(prefixes), 0;
  }

  /** `parseZoneMember`, followed by the loader's "is not repo:path" test. */
  method ParseZoneMember(lower: CaseFold, member: string) returns (r: Option<Member>)
    ensures r.Some? <==> WellFormedMember(member)
    ensures r.Some? ==> MemberOf(lower, member, r.value)
  {
    var repo := MemberRepo(member);
    if IndexOf(member, ':') < 0 || !ValidBareRepo(repo) {
      return None;
    }
    var paths := MemberPaths(MemberParts(member));
    var prefixes, bad := CleanPaths(lower, paths);
    if prefixes.None? {
      OneBadPath(paths, bad);
      return None;
    }
    CleanedAreLoadable(lower, paths, prefixes.value);
    if |prefixes.value| == 0 {
      return None;
    }
    return Some(Member(Fold(lower, repo), prefixes.value));
  }

  ghost predicate AllWellFormed(members: seq<string>) {
    forall k :: 0 <= k < |members| ==> WellFormedMember(members[k])
  }

  ghost predicate WellFormedZone(z: RawZone) {
    && LegalZoneId(TrimSpace(z.id))
    && !z.usesAnchors
    && z.members != []
    && AllWellFormed(z.members)
  }

  ghost predicate WellFormedMap(raw: seq<RawZone>) {
    && (forall i :: 0 <= i < |raw| ==> WellFormedZone(raw[i]))
    && forall i, j :: 0 <= i < j < |raw| ==> TrimSpace(raw[i].id) != TrimSpace(raw[j].id)
  }

  ghost function Parsing(lower: CaseFold): (string, Member) -> bool {
    (raw: string, m: Member) => WellFormedMember(raw) && MemberOf(lower, raw, m)
  }

  ghost predicate MembersOf(lower: CaseFold, raw: seq<string>, members: seq<Member>) {
    Matched(raw, members, Parsing(lower))
  }

  ghost predicate ZoneOf(lower: CaseFold, raw: RawZone, z: Zone) {
    z.id == TrimSpace(raw.id) && MembersOf(lower, raw.members, z.members)
  }

  /** Why zone `i` is refused: the first test it fails. */
  ghost predicate Rejects(raw: seq<RawZone>, i: int, e: MapError)
    requires 0 <= i < |raw|
  {
    var id := TrimSpace(raw[i].id);
    if id == "" then e == EmptyZoneId
    else if !LegalZoneId(id) then e == IllegalZoneId(id)
    else if exists j :: 0 <= j < i && TrimSpace(raw[j].id) == id then e == DuplicateZoneId(id)
    else ZoneRejects(raw[i], e)
  }

  ghost predicate ZoneRejects(z: RawZone, e: MapError) {
    var id := TrimSpace(z.id);
    if z.usesAnchors then e == UnknownAnchorsKey(id)
    else if z.members == [] then e == NoMembers(id)
    else e.BadMember? && e.id == id && FirstIllFormed(z.members, e.member)
  }

  ghost predicate FirstIllFormed(members: seq<string>, bad: string) {
    !WellFormedMember(bad) && exists k :: 0 <= k < |members| && members[k] == bad && AllWellFormed(members[..k])
  }

  method LoadZone(lower: CaseFold, raw: RawZone) returns (r: Loaded)
    requires LegalZoneId(TrimSpace(raw.id))
    ensures r.Zones? <==> WellFormedZone(raw)
    ensures r.Zones? ==> |r.zones| == 1 && ZoneOf(lower, raw, r.zones[0])
    ensures r.MapFailure? ==> ZoneRejects(raw, r.error)
  {
    var id := TrimSpace(raw.id);
    if raw.usesAnchors {
      return MapFailure(UnknownAnchorsKey(id));
    }
    if |raw.members| == 0 {
      return MapFailure(NoMembers(id));
    }
    var members, bad := ParseMembers(lower, raw.members);
    match members
    case None => return MapFailure(BadMember(id, bad));
    case Some(ms) => return Zones([Zone(id, ms)]);
  }

  method ParseMembers(lower: CaseFold, raw: seq<string>) returns (r: Option<seq<Member>>, bad: string)
    ensures r.Some? <==> AllWellFormed(raw)
    ensures r.Some? ==> MembersOf(lower, raw, r.value)
    ensures r.None? ==> FirstIllFormed(raw, bad)
  {
    var members := [];
    ghost var rel := Parsing(lower);
    for k := 0 to |raw|
      invariant Matched(raw[..k], members, rel)
    {
      var m := ParseZoneMember(lower, raw[k]);
      if m.None? {
        MatchedAreWellFormed(lower, raw[..k], members);
        StopsAtIllFormed(raw, k);
        return None, raw[k];
      }
      assert rel(raw[k], m.value);
      MatchedSnoc(raw[..k], members, raw[k], m.value, rel);
      assert raw[..k + 1] == raw[..k] + [raw[k]];
      members := members + [m.value];
    }
    assert raw[..|raw|] == raw;
    MatchedAreWellFormed(lower, raw, members);
    return Some(members), "";
  }

  lemma MatchedAreWellFormed(lower: CaseFold, raw: seq<string>, members: seq<Member>)
    requires Matched(raw, members, Parsing(lower))
    ensures AllWellFormed(raw)
  {
    forall k | 0 <= k < |raw| ensures WellFormedMember(raw[k]) {
      assert Parsing(lower)(raw[k], members[k]);
    }
  }

  lemma StopsAtIllFormed(raw: seq<string>, k: nat)
    requires k < |raw| && AllWellFormed(raw[..k]) && !WellFormedMember(raw[k])
    ensures FirstIllFormed(raw, raw[k]) && !AllWellFormed(raw)
  {
  }

  /** `loadNoGoZones` from the decoded sequence on: loads every zone or fails the whole map. */
  method LoadNoGoZones(lower: CaseFold, raw: seq<RawZone>) returns (r: Loaded)
    ensures r.Zones? <==> WellFormedMap(raw)
    ensures r.Zones? ==> |r.zones| == |raw| && forall i :: 0 <= i < |raw| ==> ZoneOf(lower, raw[i], r.zones[i])
    ensures r.Zones? ==> forall z <- r.zones :: z.id != "none" && z.members != []
    ensures r.MapFailure? ==> exists i :: 0 <= i < |raw| && WellFormedMap(raw[..i]) && Rejects(raw, i, r.error)
  {
    var zones: seq<Zone> := [];
    var seen: set<string> := {};
    for i := 0 to |raw|
      invariant |zones| == i
      invariant forall j :: 0 <= j < i ==> WellFormedZone(raw[j]) && ZoneOf(lower, raw[j], zones[j])
      invariant forall id :: id in seen <==> exists j :: 0 <= j < i && TrimSpace(raw[j].id) == id
      invariant forall j, k :: 0 <= j < k < i ==> TrimSpace(raw[j].id) != TrimSpace(raw[k].id)
    {
      assert WellFormedMap(raw[..i]);
      var id := TrimSpace(raw[i].id);
      if id == "" {
        return MapFailure(EmptyZoneId);
      }
      if !LegalZoneId(id) {
        return MapFailure(IllegalZoneId(id));
      }
      if id in seen {
        return MapFailure(DuplicateZoneId(id));
      }
      seen := seen + {id};
      var loaded := LoadZone(lower, raw[i]);
      if loaded.MapFailure? {
        return loaded;
      }
      zones := zones + loaded.zones;
    }
    return Zones(zones);
  }

  // ---------------------------------------------------------------- membership

  /** The path is one of the prefixes or lies below one, by the gate's string test. */
  predicate MatchesAny(prefixes: seq<string>, path: string) {
    exists pre <- prefixes :: path == pre || pre + "/" <= path
  }

  predicate InMember(lower: CaseFold, a: Anchor, m: Member) {
    m.repo == Fold(lower, a.repo) && MatchesAny(m.prefixes, Fold(lower, a.path))
  }

  /** `anchorInZone`. */
  predicate AnchorInZone(lower: CaseFold, a: Anchor, z: Zone) {
    exists m <- z.members :: InMember(lower, a, m)
  }

  /** Up to case, the resolved segments of a member path are a prefix of the anchor's resolved segments. */
  ghost predicate Under(lower: CaseFold, memberPath: string, anchorPath: string) {
    FoldAll(lower, Resolve(memberPath)) <= FoldAll(lower, Resolve(anchorPath))
  }

  lemma PrefixTestIsUnder(lower: CaseFold, memberPath: string, anchorPath: string)
    requires LoadablePath(memberPath) && CleanRepoRelative(anchorPath).Some?
    ensures var pre := Fold(lower, CleanRepoRelative(memberPath).value);
            var path := Fold(lower, CleanRepoRelative(anchorPath).value);
      (path == pre || pre + "/" <= path) <==> Under(lower, memberPath, anchorPath)
  {
    var memberClean, anchorClean := CleanRepoRelative(memberPath).value, CleanRepoRelative(anchorPath).value;
    AcceptedIffNeverAboveRoot(memberPath);
    AcceptedIffNeverAboveRoot(anchorPath);
    StringTestIsSegmentPrefix(Fold(lower, memberClean), Fold(lower, anchorClean));
    FoldSplits(lower, memberClean);
    FoldSplits(lower, anchorClean);
    if Resolve(anchorPath) == [] {
      assert Segments(DOT) == [DOT];
      assert Resolve(memberPath)[0] in Resolve(memberPath);
    }
  }

  // ---------------------------------------------------------------- zone_routing

  datatype RoutingComplaint =
    | MapNotLoaded(error: MapError)
    | NotRoutedToHuman
    | EffortTooLow
    | UndeclaredZone(anchor: string, zone: string)
    | ZeroAnchors

  /** The item names a zone other than the `none` sentinel. */
  ghost predicate Coupled(it: PlanItem) {
    exists z <- it.couplingZones :: z != "none"
  }

  ghost predicate HitsUndeclared(lower: CaseFold, zones: seq<Zone>, it: PlanItem, anchor: string, z: Zone) {
    && anchor in it.anchors && z in zones
    && ParseAnchor(anchor).Some? && AnchorInZone(lower, ParseAnchor(anchor).value, z)
    && z.id !in it.couplingZones
  }

  ghost predicate RoutingRules(lower: CaseFold, zones: seq<Zone>, it: PlanItem) {
    && (Coupled(it) ==> it.tier1 == NeedsHuman && it.effort in {High, Max})
    && forall anchor, z :: !HitsUndeclared(lower, zones, it, anchor, z)
  }

  method RealZones(it: PlanItem) returns (named: seq<string>)
    ensures named != [] <==> Coupled(it)
    ensures forall z :: z in named <==> z in it.couplingZones && z != "none"
  {
    named := [];
    for i := 0 to |it.couplingZones|
      invariant forall z :: z in named <==> z in it.couplingZones[..i] && z != "none"
    {
      assert it.couplingZones[..i + 1] == it.couplingZones[..i] + [it.couplingZones[i]];
      if it.couplingZones[i] != "none" {
        named := named + [it.couplingZones[i]];
      }
    }
    assert it.couplingZones[..|it.couplingZones|] == it.couplingZones;
    if named != [] { assert named[0] in named; }
  }

  ghost predicate HitFault(lower: CaseFold, zones: seq<Zone>, it: PlanItem, c: RoutingComplaint) {
    c.UndeclaredZone? && exists z :: HitsUndeclared(lower, zones, it, c.anchor, z) && c.zone == z.id
  }

  method UndeclaredZones(lower: CaseFold, zones: seq<Zone>, it: PlanItem) returns (complaints: seq<RoutingComplaint>)
    ensures forall c :: c in complaints <==> HitFault(lower, zones, it, c)
    ensures complaints == [] <==> forall anchor, z :: !HitsUndeclared(lower, zones, it, anchor, z)
  {
    complaints := [];
    for i := 0 to |it.anchors|
      invariant forall c :: c in complaints <==>
                  c.UndeclaredZone? && c.anchor in it.anchors[..i]
                  && exists z :: HitsUndeclared(lower, zones, it, c.anchor, z) && c.zone == z.id
    {
      var anchor := it.anchors[i];
      assert it.anchors[..i + 1] == it.anchors[..i] + [anchor];
      var more := ZonesHitBy(lower, zones, it, anchor);
      complaints := complaints + more;
    }
    assert it.anchors[..|it.anchors|] == it.anchors;
    if complaints != [] {
      assert complaints[0] in complaints;
    } else {
      forall anchor, z ensures !HitsUndeclared(lower, zones, it, anchor, z) {
        assert UndeclaredZone(anchor, z.id) !in complaints;
      }
    }
  }

  method ZonesHitBy(lower: CaseFold, zones: seq<Zone>, it: PlanItem, anchor: string)
    returns (complaints: seq<RoutingComplaint>)
    requires anchor in it.anchors
    ensures forall c :: c in complaints <==>
              c.UndeclaredZone? && c.anchor == anchor
              && exists z :: HitsUndeclared(lower, zones, it, anchor, z) && c.zone == z.id
  {
    complaints := [];
    var parsed := ParseAnchor(anchor);
    if parsed.None? {
      return;
    }
    var hit := Select(zones, z => AnchorInZone(lower, parsed.value, z) && z.id !in it.couplingZones);
    forall z ensures z in hit <==> HitsUndeclared(lower, zones, it, anchor, z) {
    }
    complaints := Undeclared(anchor, hit);
  }

  method Undeclared(anchor: string, hit: seq<Zone>) returns (complaints: seq<RoutingComplaint>)
    ensures forall c :: c in complaints <==> c.UndeclaredZone? && c.anchor == anchor && exists z :: z in hit && c.zone == z.id
  {
    complaints := [];
    for k := 0 to |hit|
      invariant forall c :: c in complaints <==>
                  c.UndeclaredZone? && c.anchor == anchor && exists z :: z in hit[..k] && c.zone == z.id
    {
      assert hit[..k + 1] == hit[..k] + [hit[k]];
      complaints := complaints + [UndeclaredZone(anchor, hit[k].id)];
    }
    assert hit[..|hit|] == hit;
  }

  /** The elements that satisfy `f`, in order. */
  method Select<T(==,!new)>(xs: seq<T>, f: T -> bool) returns (r: seq<T>)
    ensures forall x :: x in r <==> x in xs && f(x)
  {
    r := [];
    for k := 0 to |xs|
      invariant forall x :: x in r <==> x in xs[..k] && f(x)
    {
      assert xs[..k + 1] == xs[..k] + [xs[k]];
      if f(xs[k]) {
        r := r + [xs[k]];
      }
    }
    assert xs[..|xs|] == xs;
  }

  /** An internal inconsistency: a coupled item not routed to a human, or with too low an effort. */
  ghost predicate CouplingFault(it: PlanItem, c: RoutingComplaint) {
    Coupled(it) && ((c == NotRoutedToHuman && it.tier1 != NeedsHuman) || (c == EffortTooLow && it.effort !in {High, Max}))
  }

  /** What a complaint or flag of the check must be about. */
  ghost predicate RoutingFault(lower: CaseFold, it: PlanItem, coupling: Loaded, multiItem: bool, c: RoutingComplaint) {
    match coupling
    case MapFailure(error) => c == MapNotLoaded(error)
    case Zones(zones) =>
      CouplingFault(it, c) || HitFault(lower, zones, it, c) || (c == ZeroAnchors && multiItem && it.anchors == [])
  }

  method CouplingFaults(it: PlanItem) returns (complaints: seq<RoutingComplaint>)
    ensures forall c :: c in complaints <==> CouplingFault(it, c)
    ensures complaints == [] <==> (Coupled(it) ==> it.tier1 == NeedsHuman && it.effort in {High, Max})
  {
    complaints := [];
    var named := RealZones(it);
    if |named| > 0 {
      if it.tier1 != NeedsHuman {
        complaints := complaints + [NotRoutedToHuman];
      }
      if it.effort != High && it.effort != Max {
        complaints := complaints + [EffortTooLow];
      }
    }
  }

  /** `checkZoneRouting`: fails closed on an unloadable map; otherwise passes exactly on the routing rules,
      and flags an item without anchors on a multi-item plan without failing it. */
  method CheckZoneRouting(lower: CaseFold, it: PlanItem, coupling: Loaded, multiItem: bool)
    returns (pass: bool, complaints: seq<RoutingComplaint>)
    ensures pass <==> coupling.Zones? && RoutingRules(lower, coupling.zones, it)
    ensures forall c :: c in complaints <==> RoutingFault(lower, it, coupling, multiItem, c)
  {
    if coupling.MapFailure? {
      return false, [MapNotLoaded(coupling.error)];
    }
    var inconsistent := CouplingFaults(it);
    var undeclared := UndeclaredZones(lower, coupling.zones, it);
    complaints := inconsistent + undeclared;
    pass := |complaints| == 0;
    if multiItem && |it.anchors| == 0 {
      complaints := complaints + [ZeroAnchors];
    }
  }

  // ---------------------------------------------------------------- the safety property

  /** The zone of `raw` claims the anchor: same repo and one of its member paths above the anchor's, up to case. */
  ghost predicate Claims(lower: CaseFold, raw: RawZone, anchor: string) {
    exists m <- raw.members :: ClaimsVia(lower, m, anchor)
  }

  ghost predicate ClaimsVia(lower: CaseFold, member: string, anchor: string) {
    && ParseAnchor(anchor).Some?
    && Fold(lower, MemberRepo(member)) == Fold(lower, ParseAnchor(anchor).value.repo)
    && AnyUnder(lower, MemberPaths(MemberParts(member)), RawPath(anchor))
  }

  ghost predicate AnyUnder(lower: CaseFold, paths: seq<string>, anchorPath: string) {
    exists j :: 0 <= j < |paths| && Under(lower, paths[j], anchorPath)
  }

  lemma ParsedPathIsClean(anchor: string)
    requires ParseAnchor(anchor).Some?
    ensures RawPath(anchor) != "" && CleanRepoRelative(RawPath(anchor)) == Some(ParseAnchor(anchor).value.path)
  {
  }

  lemma PrefixesDecideUnder(lower: CaseFold, paths: seq<string>, prefixes: seq<string>, anchorPath: string)
    requires CleanedTo(lower, paths, prefixes) && CleanRepoRelative(anchorPath).Some?
    ensures MatchesAny(prefixes, Fold(lower, CleanRepoRelative(anchorPath).value)) <==> AnyUnder(lower, paths, anchorPath)
  {
    var path := Fold(lower, CleanRepoRelative(anchorPath).value);
    forall j | 0 <= j < |paths|
      ensures (path == prefixes[j] || prefixes[j] + "/" <= path) <==> Under(lower, paths[j], anchorPath)
    {
      assert Cleaning(lower)(paths[j], prefixes[j]);
      PrefixTestIsUnder(lower, paths[j], anchorPath);
    }
    if MatchesAny(prefixes, path) {
      var pre :| pre in prefixes && (path == pre || pre + "/" <= path);
      var j :| 0 <= j < |prefixes| && prefixes[j] == pre;
      assert Under(lower, paths[j], anchorPath);
    }
    if AnyUnder(lower, paths, anchorPath) {
      var j :| 0 <= j < |paths| && Under(lower, paths[j], anchorPath);
      assert prefixes[j] in prefixes;
    }
  }

  lemma MemberDecidesClaim(lower: CaseFold, member: string, m: Member, anchor: string)
    requires MemberOf(lower, member, m) && ParseAnchor(anchor).Some?
    ensures InMember(lower, ParseAnchor(anchor).value, m) <==> ClaimsVia(lower, member, anchor)
  {
    ParsedPathIsClean(anchor);
    PrefixesDecideUnder(lower, MemberPaths(MemberParts(member)), m.prefixes, RawPath(anchor));
  }

  /** The loader's cleaned strings and the gate's string test decide exactly the claim on the raw map. */
  lemma InZoneIffClaimed(lower: CaseFold, raw: RawZone, z: Zone, anchor: string)
    requires ZoneOf(lower, raw, z) && ParseAnchor(anchor).Some?
    ensures AnchorInZone(lower, ParseAnchor(anchor).value, z) <==> Claims(lower, raw, anchor)
  {
    var a := ParseAnchor(anchor).value;
    forall k | 0 <= k < |z.members|
      ensures InMember(lower, a, z.members[k]) <==> ClaimsVia(lower, raw.members[k], anchor)
    {
      assert Parsing(lower)(raw.members[k], z.members[k]);
      MemberDecidesClaim(lower, raw.members[k], z.members[k], anchor);
    }
    SomeMember(raw.members, z.members, (r: string) => ClaimsVia(lower, r, anchor), (m: Member) => InMember(lower, a, m));
  }

  lemma SomeMember<A(!new), B(!new)>(xs: seq<A>, ys: seq<B>, p: A -> bool, q: B -> bool)
    requires |xs| == |ys| && forall k :: 0 <= k < |xs| ==> p(xs[k]) == q(ys[k])
    ensures (exists x <- xs :: p(x)) <==> (exists y <- ys :: q(y))
  {
    if x :| x in xs && p(x) {
      var k :| 0 <= k < |xs| && xs[k] == x;
      assert q(ys[k]) && ys[k] in ys;
    }
    if y :| y in ys && q(y) {
      var k :| 0 <= k < |ys| && ys[k] == y;
      assert p(xs[k]) && xs[k] in xs;
    }
  }

  /** No claimed anchor gets past the gate uncoupled: an item that passes against a loaded map declares the
      claiming zone, routes to a human, and has high or max effort. */
  lemma ClaimedAnchorIsRouted(lower: CaseFold, raw: seq<RawZone>, zones: seq<Zone>, it: PlanItem, i: nat, anchor: string)
    requires WellFormedMap(raw) && |zones| == |raw| && i < |raw|
    requires forall k :: 0 <= k < |raw| ==> ZoneOf(lower, raw[k], zones[k])
    requires RoutingRules(lower, zones, it)
    requires anchor in it.anchors && ParseAnchor(anchor).Some? && Claims(lower, raw[i], anchor)
    ensures TrimSpace(raw[i].id) in it.couplingZones
    ensures it.tier1 == NeedsHuman && it.effort in {High, Max}
  {
    InZoneIffClaimed(lower, raw[i], zones[i], anchor);
    assert !HitsUndeclared(lower, zones, it, anchor, zones[i]);
    assert WellFormedZone(raw[i]);
    assert zones[i].id in it.couplingZones && zones[i].id != "none";
  }

  /** Why the loader must refuse the id `none`: a zone so called lets a claimed, low-effort item through. */
  lemma ZoneCalledNoneWouldSlip(lower: CaseFold, z: Zone, it: PlanItem, anchor: string)
    requires z.id == "none" && it.couplingZones == ["none"] && it.anchors == [anchor]
    requires ParseAnchor(anchor).Some? && AnchorInZone(lower, ParseAnchor(anchor).value, z)
    ensures RoutingRules(lower, [z], it)
  {
    assert it.couplingZones[0] == "none";
  }
}

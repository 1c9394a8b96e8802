/** Anchor verification against the last-pushed mainline, through the per-run probe cache, and the
    shared-anchor warning. */
module Anchors {
  import opened Wrappers
  import opened Text
  import opened Tree
  import opened PlanModel
  import opened Zones

  /** What git answers during one plan run. */
  datatype Git = Git(
    repoDir: string -> string,
    mainAvailable: string -> bool,
    onMain: (string, string) -> bool,
    show: (string, string) -> Option<string>)

  const NUL: char := '\0'

  predicate NulFree(s: string) {
    NUL !in s
  }

  /** No process takes an argument with a NUL in it, so git answers neither question about one. */
  ghost predicate ArgumentsAreNulFree(git: Git) {
    forall r, p :: !NulFree(r) || !NulFree(p) ==> !git.onMain(r, p) && git.show(r, p).None?
  }

  function BlobKey(repoDir: string, path: string): string {
    repoDir + [NUL] + path
  }

  /** A key made of NUL-free parts is made of no other pair. */
  lemma BlobKeyInjective(r: string, p: string, r': string, p': string)
    requires NulFree(r') && NulFree(p') && BlobKey(r, p) == BlobKey(r', p')
    ensures r == r' && p == p'
  {
    var k, k' := BlobKey(r, p), BlobKey(r', p');
    assert k[|r|] == NUL;
    assert forall i :: 0 <= i < |r'| ==> k'[i] == r'[i];
    assert forall i :: |r'| < i < |k'| ==> k'[i] == p'[i - |r'| - 1];
    assert |r| == |r'|;
    assert r == k[..|r|] && r' == k'[..|r|];
    assert p == k[|r| + 1..] && p' == k'[|r| + 1..];
  }

  /** The memo of one plan run; `probes` and `fetches` record the git processes it has spawned. */
  class AnchorCache {
    const git: Git
    var originMain: map<string, bool>
    var blob: map<string, string>
    ghost var probes: seq<string>
    ghost var fetches: seq<(string, string)>

    constructor (git: Git)
      requires ArgumentsAreNulFree(git)
      ensures Valid() && this.git == git && probes == [] && fetches == []
    {
      this.git := git;
      originMain, blob, probes, fetches := map[], map[], [], [];
    }

    /** Cached answers are git's answers; a repo is probed at most once and a readable blob fetched at most once. */
    ghost predicate Valid()
      reads this
    {
      && ArgumentsAreNulFree(git)
      && (forall d <- originMain :: originMain[d] == git.mainAvailable(d))
      && (forall d :: d in probes <==> d in originMain)
      && (forall i, j :: 0 <= i < j < |probes| ==> probes[i] != probes[j])
      && (forall k <- blob :: FetchedAs(k))
      && (forall i :: 0 <= i < |fetches| && git.show(fetches[i].0, fetches[i].1).Some? ==>
                        BlobKey(fetches[i].0, fetches[i].1) in blob)
      && (forall i, j :: 0 <= i < j < |fetches| && fetches[i] == fetches[j] ==>
                           git.show(fetches[i].0, fetches[i].1).None?)
    }

    ghost predicate FetchedAs(k: string)
      requires k in blob
      reads this
    {
      exists r, p :: NulFree(r) && NulFree(p) && BlobKey(r, p) == k && git.show(r, p) == Some(blob[k])
    }

    method OriginMainAvailable(repoDir: string) returns (v: bool)
      requires Valid()
      modifies this`originMain, this`probes
      ensures Valid() && v == git.mainAvailable(repoDir)
      ensures probes == if repoDir in old(originMain) then old(probes) else old(probes) + [repoDir]
    {
      if repoDir in originMain {
        return originMain[repoDir];
      }
      v := git.mainAvailable(repoDir);
      probes := probes + [repoDir];
      originMain := originMain[repoDir := v];
    }

    /** Blob and key `k` hold what git shows for `r`, `p` whenever the key is cached. */
    lemma CachedIsShown(r: string, p: string)
      requires Valid() && BlobKey(r, p) in blob
      ensures git.show(r, p) == Some(blob[BlobKey(r, p)])
    {
      var k := BlobKey(r, p);
      assert FetchedAs(k);
      var r', p' :| NulFree(r') && NulFree(p') && BlobKey(r', p') == k && git.show(r', p') == Some(blob[k]);
      BlobKeyInjective(r, p, r', p');
    }

    method BlobOnOriginMain(repoDir: string, path: string) returns (r: Option<string>)
      requires Valid()
      modifies this`blob, this`fetches
      ensures Valid() && r == git.show(repoDir, path)
      ensures fetches == if BlobKey(repoDir, path) in old(blob) then old(fetches) else old(fetches) + [(repoDir, path)]
    {
      var key := BlobKey(repoDir, path);
      if key in blob {
        CachedIsShown(repoDir, path);
        return Some(blob[key]);
      }
      r := git.show(repoDir, path);
      ghost var was := blob;
      if r.Some? {
        blob := blob[key := r.value];
      }
      fetches := fetches + [(repoDir, path)];
      forall k | k in blob ensures FetchedAs(k) {
        if k in was && k != key {
          var a, b :| NulFree(a) && NulFree(b) && BlobKey(a, b) == k && git.show(a, b) == Some(was[k]);
          assert git.show(a, b) == Some(blob[k]);
        } else {
          assert BlobKey(repoDir, path) == k && git.show(repoDir, path) == Some(blob[k]);
        }
      }
    }
  }

  // ---------------------------------------------------------------- anchors_exist

  datatype AnchorComplaint =
    | Malformed(anchor: string)
    | MainUnavailable(anchor: string, repo: string)
    | NotOnMain(anchor: string, repo: string, path: string)
    | SymbolUncheckable(anchor: string, symbol: string)
    | SymbolMissing(anchor: string, symbol: string)

  predicate IsHard(c: AnchorComplaint) {
    c.Malformed? || c.MainUnavailable? || c.NotOnMain?
  }

  /** `symbolInBlob`: a case-insensitive substring hit. */
  predicate SymbolInBlob(lower: CaseFold, blob: string, symbol: string) {
    Contains(Fold(lower, blob), Fold(lower, symbol))
  }

  predicate Contains(s: string, t: string) {
    t <= s || (s != "" && Contains(s[1..], t))
  }

  /** The outcome for one anchor when git is asked afresh. */
  function AnchorVerdict(git: Git, lower: CaseFold, anchor: string): Option<AnchorComplaint> {
    match ParseAnchor(anchor)
    case None => Some(Malformed(anchor))
    case Some(a) =>
      var dir := git.repoDir(a.repo);
      if !git.mainAvailable(dir) then Some(MainUnavailable(anchor, a.repo))
      else if !git.onMain(dir, a.path) then Some(NotOnMain(anchor, a.repo, a.path))
      else SymbolVerdict(git, lower, anchor, a)
  }

  /** The outcome for the symbol of an anchor whose path is on the mainline. */
  function SymbolVerdict(git: Git, lower: CaseFold, anchor: string, a: Anchor): Option<AnchorComplaint> {
    if a.symbol == "" then None
    else
      match git.show(git.repoDir(a.repo), a.path)
      case None => Some(SymbolUncheckable(anchor, a.symbol))
      case Some(blob) =>
        if SymbolInBlob(lower, blob, a.symbol) then None else Some(SymbolMissing(anchor, a.symbol))
  }

  predicate OccursAt(t: string, s: string, i: int) {
    0 <= i <= |s| - |t| && s[i..i + |t|] == t
  }

  /** The text occurs in the other, at some position. */
  ghost predicate Occurs(t: string, s: string) {
    exists i :: OccursAt(t, s, i)
  }

  lemma OccursInTail(t: string, s: string, i: int)
    requires s != "" && i > 0
    ensures OccursAt(t, s, i) <==> OccursAt(t, s[1..], i - 1)
  {
    if i <= |s| - |t| { assert s[1..][i - 1..i - 1 + |t|] == s[i..i + |t|]; }
  }

  lemma {:induction false} ContainsIsOccurs(s: string, t: string)
    ensures Contains(s, t) <==> Occurs(t, s)
    decreases |s|
  {
    if t <= s {
      assert OccursAt(t, s, 0);
    } else if s != "" {
      ContainsIsOccurs(s[1..], t);
      assert !OccursAt(t, s, 0);
      forall i | i > 0 ensures OccursAt(t, s, i) <==> OccursAt(t, s[1..], i - 1) {
        OccursInTail(t, s, i);
      }
      if i :| OccursAt(t, s[1..], i) { assert OccursAt(t, s, i + 1); }
      if i :| OccursAt(t, s, i) { assert OccursAt(t, s[1..], i - 1); }
    } else {
      assert forall i :: !OccursAt(t, s, i);
    }
  }

  /** What each complaint about an anchor says, case ignored in the search for its symbol. */
  ghost predicate AnchorFault(git: Git, lower: CaseFold, anchor: string, c: AnchorComplaint) {
    && c.anchor == anchor
    && match ParseAnchor(anchor)
       case None => c.Malformed?
       case Some(a) =>
         match c
         case Malformed(_) => false
         case MainUnavailable(_, repo) => repo == a.repo && !git.mainAvailable(git.repoDir(a.repo))
         case NotOnMain(_, repo, path) =>
           && repo == a.repo && path == a.path
           && git.mainAvailable(git.repoDir(a.repo)) && !git.onMain(git.repoDir(a.repo), a.path)
         case _ => Resolves(git, anchor) && SymbolFault(git, lower, a, c)
  }

  ghost predicate SymbolFault(git: Git, lower: CaseFold, a: Anchor, c: AnchorComplaint)
    requires c.SymbolUncheckable? || c.SymbolMissing?
  {
    var blob := git.show(git.repoDir(a.repo), a.path);
    && c.symbol == a.symbol != ""
    && if c.SymbolUncheckable? then blob.None?
       else blob.Some? && !Occurs(Fold(lower, a.symbol), Fold(lower, blob.value))
  }

  lemma SymbolVerdictIsTheFault(git: Git, lower: CaseFold, anchor: string, a: Anchor, c: AnchorComplaint)
    ensures SymbolVerdict(git, lower, anchor, a) == Some(c) <==>
              c.anchor == anchor && (c.SymbolUncheckable? || c.SymbolMissing?) && SymbolFault(git, lower, a, c)
  {
    var blob := git.show(git.repoDir(a.repo), a.path);
    if blob.Some? { ContainsIsOccurs(Fold(lower, blob.value), Fold(lower, a.symbol)); }
  }

  lemma VerdictIsTheFault(git: Git, lower: CaseFold, anchor: string, c: AnchorComplaint)
    ensures AnchorVerdict(git, lower, anchor) == Some(c) <==> AnchorFault(git, lower, anchor, c)
  {
    if ParseAnchor(anchor).Some? {
      SymbolVerdictIsTheFault(git, lower, anchor, ParseAnchor(anchor).value, c);
    }
  }

  lemma {:induction false} AmongSomes<T>(xs: seq<Option<T>>, y: T)
    ensures y in Somes(xs) <==> Some(y) in xs
  {
    if xs != [] {
      AmongSomes(xs[..|xs| - 1], y);
      assert xs == xs[..|xs| - 1] + [xs[|xs| - 1]];
    }
  }

  /** The complaints are exactly the faults of the anchors. */
  lemma VerdictsAreTheFaults(git: Git, lower: CaseFold, anchors: seq<string>, c: AnchorComplaint)
    ensures c in AnchorVerdicts(git, lower, anchors) <==> exists anchor <- anchors :: AnchorFault(git, lower, anchor, c)
  {
    var outcomes := AnchorOutcomes(git, lower, anchors);
    AmongSomes(outcomes, c);
    if Some(c) in outcomes {
      var i :| 0 <= i < |outcomes| && outcomes[i] == Some(c);
      VerdictIsTheFault(git, lower, anchors[i], c);
      assert anchors[i] in anchors;
    }
    if anchor :| anchor in anchors && AnchorFault(git, lower, anchor, c) {
      VerdictIsTheFault(git, lower, anchor, c);
      var i :| 0 <= i < |anchors| && anchors[i] == anchor;
      assert outcomes[i] == Some(c);
    }
  }

  /** The outcomes of a list of anchors, each asked afresh. */
  function AnchorOutcomes(git: Git, lower: CaseFold, anchors: seq<string>): (r: seq<Option<AnchorComplaint>>)
    ensures |r| == |anchors| && forall i :: 0 <= i < |anchors| ==> r[i] == AnchorVerdict(git, lower, anchors[i])
  {
    seq(|anchors|, i requires 0 <= i < |anchors| => AnchorVerdict(git, lower, anchors[i]))
  }

  function Somes<T>(xs: seq<Option<T>>): seq<T> {
    if xs == [] then []
    else Somes(xs[..|xs| - 1]) + if xs[|xs| - 1].Some? then [xs[|xs| - 1].value] else []
  }

  /** The complaints among them. */
  function AnchorVerdicts(git: Git, lower: CaseFold, anchors: seq<string>): seq<AnchorComplaint> {
    Somes(AnchorOutcomes(git, lower, anchors))
  }

  /** Every anchor names a file of the repo's mainline. */
  ghost predicate AllAnchorsResolve(git: Git, anchors: seq<string>) {
    forall anchor <- anchors :: Resolves(git, anchor)
  }

  ghost predicate Resolves(git: Git, anchor: string) {
    && ParseAnchor(anchor).Some?
    && var a := ParseAnchor(anchor).value;
       git.mainAvailable(git.repoDir(a.repo)) && git.onMain(git.repoDir(a.repo), a.path)
  }

  /** `checkAnchorsExist`: through the cache, exactly what asking git afresh for every anchor would give. */
  method CheckAnchorsExist(it: PlanItem, lower: CaseFold, cache: AnchorCache)
    returns (pass: bool, complaints: seq<AnchorComplaint>)
    requires cache.Valid()
    modifies cache
    ensures cache.Valid()
    ensures complaints == AnchorVerdicts(cache.git, lower, it.anchors)
    ensures forall c :: c in complaints <==> exists anchor <- it.anchors :: AnchorFault(cache.git, lower, anchor, c)
    ensures pass <==> AllAnchorsResolve(cache.git, it.anchors)
    ensures old(cache.probes) <= cache.probes && old(cache.fetches) <= cache.fetches
  {
    complaints := [];
    var hard := false;
    ghost var outcomes: seq<Option<AnchorComplaint>> := [];
    for i := 0 to |it.anchors|
      invariant cache.Valid() && |outcomes| == i
      invariant AreOutcomes(cache.git, lower, it.anchors, outcomes)
      invariant complaints == Somes(outcomes)
      invariant hard <==> AnyHard(complaints)
      invariant old(cache.probes) <= cache.probes && old(cache.fetches) <= cache.fetches
    {
      var verdict := CheckAnchorAt(it.anchors, i, lower, cache, outcomes);
      SomesSnoc(outcomes, verdict);
      AnyHardConcat(complaints, verdict);
      outcomes := outcomes + [verdict];
      if verdict.Some? {
        complaints := complaints + [verdict.value];
        hard := hard || IsHard(verdict.value);
      }
    }
    AllOutcomes(cache.git, lower, it.anchors, outcomes);
    forall c ensures c in complaints <==> exists anchor <- it.anchors :: AnchorFault(cache.git, lower, anchor, c) {
      VerdictsAreTheFaults(cache.git, lower, it.anchors, c);
    }
    HardIffUnresolved(cache.git, lower, it.anchors);
    pass := !hard;
  }

  /** The outcomes of the first anchors, each as if asked afresh. */
  ghost predicate AreOutcomes(git: Git, lower: CaseFold, anchors: seq<string>, outcomes: seq<Option<AnchorComplaint>>)
    requires |outcomes| <= |anchors|
  {
    forall k {:trigger AnchorVerdict(git, lower, anchors[k])} ::
      0 <= k < |outcomes| ==> outcomes[k] == AnchorVerdict(git, lower, anchors[k])
  }

  lemma AllOutcomes(git: Git, lower: CaseFold, anchors: seq<string>, outcomes: seq<Option<AnchorComplaint>>)
    requires |outcomes| == |anchors| && AreOutcomes(git, lower, anchors, outcomes)
    ensures Somes(outcomes) == AnchorVerdicts(git, lower, anchors)
  {
    assert outcomes == AnchorOutcomes(git, lower, anchors);
  }

  lemma SomesSnoc<T>(front: seq<Option<T>>, last: Option<T>)
    ensures Somes(front + [last]) == Somes(front) + if last.Some? then [last.value] else []
  {
    assert (front + [last])[..|front|] == front;
  }

  method CheckAnchorAt(anchors: seq<string>, i: nat, lower: CaseFold, cache: AnchorCache,
                       ghost outcomes: seq<Option<AnchorComplaint>>)
    returns (r: Option<AnchorComplaint>)
    requires |outcomes| == i < |anchors| && cache.Valid() && AreOutcomes(cache.git, lower, anchors, outcomes)
    modifies cache
    ensures cache.Valid() && AreOutcomes(cache.git, lower, anchors, outcomes + [r])
    ensures old(cache.probes) <= cache.probes && old(cache.fetches) <= cache.fetches
  {
    r := CheckAnchor(anchors[i], lower, cache);
  }

  method CheckAnchor(anchor: string, lower: CaseFold, cache: AnchorCache) returns (r: Option<AnchorComplaint>)
    requires cache.Valid()
    modifies cache
    ensures cache.Valid() && r == AnchorVerdict(cache.git, lower, anchor)
    ensures old(cache.probes) <= cache.probes && old(cache.fetches) <= cache.fetches
  {
    var parsed := ParseAnchor(anchor);
    if parsed.None? {
      return Some(Malformed(anchor));
    }
    var a := parsed.value;
    var dir := cache.git.repoDir(a.repo);
    var available := cache.OriginMainAvailable(dir);
    if !available {
      return Some(MainUnavailable(anchor, a.repo));
    }
    if !cache.git.onMain(dir, a.path) {
      return Some(NotOnMain(anchor, a.repo, a.path));
    }
    r := CheckSymbol(anchor, a, lower, cache);
  }

  method CheckSymbol(anchor: string, a: Anchor, lower: CaseFold, cache: AnchorCache) returns (r: Option<AnchorComplaint>)
    requires cache.Valid()
    modifies cache
    ensures cache.Valid() && r == SymbolVerdict(cache.git, lower, anchor, a)
    ensures old(cache.probes) <= cache.probes && old(cache.fetches) <= cache.fetches
  {
    if a.symbol == "" {
      return None;
    }
    var blob := cache.BlobOnOriginMain(cache.git.repoDir(a.repo), a.path);
    if blob.None? {
      return Some(SymbolUncheckable(anchor, a.symbol));
    } else if !SymbolInBlob(lower, blob.value, a.symbol) {
      return Some(SymbolMissing(anchor, a.symbol));
    }
    return None;
  }

  predicate AnyHard(cs: seq<AnchorComplaint>) {
    exists c <- cs :: IsHard(c)
  }

  lemma AnyHardConcat(xs: seq<AnchorComplaint>, y: Option<AnchorComplaint>)
    ensures AnyHard(xs + if y.Some? then [y.value] else []) <==> AnyHard(xs) || (y.Some? && IsHard(y.value))
  {
    var all := xs + if y.Some? then [y.value] else [];
    assert forall c :: c in all <==> c in xs || y == Some(c);
  }

  lemma HardVerdict(git: Git, lower: CaseFold, anchor: string)
    ensures var v := AnchorVerdict(git, lower, anchor);
      (v.Some? && IsHard(v.value)) <==> !Resolves(git, anchor)
  {
  }

  lemma {:induction false} HardAmongSomes(xs: seq<Option<AnchorComplaint>>)
    ensures AnyHard(Somes(xs)) <==> exists i :: 0 <= i < |xs| && xs[i].Some? && IsHard(xs[i].value)
  {
    if xs != [] {
      var front, last := xs[..|xs| - 1], xs[|xs| - 1];
      HardAmongSomes(front);
      assert xs == front + [last];
      SomesSnoc(front, last);
      AnyHardConcat(Somes(front), last);
    }
  }

  lemma HardIffUnresolved(git: Git, lower: CaseFold, anchors: seq<string>)
    ensures AnyHard(AnchorVerdicts(git, lower, anchors)) <==> !AllAnchorsResolve(git, anchors)
  {
    var outcomes := AnchorOutcomes(git, lower, anchors);
    HardAmongSomes(outcomes);
    forall i | 0 <= i < |anchors| ensures outcomes[i].Some? && IsHard(outcomes[i].value) <==> !Resolves(git, anchors[i]) {
      HardVerdict(git, lower, anchors[i]);
    }
  }

  // ---------------------------------------------------------------- anchor_consistency

  /** The ids of the items citing `anchor`, in plan order, once per item. */
  function CitersOf(items: seq<PlanItem>, anchor: string): seq<string> {
    if items == [] then []
    else
      var last := items[|items| - 1];
      CitersOf(items[..|items| - 1], anchor) + if anchor in last.anchors then [last.shape.id] else []
  }

  function Citers(citers: map<string, seq<string>>, anchor: string): seq<string> {
    if anchor in citers then citers[anchor] else []
  }

  /** The index holds, for every anchor, its citers. */
  ghost predicate IsIndex(citers: map<string, seq<string>>, items: seq<PlanItem>) {
    forall anchor :: Citers(citers, anchor) == CitersOf(items, anchor)
  }

  /** `indexAnchorCiters`. */
  method IndexAnchorCiters(items: seq<PlanItem>) returns (citers: map<string, seq<string>>)
    ensures IsIndex(citers, items)
  {
    citers := map[];
    for i := 0 to |items|
      invariant forall anchor :: Citers(citers, anchor) == CitersOf(items[..i], anchor)
    {
      assert items[..i + 1][..i] == items[..i];
      var seen: set<string> := {};
      var anchors := items[i].anchors;
      ghost var was := citers;
      for k := 0 to |anchors|
        invariant forall anchor :: anchor in seen <==> anchor in anchors[..k]
        invariant forall anchor :: Citers(citers, anchor) ==
                    Citers(was, anchor) + if anchor in seen then [items[i].shape.id] else []
      {
        assert anchors[..k + 1] == anchors[..k] + [anchors[k]];
        if anchors[k] !in seen {
          citers := citers[anchors[k] := Citers(citers, anchors[k]) + [items[i].shape.id]];
          seen := seen + {anchors[k]};
        }
      }
      assert anchors[..|anchors|] == anchors;
    }
    assert items[..|items|] == items;
  }

  datatype SharedAnchor = SharedAnchor(anchor: string, others: seq<string>)

  function Without(ids: seq<string>, id: string): (r: seq<string>)
    ensures forall x :: x in r <==> x in ids && x != id
  {
    if ids == [] then []
    else Without(ids[..|ids| - 1], id) + if ids[|ids| - 1] != id then [ids[|ids| - 1]] else []
  }

  /** `c` warns item `it` of `items` about an anchor it shares, naming the other citers in plan order. */
  ghost predicate Shares(items: seq<PlanItem>, it: PlanItem, c: SharedAnchor) {
    c.anchor in it.anchors && c.others == Without(CitersOf(items, c.anchor), it.shape.id) && c.others != []
  }

  /** `checkAnchorConsistency`: with the precomputed index, exactly the pairwise sharing, once per anchor. */
  method CheckAnchorConsistency(items: seq<PlanItem>, it: PlanItem, citers: map<string, seq<string>>)
    returns (complaints: seq<SharedAnchor>)
    requires it in items
    requires IsIndex(citers, items)
    ensures forall c :: c in complaints <==> Shares(items, it, c)
    ensures forall i, j :: 0 <= i < j < |complaints| ==> complaints[i].anchor != complaints[j].anchor
  {
    complaints := [];
    var seen: set<string> := {};
    for k := 0 to |it.anchors|
      invariant forall anchor :: anchor in seen <==> anchor in it.anchors[..k]
      invariant forall c :: c in complaints <==> c.anchor in seen && Shares(items, it, c)
      invariant forall i, j :: 0 <= i < j < |complaints| ==> complaints[i].anchor != complaints[j].anchor
    {
      var anchor := it.anchors[k];
      assert it.anchors[..k + 1] == it.anchors[..k] + [anchor];
      if anchor !in seen {
        var others := OtherCiters(items, it, anchor, citers);
        seen := seen + {anchor};
        if |others| > 0 {
          assert forall c <- complaints :: c.anchor != anchor;
          complaints := complaints + [SharedAnchor(anchor, others)];
        }
      }
    }
    assert it.anchors[..|it.anchors|] == it.anchors;
  }

  method OtherCiters(items: seq<PlanItem>, it: PlanItem, anchor: string, citers: map<string, seq<string>>)
    returns (others: seq<string>)
    requires it in items && anchor in it.anchors && IsIndex(citers, items)
    ensures others == Without(CitersOf(items, anchor), it.shape.id)
  {
    var ids := Citers(citers, anchor);
    others := if |ids| <= 1 then [] else Without(ids, it.shape.id);
    SoleCiter(items, it, anchor);
  }

  lemma {:induction false} ItemIsCiter(items: seq<PlanItem>, it: PlanItem, anchor: string)
    requires it in items && anchor in it.anchors
    ensures it.shape.id in CitersOf(items, anchor)
  {
    var front, last := items[..|items| - 1], items[|items| - 1];
    assert items == front + [last];
    if it in front { ItemIsCiter(front, it, anchor); }
  }

  /** A single citer is the item itself, so skipping short lists loses nothing. */
  lemma SoleCiter(items: seq<PlanItem>, it: PlanItem, anchor: string)
    requires it in items && anchor in it.anchors
    ensures |CitersOf(items, anchor)| <= 1 ==> Without(CitersOf(items, anchor), it.shape.id) == []
  {
    ItemIsCiter(items, it, anchor);
  }

  lemma {:induction false} CiterIsItem(items: seq<PlanItem>, anchor: string, id: string)
    requires id in CitersOf(items, anchor)
    ensures exists it <- items :: it.shape.id == id && anchor in it.anchors
  {
    var front, last := items[..|items| - 1], items[|items| - 1];
    assert items == front + [last];
    if id in CitersOf(front, anchor) { CiterIsItem(front, anchor, id); }
  }

  /** Item `it` is warned that `id` cites `anchor` too. */
  ghost predicate WarnsOf(items: seq<PlanItem>, it: PlanItem, anchor: string, id: string) {
    exists c :: Shares(items, it, c) && c.anchor == anchor && id in c.others
  }

  /** With distinct ids the warning is exactly pairwise sharing, and therefore symmetric. */
  lemma SharingIsSymmetric(items: seq<PlanItem>, a: PlanItem, b: PlanItem, anchor: string)
    requires DistinctIds(Shapes(items)) && a in items && b in items && a.shape.id != b.shape.id
    ensures WarnsOf(items, a, anchor, b.shape.id) <==> anchor in a.anchors && anchor in b.anchors
    ensures WarnsOf(items, a, anchor, b.shape.id) <==> WarnsOf(items, b, anchor, a.shape.id)
  {
    WarningIsSharing(items, a, b, anchor);
    WarningIsSharing(items, b, a, anchor);
  }

  lemma WarningIsSharing(items: seq<PlanItem>, a: PlanItem, b: PlanItem, anchor: string)
    requires DistinctIds(Shapes(items)) && a in items && b in items && a.shape.id != b.shape.id
    ensures WarnsOf(items, a, anchor, b.shape.id) <==> anchor in a.anchors && anchor in b.anchors
  {
    if anchor in a.anchors && anchor in b.anchors {
      ItemIsCiter(items, b, anchor);
      var c := SharedAnchor(anchor, Without(CitersOf(items, anchor), a.shape.id));
      assert Shares(items, a, c) && b.shape.id in c.others;
    }
    if WarnsOf(items, a, anchor, b.shape.id) {
      CiterIsItem(items, anchor, b.shape.id);
      var it :| it in items && it.shape.id == b.shape.id && anchor in it.anchors;
      var i, j :| 0 <= i < |items| && 0 <= j < |items| && items[i] == it && items[j] == b;
      assert Shapes(items)[i].id == Shapes(items)[j].id;
      assert i == j;
    }
  }
}

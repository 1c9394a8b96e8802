# Radsvinn control plane: verified model

Radsvinn turns an ask into a ticket tree. A language model proposes; a deterministic control plane decides what is
let through. This project models that control plane in Dafny and proves what it guarantees.

| area | modules | the main results |
|---|---|---|
| skeleton gate | `Tree`, `CycleSearch`, `SkeletonGate`, `Schedule`, `SkeletonRun` | cycle search exact with a genuine witness; order check implies acyclicity; an accepted skeleton runs in topological order |
| plan gate | `ParentWalk`, `PlanStructure`, `Grooming`, `CompareStructure` | every parent loop of items reported once; an approved shape that was kept gives a sound plan, with the exact conditions |
| paths and zones | `Text`, `Paths`, `PathLaws`, `Braces`, `Zones`, `ZoneText` | path acceptance is "never above the root", cleaning is fixed by its laws; no claimed anchor passes uncoupled |
| anchors and verdicts | `Anchors`, `PlanModel`, `Precheck`, `Gate` | the cache changes no answer; no failing item is masked; the service accepts exactly the passing plans |
| artifact recovery | `JsonScan`, `JsonTexts`, `JsonRecovery`, `BraceRegions` | a JSON object closes exactly at its end, whatever follows; the longest payload is what comes back |
| durable stores | `Cursors`, `Audit`, `Breakers`, `Drain`, `Locks`, `Charges`, `PlanStore` | paging complete under appends; no lost update, sticky lock, bounded overshoot; crash-atomic plan files |
| label sheet and statistics | `Csv`, `Stats` | print and parse are inverse; the interval inverts the score test; exact bounds of kappa |

Code that changes state step by step is modelled by methods, loops and classes, each proved against a specification
function or a predicate stated without the code's own maps and flags. Code made of expressions is modelled by
functions, with lemmas about them. The spend ledger and the plan store have, beside the class, a transition function
on values over which whole runs are quantified; the ledger's methods and the store's `Create`, `Update` and
`Transition` are each proved to perform their transition.

## Assumptions

- Git is a fixed oracle during one plan run, and answers neither question about an argument with a NUL in it (no
  process can be given one).
- An audit file is a sequence of lines, some blank or corrupt. A text that continues an unfinished line makes a line
  that does not decode: it holds the start of one object and another one behind it. Dates are their eight digits,
  year first, and compare as numbers.
- A file write either completes or the process dies; temp-file suffixes contain no dot and are fresh.
- Money is a whole number of nanodollars. The clock is a day number that only moves forward.
- Lower-casing works character by character and neither makes nor loses a slash or a dot. `filepath.Clean` is
  lexical, on slash-separated paths.
- The JSON parser is a parameter of the recovery: `parses` for the whole text, `usable` for "parses to a non-empty
  object". The theorems ask of it only that it agrees with RFC 8259 on the objects in the text. The square root in `wilson` is a parameter that squares to its argument.

## Where the code falls short of its promise

- `Grooming.BlankParentPassesThenFails`: the skeleton gate resolves a parent id of `""` like any other, the plan gate
  reads it as no parent. `Grooming.ShapeKeptIsTypeLegal` gives the exact condition.
- `Grooming.ShapeKeptIsSound`: the drift check compares last-wins maps, so a plan may repeat an id without drift;
  soundness of the plan holds exactly when it does not.
- `Breakers.WriteAcrossMidnight`: the clock is read once to choose the file to read and again to choose the file to
  write, so a link that straddles midnight carries the old day's total into the new day.
- `Breakers.AdmissionAfterFailure`: a rejected write has not locked anything until its catch handler runs; a check in
  between is still admitted below the cap.
- `Breakers.RestartKeepsOnlyTheFile`: a lock whose file could not be written is lost on restart.
- `Audit.TornTakesTheNext`: an append that fails half-way leaves an unfinished line, and the next record, although
  acknowledged, continues that line and is lost.
- `PlanStore.FinalIsLoadable`: the store itself takes any id, and would write but never load again a plan whose id
  contains `.tmp-`. The service gives it only random UUIDs.
- `PlanStore.WriteKeepsAgreement`: a patch that changes `plan_id` writes one plan's record to another plan's file.
- `Csv.SheetRoundTrip`: the printer quotes newlines, the reader splits on them first.
- `Stats.RoundedKappaIsOne`: the reported kappa can be 1 although the raters disagree.

## Model

| member | source | states |
|---|---|---|
| `CycleSearch.BuildGraph` | internal/checks/skeleton.go:56-68 | the adjacency map holds `v` under `u` exactly when some item called `u` lists the declared id `v` |
| `CycleSearch.CycleFinder.Dfs` | internal/checks/skeleton.go:80-101 | the recursion ends; it either leaves a simple cycle along real edges, or finishes the node with the stack restored and every edge out of a finished node leading to an earlier finished one, so none leads to a grey node |
| `CycleSearch.CycleFinder.Close` | internal/checks/skeleton.go:85-90 | the stack from the repeated id on, closed by that id, is a cycle that repeats nothing else |
| `CycleSearch.FinishedRankFalls` | internal/checks/skeleton.go:80-101 | along any walk from a finished node the finishing position strictly falls |
| `CycleSearch.AllFinishedIsAcyclic` | internal/checks/skeleton.go:103-113 | once every item is finished no closed walk of any length exists |
| `CycleSearch.CheckAcyclic` | internal/checks/skeleton.go:55-114 | passes exactly when the graph over declared ids has no cycle; a failure reports a closed walk along real edges that repeats no id before closing |
| `SkeletonGate.CheckOrderConsistent` | internal/checks/skeleton.go:280-301 | complaints are exactly the dependencies whose last-wins position is at or after the item; none exactly when all lie earlier |
| `SkeletonGate.OrderConsistentImpliesAcyclic` | internal/checks/skeleton.go:280-301 | passing `order_consistent` implies passing `acyclic`, duplicate ids included |
| `SkeletonGate.NoGap` | internal/checks/skeleton.go:262-273 | N distinct orders within 1..N use every order: the gap branch is unreachable |
| `SkeletonGate.CheckMilestoneOrders` | internal/checks/skeleton.go:243-273 | silent exactly on a permutation of 1..N; its complaints are exactly the out-of-range and repeated orders, never a gap |
| `SkeletonGate.CheckHierarchyLegal` | internal/checks/skeleton.go:129-183 | silent exactly on a legal hierarchy; its complaints are exactly the faults of ids, references, parents, milestones and orders |
| `SkeletonGate.NoFaultsIsLegal` | internal/checks/skeleton.go:129-183 | judging through last-wins lookup maps agrees with the plain rules stated without them |
| `SkeletonGate.ParentFaultIsIllegal` | internal/checks/skeleton.go:187-223 | `checkParent` accepts exactly: no parent or the epic for an L0 item, an existing L0 item for a Sub-task |
| `SkeletonGate.ParentFaultMeans` | internal/checks/skeleton.go:187-223 | which fault is named, for every parent, epic and lookup map: exactly the one the item has |
| `Schedule.CheckMilestoneShippable` | internal/checks/skeleton.go:306-342 | complaints are exactly the edges into a strictly later milestone, as the last-wins maps see them; where ids are unique they are exactly the dependencies of an item of one milestone on an item of a strictly later one, said without any lookup |
| `Schedule.MilestoneOrderIsLast` | internal/checks/skeleton.go:310-313 | the order held for an id is that of the last milestone so called |
| `Schedule.ItemOrderIsLast` | internal/checks/skeleton.go:314-323 | the order held for an item id is that of the last item so called whose milestone resolves |
| `Schedule.ForwardEdges` | internal/checks/skeleton.go:306-342 | with unique ids the check is silent exactly when no item depends on an item of a later milestone, and complains about each that does with the two milestones' own orders |
| `Schedule.ItemOrderIsOwn` | internal/checks/skeleton.go:310-323 | with distinct ids the map of item orders holds each item's own milestone order |
| `Schedule.PrerequisiteRunsBefore` | internal/checks/skeleton.go:280-342 | under the three checks a prerequisite is in an earlier milestone, or in the same one and earlier in the array |
| `Schedule.RunOrderIsTopological` | internal/checks/skeleton.go:129-342 | running milestones in order and array order within each lists every item once, after all its prerequisites |
| `Schedule.MilestonePrefixIsClosed` | internal/checks/skeleton.go:306-342 | stopping after any milestone leaves out nothing a listed item depends on |
| `ParentWalk.LeadInIsNotOnCycle` | internal/checks/precheck.go:177-205 | a chain that runs into finished items or ends has no node on a cycle, and extends the finished set to a closed one |
| `ParentWalk.LoopNodesAreOnCycle` | internal/checks/precheck.go:189-201 | every node of a reported loop is its own ancestor: no report is spurious |
| `ParentWalk.WalkFrom` | internal/checks/precheck.go:183-204 | one walk ends, reports at most one loop, genuine, and marks exactly the unvisited part of its chain |
| `ParentWalk.FindLoops` | internal/checks/precheck.go:177-205 | reports are genuine and pairwise disjoint, and every item on a cycle is in one: each loop is reported exactly once |
| `PlanStructure.CheckDuplicates` | internal/checks/precheck.go:139-153 | reports exactly the ids repeated among the items or equal to the epic's; none exactly when ids are unique |
| `PlanStructure.CheckParents` | internal/checks/precheck.go:155-172 | reports exactly the self and dangling parents, and records for every id the parent named by its last item with a resolvable non-epic one, and nothing else |
| `PlanStructure.EdgeIsRecorded` | internal/checks/precheck.go:155-172 | with unique ids, an item that names another as its parent is recorded under its id with exactly that parent |
| `PlanStructure.WalkIsReported` | internal/checks/precheck.go:174-205 | every closed walk of items, each naming the next as its parent, lies whole inside one report, unless it stands still on an item that is its own parent |
| `PlanStructure.ReportIsAWalk` | internal/checks/precheck.go:189-201 | every report is of a closed walk of items that meets exactly the reported ids |
| `PlanStructure.CheckExistingKey` | internal/checks/precheck.go:207-215 | complains exactly about a non-blank epic key that is not of the Jira shape |
| `PlanStructure.JiraKeyIsProjectAndNumber` | internal/checks/precheck.go:20 | a text cut at its last dash is a Jira key exactly when it is a project in capitals and digits, begun by a capital, and a number |
| `PlanStructure.CheckPlanStructure` | internal/checks/precheck.go:136-218 | silent exactly when ids are unique, no parent is dangling, no closed walk of items along their parents exists, and the key is well formed; its complaints are exactly the duplicates, self, dangling and looping parents and the bad key; with unique ids every closed walk of items is reported and every report is of one |
| `Grooming.TypeLegalIsTypeRule` | internal/checks/precheck.go:242-295 | with distinct ids `hierarchy_legal` in plan mode is the plain rule on types, without its lookup map |
| `PlanStructure.TypeFaultMeans` | internal/checks/precheck.go:242-295 | which fault of the type rules is named: exactly the one the item has |
| `Grooming.LoopBreaksTypeRules` | internal/checks/precheck.go:155-205 | with unique ids every loop the structural check can report has a member that fails `hierarchy_legal` |
| `Grooming.TwoLevels` | internal/checks/precheck.go:136-295 | a plan passing both checks is at most two levels below the epic: every item is at the top, or a Sub-task of an L0 item at the top |
| `Grooming.ShapeKeptIsSound` | harness/lib.mjs:449-502 | from a legal skeleton without drift, the plan has no duplicate, self, dangling or looping parent exactly when its item ids are distinct |
| `Grooming.ShapeKeptIsTypeLegal` | harness/lib.mjs:449-502 | and its items all pass the type rules exactly when no Sub-task names the blank id as parent |
| `Grooming.ShapeKeptKeepsEdges` | harness/lib.mjs:469-473 | the plan's dependency graph equals the skeleton's edge for edge |
| `Grooming.BlankParentPassesThenFails` | internal/checks/precheck.go:245-253 | a concrete skeleton that passes the four structural skeleton checks and, with its shape kept, fails the plan gate: a Sub-task under an item with the blank id |
| `CompareStructure.CompareItem` | harness/lib.mjs:465-477 | one violation per changed field, dependencies compared as sets |
| `CompareStructure.CompareItems` | harness/lib.mjs:453-478 | item violations are exactly the missing, extra and changed ids |
| `CompareStructure.CompareMilestones` | harness/lib.mjs:480-488 | milestone violations are exactly the missing, extra and moved ones |
| `CompareStructure.Compare` | harness/lib.mjs:449-502 | lists exactly the drift, and nothing exactly when the shape was kept |
| `CompareStructure.SetTestIsInequality` | harness/lib.mjs:469-473 | sizes differ or one element is missing: exactly set inequality |
| `Paths.CleanTracksHeight` | internal/checks/precheck.go:924 | lexical cleaning leaves as many plain segments as the walk is deep, or starts with `..` exactly when some prefix of the walk is above the root |
| `Paths.AcceptedIffNeverAboveRoot` | internal/checks/precheck.go:920-930 | a non-empty path is accepted exactly when it is relative and no prefix of its segment walk climbs above the root; the result is as many plain segments as the walk is deep |
| `PathLaws.EmptySegmentIsDropped` | internal/checks/precheck.go:924 | deleting an empty or `.` segment anywhere changes nothing |
| `PathLaws.BackTrackIsDropped` | internal/checks/precheck.go:924 | deleting a plain segment and the `..` behind it anywhere changes nothing |
| `PathLaws.RootIsItsOwnParent` | internal/checks/precheck.go:924 | a `..` at the root of an absolute path changes nothing |
| `PathLaws.NormalIsClean` | internal/checks/precheck.go:924 | a list of plain segments, behind steps up if the path is relative, is its own cleaned form; with the three deletions this fixes what every list cleans to |
| `PathLaws.CleanIsNormal` | internal/checks/precheck.go:924 | every list cleans to such a form |
| `PathLaws.PlainPathIsItself` | internal/checks/precheck.go:920-930 | a relative path of plain segments is accepted as it stands, segment for segment |
| `PathLaws.CleaningIsIdempotent` | internal/checks/precheck.go:920-930 | an accepted path, given again, is accepted unchanged |
| `Paths.StringTestIsSegmentPrefix` | internal/checks/precheck.go:868-870 | `path == pre` or `pre + "/"` a string prefix: exactly segment prefix |
| `Braces.FirstGroupShrinks` | internal/checks/precheck.go:832-847 | each expansion consumes a closing brace, so the recursion ends on every string, nested and unbalanced braces included |
| `Braces.ExpandIsProduct` | internal/checks/precheck.go:832-847 | on brace-free literals and flat groups the result is the ordered Cartesian product of the trimmed alternatives |
| `Zones.ParseZoneMember` | internal/checks/precheck.go:795-827 | a member loads exactly when it names a bare repo and at least one path, all of them inside the repo and none its root; prefixes are its cleaned, lower-cased paths in order |
| `ZoneText.MemberIsRead` | internal/checks/precheck.go:795-812 | a member's repo is the trimmed text before the first colon; its parts are what `+` separates before the first parenthesis |
| `ZoneText.EveryMemberIsWritten` | internal/checks/precheck.go:795-812 | every text with a colon is a member of that form |
| `ZoneText.PathsOfParts` | internal/checks/precheck.go:807-826 | a member's paths are those of its parts, in order |
| `ZoneText.PathsOfPart` | internal/checks/precheck.go:808-814 | a blank part names nothing; a part of literals and flat brace groups names the trimmed product |
| `Zones.LoadZone` | internal/checks/precheck.go:744-758 | one zone loads whole or is refused for the first test it fails |
| `Zones.LoadNoGoZones` | internal/checks/precheck.go:727-760 | the map loads exactly when every zone is well formed and ids are distinct, one loaded zone per entry, none called `none`; otherwise the error is the first failing test of the first failing zone |
| `Zones.PrefixTestIsUnder` | internal/checks/precheck.go:860-874 | for a loadable prefix and an accepted path the string test is: resolved member segments are a prefix of the anchor's, up to case |
| `ZoneText.AnchorIsRead` | internal/checks/precheck.go:876-909 | a text `repo:path` or `repo:path:symbol` parses exactly when the trimmed repo is a bare name and the trimmed path stays inside the repo, and then to those two, the path cleaned, and to the trimmed symbol, colons in it included |
| `ZoneText.EveryAnchorIsWritten` | internal/checks/precheck.go:888-891 | every text with a colon is of that form, so the two together say what any text parses to |
| `ZoneText.BareRepoIsOneDirectory` | internal/checks/precheck.go:912-917 | a repo is bare exactly when it is a path of one segment, accepted as it stands and not the root, without a backslash |
| `Zones.InZoneIffClaimed` | internal/checks/precheck.go:860-874 | membership in a loaded zone is exactly the claim made by the raw map entry |
| `Zones.UndeclaredZones` | internal/checks/precheck.go:598-610 | reports exactly the (anchor, zone) pairs that hit a zone the item does not declare |
| `Zones.CheckZoneRouting` | internal/checks/precheck.go:569-632 | fails closed on a map that did not load; otherwise passes exactly on the routing rules, each complaint characterised, the zero-anchor flag never failing the item |
| `Zones.ClaimedAnchorIsRouted` | internal/checks/precheck.go:569-632 | an item that passes with an anchor a zone claims declares that zone, routes needs-human and has high or max effort |
| `Zones.ZoneCalledNoneWouldSlip` | internal/checks/precheck.go:763-783 | were a zone called `none` loadable, a claimed low-effort item would pass |
| `Anchors.BlobKeyInjective` | internal/checks/precheck.go:398 | the blob cache key confuses no two (repo, path) pairs free of NUL |
| `Anchors.AnchorCache.OriginMainAvailable` | internal/checks/precheck.go:384-391 | answers as git does, probing each repo at most once |
| `Anchors.AnchorCache.BlobOnOriginMain` | internal/checks/precheck.go:397-408 | answers as git does, fetching each readable blob at most once |
| `Anchors.CheckAnchorsExist` | internal/checks/precheck.go:428-460 | through the shared mutable cache, exactly the complaints and verdict of asking git afresh for every anchor |
| `Anchors.HardIffUnresolved` | internal/checks/precheck.go:428-460 | a hard complaint arises exactly when some anchor does not resolve on the mainline; symbol warnings never fail the item |
| `Anchors.ContainsIsOccurs` | internal/checks/precheck.go:428-460 | the symbol search finds a text exactly when it occurs at some position |
| `Anchors.VerdictsAreTheFaults` | internal/checks/precheck.go:428-460 | the complaints are exactly: anchors that do not parse, repos without a mainline, paths not on it, and, for resolved anchors with a symbol, blobs that cannot be read or do not contain it up to case |
| `Anchors.IndexAnchorCiters` | internal/checks/precheck.go:508-522 | the index holds for every anchor its citers in plan order, once per item |
| `Anchors.CheckAnchorConsistency` | internal/checks/precheck.go:533-557 | with the index, warnings are exactly the pairwise sharing, once per anchor, short lists skipped without loss |
| `Anchors.SharingIsSymmetric` | internal/checks/precheck.go:533-557 | between items with distinct ids the warning means both cite the anchor, so it is symmetric |
| `Precheck.BuildVerdict` | internal/checks/types.go:220-236 | OK exactly when every check of the order passes, a missing one counting as failed; its complaints are exactly those of the checks of the order |
| `Precheck.ComplaintsInOrder` | internal/checks/types.go:220-236 | each check's complaints stand whole in the verdict, behind those of the checks before it |
| `Precheck.CheckFieldsPresent` | internal/checks/precheck.go:304-326 | passes exactly when the five fields have content; complaints are exactly the blank ones |
| `Precheck.CheckSingleRepo` | internal/checks/precheck.go:331-350 | passes exactly on a known repo, or on the lockstep marker with needs-human routing |
| `Precheck.CheckPlanItem` | internal/checks/precheck.go:96-111 | the eight results each pass as their own rule says and complain about exactly what is wrong, down to the advisory on a cost above the cap and whether it falls on a leaf; the cache stays truthful |
| `Precheck.PrecheckItem` | internal/checks/precheck.go:96-111 | the verdict files the eight outcomes under the eight names and is OK exactly when all pass |
| `Precheck.NoMasking` | internal/checks/precheck.go:48-112 | a last-wins map hides no failure when a single pass implies distinct ids |
| `Precheck.AllOkIffAllPass` | internal/checks/precheck.go:48-112 | all verdicts in the map are OK exactly when every item at every index passes every check |
| `Precheck.PrecheckPlan` | internal/checks/precheck.go:48-112 | the map holds each id's last verdict, and is all OK exactly when every item at every index passes |
| `Gate.RunPlan` | cmd/treecheck/main.go:79-97 | prints the verdict map with its conjunction, and exits 0 exactly when every item passes every check |
| `Gate.PlanItemIds` | service/gates.mjs:89-110 | yields the id set exactly on standard input that is JSON with a non-empty list of items with distinct non-blank string ids |
| `Gate.IsExpectedOutput` | service/gates.mjs:112-127 | in plan mode, true exactly when the output has one well-shaped truthful verdict per plan id, no more, and `ok` is their conjunction; in skeleton mode, exactly on one such verdict; in no other mode |
| `Gate.AcceptRun` | service/gates.mjs:147-164 | accepts exactly exit code 0 with output that is JSON, expected for the mode, and says ok |
| `Gate.EncodedVerdictIsVerdict` | service/gates.mjs:74-87 | every verdict the gate prints passes the service's shape and truthfulness test |
| `Gate.PassingRunIsAccepted` | service/gates.mjs:112-157 | the output of a passing run is accepted exactly when the plan has items and the ids are non-blank and distinct |
| `Gate.GatePlan` | service/gates.mjs:129-172 | binary and service together accept a plan exactly when it has items, every item passes every check, and no id is blank |
| `Gate.AcceptedOutputVouches` | service/gates.mjs:74-127 | whatever program printed it, accepted output has for every item a passing, well-shaped verdict with every required check present and passing |
| `Gate.AcceptedSkeletonVouches` | service/gates.mjs:74-113 | accepted skeleton output has every required check present and passing |
| `Gate.MalformedIsNoVerdict` | service/gates.mjs:74-87 | a verdict without checks, with a mark missing or of another type, or with marks that contradict the checks or each other is none |
| `SkeletonRun.ValidateSkeleton` | internal/checks/skeleton.go:37-48 | the verdict files seven results under the seven names and is OK exactly when the four modelled rules hold and the three other checks pass |
| `SkeletonRun.RunSkeleton` | cmd/treecheck/main.go:64-76 | prints one verdict of the shape the service asks for, and exits 0 exactly when the skeleton passes |
| `SkeletonRun.GateTheSkeleton` | service/gates.mjs:129-172 | binary and service together accept a skeleton exactly when all seven checks pass |
| `SkeletonRun.AcceptedSkeletonRuns` | internal/checks/skeleton.go:37-48 | an accepted skeleton can be run milestone by milestone, every item once and after all its prerequisites |
| `JsonScan.ValueMoves` | harness/lib.mjs:106-121 | scanning any JSON value inside an object, with strings, escapes and braces in strings, returns to the same depth without closing |
| `JsonScan.ObjectSelfCloses` | harness/lib.mjs:103-126 | scanning an object's text followed by anything at all closes exactly at its last brace |
| `JsonTexts.PiecesJoin` | harness/lib.mjs:106-121 | the strings scanned are written piece by piece, plain, escaped or by code, and the text of a string is that of its pieces in order |
| `JsonTexts.NumberIsWritten` | harness/lib.mjs:106-121 | the numbers scanned are written as sign, digits, fraction behind a point, and exponent |
| `JsonRecovery.ScanFrom` | harness/lib.mjs:106-122 | the inner loop finds the closing position, or finds that there is none |
| `JsonRecovery.CollectCandidates` | harness/lib.mjs:101-126 | the outer loop collects exactly the candidates, resuming after each |
| `JsonRecovery.CandidatesAreOrdered` | harness/lib.mjs:101-126 | candidates are ordered, disjoint, and each closes its own scan |
| `JsonRecovery.CandidatesAreTheClosed` | harness/lib.mjs:101-126 | on brace-free prose interleaved with self-closing texts the candidates are exactly those texts, in order |
| `JsonRecovery.StripToJson` | harness/lib.mjs:95-139 | whatever white space or code fence a text comes wrapped in: the text itself if it parses; otherwise its longest usable candidate, the earliest among equals; failure exactly when no candidate is usable |
| `JsonRecovery.ObjectIsCandidate` | harness/lib.mjs:101-135 | every object with members in the response is a usable candidate |
| `JsonRecovery.LongestObjectIsChosen` | harness/lib.mjs:127-135 | what is chosen is the text of an object with members, none of them longer |
| `JsonRecovery.FenceIsTakenOff` | harness/lib.mjs:97-99 | a code fence around all of the text, tagged or not, comes off with the space around and inside it |
| `JsonRecovery.TaggedIsJson` | harness/lib.mjs:98 | the tag taken off is `json` in any case |
| `JsonRecovery.WrappingComesOff` | harness/lib.mjs:97-101 | bare or fenced, the recovery works on exactly what the wrapping holds, and returns that if it parses |
| `JsonRecovery.PayloadIsRecovered` | harness/lib.mjs:95-139 | from brace-free prose and JSON objects, bare or in a fence and with any space around, that do not parse as a whole, the strictly longest object with members is what comes back |
| `JsonRecovery.SelfClosingIsCandidate` | harness/lib.mjs:101-126 | in any text at all, an object is a candidate exactly when no candidate that opens before it reaches over its brace; unclosed openers are no obstacle |
| `JsonRecovery.UncoveredPayloadIsRecovered` | harness/lib.mjs:95-139 | a usable object that no earlier candidate covers and that is longer than every other usable candidate is recovered from any text, bare or fenced |
| `BraceRegions.LargestBalancedBraceRegion` | service/engine.mjs:1110-1132 | null exactly when no top-level balanced region exists; otherwise the earliest longest region, positive depth strictly inside and zero at both ends |
| `BraceRegions.RegionsAreTopCandidates` | service/engine.mjs:1110-1132 | on quote-free text the regions are exactly the string-aware candidates that start at depth zero |
| `BraceRegions.ScansAgree` | service/engine.mjs:1110-1132 | where in addition every opener closes, the two scanners find the same regions |
| `Audit.AuditLedger.AppendAudit` | service/audit.mjs:56-69 | writes at the end of the record's own day; what was there stays exactly unless the file ended in an unfinished record, and an acknowledged record is stored exactly when the file ended in a newline |
| `Audit.TornTakesTheNext` | service/audit.mjs:56-69 | after a torn append the next acknowledged record is lost with it: the one line left decodes to nothing |
| `Audit.AuditLedger.ReadAudit` | service/audit.mjs:95-155 | rejects exactly the cursors that are not of the issued shape; otherwise returns the page after the cursor of the newest-first listing of that plan's records, full if another match remains and with a cursor exactly then |
| `Cursors.CursorRoundTrip` | service/audit.mjs:71-84 | decoding an issued cursor gives the position it was issued for |
| `Cursors.WellFormedIsDateAndIndex` | service/audit.mjs:79-84 | a cursor is accepted exactly when it is a date of four, two and two digits, a space and at least one digit |
| `Audit.ReplyResumes` | service/audit.mjs:71-84 | the cursor of a reply resumes exactly where its page ended |
| `Audit.ReadFile` | service/audit.mjs:126-151 | one file walked backwards yields its matches below the cursor up to the page bound, and stops at the first that no longer fits |
| `Audit.ReadFiles` | service/audit.mjs:115-155 | the files newest first yield the first page of the concatenated listing; files newer than the cursor are skipped without loss |
| `Audit.ListingIsUnique` | service/audit.mjs:95-155 | the newest-first listing is determined by its entries |
| `Audit.RestAfterCursor` | service/audit.mjs:71-84 | below a cursor lies exactly the rest of the listing it was issued from |
| `Audit.PagingIsComplete` | service/audit.mjs:95-155 | following `next_cursor` with any limits and any filter returns the whole listing, no gap, no duplicate |
| `Audit.SessionDescends` | service/audit.mjs:95-155 | whatever is appended between pages, keys stay strictly descending |
| `Audit.SessionIsComplete` | service/audit.mjs:95-155 | a session that reaches the last page has returned every record present at its start, and nothing twice |
| `Breakers.SpendBreaker.LockReason` | service/breakers.mjs:93-111 | memory first, then the file, remembered; an unreadable file locks, one without a reason does not |
| `Breakers.SpendBreaker.LockCostTelemetry` | service/breakers.mjs:113-127 | locks memory always, the file if it can be written |
| `Breakers.SpendBreaker.CheckDaily` | service/breakers.mjs:137-169 | admits exactly when unlocked, readable and below the hard cap; a corrupt ledger locks |
| `Breakers.SpendBreaker.RecordSpendNanos` | service/breakers.mjs:215-243 | an invalid cost locks and is rejected at once; any other joins the chain |
| `Breakers.SpendBreaker.StartLink` | service/breakers.mjs:220-231 | a link's lock test, read and sum |
| `Breakers.SpendBreaker.WriteLink` | service/breakers.mjs:232-234 | a link's write, to the file of the day the clock shows then |
| `Breakers.SpendBreaker.SettleLink` | service/breakers.mjs:239-241 | the catch handler locks and frees the chain |
| `Breakers.NoLostUpdate` | service/breakers.mjs:197-243 | over every interleaving of calls, links, checks, failures and restarts, each day's ledger is its starting total plus that day's fulfilled charges, as long as no link straddles midnight |
| `Breakers.WriteAcrossMidnight` | service/breakers.mjs:36-41 | a write that straddles midnight keeps the books exactly when the two days' totals agree |
| `Breakers.MidnightInheritsTheOldDay` | service/breakers.mjs:55-81 | a four-step run in which the new day's ledger starts with the old day's spend |
| `Breakers.ChainAlwaysMoves` | service/breakers.mjs:236-242 | a rejected link never blocks the queue: while steps are owed one is enabled and each leaves fewer |
| `Drain.DrainSettlesEveryCharge` | service/breakers.mjs:215-243 | whatever the file system does, the chain empties and every pending charge is booked or rejected: exactly a leading run is booked, in order, and any rejection leaves the process locked |
| `Breakers.LockIsSticky` | service/breakers.mjs:93-134 | once locked with no write in flight, no later charge succeeds and no check admits, on any day, until a restart |
| `Breakers.FileLockIsDurable` | service/breakers.mjs:44-49 | a lock that reached its file survives every restart as well |
| `Breakers.RestartKeepsOnlyTheFile` | service/breakers.mjs:93-127 | a restart keeps the lock exactly when the file holds it |
| `Locks.LocksExactlyWhen` | service/breakers.mjs:93-243 | for every event: what newly locks the process, and that the lock file changes exactly when such a lock can be written, and then locks |
| `Locks.FailsExactlyWhen` | service/breakers.mjs:215-243 | for every event: which links are rejected; the boot counts as failed from the first on, and a rejected link leaves every ledger alone |
| `Locks.CallsAreCounted` | service/breakers.mjs:137-243 | for every event: an admitting check starts a call, a recorded cost ends one, nothing else does |
| `Charges.QueueIsFifo` | service/breakers.mjs:215-243 | over every run within a boot, what waits is every valid cost recorded so far, in order, less those links have taken from the front; a link before its write holds the last one taken |
| `Locks.FileLockComesFromATrip` | service/breakers.mjs:113-127 | over every run the lock file is the one found at the start until the first lock that can be written, and names a reason from then on |
| `Breakers.FailureLocksOrSettles` | service/breakers.mjs:215-243 | in every reachable state a failed link has locked the process or its catch handler is still to run |
| `Breakers.AdmissionAfterFailure` | service/breakers.mjs:137-144 | after a failed link a check is admitted only before its catch handler, which closes that window for the rest of the boot |
| `Breakers.AdmittedInTheWindow` | service/breakers.mjs:233-241 | that window is real: a check between a failed write and its handler is admitted, one after it is not |
| `Breakers.NothingAfterAFailure` | service/breakers.mjs:215-243 | no charge behind a failed link succeeds before a restart |
| `Breakers.OvershootIsBounded` | service/breakers.mjs:137-243 | with at most k admitted calls unrecorded and each charge at most m, the day's total stays strictly below hard + k*m in every reachable state |
| `PlanStore.FinalIsLoadable` | service/state.mjs:92 | a plan's file is read at boot exactly when its id does not contain the temp-file mark |
| `PlanStore.TempIsNeverLoaded` | service/state.mjs:64-92 | no temp file is ever read at boot |
| `PlanStore.State.AtomicWriteJson` | service/state.mjs:61-66 | temp write then rename: the file holds the record and the temp file is gone |
| `PlanStore.WhatADeathLeaves` | service/state.mjs:61-66 | at each point of a write: every other file untouched, the file itself old until the rename and whole after it, the temp file absent, partial, whole or gone |
| `PlanStore.State.Create` | service/state.mjs:111-115 | memory and the plan's file both hold the record |
| `PlanStore.State.Update` | service/state.mjs:122-129 | the merged record in memory and on disk, or nothing for an unknown id |
| `PlanStore.State.Transition` | service/state.mjs:141-151 | compare-and-swap: moves exactly a known plan whose status is expected, to the merged record in memory and on disk; an unknown id is not found, any other status is a conflict that names it, and neither changes anything |
| `PlanStore.State.Load` | service/state.mjs:88-109 | memory is the replay of the directory in listing order, and exactly the interrupted plans are rewritten |
| `PlanStore.SweepTouchesOnlyThree` | service/state.mjs:101-106 | the sweep turns transient statuses to failed with the restart as the error and the time of the boot, touches status, error and updated_at only, and leaves surface and announced_status as they were |
| `PlanStore.LoadIsIdempotent` | service/state.mjs:88-109 | on any directory a second boot finds the same plans and rewrites nothing |
| `PlanStore.LoadIgnoresOrder` | service/state.mjs:88-109 | where every file is named after its plan, any listing order loads each plan from its own file |
| `PlanStore.LoadAgrees` | service/state.mjs:88-109 | such a boot leaves memory and directory in agreement |
| `PlanStore.WriteKeepsAgreement` | service/state.mjs:111-155 | a write keeps memory and directory in agreement exactly when the record carries the id it is filed under |
| `PlanStore.RunKeepsAgreement` | service/state.mjs:111-155 | memory and directory agree after every operation of every run that patches no plan_id into another |
| `PlanStore.RunIsApplied` | service/state.mjs:111-155 | such a run of memory and directory together leaves in memory exactly what its operations make of it one by one |
| `PlanStore.CrashIsAtomic` | service/state.mjs:61-66 | after a crash between any two file steps, a boot in any listing order yields every plan's old record, or exactly after the rename the new one, swept |
| `PlanStore.CrashDuringSweep` | service/state.mjs:88-109 | a boot that dies anywhere in its sweep, between two files or between the temp write and the rename of one, loses nothing: the next boot, in any listing order, finds every plan, swept by one of the two |
| `PlanStore.MovesIffEligible` | service/state.mjs:141-151 | the transition function moves exactly an eligible plan; a conflict carries the current status; a refusal changes nothing |
| `PlanStore.RefusedIsSkipped` | service/state.mjs:131-151 | in every run, a transition that meets its plan in a status it does not expect, or finds no plan, can be deleted from the run: memory and directory end the same |
| `PlanStore.OnlyOneWinner` | service/state.mjs:131-151 | of two transitions answered as moved, the first into a status the second does not expect, some operation between them brought an expected status back |
| `Csv.SplitCsvFields` | harness/score-agreement.mjs:57-80 | the character loop computes the recursive reading of the rest of the line |
| `Csv.RowRoundTrip` | harness/render-sheet.mjs:48-55 | splitting a printed row gives back any non-empty list of fields, whatever commas, quotes or line breaks they hold |
| `Csv.LinesRoundTrip` | harness/score-agreement.mjs:273 | reading the written file gives the lines back exactly when none contains a newline and none is blank |
| `Csv.ReturnsAreDropped` | harness/score-agreement.mjs:273 | a file saved with carriage returns before its line breaks reads as the same lines; text behind the last break is kept as it is |
| `Csv.SheetRoundTrip` | harness/render-sheet.mjs:252 | a sheet's lines survive the file exactly when no field holds a newline and no row is a single bare blank field |
| `Csv.SheetIsRecovered` | harness/score-agreement.mjs:273-276 | such a sheet comes back row by row and field by field |
| `Stats.IntervalInvertsScoreTest` | harness/score-agreement.mjs:158-169 | the unrounded interval is exactly the set of shares the score test at `z` does not reject |
| `Stats.IntervalContainsTheShare` | harness/score-agreement.mjs:158-169 | the unrounded interval lies in [0, 1] and contains successes/n |
| `Stats.ClampsNeverBite` | harness/score-agreement.mjs:165-168 | null exactly for n = 0; otherwise neither clamp changes anything, and the rounded interval contains the rounded share |
| `Stats.KappaForm` | harness/score-agreement.mjs:179-181 | chance agreement is total exactly when the raters could not differ; otherwise kappa is the stated quotient of whole numbers |
| `Stats.KappaReported` | harness/score-agreement.mjs:174-183 | the three reported figures: agreement over pairs, chance agreement over squared pairs, and kappa as one quotient of whole numbers, each rounded |
| `Stats.RoundsToNearest` | harness/score-agreement.mjs:182 | rounding gives a multiple of 0.0001 at most half of one away, the upper of two equally near |
| `Stats.NoKappaIffUnanimous` | harness/score-agreement.mjs:178-181 | null exactly when there is nothing to compare or both raters always gave the same one answer |
| `Stats.KappaBounds` | harness/score-agreement.mjs:174-183 | unrounded kappa lies in [-1, 1], is 1 exactly when b = c = 0 and both classes occur, -1 exactly when a = d = 0 and b = c, and non-negative exactly when ad >= bc |
| `Stats.RoundedKappaIsOne` | harness/score-agreement.mjs:181 | the reported, rounded kappa is 1 exactly when 20000 n (b + c) is at most the chance-disagreement weight |
| `Stats.PerfectByRounding` | harness/score-agreement.mjs:181 | one disagreement in 200001 pairs is reported as kappa 1 |
| `Stats.KappaIsSymmetric` | harness/score-agreement.mjs:174-183 | swapping the raters or the answers changes nothing |

## Left out

- `Breakers.NoLostUpdate`: covers runs in which no link straddles midnight; `Breakers.WriteAcrossMidnight` says exactly what happens to the others.
- `Breakers.OvershootIsBounded`: is about one process and a day whose ledger starts fresh, with no link straddling midnight.
- `JsonRecovery.StripToJson`: a null argument, which the source rejects at once, is not a text here.
- `JsonRecovery.PayloadIsRecovered`: is about prose without an opening brace; `JsonRecovery.UncoveredPayloadIsRecovered` covers any text, with the condition that no earlier candidate reaches over the payload.
- `PlanStore.CrashIsAtomic`: one interrupted write at a time; a write that throws while the process lives on, leaving memory ahead of the disk, is not modelled.
- `PlanStore.State.Load`: uses one temp-file suffix for all the rewrites of a boot, and fields of a record are strings.
- `Audit.AuditLedger.AppendAudit`: that the directory cannot be made is one of its failures; a record without a timestamp is filed under a date given from outside.
- `Audit.AuditLedger.ReadAudit`: files that vanish during a read and lines that decode to something other than an object do not occur; a line index is unbounded.
- `Cursors.DecodeCursor`: works on the text inside the base64url, whose lenient decoding is not modelled.
- `Zones.LoadNoGoZones`: starts from the decoded `no_go_zones` sequence.
- `Gate.AcceptRun`: a process that cannot be started has no exit code and is refused before this point.
- `SkeletonRun.ValidateSkeleton`: three of its seven checks are given by their results.
- `Stats.Wilson`: exact reals; floating-point rounding is not modelled, so a test such as `pe === 1` is exact here.
- `CompareStructure.Compare`: complaints are characterised as a set; their order and wording are not, here and in the other checks.
- Process spawning, HTTP, git, Slack, OAuth, Jira and the file system itself: parameters, oracles or steps.
- `sizing_sane`, `summary_consistency`, `output_language_metadata`, the contract and enum checks, thresholds loading: shallow tests that would add only easy members.
- `checkPlanBudget`, the soft-cap warning and the legacy USD ledgers: single comparisons and conversions.
- Two processes sharing one results directory: the code documents that its mutex does not cover them.
- Bytes: strings are sequences of characters, so invalid encodings and Unicode normalisation do not occur.
- The service's request handlers, prompt composition and the dashboard.

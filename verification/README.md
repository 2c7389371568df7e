# TankoVault: a verified model of its hardest algorithms

TankoVault's code is mostly I/O around a handful of self-contained algorithms whose correctness is
argued in comments. This project models those algorithms in Dafny, branch by branch, and proves what
the comments claim. Where a claim is false as stated, the model keeps the code as it is, names an
input that shows it, and proves the exact condition under which the claim holds.

| files | what they model |
|---|---|
| `Json`, `Downgrade`, `DowngradeShapes`, `NormalForm`, `SchemaMeaning`, `SchemaDocument` | the OpenAPI 3.1 to 3.0 rewriter: termination, what becomes of each shape, normal forms, idempotence, preserved meaning |
| `WorkspaceGraph`, `PathRules`, `PathVerdicts`, `HeadGraph`, `VersionMask`, `MaskedText`, `ReleasePlan`, `ReleaseSafety`, `ReleaseBuild`, `ReleaseCompile`, `ReleaseHistory` | the release planner, from one search of the dependency graph to what an image is compiled from and whole release histories |
| `Scanner`, `ScannerBound`, `ScannerText` | the one-pass recovery of JSON objects from a page, against the scan that starts over at every brace, and that against string literals and a grammar of balanced objects |
| `Ordering`, `Notices`, `Whitespace`, `WhitespaceFold`, `NoticeMerge`, `NoticeClusters`, `NoticeOrder` | merging, clustering and ordering licence notices |
| `Entities` | decoding XML entities by six replacements |
| `Options`, `WorkQueue`, `Consumer`, `Consumers` | broker consumption: the protocol over every run, the consumer loop as one of its runs, and any number of consumers interleaved |
| `Selection`, `PageWalk`, `KunmangaWalk`, `WebtoonsWalk`, `MangadexWalk`, `AstroCatalogue` | walks over paginated sites, for every server and for honest ones |
| `Totp`, `TotpReplay` | one-time passwords and replay protection over interleaved requests |

`dafny verify dfyconfig.toml` checks all of it.

## How the model relates to the code

* Code that updates state in place is a class or a method with a loop, proved against a function of
  its input or of its old state; the theorems are about that function. `JsonMap` holds one JSON object
  as the rewriters see it, `NameSet` the visited set the searches share, `Candidates` the list the
  scanner appends to, `Message` the broker's view behind an ack handle, `Enrolment` the row that keeps
  the last accepted step.
* What the code gets from outside is a parameter: a revision is a map from paths to contents, a server
  a function from page to answer, HMAC a function to 20 bytes, and which acks and heartbeats land, how
  long a handler takes and when a process crashes are the events of a run.
* Integer widths appear where they matter: the 64-bit step and its bytes, the 31-bit truncation, the
  saturating 32-bit offset, the `usize::MAX` a new cluster's opening starts from.

## What the proofs found

* The rewriter is idempotent exactly on the inputs that `Settles` describes. It is not when the first
  member of a `type` list other than null is not a string, nor when a nullable union splices in an
  `openapi` key, because the version check runs before the collapse.
* A property named `type` or `examples` is taken for the keyword and lost: the rewritten schema means what
  the schema meant without it (`LostPropertiesMeaning`), so a verdict changes exactly where the rest accepts
  a value and that property's schema does not (`PropertyLossIff`). The repository's own document has one:
  `ProblemDetails` keeps a problem type under `type` (`openapi.json:3832`), and the generated client holds
  any JSON value there (`crates/api-client/src/lib.rs:3404`). No other component refers to it, so the rest
  of the document keeps its meaning. On `null` itself a collapsed union answers the opposite of the original.
* No image is ever stale in its compiled code: the planner covers what an image is compiled from, by each
  revision's own dependency graph (`NeverStaleCompiled`). In general it misses nothing if and only if it
  counts every path on which the image depends, and for the frontend image there are two more: its build
  runs the generator of the licence notices (`deploy/docker/Dockerfile:394`) and publishes what that writes
  (line 493), but `xtask/src/notices.rs` belongs to a package the frontend is not built from, and
  `about.toml`, which that generator's harvest is configured by, reaches no image by rule. A change to either
  alone leaves the published image as it was. Files that are only opened do not count in this: cargo opens
  every member's manifest (`Cargo.toml:3-30`) to make out the workspace, and the planner rightly ignores those
  outside an image's reach.
* The scanner's bound of 64 tracked braces hides an object exactly when at least 64 other candidates are
  open around it. So it cannot be seen on a page while at most 56 candidate braces are never closed, and
  with one more there is a page on which it shows.
* Of the five entities that XML 1.0 predefines (section 4.6), the decoder misses `&apos;`. Decoding undoes
  the standard's escaping if and only if the text holds no apostrophe.
* Folding whitespace and dropping carriage returns do not commute: two texts that fold apart can become
  one text when a lone carriage return was all that separated two words.
* The order of the harvest cannot show in the merged notices if and only if texts of one licence that
  fold alike are identical without their carriage returns.
* The handler budget holds with unreadable delivery counts only if it allows one delivery.
* A series with exactly as many pages as the WEBTOON walk's cap is read whole and still reported as
  truncated.
* Against a site that serves its last page again, the Astro walk reads past the end whenever the last
  page is short, and stops exactly at the page whose number times the short page reaches the total.

## Model

| member | source | states |
|---|---|---|
| Downgrade.JsonMap.CollapseNullableUnion | xtask/src/main.rs:528-544 | the loop leaves the object that collapsing nullable unions until none is left leaves |
| Downgrade.JsonMap.WrapAnnotatedReference | xtask/src/main.rs:549-579 | a `$ref` beside anything but an annotation moves into a one-member `allOf`, and nothing else changes |
| Downgrade.JsonMap.FlattenType | xtask/src/main.rs:596-634 | the `type` keyword, in each of its shapes, becomes one name and a `nullable` flag |
| Downgrade.JsonMap.KeepFirstExample | xtask/src/main.rs:636-641 | `examples` gives way to its first entry |
| Downgrade.DowngradeTo30 | xtask/src/main.rs:585-654 | the in-place recursion ends on every JSON tree and computes the rewritten tree |
| Downgrade.PreparedIsLower | xtask/src/main.rs:585-654 | termination: every value the pass goes on to is lower than the object it prepared, by a measure that pays for a wrap with the sibling that caused it |
| DowngradeShapes.UnionRewritten | xtask/src/main.rs:528-544 | an object whose `oneOf` holds the null schema and one other object schema, in either order, is rewritten as the object with that schema's keys in place of the union, whatever the schema is, a `$ref` included; the lemmas below are about objects without such a union |
| DowngradeShapes.ReferenceRewritten | xtask/src/main.rs:549-579 | a `$ref` among other keys than `description` and `summary` ends as the one member of an `allOf`, the other keys staying |
| DowngradeShapes.TypeRewritten | xtask/src/main.rs:596-634 | which one type a `type` keyword ends as: its name, or the first in its list that is not null |
| DowngradeShapes.NullableRewritten | xtask/src/main.rs:596-634 | `nullable` becomes true exactly when `type` is null alone, a list of nothing but nulls that has one item or more than two, or a list of two of which one is null; otherwise it stays as it was |
| DowngradeShapes.ExampleRewritten | xtask/src/main.rs:636-641 | `examples` is gone, and the first entry of a list of them stands, rewritten, under `example` |
| DowngradeShapes.OthersRewritten | xtask/src/main.rs:585-654 | every other key, a `oneOf` that is no such union among them, keeps its value, rewritten, but for the version 3.1.0, which becomes 3.0.3 |
| DowngradeShapes.ListsRewritten | xtask/src/main.rs:648-652 | a list is rewritten item by item, and a scalar stays as it is |
| NormalForm.PreparedKeys | xtask/src/main.rs:585-642 | one pass leaves no collapsible union, no `$ref` to wrap, no `examples` and no `"null"` type |
| NormalForm.PreparedSurvives | xtask/src/main.rs:585-654 | which values of an object the pass goes on to, and under which keys |
| NormalForm.NeverNullSchema | xtask/src/main.rs:528-654 | the rewriter never produces the schema that would make a union collapsible again |
| NormalForm.FixedIff | xtask/src/main.rs:585-654 | the values the rewriter leaves alone are exactly the normal forms |
| NormalForm.NormalIffSettles | xtask/src/main.rs:585-654 | one pass yields a normal form if and only if, in every object it visits, the `type` list left by collapsing picks a string and no spliced arm brings in `openapi: 3.1.0` |
| NormalForm.IdempotentIff | xtask/src/main.rs:994-1003 | a second pass changes nothing on exactly the same inputs |
| NormalForm.DocumentIdempotent | xtask/src/main.rs:994-1003 | a document whose `type` lists begin with a string, null aside, and with no `openapi` key below the root is normal after one pass and fixed under a second |
| NormalForm.SplicedVersionNeedsSecondPass | xtask/src/main.rs:588-594 | an `openapi` key spliced out of a nullable union makes two passes differ from one |
| NormalForm.NonStringTypeNeedsSecondPass | xtask/src/main.rs:935-948 | so does a `type` array holding one member that is not a string, whatever it is |
| SchemaMeaning.TypeAgrees | xtask/src/main.rs:596-634 | for one type name, alone or with `"null"`, the flattened keyword allows by 3.0 rules what the original allowed by 3.1 rules |
| SchemaMeaning.PropertyNamesKeptIff | xtask/src/main.rs:585-647 | a map of property schemas keeps its names if and only if none is a keyword the rewriter takes for itself |
| SchemaMeaning.UnionMeansArm | xtask/src/main.rs:499-544 | on values other than null, an object with a union of the null schema and another schema, in either order, accepts rewritten exactly what it accepts with that schema's keys in the union's place |
| SchemaMeaning.Meaning | xtask/src/main.rs:528-654 | the rewritten schema, `$ref`s resolved in the rewritten components, accepts by 3.0 rules exactly the null-free values the original accepts by 3.1 rules, and all values where no nullable union occurs; only components that its references lead to need be faithful |
| SchemaDocument.ComponentsDowngraded | xtask/src/main.rs:585-654 | the rewritten document's components are the rewritten components, under the same names |
| SchemaDocument.DocumentMeaning | xtask/src/main.rs:337-420 | a component whose references stay within faithful components means in the rewritten document what it meant in the original, whatever the other components are |
| SchemaDocument.MeaningAt | xtask/src/main.rs:585-654 | so does a faithful schema at any path of plain objects and lists, such as a request, response or parameter schema |
| SchemaDocument.NullVerdictFlips | xtask/src/main.rs:511-516 | on null a collapsed union gives the opposite verdict |
| SchemaDocument.LostPropertiesMeaning | xtask/src/main.rs:585-647 | a schema with properties named `type` or `examples`, rewritten, accepts by 3.0 rules exactly what it accepts by 3.1 rules without them |
| SchemaDocument.PropertyLossIff | xtask/src/main.rs:596-641 | without `additionalProperties`, rewriting changes the verdict on a value if and only if the rest of the schema accepts it and the schema of such a property rejects it; it never rejects more |
| SchemaDocument.DocumentLossIff | openapi.json:3812-3843 | the same of a component of a whole document, `ProblemDetails` among them |
| SchemaDocument.TypeListIff | xtask/src/main.rs:606-631 | flattening a list of type names keeps its meaning if and only if the first non-null name covers the others and null stands in a list of two |
| WorkspaceGraph.DependencyClosure | xtask/src/release_plan.rs:287-297 | the recursive search with a shared visited set ends on every graph and adds what it had not visited |
| WorkspaceGraph.SearchIsReach | xtask/src/release_plan.rs:287-297 | from a set closed under dependencies, the search adds exactly the names reachable from the start, so searching again with the same set gives the union |
| WorkspaceGraph.Reach | xtask/src/release_plan.rs:302-313 | an image's reach is the packages reachable from its own package and, for the frontend, from the SPA's roots |
| HeadGraph.BuiltFromIff | xtask/src/release_plan.rs:287-313 | an image is built from exactly the names that end a chain of packages, each depending on the next, which starts at the package of its binary or, for the frontend, at an SPA root |
| HeadGraph.SpaNamesIff | xtask/src/release_plan.rs:409-426 | the SPA's roots are the names of the packages in the directories its manifest points to, and no others |
| PathRules.LongestRuleIs | xtask/src/release_plan.rs:540-552 | the rule found matches, and none that matches has a longer prefix |
| PathRules.OwnerIs | xtask/src/release_plan.rs:527-536 | the owner's directory holds the path, and none that does is longer |
| PathRules.IsMarkdownIff | xtask/src/release_plan.rs:457-461 | a path is a document exactly when it ends in a dot and `md`, in either case, and the dot does not start the file name |
| PathVerdicts.VerdictIff | xtask/src/release_plan.rs:47-113 | for every path: the longest entry of the table gives it a verdict if and only if it is among the directories and files listed for that verdict, the only exceptions being two gates' settings under `.cargo` and what lies under `deploy/docker` |
| PathVerdicts.TouchesIff | xtask/src/release_plan.rs:316-330 | for every path: it reaches an image if and only if it is no document and every build reads it, or nothing is known of it, or it is the SPA's and the image the frontend, or it stands for a package the image is built from |
| PathVerdicts.RootManifestReachesAll | xtask/src/release_plan.rs:52-113 | the root manifest counts as a change to every image, whatever the packages |
| PathVerdicts.LockfileReachesAll | xtask/src/release_plan.rs:52-113 | so does the lockfile |
| PathVerdicts.SpaManifestReachesFrontend | xtask/src/release_plan.rs:82-82 | the SPA's manifest counts as a change to the frontend |
| PathVerdicts.UsualManifestIsSeen | xtask/src/release_plan.rs:512-537 | a manifest under `crates/`, `services/` or `xtask` is charged to its own package or to every image: no rule hides it |
| HeadGraph.SameReach | xtask/src/release_plan.rs:287-313 | if the packages in an image's reach at HEAD kept their dependencies, reachability from them is the same at the base |
| HeadGraph.SameBuiltFrom | xtask/src/release_plan.rs:302-313 | then the image is built from the same packages at both revisions |
| HeadGraph.SameRelevance | xtask/src/release_plan.rs:512-537 | and the same paths are relevant to it at both |
| VersionMask.MaskWorkspaceVersion | xtask/src/release_plan.rs:621-637 | the loop over manifest lines masks exactly the versions in `[workspace.package]` |
| VersionMask.MaskLockfileVersions | xtask/src/release_plan.rs:641-659 | the loop over lockfile lines masks exactly the members' versions |
| VersionMask.SectionsInStep | xtask/src/release_plan.rs:621-659 | two texts that differ only in version lines are in the same section at every line |
| VersionMask.MaskedEqualIff | xtask/src/release_plan.rs:621-665 | two files mask equal if and only if they have the same lines except where both hold a version in a masked section |
| MaskedText.LinesHoldText | xtask/src/release_plan.rs:624-644 | joined by line feeds again, a text's lines are the text, but for returns in front of line feeds and a line feed at its end |
| MaskedText.HiddenIff | xtask/src/release_plan.rs:621-665 | a line is masked if and only if it assigns `version` somewhere below a header `[workspace.package]`, in the lockfile below the name of a member, with no other header or name in between |
| MaskedText.MaskedTextIff | xtask/src/release_plan.rs:585-605 | two texts mask equal if and only if, character by character, they differ in no more than masked lines, returns in front of line feeds and a last line feed |
| ReleasePlan.ImpactsSince | xtask/src/release_plan.rs:475-509 | the impacts are those of the changed paths, each classified, a version-only change counting as none |
| ReleasePlan.VersionOnlyChange | xtask/src/release_plan.rs:585-605 | a file counts as version-only when it exists at both revisions and masks equal |
| ReleasePlan.Hit | xtask/src/release_plan.rs:316-330 | a reason is a changed path that reaches the image, and there is none only if no change does |
| ReleasePlan.Select | xtask/src/release_plan.rs:149-188 | the plan holds exactly the deployable images with no published base or with a change since their own base that reaches them |
| ReleaseSafety.UsualWorkspaceIsSoundHead | xtask/src/release_plan.rs:47-113 | a workspace laid out as this one hides no manifest from the planner |
| ReleaseSafety.VersionBumpIsNoHit | xtask/src/release_plan.rs:484-505 | a release commit, in which only the workspace's and the members' versions differ, selects no image that is published |
| ReleaseSafety.RealChangeIsHit | xtask/src/release_plan.rs:484-505 | any other difference in the root manifest or the lockfile, a third party's version in whatever line, selects every image |
| ReleaseSafety.UnhitMeansSameManifests | xtask/src/release_plan.rs:316-330 | an image left alone had, at its base, the manifests its reach has at HEAD |
| ReleaseSafety.UnhitMeansSameReach | xtask/src/release_plan.rs:287-330 | HEAD's graph is enough: an image left alone had the same reach at its base |
| ReleaseSafety.SelectionExact | xtask/src/release_plan.rs:475-537 | an image is left alone if and only if the files the planner counts as its inputs, at each revision by its own graph, are the same, the workspace version aside |
| ReleaseBuild.UnhitMeansSameBuild | xtask/src/release_plan.rs:3-6 | when the planner counts every path the build at HEAD reads, and what it reads decides what else it reads, an image left alone is the one a build would give |
| ReleaseBuild.UncoveredGoesStale | xtask/src/release_plan.rs:316-330 | a path the build reads and the planner does not count: changing it alone leaves a stale image alone |
| ReleaseBuild.NothingMissedIff | xtask/src/release_plan.rs:3-6 | no stale image is ever left alone, from any base at which the reads are so decided, if and only if the planner counts every path the build at HEAD reads |
| ReleaseBuild.GeneratorIsMissed | deploy/docker/Dockerfile:388-395 | the frontend's build runs the notices generator, which no frontend dependency owns: a change to it is missed |
| ReleaseBuild.SettingsAreMissed | xtask/src/release_plan.rs:99-99 | so is a change to the generator's settings, whatever the packages |
| ReleaseCompile.CompilesCovered | xtask/src/release_plan.rs:47-113 | in the usual layout the planner counts everything an image is compiled from, by the revision's own graph and what its build copies, no rule consulted |
| ReleaseCompile.CompilesDetermined | xtask/src/release_plan.rs:287-313 | HEAD's graph is enough: where everything compiled at HEAD is the same at the base, the base's own graph compiles the same paths |
| ReleaseCompile.OpenedManifestIsNotCounted | xtask/src/release_plan.rs:525-536 | a member's manifest outside the image's reach, which cargo only opens, is not counted |
| ReleaseHistory.PlanIsSelection | xtask/src/release_plan.rs:149-188 | the plan computed from base refs is the selection from published revisions |
| ReleaseHistory.BaseIsLastBuild | xtask/src/release_plan.rs:8-10 | an image's base is the HEAD of the last release that built it, or where it started if none did |
| ReleaseHistory.DischargedIff | xtask/src/release_plan.rs:3-10 | one release leaves every image fresh, or selected with a failed leg, whatever it was published from, if and only if the planner counts what the build reads |
| ReleaseHistory.NeverStale | xtask/src/release_plan.rs:3-10 | after each release of any history at which the planner counts what the build reads, and the reads are decided since the base, an image is what that build would be, or it was selected and its leg failed in that very release |
| ReleaseHistory.NeverStaleCompiled | xtask/src/release_plan.rs:3-10 | after each release of any sound history an image is compiled from what HEAD would be compiled from, each by its own graph, or its leg was selected and failed in that very release |
| ReleaseHistory.FailedLegIsPickedUp | xtask/src/release_plan.rs:8-10 | until it succeeds, a failed leg is selected at a later release unless its published base is what a build there would be |
| ReleaseHistory.FailedLegIsCompiled | xtask/src/release_plan.rs:8-10 | a failed leg is selected by the next release at which the image would be compiled from anything else |
| ReleaseHistory.FailedLegStaysSelected | xtask/src/release_plan.rs:8-10 | until it succeeds, a failed leg is selected at a later release if and only if the files the planner counts differ from its published base |
| Scanner.NaiveIffBalanced | crates/adapters/src/json.rs:105-110 | the naive scan finds exactly the spans that open like an object and are balanced outside strings |
| Scanner.NestedOrDisjoint | crates/adapters/src/json.rs:105-110 | two spans are nested or disjoint |
| ScannerText.LiteralIsCrossed | crates/adapters/src/json.rs:126-134 | from a quote outside strings, over bytes other than quote and backslash and pairs of a backslash and any byte, the scan is inside a string up to the next quote and outside behind it |
| ScannerText.OutsideIff | crates/adapters/src/json.rs:124-137 | an offset is outside strings if and only if the bytes in front of it are string literals and bytes that are no quotes |
| ScannerText.CandidateIff | crates/adapters/src/json.rs:171-179 | a brace is a candidate if and only if it stands outside strings and the first byte behind it that is no ASCII whitespace is a quote or a closing brace |
| ScannerText.BalancedIff | crates/adapters/src/json.rs:105-110 | a span is balanced if and only if it is an opening brace, a sequence of literals, other bytes and balanced pieces, and a closing brace |
| ScannerText.NaiveIffObject | crates/adapters/src/json.rs:105-179 | the naive scan finds exactly the spans that such a grammar of objects describes |
| ScannerText.AppendedIsObject | crates/adapters/src/json.rs:161-168 | every text appended is an object of that grammar, a span of the naive scan from its opening brace to its closing one |
| ScannerText.FirstEight | crates/adapters/src/json.rs:110-169 | while at most 56 candidate braces are never closed, the 8 objects appended to an empty list are the first 8 of the naive scan |
| Scanner.ScanKeepsInv | crates/adapters/src/json.rs:115-159 | at every byte the depth, string state and stack of the one pass are those of the tracked openings still waiting |
| Scanner.FindSpans | crates/adapters/src/json.rs:115-159 | the loop ends with the spans of the pass over the whole document |
| Scanner.SortedIsBounded | crates/adapters/src/json.rs:161-162 | sorted, they are the naive spans of the tracked openings in document order |
| Scanner.TrackedIff | crates/adapters/src/json.rs:111-150 | a candidate is tracked if and only if fewer than 64 candidates are still open where it stands |
| Scanner.BoundUnseenIff | crates/adapters/src/json.rs:111-113 | the first `k` spans are the naive scan's if and only if each of those stands inside fewer than 64 open candidates |
| Scanner.BoundUnseen | crates/adapters/src/json.rs:111-113 | a count that suffices: while at most `64 - k` candidate braces are never closed, the first `k` spans are the naive scan's |
| Scanner.Candidates.CollectObjects | crates/adapters/src/json.rs:110-169 | what is appended are the texts of the first spans that fit under the cap of 8 |
| Scanner.AppendsLikeNaive | crates/adapters/src/json.rs:110-169 | when each of the objects there is room for stands inside fewer than 64 open candidates, what is appended is what the naive uncapped scan would give |
| Scanner.AppendsWhileFewOpen | crates/adapters/src/json.rs:110-169 | in particular while the braces never closed leave room on the stack for the objects kept |
| ScannerBound.BoundTight | crates/adapters/src/json.rs:111-113 | with one more brace never closed there is a document on which the bound shows |
| NoticeMerge.Merge | xtask/src/notices.rs:322-375 | the loops over files, maps and notices compute the merged harvest |
| NoticeMerge.GatheredIs | xtask/src/notices.rs:326-345 | each licence holds one notice per fold: the first text without its returns, and every crate of every file of that fold |
| NoticeMerge.LicencesOnce | xtask/src/notices.rs:347-375 | the merged harvest names each licence of the harvest, once, and no other |
| NoticeMerge.ClassesKeptOnce | xtask/src/notices.rs:322-375 | a licence's notices stand one for one for the distinct folds of its files |
| NoticeMerge.AttributionConserved | xtask/src/notices.rs:310-321 | a crate is under the one notice of a fold if and only if some file of that fold was found with it, and each notice names it once |
| NoticeMerge.FoldsShowIff | xtask/src/notices.rs:310-339 | the notices' own texts fold to what they stand for if and only if no text kept loses a word boundary with its returns |
| NoticeMerge.CoveredAreDistinct | xtask/src/notices.rs:377-389 | the crates counted for a licence are the distinct ones found with any of its files |
| NoticeMerge.MergeIgnoresOrder | xtask/src/notices.rs:323-325 | the same files in another order, or repeated, merge to the same result when texts that fold alike agree |
| NoticeMerge.OrderIgnoredIff | xtask/src/notices.rs:322-375 | no reordering of the harvest changes the result if and only if texts that fold alike agree without their returns |
| NoticeOrder.LicencesInOrder | xtask/src/notices.rs:369-375 | the licences come by the number of distinct crates harvested with each, most first, then by id and then by name, compared character by character |
| NoticeOrder.NoticesInOrder | xtask/src/notices.rs:358-366 | a licence's notices come by their crates, most first, then by the lists of crates, name before version |
| NoticeOrder.GroupsInOrder | xtask/src/notices.rs:516-520 | the groups come by the sum of their notices' crates, most first, then by the crates of their first notices, then by their texts |
| NoticeOrder.GroupInOrder | xtask/src/notices.rs:504-515 | so do the notices inside a group, each by its own crates |
| WhitespaceFold.FoldedAlikeIff | xtask/src/notices.rs:550-557 | two texts fold alike if and only if they hold the same words, and folding twice is folding once |
| WhitespaceFold.WrapIsSpace | xtask/src/notices.rs:550-557 | a line wrap, indented or not, folds like a space: texts that differ in no more are one notice |
| WhitespaceFold.InkIsKept | xtask/src/notices.rs:550-557 | folding loses no printed character |
| WhitespaceFold.FoldKeptIff | xtask/src/notices.rs:107-110 | dropping returns keeps the fold if and only if no return alone separates two words |
| WhitespaceFold.LoneReturnJoinsWords | xtask/src/notices.rs:332-337 | two texts that fold apart can become one text |
| Ordering.SortedIsStable | xtask/src/notices.rs:481-514 | the sorts keep items that tie in the order they came in |
| Ordering.BeforeIff | xtask/src/notices.rs:360-372 | one sequence comes before another if and only if it ends, or has the smaller item, where they first part |
| NoticeClusters.SharedOpeningIsGreatest | xtask/src/notices.rs:525-535 | the shared opening is the longest text of whole lines that both notices begin with |
| NoticeClusters.Ultrametric | xtask/src/notices.rs:485-490 | two notices share at least what each shares with a third, or as much as one of them |
| NoticeClusters.SharedShrinks | xtask/src/notices.rs:480-481 | in sorted order, a notice shares no more with a later one than with one in between |
| NoticeClusters.JoinedIsSound | xtask/src/notices.rs:484-496 | the running minimum is the longest opening common to the whole group |
| NoticeClusters.ClusterNotices | xtask/src/notices.rs:479-522 | the groups partition the notices, each with its longest common opening or 0 when alone, most used first throughout |
| NoticeClusters.ClusteringIsExact | xtask/src/notices.rs:467-496 | two notices are in one group if and only if they share an opening of at least 1024 bytes |
| NoticeClusters.SplitIsLossless | xtask/src/notices.rs:416-448 | the printed opening followed by a notice's own block is that notice's text, and nothing longer is common to the group |
| Entities.UnescapedIsDecoded | crates/adapters/src/html.rs:531-538 | the six chained replacements equal one left-to-right decoder of the six entities, for every string |
| Entities.EntityReads | crates/adapters/src/html.rs:531-538 | each of the six entities is read as its character, anywhere in a text, and what is around it is read as if it stood alone |
| Entities.DecodesSpelling | crates/adapters/src/html.rs:531-538 | any way of spelling a string, each special character by any of its entities, decodes to it |
| Entities.EscapeRoundTrip | crates/adapters/src/html.rs:531-538 | decoding undoes escaping when the apostrophe is written `&#39;` |
| Entities.OneLevelOnly | crates/adapters/src/html.rs:537-537 | a string escaped that way several times loses exactly one level |
| Entities.XmlRoundTripIff | crates/adapters/src/html.rs:525-538 | decoding undoes the escaping of XML 1.0, which writes `&apos;`, if and only if the text holds no apostrophe |
| Entities.ApostropheIsNotDecoded | crates/adapters/src/html.rs:525-538 | `&apos;` comes back as it was |
| Entities.XmlOneLevelIff | crates/adapters/src/html.rs:525-538 | a text escaped that way several times loses exactly one level, if and only if it was escaped more than once or holds no apostrophe |
| Entities.UnchangedIff | crates/adapters/src/html.rs:531-538 | a string comes back unchanged if and only if it holds no entity |
| Entities.AmpersandFirstLosesTwoLevels | crates/adapters/src/html.rs:532-537 | replacing the ampersand first would lose two levels |
| WorkQueue.NoSilentLoss | crates/bus/src/lib.rs:674-798 | over every run, the message is gone exactly when one event removed it: a success, an undecodable payload, or a failure on a delivery that used up the budget |
| WorkQueue.RemovedIff | crates/bus/src/lib.rs:732-797 | over every run, an event removes a stored message if and only if it is a settlement that lands and the payload does not decode, the handler did not fail, or the count read is at least `max_deliveries` |
| WorkQueue.HandedBack | crates/bus/src/lib.rs:775-785 | a failure with budget left that lands on an open claim leaves the message stored, unclaimed, and available again after the backoff of its count |
| WorkQueue.DeliveredAt | crates/bus/src/lib.rs:128-138 | a delivery happens only to a stored message that is due and unclaimed, adds one to its count and claims it until the deadline; the count read is that number, or 1 when it cannot be read |
| WorkQueue.BeatAtBroker | crates/bus/src/lib.rs:84-108 | a heartbeat that lands on an open claim moves its deadline and nothing else |
| WorkQueue.BudgetIff | crates/bus/src/lib.rs:626-650 | when settlements land and no deadline lapses the handler runs at most `max(1, max_deliveries)` times, if and only if counts are readable, the budget is at most one, or the payload does not decode |
| WorkQueue.BudgetReached | crates/bus/src/lib.rs:626-650 | a message that keeps failing is handled exactly that often and then removed |
| WorkQueue.ExclusiveIff | crates/bus/src/lib.rs:75-83 | no message is ever in two hands when at most `k` heartbeats in a row are lost, if and only if `k + 1` gaps are shorter than the deadline |
| WorkQueue.TaskHeartbeatTolerates | crates/bus/src/lib.rs:35-73 | the task heartbeat tolerates three losses in a row and not four |
| WorkQueue.NeverStuck | crates/bus/src/lib.rs:110-121 | after any run a message still in the stream can be delivered once the deadline or the longest backoff has gone by |
| Consumer.Message.RetryLater | crates/bus/src/lib.rs:122-126 | a negative ack that lands frees the message after the delay, and a lost one changes nothing |
| Consumer.Message.Ack | crates/bus/src/lib.rs:802-806 | an ack that lands removes the message, and a lost one changes nothing |
| Consumer.WithAckHeartbeat | crates/bus/src/lib.rs:84-108 | a heartbeat goes out at every tick strictly before the work ends, and at no other time |
| Consumer.HandleDelivery | crates/bus/src/lib.rs:732-797 | one delivery is worked on and settled: a success, an undecodable payload or a spent budget is acked and gone once that lands, a failure with budget left is stored and available after the backoff of its count, and a settlement that is lost settles nothing |
| Consumer.Consume | crates/bus/src/lib.rs:714-799 | the loop takes the broker through one such turn per delivery |
| Consumer.ConsumerIsRun | crates/bus/src/lib.rs:680-690 | whatever one consumer goes through is a run of the protocol, and a disciplined one when it loses few enough heartbeats in a row |
| Consumers.SettlesAfterItsTurn | crates/bus/src/lib.rs:714-799 | however many consumers interleave, one that settles has worked its whole time, sent the heartbeats of the loop and no more, and settles by the count it read |
| Consumers.InterleavingIsRun | crates/bus/src/lib.rs:680-799 | every interleaving of any number of consumers is a run of the protocol, and a disciplined one when each loses few enough heartbeats in a row |
| Consumers.NeverDoubledIff | crates/bus/src/lib.rs:75-108 | consumers with a heartbeat never handle one message twice at once, whatever the interleaving, if and only if one heartbeat more than may be lost in a row still fits the deadline |
| PageWalk.CollectedHolds | crates/adapters/src/kunmanga.rs:393-397 | pages gathered under distinct keys hold every listed chapter once |
| PageWalk.KeptIs | crates/adapters/src/webtoons.rs:250-255 | a page adds exactly its rows that are the first with a new key, as they are and in order |
| PageWalk.StoppingCostsIff | crates/adapters/src/kunmanga.rs:417-428 | stopping at the first page that adds nothing loses nothing if and only if no later page would have added something |
| KunmangaWalk.FetchChapters | crates/adapters/src/kunmanga.rs:362-431 | for every server the walk ends within 1000 pages, at the first page with a reason to stop |
| KunmangaWalk.ResultIs | crates/adapters/src/kunmanga.rs:367-388 | it is an error exactly when a page cannot be read, a missing series exactly when the first page is refused, and otherwise the distinct numbered chapters of the pages read |
| KunmangaWalk.NumberedIs | crates/adapters/src/kunmanga.rs:388-413 | the rows kept are exactly those with a number, each with its slug, number and title, in order |
| KunmangaWalk.CompleteIff | crates/adapters/src/kunmanga.rs:340-344 | against an honest server everything within the cap is collected if and only if no page that adds nothing is followed by one that would |
| KunmangaWalk.EveryPageRead | crates/adapters/src/kunmanga.rs:417-428 | when every page up to the last adds a chapter, all are read and every numbered chapter is there, once |
| WebtoonsWalk.FetchChapters | crates/adapters/src/webtoons.rs:198-271 | for every server the walk ends within 200 pages, at the first that adds nothing or cannot be read |
| WebtoonsWalk.ResultIs | crates/adapters/src/webtoons.rs:203-271 | it is an error exactly when a page cannot be read, and otherwise each path of the pages read once, with a flag that says whether the last page added nothing |
| WebtoonsWalk.ParsedIs | crates/adapters/src/webtoons.rs:216-242 | the rows kept are exactly those with a number and a link, in order |
| WebtoonsWalk.CompleteIff | crates/adapters/src/webtoons.rs:244-257 | against a clamping server whose pages each add something, everything is collected if and only if there are at most 200 pages |
| WebtoonsWalk.ExhaustedIff | crates/adapters/src/webtoons.rs:254-269 | the walk knows that it reached the end if and only if there are fewer |
| WebtoonsWalk.EveryPageRead | crates/adapters/src/webtoons.rs:244-257 | the chapters collected are those of every real page, each once |
| WebtoonsWalk.StoppingEarlyCostsIff | crates/adapters/src/webtoons.rs:247-257 | with pages that may add nothing, stopping early loses something exactly when a later page had something new |
| MangadexWalk.FetchChapters | crates/adapters/src/mangadex.rs:304-365 | for every server the walk ends within 40 windows, at the first short one or the one that reaches the total, with the readable rows in order |
| MangadexWalk.ParsedIs | crates/adapters/src/mangadex.rs:326-354 | the rows kept are exactly those hosted here, available and numbered, under their chapter's path and in order |
| MangadexWalk.OffsetIs | crates/adapters/src/mangadex.rs:357-357 | the offset never saturates within the cap |
| MangadexWalk.CompleteIff | crates/adapters/src/mangadex.rs:315-361 | an honest feed is visited row by row, in order and once, if and only if it has at most 20000 rows, and the walk knows which |
| AstroCatalogue.Walk | crates/adapters/examples/probe.rs:267-293 | a driver that follows `has_next` ends at the first page that says none follows |
| AstroCatalogue.FollowsIff | crates/adapters/src/astro.rs:241-272 | another page follows if and only if this one has rows, prose and all, and states a total above its number times those rows |
| AstroCatalogue.ItemsIs | crates/adapters/src/astro.rs:226-243 | the items of a page are exactly its rows with a slug that are no prose, each under its path with its title or else its slug, in order |
| AstroCatalogue.AlwaysEnds | crates/adapters/src/astro.rs:241-251 | against every server the walk ends no later than the largest total stated |
| AstroCatalogue.SeesEveryPage | crates/adapters/src/astro.rs:241-251 | with an honest total it never ends before the last page |
| AstroCatalogue.EndsServedAgain | crates/adapters/src/astro.rs:241-243 | against a server that serves its last page again it stops exactly at the larger of the last page and the rounded-up quotient of total and last page |
| AstroCatalogue.EndsOnEmpty | crates/adapters/src/astro.rs:249-251 | against a server that serves empty pages it stops at the last page or the one after, and which of them |
| Totp.StepHoldsTime | crates/auth/src/totp.rs:96-100 | a step is its half-open thirty seconds, before 1970 as after |
| Totp.StepBytesHoldStep | crates/auth/src/totp.rs:112-112 | what is hashed is the step in two's complement, eight bytes, the most significant first, as section 5.2 of RFC 4226 has it |
| Totp.StepBytesDiffer | crates/auth/src/totp.rs:112-112 | different steps are hashed from different bytes |
| Totp.TruncatedIsWindow | crates/auth/src/totp.rs:115-124 | the window lies within the digest, and the truncation is its value without the sign bit |
| Totp.CodeIsSixDigits | crates/auth/src/totp.rs:126-126 | a code is six digits, and they say the truncated hash modulo a million |
| Totp.Verify | crates/auth/src/totp.rs:136-165 | the step given back is the earliest within one of the current step, above the last accepted, whose code was presented, and there is none only if no step qualifies |
| Totp.AcceptsIff | crates/auth/src/totp.rs:142-165 | a text may be accepted at a step if and only if it is the step's code with at most white space around it, the step is within one of the current one, and above the last accepted |
| TotpReplay.Enrolment.AdvanceStep | crates/db/src/repo/users/mfa.rs:110-123 | the conditional update moves the last step forward or changes no row |
| TotpReplay.Enrolment.VerifyTotp | services/api/src/mfa.rs:117-132 | an undisturbed request succeeds exactly when the code has a step left to give, and keeps that step |
| TotpReplay.AcceptedStepsIncrease | crates/auth/src/totp.rs:9-15 | over every interleaving of requests and any clock, accepted steps strictly increase and each is within one of its attempt's step |
| TotpReplay.AcceptancesBounded | crates/auth/src/totp.rs:44-48 | attempts made in an interval are accepted at most as often as its steps plus three |
| TotpReplay.NoStepTwice | services/api/src/mfa.rs:109-113 | two requests that read the same floor are never both accepted at one step |

## Left out

- HTML parsing, HTTP fetching, challenge solving, SQL, subprocesses and file writes: foreign code; what they deliver enters as arguments.
- Cryptography: HMAC is any function to 20 bytes; sealing, hashing and token signing do not appear.
- JSON object order, and number and string formats: objects are maps, equality ignores order.
- Aliasing inside a JSON tree: `JsonMap` updates one object in place, its nested values are replaced as values.
- Consumers of the downgraded document: code generation from it is not part of this model.
- SchemaMeaning.Meaning: is stated for the fragment `Faithful` describes. `NullVerdictFlips`, `TypeListIff` and `PropertyNamesKeptIff` say where the rewriter changes the meaning of keywords it handles. Of the keywords it passes through, the fragment takes those that 3.0.3 has with the same meaning, and `x-` extensions; `const`, numeric `exclusiveMinimum` and `exclusiveMaximum`, `patternProperties`, `prefixItems`, `if`/`then`/`else` and others that 3.0.3 lacks or reads differently lie outside it. A `$ref` chain is followed for any number of hops given in advance, with either verdict once they are used up.
- `inject_rust_types`: inserts a vendor keyword by a fixed list of names.
- How `cargo metadata` and the SPA's manifest are read: `Cargo` says what they depend on, a package's own manifest and the root manifest without its version, and nothing more. Binaries discovered from file layout instead of a manifest are not covered by that.
- Quoting of unusual paths in `git diff` output, and a base ref that git cannot resolve beyond its being an error.
- ReleaseSafety.SelectionExact: assumes `SoundHead`, that directories, names and binaries are unique, dependencies are members and no rule hides a manifest; `UsualWorkspaceIsSoundHead` gives it for this repository's layout. It is about the files the planner counts; what a build reads beyond them is `ReleaseBuild`'s subject.
- What an image build reads beyond compilation and the files it copies: a parameter of `ReleaseBuild`, of which `GeneratorIsMissed` and `SettingsAreMissed` name two paths. The stages that fetch tools, upload symbols or write labels are not modelled.
- ReleaseCompile.CompilesCovered: takes no build to read a document, `.md` in either case; `.dockerignore` keeps only the lower-case extension out of the build.
- The scanner's running time: the model shows what the pass finds, not how long it takes.
- UTF-8: the scanner and the clustering work on bytes, the merge and the entities on characters; the encoding between them is not modelled.
- The text of the notices document around the openings and blocks, and the trailing whitespace it trims.
- Several messages at once: messages do not affect each other in the broker, so runs are those of one message.
- The broker itself: `WorkQueue` states what is relied on, in particular that an ack or negative ack of an older delivery acts like one of the current delivery.
- Consumer.Consume: time passes only in waits, so scheduling delay is part of the heartbeat's gap. In `Consumers`, too, a consumer acts at the instant it is due, and only the gap of the protocol's runs allows for delay.
- Tracing, logging and shutdown signals: the loop stops after the pulls it is given.
- Parsing of rows into numbers, links and dates: a row arrives with what could be read of it.
- The overflow of `page * rows` at 64 bits in the Astro catalogue: page numbers are 32 bits and a page's rows fit in memory.
- Catalogue and metadata field mapping of the adapters, and the adapters with a single page.

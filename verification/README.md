# LambdaCIActions: verified models

LambdaCIActions runs GitHub Actions jobs on single-use AWS Lambda microVMs. These Dafny modules model
the self-contained algorithms and protocols inside it and prove what they promise:

- **The workflow rewriter** (`Text`, `Lines`, `LabelTokens`, `LabelRoundTrip`, `Selector`, `SelectorLaws`,
  `RewriteMeaning`, `RewriteRouting`, `Scanner`, `ScannerLaws`, `ScanLines`, `Diff`, `DiffShape`, `Planner`,
  `PlannerLaws`, `PlanTwice`, `PlanOutcome`, `Preview`): splitting a file, finding each job's `runs-on:` line,
  lexing and printing labels, rewriting one selector, editing lines in place, and printing a unified diff.
- **The claim gate and flavor resolution** (`Adopt`, `Catalog`, `Flavors`, `FlavorLaws`, `FlavorRules`).
- **The console's run window** (`Paging`, `RunWindow`, `Rollup`): a live head page re-polled while older pages
  are held, the verdict that the window is exact, and the rollups folded from it.
- **The configuration broker** (`ConfigStore`, `ConfigLock`, `StatusCache`, `OwnChange`, `Broker`, `Relink`): the
  mutation lock, the two-level status cache with its generation fence, the request handler whose pieces are their
  steps, and the credential transaction with its rollback handle.
- **The report path** (`FanOut`, `Report`, `Export`, `Csv`, `ReportSpec`, `CommaList`, `ExtractJson`,
  `RateLimit`): the worker pool, grouping, bounded CSV export, the specification pinned by a URL, and the
  natural-language front end's limiter and JSON cut.
- **The hook protocol** (`BrokerRef`, `HookProtocol`) and **log streams** (`LogStreams`).

Loops and objects that change state are methods and classes, proved against functions; the theorems are lemmas
about those functions. What a filter keeps is stated by position and number (`Filtering`), not by a filter.
Protocols are state machines: a step relation, an invariant, and statements over every run. Containers, workers,
brokers and microVMs are unbounded in number and interleave at every store access.

## What the code does not meet

- **A kept label starting with `#`.** `[ubuntu-latest,#gpu]` is rewritten to a value whose tail, LCA label
  included, is a comment. `RewriteMeaning.RewritePreservesMeaningIff` gives the exact condition,
  `RewriteRouting.GluedHashLosesTheLcaLabel` the instance. Planning again still plans nothing.
- **A key between the `jobs:` column and the job-id column** makes the scanner take a line outside the job's body
  for its `runs-on:`. `ScannerLaws.AttributionIsNearestIff` gives the exact condition,
  `PlannerLaws.ShallowKeyIsMisread` a file text. YAML itself forbids such a dedent, so only a file that is no
  valid workflow is affected.
- **Switching the run filter** can make a window with a hole read as exact, in two ways. A window's identity is the
  filter alone (`web/src/screens/Runs.tsx:93-171`), so an older page requested before the filter was changed and
  changed back lands in the new window: `RunWindow.AbandonedHopCanMislead`. And the previous filter's head page
  stays on screen until the new one lands (`web/src/hooks.ts:33-69`), so "Load older" can follow its cursor:
  `StaleHeadCanMislead`. `LandingIsSafeIff` says exactly which landings do harm, `OwnWindowsAreExact` which never
  can. `PreviousPageStaysExact`: a repository's page can be called exact under another repository's filter.
- **A failed generation read** publishes unfenced, so an answer from before a clear can be served for up to two
  cache periods instead of one: `StatusCache.UnfencedStalenessIsBounded`, tight by `UnfencedBoundIsTight`.
  It does so exactly when the read fails before its request has run for a cache period, to the millisecond:
  `FaultIsSafeIff`. `OwnChange.OwnFaultIsSafeIff` is the same for a container that misses its own change.
- **A rollback handle holds version numbers.** After a parameter is deleted and created again they mean other
  values: `Relink.HandleRestoresIff` gives the exact condition, `HandleMisledByRecreation` the instance.
- **A report's total depends on its dimension**, by the rounding of its points: `Report.DimensionsAgreeIff` gives
  the exact condition, `DimensionsAgreeNearly` the bound, `DimensionsCanDisagree` three jobs of one second each.

## Assumptions

- The compiled-in catalog has distinct, non-empty names, distinct lower-case labels in the `lambda-ci` namespace and a
  `base` entry (`Catalog.ShippedCatalogOk` proves it of the catalog in `microvm/flavors.json`); custom flavors
  respect their namespaces. Name order is any strict total order.
- The YAML 1.1 table of plain scalars that are not strings is any predicate.
- Index rows are never deleted and arrive at the newest end; what a session may see is fixed. A page may end
  anywhere. Whatever view shows a row, the row is in its repository's index. The store refuses a cursor of another
  partition, and a superseded head poll is discarded.
- Store reads are consistent and containers read one non-decreasing clock, past `STATUS_CACHE_MS`. A container
  serves one request at a time.
- A store or GitHub call that fails has no effect (an acquire whose answer is lost is modelled). The configuration
  lock keeps other writers away from a relink.
- A parameter keeps all its versions until it is deleted.
- Capability tokens, VM ids and lock holders are never reused, and the token hash is injective. A smoke partition
  belongs to one attempt.
- A GSI page is newest first and holds at most `PAGE_SIZE` rows. One log-stream resolution sees one listing per
  tier.
- Catalog names a comma list carries hold no comma and no margin of white space; an instant read from its own ISO
  rendering is itself.

## Model

| member | source | states |
|---|---|---|
| Lines.SplitLines | src/mgmt/rewrite.ts:165-179 | the loop over line feeds yields exactly the bodies and the terminators of the text, a CRLF kept whole |
| Lines.JoinLines | src/mgmt/rewrite.ts:181-183 | lines and terminators are put back alternately |
| Lines.JoinAfterSplit | src/mgmt/rewrite.ts:158-183 | joining what was split is the identity on every mix of LF and CRLF |
| Lines.SplitAfterJoin | src/mgmt/rewrite.ts:158-183 | splitting what was joined is the identity for lines that fit their terminators |
| Lines.ReplaceKeepsSplit | src/mgmt/rewrite.ts:756-763 | replacing bodies changes no terminator and no line count |
| LabelTokens.ScanComment | src/mgmt/rewrite.ts:323-349 | the quote-aware backward-trimming loop computes the value and comment of a raw selector |
| LabelTokens.SplitInlineLabels | src/mgmt/rewrite.ts:381-429 | the tokenizer loop computes the label tokens, or refuses an unclosed quote |
| LabelTokens.UnquoteLabel | src/mgmt/rewrite.ts:479-516 | the decoder loop computes the label a token means, or refuses an escape YAML does not have |
| LabelRoundTrip.PrintedTokenReadsBack | src/mgmt/rewrite.ts:519-563 | a printed label is one token without a comment and decodes to itself |
| LabelRoundTrip.PrintedListReadsBack | src/mgmt/rewrite.ts:555-563 | every list of labels, printed and joined, splits off no comment and lexes back to exactly those labels |
| LabelRoundTrip.SpelledTokenReadsBack | src/mgmt/rewrite.ts:431-516 | however a label is spelled with double-quoted escapes, the lexer sees that label |
| LabelRoundTrip.SingleQuotedReadsBack | src/mgmt/rewrite.ts:479-482 | a label in single quotes, its own quotes doubled, is one clean token and decodes to the label |
| SelectorLaws.SplitCommentAppend | src/mgmt/rewrite.ts:298-349 | a comment-free value followed by a comment splits into exactly the two |
| SelectorLaws.TokenizeDelivers | src/mgmt/rewrite.ts:359-429 | every token read is a closed, trimmed piece of the text that decodes to its value and holds no comment |
| Selector.KeptIsFilter | src/mgmt/rewrite.ts:651-653 | every label that is neither a standard hosted one nor self-hosted is kept, as often as it occurs and in order, and no other |
| Selector.AcceptedIff | src/mgmt/rewrite.ts:581-641 | a value is rewritten exactly when it is an inline list with a standard hosted label, none that routes here already, and none that cannot be served |
| Selector.RefusedAs | src/mgmt/rewrite.ts:581-641 | why a value is refused: its shape, or of a label list the first that applies of a label that routes here, no standard hosted label, and the first label that cannot be served |
| RewriteMeaning.RewritePreservesMeaningIff | src/mgmt/rewrite.ts:566-657 | a rewritten value reads as self-hosted, every surviving label as spelled and as often as it occurs, the LCA label, and the same comment, exactly when no surviving token starts with a hash |
| RewriteMeaning.EmitIsTruncated | src/mgmt/rewrite.ts:643-657 | otherwise it reads as the labels before the first such token, and the rest is a comment |
| RewriteRouting.GluedHashLosesTheLcaLabel | src/mgmt/rewrite.ts:566-657 | the instance: `[ubuntu-latest,#x]`, or any hosted label and any glued `#` label, is accepted and rewritten to a value read as one unclosed `[self-hosted` |
| RewriteRouting.RewrittenJobReachesItsFlavor | src/mgmt/rewrite.ts:566-657 | a rewritten job is claimed by its label in every mode and routes to its flavor, whatever custom flavors, default and mode the repo has |
| RewriteRouting.RewriteAgainIsRefused | src/mgmt/rewrite.ts:615-641 | a rewritten value is never rewritten again, with any label |
| RewriteRouting.SpelledIncompatibleIsRefused | src/mgmt/rewrite.ts:615-641 | no spelling of an incompatible label, plain or in quotes of either kind, slips past the refusal |
| Scanner.FindRunsOnLines | src/mgmt/rewrite.ts:237-296 | the file scan returns what the class-by-class scan finds |
| Scanner.ScanClasses | src/mgmt/rewrite.ts:237-296 | the scanning loop with its four state variables computes the scan function |
| ScannerLaws.FoundIffOwned | src/mgmt/rewrite.ts:186-296 | a line is returned for a job exactly when it is the first `runs-on:` at the column of that job's first body key, inside its block |
| ScannerLaws.NoLineForTwoJobs | src/mgmt/rewrite.ts:186-296 | no line is returned for two jobs |
| ScannerLaws.AttributionIsNearestIff | src/mgmt/rewrite.ts:271-292 | the nearest line at or left of the job-id column is the job's own id line exactly when no key left of that column stands between |
| PlannerLaws.ShallowKeyIsMisread | src/mgmt/rewrite.ts:237-296 | the instance, as a file text: such a key makes the scan return a line that is not in the job's body |
| ScannerLaws.SameScan | src/mgmt/rewrite.ts:237-296 | rewriting found selectors in place changes nothing the scan sees |
| ScanLines.BlankChangesNothing | src/mgmt/rewrite.ts:249-251 | a blank line or a comment put in anywhere changes nothing the scan finds |
| ScanLines.PlainKeyLine | src/mgmt/rewrite.ts:186-296 | a plain key in any column has its name, a body exactly when nothing but a comment follows its colon, and is a selector exactly when it is `runs-on` |
| ScanLines.SelectorReads | src/mgmt/rewrite.ts:133-134 | for every line of text: a selector with its indent and value exactly when it is white space, `runs-on:`, blanks, a value without margins or line breaks, and blanks or a carriage return |
| ScanLines.QuotedKeyLine | src/mgmt/rewrite.ts:186-296 | a quoted key names what stands between its quotes and is no selector |
| ScanLines.OtherLine | src/mgmt/rewrite.ts:261-270 | a line that starts like no key and no comment is unknown structure at its own column |
| Diff.DiffIsPatch | src/mgmt/rewrite.ts:660-693 | the hunks are ascending and disjoint and applying them to the old lines gives the new lines |
| DiffShape.DiffShowsRuns | src/mgmt/rewrite.ts:660-693 | one hunk for each run of changed lines at most six apart, with three lines around it, showing each of its lines once and the changed ones as removed, then added |
| Diff.PrintDiff | src/mgmt/rewrite.ts:660-693 | the printing loop computes the hunks of the sorted changed lines |
| Diff.GroupLines | src/mgmt/rewrite.ts:670-676 | the grouping loop closes a group where context windows stop touching |
| Diff.PrintHunk | src/mgmt/rewrite.ts:678-691 | one hunk's header and body |
| Planner.PlanFileRewrite | src/mgmt/rewrite.ts:699-766 | the planner computes content, edits, skips and diff of the plan |
| Planner.DecideAll | src/mgmt/rewrite.ts:710-758 | every target is decided on the original lines; edits and skips come out in target order |
| PlanOutcome.PlanIsWhatIsWanted | src/mgmt/rewrite.ts:699-766 | exactly the targets whose route does not forbid it and whose line can be rewritten for their flavor are edited and exactly the others skipped, each for the first reason that applies, in order; the new content is the old text with those lines replaced |
| PlannerLaws.UntouchedLines | src/mgmt/rewrite.ts:705-766 | a line no edit names is unchanged |
| PlannerLaws.ContentKeepsTerminators | src/mgmt/rewrite.ts:756-764 | the planned content splits into the edited lines with every old terminator |
| PlannerLaws.PlanDiffIsPatch | src/mgmt/rewrite.ts:756-766 | the plan's diff turns the old lines into the new ones |
| PlanTwice.PlanningAgainPlansNothing | src/mgmt/rewrite.ts:699-766 | planning the planned content again finds the same selector lines and plans no edit |
| PlanTwice.PlannedEditReachesItsFlavor | src/mgmt/rewrite.ts:699-766 | each edit stands on its own job's line, keeps every surviving label, and its labels are claimed and routed to the target's flavor |
| Preview.RewriteTargets | src/mgmt/rewrite.ts:773-843 | the loop lists exactly the candidates in order, each with its stored route's flavor, forbidden exactly when that route goes through a custom flavor |
| Preview.CandidateIffAdopted | src/mgmt/rewrite.ts:778-794 | a job is offered exactly when adopt mode claims it by a standard label, it names no LCA label, and its runner group is reachable |
| Preview.PreviewReadsBack | src/mgmt/rewrite.ts:893-894 | the rendered selector of the dry run reads back as the job's labels, exactly when there are any and none prints an expression |
| Preview.DryRunSaysExpected | src/mgmt/rewrite.ts:893-916 | the dry run of a candidate is a rewrite that reads as self-hosted, every surviving label of the job in order, the flavor's label, exactly when no label prints an expression; otherwise it is refused as one |
| Adopt.ClaimedByLabelIff | src/ingest/adopt.ts:184-218 | a job is claimed by label, in every mode, exactly when every label can be served and one is on the allowlist |
| Adopt.AdoptedIff | src/ingest/adopt.ts:184-218 | a job is adopted exactly in adopt mode, with every label servable, none on the allowlist and one a standard hosted one; nothing else is claimed |
| Adopt.ReasonNamesItsLabel | src/ingest/adopt.ts:184-218 | each decision names the first label its rule found: one that cannot be served and why, one on the allowlist, or a standard one |
| Adopt.IncompatibleNeverClaimed | src/ingest/adopt.ts:192-200 | an incompatible label vetoes the claim whatever the mode and the allowlist |
| Catalog.ComposeCatalog | src/shared/flavor-catalog.ts:151-166 | the loop with its two name sets computes the composed catalog |
| Catalog.ComposeKeepsBuiltins | src/shared/flavor-catalog.ts:140-166 | built-ins stay a prefix, names and labels stay distinct, and only shadowed custom entries are left out |
| Catalog.ShippedCatalogOk | microvm/flavors.json:3-75 | the shipped catalog meets the assumption the theorems make |
| FlavorLaws.SkippedReadChangesNothing | src/provision/flavor.ts:278-301 | when the gate says the store read is not needed, every set of custom flavors resolves the job exactly as none does |
| FlavorLaws.ResolutionNamesCatalogFlavor | src/provision/flavor.ts:354-481 | resolution names a catalog flavor, and a signal upgrade lands on a built-in with the capability |
| FlavorRules.ResolutionIsDecided | src/provision/flavor.ts:399-481 | without a docker signal the first applying rule decides: the first mapped label, the longest carried label, adopt mode, the repository's default, base |
| FlavorRules.AmbiguousAre | src/provision/flavor.ts:324-338 | the labels reported beside the winner are exactly the equally long ones of the other carried flavors |
| FlavorRules.UpgradedIff | src/provision/flavor.ts:340-389 | a docker signal replaces the selection exactly when it lacks docker and some built-in has it, by the smallest such built-in, losing exactly what that one lacks |
| FlavorRules.UnresolvedIff | src/provision/flavor.ts:224-276 | a custom flavor is reported unresolved exactly when a label asks for one nothing answers, the map names one the catalog lacks, or the fallback is taken and the default is one it lacks |
| FlavorRules.ReadIff | src/provision/flavor.ts:291-301 | the custom flavors are read exactly for a job that names one by label, map or default |
| FlavorLaws.NamedCustomIsNeverDroppedSilently | src/provision/flavor.ts:224-276 | a job naming a custom label gets a custom flavor, or the one the repository's map gives for a label of the job, or is reported unresolved |
| FlavorLaws.CatalogOrderIsIrrelevant | src/provision/flavor.ts:324-338 | which label wins does not depend on the order the catalog lists flavors in |
| Paging.CollectVisible | src/mgmt/paging.ts:29-48 | the walk returns every visible row of the index at its first query down to the returned cursor; short of the limit with a live cursor the page budget was spent |
| Paging.RunIndex.FetchPage | src/shared/run-store.ts:412-431 | one bounded index query while rows arrive |
| RunWindow.ExactIsNeverWrong | src/mgmt/run-rollup.ts:231-318 | in every run of polls, hops, inserts and filter switches whose landings are harmless, an unfiltered window called exact holds every visible row as of the latest poll and no other |
| RunWindow.OwnWindowsAreExact | web/src/screens/Runs.tsx:93-185 | every page that lands in the window that requested it, behind a cursor of that window's own filter, is harmless |
| RunWindow.LandingIsSafeIff | src/mgmt/run-rollup.ts:304-340 | after any harmless run, the verdict stays right however the run goes on exactly when the next landing skips no visible row between its resume point and its remembered boundary |
| RunWindow.MergedVerdict | src/mgmt/run-rollup.ts:342-361 | the merged view claims completeness exactly when no index page was cut and no visible row sliced off, and then holds every visible row |
| RunWindow.AbandonedHopCanMislead | src/mgmt/run-rollup.ts:325-340 | a run in which a page of an abandoned window makes a window with a missing row read as exact |
| RunWindow.StaleHeadCanMislead | web/src/hooks.ts:33-69 | a run in which a page requested behind the previous filter's head does, although it lands in its own window |
| RunWindow.PreviousPageStaysExact | web/src/screens/Runs.tsx:110-139 | until the new repository's page lands, the previous one's stays on screen and may be called exact |
| Rollup.FoldIsHighest | src/mgmt/run-rollup.ts:37-60 | the fold is the highest-precedence status present; completed exactly when every job completed |
| Rollup.RunDurations | src/mgmt/run-rollup.ts:163-179 | wall clock spans the earliest start to the latest transition, in rounded seconds, and job time sums clamped durations |
| Rollup.SpanIsNearest | src/mgmt/run-rollup.ts:174-177 | the wall clock is within half a second of the span, and 0 when it is inverted or unknown |
| Rollup.PartBoundsWhole | src/mgmt/run-rollup.ts:104-138 | rollups of a partial window bound the run's: count, wall clock and job time from below, start from above, status in precedence |
| Rollup.GroupRuns | src/mgmt/run-rollup.ts:388-395 | each bucket is exactly one run's rows in order |
| Rollup.ExactGroupIsWholeRun | src/mgmt/run-rollup.ts:383-420 | in an exact window a run's group holds each of its visible jobs once and nothing else |
| ConfigStore.Table.PutStatusCache | src/shared/config-store.ts:293-329 | the row is replaced exactly when the generation is the one observed, or none was |
| Broker.Container.BeginStatus | src/appcfg/handler.ts:192-193 | a status request's first piece is a step of the cache protocol, and answers what that step answers |
| Broker.Container.AskShared | src/appcfg/handler.ts:194-203 | so is the shared read, whatever happened to the table meanwhile |
| Broker.Container.AskGeneration | src/appcfg/handler.ts:204-208 | so is the generation read, taken before the computation |
| Broker.Container.Compute | src/appcfg/handler.ts:209-210 | so is the computation's return, or its failure |
| Broker.Container.Publish | src/appcfg/handler.ts:211-219 | so is the publish, fenced on the generation read, and the answer given |
| Broker.Container.ClearBoth | src/appcfg/handler.ts:167-188 | so is the clearing of both layers before and after a mutation and before a redelivery |
| Broker.EnterSection | src/appcfg/handler.ts:836-865 | entering a mutation is a step of the lock protocol; its section runs exactly when the row was taken and the answer arrived |
| Broker.LeaveSection | src/appcfg/handler.ts:866-874 | leaving it is two steps, the section ending before the row is released |
| ConfigLock.NoTwoSections | src/shared/config-store.ts:178-217 | mutual exclusion in every run in which each section ends within the time to live of its acquire |
| ConfigLock.TakeoverIff | src/shared/config-store.ts:191-217 | while a section runs another acquire succeeds exactly when its clock reading is past the time to live |
| ConfigLock.LapsedStaysOut | src/shared/config-store.ts:219-237 | a holder whose lock was taken over can never own or release the row again, with no timing assumed |
| ConfigLock.ReleaseFrees | src/shared/config-store.ts:219-237 | after its holder's release every acquire succeeds whose clock reads past 0 |
| ConfigLock.LockIsReclaimable | src/appcfg/handler.ts:836-874 | a crashed holder blocks nobody past the time to live |
| StatusCache.NoStaleAnswer | src/appcfg/handler.ts:131-219 | in every run whose failed generation reads are harmless, no status request starting a cache period after a clear is answered from before it |
| StatusCache.FaultIsSafeIff | src/appcfg/handler.ts:204-219 | after any such run, nothing stale is answered however the run goes on exactly when the next step is no generation read failing before its request has run for a cache period |
| StatusCache.QuiescentRowIsCurrent | src/appcfg/handler.ts:154-188 | with generation reads succeeding, when every write has been followed by a clear, or none happened yet, a live shared row reflects exactly the current configuration |
| OwnChange.OwnChangeIsVisible | src/appcfg/handler.ts:118-131 | a container reads its own change back at once, in every run whose failed generation reads come a full cache period into their requests |
| OwnChange.OwnFaultIsSafeIff | src/appcfg/handler.ts:204-219 | after any such run, that stays so however the run goes on exactly when the next step is no generation read failing earlier |
| StatusCache.UnfencedStalenessIsBounded | src/appcfg/handler.ts:205-219 | even with failed generation reads, staleness ends before two cache periods |
| StatusCache.UnfencedBoundIsTight | src/appcfg/handler.ts:205-219 | a run serving a stale answer one millisecond earlier |
| Relink.Environment.RelinkAction | src/appcfg/handler.ts:388-566 | it succeeds, hook synced, when no call fails and the submitted key is the App's; then all five credentials hold the submitted values; after a failure every credential none of whose own calls failed has its prior value; an unchanged App stays in agreement with GitHub unless a desync was accepted |
| Relink.Environment.UndoWrites | src/appcfg/handler.ts:662-715 | every written parameter whose own calls succeed is restored or deleted, whatever else fails; true only when all were, and always when no call fails; no other is touched |
| Relink.Environment.RestoreVersions | src/appcfg/handler.ts:727-763 | a failed history read writes nothing; when no call fails it succeeds exactly when every named version exists; success restores every named version and removes every named parameter |
| Relink.Environment.RollbackAction | src/appcfg/handler.ts:578-651 | the rollback, complete when no call fails; a hook reported synced carries the restored secret to the restored App, and is synced when the restored key authenticates |
| Relink.RelinkKeepsAgreement | src/appcfg/handler.ts:490-516 | after a successful relink of the same App both sides agree exactly when the hook was synced or the secret was kept |
| Relink.HandleRestores | src/appcfg/handler.ts:578-651 | rolling back with the returned handle gives back every value from before, if histories were only added to |
| Relink.HandleRestoresIff | src/appcfg/handler.ts:727-763 | whatever was written and removed since the handle was taken, it gives the old value back for every choice of values exactly when the parameter was new or never removed since |
| Relink.HandleMisledByRecreation | src/appcfg/handler.ts:727-763 | the instance |
| FanOut.ResolveVisibleRepos | src/mgmt/report-store.ts:69-88 | the scope is the granted repositories narrowed to the requested ones, each once; a request never widens it |
| FanOut.ScanPage | src/mgmt/report-store.ts:124-135 | exactly the page's rows dated in the window, as often as they occur and in order, and whether a row older than the window was seen |
| FanOut.CompleteIsExact | src/mgmt/report-store.ts:96-158 | for every scheduling, a complete result holds of each repository in scope exactly the rows of its index dated in the window, as often as they occur and in order, and no other |
| FanOut.IncompleteIff | src/mgmt/report-store.ts:136-144 | a result is incomplete exactly when the row budget was reached or a repository's last page left history |
| FanOut.NeverForeignNeverTwice | src/mgmt/report-store.ts:96-158 | complete or not, rows are a leading stretch of each index and never another repository's |
| FanOut.RowsAreBounded | src/mgmt/report-store.ts:136-140 | fewer rows than the budget plus one page per worker are ever held |
| BrokerRef.RefsAddressTheirOwnPartition | src/hook/broker-core.ts:48-117 | accepted refs address distinct partitions, and no run ref addresses a smoke partition |
| BrokerRef.MintedRefIsAccepted | src/hook/broker-core.ts:48-93 | the ref minted for any run is accepted and addresses the partition it was minted for |
| HookProtocol.KillsExactlyItsOwn | src/hook/handler.ts:91-121 | in every run a brokered terminate kills the VM launched with the presented token, and no attempt shares it |
| HookProtocol.ServesOwnConfig | src/hook/handler.ts:76-88 | a JIT config is served exactly to the token its item was minted for, and is the one minted with it; everyone else is refused |
| HookProtocol.StampRace | src/hook/handler.ts:91-110 | a row without a stamp decides nothing; the JIT item read next tells the attempt it stands for to retry and refuses everyone else, whenever it is read; after the stamp exactly the stamped token kills |
| HookProtocol.RestampRevokes | src/provision/handler.ts:335-350 | a redelivery's stamp hands the row to the new token and refuses every other |
| LogStreams.ScanForStream | src/mgmt/logs.ts:194-228 | a found name belongs to the VM; exhausted means every stream of the tier was seen; a miss that is not exhausted spent the budget |
| LogStreams.Resolver.ScanDates | src/mgmt/logs.ts:257-285 | each date prefix gets a call, the reserve is kept back, and ruled out means no stream under either prefix belongs |
| LogStreams.Resolver.Resolve | src/mgmt/logs.ts:243-304 | at most the scan budget, only names belonging to the VM, cached answers cost nothing, the fallback skipped only when ruled out and a miss behind it final or out of budget, both caches bounded |
| LogStreams.LogGroup.Describe | src/mgmt/logs.ts:205-224 | one describe call: a bounded page and a token exactly while streams may remain |
| RateLimit.Limiter.RateLimit | src/mgmt/nl-report.ts:110-129 | allowed exactly when the budget lasts and the window has room; a refusal is free and its wait is the shortest that is enough |
| RateLimit.Limiter.Bounded | src/mgmt/nl-report.ts:106-129 | at most the limit in every half-open window and the budget between resets, over every call sequence |
| RateLimit.Limiter.ResetRateLimits | src/mgmt/nl-report.ts:132-135 | nothing counted, nothing remembered |
| ExtractJson.ExtractSpan | src/mgmt/nl-report.ts:223-254 | the one span from the first brace to its first string-aware closing, or nothing when there is none |
| ExtractJson.WrappedObjectIsCut | src/mgmt/nl-report.ts:211-254 | an object wrapped in prose is cut whole, whatever braces and escaped quotes its strings hold |
| Export.BoundExportRows | src/mgmt/reports.ts:880-898 | the bisection returns the longest prefix within both caps; complete exactly when all rows fit, which is when none was dropped unless there were none and not even the empty body fits |
| Export.ExportCsv | src/mgmt/handler.ts:1137-1153 | the download is under the byte cap, complete exactly when the read was and no row was dropped, and reads back to the kept rows |
| Export.HeaderFits | src/mgmt/reports.ts:901-917 | the header alone is under the byte cap in any encoding of at most four bytes a character |
| Csv.CsvReadsBack | src/mgmt/reports.ts:972-981 | a reader of section 2 of RFC 4180 gives back every field of every row, guarded |
| Csv.NothingEvaluates | src/mgmt/reports.ts:963-981 | no field read back starts a formula |
| Csv.GuardedIff | src/mgmt/reports.ts:963-977 | a field is guarded exactly when it starts with one of the six sigils, and is otherwise as it was |
| Csv.GuardedAlikeIff | src/mgmt/reports.ts:973-977 | two fields come out alike exactly when they are equal or one is the other behind the added quote |
| Csv.CsvSizeMonotone | src/mgmt/reports.ts:889-890 | the encoded size is monotone on prefixes, as the bisection assumes |
| ReportSpec.ValidateReportSpec | src/mgmt/reports.ts:286-451 | the validator accepts exactly the inputs that resolve, with the resolved spec |
| ReportSpec.ResolvedIff | src/mgmt/reports.ts:269-451 | exactly what is accepted and as what: known names, a preset retention covers whose window ends now and has its named length, or two instants in order within retention |
| ReportSpec.ResolvedIsInCatalog | src/mgmt/reports.ts:286-451 | nothing outside the catalog is ever accepted |
| ReportSpec.SpecToQuery | src/mgmt/reports.ts:984-998 | the parameters a spec's URL carries |
| ReportSpec.SpecReadsBack | src/mgmt/reports.ts:454-479 | every accepted spec comes back equal from its own query at the same instant, preset or explicit window |
| CommaList.ListReadsBack | src/mgmt/reports.ts:458-459 | a comma list of plain names is read back as written |
| CommaList.LooseListReads | src/mgmt/reports.ts:458-459 | however loosely a list is written, its parts are read trimmed and the empty ones dropped |
| CommaList.DecimalsReadBack | src/mgmt/reports.ts:460-460 | decimal repo ids are read back as written |
| Report.GroupRows | src/mgmt/reports.ts:658-665 | every row lands in exactly the group of its key, groups by first appearance |
| Report.GroupsConserve | src/mgmt/reports.ts:653-784 | before rounding, group totals add up to the rows' total whatever the dimension |
| Report.ComputeAdditive | src/mgmt/reports.ts:671-784 | one rounded point per group; the total, made of the rounded points, is within half a millionth a point of the rows' own; both sides of coverage are those of the rows, whatever the dimension |
| Report.DimensionsAgreeNearly | src/mgmt/reports.ts:653-784 | two dimensions of the same rows differ by at most half a millionth for every point of either |
| Report.DimensionsAgreeIff | src/mgmt/reports.ts:653-784 | every dimension shows the same total exactly when the rests of rounding each row on its own, the positive and the negative ones each taken together, round away |
| Report.AgreedTotal | src/mgmt/reports.ts:653-784 | that total is then the rows', each rounded on its own |
| Report.WholeAmountsAreExact | src/mgmt/reports.ts:653-784 | rows of whole millionths, run counts among them, are totalled exactly under every dimension |
| Report.DimensionsCanDisagree | src/mgmt/reports.ts:697-784 | three jobs of one billable second total 0.050001 minutes apart and 0.05 together |
| Report.WorkflowKeysMeet | src/mgmt/reports.ts:607-623 | two rows share a bar exactly when they name the same workflow or both name none |
| Report.CoverageIsNear | src/mgmt/reports.ts:776-778 | the coverage is within half a hundredth of a percent of the share measured, and 1 when there is nothing to measure |
| Report.PercentileIsNearestRank | src/mgmt/reports.ts:563-574 | the percentile is the smallest sample with at least p percent of the samples at or below it |

## Left out

- Letter case beyond ASCII, and surrogate escapes such as `\uD800` (refused by the model's decoder): Dafny
  characters are Unicode scalar values.
- The text of diff headers and file paths, and the prose of refusals and validation errors.
- Preview.RewriteTargets: the list-building loop of the dry run around it (`planPreviewFromAnalyses`) is not
  modelled; what it shows for each job is.
- Rollup.GroupRuns: the final sorting of groups and of jobs inside one, the flavor label, and rows whose status
  changes between an older page and a re-poll.
- Paging.RunIndex.FetchPage: the store's own query is any bounded read of the growing index.
- RunWindow.ExactIsNeverWrong: excludes landings that skip a visible row, for which it is false, and the time until
  the selected repository's own head page is on screen (`PreviousPageStaysExact`).
- FanOut.CompleteIsExact: a repository's index is taken as of its first query; termination of the workers is not
  stated, and a page query that throws ends the request.
- StatusCache.NoStaleAnswer: an answer is identified with the configuration version its computation started from;
  the four GitHub calls inside it are one step.
- Broker.Container.Compute: the secret scan on every answer, and what the GitHub calls report.
- Relink.Environment.RelinkAction: a broker that dies midway; audit rows, redaction and the installations listing.
- Report.ComputeAdditive: point order, binary floating point, and the sampled metrics' points.
- ReportSpec.ValidateReportSpec: inputs that are not objects, unknown fields and wrongly typed values; error texts.
- ReportSpec.SpecToQuery: percent-encoding of the query string.
- ExtractJson.ExtractSpan: the JSON parser behind it.
- HookProtocol.KillsExactlyItsOwn: at most one launch per job is not claimed; a redelivery may launch again.
- LogStreams.Resolver.Resolve: date formatting of the two prefixes, and describe calls that throw.
- CDK stacks, HTTP routing, the GitHub, SSM, DynamoDB, SQS, CloudWatch and Bedrock clients, `js-yaml`, cryptography,
  run-row transitions, badges and compatibility messages.

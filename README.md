# calcite-create-issues, modelled in Dafny

The repository is a set of single-purpose batch scripts around the Calcite
design system. Each script reads a component directory listing, a CSV file
or a GitHub listing, decides what to do with each item, and then either
issues GitHub REST calls through a throttled Octokit client or writes a file.
This project models those decisions and proves what they do:

- **Issue creation.** `index.js`, `src/calcite/create-repo-issues.js` and
  `calcite/create-repo-issues.js` create one design issue per component
  directory that is not skipped. The last two can resume from a count of
  issues already created, and each uses a different counter-versus-index rule.
- **Issue updates.** `update-issues.js` replaces the body of every issue
  labelled `figma` with a review checklist. `calcite/update-repo-issues.js`
  appends the checklist to the existing body instead.
- **Markdown checklists.** The two `create-markdown-checklist.js` scripts
  write one checklist line per component. Each line names an assignee chosen
  by the component's position.
- **CSS variable audit.** `src/calcite/audit-css-vars.js` writes a Markdown
  table. Each component's row lists the `--calcite-` custom properties its
  stylesheet uses and those documented with `* @prop`.
- **Team labels.** `src/calcite/add-esri-team-labels.js` walks a CSV of
  stakeholders. It labels every open issue each user created with the user's
  product team, and checks each team's label only once.
- **Milestone estimates.** `src/calcite/track-issue-estimates.js` totals, per
  closed milestone, the closed issues and the values of their first
  `estimate` labels.
- **HTML templates.** The two `create-html-templates.js` scripts write one demo
  page per component.
- **Shared helpers.** `utils.js` and `calcite/utils.js` hold `getDirectories`,
  the spinner `toggleLoadingAnimation` and `showProgress`. The rate-limit
  callbacks every Octokit script passes to the throttling plugin are modelled
  as well.

### How the model is built

**API calls are recorded effects.** Every call is a value of `GitHub.Effect`,
and a script's run returns the sequence of calls it issues. The API's
answers are inputs: a listing is a sequence, and a lookup is a function
parameter. A call that throws is an input too, named `failAt`: the number of
calls that succeed before one throws.

**File output is a value.** A written stream is a string. A directory of
written files is a map from file name to contents.

**Exit codes are results.** Each `Run` returns the code that `process.exit`
or `process.exitCode` would give.

**State the source updates in place is imperative.**
- The estimate script fills its `output` map inside nested loops.
- The two creation loops update their counters.
- The checklist and audit loops append to a stream.
- The team-label loop pushes to its three arrays.

These are all methods with loop invariants, proved against specification
functions. The two spinners are classes whose methods update their fields.

**Pure code is functions.** The payload builders, `getHTML` and the filters
are functions with lemmas about them.

The secondary-rate-limit policy of each script is the constant `OnSecondary`
in that script's module:
- `LogAndExit`: `src/calcite/track-issue-estimates.js`,
  `src/calcite/create-repo-issues.js`, `calcite/update-repo-issues.js` and
  `src/calcite/add-esri-team-labels.js`.
- `LogOnly`: `index.js`, `update-issues.js` and `calcite/create-repo-issues.js`.

Some of the script files are saved with CRLF line endings, among them both
HTML template scripts, both update scripts, `index.js` and
`calcite/create-repo-issues.js`. A template literal reads each line ending
as `\n`, so the model's bodies, pages and checklists use `\n` throughout,
whatever the file's line endings.

### What the estimate script computes

- **Closed issues only.** The estimate script lists only closed issues
  (`state: "closed"`). It has no bucket for open or remaining work: it keeps
  one `closed_issues` counter, one `issues_with_estimate` counter and one
  `effort_estimate` total per milestone.
- **One page.** It reads one page of each listing: at most 16 milestones, and
  at most 100 issues per milestone.
- **Missing estimate digits.** An estimate label without digits adds `NaN`.
  The model carries that as `TrackIssueEstimates.Effort.NaN`, which absorbs
  every later addition, as `NaN` does in JavaScript.

## Model

| member | source | states |
|---|---|---|
| Utils.GetDirectoriesMembers | utils.js:3-6 | a name is returned iff some entry that is a directory carries it |
| Utils.GetDirectoriesAppend | utils.js:3-6 | filtering commutes with concatenation, so the kept names stay in `readdir` order |
| Utils.GetDirectoriesLength | calcite/utils.js:3-6 | the result is never longer than the listing, and is as long iff every entry is a directory |
| Utils.LoadingAnimation.constructor | calcite/utils.js:10-12 | the closure starts with `called` unset, no interval, no listeners and nothing written |
| Utils.LoadingAnimation.Toggle | calcite/utils.js:10-43 | first call: registers on the six exit events, hides the cursor, starts the spinner with count 0. Later calls: stop the spinner, show the cursor and never register again, because `called` stays set |
| Utils.LoadingAnimation.Tick | calcite/utils.js:30-36 | a running interval writes the message when `count % 7 == 0`, otherwise a dot, then increments `count`; a cleared interval writes nothing |
| Throttle.RetryBound | src/calcite/track-issue-estimates.js:33-42 | a fresh request is retried at most 5 times, and completes iff the primary limit lifts within 5 retries |
| Throttle.RetriesGrantedFrom | index.js:51-60 | from retry count `r`, the number of retries granted is `min(signals, 5 - r)`, or 0 when `r >= 5` |
| Throttle.OnSecondaryRateLimit | src/calcite/track-issue-estimates.js:43-49 | a secondary limit is never retried; the process exits, with code 1, exactly under the log-and-exit policy |
| GitHub.FigmaIssueBodyNamesComponent | index.js:29-36 | the issue body mentions the component, and the component can be read back from it |
| Components.WithoutMembers | src/calcite/create-repo-issues.js:102-104 | the filtered list holds exactly the directory names outside the skip list, and is no longer than the listing |
| Components.WithoutAppend | src/calcite/create-html-templates.js:29-32 | filtering commutes with concatenation, so directory order is preserved |
| Components.WithoutNoDuplicates | src/calcite/create-repo-issues.js:102-104 | distinct directory names stay distinct after filtering |
| Components.WithoutLengthWhenAllPresent | src/calcite/create-markdown-checklist.js:47-48 | when every skip entry is among distinct directory names, the filtered length is `D - S` |
| Text.SplitJoin | src/calcite/add-esri-team-labels.js:53 | joining the parts of `split` with the separator gives the text back |
| Text.Trim | src/calcite/add-esri-team-labels.js:57-58 | the trimmed field is an infix of the field with only white space around it, and it neither starts nor ends with white space |
| Text.TrimmedUnique | src/calcite/add-esri-team-labels.js:57-58 | those two properties determine the trimmed field: two strings that both have them are equal |
| Text.DigitsOfAppend | src/calcite/track-issue-estimates.js:95-97 | taking the digits of a label (`replace(/\D/g, "")`) commutes with concatenation |
| Text.ContainsIff | src/calcite/track-issue-estimates.js:93 | `match(/estimate/)` succeeds iff the word occurs at some position |
| Text.SplitTerminated | src/calcite/audit-css-vars.js:48 | lines written each followed by `\n` split back into exactly those lines, then an empty string |
| StringOrder.LessTotal | src/calcite/audit-css-vars.js:44 | the default `sort()` order ranks any two different strings |
| StringOrder.LessTransitive | src/calcite/audit-css-vars.js:44 | the default `sort()` order is transitive |
| StringOrder.SortedUnique | src/calcite/audit-css-vars.js:44 | `[...new Set(xs)].sort()` is strictly increasing and holds exactly the elements of `xs` |
| StringOrder.SortedListingUnique | src/calcite/audit-css-vars.js:44 | a set has only one strictly increasing listing, so the result depends only on the elements found |
| AuditCssVars.TokenEnd | src/calcite/audit-css-vars.js:44 | a match extends to just before the first `]`, `)`, `}`, `;`, `:`, `,` or white-space character, or to the end |
| AuditCssVars.Scan | src/calcite/audit-css-vars.js:44 | every name the scan finds is `--calcite-` followed by no stop character |
| AuditCssVars.NoPrefixNoVars | src/calcite/audit-css-vars.js:44 | a stylesheet without `--calcite-` gives an empty list |
| AuditCssVars.DocumentedMatch | src/calcite/audit-css-vars.js:46 | each documented name is a whole match at a position right after `* @prop ` |
| AuditCssVars.ScanReaches | src/calcite/audit-css-vars.js:44 | a property at the start of the stylesheet or right after a stop character is among the matches of the plain scan |
| AuditCssVars.DocumentedAreUsed | src/calcite/audit-css-vars.js:44-46 | every documented property is also among the properties used |
| AuditCssVars.ListsSortedAndUnique | src/calcite/audit-css-vars.js:44-46 | any strictly sorted listing of the matches is the audit's list, and holds property names only |
| AuditCssVars.TableLineShape | src/calcite/audit-css-vars.js:48 | a row opens with `\| <component> \| ` and breaks no line when its cells do not |
| AuditCssVars.VarsOneLine | src/calcite/audit-css-vars.js:48 | the `<br />`-joined lists hold no line break |
| AuditCssVars.FirstUnreadable | src/calcite/audit-css-vars.js:41-42 | every stylesheet before the returned position is readable, and the one at it is not |
| AuditCssVars.WriteRows | src/calcite/audit-css-vars.js:41-49 | the loop writes one row per component up to the first unreadable stylesheet, and reports failure iff there is one |
| AuditCssVars.RowsStep | src/calcite/audit-css-vars.js:48 | a readable stylesheet adds exactly its row and a line break |
| AuditCssVars.Run | src/calcite/audit-css-vars.js:31-53 | the header is written first; a failed directory read leaves only the header with exit 1; a failed stylesheet read keeps the rows before it, with exit 1 |
| AuditCssVars.HeaderLines | src/calcite/audit-css-vars.js:34 | the header is exactly the titles line and the separator line |
| AuditCssVars.RowsShape | src/calcite/audit-css-vars.js:48 | row `j` keeps to one line and opens with component `j`'s cell |
| AuditCssVars.TableLines | src/calcite/audit-css-vars.js:34-49 | the file splits into the two header lines, then exactly one line per component in order, then nothing |
| AddEsriTeamLabels.LabelIssues | src/calcite/add-esri-team-labels.js:97-108 | one `addLabels` call, and one recorded number, for each listed issue lacking the team, in listing order |
| AddEsriTeamLabels.LackingMeaning | src/calcite/add-esri-team-labels.js:98 | an issue is labelled iff it is listed and its labels do not include the team |
| AddEsriTeamLabels.HandleRow | src/calcite/add-esri-team-labels.js:57-108 | the body of the row loop performs exactly one step of the row specification |
| AddEsriTeamLabels.Run | src/calcite/add-esri-team-labels.js:14-135 | an empty token, or a `data.csv` that cannot be read, exits 1 with no call; otherwise the run is the row specification over `data.split("\n")`, with exit 1 iff a row threw |
| AddEsriTeamLabels.ProcessSnoc | src/calcite/add-esri-team-labels.js:54-59 | one more row is skipped, throws, or performs one step, as the loop does |
| AddEsriTeamLabels.FailureStays | src/calcite/add-esri-team-labels.js:132-135 | after a row throws, later rows change nothing |
| AddEsriTeamLabels.NoCallsForSkippedRows | src/calcite/add-esri-team-labels.js:55 | empty rows, header rows and rows that throw make no call |
| AddEsriTeamLabels.ShortRowFails | src/calcite/add-esri-team-labels.js:56-58 | a row with fewer than three comma fields ends the run with code 1 |
| AddEsriTeamLabels.LookupConsistent | src/calcite/add-esri-team-labels.js:61-81 | a lookup keeps one `getLabel` per seen team, seen teams distinct, and missing = seen teams whose label does not exist |
| AddEsriTeamLabels.StepConsistent | src/calcite/add-esri-team-labels.js:83-108 | listing and labelling keep that bookkeeping |
| AddEsriTeamLabels.ProcessConsistent | src/calcite/add-esri-team-labels.js:54-109 | the bookkeeping holds after any number of rows |
| AddEsriTeamLabels.FailedLookupsMeaning | src/calcite/add-esri-team-labels.js:68-80 | a team is missing iff it was seen and its label does not exist; the missing list is duplicate-free |
| AddEsriTeamLabels.LabelBookkeeping | src/calcite/add-esri-team-labels.js:61-81 | over a whole run, `getLabel` is called exactly once per team seen and never for others, and the missing list is exactly the failed lookups, with no duplicates |
| AddEsriTeamLabels.WarnedWhenFull | src/calcite/add-esri-team-labels.js:91-95 | a user is warned about iff the listing returned at least 99 issues |
| TrackIssueEstimates.FirstEstimateIndex | src/calcite/track-issue-estimates.js:92-99 | the position of the first label containing `estimate`, with no such label before it |
| TrackIssueEstimates.CountIssue | src/calcite/track-issue-estimates.js:90-99 | the label loop that breaks at the first estimate label computes one step of the tally |
| TrackIssueEstimates.TallyMilestone | src/calcite/track-issue-estimates.js:68-101 | the issue loop leaves the milestone's record equal to the tally of its issues, and every other record unchanged |
| TrackIssueEstimates.IssueListings | src/calcite/track-issue-estimates.js:77-83 | one closed-issue listing of at most 100 per milestone, in order |
| TrackIssueEstimates.Run | src/calcite/track-issue-estimates.js:14-110 | an empty token exits 1 with no call; no milestone exits 1 without writing; otherwise one listing per milestone, the written object is the aggregate, and the exit code is 0 |
| TrackIssueEstimates.TallyIssueMeaning | src/calcite/track-issue-estimates.js:86-99 | a pull request changes nothing; any other issue adds 1 to `closed_issues`, and, with an estimate label, 1 to `issues_with_estimate` and its contribution to the total |
| TrackIssueEstimates.TallyMeaning | src/calcite/track-issue-estimates.js:68-101 | the record copies the milestone fields, counts the non-PR issues and the estimated ones, and totals the contributions, `NaN` once one has no digits |
| TrackIssueEstimates.EstimatedAtMostClosed | src/calcite/track-issue-estimates.js:92-99 | `issues_with_estimate <= closed_issues` |
| TrackIssueEstimates.PullRequestsIgnored | src/calcite/track-issue-estimates.js:86-88 | appending pull requests leaves the record unchanged |
| TrackIssueEstimates.AggregateMeaning | src/calcite/track-issue-estimates.js:67-75 | each written record is the tally of the last listed milestone with that number, and keeps `issues_with_estimate <= closed_issues` |
| TrackIssueEstimates.AggregateKeys | src/calcite/track-issue-estimates.js:67-68 | the written object has exactly one key per listed milestone number |
| TrackIssueEstimates.FirstMatchExample | src/calcite/track-issue-estimates.js:92-99 | `estimate - 3` before `estimate - 5` contributes exactly 3 and counts once |
| TrackIssueEstimates.EstimateThree | src/calcite/track-issue-estimates.js:95-97 | the label `estimate - 3` is worth 3 |
| SrcCreateRepoIssues.CreateCallsAt | src/calcite/create-repo-issues.js:108-116 | the calls alternate: the k-th create names the k-th component and is followed by one 2000 ms pause |
| SrcCreateRepoIssues.CreateAll | src/calcite/create-repo-issues.js:106-123 | from initial count R, components R..N-1 get one create each, in order, and the final count is max(R, N) with exit 0; a create that throws stops the loop with exit 1 |
| SrcCreateRepoIssues.Run | src/calcite/create-repo-issues.js:38-123 | an empty token, or a directory read that throws, exits 1 with no call; otherwise the create loop runs over the skip-filtered worklist |
| CalciteCreateRepoIssues.CreatesAt | calcite/create-repo-issues.js:89-95 | there is one create call per selected component, and the k-th call is the create for the k-th selected component |
| CalciteCreateRepoIssues.CreatedBeforeIsWithout | calcite/create-repo-issues.js:85-87 | up to raw index i, the loop has created the unskipped directories from raw index `R + 2` on |
| CalciteCreateRepoIssues.CreatedStep | calcite/create-repo-issues.js:86 | the test `createdIssuesCount + 1 >= index` holds exactly while `index < R + 2` |
| CalciteCreateRepoIssues.CreatedPrefix | calcite/create-repo-issues.js:85-98 | what is created by any raw index is a prefix of the selection, and all of it at the end |
| CalciteCreateRepoIssues.Walk | calcite/create-repo-issues.js:85-102 | the loop creates the selection in order, the count grows by one per create, and a create that throws ends the loop with exit 1 |
| CalciteCreateRepoIssues.Run | calcite/create-repo-issues.js:56-103 | a directory read that throws sets exit code 1 with no call; otherwise the loop creates the selection over the listing with the skip list |
| CalciteCreateRepoIssues.SelectedMembers | calcite/create-repo-issues.js:85-98 | over distinct names, a component gets an issue iff it is not skipped and sits at raw index `R + 2` or later |
| CalciteCreateRepoIssues.FreshRunSkipsFirstTwo | calcite/create-repo-issues.js:85-98 | from count 0, the components at raw indices 0 and 1 never get an issue, for every listing of distinct names |
| CalciteCreateRepoIssues.FreshRunMissesFirstTwo | calcite/create-repo-issues.js:85-98 | the listing `accordion`, `accordion-item`, `action` yields the single create for `action` |
| CalciteCreateRepoIssues.ProgressReporter.constructor | calcite/create-repo-issues.js:49 | `progressInterval` starts unset, with no listeners and nothing written |
| CalciteCreateRepoIssues.ProgressReporter.ShowProgress | calcite/create-repo-issues.js:105-135 | the first call registers itself and the count printer on the six exit events and starts the spinner; later calls stop it and show the cursor |
| CalciteCreateRepoIssues.ProgressReporter.Tick | calcite/create-repo-issues.js:124-130 | a running spinner writes a frame and increments `count`; a cleared one writes nothing |
| Checklist.FloorDivBounds | src/calcite/create-markdown-checklist.js:53 | `Math.floor(n / d)` is the greatest `q` with `q * d` not beyond `n`, for either sign of `d` |
| Checklist.FloorDivMonotone | src/calcite/create-markdown-checklist.js:53 | the floor grows with the dividend |
| Checklist.FloorDivRange | src/calcite/create-markdown-checklist.js:53 | a dividend in `[0, k*d)` gives a floor in `[0, k)` |
| Checklist.EntryComponent | src/calcite/create-markdown-checklist.js:55 | a line opens with the checkbox, and its component can be read back from between the backquotes |
| Checklist.AssigneeTextOneLine | src/calcite/create-markdown-checklist.js:56-58 | the assignee text, including `undefined`, breaks no line |
| SrcCreateMarkdownChecklist.AssigneeIndexMonotone | src/calcite/create-markdown-checklist.js:53 | with more directories than skip entries, a later component never gets an earlier assignee |
| Checklist.CeilDivBounds | src/calcite/create-markdown-checklist.js:53 | `ceil(x / a)` is the least `c` with `c * a` not below `x` |
| Checklist.FloorDivAtLeast | src/calcite/create-markdown-checklist.js:53 | `floor(k * a / n) >= j` iff `k >= ceil(j * n / a)` |
| Checklist.CeilDivSpread | src/calcite/create-markdown-checklist.js:53 | the ceilings of `x / a` and `(x + n) / a` differ by `floor(n / a)` or `floor(n / a) + 1` |
| Checklist.CeilDivWithin | src/calcite/create-markdown-checklist.js:53 | for `j < a`, `ceil((j + 1) * n / a)` is at most `n` |
| SrcCreateMarkdownChecklist.AssignedToBlock | src/calcite/create-markdown-checklist.js:47-53 | assignee `j` gets exactly the positions from `ceil(j * n / A)` up to `ceil((j + 1) * n / A)`, counted below any bound |
| SrcCreateMarkdownChecklist.AssignmentBalanced | src/calcite/create-markdown-checklist.js:8-53 | the components are fairly distributed: each of the `A` assignees gets `floor(n / A)` or `floor(n / A) + 1` of the `n = D - S` positions |
| SrcCreateMarkdownChecklist.AssigneeIndexInRange | src/calcite/create-markdown-checklist.js:47-53 | each position of a filtered list of length `D - S` gets an index in `[0, A)` |
| SrcCreateMarkdownChecklist.EveryLineAssigned | src/calcite/create-markdown-checklist.js:47-53 | when every skip entry is present among distinct names, every line gets an actual assignee |
| SrcCreateMarkdownChecklist.WriteLines | src/calcite/create-markdown-checklist.js:50-59 | the `forEach` writes exactly the checklist lines of the filtered list, each followed by `\n` |
| SrcCreateMarkdownChecklist.Run | src/calcite/create-markdown-checklist.js:40-63 | the stream is opened first, so a failed read leaves an empty file and exit 1; otherwise the file is the checklist |
| SrcCreateMarkdownChecklist.ChecklistComponents | src/calcite/create-markdown-checklist.js:50-59 | the file has exactly one line per unskipped component, in directory order, then nothing |
| CalciteCreateMarkdownChecklist.AssigneeIndexNonNegative | calcite/create-markdown-checklist.js:44-47 | the index is never negative, and every raw position up to S goes to the first assignee |
| CalciteCreateMarkdownChecklist.AssigneeIndexMonotone | calcite/create-markdown-checklist.js:39-47 | the index never decreases along the traversal |
| CalciteCreateMarkdownChecklist.AssigneeIndexInRange | calcite/create-markdown-checklist.js:37-47 | each raw position gets an index in `[0, A)` |
| CalciteCreateMarkdownChecklist.WriteLines | calcite/create-markdown-checklist.js:39-50 | the loop with `continue` writes exactly the lines of the unskipped raw entries, each followed by `\n` |
| CalciteCreateMarkdownChecklist.LinesStep | calcite/create-markdown-checklist.js:40-49 | a skipped entry writes nothing; any other writes its line, with no space before the parenthesis |
| CalciteCreateMarkdownChecklist.Run | calcite/create-markdown-checklist.js:34-35 | the directory is read first, so a failed read writes no file, with exit 1 |
| CalciteCreateMarkdownChecklist.TailsOneLine | calcite/create-markdown-checklist.js:49 | no assignee text breaks a line |
| CalciteCreateMarkdownChecklist.LinesComponents | calcite/create-markdown-checklist.js:39-50 | the lines name the unskipped components in order, and none breaks a line |
| CalciteCreateMarkdownChecklist.ChecklistComponents | calcite/create-markdown-checklist.js:39-50 | the file has exactly one line per unskipped component, in directory order, then nothing |
| IssueUpdates.UpdateCallsMeaning | update-issues.js:89-97 | one update per listed issue, in list order, addressed by its number, with the configured labels and the body made from its own previous body |
| UpdateIssues.Run | update-issues.js:82-102 | the listing of at most 100 `figma` issues comes first; a failed listing sets exit 1; otherwise one update per issue follows |
| UpdateIssues.EveryIssueReplaced | update-issues.js:89-97 | every listed issue, and only those, gets exactly the checklist as its body and the `figma` label |
| UpdateIssues.Idempotent | update-issues.js:94 | a second run over the bodies it wrote issues the same calls |
| CalciteUpdateRepoIssues.Appending | calcite/update-repo-issues.js:97 | the new body starts with the old one (or `null`), and is longer by the separator and the checklist |
| CalciteUpdateRepoIssues.OldBodyKept | calcite/update-repo-issues.js:97 | the old body and the checklist can both be read back from the new body |
| CalciteUpdateRepoIssues.AppendsAgain | calcite/update-repo-issues.js:97 | a second run appends the checklist again |
| CalciteUpdateRepoIssues.Run | calcite/update-repo-issues.js:47-104 | an empty token exits 1 with no call; then the listing; a failed listing exits 1; otherwise one update per issue |
| CalciteUpdateRepoIssues.EveryIssueAppended | calcite/update-repo-issues.js:92-100 | every listed issue, and only those, is updated once, in order, with its body plus the checklist and the `figma` label |
| CreateIssuesIndex.ApiBaseRoundTrip | index.js:49 | the API base is the configured server followed by `/api/v3`, and the server can be read back from it |
| CreateIssuesIndex.CreatesMeaning | index.js:72-83 | the creates name exactly the unskipped directories, in order, each titled `Figma v2 design: <c>` with body `createIssueBody(c)` and the `figma` label |
| CreateIssuesIndex.Run | index.js:70-87 | a failed directory read creates nothing, with exit 1; otherwise every call is a create, with exit 0 |
| CreateIssuesIndex.RunCreatesEachComponentOnce | index.js:72-83 | no skipped component is created, and every unskipped directory is |
| HtmlTemplates.PageShows | src/calcite/create-html-templates.js:49-109 | the page holds `<title>c</title>`, the selector `calcite-c {`, `<h1><code>c</code></h1>` and `<calcite-c></calcite-c>` |
| HtmlTemplates.PageInjective | src/calcite/create-html-templates.js:44-125 | different components get different pages |
| HtmlTemplates.FileNameInjective | src/calcite/create-html-templates.js:35 | different components get different `<c>.html` files |
| HtmlTemplates.WrittenKeys | src/calcite/create-html-templates.js:34-37 | the directory afterwards holds the old files plus exactly one file per component |
| HtmlTemplates.WrittenPages | src/calcite/create-html-templates.js:34-37 | each component's file holds that component's page |
| HtmlTemplates.WrittenKeeps | src/calcite/create-html-templates.js:34-37 | files of other names are left as they were |
| HtmlTemplates.PagesOfComponents | src/calcite/create-html-templates.js:29-37 | every unskipped directory gets its page, and a skipped one gets no new file |
| HtmlTemplates.WritePages | src/calcite/create-html-templates.js:34-41 | the write loop writes every page with exit 0, or the pages before a failing write with exit 1 |
| HtmlTemplates.Run | src/calcite/create-html-templates.js:24-42 | a failed `mkdir` or directory read writes nothing, with exit 1; otherwise the pages of the skip-filtered components are written with the script's template (the loop of calcite/create-html-templates.js:24-42 is the same, with the shorter viewport page) |

## Left out

- Octokit and its throttling plugin are not modelled: the HTTP traffic, backoff timers and retry scheduling. Only the decisions of `onRateLimit` and `onSecondaryRateLimit` are.
- A secondary rate limit met during a run is not modelled inside the loops. The callback never asks for a retry, so the request fails. Under `LogOnly` that failure reaches the script like any failed call: `calcite/create-repo-issues.js` catches it and sets exit code 1, which is `failAt` in `CalciteCreateRepoIssues.Walk`; in `index.js` and `update-issues.js` the call is not awaited, so it becomes an unhandled rejection. Under `LogAndExit` the handler ends the process at once with code 1. In `src/calcite/create-repo-issues.js` that gives the same calls and exit code as a throwing create (`failAt` in `SrcCreateRepoIssues.CreateAll`), and on the listing of `calcite/update-repo-issues.js` the same as a failed listing. The model does not capture it elsewhere: `TrackIssueEstimates.Run`, the unawaited updates of `CalciteUpdateRepoIssues.Run` and every call of `AddEsriTeamLabels.Run` have no input for it. In particular a secondary limit on `getLabel` ends the label script at once, while the model only has lookups that succeed or fail into the caught "missing label" path.
- Filesystem calls (`readdir`, `readFile`, `writeFile`, `createWriteStream`, `mkdir`) and path resolution are not modelled. Their results are inputs, and their writes are values.
- CalciteCreateRepoIssues.Run and CalciteCreateRepoIssues.Walk return an exit code as if the process ended after the loop. The script never clears its 150 ms spinner interval after the loop: the only `clearInterval` is in `showProgress`, which runs again only from an exit or signal listener. So the process keeps running until a signal arrives, and the exit code is observed only then.
- `process.exit`, `process.once` and timers are reduced to results and state. Exits are returned codes, exit listeners are recorded registrations, and the spinner ticks only when `Tick` is called.
- Console output is left out. This covers warnings, the final reports of labelled issues and missing labels, and the `Total issues created` printer. Only the decisions behind them are modelled, for example which users are warned about.
- The `forEach` updates of the two update scripts and the creates of `index.js` are not awaited. Only the order of issue is modelled, not their concurrent completion or failure. Those failures are unhandled rejections that the scripts do not catch; under Node's default an unhandled rejection ends the process with exit code 1, so the `exitCode == 0` that `CreateIssuesIndex.Run`, `UpdateIssues.Run` and `CalciteUpdateRepoIssues.Run` ensure holds only when every unawaited call succeeds.
- The `Math.random` shuffle of assignees in `src/calcite/create-markdown-checklist.js` is left out. The shuffled list is a parameter, so every proved property holds for any order.
- SrcCreateMarkdownChecklist.AssigneeIndex and CalciteCreateMarkdownChecklist.AssigneeIndex compute the exact floor of `index / componentsPerAssignee`, with rationals scaled to integers. The scripts divide by a rounded double-precision quotient, and the two can differ already for small counts when the list does not have three names: with 18 positions to share among 14 names, position 9 gives `Math.floor(9 / (18 / 14))`, which rounds to 6, where the exact floor is 7. The proved range, order and balance facts are facts about the exact floor.
- `Number.parseInt` of a very long digit string loses precision in JavaScript. `TrackIssueEstimates.EstimateValue` uses the exact value.
- The default `sort()` compares UTF-16 code units. `StringOrder.Less` compares Dafny characters, which is the same order for the ASCII property names the audit finds.
- `src/utils.js`, which the `src/` scripts import, is not part of this model. Its `sleep` is the recorded `Sleep(2000)` effect. Its `toggleLoadingAnimation` is taken to be the one of `calcite/utils.js`, modelled by `Utils.LoadingAnimation`.
- Pagination is left out: every listing is its first page, as in the scripts.
- In `src/calcite/track-issue-estimates.js`, a listing or `writeFile` that throws is not modelled. It would be caught, with exit 1. The model takes the listings as given and the write as succeeding.
- In `src/calcite/add-esri-team-labels.js`, a failing `listForRepo` or `addLabels` is not modelled. It would be caught, with exit 1. `getLabel` failures are modelled, by `labelExists`.
- `AddEsriTeamLabels.Run` does not model the spinner calls of the label script, because their implementation is in `src/utils.js`.
- Regular-expression matching is modelled only for the two fixed patterns of the audit and the `estimate` test, not in general.

## Findings

| source | as written | input that shows it | evidently intended | confidence | as-written member | corrected member |
|---|---|---|---|---|---|---|
| calcite/create-repo-issues.js:85-98 | the loop creates a component only when `createdIssuesCount + 1 < index`, with `index` the raw position in the unfiltered listing | a fresh run (count 0) over the directories `accordion`, `accordion-item`, `action` creates only `action`; the first two components never get an issue | resuming from count R creates the components from position R of the filtered worklist on, which the later script `src/calcite/create-repo-issues.js` does with `createdIssuesCount <= index` | medium, not executed | CalciteCreateRepoIssues.FreshRunMissesFirstTwo | SrcCreateRepoIssues.CreateAll |

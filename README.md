# git-housekeeper, modelled in Dafny

git-housekeeper helps a team clean up the branches of a shared git remote. This model covers the following parts:

- **Comparison.** Every remote branch is compared with a base branch: which commits are ahead, and which base commits are behind.
- **Review sheet.** The branches that are candidates for review are laid out in a Google Sheet:
  - grouped by the author of their newest own commit;
  - a hidden `name:sha` column;
  - a truncated commit list;
  - merged header cells.
- **Reading the sheet back.** The filled-in sheet is read back through a versioned processor. Its KEEP/DELETE decisions are classified and resolved against the current remote branches. After confirmation, the DELETE branches are removed one by one.
- **Interactive review.** Alternatively, branches are reviewed one at a time in the terminal, with a paged commit listing.
- **Base branch and remote.** The flow also chooses the base branch and the target remote. Remotes are fetched through a retry loop that switches between https and ssh authentication. A branch is deleted on the remote by pushing an empty source to it.

The modules follow the program's structure:

| module | file |
|---|---|
| `Wrappers` | `Option` and `Result` |
| `Collections`, `Text` | the array and string operations the program relies on: filtering, `indexOf`/`splice`, lodash `uniq`, `split`/`join`, `startsWith`/`endsWith`, `replace`, the default `sort` |
| `Branches` | src/git/branches.js |
| `Sheet` | the Sheets API cell and row values |
| `SheetProcessors` | src/sheets/sheetProcessors.js |
| `ColSpan` | the `processColSpan` step of src/sheets/reviewRemoteGoogleSheetsLocal.js and the header row of src/sheets/generateHeadRow.js |
| `BranchRows` | src/sheets/generateBranchRows.js and the older copy in src/sheets/reviewRemoteGoogleSheetsLocal.js |
| `Decisions` | src/flows/sheetResultMenu.js and `processSheetExternal`/`findSheetExternal` of src/sheets/findSheet.js |
| `ProcessSheet` | src/sheets/processSheet.js |
| `ReviewFlows` | src/flows/reviewRemoteGoogleSheets.js, `reviewGoogleSheetsLocal`, src/flows/reviewRemoteInteractive.js and src/reviewRemoteInteractive.js |
| `BaseBranch` | src/flows/reviewRemoteBranches.js and src/reviewRemoteBranches.js |
| `Auth` | the retry protocol shared by src/git/remote.js and src/git.js |
| `RemoteSession` | src/git/remote.js |
| `GitSession` | src/git.js |

How the source is modelled:

- **Mutable state.** Module-level variables that the source reassigns become classes with fields:
  - `RemoteSession.TargetRemote`;
  - `GitSession.Session`;
  - `BaseBranch.LegacyBaseSelection`.
- **Loops.** The source's loops become methods with loop invariants, each proved against a specification function:
  - the reordering `forEach`;
  - the version comparison;
  - the fetch retry loop;
  - the review loop;
  - the delete loops;
  - the column-span expansion.
- **Pure code.** The source's pure transformations are functions with lemmas.
- **External inputs.** Answers to prompts, repository lookups and fetch results are parameters.

## Model

| member | source | states |
|---|---|---|
| Branches.Shas | src/git/branches.js:84 | the sha list has one entry per commit of the history, in order |
| Branches.CompareWithBaseMembers | src/git/branches.js:82-90 | a commit is ahead exactly when it is in the branch history and its sha is not in the base list; a sha is behind exactly when it is in the base list and no branch commit has it |
| Branches.CompareWithBaseKeepsOrder | src/git/branches.js:87-88 | ahead keeps the history's order and behind the base list's order (both are subsequences), so neither is longer than its input |
| Branches.AheadBehindDisjoint | src/git/branches.js:87-88 | no sha is both ahead and behind |
| Branches.AheadBehindAreSetDifferences | src/git/branches.js:82-90 | when the two walks enumerate the commits reachable from the branch and from the base, ahead is reachable-from-branch minus reachable-from-base and behind is the reverse difference |
| Branches.SameCommitsNothingAheadOrBehind | src/git/branches.js:82-90 | a branch whose history is exactly the base's commits is neither ahead nor behind |
| Branches.FirstSlashFrom | src/git/branches.js:26 | finds the first '/' after the first character that the non-multiline `.+?` can reach (no line terminator before it), or reports that none exists |
| Branches.ShortNameRemovesShortestPrefix | src/git/branches.js:26 | the short name drops the shortest non-empty prefix ending in '/', and is the whole name when there is none |
| Branches.ShortNameOfRemoteShorthand | src/git/branches.js:26 | `origin/feature/x` shortens to `feature/x` for any slash-free remote name |
| Branches.OnTargetRemoteIffSameRemote | src/git/branches.js:28 | a branch is on the target remote exactly when its reference lies under that remote's `refs/remotes/<remote>/` |
| Branches.UpstreamNameOfHeadRef | src/git/branches.js:47 | the upstream `refs/heads/<branch>` becomes `<branch>` |
| Branches.NotGoneWhileUpstreamExists | src/git/branches.js:59-61 | a branch with an existing remote upstream, or with no upstream at all, is never gone |
| Branches.GoneWhenNoRemoteMatches | src/git/branches.js:59-61 | a branch whose upstream has no remote reference is gone |
| Branches.LocalBranchOf | src/git/branches.js:33-62 | a gone local branch always has an upstream name |
| Branches.ShortNames | src/flows/reviewRemoteBranches.js:8 | the choices are the branches' short names, one per branch, in order |
| Text.Split | src/sheets/sheetProcessors.js:40-41 | `split` yields at least one part and no part holds the separator |
| Text.SplitJoin | src/sheets/sheetProcessors.js:40-41 | splitting a join of separator-free parts gives the parts back |
| Text.JoinSplit | src/sheets/sheetProcessors.js:40-41 | joining the parts of a split gives the string back |
| Text.ReplaceFirstAtStart | src/git/remote.js:198-200 | `replace` of a prefix the string starts with swaps exactly that prefix |
| Text.SortStringsSorted | src/sheets/generateBranchRows.js:11-14 | the default `sort` of the group keys yields them in strictly increasing code-point order |
| Collections.IndexOf | src/flows/reviewRemoteBranches.js:11 | `indexOf` is -1 exactly when absent, else the first index holding the value |
| Collections.Uniq | src/sheets/generateBranchRows.js:48 | `uniq` keeps every value once and nothing else |
| Collections.UniqKeepsFirstOccurrenceOrder | src/sheets/generateBranchRows.js:48 | `uniq` lists values in the order of their first occurrence |
| SheetProcessors.VersionFromParts | src/sheets/sheetProcessors.js:1 | three digit runs joined by dots match the version pattern |
| SheetProcessors.VersionParts | src/sheets/sheetProcessors.js:1 | a string matching the version pattern is its three dot-separated parts joined back |
| SheetProcessors.AdmitsFromFirstDifference | src/sheets/sheetProcessors.js:43-53 | a processor admits a sheet version exactly when all compared components are equal or the first differing one is greater, as a string, in the sheet |
| SheetProcessors.AdmitsSameVersion | src/sheets/sheetProcessors.js:39-54 | a processor admits its own version |
| SheetProcessors.VersionAdmits | src/sheets/sheetProcessors.js:39-54 | the comparison loop answers exactly the admission predicate |
| SheetProcessors.FindProcessor | src/sheets/sheetProcessors.js:38-61 | `find` returns the first admitting processor in list order; it fails with the "Could not find processor" message exactly when none admits |
| SheetProcessors.GetProcessor | src/sheets/sheetProcessors.js:38-61 | with the single 0.1.0 processor: found exactly when 0.1.0 admits the sheet version |
| SheetProcessors.OlderSheetRejected | src/sheets/sheetProcessors.js:43-58 | a 0.0.9 sheet finds no processor |
| SheetProcessors.TenComponentSortsBeforeTwo | src/sheets/sheetProcessors.js:44-49 | a 0.2.0 processor rejects a 0.10.0 sheet, as "10" sorts before "2" |
| SheetProcessors.NineComponentSortsAfterTwo | src/sheets/sheetProcessors.js:44-49 | a 0.2.0 processor admits a 0.9.0 sheet |
| SheetProcessors.ReadMeta | src/sheets/sheetProcessors.js:7-14 | the four header values are read from rows 0-3; reading fails at the first row whose first cell has no entered value, and a non-string value reads as absent |
| SheetProcessors.BranchEntries | src/sheets/sheetProcessors.js:16-32 | at most one entry per row, and every entry's hidden value is a string starting with `refs/remotes/<remote>` |
| SheetProcessors.BranchEntriesFromBranchRows | src/sheets/sheetProcessors.js:16-32 | the entries are exactly those of the branch rows: each entry is the branch read from a row with values whose first cell passes the prefix filter (hidden value from column 0, action from column 6), and every such row yields its entry |
| SheetProcessors.BranchEntriesConcat | src/sheets/sheetProcessors.js:16-25 | the row filter distributes over concatenated rows |
| SheetProcessors.BranchEntriesOfRow | src/sheets/sheetProcessors.js:16-32 | a single row yields one entry exactly when it is a branch row |
| SheetProcessors.Process010 | src/sheets/sheetProcessors.js:6-34 | processing succeeds exactly when the metadata can be read, and yields that metadata and exactly the branch entries for the prefix `refs/remotes/<remote>` |
| ColSpan.OrOne | src/sheets/reviewRemoteGoogleSheetsLocal.js:37 | `span.cols \|\| 1` is never 0, and is the given count when that is non-zero |
| ColSpan.Fillers | src/sheets/reviewRemoteGoogleSheetsLocal.js:46-49 | a span of n columns adds n-1 filler cells after its column (none for n <= 1) |
| ColSpan.ProcessRow | src/sheets/reviewRemoteGoogleSheetsLocal.js:33-53 | the per-cell loop produces the expanded row and the row's merge ranges |
| ColSpan.PushFillers | src/sheets/reviewRemoteGoogleSheetsLocal.js:46-49 | the filler loop appends exactly the fillers of the span |
| ColSpan.SpannedSnoc | src/sheets/reviewRemoteGoogleSheetsLocal.js:36-49 | a spanned cell adds its content, its fillers and one merge starting at the row's current width |
| ColSpan.CopiedSnoc | src/sheets/reviewRemoteGoogleSheetsLocal.js:50-52 | any other cell is copied unchanged and adds no merge |
| ColSpan.ProcessColSpan | src/sheets/reviewRemoteGoogleSheetsLocal.js:23-57 | builds a new row for every input row, with its properties kept and its values expanded, and collects the merges of all rows in row order |
| ColSpan.ExpandRowWidth | src/sheets/reviewRemoteGoogleSheetsLocal.js:35-52 | an expanded row is as wide as the sum of its cells' column spans |
| ColSpan.RowMergesCount | src/sheets/reviewRemoteGoogleSheetsLocal.js:36-44 | a row yields one merge per spanned cell |
| ColSpan.RowMergesPlaced | src/sheets/reviewRemoteGoogleSheetsLocal.js:36-49 | each merge lies inside the expanded row, starts on a content cell and covers only the filler cells after it; merges are ordered left to right without overlap |
| ColSpan.RowMergesStartOnCell | src/sheets/reviewRemoteGoogleSheetsLocal.js:36-49 | the i-th merge of a row starts, in the expanded row, on the content of the row's i-th spanned cell |
| ColSpan.RowMergeStartAt | src/sheets/reviewRemoteGoogleSheetsLocal.js:36-49 | the same for one index i |
| ColSpan.AllMergesRowMajor | src/sheets/reviewRemoteGoogleSheetsLocal.js:27-44 | all merges lie in the sheet's rows and are ordered by row |
| ColSpan.RowMergesInRow | src/sheets/reviewRemoteGoogleSheetsLocal.js:38-41 | the i-th merge of a row belongs to the row's i-th spanned cell: it is on the sheet, starts on that row, ends `span.rows || 1` rows further down and is `span.cols || 1` columns wide |
| ColSpan.HeadRowLayout | src/sheets/generateHeadRow.js:16-52 | the header row expands to 15 columns with merges over columns 4-6, 9-11 and 11-15 |
| ColSpan.HeadRowStart | src/sheets/generateHeadRow.js:17-25 | the first five header cells take six columns, with one merge over columns 4-6 |
| ColSpan.HeadRowEnd | src/sheets/generateHeadRow.js:26-50 | the remaining header cells add nine columns and the merges over columns 9-11 and 11-15 |
| BranchRows.Keys | src/sheets/generateBranchRows.js:7-9 | each branch's group key is the author of its first ahead commit, or 'none' |
| BranchRows.GroupKeysCoverBranches | src/sheets/generateBranchRows.js:11-14 | every branch's key is one of the group keys |
| BranchRows.GroupKeysFromBranches | src/sheets/generateBranchRows.js:11-14 | every group key is some branch's key |
| BranchRows.GroupKeysSortedAndComplete | src/sheets/generateBranchRows.js:11-14 | the group keys are strictly sorted, contain every branch's key and nothing else |
| BranchRows.GroupedSelectsKeys | src/sheets/generateBranchRows.js:11-18 | concatenating the groups of some keys gives exactly the branches with those keys |
| BranchRows.GroupedIsPermutation | src/sheets/generateBranchRows.js:11-18 | across all groups every branch appears exactly once |
| BranchRows.CommitCells | src/sheets/generateBranchRows.js:131-133 | one commit cell per listed commit, in order |
| BranchRows.Authors | src/sheets/generateBranchRows.js:48 | the author list, before `uniq` and `join`, is the ahead commits' authors, one per commit, in order |
| BranchRows.LeadCells | src/sheets/generateBranchRows.js:26-128 | the nine fixed cells: hidden `name:sha`, the author on the group's first row only, the short name, the distinct authors of the ahead commits in first-occurrence order joined by ", ", an empty action cell, and the behind and ahead counts |
| BranchRows.NameCells | src/sheets/generateBranchRows.js:26-52 | the first four cells: hidden `name:sha`, the author on the group's first row only, the short name, and the distinct ahead authors joined by ", " in a clipped cell |
| BranchRows.CountCells | src/sheets/generateBranchRows.js:90-128 | the empty action cell, then the behind and ahead counts as numbers |
| BranchRows.CommitTail | src/sheets/generateBranchRows.js:130-156 | at most `limit` commit cells, each its commit's text, then an "(n more)" cell when commits are cut |
| BranchRows.BranchRow | src/sheets/generateBranchRows.js:18-156 | a branch row has nine fixed cells, then at most `limit` commit cells, then one "more" cell when commits were cut |
| BranchRows.BranchRowCells | src/sheets/generateBranchRows.js:18-156 | a branch row holds the hidden `name:sha`, the author on the group's first row only, the short name, the distinct ahead authors joined by ", ", an empty action cell, the behind and ahead counts, the first `limit` ahead commits in order, and "(n more)" last when commits were cut |
| BranchRows.LeadWhenCells | src/sheets/generateBranchRows.js:19-89 | the date and time cells are `=DATE(..)` and `=TIME(..)` formulas rendered from the newest ahead commit, or empty strings when nothing is ahead |
| BranchRows.GroupRows | src/sheets/generateBranchRows.js:18-158 | one row per branch of the group, in the group's order, the `k`-th built from the `k`-th branch at position `index + k` (so only position 0 shows the author) |
| Collections.MapIndexed | src/sheets/generateBranchRows.js:18 | `map((x, i) => ..)`: the `k`-th result is the function applied to the `k`-th element and its position |
| BranchRows.BlocksConcatMap | src/sheets/generateBranchRows.js:11-163 | the generated rows are the groups' blocks (rows, then a spacer) flattened in key order |
| BranchRows.BlockRowAt | src/sheets/generateBranchRows.js:11-163 | the block of the `i`-th key starts right after the rows of the earlier groups and their spacers |
| BranchRows.BlocksRow | src/sheets/generateBranchRows.js:14-31 | the `k`-th row of the `i`-th block is the row of the `k`-th branch of that group, built at index `k` |
| BranchRows.GeneratedGroupRow | src/sheets/generateBranchRows.js:6-31 | in the generated sheet the author shows on the first row of each group and is blank on the group's other rows |
| BranchRows.BlocksLength | src/sheets/generateBranchRows.js:11-163 | each group adds its branches plus one spacer row |
| BranchRows.RowCount | src/sheets/generateBranchRows.js:6-164 | the sheet body has one row per branch plus one spacer per author |
| BranchRows.UnfilledEntries | src/sheets/generateBranchRows.js:28 | a freshly generated branch reads back as its `name:sha` with no action |
| BranchRows.BranchRowReadBack | src/sheets/generateBranchRows.js:25-104 | the processor reads a generated branch row back as that branch with no action |
| BranchRows.GroupRowsReadBack | src/sheets/generateBranchRows.js:18-158 | a generated group reads back as its branches, in order |
| BranchRows.BlocksReadBack | src/sheets/generateBranchRows.js:11-163 | spacer rows are skipped when the groups are read back |
| BranchRows.GeneratedRowsReadBack | src/sheets/generateBranchRows.js:6-164 | reading the generated rows back lists every reviewed branch exactly once, in grouped order, unmarked |
| BranchRows.ShortSha | src/sheets/reviewRemoteGoogleSheetsLocal.js:194 | `substring(0, 6)` is the sha's prefix of length min(6, length) |
| BranchRows.LegacyCommits | src/sheets/reviewRemoteGoogleSheetsLocal.js:192-209 | one older-style commit per commit, in order |
| BranchRows.LegacyZip | src/sheets/reviewRemoteGoogleSheetsLocal.js:60-63 | each branch is paired with the comparison at its own index |
| BranchRows.LegacyRowCount | src/sheets/reviewRemoteGoogleSheetsLocal.js:59-225 | the older generator also yields one row per branch plus one spacer per author |
| Decisions.ProcessedRowsHaveRefs | src/sheets/sheetProcessors.js:27-33 | every processed branch entry has a string hidden reference |
| Decisions.Refs | src/flows/sheetResultMenu.js:34-47 | the references are the rows' hidden strings, in order |
| Decisions.Bucket | src/flows/sheetResultMenu.js:34-47 | a bucket is no longer than the rows |
| Decisions.BucketInRowOrder | src/flows/sheetResultMenu.js:34-47 | a bucket is exactly the references of the rows marked with its action, in row order |
| Decisions.Classify | src/flows/sheetResultMenu.js:34-47 | the classification loop fills the KEEP, DELETE and no-action buckets |
| Decisions.ClassifyPartitions | src/flows/sheetResultMenu.js:34-47 | the three buckets together are a permutation of the references |
| Decisions.ClassifyPlacesEachRow | src/flows/sheetResultMenu.js:34-47 | each row's reference lands in the bucket of its action |
| Decisions.SplitRef | src/flows/sheetResultMenu.js:73 | the name part is the reference up to its first ':' (the whole reference when there is none); the second part is present exactly when there is a ':' and is the text after it up to the next ':' |
| Decisions.SplitRefOfHidden | src/flows/sheetResultMenu.js:73 | a generated `name:sha` splits back into name and sha |
| Decisions.FindByName | src/flows/sheetResultMenu.js:74 | `find` returns a remote branch with that name, and nothing exactly when none has it |
| Decisions.FindByNameFirst | src/flows/sheetResultMenu.js:74 | the branch `find` returns is the first with that name: no earlier remote branch has it |
| Decisions.Resolve | src/flows/sheetResultMenu.js:71-85 | the resolution loop computes the delete, changed and gone lists |
| Decisions.ResolveAllSplits | src/flows/sheetResultMenu.js:71-85 | every DELETE entry is either found (and deleted) or gone; found branches are current remote branches, gone names match none, and changed ones are among those deleted |
| Decisions.ResolveOneChanged | src/flows/sheetResultMenu.js:76-80 | a found branch whose head differs from the sheet's sha is also reported as changed |
| Decisions.SheetResultMenu | src/flows/sheetResultMenu.js:23-124 | asks only when some DELETE entry is found; removes exactly the found branches, in order, when confirmed; always returns false |
| Decisions.NoRemovalWithoutConfirmedMatch | src/flows/sheetResultMenu.js:62-121 | branches are removed exactly when the user confirms and some DELETE entry resolves to a current branch |
| Decisions.DeleteCalls | src/sheets/findSheet.js:274-284 | one `deleteBranch(ref, dryRun, true)` call per found branch, in order |
| Decisions.ProcessSheetExternal | src/sheets/findSheet.js:187-287 | the older copy makes the same decisions and records its delete calls; returns false |
| Decisions.FindSheetRetriesOnce | src/sheets/findSheet.js:97-134 | the sheet picked from the first listing is used; otherwise the listing is retried once over all files, with the same sign-in, and a second miss gives no sheet |
| ProcessSheet.DeleteTargetsAsWritten | src/sheets/processSheet.js:84-93 | the deletion targets as written are no more than the DELETE entries |
| ProcessSheet.DeleteTargetsAsWrittenMatchWhole | src/sheets/processSheet.js:84-93 | each target as written is a DELETE entry that the whole-reference lookup finds |
| ProcessSheet.DeleteTargets | src/sheets/processSheet.js:84-93 | the corrected targets are no more than the DELETE entries |
| ProcessSheet.AsWrittenDeletesNothing | src/sheets/processSheet.js:85 | on sheet entries of the form `name:sha`, the lookup as written finds nothing |
| ProcessSheet.GeneratedEntryLookups | src/sheets/processSheet.js:85 | for a current branch's `name:sha` entry (no ':' in names or sha), the whole-reference lookup finds nothing while the name-part lookup finds that branch |
| ProcessSheet.SplitLookupDeletesEveryEntry | src/sheets/processSheet.js:84-93 | looking up the name part finds a branch for every such entry, one whose name the entry starts with |
| ProcessSheet.DeleteTargetsWhenAllFound | src/sheets/processSheet.js:84-93 | when every entry's name part resolves, the corrected loop deletes one branch per entry, the one its name part resolves to, in order |
| ProcessSheet.SingleEntryOutcomes | src/sheets/processSheet.js:85 | for any single branch and its `name:sha` entry, the code as written deletes nothing and the corrected lookup deletes that branch |
| ProcessSheet.LookupCounterexample | src/sheets/processSheet.js:85 | for `refs/remotes/origin/feature:abc123` and that remote branch, the code as written deletes nothing and the corrected lookup deletes the branch |
| ProcessSheet.Calls | src/sheets/processSheet.js:91 | one delete call per target, with the dry-run flag |
| ProcessSheet.ProcessSheetAsWritten | src/sheets/processSheet.js:20-95 | the script as written: errors exactly when the metadata is missing; otherwise splits the rows into the keep, delete and no-action buckets, always asks for confirmation (there is no early return when nothing is marked DELETE), and once confirmed calls delete for the whole-reference matches |
| ProcessSheet.ProcessSheet | src/sheets/processSheet.js:20-95 | the corrected script classifies the rows into the three buckets, always asks for confirmation and, once confirmed, deletes the DELETE entries whose name resolves |
| ProcessSheet.DeleteLoopAsWritten | src/sheets/processSheet.js:84-93 | the delete loop as written makes one call per whole-reference match |
| ProcessSheet.DeleteLoop | src/sheets/processSheet.js:84-93 | the corrected delete loop makes one call per resolved name |
| ProcessSheet.DeleteTargetsAgreeWithResolution | src/flows/sheetResultMenu.js:71-85 | the corrected script deletes the same branches as the interactive sheet menu |
| ReviewFlows.BaseLikeNames | src/flows/reviewRemoteGoogleSheets.js:92-98 | a name is base-like exactly when it ends with 'develop', 'master' or the chosen base |
| ReviewFlows.BranchesToReviewMembers | src/flows/reviewRemoteGoogleSheets.js:92-98 | exactly the target-remote branches that are not base-like are reviewed, in their order |
| ReviewFlows.LegacyBranchesToReviewMembers | src/reviewRemoteInteractive.js:70-76 | the older filter keeps every non-base-like branch of any remote, a superset of the newer selection |
| ReviewFlows.ApiFor | src/flows/reviewRemoteGoogleSheets.js:80-82 | the Google API is used exactly for the direct choice; commit messages are included unless the proxy-without-commits choice was made |
| ReviewFlows.Take | src/flows/reviewRemoteGoogleSheets.js:111 | `slice(0, n)` is the prefix of length min(n, length) |
| ReviewFlows.ProjectCommits | src/flows/reviewRemoteGoogleSheets.js:111-116 | one projected commit per commit, in order |
| ReviewFlows.BranchCommitsOfProjects | src/flows/reviewRemoteGoogleSheets.js:105-121 | at most `limit` commits are sent, each the projection of the ahead commit at its index; the counts are the full ahead and behind lengths |
| ReviewFlows.FormattedBranches | src/flows/reviewRemoteGoogleSheets.js:126-132 | each reviewed branch is sent with its short name, name, head sha and its own commit summary |
| ReviewFlows.ReviewSheetReadsBack | src/flows/reviewRemoteGoogleSheets.js:79-143 | the sheet built from the reviewed branches reads back as the unfilled entries of those branches in grouped order, a permutation of them with one entry per reviewed branch |
| ReviewFlows.ReviewedOnTarget | src/flows/reviewRemoteGoogleSheets.js:92-98 | with `onTargetRemote` set as `getBranches` sets it, every reviewed branch lies under `refs/remotes/<target>/` |
| ReviewFlows.OnTargetUnderRemoteRefs | src/git/branches.js:28 | a reference on the target remote starts with the processor's prefix `refs/remotes/<target>` |
| ReviewFlows.Comparisons | src/sheets/reviewRemoteGoogleSheetsLocal.js:376-383 | one comparison per reviewed branch, against the base's shas |
| ReviewFlows.ReviewGoogleSheetsLocal | src/sheets/reviewRemoteGoogleSheetsLocal.js:357-400 | the older flow sends as many comparisons as branches |
| ReviewFlows.Page | src/flows/reviewRemoteInteractive.js:13 | a page holds at most 5 commits (`COMMITS_PAGE_SIZE`, src/const.js:5) |
| ReviewFlows.PagesCover | src/flows/reviewRemoteInteractive.js:12-55 | pages 0..p together are the first (p+1)*5 commits, in order |
| ReviewFlows.LastPageEndsList | src/flows/reviewRemoteInteractive.js:14 | once no more pages remain, every commit has been shown |
| ReviewFlows.LogCommitsAndPrompt | src/flows/reviewRemoteInteractive.js:12-55 | "show more" is followed only while more commits remain; the answer returned is keep, delete or exit, given on the last page shown |
| ReviewFlows.PromptShowsPagesInOrder | src/flows/reviewRemoteInteractive.js:12-55 | the commits shown before an answer are a prefix of the list, each page after the previous one |
| ReviewFlows.ReviewLoop | src/flows/reviewRemoteInteractive.js:81-99 | the loop yields the result and the deletions of the recursive specification |
| ReviewFlows.StopIndex | src/flows/reviewRemoteInteractive.js:87-98 | the review stops at the first branch whose answer is neither keep nor delete |
| ReviewFlows.ReviewStops | src/flows/reviewRemoteInteractive.js:87-103 | the loop returns false when it runs through all branches or the user exits, and fails with "Unknown action: <answer>" on any other answer |
| ReviewFlows.ReviewDeletesOnlyMarked | src/flows/reviewRemoteInteractive.js:90-93 | only branches answered with delete before the stop are deleted |
| ReviewFlows.ReviewDeletesMarked | src/flows/reviewRemoteInteractive.js:90-93 | every branch answered with delete before the stop is deleted |
| ReviewFlows.ReviewDeletesExactly | src/flows/reviewRemoteInteractive.js:81-98 | the deleted branches are exactly those answered with delete before the stop, in branch order |
| ReviewFlows.ReviewRemoteInteractive | src/flows/reviewRemoteInteractive.js:70-104 | reviews the selected branches and removes those marked for deletion |
| ReviewFlows.ShortNameDeletions | src/reviewRemoteInteractive.js:89 | the older flow deletes by short name with the dry-run flag |
| ReviewFlows.LegacyReviewRemoteInteractive | src/reviewRemoteInteractive.js:69-101 | the older flow reviews its wider selection and deletes by short name |
| BaseBranch.MovedToFrontReorders | src/flows/reviewRemoteBranches.js:10-16 | moving a name to the front keeps the same names, puts it first when present, and changes nothing when absent |
| BaseBranch.PromoteDefaultsSteps | src/flows/reviewRemoteBranches.js:10-16 | the `forEach` moves 'develop' first, then 'master' |
| BaseBranch.OrderChoices | src/flows/reviewRemoteBranches.js:8-16 | the reordering loop yields the promoted list |
| BaseBranch.PromoteDefaultsPermutes | src/flows/reviewRemoteBranches.js:10-16 | the reordering keeps every choice, and without 'master' and 'develop' the list is unchanged |
| BaseBranch.PromoteDefaultsFront | src/flows/reviewRemoteBranches.js:10-16 | a present 'master' comes first, a present 'develop' next (first when there is no 'master') |
| BaseBranch.PromoteDefaultsOrder | src/flows/reviewRemoteBranches.js:10-16 | the choices are a permutation of the short names: 'master' first when present, 'develop' next (first when there is no 'master'), the others in their original order |
| BaseBranch.DefaultBase | src/flows/reviewRemoteBranches.js:33-37 | a default base is 'develop' or 'master' and ends some remote branch name |
| BaseBranch.DefaultBasePrefersDevelop | src/flows/reviewRemoteBranches.js:33-37 | 'develop' wins over 'master'; there is no default exactly when defaults are skipped or neither name ends a branch |
| BaseBranch.MenuNext | src/flows/reviewRemoteBranches.js:44-75 | only "return" goes back, with true; choosing another base restarts without the default |
| BaseBranch.ReviewRemoteBranches | src/flows/reviewRemoteBranches.js:30-76 | the user is asked exactly when there is no default, then with the promoted short names; the base is the default or the answer; the menu choice leads on |
| BaseBranch.LegacyChoices | src/reviewRemoteBranches.js:9 | one choice per reference: its shorthand without the remote |
| BaseBranch.LegacyChoiceOfRemoteShorthand | src/reviewRemoteBranches.js:9 | `origin/feature` is offered as `feature` |
| BaseBranch.LegacyBaseSelection.constructor | src/reviewRemoteBranches.js:6 | no base branch is chosen at first |
| BaseBranch.LegacyBaseSelection.SelectBaseBranch | src/reviewRemoteBranches.js:8-27 | offers the promoted short names and stores the answer as the base branch |
| BaseBranch.LegacyBaseSelection.ReviewRemoteBranches | src/reviewRemoteBranches.js:29-72 | the base branch is the default when one exists, else the answer; the menu choice leads on |
| Auth.InitialAuthMethod | src/git/remote.js:134 | https exactly when the URL starts with "http" |
| Auth.InitialAuthMethodOfUrls | src/git/remote.js:134 | https:// and http:// URLs start with https; git@ and ssh:// URLs with ssh |
| Auth.OtherMethods | src/git/remote.js:146-161 | the other methods are exactly the methods other than the current one |
| Auth.RetryMenuOffersEachMethodOnce | src/git/remote.js:146-161 | the retry menu lists the current method first, exit last, and each of the three answers once |
| Auth.LegacyRetryMenu | src/git.js:104-113 | the older menu lists https, ssh and exit, each once |
| Auth.FetchFromStops | src/git/remote.js:138-173 | a successful attempt ends the loop fetched, a failure answered with exit ends it exited, each after that one attempt |
| Auth.FetchFromRetry | src/git/remote.js:138-173 | a failure answered with a method hands the rest of the loop to that method |
| Auth.FetchTrace | src/git/remote.js:138-173 | one attempt per turn: the first with the starting method, each later one with the method picked after the previous failure; fetched at the first success, exited at the first `null` answer |
| Auth.FetchedOnFirstSuccess | src/git/remote.js:138-173 | when some turn succeeds and every failure is answered with a method, the loop ends fetched |
| RemoteSession.PushRefOfTargetBranch | src/git/remote.js:196-200 | a reference on the target remote is pushed to as `refs/heads/` plus its branch part |
| RemoteSession.PushRefOfRemoteBranch | src/git/remote.js:196-200 | `refs/remotes/<remote>/<branch>` is pushed to as `refs/heads/<branch>` |
| RemoteSession.TargetRemote.constructor | src/git/remote.js:7-9 | no target remote, not fetched, no credentials, nothing pushed |
| RemoteSession.TargetRemote.SelectRemote | src/git/remote.js:18-48 | fails with the "No remotes" message exactly when there are none; asks exactly when there are several, listing 'origin' first; the target is the lookup of the answer or of the single remote |
| RemoteSession.TargetRemote.SetRemote | src/git/remote.js:50-61 | succeeds exactly when the named remote exists with the given URL; otherwise the not-found or URL-mismatch message |
| RemoteSession.TargetRemote.AttemptFetch | src/git/remote.js:63-130 | stores the credentials for the method and reports the fetch result |
| RemoteSession.TargetRemote.FetchRemote | src/git/remote.js:132-177 | runs the retry loop from the URL's method; remembers a successful fetch; the credentials are those of the last attempt |
| RemoteSession.TargetRemote.RemoveReference | src/git/remote.js:196-209 | prints `git push <remote> :refs/heads/<branch>` and pushes that refspec unless dry-running |
| GitSession.Session.constructor | src/git.js:5-7 | no repository, no remote, no credentials |
| GitSession.Session.OpenRepository | src/git.js:130-161 | fails with the open-failure message (which the source logs before rethrowing the library's error), state unchanged, exactly when the repository cannot be opened; asks exactly when there are several remotes, listing 'origin' first |
| GitSession.Session.AttemptFetch | src/git.js:18-84 | stores the credentials for the method and reports the fetch result |
| GitSession.Session.FetchRemote | src/git.js:86-128 | refused with "Please open repository first" exactly when no repository or remote is set; otherwise the same retry loop |
| GitSession.Session.RetryFetch | src/git.js:92-127 | the `while (!authenticated)` loop yields the retry specification from the URL's method; the credentials are those of the last attempt |

## Left out

- Calls into nodegit are inputs rather than modelled operations. This covers opening a repository, listing references and remotes, revwalks, `Remote.lookup` and the fetch itself. The listings are sequences, the lookup is a function parameter, and a fetch attempt is a boolean per turn.
- Prompts (inquirer), `opn`, progress bars and console output are not modelled. Each answer the user gives is a parameter. The messages and commands the source prints are returned as strings.
- The Google and proxy APIs (src/api/google.js, src/api/proxy.js) are not part of this model. They cover authentication, sheet creation and sheet retrieval, and appear only as their results. google.js checks the version cell against its pattern before choosing a processor (src/api/google.js:221-227); that check is not part of `SheetProcessors.GetProcessor`, which, like `getProcessor`, accepts any string. The pattern itself is modelled by `SheetProcessors.IsVersion`.
- Cell styles, colours, borders, notes and conditional formatting are reduced to column tags. Times are rendered through a `TimeFormat` parameter standing for `moment`, because the rendering depends on the local time zone.
- Strings are sequences of code points. JavaScript compares strings by UTF-16 code units, so the two orders differ only for characters outside the Basic Multilingual Plane.
- Auth.FetchTrace: the source retries until success or exit, possibly forever. The model takes a finite list of turns, and the outcome `Pending` means the turns ran out before the loop ended.
- Process exit on "no, exit" in the fetch loop is modelled as the `Exited` outcome.
- The commit revwalks are given as sequences. "Ahead" and "behind" are related to reachability only as set differences of given commit sets (`Branches.AheadBehindAreSetDifferences`); the commit graph itself is not modelled.
- The sheet commit limit (`NUM_COMMITS_IN_SHEET`) and the page size are parameters or constants. They are not read from the configuration.
- `Promise.all` over branches is modelled as a sequential map, since each element depends only on its own branch.
- `deleteBranch` (src/git/branches.js:92-101: prints `git branch -d <shorthand>`, then deletes the local reference unless dry-running) is not modelled; the flows record each call and its arguments in order. src/sheets/processSheet.js, src/sheets/findSheet.js and src/reviewGoneBranches.js import it, with `setRemote` and `getBranches`, from `../git` or `./git`, which resolves to src/git.js, and that file exports only `fetchRemote` and `openRepository`. `deleteRemoteBranch` (imported by src/reviewRemoteInteractive.js:4) is defined in none of the source files; its calls are recorded the same way.
- `getTargetRemote` and the module caches in src/git/remote.js and src/git/branches.js (cached branch lists, cached references) are not modelled. The caches only avoid repeated nodegit calls.
- Credentials (username, token, SSH agent) are reduced to the authentication method they are set up for. The darwin-only certificate check callback is not modelled.
- RemoteSession.TargetRemote.FetchRemote requires a target remote, because the source dereferences it without a check.
- RemoteSession.TargetRemote.RemoveReference requires a target remote, and credentials unless dry-running, because the source dereferences it without a check.
- GitSession.Session.OpenRepository: when the repository cannot be opened, the source logs `Could not open repository at "<path>"` and rethrows the library's own error; the model returns that message as the error, because the library's error is not part of this model.
- GitSession.Session.OpenRepository: with an empty remote list, the source looks up `undefined`. The model takes that lookup to find no remote.
- Decisions.SheetResultMenu and Decisions.ProcessSheetExternal require every processed row to carry a string reference (`AllHaveRefs`). `Decisions.ProcessedRowsHaveRefs` proves that processing guarantees this.
- The listing step of `findSheetExternal` (the Drive listing and picking by name) is a function parameter. Only the retry-once logic is modelled.
- The local-branch review flows (reviewGoneBranches), the main menu, argument parsing and the entry point are outside the modelled core.

## Findings

| source | as written | input that shows it | evidently intended | confidence | as-written member | corrected member |
|---|---|---|---|---|---|---|
| src/sheets/processSheet.js:85 | the DELETE entry, the whole hidden `name:sha` value, is looked up among the remote branch names, which never contain `:sha` | a DELETE row with hidden `refs/remotes/origin/feature:abc123` and a remote branch `refs/remotes/origin/feature`: nothing is deleted | look up the name part before ':', as src/flows/sheetResultMenu.js:73-74 does, and delete that branch | not executed | ProcessSheet.AsWrittenDeletesNothing | ProcessSheet.SplitLookupDeletesEveryEntry |

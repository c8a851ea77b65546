# reviewsync patch resolution, in Dafny

A model of the core of hadoop-reviewsync, a Python 2 tool. For every Jira
issue it has to review, the tool:

1. reads the issue's attachment names and keeps those that look like patches
   (`YARN-9213.003.patch`, `YARN-9213.branch-3.2.004.patch`);
2. keeps the newest patch per target branch;
3. stands the trunk patch in for every requested branch that has no patch of
   its own and is not yet committed;
4. applies each patch to its branches (git is an input here);
5. summarises the results per issue as an overall status, prints them as a
   table and writes the update date and status back to a Google sheet.

The model follows the program's own modules, one Dafny module per file. Two
Python files are split in two: `jira_wrapper.py` into `FilenameParser` (the
file name parser) and `JiraWrapper`, and `patch_apply.py` into `Applicability`
and `PatchApply`.

| Dafny file | Python source | form |
|---|---|---|
| `wrappers.dfy` | (none) | `Option`, `Result` and the Python exceptions raised (`ValueError`, `KeyError`, `TypeError`, `AttributeError`) |
| `py_text.dfy` | (none) | Python 2 string behaviour the code relies on: ASCII `\w`/`\d`, `lstrip` whitespace, `str` ordering, `join`, `index`, `remove`, `str(int)` |
| `filename_parser.dfy` | `reviewsync/jira_wrapper.py` 172-234 | functions and lemmas |
| `jira_wrapper.dfy` | `reviewsync/jira_wrapper.py` 85-160 | methods with loops, proved against functions |
| `attachment_utils.dfy` | `reviewsync/attachment_utils.py` | methods with loops, proved against a functional stable sort |
| `jira_patch.dfy` | `reviewsync/jira_patch.py` | classes whose methods update fields |
| `applicability.dfy`, `patch_apply.dfy` | `reviewsync/patch_apply.py` | datatypes with validating constructor functions |
| `git_utils.dfy` | `reviewsync/git_utils.py` | functions |
| `reviewsync.dfy` | `reviewsync/reviewsync.py` | methods with loops, proved against functions |
| `gsheet_wrapper.dfy` | `reviewsync/gsheet_wrapper.py` | classes whose methods update fields |

Modelling choices:

- **Regular expressions.** The three patterns are not run by a regex engine.
  - Each match is a predicate over index positions of the file name (`SeparatorMatch`, `DefaultMatch`, `BranchMatch`).
  - A search function returns the match `re.search` reports: the leftmost start, and among matches at that start the one backtracking finds first, so the greedy groups are as long as possible.
  - Lemmas prove that each search finds exactly that match.
- **Specification functions.** A function that only computes a value (`SearchDefault`, `Latest`, `LatestPerBranch`, `Collect`, `WritesFor`, …) is specified by the lemmas about it, and the table below names those lemmas.
- **Exceptions** are `Failure` values. Where the code logs and returns `None`, the model returns `Success(None)`.
- **Dictionary iteration.** Python 2 dictionaries iterate in an unspecified order, so loops over them take an arbitrary key (`:|`). Their contracts hold for every order.
- **Versions are compared as strings.** The code compares the captured digit strings, not numbers, so "latest" is the greatest version under Python's `str` order (`"10" < "9"`).
- **Patch identity.** `JiraPatch` is a class, and equality (`__eq__`) is its own predicate, `Equals`. Owners are compared as objects, because `PatchOwner` has no `__eq__`.
- **Missing attributes.** An attribute that exists only after some code has run is an `Option` field, and reading it while `None` is an `AttributeError`. This covers:
  - `options.do_update_date` and `options.do_update_status`, which are set only when their column name is truthy;
  - `self.sheet` before `fetch`;
  - `file_path`.
- **The sheet** is a header row plus a list of records, each a map from column name to text. A cell is a (row, column) pair counted from 1. A write is a `CellWrite` value returned by the update, not a call into the sheet service.
- **Branch-name conversion.** `convert_remote_branch_name_to_local` returns the one-element list from `rsplit` when the name has no "/". The model keeps this as the `UnsplitList` case. `NewPatchApply` then raises `TypeError`, as Python does for a list used as a dictionary key.

## Model

| member | source | states |
|---|---|---|
| Applicability.NewPatchApplicability | reviewsync/patch_apply.py:42-48 | fails with ValueError exactly when not applicable and the reason is falsy; otherwise keeps the three arguments, and the entry is valid (applicable or with a reason) |
| Applicability.ApplicableDefaults | reviewsync/patch_apply.py:43-46 | `PatchApplicability(True)` is explicit with no reason |
| PatchApply.NewPatchApply | reviewsync/patch_apply.py:5-21 | a name without "/" raises TypeError, and a local name with no applicability entry raises KeyError; otherwise success iff the result is one of the three statuses and, unless CONFLICT, there are no conflicts and no conflict details; on success `explicit` is the patch's entry for the local name and the other fields are the arguments |
| GitUtils.LStrip | reviewsync/git_utils.py:7 | the result is a suffix of the input; only whitespace was removed, and the result does not start with whitespace |
| GitUtils.RSplitOnce | reviewsync/git_utils.py:9 | one part (the input) iff the separator does not occur; otherwise two parts joined by the separator give the input, and the second part has no separator |
| GitUtils.ConvertRemoteBranchNameToLocal | reviewsync/git_utils.py:6-15 | a name iff the stripped input contains "/"; that name follows some "/" and contains none; otherwise the one-element list holding the stripped input |
| GitUtils.RemotePrefixDropped | reviewsync/git_utils.py:9-12 | "remote/name" converts to "name" when the name has no "/" |
| GitUtils.LStripPrefix | reviewsync/git_utils.py:7 | leading whitespace is all that lstrip removes, and trailing text stays |
| GitUtils.LocalBranchNameIsList | reviewsync/git_utils.py:13-15 | a name without "/" comes back as a one-element list, not as the name |
| PyText.StrLessIrreflexive | reviewsync/attachment_utils.py:7 | no version sorts before itself |
| PyText.StrLessTransitive | reviewsync/attachment_utils.py:7 | string order is transitive |
| PyText.StrLessTotal | reviewsync/attachment_utils.py:7 | any two different versions are ordered |
| PyText.StrLessAsymmetric | reviewsync/attachment_utils.py:7 | string order is asymmetric |
| PyText.StrNotLessTransitive | reviewsync/attachment_utils.py:7 | "not smaller than" is transitive |
| PyText.Join | reviewsync/reviewsync.py:128 | joining no parts gives ""; otherwise the result starts with the first part |
| PyText.IndexOf | reviewsync/gsheet_wrapper.py:133 | -1 iff absent; otherwise the index of the first occurrence |
| PyText.RemoveFirst | reviewsync/reviewsync.py:60 | unchanged when absent; otherwise exactly the first occurrence is removed |
| PyText.RemoveFirstMultiset | reviewsync/reviewsync.py:60 | `remove` takes away one occurrence and nothing else |
| PyText.NatToDecimal | reviewsync/reviewsync.py:296 | `str(n)` is a non-empty string of digits |
| PyText.NatToDecimalRoundTrip | reviewsync/reviewsync.py:296 | reading back `str(n)` gives n, and there is no leading zero except for 0 |
| PyText.IntToDecimalSign | reviewsync/reviewsync.py:296 | `str(n)` starts with "-" iff n is negative |
| PyText.IntToDecimalInjective | reviewsync/reviewsync.py:296 | different integers print differently |
| JiraPatches.PatchOwner.constructor | reviewsync/jira_patch.py:72-75 | stores the name and display name |
| JiraPatches.JiraPatch.constructor | reviewsync/jira_patch.py:9-19 | target branches `[target]`, applicability map with only `target`, overall status "N/A", owner names copied from the owner, no file path; the patch is valid |
| JiraPatches.JiraPatch.GetApplicability | reviewsync/jira_patch.py:21-22 | the stored entry, or KeyError for a branch without one |
| JiraPatches.JiraPatch.SetPatchFilePath | reviewsync/jira_patch.py:24-25 | sets the file path; the frame allows no other field to change |
| JiraPatches.JiraPatch.SetOverallStatus | reviewsync/jira_patch.py:27-28 | sets the overall status; the frame allows no other field to change |
| JiraPatches.JiraPatch.AddAdditionalBranch | reviewsync/jira_patch.py:30-32 | appends the branch and sets its entry; every other branch keeps its applicability; the patch stays valid |
| JiraPatches.JiraPatch.IsApplicableForBranch | reviewsync/jira_patch.py:34-37 | true only for a branch with an entry |
| JiraPatches.JiraPatch.GetReasonForNonApplicability | reviewsync/jira_patch.py:39-42 | the stored reason, or "Unknown" for a branch without an entry |
| JiraPatches.JiraPatch.HashKey | reviewsync/jira_patch.py:60-61 | the hashed tuple: issue id, owner, file name, branch list |
| JiraPatches.IsApplicableIffSomeTargetBranch | reviewsync/jira_patch.py:44-47 | `IsApplicable` iff some target branch is applicable |
| JiraPatches.EqualsIffSameHashKey | reviewsync/jira_patch.py:60-69 | `Equals` iff same hashed tuple: version and applicability are ignored |
| JiraPatches.EqualsIsEquivalence | reviewsync/jira_patch.py:63-69 | `__eq__` is reflexive, symmetric and transitive |
| AttachmentUtils.InsertIsPermutation | reviewsync/attachment_utils.py:7 | inserting adds exactly one element |
| AttachmentUtils.InsertKeepsSorted | reviewsync/attachment_utils.py:7 | inserting into a list sorted newest first keeps it sorted |
| AttachmentUtils.SortByVersionDescIsSortedPermutation | reviewsync/attachment_utils.py:6-7 | `SortByVersionDesc` returns a permutation of the input, newest version first |
| AttachmentUtils.LatestIsEarliestNewest | reviewsync/attachment_utils.py:7-14 | `Latest` is in the list, with a version no smaller than any other, and the first listed among equals (stable sort with `reverse=True`) |
| AttachmentUtils.SortEachBranch | reviewsync/attachment_utils.py:6-7 | same keys; every list replaced by its sorted version |
| AttachmentUtils.HeadPerBranch | reviewsync/attachment_utils.py:9-16 | ValueError iff some list is empty; otherwise the same keys, each mapped to the head of its list |
| AttachmentUtils.GetLatestPatchesPerBranch | reviewsync/attachment_utils.py:4-16 | lists sorted in place; ValueError iff some list is empty; otherwise the same keys, each mapped to its latest patch |
| FilenameParser.ExtensionStartSpec | reviewsync/jira_wrapper.py:178-179 | `\.patch$` matches at most one place, before the end or a final newline, and that place is found |
| FilenameParser.SearchSeparatorSpec | reviewsync/jira_wrapper.py:231 | `SearchSeparator` reports no match iff `\w+-\d+(.)` matches nowhere; otherwise the leftmost match, with the longest issue key |
| FilenameParser.GetSeparatorCharSpec | reviewsync/jira_wrapper.py:230-234 | `GetSeparatorChar` is None iff no `WORD-DIGITS` is followed by a character; otherwise the character right after the preferred occurrence |
| FilenameParser.SearchDefaultSpec | reviewsync/jira_wrapper.py:178-179 | `SearchDefault` reports no match iff the trunk pattern matches nowhere; otherwise a match, leftmost and with the longest issue group |
| FilenameParser.SearchBranchSpec | reviewsync/jira_wrapper.py:210-212 | `SearchBranch` reports no match iff the branch pattern matches nowhere; otherwise a match, leftmost with the longest issue group and then the longest branch group |
| FilenameParser.CommittedApplicability | reviewsync/jira_wrapper.py:194-197 | applicable iff the branch is not committed; otherwise the reason is "Patch already committed on BRANCH"; always explicit |
| FilenameParser.FromDefaultSpan | reviewsync/jira_wrapper.py:183-198 | ValueError iff the issue group differs from the issue id; otherwise a patch for the default branch |
| FilenameParser.FromBranchSpan | reviewsync/jira_wrapper.py:213-225 | a patch for the name's branch group, made of branch-name characters, with an issue key as id, a digit string as version, the file name, and its branch's commit-state applicability; the issue group is not checked against the issue id |
| FilenameParser.ParseWithSeparator | reviewsync/jira_wrapper.py:178-228 | None iff neither the trunk pattern nor the branch pattern matches anywhere; raises only with ValueError, and only when the trunk pattern matched; a trunk match that does not raise gives a patch for the default branch |
| FilenameParser.ParsePatchFilename | reviewsync/jira_wrapper.py:172-234 | None when there is no separator; a failure is a ValueError, and only after a trunk-pattern match |
| FilenameParser.ParseSkipsIffNoMatch | reviewsync/jira_wrapper.py:172-234 | a file name is skipped without error iff it has no separator or neither pattern matches with its separator |
| FilenameParser.ParsedPatchIsWellFormed | reviewsync/jira_wrapper.py:172-228 | every parsed patch has an issue key as id, a digit string as version, the file name, and the applicability its branch's commit state gives |
| FilenameParser.SeparatorAfterLeadingKey | reviewsync/jira_wrapper.py:230-234 | a name starting with `WORD-DIGITS` and a non-digit has that character as separator |
| FilenameParser.DefaultFromStart | reviewsync/jira_wrapper.py:178-179 | a trunk-pattern match from the start is the one reported |
| FilenameParser.BranchFromStart | reviewsync/jira_wrapper.py:210-212 | a branch-pattern match from the start is the one reported |
| FilenameParser.ParseByDefaultSpan | reviewsync/jira_wrapper.py:183-198 | once the trunk match is known, it decides the parse |
| FilenameParser.ParseByBranchSpan | reviewsync/jira_wrapper.py:210-225 | with no trunk match, the branch match decides the parse |
| FilenameParser.LeadingDefaultParses | reviewsync/jira_wrapper.py:178-198 | a trunk-form name parses to its groups when the key is the issue id, and raises otherwise |
| FilenameParser.LeadingBranchParses | reviewsync/jira_wrapper.py:210-225 | a branch-form name with no trunk match parses to its issue, branch and version groups |
| FilenameParser.DefaultFormParses | reviewsync/jira_wrapper.py:178-198 | "KEY SEP VERSION.patch" gives a default-branch patch with that version when KEY is the issue id, and ValueError otherwise |
| FilenameParser.NoDefaultMatchInBranchForm | reviewsync/jira_wrapper.py:178-183 | a branch name without a trailing "-DIGITS" leaves the trunk pattern without a match |
| FilenameParser.BranchFormParses | reviewsync/jira_wrapper.py:201-225 | "KEY SEP BRANCH SEP VERSION.patch" gives a patch for BRANCH, whatever the issue id (no id check on this path) |
| FilenameParser.BranchShapedLikeKeyRaises | reviewsync/jira_wrapper.py:178-192 | a branch shaped like an issue key ("branch-2") is taken as the trunk pattern's issue group, so the name raises ValueError |
| JiraWrapper.CreateJiraPatchObj | reviewsync/jira_wrapper.py:172-228 | the parse's error or None, or a new patch built from the parse result |
| JiraWrapper.ParseEachFailsIff | reviewsync/jira_wrapper.py:97-98 | the list raises iff some name raises, with that name's error |
| JiraWrapper.ParseEachFrom | reviewsync/jira_wrapper.py:97-98 | every kept patch comes from one of the names |
| JiraWrapper.ParseEachFirstFailure | reviewsync/jira_wrapper.py:97 | the first name that raises decides the outcome (eager `map`) |
| JiraWrapper.ParseAllFailsIffSomeNameFails | reviewsync/jira_wrapper.py:97-98 | `ParseAll` raises iff one name does, and then with ValueError |
| JiraWrapper.ParseAllWellFormed | reviewsync/jira_wrapper.py:97-98 | every kept patch is well formed and names one of the attachments |
| JiraWrapper.CreatePatches | reviewsync/jira_wrapper.py:97-98 | the parse list's error, or one new, distinct patch per parsed name, in order |
| JiraWrapper.OwnerNames | reviewsync/jira_wrapper.py:88-93 | the assignee's name and display name; "unassigned" for both without an assignee |
| JiraWrapper.CreateOwnedPatches | reviewsync/jira_wrapper.py:88-98 | the parse list's error, or one new, distinct patch per parsed name, with its issue, version and file name, owned by `OwnerNames`, valid, and targeting only its own branch with its parsed applicability |
| JiraWrapper.GroupOfMembers | reviewsync/jira_wrapper.py:109-112 | a patch is in `GroupOf` a branch iff its first target branch is that branch |
| JiraWrapper.GroupOfAppend | reviewsync/jira_wrapper.py:110-112 | one more patch is appended to its own group only |
| JiraWrapper.GroupKeys | reviewsync/jira_wrapper.py:109-112 | the group keys are exactly the patches' branches |
| JiraWrapper.GroupByBranch | reviewsync/jira_wrapper.py:102-112 | ValueError iff some patch does not have exactly one branch; otherwise the keys are the patches' branches, and each maps to its non-empty group in list order |
| JiraWrapper.GroupAtMembers | reviewsync/jira_wrapper.py:109-112 | every member of a branch's group sits at a position of that branch |
| JiraWrapper.GroupOfIsGroupAt | reviewsync/jira_wrapper.py:109-112 | with one branch per patch, grouping by the patches' branch lists is grouping by the list of parsed branches |
| JiraWrapper.GroupKeysAreBranches | reviewsync/jira_wrapper.py:109-112 | the grouping's keys are exactly the patches' branches |
| JiraWrapper.GroupsAreGroupAt | reviewsync/jira_wrapper.py:102-112 | each group the grouping builds is that branch's `GroupAt` |
| JiraWrapper.LatestPerBranchFrom | reviewsync/jira_wrapper.py:116-117 | `LatestPerBranch` maps a branch to one of that branch's patches, the first listed among those with the greatest version |
| JiraWrapper.LatestPerBranchIs | reviewsync/jira_wrapper.py:116-117 | the latest patches that grouping and sorting compute are `LatestPerBranch` |
| JiraWrapper.LatestPatchesOf | reviewsync/jira_wrapper.py:101-117 | exactly `LatestPerBranch` of the patches and their parsed branches; each branch maps to a valid patch of the list that targets it first |
| JiraWrapper.BranchesToExtendSpec | reviewsync/jira_wrapper.py:141-148 | `BranchesToExtend` picks a branch iff it is requested, not committed and has no patch of its own; none twice |
| JiraWrapper.ExtendAddsBranch | reviewsync/jira_wrapper.py:145-148 | a requested, uncommitted branch without an entry is added with the trunk patch and a non-explicit applicable entry |
| JiraWrapper.ExtendSkipsBranch | reviewsync/jira_wrapper.py:141-145 | a committed branch, or one that already has a patch, is not added: explicit wins |
| JiraWrapper.ExtendDefaultPatch | reviewsync/jira_wrapper.py:127-148 | the trunk patch gains exactly those branches, in request order, each applicable and non-explicit; the map keeps every existing entry and maps each added branch to the trunk patch |
| JiraWrapper.DedupPatches | reviewsync/jira_wrapper.py:154-158 | every patch of the map has an equal one in the result; the result holds only patches of the map, no two equal |
| JiraWrapper.ExtendAndDedup | reviewsync/jira_wrapper.py:127-158 | the trunk patch gains exactly the `BranchesToExtend` branches, each applicable and non-explicit, and stays valid; the result holds every patch of the map and nothing else, valid and no two equal, covering trunk and every requested uncommitted branch |
| JiraWrapper.ExtendedValuesSeparate | reviewsync/jira_wrapper.py:145-158 | after the extension, no two different patches of the map are equal under `__eq__` |
| JiraWrapper.DedupKeepsAll | reviewsync/jira_wrapper.py:154-158 | when no two different patches of the map are equal, deduplication keeps every one of them |
| JiraWrapper.RequestedBranchesCovered | reviewsync/jira_wrapper.py:141-148 | every requested uncommitted branch ends up with a patch |
| JiraWrapper.ExtendedWellFormed | reviewsync/jira_wrapper.py:145-148 | after the extension every patch targets its own branch and stays valid |
| JiraWrapper.DedupKeepsValid | reviewsync/jira_wrapper.py:154-158 | deduplication keeps only valid patches of the map |
| JiraWrapper.DedupKeepsBranches | reviewsync/jira_wrapper.py:154-158 | deduplication loses no branch |
| JiraWrapper.GetPatchesPerBranch | reviewsync/jira_wrapper.py:85-160 | the first attachment error; otherwise empty iff no name parsed to the default branch; one new, distinct patch per parsed name with its issue, version, file name and owner; every patch resolved as `AllResolved` says (the latest trunk patch targets trunk and then the `BranchesToExtend` branches, applicable and non-explicit; every other patch keeps its one branch and applicability); the result is exactly the latest patches per branch, valid, no two equal, covering trunk and every requested uncommitted branch |
| JiraWrapper.PatchesPerBranchOf | reviewsync/jira_wrapper.py:100-160 | empty iff no parsed patch targets the default branch; otherwise exactly the `LatestPerBranch` patches, valid and pairwise unequal, covering trunk and every requested uncommitted branch; every input patch ends valid and resolved as `AllResolved` says |
| JiraWrapper.LatestPerBranchWellFormed | reviewsync/jira_wrapper.py:116-117 | the latest patch of each branch is one of the patches, valid, and targets that branch |
| JiraWrapper.BranchKeysAreParsedBranches | reviewsync/jira_wrapper.py:116-125 | the branches with a latest patch are exactly the parsed branches |
| ReviewSync.BranchesForOrder | reviewsync/reviewsync.py:56-62 | `BranchesFor` puts trunk first; with no branches requested only trunk; otherwise the requested branches in order, without the first "trunk" |
| ReviewSync.BranchesForMultiset | reviewsync/reviewsync.py:56-62 | the branch list is the requested branches minus one "trunk", plus trunk |
| ReviewSync.GetBranches | reviewsync/reviewsync.py:56-62 | returns that list and removes the first "trunk" from the arguments in place |
| ReviewSync.StatusLabel | reviewsync/reviewsync.py:132-138 | CONFLICT, COMMITTED, OK for the three statuses; N/A otherwise |
| ReviewSync.TranslatePatchApplyStatusToStr | reviewsync/reviewsync.py:131-140 | "BRANCH: LABEL" |
| ReviewSync.TranslationIsInjective | reviewsync/reviewsync.py:131-140 | two valid applies read the same iff same branch and same result |
| ReviewSync.Translations | reviewsync/reviewsync.py:123-126 | one translation per apply, in order |
| ReviewSync.ResultSetIsCommittedIff | reviewsync/reviewsync.py:118-119 | the result set is {PATCH_ALREADY_COMMITTED} iff there are results and all are that |
| ReviewSync.JoinedTranslationsAreNotAllCommitted | reviewsync/reviewsync.py:123-128 | the joined status never reads "ALL COMMITTED" |
| ReviewSync.OverallStatusAllCommittedIff | reviewsync/reviewsync.py:116-128 | `OverallStatusFor` reads "ALL COMMITTED" iff the issue has results and every one is already committed |
| ReviewSync.SetOverallStatusForPatches | reviewsync/reviewsync.py:143-147 | every patch of the applies gets the status; branches, applicability and path unchanged |
| ReviewSync.AddRunsAppend | reviewsync/reviewsync.py:105-109 | adding two lists of runs in turn is adding their concatenation |
| ReviewSync.CollectIsAddRuns | reviewsync/reviewsync.py:92-109 | the collected results are all runs of issues with a non-empty id, added in order |
| ReviewSync.AddAppliesKeys | reviewsync/reviewsync.py:107-109 | the dictionary stays ordered without repeats; the old order stays in front; the issue becomes a key |
| ReviewSync.AddRunsKeys | reviewsync/reviewsync.py:105-109 | the same for many runs: the keys are the old ones plus the runs' issues |
| ReviewSync.AddRunsApplies | reviewsync/reviewsync.py:107-109 | under each issue, the runs' results follow what was there, in run order |
| ReviewSync.CollectSpec | reviewsync/reviewsync.py:92-109 | `Collect` lists each issue of some patch once, in first-appearance order, with its patches' results in order; results are about own patches |
| ReviewSync.AppliesForOwn | reviewsync/reviewsync.py:105-109 | results gathered for an issue are about patches of that issue |
| ReviewSync.CollectResults | reviewsync/reviewsync.py:92-109 | the loop computes exactly the collected results |
| ReviewSync.OtherIssuesOtherPatches | reviewsync/reviewsync.py:143-147 | patches under other issues are not patches under this one |
| ReviewSync.SetOverallStatusForResults | reviewsync/reviewsync.py:116-128 | every patch of every issue gets its issue's overall status; nothing else changes |
| ReviewSync.SetOverallStatusForIssue | reviewsync/reviewsync.py:116-128 | one issue's patches get its overall status; the issues already handled keep theirs, and no other field of any patch changes |
| ReviewSync.Sync | reviewsync/reviewsync.py:92-113 | returns the collected results, with every result patch's overall status set; only the patches in the results may change, and their branch lists, applicability and file path stay as they were |
| ReviewSync.ResultPatchesAreRunPatches | reviewsync/reviewsync.py:105-111 | the patches in the results are downloaded patches |
| ReviewSync.EntriesSound | reviewsync/reviewsync.py:291-292 | every row `Entries` lists is a listed issue's result at its index |
| ReviewSync.EntriesComplete | reviewsync/reviewsync.py:291-292 | every result of every listed issue has a row |
| ReviewSync.ConflictsCell | reviewsync/reviewsync.py:296 | "N/A" iff there are no conflicts |
| ReviewSync.ConflictsCellReadsBack | reviewsync/reviewsync.py:296 | a non-zero count is written as its decimal digits, after a "-" when it is negative, and those digits read back as the count |
| ReviewSync.ConflictsCellInjective | reviewsync/reviewsync.py:296 | the conflicts cell tells conflict counts apart |
| ReviewSync.RowFor | reviewsync/reviewsync.py:293-298 | the ten cells in header order: row number, issue, 1-based index, owner display name, file name, branch, "Yes"/"No" for explicit, result, the conflicts cell ("N/A" iff no conflicts), overall status |
| ReviewSync.ConvertDataForResultPrinter | reviewsync/reviewsync.py:287-300 | the ten headers; one row per result in dictionary order, numbered from 1 |
| ReviewSync.AppendRows | reviewsync/reviewsync.py:292-298 | appends one row per apply result of an issue, numbered on from the rows already there, leaving those rows unchanged |
| ReviewSync.CallsSound | reviewsync/reviewsync.py:281-284 | each update is for a listed issue with results, with its first result's patch |
| ReviewSync.CallsComplete | reviewsync/reviewsync.py:281-284 | every listed issue with results is updated |
| ReviewSync.CallsSpec | reviewsync/reviewsync.py:281-284 | every update in `Calls` is for a listed issue with results, with its first result's patch, and every such issue has an update |
| ReviewSync.NoneFailsIff | reviewsync/reviewsync.py:281-284 | the updates all succeed iff no single one raises |
| ReviewSync.FailingIssueFailsAll | reviewsync/reviewsync.py:281-284 | an issue with results whose update raises makes the whole run raise |
| ReviewSync.UpdateGsheet | reviewsync/reviewsync.py:278-284 | AttributeError iff some update raises; otherwise all writes, with each patch's overall status, in order |
| GSheet.GSheetOptions.constructor | reviewsync/gsheet_wrapper.py:14-25 | stores the options; each update flag exists (as true) only when its column name is truthy, and is otherwise missing |
| GSheet.FindColumnIdxInHeader | reviewsync/gsheet_wrapper.py:128-140 | -1 iff absent, else the first index of the column name |
| GSheet.JiraColumnValues | reviewsync/gsheet_wrapper.py:108-110 | the Jira column of every record, in row order |
| GSheet.CellUpdatesKeys | reviewsync/gsheet_wrapper.py:108-120 | `CellUpdates` has an entry for an issue iff some column is updated and some record lists it |
| GSheet.CellUpdatesLastRowWins | reviewsync/gsheet_wrapper.py:104-120 | the entry comes from the issue's last record: row idx+2, column index+1 |
| GSheet.WritesForContents | reviewsync/gsheet_wrapper.py:151-157 | `WritesFor` writes the date cell with the date iff the date flag is on, the status cell with the status iff the status flag is on, and nothing else |
| GSheet.UpdateOutcome | reviewsync/gsheet_wrapper.py:142-157 | AttributeError before any fetch; an issue without stored cells writes nothing; a missing update flag raises AttributeError; otherwise the writes `WritesFor` lists for the issue's cells |
| GSheet.GSheetWrapper.constructor | reviewsync/gsheet_wrapper.py:56-68 | empty cell map, no sheet |
| GSheet.GSheetWrapper.New | reviewsync/gsheet_wrapper.py:56-68 | ValueError iff the client secret is empty |
| GSheet.GSheetWrapper.Fetch | reviewsync/gsheet_wrapper.py:70-126 | a flag is turned off when its column is not in the header; ValueError when the first record lacks the Jira column, AttributeError for a missing flag; on success the Jira values in row order, the sheet stored and the cell map extended with each issue's last-row cells; on failure the sheet is unchanged |
| GSheet.GSheetWrapper.StoreRowCells | reviewsync/gsheet_wrapper.py:100-121 | the records' issues in order, and the cell map plus the records' cell entries; AttributeError for an unset flag |
| GSheet.GSheetWrapper.UpdateIssueWithResults | reviewsync/gsheet_wrapper.py:142-157 | exactly the outcome `UpdateOutcome` defines for the client's state |

## Left out

- Network and process plumbing are not modelled:
  - Jira access (`_get_jira_issue`, `list_attachments`, downloads, status queries);
  - git (`git_wrapper.py`: clone, fetch, apply, committed branches);
  - the gspread calls (authorisation, `open`/`worksheet`, `get_all_records`, `update_acell`, `rowcol_to_a1`);
  - argument parsing, logging, directories, `tabulate` printing, and clocks.
- Each of these enters as an input:
  - the issue's assignee and attachment names;
  - the committed-branch set;
  - the apply results per downloaded patch (`IssueDownload`);
  - the worksheet's header and records;
  - the date string.
- `string_utils.py` is not part of this model. It only matters for printing an owner's display name, which uses Unicode normalisation.
- `main.py` is not part of this model. It is an obsolete entry point.
- Error messages are kept where they are short constants. The `ValueError` of `fetch`'s Jira column check carries a fixed text instead of the formatted one with the first row, and the grouping error names only the patch file.
- The spreadsheet-not-found and worksheet-not-found `ValueError`s of `fetch` come from gspread and are not modelled.
- The `isinstance` check of the `GSheetWrapper` constructor is not modelled, since the options parameter is always a `GSheetOptions` here.
- The unreachable `ValueError` of `create_jira_patch_obj` (line 200) is not modelled: the trunk pattern always has two groups.
- Records hold text only; a number in a sheet cell arrives as a string.
- JiraWrapper.DedupPatches: states which patches the result holds, not their order, since a Python set's order is unspecified.
- GSheet.GSheetWrapper.StoreRowCells: on a failure, the partially updated cell map is not stated.
- GSheet.GSheetWrapper.Fetch: on a failure, the partially updated cell map is not stated.
- ReviewSync.UpdateGsheet: returns the cells written instead of writing them. On an error, it does not report the writes made before the failing update.
- ReviewSync.SetOverallStatusForResults: requires every result under an issue to be about a patch of that issue, as `Sync` guarantees. With a patch shared between issues, the source would leave it with the last issue's status.
- ReviewSync.Sync: requires each downloaded patch's apply results to be about that patch, as applying a patch reports.

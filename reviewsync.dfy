/**
  The reporting side of `ReviewSync` in reviewsync/reviewsync.py: the branch
  list, the collection of apply results per issue, the overall status of an
  issue, the rows of the results table and the issues written back to the
  sheet. Downloading, git and the sheet service are inputs.
*/
module ReviewSync {
  import opened Wrappers
  import opened PyText
  import opened JiraPatches
  import opened PatchApply
  import opened GSheet

  const DEFAULT_BRANCH: string := "trunk"

  /** The parsed command line, as far as the branch list goes; None when `--branches` was not given. */
  class Args {
    var branches: Option<seq<string>>

    constructor (branches: Option<seq<string>>)
      ensures this.branches == branches
    {
      this.branches := branches;
    }
  }

  /** The branches to sync: trunk first, then the requested ones without their first "trunk". */
  function BranchesFor(requested: Option<seq<string>>): (r: seq<string>)
  {
    if requested.Some? && |requested.value| > 0 then [DEFAULT_BRANCH] + RemoveFirst(requested.value, DEFAULT_BRANCH)
    else [DEFAULT_BRANCH]
  }

  /** `args.branches` once `get_branches` has removed "trunk" from it in place. */
  function RequestedAfter(requested: Option<seq<string>>): Option<seq<string>>
  {
    if requested.Some? && |requested.value| > 0 then Some(RemoveFirst(requested.value, DEFAULT_BRANCH)) else requested
  }

  /**
    Trunk comes first, and the requested branches follow in their order with
    only the first "trunk" among them left out. With nothing requested only
    trunk is synced.
  */
  lemma BranchesForOrder(requested: Option<seq<string>>)
    ensures var r := BranchesFor(requested);
            && |r| >= 1 && r[0] == DEFAULT_BRANCH
            && (requested.None? || requested.value == [] ==> r == [DEFAULT_BRANCH])
            && (requested.Some? && DEFAULT_BRANCH !in requested.value ==> r[1..] == requested.value)
            && (requested.Some? && DEFAULT_BRANCH in requested.value ==>
                  exists i | 0 <= i < |requested.value| ::
                    && requested.value[i] == DEFAULT_BRANCH && DEFAULT_BRANCH !in requested.value[..i]
                    && r[1..] == requested.value[..i] + requested.value[i + 1..])
  {
    var r := BranchesFor(requested);
    if requested.Some? && |requested.value| > 0 {
      assert r[1..] == RemoveFirst(requested.value, DEFAULT_BRANCH);
    }
  }

  /** The branch list holds the requested branches and trunk, trunk counted once for all requests of it but the later ones. */
  lemma BranchesForMultiset(requested: Option<seq<string>>)
    requires requested.Some?
    ensures multiset(BranchesFor(requested))
            == multiset(requested.value) - multiset{DEFAULT_BRANCH} + multiset{DEFAULT_BRANCH}
  {
    var req := requested.value;
    if |req| > 0 {
      RemoveFirstMultiset(req, DEFAULT_BRANCH);
      assert BranchesFor(requested) == [DEFAULT_BRANCH] + RemoveFirst(req, DEFAULT_BRANCH);
    }
  }

  /** `get_branches`: the branch list; the requested list loses its first "trunk" in place. */
  method GetBranches(args: Args) returns (branches: seq<string>)
    modifies args
    ensures branches == BranchesFor(old(args.branches))
    ensures args.branches == RequestedAfter(old(args.branches))
  {
    branches := [DEFAULT_BRANCH];
    if args.branches.Some? && |args.branches.value| > 0 {
      if DEFAULT_BRANCH in args.branches.value {
        args.branches := Some(RemoveFirst(args.branches.value, DEFAULT_BRANCH));
      }
      branches := branches + args.branches.value;
    }
  }

  /** The word a table or sheet reader sees for one apply result. */
  function StatusLabel(result: string): (word: string)
    ensures result == CONFLICT ==> word == "CONFLICT"
    ensures result == PATCH_ALREADY_COMMITTED ==> word == "COMMITTED"
    ensures result == APPLIES_CLEANLY ==> word == "OK"
    ensures result !in ALLOWED_VALUES ==> word == "N/A"
  {
    if result == CONFLICT then "CONFLICT"
    else if result == PATCH_ALREADY_COMMITTED then "COMMITTED"
    else if result == APPLIES_CLEANLY then "OK"
    else "N/A"
  }

  /** `_translate_patch_apply_status_to_str`: "<branch>: <label>". */
  function TranslatePatchApplyStatusToStr(pa: PatchApply): (s: string)
    ensures |s| == |pa.branch| + 2 + |StatusLabel(pa.result)|
    ensures s[..|pa.branch|] == pa.branch && s[|pa.branch|..|pa.branch| + 2] == ": "
    ensures s[|pa.branch| + 2..] == StatusLabel(pa.result)
  {
    pa.branch + ": " + StatusLabel(pa.result)
  }

  /**
    For valid applies nothing is lost in translation: two applies read the
    same exactly when they are on the same branch with the same result, as
    the labels of the three statuses end in different letters.
  */
  lemma TranslationIsInjective(pa: PatchApply, qa: PatchApply)
    requires ValidApply(pa) && ValidApply(qa)
    ensures TranslatePatchApplyStatusToStr(pa) == TranslatePatchApplyStatusToStr(qa)
            <==> pa.branch == qa.branch && pa.result == qa.result
  {
    var s, t := TranslatePatchApplyStatusToStr(pa), TranslatePatchApplyStatusToStr(qa);
    if s == t {
      var lp, lq := StatusLabel(pa.result), StatusLabel(qa.result);
      assert s[|s| - 1] == lp[|lp| - 1] && t[|t| - 1] == lq[|lq| - 1];
      assert lp == lq;
      assert |pa.branch| == |qa.branch|;
      assert pa.branch == s[..|pa.branch|] && qa.branch == t[..|qa.branch|];
    }
  }

  /** The translated apply results of an issue, in list order. */
  function Translations(applies: seq<PatchApply>): (ts: seq<string>)
    ensures |ts| == |applies|
    ensures forall i | 0 <= i < |applies| :: ts[i] == TranslatePatchApplyStatusToStr(applies[i])
  {
    if applies == [] then [] else [TranslatePatchApplyStatusToStr(applies[0])] + Translations(applies[1..])
  }

  /**
    Lines 117-128 of `set_overall_status_for_results`, for one issue: "ALL
    COMMITTED" when the set of its results is exactly the committed status,
    otherwise the translated results joined by ", ".
  */
  function OverallStatusFor(applies: seq<PatchApply>): (s: PatchOverallStatus)
  {
    var statuses := set i | 0 <= i < |applies| :: applies[i].result;
    if statuses == {PATCH_ALREADY_COMMITTED} then PatchOverallStatus("ALL COMMITTED")
    else PatchOverallStatus(Join(", ", Translations(applies)))
  }

  /** The set of an issue's results is exactly {PATCH_ALREADY_COMMITTED} when there are results and all are that. */
  lemma ResultSetIsCommittedIff(applies: seq<PatchApply>)
    ensures (set i | 0 <= i < |applies| :: applies[i].result) == {PATCH_ALREADY_COMMITTED}
            <==> |applies| > 0 && forall i | 0 <= i < |applies| :: applies[i].result == PATCH_ALREADY_COMMITTED
  {
    var statuses := set i | 0 <= i < |applies| :: applies[i].result;
    if statuses == {PATCH_ALREADY_COMMITTED} {
      assert PATCH_ALREADY_COMMITTED in statuses;
      forall i | 0 <= i < |applies| ensures applies[i].result == PATCH_ALREADY_COMMITTED {
        assert applies[i].result in statuses;
      }
    }
    if |applies| > 0 && forall i | 0 <= i < |applies| :: applies[i].result == PATCH_ALREADY_COMMITTED {
      assert applies[0].result in statuses;
    }
  }

  /** Joined translations never read "ALL COMMITTED": the first one holds a colon, which that text lacks. */
  lemma JoinedTranslationsAreNotAllCommitted(applies: seq<PatchApply>)
    ensures Join(", ", Translations(applies)) != "ALL COMMITTED"
  {
    var ts := Translations(applies);
    var joined := Join(", ", ts);
    if ts != [] {
      var b := |applies[0].branch|;
      assert ts[0][b] == ':';
      assert joined[b] == ts[0][b];
      assert ':' in joined && ':' !in "ALL COMMITTED";
    }
  }

  /**
    An issue reads "ALL COMMITTED" exactly when it has apply results and every
    one of them found the patch already committed.
  */
  lemma OverallStatusAllCommittedIff(applies: seq<PatchApply>)
    ensures OverallStatusFor(applies).status == "ALL COMMITTED"
            <==> |applies| > 0 && forall i | 0 <= i < |applies| :: applies[i].result == PATCH_ALREADY_COMMITTED
  {
    ResultSetIsCommittedIff(applies);
    JoinedTranslationsAreNotAllCommitted(applies);
  }

  /**
    `_set_overall_status_for_patches`: every patch an apply of the issue refers
    to gets the status; nothing else of those patches changes.
  */
  method SetOverallStatusForPatches(applies: seq<PatchApply>, overallStatus: PatchOverallStatus)
    modifies set i | 0 <= i < |applies| :: applies[i].patch
    ensures forall i | 0 <= i < |applies| :: applies[i].patch.overallStatus == overallStatus
    ensures forall i | 0 <= i < |applies| ::
              && applies[i].patch.targetBranches == old(applies[i].patch.targetBranches)
              && applies[i].patch.applicability == old(applies[i].patch.applicability)
              && applies[i].patch.filePath == old(applies[i].patch.filePath)
  {
    var i := 0;
    while i < |applies|
      invariant 0 <= i <= |applies|
      invariant forall k | 0 <= k < i :: applies[k].patch.overallStatus == overallStatus
      invariant forall k | 0 <= k < |applies| ::
                  && applies[k].patch.targetBranches == old(applies[k].patch.targetBranches)
                  && applies[k].patch.applicability == old(applies[k].patch.applicability)
                  && applies[k].patch.filePath == old(applies[k].patch.filePath)
    {
      applies[i].patch.SetOverallStatus(overallStatus);
      i := i + 1;
    }
  }

  /**
    The `OrderedDict` of apply results: issue ids in insertion order, and the
    apply results of each.
  */
  datatype OrderedResults = OrderedResults(order: seq<string>, applies: map<string, seq<PatchApply>>)

  /** Every listed issue is a key. */
  predicate Listed(res: OrderedResults) {
    forall i | 0 <= i < |res.order| :: res.order[i] in res.applies
  }

  /** No issue listed twice, and the listed issues are exactly the keys. */
  predicate WellOrdered(res: OrderedResults) {
    && (forall i, j | 0 <= i < j < |res.order| :: res.order[i] != res.order[j])
    && (forall k | k in res.applies :: k in res.order)
    && Listed(res)
  }

  /** Every apply result listed under an issue is about a patch of that issue. */
  predicate OwnPatches(res: OrderedResults) {
    forall k, i | k in res.applies && 0 <= i < |res.applies[k]| :: res.applies[k][i].patch.issueId == k
  }

  /** One downloaded patch and the results of applying it to every branch. */
  datatype PatchRun = PatchRun(patch: JiraPatch, applies: seq<PatchApply>)

  /** One issue id of the input list and what downloading its patches gave. */
  datatype IssueDownload = IssueDownload(issueId: string, runs: seq<PatchRun>)

  /** Every apply of a run is about the run's own patch, as applying a patch reports. */
  predicate RunsAreOwn(runs: seq<PatchRun>) {
    forall j, i | 0 <= j < |runs| && 0 <= i < |runs[j].applies| :: runs[j].applies[i].patch == runs[j].patch
  }

  const NoResults: OrderedResults := OrderedResults([], map[])

  /** Lines 107-109 of `sync`: the results of one patch appended under its issue, a new issue going last. */
  function AddApplies(res: OrderedResults, issueId: string, applies: seq<PatchApply>): OrderedResults {
    if issueId in res.applies then OrderedResults(res.order, res.applies[issueId := res.applies[issueId] + applies])
    else OrderedResults(res.order + [issueId], res.applies[issueId := [] + applies])
  }

  /** The results of several patches, added in turn. */
  function AddRuns(res: OrderedResults, runs: seq<PatchRun>): OrderedResults {
    if runs == [] then res
    else
      var last := runs[|runs| - 1];
      AddApplies(AddRuns(res, runs[..|runs| - 1]), last.patch.issueId, last.applies)
  }

  /** Lines 92-109 of `sync`: issues with an empty id or without patches are skipped. */
  function Collect(downloads: seq<IssueDownload>): OrderedResults {
    if downloads == [] then NoResults
    else
      var prev := Collect(downloads[..|downloads| - 1]);
      var d := downloads[|downloads| - 1];
      if d.issueId == "" || |d.runs| == 0 then prev else AddRuns(prev, d.runs)
  }

  /** The patches of all issues with a non-empty id, in download order. */
  function AllRuns(downloads: seq<IssueDownload>): seq<PatchRun> {
    if downloads == [] then []
    else
      var d := downloads[|downloads| - 1];
      AllRuns(downloads[..|downloads| - 1]) + if d.issueId == "" then [] else d.runs
  }

  /** The apply results of the runs whose patch belongs to `issueId`, in run order. */
  function AppliesFor(runs: seq<PatchRun>, issueId: string): seq<PatchApply> {
    if runs == [] then []
    else
      var last := runs[|runs| - 1];
      AppliesFor(runs[..|runs| - 1], issueId) + if last.patch.issueId == issueId then last.applies else []
  }

  /** Adding the runs one list after the other is adding them all. */
  lemma {:induction false} AddRunsAppend(res: OrderedResults, a: seq<PatchRun>, b: seq<PatchRun>)
    ensures AddRuns(res, a + b) == AddRuns(AddRuns(res, a), b)
  {
    if b != [] {
      AddRunsAppend(res, a, b[..|b| - 1]);
      assert (a + b)[..|a + b| - 1] == a + b[..|b| - 1];
    } else {
      assert a + b == a;
    }
  }

  /** The collected results are the runs of all issues with a non-empty id, added in order. */
  lemma {:induction false} CollectIsAddRuns(downloads: seq<IssueDownload>)
    ensures Collect(downloads) == AddRuns(NoResults, AllRuns(downloads))
  {
    if downloads != [] {
      var init := downloads[..|downloads| - 1];
      var d := downloads[|downloads| - 1];
      CollectIsAddRuns(init);
      AddRunsAppend(NoResults, AllRuns(init), if d.issueId == "" then [] else d.runs);
    }
  }

  /** The issues the runs' patches belong to. */
  function IssuesOf(runs: seq<PatchRun>): set<string> {
    if runs == [] then {} else IssuesOf(runs[..|runs| - 1]) + {runs[|runs| - 1].patch.issueId}
  }

  /** An issue is among the runs' issues exactly when some run's patch is of it. */
  lemma {:induction false} IssuesOfSpec(runs: seq<PatchRun>, k: string)
    ensures k in IssuesOf(runs) <==> exists j | 0 <= j < |runs| :: runs[j].patch.issueId == k
  {
    if runs != [] {
      var init := runs[..|runs| - 1];
      IssuesOfSpec(init, k);
      if exists j | 0 <= j < |runs| :: runs[j].patch.issueId == k {
        var j :| 0 <= j < |runs| && runs[j].patch.issueId == k;
        if j < |init| {
          assert init[j].patch.issueId == k;
        }
      }
      if exists j | 0 <= j < |init| :: init[j].patch.issueId == k {
        var j :| 0 <= j < |init| && init[j].patch.issueId == k;
        assert runs[j].patch.issueId == k;
      }
    }
  }

  /**
    Adding runs keeps the dictionary well ordered, keeps the issues already
    there in front, and adds exactly the issues of the runs' patches.
  */
  lemma {:induction false} AddRunsKeys(res: OrderedResults, runs: seq<PatchRun>)
    requires WellOrdered(res)
    ensures var r := AddRuns(res, runs);
            && WellOrdered(r)
            && |r.order| >= |res.order| && r.order[..|res.order|] == res.order
            && forall k :: k in r.applies <==> k in res.applies || k in IssuesOf(runs)
  {
    if runs != [] {
      var init := runs[..|runs| - 1];
      var last := runs[|runs| - 1];
      AddRunsKeys(res, init);
      var prev := AddRuns(res, init);
      AddAppliesKeys(prev, last.patch.issueId, last.applies);
      var r := AddApplies(prev, last.patch.issueId, last.applies);
      assert AddRuns(res, runs) == r;
      PrefixOfPrefix(res.order, prev.order, r.order);
    }
  }

  /** A prefix of a prefix is a prefix. */
  lemma PrefixOfPrefix<T>(a: seq<T>, b: seq<T>, c: seq<T>)
    requires |a| <= |b| <= |c| && b[..|a|] == a && c[..|b|] == b
    ensures c[..|a|] == a
  {
    assert c[..|a|] == c[..|b|][..|a|];
  }

  /** Adding one patch's results keeps the dictionary well ordered, keeps its order as a prefix and adds the issue as a key. */
  lemma AddAppliesKeys(res: OrderedResults, issueId: string, applies: seq<PatchApply>)
    requires WellOrdered(res)
    ensures var r := AddApplies(res, issueId, applies);
            && WellOrdered(r)
            && |r.order| >= |res.order| && r.order[..|res.order|] == res.order
            && forall k :: k in r.applies <==> k in res.applies || k == issueId
  {
  }

  /** Under each issue the results of its runs follow what was there, in run order. */
  lemma {:induction false} AddRunsApplies(res: OrderedResults, runs: seq<PatchRun>, k: string)
    requires k in AddRuns(res, runs).applies
    ensures AddRuns(res, runs).applies[k] == (if k in res.applies then res.applies[k] else []) + AppliesFor(runs, k)
  {
    if runs != [] {
      var init := runs[..|runs| - 1];
      var last := runs[|runs| - 1];
      var prev := AddRuns(res, init);
      if k in prev.applies {
        AddRunsApplies(res, init, k);
      } else {
        AppliesForAbsent(init, k, res, prev);
      }
    }
  }

  /** An issue no run has added has collected no results from the runs. */
  lemma {:induction false} AppliesForAbsent(runs: seq<PatchRun>, k: string, res: OrderedResults, r: OrderedResults)
    requires r == AddRuns(res, runs) && k !in r.applies
    ensures k !in res.applies && AppliesFor(runs, k) == []
  {
    if runs != [] {
      var init := runs[..|runs| - 1];
      AppliesForAbsent(init, k, res, AddRuns(res, init));
    }
  }

  /**
    What `sync` collects: every issue some downloaded patch belongs to, each
    once, in order of first appearance, with the results of its patches in
    download order; and every result under an issue is about a patch of it.
  */
  lemma CollectSpec(downloads: seq<IssueDownload>)
    ensures var r := Collect(downloads);
            && WellOrdered(r)
            && (forall k :: k in r.applies <==> exists j | 0 <= j < |AllRuns(downloads)| :: AllRuns(downloads)[j].patch.issueId == k)
            && (forall k | k in r.applies :: r.applies[k] == AppliesFor(AllRuns(downloads), k))
            && (RunsAreOwn(AllRuns(downloads)) ==> OwnPatches(r))
  {
    var runs := AllRuns(downloads);
    var r := Collect(downloads);
    CollectIsAddRuns(downloads);
    AddRunsKeys(NoResults, runs);
    forall k ensures k in r.applies <==> exists j | 0 <= j < |runs| :: runs[j].patch.issueId == k {
      IssuesOfSpec(runs, k);
    }
    forall k | k in r.applies ensures r.applies[k] == AppliesFor(runs, k) {
      AddRunsApplies(NoResults, runs, k);
    }
    if RunsAreOwn(runs) {
      forall k | k in r.applies ensures forall i | 0 <= i < |r.applies[k]| :: r.applies[k][i].patch.issueId == k {
        AppliesForOwn(runs, k);
      }
    }
  }

  /** The results gathered for an issue from its own patches are about patches of that issue. */
  lemma {:induction false} AppliesForOwn(runs: seq<PatchRun>, k: string)
    requires RunsAreOwn(runs)
    ensures forall i | 0 <= i < |AppliesFor(runs, k)| :: AppliesFor(runs, k)[i].patch.issueId == k
  {
    if runs != [] {
      var init := runs[..|runs| - 1];
      assert RunsAreOwn(init) by {
        forall j, i | 0 <= j < |init| && 0 <= i < |init[j].applies| ensures init[j].applies[i].patch == init[j].patch {
          assert init[j] == runs[j];
        }
      }
      AppliesForOwn(init, k);
    }
  }

  /**
    Lines 92-109 of `sync`: for each issue id of the input, skipping empty
    ids and issues without patches, the apply results of each of its patches
    appended under the patch's issue. Fetching, downloading and applying are
    the `downloads` input.
  */
  method CollectResults(downloads: seq<IssueDownload>) returns (results: OrderedResults)
    ensures results == Collect(downloads)
  {
    results := NoResults;
    var n := 0;
    while n < |downloads|
      invariant 0 <= n <= |downloads|
      invariant results == Collect(downloads[..n])
    {
      var d := downloads[n];
      assert downloads[..n + 1][..n] == downloads[..n];
      if d.issueId == "" || |d.runs| == 0 {
        n := n + 1;
        continue;
      }
      var j := 0;
      while j < |d.runs|
        invariant 0 <= j <= |d.runs|
        invariant results == AddRuns(Collect(downloads[..n]), d.runs[..j])
      {
        var run := d.runs[j];
        assert d.runs[..j + 1][..j] == d.runs[..j];
        if run.patch.issueId !in results.applies {
          results := OrderedResults(results.order + [run.patch.issueId], results.applies[run.patch.issueId := []]);
        }
        results := OrderedResults(results.order, results.applies[run.patch.issueId := results.applies[run.patch.issueId] + run.applies]);
        j := j + 1;
      }
      assert d.runs[..j] == d.runs;
      n := n + 1;
    }
    assert downloads[..n] == downloads;
  }

  /** The patches the apply results of all issues are about. */
  function PatchesOf(res: OrderedResults): set<JiraPatch> {
    set k, i | k in res.applies && 0 <= i < |res.applies[k]| :: res.applies[k][i].patch
  }

  /** The patches listed under one issue. */
  function PatchesUnder(res: OrderedResults, issue: string): set<JiraPatch>
    requires issue in res.applies
  {
    set j | 0 <= j < |res.applies[issue]| :: res.applies[issue][j].patch
  }

  /** The patches listed under other issues are not among those listed under `issue`. */
  lemma OtherIssuesOtherPatches(res: OrderedResults, issue: string)
    requires OwnPatches(res) && issue in res.applies
    ensures forall k, i | k in res.applies && k != issue && 0 <= i < |res.applies[k]| ::
              res.applies[k][i].patch !in PatchesUnder(res, issue)
  {
    forall k, i | k in res.applies && k != issue && 0 <= i < |res.applies[k]|
      ensures res.applies[k][i].patch !in PatchesUnder(res, issue)
    {
      var p := res.applies[k][i].patch;
      forall j | 0 <= j < |res.applies[issue]| ensures res.applies[issue][j].patch != p {
        assert res.applies[issue][j].patch.issueId == issue;
      }
    }
  }

  /**
    `set_overall_status_for_results`: every patch of every issue gets the
    overall status of its issue's apply results, and nothing else of the
    patches changes.
  */
  method SetOverallStatusForResults(results: OrderedResults)
    requires WellOrdered(results) && OwnPatches(results)
    modifies PatchesOf(results)
    ensures forall k, i | k in results.applies && 0 <= i < |results.applies[k]| ::
              results.applies[k][i].patch.overallStatus == OverallStatusFor(results.applies[k])
    ensures forall k, i | k in results.applies && 0 <= i < |results.applies[k]| ::
              && results.applies[k][i].patch.targetBranches == old(results.applies[k][i].patch.targetBranches)
              && results.applies[k][i].patch.applicability == old(results.applies[k][i].patch.applicability)
              && results.applies[k][i].patch.filePath == old(results.applies[k][i].patch.filePath)
  {
    var order: seq<string>, applies: map<string, seq<PatchApply>> := results.order, results.applies;
    var n := 0;
    while n < |order|
      invariant 0 <= n <= |order|
      invariant StatusSetUpTo(results, n)
      invariant forall k, i | k in applies && 0 <= i < |applies[k]| ::
                  && applies[k][i].patch.targetBranches == old(applies[k][i].patch.targetBranches)
                  && applies[k][i].patch.applicability == old(applies[k][i].patch.applicability)
                  && applies[k][i].patch.filePath == old(applies[k][i].patch.filePath)
    {
      SetOverallStatusForIssue(results, n);
      n := n + 1;
    }
    forall k, i | k in applies && 0 <= i < |applies[k]|
      ensures applies[k][i].patch.overallStatus == OverallStatusFor(applies[k])
    {
      var m :| 0 <= m < |order| && order[m] == k;
    }
  }

  /** The patches of the first `n` listed issues carry their issue's overall status. */
  ghost predicate StatusSetUpTo(res: OrderedResults, n: nat)
    requires WellOrdered(res) && n <= |res.order|
    reads PatchesOf(res)
  {
    forall m, i | 0 <= m < n && 0 <= i < |res.applies[res.order[m]]| ::
      res.applies[res.order[m]][i].patch.overallStatus == OverallStatusFor(res.applies[res.order[m]])
  }

  /**
    One round of the outer loop of `set_overall_status_for_results` (lines
    119-127): the patches of the `n`-th listed issue get that issue's overall
    status, and the patches of the other issues keep theirs.
  */
  method SetOverallStatusForIssue(results: OrderedResults, n: nat)
    requires WellOrdered(results) && OwnPatches(results) && n < |results.order|
    requires StatusSetUpTo(results, n)
    modifies PatchesOf(results)
    ensures StatusSetUpTo(results, n + 1)
    ensures forall k, i | k in results.applies && 0 <= i < |results.applies[k]| ::
              && results.applies[k][i].patch.targetBranches == old(results.applies[k][i].patch.targetBranches)
              && results.applies[k][i].patch.applicability == old(results.applies[k][i].patch.applicability)
              && results.applies[k][i].patch.filePath == old(results.applies[k][i].patch.filePath)
  {
    var order: seq<string>, applies: map<string, seq<PatchApply>> := results.order, results.applies;
    var issue := order[n];
    var pas := applies[issue];
    assert PatchesUnder(results, issue) <= PatchesOf(results);
    OtherIssuesOtherPatches(results, issue);
    SetOverallStatusForPatches(pas, OverallStatusFor(pas));
    forall k, i | k in applies && 0 <= i < |applies[k]|
      ensures && applies[k][i].patch.targetBranches == old(applies[k][i].patch.targetBranches)
              && applies[k][i].patch.applicability == old(applies[k][i].patch.applicability)
              && applies[k][i].patch.filePath == old(applies[k][i].patch.filePath)
              && (k != issue ==> applies[k][i].patch.overallStatus == old(applies[k][i].patch.overallStatus))
    {
    }
    forall m, i | 0 <= m < n + 1 && 0 <= i < |applies[order[m]]|
      ensures applies[order[m]][i].patch.overallStatus == OverallStatusFor(applies[order[m]])
    {
      if m < n {
        assert order[m] != issue;
      }
    }
  }

  /**
    `sync` from line 92 on: the collected results, with the overall status of
    every patch set.
  */
  method Sync(downloads: seq<IssueDownload>) returns (results: OrderedResults)
    requires RunsAreOwn(AllRuns(downloads))
    modifies PatchesOf(Collect(downloads))
    ensures results == Collect(downloads)
    ensures forall k, i | k in results.applies && 0 <= i < |results.applies[k]| ::
              results.applies[k][i].patch.overallStatus == OverallStatusFor(results.applies[k])
    ensures forall k, i | k in results.applies && 0 <= i < |results.applies[k]| ::
              && results.applies[k][i].patch.targetBranches == old(results.applies[k][i].patch.targetBranches)
              && results.applies[k][i].patch.applicability == old(results.applies[k][i].patch.applicability)
              && results.applies[k][i].patch.filePath == old(results.applies[k][i].patch.filePath)
  {
    results := CollectResults(downloads);
    // the patches of the results existed on entry, so `old` of their fields is their value now
    assert old(allocated(results));
    assert WellOrdered(results) && OwnPatches(results) by {
      CollectSpec(downloads);
    }
    SetOverallStatusForResults(results);
  }

  /** The patches of the collected results are patches of the downloaded runs. */
  lemma ResultPatchesAreRunPatches(downloads: seq<IssueDownload>)
    requires RunsAreOwn(AllRuns(downloads))
    ensures PatchesOf(Collect(downloads)) <= set j | 0 <= j < |AllRuns(downloads)| :: AllRuns(downloads)[j].patch
  {
    var runs := AllRuns(downloads);
    var r := Collect(downloads);
    CollectSpec(downloads);
    forall k, i | k in r.applies && 0 <= i < |r.applies[k]|
      ensures exists j | 0 <= j < |runs| :: runs[j].patch == r.applies[k][i].patch
    {
      AppliesForFrom(runs, k, i);
    }
  }

  /** Each result gathered for an issue comes from one of the runs. */
  lemma {:induction false} AppliesForFrom(runs: seq<PatchRun>, k: string, i: int)
    requires RunsAreOwn(runs) && 0 <= i < |AppliesFor(runs, k)|
    ensures exists j | 0 <= j < |runs| :: runs[j].patch == AppliesFor(runs, k)[i].patch
  {
    var init := runs[..|runs| - 1];
    var last := runs[|runs| - 1];
    assert RunsAreOwn(init) by {
      forall j, i | 0 <= j < |init| && 0 <= i < |init[j].applies| ensures init[j].applies[i].patch == init[j].patch {
        assert init[j] == runs[j];
      }
    }
    if i < |AppliesFor(init, k)| {
      AppliesForFrom(init, k, i);
      var j :| 0 <= j < |init| && init[j].patch == AppliesFor(init, k)[i].patch;
      assert runs[j] == init[j];
    } else {
      assert AppliesFor(runs, k)[i] == last.applies[i - |AppliesFor(init, k)|];
    }
  }

  /** One cell of the printed table: the row numbers are integers, the rest is text. */
  datatype Cell = Num(n: int) | Text(s: string)

  const HEADERS: seq<string> := ["Row", "Issue", "Patch apply", "Owner", "Patch file", "Branch", "Explicit",
                                 "Result", "Number of conflicted files", "Overall result"]

  /** One apply result of the table with its issue and its index among the issue's results. */
  datatype Entry = Entry(issueId: string, idx: int, pa: PatchApply)

  /** The apply results of one issue, numbered. */
  function EntriesOf(issueId: string, pas: seq<PatchApply>): seq<Entry> {
    seq(|pas|, i requires 0 <= i < |pas| => Entry(issueId, i, pas[i]))
  }

  /** The apply results of all issues, issue by issue in dictionary order. */
  function Entries(order: seq<string>, applies: map<string, seq<PatchApply>>): seq<Entry>
    requires forall i | 0 <= i < |order| :: order[i] in applies
  {
    if order == [] then []
    else
      var k := order[|order| - 1];
      Entries(order[..|order| - 1], applies) + EntriesOf(k, applies[k])
  }

  /** Every row of the table is an apply result of a listed issue, at its position there. */
  lemma {:induction false} EntriesSound(order: seq<string>, applies: map<string, seq<PatchApply>>)
    requires forall i | 0 <= i < |order| :: order[i] in applies
    ensures forall r | 0 <= r < |Entries(order, applies)| ::
              && Entries(order, applies)[r].issueId in order
              && 0 <= Entries(order, applies)[r].idx < |applies[Entries(order, applies)[r].issueId]|
              && Entries(order, applies)[r].pa == applies[Entries(order, applies)[r].issueId][Entries(order, applies)[r].idx]
  {
    if order != [] {
      var init := order[..|order| - 1];
      var k := order[|order| - 1];
      EntriesSound(init, applies);
      var prev := Entries(init, applies);
      var es := Entries(order, applies);
      forall r | 0 <= r < |es|
        ensures es[r].issueId in order && 0 <= es[r].idx < |applies[es[r].issueId]|
                && es[r].pa == applies[es[r].issueId][es[r].idx]
      {
        if r < |prev| {
          assert es[r] == prev[r];
          assert prev[r].issueId in init;
          var m :| 0 <= m < |init| && init[m] == es[r].issueId;
          assert order[m] == init[m];
        } else {
          assert es[r] == EntriesOf(k, applies[k])[r - |prev|];
        }
      }
    }
  }

  /** Every apply result of every listed issue has its row in the table. */
  lemma {:induction false} EntriesComplete(order: seq<string>, applies: map<string, seq<PatchApply>>, m: int, idx: int)
    requires forall i | 0 <= i < |order| :: order[i] in applies
    requires 0 <= m < |order| && 0 <= idx < |applies[order[m]]|
    ensures exists r | 0 <= r < |Entries(order, applies)| ::
              Entries(order, applies)[r] == Entry(order[m], idx, applies[order[m]][idx])
  {
    var init := order[..|order| - 1];
    var prev := Entries(init, applies);
    var es := Entries(order, applies);
    if m < |init| {
      assert init[m] == order[m];
      EntriesComplete(init, applies, m, idx);
      var r :| 0 <= r < |prev| && prev[r] == Entry(init[m], idx, applies[init[m]][idx]);
      assert es[r] == prev[r];
    } else {
      assert es[|prev| + idx] == Entry(order[m], idx, applies[order[m]][idx]);
    }
  }

  /** The conflicts column: "N/A" for no conflict, else the number as `str` writes it. */
  function ConflictsCell(conflicts: int): (cell: string)
    ensures cell == "N/A" <==> conflicts == 0
  {
    if conflicts == 0 then "N/A"
    else
      IntToDecimalSign(conflicts);
      var cell := IntToDecimal(conflicts);
      assert conflicts > 0 ==> IsDigit(cell[0]);
      cell
  }

  /** A conflicts cell other than "N/A" reads back as the count: its digits, after a "-" when negative. */
  lemma ConflictsCellReadsBack(conflicts: int)
    ensures var cell := ConflictsCell(conflicts);
            && (conflicts > 0 ==> (forall i | 0 <= i < |cell| :: IsDigit(cell[i])) && DecimalValue(cell) == conflicts)
            && (conflicts < 0 ==>
                  && |cell| > 1 && cell[0] == '-'
                  && (forall i | 1 <= i < |cell| :: IsDigit(cell[i])) && DecimalValue(cell[1..]) == -conflicts)
  {
    if conflicts != 0 {
      NatToDecimalRoundTrip(if conflicts < 0 then -conflicts else conflicts);
      var cell := ConflictsCell(conflicts);
      assert conflicts < 0 ==> cell[1..] == NatToDecimal(-conflicts);
    }
  }

  /** Two apply results show the same conflicts cell exactly when their conflict counts agree. */
  lemma ConflictsCellInjective(m: int, n: int)
    ensures ConflictsCell(m) == ConflictsCell(n) <==> m == n
  {
    IntToDecimalSign(m);
    IntToDecimalSign(n);
    IntToDecimalInjective(m, n);
    if m != 0 {
      assert IntToDecimal(m)[0] != 'N' by {
        if m > 0 {
          assert IsDigit(NatToDecimal(m)[0]);
        }
      }
    }
    if n != 0 {
      assert IntToDecimal(n)[0] != 'N' by {
        if n > 0 {
          assert IsDigit(NatToDecimal(n)[0]);
        }
      }
    }
  }

  /**
    `cells` is the table row of apply result `e` numbered `row`, one cell per
    header: row, issue, 1-based index, owner, patch file, branch, explicit,
    result, conflicts, overall result.
  */
  predicate IsRowOf(cells: seq<Cell>, row: int, e: Entry)
    reads e.pa.patch
  {
    && |cells| == |HEADERS|
    && cells[0] == Num(row) && cells[1] == Text(e.issueId) && cells[2] == Num(e.idx + 1)
    && cells[3] == Text(e.pa.patch.ownerDisplayName) && cells[4] == Text(e.pa.patch.filename)
    && cells[5] == Text(e.pa.branch)
    && cells[6] == Text(if e.pa.explicit then "Yes" else "No")
    && cells[7] == Text(e.pa.result)
    && cells[8] == Text(ConflictsCell(e.pa.conflicts))
    && cells[9] == Text(e.pa.patch.overallStatus.status)
  }

  /** The table row of one apply result, numbered `row`. */
  function RowFor(row: int, e: Entry): (cells: seq<Cell>)
    reads e.pa.patch
    ensures |cells| == |HEADERS|
    ensures IsRowOf(cells, row, e)
  {
    var patch := e.pa.patch;
    [Num(row), Text(e.issueId), Num(e.idx + 1), Text(patch.ownerDisplayName), Text(patch.filename),
     Text(e.pa.branch), Text(if e.pa.explicit then "Yes" else "No"), Text(e.pa.result),
     Text(ConflictsCell(e.pa.conflicts)), Text(patch.overallStatus.status)]
  }

  /**
    `convert_data_for_result_printer`: the header line and one row per apply
    result, issue by issue, numbered from 1.
  */
  method ConvertDataForResultPrinter(results: OrderedResults) returns (data: seq<seq<Cell>>, headers: seq<string>)
    requires Listed(results)
    ensures headers == HEADERS
    ensures |data| == |Entries(results.order, results.applies)|
    ensures forall r | 0 <= r < |data| :: data[r] == RowFor(r + 1, Entries(results.order, results.applies)[r])
  {
    var order: seq<string>, applies: map<string, seq<PatchApply>> := results.order, results.applies;
    data := [];
    headers := HEADERS;
    var row := 0;
    var n := 0;
    while n < |order|
      invariant 0 <= n <= |order|
      invariant row == |data| == |Entries(order[..n], applies)|
      invariant forall r | 0 <= r < |data| :: data[r] == RowFor(r + 1, Entries(order[..n], applies)[r])
    {
      var issue := order[n];
      assert order[..n + 1][..n] == order[..n];
      assert Entries(order[..n + 1], applies) == Entries(order[..n], applies) + EntriesOf(issue, applies[issue]);
      data, row := AppendRows(data, row, issue, applies[issue], Entries(order[..n], applies));
      n := n + 1;
    }
    assert order[..n] == order;
  }

  /**
    The inner loop of `convert_data_for_result_printer` (lines 292-298): one
    row per apply result of `issue`, numbered on from `row`.
  */
  method AppendRows(data: seq<seq<Cell>>, row: int, issue: string, pas: seq<PatchApply>, ghost before: seq<Entry>)
    returns (data': seq<seq<Cell>>, row': int)
    requires row == |data| == |before|
    requires forall r | 0 <= r < |data| :: data[r] == RowFor(r + 1, before[r])
    ensures row' == |data'| == |before| + |pas|
    ensures forall r | 0 <= r < |data'| :: data'[r] == RowFor(r + 1, (before + EntriesOf(issue, pas))[r])
  {
    ghost var es := before + EntriesOf(issue, pas);
    data', row' := data, row;
    var idx := 0;
    while idx < |pas|
      invariant 0 <= idx <= |pas|
      invariant row' == |data'| == |before| + idx
      invariant forall r | 0 <= r < |data'| :: data'[r] == RowFor(r + 1, es[r])
    {
      row' := row' + 1;
      var pa := pas[idx];
      data' := data' + [RowFor(row', Entry(issue, idx, pa))];
      idx := idx + 1;
    }
  }

  /** One `update_issue_with_results` call: an issue with results and the patch of its first result. */
  datatype UpdateCall = UpdateCall(issue: string, patch: JiraPatch)

  /** The calls `update_gsheet` makes, in dictionary order. */
  function Calls(order: seq<string>, applies: map<string, seq<PatchApply>>): seq<UpdateCall> {
    if order == [] then []
    else
      var k := order[|order| - 1];
      Calls(order[..|order| - 1], applies)
      + if k in applies && |applies[k]| > 0 then [UpdateCall(k, applies[k][0].patch)] else []
  }

  /** Every call is for a listed issue with results, and carries the patch of its first result. */
  lemma {:induction false} CallsSound(order: seq<string>, applies: map<string, seq<PatchApply>>)
    requires forall i | 0 <= i < |order| :: order[i] in applies
    ensures forall j | 0 <= j < |Calls(order, applies)| ::
              && Calls(order, applies)[j].issue in order
              && |applies[Calls(order, applies)[j].issue]| > 0
              && Calls(order, applies)[j].patch == applies[Calls(order, applies)[j].issue][0].patch
  {
    if order != [] {
      var init := order[..|order| - 1];
      CallsSound(init, applies);
      var prev := Calls(init, applies);
      var cs := Calls(order, applies);
      var last := order[|order| - 1];
      assert cs == prev + if |applies[last]| > 0 then [UpdateCall(last, applies[last][0].patch)] else [];
      forall j | 0 <= j < |cs|
        ensures cs[j].issue in order && |applies[cs[j].issue]| > 0 && cs[j].patch == applies[cs[j].issue][0].patch
      {
        if j < |prev| {
          assert cs[j] == prev[j];
          assert order == init + [order[|order| - 1]];
        }
      }
    }
  }

  /** Some call in `cs` is for `issue`. */
  predicate HasCallFor(cs: seq<UpdateCall>, issue: string) {
    exists j | 0 <= j < |cs| :: cs[j].issue == issue
  }

  /** Every listed issue with results gets a call. */
  lemma {:induction false} CallsComplete(order: seq<string>, applies: map<string, seq<PatchApply>>)
    requires forall i | 0 <= i < |order| :: order[i] in applies
    ensures forall m | 0 <= m < |order| && |applies[order[m]]| > 0 :: HasCallFor(Calls(order, applies), order[m])
  {
    if order != [] {
      var init := order[..|order| - 1];
      CallsComplete(init, applies);
      var prev := Calls(init, applies);
      var cs := Calls(order, applies);
      var last := order[|order| - 1];
      assert cs == prev + if |applies[last]| > 0 then [UpdateCall(last, applies[last][0].patch)] else [];
      forall m | 0 <= m < |order| && |applies[order[m]]| > 0
        ensures HasCallFor(cs, order[m])
      {
        if m < |init| {
          assert init[m] == order[m] && HasCallFor(prev, init[m]);
          var j :| 0 <= j < |prev| && prev[j].issue == init[m];
          assert cs[j] == prev[j];
        } else {
          assert cs[|prev|].issue == order[m];
        }
      }
    }
  }

  /** Every issue with results gets one call with the patch of its first result; no other issue does. */
  lemma CallsSpec(order: seq<string>, applies: map<string, seq<PatchApply>>)
    requires forall i | 0 <= i < |order| :: order[i] in applies
    ensures var cs := Calls(order, applies);
            && (forall j | 0 <= j < |cs| ::
                  cs[j].issue in order && |applies[cs[j].issue]| > 0 && cs[j].patch == applies[cs[j].issue][0].patch)
            && (forall m | 0 <= m < |order| && |applies[order[m]]| > 0 ::
                  exists j | 0 <= j < |cs| :: cs[j].issue == order[m])
  {
    CallsSound(order, applies);
    CallsComplete(order, applies);
  }

  /** An update of `issue` raises: the sheet was never fetched, or an update flag was never set. */
  predicate CallFails(st: SheetState, issue: string) {
    !st.fetched || (issue in st.cells && (st.doDate.None? || st.doStatus.None?))
  }

  /** None of the calls raises. */
  predicate NoneFails(st: SheetState, calls: seq<UpdateCall>) {
    calls == [] || (NoneFails(st, calls[..|calls| - 1]) && !CallFails(st, calls[|calls| - 1].issue))
  }

  /** The calls raise nowhere exactly when no single one of them raises. */
  lemma {:induction false} NoneFailsIff(st: SheetState, calls: seq<UpdateCall>)
    ensures NoneFails(st, calls) <==> forall j | 0 <= j < |calls| :: !CallFails(st, calls[j].issue)
  {
    if calls != [] {
      var init := calls[..|calls| - 1];
      NoneFailsIff(st, init);
      if forall j | 0 <= j < |calls| :: !CallFails(st, calls[j].issue) {
        forall j | 0 <= j < |init| ensures !CallFails(st, init[j].issue) {
          assert init[j] == calls[j];
        }
      }
    }
  }

  /** The cell writes of one call that does not raise, with the status it is given. */
  function CallWrites(st: SheetState, issue: string, status: PatchOverallStatus, dateStr: string): seq<CellWrite>
    requires !CallFails(st, issue)
  {
    UpdateOutcome(st, issue, dateStr, status).value
  }

  /** The cell writes of all the calls, in order, each with its status, when none raises. */
  function AllWrites(st: SheetState, calls: seq<UpdateCall>, statuses: seq<PatchOverallStatus>, dateStr: string)
    : seq<CellWrite>
    requires |statuses| == |calls| && NoneFails(st, calls)
  {
    if calls == [] then []
    else
      AllWrites(st, calls[..|calls| - 1], statuses[..|calls| - 1], dateStr)
      + CallWrites(st, calls[|calls| - 1].issue, statuses[|calls| - 1], dateStr)
  }

  /** The calls for one more issue of the dictionary. */
  lemma CallsStep(order: seq<string>, applies: map<string, seq<PatchApply>>, n: int)
    requires 0 <= n < |order| && order[n] in applies
    ensures |applies[order[n]]| == 0 ==> Calls(order[..n + 1], applies) == Calls(order[..n], applies)
    ensures |applies[order[n]]| > 0 ==>
              Calls(order[..n + 1], applies) == Calls(order[..n], applies) + [UpdateCall(order[n], applies[order[n]][0].patch)]
  {
    assert order[..n + 1][..n] == order[..n];
  }

  /** The writes of one more call that does not raise follow those of the calls before it. */
  lemma AllWritesStep(st: SheetState, calls: seq<UpdateCall>, statuses: seq<PatchOverallStatus>, c: UpdateCall,
                      status: PatchOverallStatus, dateStr: string)
    requires |statuses| == |calls| && NoneFails(st, calls) && !CallFails(st, c.issue)
    ensures NoneFails(st, calls + [c])
    ensures AllWrites(st, calls + [c], statuses + [status], dateStr)
            == AllWrites(st, calls, statuses, dateStr) + CallWrites(st, c.issue, status, dateStr)
  {
    assert (calls + [c])[..|calls|] == calls;
    assert (statuses + [status])[..|calls|] == statuses;
  }

  /**
    After the first `n` issues of the dictionary: `calls` are their calls, none
    of which raised, and `writes` are the cells those calls wrote.
  */
  ghost predicate UpdatedSoFar(st: SheetState, order: seq<string>, applies: map<string, seq<PatchApply>>, n: int,
                               calls: seq<UpdateCall>, statuses: seq<PatchOverallStatus>, writes: seq<CellWrite>,
                               dateStr: string)
  {
    && 0 <= n <= |order|
    && calls == Calls(order[..n], applies)
    && NoneFails(st, calls)
    && |statuses| == |calls|
    && writes == AllWrites(st, calls, statuses, dateStr)
  }

  /** An issue without results makes no call. */
  lemma UpdatedSkip(st: SheetState, order: seq<string>, applies: map<string, seq<PatchApply>>, n: int,
                    calls: seq<UpdateCall>, statuses: seq<PatchOverallStatus>, writes: seq<CellWrite>, dateStr: string)
    requires UpdatedSoFar(st, order, applies, n, calls, statuses, writes, dateStr)
    requires n < |order| && order[n] in applies && |applies[order[n]]| == 0
    ensures UpdatedSoFar(st, order, applies, n + 1, calls, statuses, writes, dateStr)
  {
    CallsStep(order, applies, n);
  }

  /** An issue with results makes one more call, which adds its writes. */
  lemma UpdatedAdd(st: SheetState, order: seq<string>, applies: map<string, seq<PatchApply>>, n: int,
                   calls: seq<UpdateCall>, statuses: seq<PatchOverallStatus>, writes: seq<CellWrite>, dateStr: string,
                   status: PatchOverallStatus, w: seq<CellWrite>)
    requires UpdatedSoFar(st, order, applies, n, calls, statuses, writes, dateStr)
    requires n < |order| && order[n] in applies && |applies[order[n]]| > 0
    requires !CallFails(st, order[n]) && w == CallWrites(st, order[n], status, dateStr)
    ensures var c := UpdateCall(order[n], applies[order[n]][0].patch);
            UpdatedSoFar(st, order, applies, n + 1, calls + [c], statuses + [status], writes + w, dateStr)
  {
    var c := UpdateCall(order[n], applies[order[n]][0].patch);
    CallsStep(order, applies, n);
    AllWritesStep(st, calls, statuses, c, status, dateStr);
  }

  /** An issue with results whose update raises makes `update_gsheet` raise. */
  lemma FailingIssueFailsAll(st: SheetState, order: seq<string>, applies: map<string, seq<PatchApply>>, n: int)
    requires forall i | 0 <= i < |order| :: order[i] in applies
    requires 0 <= n < |order| && |applies[order[n]]| > 0 && CallFails(st, order[n])
    ensures !NoneFails(st, Calls(order, applies))
  {
    CallsSpec(order, applies);
    var j :| 0 <= j < |Calls(order, applies)| && Calls(order, applies)[j].issue == order[n];
    NoneFailsIff(st, Calls(order, applies));
  }

  /**
    `update_gsheet`: for each issue with results, the cells written with the
    overall status of its first result's patch. The current date string is a
    parameter. The first update that raises ends the run with its error.
    `statuses` names the status each call was given.
  */
  method UpdateGsheet(wrapper: GSheetWrapper, results: OrderedResults, dateStr: string)
    returns (r: Result<seq<CellWrite>>, ghost statuses: seq<PatchOverallStatus>)
    requires Listed(results)
    ensures r.Failure? <==> !NoneFails(wrapper.State(), Calls(results.order, results.applies))
    ensures r.Failure? ==> r.error.AttributeError?
    ensures r.Success? ==>
              && |statuses| == |Calls(results.order, results.applies)|
              && (forall j | 0 <= j < |statuses| ::
                    statuses[j] == Calls(results.order, results.applies)[j].patch.overallStatus)
              && r.value == AllWrites(wrapper.State(), Calls(results.order, results.applies), statuses, dateStr)
  {
    var order: seq<string>, applies: map<string, seq<PatchApply>> := results.order, results.applies;
    ghost var st := wrapper.State();
    ghost var calls: seq<UpdateCall> := [];
    var writes: seq<CellWrite> := [];
    statuses := [];
    var n := 0;
    while n < |order|
      invariant wrapper.State() == st
      invariant UpdatedSoFar(st, order, applies, n, calls, statuses, writes, dateStr)
      invariant forall j | 0 <= j < |calls| :: statuses[j] == calls[j].patch.overallStatus
    {
      var issue := order[n];
      var pas := applies[issue];
      if |pas| > 0 {
        var c := UpdateCall(issue, pas[0].patch);
        var res := wrapper.UpdateIssueWithResults(issue, dateStr, c.patch.overallStatus);
        if res.Failure? {
          FailingIssueFailsAll(st, order, applies, n);
          r := Failure(res.error);
          return;
        }
        UpdatedAdd(st, order, applies, n, calls, statuses, writes, dateStr, c.patch.overallStatus, res.value);
        writes := writes + res.value;
        statuses := statuses + [c.patch.overallStatus];
        calls := calls + [c];
      } else {
        UpdatedSkip(st, order, applies, n, calls, statuses, writes, dateStr);
      }
      n := n + 1;
    }
    assert order[..n] == order;
    CallsSpec(order, applies);
    r := Success(writes);
  }
}

/**
  `JiraWrapper.create_jira_patch_obj` and `JiraWrapper.get_patches_per_branch`
  of reviewsync/jira_wrapper.py: from the attachment names of one issue to the
  patches to apply, one per requested branch, the trunk patch standing in for
  branches without a patch of their own. The issue lookup is not modelled; its
  assignee and attachment names are parameters.
*/
module JiraWrapper {
  import opened Wrappers
  import opened Applicability
  import opened JiraPatches
  import opened FilenameParser
  import opened AttachmentUtils

  /** The start of the message of the error for a patch with more than one target branch while grouping. */
  const SINGLE_BRANCH_MESSAGE: string := "Patch should be targeted to only one branch at this point. Patch: "

  /** The issue's assignee, when it has one. */
  datatype Assignee = Assignee(name: string, displayName: string)

  /** `jp` is the `JiraPatch` the constructor builds from the parse result `p`. */
  ghost predicate BuiltFrom(jp: JiraPatch, p: ParsedPatch, owner: PatchOwner)
    reads jp
  {
    && jp.Valid()
    && jp.issueId == p.issueId && jp.owner == owner && jp.version == p.version && jp.filename == p.filename
    && jp.ownerShort == owner.name && jp.ownerDisplayName == owner.displayName
    && jp.targetBranches == [p.branch] && jp.applicability == map[p.branch := p.applicability]
    && jp.overallStatus == PatchOverallStatus("N/A") && jp.filePath == None
  }

  /**
    `create_jira_patch_obj`: the parse result, turned into a new `JiraPatch`
    owned by `owner`.
  */
  method CreateJiraPatchObj(defaultBranch: string, issueId: string, filename: string, owner: PatchOwner,
                            committedOnBranches: set<string>) returns (r: Result<Option<JiraPatch>>)
    ensures var parsed := ParsePatchFilename(defaultBranch, issueId, filename, committedOnBranches);
            && (r.Failure? <==> parsed.Failure?)
            && (r.Failure? ==> r.error == parsed.error)
            && (r.Success? ==> (r.value.Some? <==> parsed.value.Some?))
            && (r.Success? && r.value.Some? ==> fresh(r.value.value) && BuiltFrom(r.value.value, parsed.value.value, owner))
  {
    match ParsePatchFilename(defaultBranch, issueId, filename, committedOnBranches)
    case Failure(e) =>
      r := Failure(e);
    case Success(None) =>
      r := Success(None);
    case Success(Some(p)) =>
      var jp := new JiraPatch(p.issueId, owner, p.version, p.branch, p.filename, p.applicability);
      r := Success(Some(jp));
  }

  /**
    `map(parse, names)` followed by dropping the Nones: Python 2's `map` is
    eager, so the first name that raises decides.
  */
  function ParseEach(parse: string -> Result<Option<ParsedPatch>>, filenames: seq<string>): Result<seq<ParsedPatch>> {
    if filenames == [] then Success([])
    else
      match ParseEach(parse, filenames[..|filenames| - 1])
      case Failure(e) => Failure(e)
      case Success(parsed) =>
        match parse(filenames[|filenames| - 1])
        case Failure(e) => Failure(e)
        case Success(None) => Success(parsed)
        case Success(Some(p)) => Success(parsed + [p])
  }

  /** The list raises exactly when one of its names does, and then with the error of such a name. */
  lemma {:induction false} ParseEachFailsIff(parse: string -> Result<Option<ParsedPatch>>, filenames: seq<string>)
    ensures ParseEach(parse, filenames).Failure? <==> exists i | 0 <= i < |filenames| :: parse(filenames[i]).Failure?
    ensures ParseEach(parse, filenames).Failure? ==>
              exists i | 0 <= i < |filenames| :: parse(filenames[i]) == Failure(ParseEach(parse, filenames).error)
  {
    if filenames != [] {
      var init := filenames[..|filenames| - 1];
      var n := |filenames| - 1;
      ParseEachFailsIff(parse, init);
      if ParseEach(parse, init).Failure? {
        var i :| 0 <= i < |init| && parse(init[i]) == Failure(ParseEach(parse, init).error);
        assert filenames[i] == init[i];
      } else if parse(filenames[n]).Failure? {
      } else {
        forall i | 0 <= i < |filenames| ensures !parse(filenames[i]).Failure? {
          if i < n {
            assert filenames[i] == init[i];
          }
        }
      }
    }
  }

  /** Every patch of a list that does not raise comes from one of its names. */
  lemma {:induction false} ParseEachFrom(parse: string -> Result<Option<ParsedPatch>>, filenames: seq<string>)
    ensures var r := ParseEach(parse, filenames);
            r.Success? ==> forall p | p in r.value :: exists f | f in filenames :: parse(f) == Success(Some(p))
  {
    if filenames != [] {
      var init := filenames[..|filenames| - 1];
      ParseEachFrom(parse, init);
      assert forall f | f in init :: f in filenames;
    }
  }

  /** Once a prefix of the names raises, the whole list raises with the same error. */
  lemma {:induction false} ParseEachFailurePersists(parse: string -> Result<Option<ParsedPatch>>, filenames: seq<string>, i: nat)
    requires i <= |filenames|
    requires ParseEach(parse, filenames[..i]).Failure?
    ensures ParseEach(parse, filenames) == ParseEach(parse, filenames[..i])
    decreases |filenames| - i
  {
    if i < |filenames| {
      assert filenames[..i + 1][..i] == filenames[..i];
      ParseEachFailurePersists(parse, filenames, i + 1);
    } else {
      assert filenames[..i] == filenames;
    }
  }

  /** One more name that parses to a patch appends that patch. */
  lemma ParseEachAppend(parse: string -> Result<Option<ParsedPatch>>, filenames: seq<string>, i: nat,
                        parsed: seq<ParsedPatch>, p: ParsedPatch)
    requires i < |filenames| && ParseEach(parse, filenames[..i]) == Success(parsed)
    requires parse(filenames[i]) == Success(Some(p))
    ensures ParseEach(parse, filenames[..i + 1]) == Success(parsed + [p])
  {
    assert filenames[..i + 1][..i] == filenames[..i];
  }

  /** One more name that parses to nothing changes nothing. */
  lemma ParseEachSkip(parse: string -> Result<Option<ParsedPatch>>, filenames: seq<string>, i: nat,
                      parsed: seq<ParsedPatch>)
    requires i < |filenames| && ParseEach(parse, filenames[..i]) == Success(parsed)
    requires parse(filenames[i]) == Success(None)
    ensures ParseEach(parse, filenames[..i + 1]) == Success(parsed)
  {
    assert filenames[..i + 1][..i] == filenames[..i];
  }

  /** The first name that raises decides the outcome of the whole list. */
  lemma ParseEachFirstFailure(parse: string -> Result<Option<ParsedPatch>>, filenames: seq<string>, i: nat,
                              parsed: seq<ParsedPatch>)
    requires i < |filenames| && ParseEach(parse, filenames[..i]) == Success(parsed)
    requires parse(filenames[i]).Failure?
    ensures ParseEach(parse, filenames) == Failure(parse(filenames[i]).error)
  {
    assert filenames[..i + 1][..i] == filenames[..i];
    ParseEachFailurePersists(parse, filenames, i + 1);
  }

  /** `create_jira_patch_obj` for one issue, as a function of the file name. */
  function ParserFor(defaultBranch: string, issueId: string, committedOnBranches: set<string>)
    : string -> Result<Option<ParsedPatch>>
  {
    f => ParsePatchFilename(defaultBranch, issueId, f, committedOnBranches)
  }

  /** `map(create_jira_patch_obj, attachments)` with the Nones dropped. */
  function ParseAll(defaultBranch: string, issueId: string, filenames: seq<string>,
                    committedOnBranches: set<string>): Result<seq<ParsedPatch>>
  {
    ParseEach(ParserFor(defaultBranch, issueId, committedOnBranches), filenames)
  }

  /** The attachments raise exactly when one of their names does, and then with a `ValueError`. */
  lemma ParseAllFailsIffSomeNameFails(defaultBranch: string, issueId: string, filenames: seq<string>,
                                      committedOnBranches: set<string>)
    ensures var r := ParseAll(defaultBranch, issueId, filenames, committedOnBranches);
            && (r.Failure? <==> exists i | 0 <= i < |filenames| :: ParsePatchFilename(defaultBranch, issueId, filenames[i], committedOnBranches).Failure?)
            && (r.Failure? ==> r.error.ValueError?)
  {
    var parse := ParserFor(defaultBranch, issueId, committedOnBranches);
    ParseEachFailsIff(parse, filenames);
    if ParseEach(parse, filenames).Failure? {
      var i :| 0 <= i < |filenames| && parse(filenames[i]) == Failure(ParseEach(parse, filenames).error);
    }
  }

  /** Every patch parsed from the attachments is well formed and names one of them. */
  lemma ParseAllWellFormed(defaultBranch: string, issueId: string, filenames: seq<string>,
                           committedOnBranches: set<string>)
    ensures var r := ParseAll(defaultBranch, issueId, filenames, committedOnBranches);
            r.Success? ==> forall p | p in r.value :: p.filename in filenames && WellParsed(p, p.filename, committedOnBranches)
  {
    var parse := ParserFor(defaultBranch, issueId, committedOnBranches);
    ParseEachFrom(parse, filenames);
    var r := ParseEach(parse, filenames);
    if r.Success? {
      forall p | p in r.value ensures p.filename in filenames && WellParsed(p, p.filename, committedOnBranches) {
        var f :| f in filenames && parse(f) == Success(Some(p));
        ParsedPatchIsWellFormed(defaultBranch, issueId, f, committedOnBranches);
      }
    }
  }

  /**
    Lines 97-98 of `get_patches_per_branch`: one new patch per attachment name
    that parses to one, in attachment order, or the first error raised.
  */
  method CreatePatches(defaultBranch: string, issueId: string, filenames: seq<string>, owner: PatchOwner,
                       committedOnBranches: set<string>) returns (r: Result<seq<JiraPatch>>)
    ensures var parsed := ParseAll(defaultBranch, issueId, filenames, committedOnBranches);
            && (r.Failure? <==> parsed.Failure?)
            && (r.Failure? ==> r.error == parsed.error)
            && (r.Success? ==> |r.value| == |parsed.value|)
            && (r.Success? ==> forall k | 0 <= k < |r.value| :: fresh(r.value[k]) && BuiltFrom(r.value[k], parsed.value[k], owner))
    ensures r.Success? ==> forall j, k | 0 <= j < k < |r.value| :: r.value[j] != r.value[k]
  {
    var patches: seq<JiraPatch> := [];
    ghost var parse := ParserFor(defaultBranch, issueId, committedOnBranches);
    ghost var parsed: seq<ParsedPatch> := [];
    var i := 0;
    while i < |filenames|
      invariant 0 <= i <= |filenames|
      invariant ParseEach(parse, filenames[..i]) == Success(parsed)
      invariant |patches| == |parsed|
      invariant forall k | 0 <= k < |patches| :: fresh(patches[k]) && BuiltFrom(patches[k], parsed[k], owner)
      invariant forall j, k | 0 <= j < k < |patches| :: patches[j] != patches[k]
    {
      ghost var one := parse(filenames[i]);
      assert one == ParsePatchFilename(defaultBranch, issueId, filenames[i], committedOnBranches);
      var created := CreateJiraPatchObj(defaultBranch, issueId, filenames[i], owner, committedOnBranches);
      match created {
        case Failure(e) =>
          ParseEachFirstFailure(parse, filenames, i, parsed);
          r := Failure(e);
          return;
        case Success(None) =>
          ParseEachSkip(parse, filenames, i, parsed);
        case Success(Some(jp)) =>
          ParseEachAppend(parse, filenames, i, parsed, one.value.value);
          AppendBuilt(patches, parsed, jp, one.value.value, owner);
          parsed := parsed + [one.value.value];
          patches := patches + [jp];
      }
      i := i + 1;
    }
    assert filenames[..i] == filenames;
    r := Success(patches);
  }

  /** A patch built from one more parse result, and new, extends the list of built patches. */
  lemma AppendBuilt(patches: seq<JiraPatch>, parsed: seq<ParsedPatch>, jp: JiraPatch, p: ParsedPatch, owner: PatchOwner)
    requires |patches| == |parsed|
    requires forall k | 0 <= k < |patches| :: BuiltFrom(patches[k], parsed[k], owner) && patches[k] != jp
    requires forall j, k | 0 <= j < k < |patches| :: patches[j] != patches[k]
    requires BuiltFrom(jp, p, owner)
    ensures forall k | 0 <= k < |patches| + 1 :: BuiltFrom((patches + [jp])[k], (parsed + [p])[k], owner)
    ensures forall j, k | 0 <= j < k < |patches| + 1 :: (patches + [jp])[j] != (patches + [jp])[k]
  {
  }

  /** The patches of `ps` whose first target branch is `branch`, in list order. */
  function GroupOf(ps: seq<JiraPatch>, branch: string): seq<JiraPatch>
    reads ps
  {
    if ps == [] then []
    else
      var last := ps[|ps| - 1];
      GroupOf(ps[..|ps| - 1], branch)
        + if |last.targetBranches| >= 1 && last.targetBranches[0] == branch then [last] else []
  }

  /**
    The patches of `ps` whose branch is `branch`, in list order, where
    `branches[k]` is the branch of `ps[k]`: the grouping of lines 103-112
    stated without the heap.
  */
  function GroupAt(ps: seq<JiraPatch>, branches: seq<string>, branch: string): (g: seq<JiraPatch>)
    requires |ps| == |branches|
    ensures |g| > 0 <==> branch in branches
  {
    if ps == [] then []
    else
      assert branches == branches[..|branches| - 1] + [branches[|branches| - 1]];
      GroupAt(ps[..|ps| - 1], branches[..|branches| - 1], branch)
        + if branches[|branches| - 1] == branch then [ps[|ps| - 1]] else []
  }

  /** Every member of a group sits at a position of that group's branch. */
  lemma {:induction false} GroupAtMembers(ps: seq<JiraPatch>, branches: seq<string>, branch: string)
    requires |ps| == |branches|
    ensures forall p | p in GroupAt(ps, branches, branch) :: exists k | 0 <= k < |ps| :: ps[k] == p && branches[k] == branch
  {
    if ps != [] {
      var n := |ps| - 1;
      GroupAtMembers(ps[..n], branches[..n], branch);
      forall p | p in GroupAt(ps, branches, branch) ensures exists k | 0 <= k < |ps| :: ps[k] == p && branches[k] == branch {
        if p in GroupAt(ps[..n], branches[..n], branch) {
          var k :| 0 <= k < n && ps[..n][k] == p && branches[..n][k] == branch;
          assert ps[k] == p && branches[k] == branch;
        } else {
          assert ps[n] == p && branches[n] == branch;
        }
      }
    }
  }

  /**
    The patch `get_latest_patches_per_branch` keeps for every branch: the
    latest of the branch's group, where `branches[k]` is the branch of `ps[k]`.
  */
  function LatestPerBranch(ps: seq<JiraPatch>, branches: seq<string>): (latest: map<string, JiraPatch>)
    requires |ps| == |branches|
    ensures forall b :: b in latest <==> b in branches
  {
    map b | b in branches :: Latest(GroupAt(ps, branches, b))
  }

  /**
    The latest patch of a branch is one of the patches of that branch, with a
    version no smaller than any other of the branch and the first listed among
    equal versions.
  */
  lemma LatestPerBranchFrom(ps: seq<JiraPatch>, branches: seq<string>, b: string)
    requires |ps| == |branches| && b in branches
    ensures exists k | 0 <= k < |ps| :: branches[k] == b && LatestPerBranch(ps, branches)[b] == ps[k]
    ensures exists i :: IsEarliestNewest(GroupAt(ps, branches, b), i)
                        && LatestPerBranch(ps, branches)[b] == GroupAt(ps, branches, b)[i]
  {
    var g := GroupAt(ps, branches, b);
    LatestIsEarliestNewest(g);
    GroupAtMembers(ps, branches, b);
    var i :| IsEarliestNewest(g, i) && Latest(g) == g[i];
    assert g[i] in g;
  }

  /** With one branch per patch, grouping by the heap and by the branch list agree. */
  lemma {:induction false} GroupOfIsGroupAt(ps: seq<JiraPatch>, branches: seq<string>, b: string)
    requires |branches| == |ps|
    requires forall k | 0 <= k < |ps| :: ps[k].targetBranches == [branches[k]]
    ensures GroupOf(ps, b) == GroupAt(ps, branches, b)
  {
    if ps != [] {
      GroupOfIsGroupAt(ps[..|ps| - 1], branches[..|branches| - 1], b);
    }
  }

  /** Each patch lands in the group of its branch and in no other. */
  lemma {:induction false} GroupOfMembers(ps: seq<JiraPatch>, branch: string)
    ensures forall p :: p in GroupOf(ps, branch) <==> p in ps && |p.targetBranches| >= 1 && p.targetBranches[0] == branch
  {
    if ps != [] {
      GroupOfMembers(ps[..|ps| - 1], branch);
      assert ps == ps[..|ps| - 1] + [ps[|ps| - 1]];
    }
  }

  /** Appending one patch adds it to its own group only. */
  lemma GroupOfAppend(ps: seq<JiraPatch>, p: JiraPatch)
    requires |p.targetBranches| >= 1
    ensures forall b :: GroupOf(ps + [p], b) == GroupOf(ps, b) + if p.targetBranches[0] == b then [p] else []
  {
    var qs := ps + [p];
    assert qs[..|qs| - 1] == ps;
    assert forall k | 0 <= k < |ps| :: qs[k] == ps[k];
    assert qs[|ps|] == p;
  }

  /** `groups` maps every branch with a non-empty group in `ps` to that group, and no other branch. */
  ghost predicate IsGrouping(groups: map<string, seq<JiraPatch>>, ps: seq<JiraPatch>)
    reads ps
  {
    && (forall b | b in groups :: groups[b] == GroupOf(ps, b) && |groups[b]| > 0)
    && (forall b | b !in groups :: GroupOf(ps, b) == [])
  }

  /** Every patch of `ps` has exactly one target branch. */
  ghost predicate AllSingle(ps: seq<JiraPatch>)
    reads ps
  {
    forall k | 0 <= k < |ps| :: |ps[k].targetBranches| == 1
  }

  /** One more patch with a single target branch keeps every patch single-branch. */
  lemma AllSingleStep(done: seq<JiraPatch>, patch: JiraPatch, next: seq<JiraPatch>)
    requires |patch.targetBranches| == 1 && next == done + [patch] && AllSingle(done)
    ensures AllSingle(next)
  {
    assert forall k | 0 <= k < |done| :: next[k] == done[k];
  }

  /** Adding one patch to the map of the non-empty groups keeps it the map of the non-empty groups. */
  lemma GroupStep(done: seq<JiraPatch>, patch: JiraPatch, next: seq<JiraPatch>, groups: map<string, seq<JiraPatch>>,
                  branch: string, group: seq<JiraPatch>)
    requires |patch.targetBranches| == 1 && branch == patch.targetBranches[0] && next == done + [patch]
    requires IsGrouping(groups, done)
    requires group == if branch in groups then groups[branch] else []
    ensures IsGrouping(groups[branch := group + [patch]], next)
  {
    GroupOfAppend(done, patch);
  }

  /** A map holding exactly the non-empty groups has the patches' branches as keys. */
  lemma GroupKeys(patches: seq<JiraPatch>, groups: map<string, seq<JiraPatch>>)
    requires IsGrouping(groups, patches)
    ensures forall b :: b in groups <==> exists p | p in patches :: |p.targetBranches| >= 1 && p.targetBranches[0] == b
  {
    forall b ensures b in groups <==> exists p | p in patches :: |p.targetBranches| >= 1 && p.targetBranches[0] == b {
      GroupOfMembers(patches, b);
      if b in groups {
        assert GroupOf(patches, b)[0] in GroupOf(patches, b);
      }
    }
  }

  /**
    Lines 102-112 of `get_patches_per_branch`: the patches grouped by their
    only target branch, in list order; a patch with not exactly one target
    branch raises `ValueError`.
  */
  method GroupByBranch(patches: seq<JiraPatch>) returns (r: Result<map<string, seq<JiraPatch>>>)
    ensures r.Failure? <==> exists k | 0 <= k < |patches| :: |patches[k].targetBranches| != 1
    ensures r.Failure? ==> r.error.ValueError?
    ensures r.Success? ==> forall b :: b in r.value <==> exists p | p in patches :: |p.targetBranches| >= 1 && p.targetBranches[0] == b
    ensures r.Success? ==> forall b | b in r.value :: r.value[b] == GroupOf(patches, b) && |r.value[b]| > 0
  {
    var branchesToPatches: map<string, seq<JiraPatch>> := map[];
    var i := 0;
    while i < |patches|
      invariant 0 <= i <= |patches|
      invariant AllSingle(patches[..i]) && IsGrouping(branchesToPatches, patches[..i])
    {
      var patch := patches[i];
      if |patch.targetBranches| != 1 {
        assert patches[i] == patch;
        r := Failure(ValueError(SINGLE_BRANCH_MESSAGE + patch.filename));
        return;
      }
      var branch := patch.targetBranches[0];
      var group := if branch in branchesToPatches then branchesToPatches[branch] else [];
      assert patches[..i + 1] == patches[..i] + [patch];
      GroupStep(patches[..i], patch, patches[..i + 1], branchesToPatches, branch, group);
      AllSingleStep(patches[..i], patch, patches[..i + 1]);
      branchesToPatches := branchesToPatches[branch := group + [patch]];
      i := i + 1;
    }
    assert patches[..i] == patches;
    GroupKeys(patches, branchesToPatches);
    r := Success(branchesToPatches);
  }

  /**
    The branches the trunk patch is extended onto, in request order: requested,
    not committed, without a patch of their own and not already added.
  */
  function BranchesToExtend(additionalBranches: seq<string>, committedOnBranches: set<string>, have: set<string>): seq<string>
  {
    if additionalBranches == [] then []
    else
      var added := BranchesToExtend(additionalBranches[..|additionalBranches| - 1], committedOnBranches, have);
      var branch := additionalBranches[|additionalBranches| - 1];
      if branch !in committedOnBranches && branch !in have && branch !in added then added + [branch] else added
  }

  /**
    A branch is added exactly when it was requested, is not committed and has
    no patch of its own; none is added twice.
  */
  lemma {:induction false} BranchesToExtendSpec(additionalBranches: seq<string>, committedOnBranches: set<string>, have: set<string>)
    ensures var added := BranchesToExtend(additionalBranches, committedOnBranches, have);
            && (forall b :: b in added <==> b in additionalBranches && b !in committedOnBranches && b !in have)
            && (forall i, j | 0 <= i < j < |added| :: added[i] != added[j])
  {
    if additionalBranches != [] {
      var init := additionalBranches[..|additionalBranches| - 1];
      BranchesToExtendSpec(init, committedOnBranches, have);
      assert additionalBranches == init + [additionalBranches[|additionalBranches| - 1]];
    }
  }

  /** What a branch the trunk patch is extended onto gets: applicable, but not explicitly. */
  const ExtendedApplicability: PatchApplicability := PatchApplicability(true, None, false)

  /** `extended` is `base` with the trunk patch `d` stored under every branch of `added`. */
  ghost predicate ExtendsWith(extended: map<string, JiraPatch>, base: map<string, JiraPatch>, added: seq<string>, d: JiraPatch) {
    && (forall b :: b in extended <==> b in base || b in added)
    && (forall b | b in base :: extended[b] == base[b])
    && (forall b | b in added :: extended[b] == d)
  }

  /** One more requested branch is added exactly when it is not committed, has no patch and is not added yet. */
  lemma BranchesToExtendStep(requested: seq<string>, branch: string, committedOnBranches: set<string>, have: set<string>)
    ensures var added := BranchesToExtend(requested, committedOnBranches, have);
            BranchesToExtend(requested + [branch], committedOnBranches, have)
            == if branch !in committedOnBranches && branch !in have && branch !in added then added + [branch] else added
  {
    assert (requested + [branch])[..|requested|] == requested;
  }

  /** Storing the trunk patch under a new branch extends the map by that branch. */
  lemma ExtendsWithStep(extended: map<string, JiraPatch>, base: map<string, JiraPatch>, added: seq<string>,
                        d: JiraPatch, branch: string)
    requires ExtendsWith(extended, base, added, d) && branch !in extended
    ensures ExtendsWith(extended[branch := d], base, added + [branch], d)
  {
  }

  /** The applicability of one more extended branch. */
  lemma ExtendedApplicabilityStep(app: map<string, PatchApplicability>, added: seq<string>, branch: string)
    ensures app + (map b | b in added + [branch] :: ExtendedApplicability)
            == (app + (map b | b in added :: ExtendedApplicability))[branch := ExtendedApplicability]
  {
  }

  /** A requested branch without an entry that is not committed is added, with the trunk patch and its applicability. */
  lemma ExtendAddsBranch(requested: seq<string>, i: int, committedOnBranches: set<string>, base: map<string, JiraPatch>,
                         extended: map<string, JiraPatch>, d: JiraPatch, app: map<string, PatchApplicability>)
    requires 0 <= i < |requested|
    requires ExtendsWith(extended, base, BranchesToExtend(requested[..i], committedOnBranches, base.Keys), d)
    requires requested[i] !in extended && requested[i] !in committedOnBranches
    ensures var added := BranchesToExtend(requested[..i], committedOnBranches, base.Keys);
            var next := BranchesToExtend(requested[..i + 1], committedOnBranches, base.Keys);
            && next == added + [requested[i]]
            && ExtendsWith(extended[requested[i] := d], base, next, d)
            && app + (map b | b in next :: ExtendedApplicability)
               == (app + (map b | b in added :: ExtendedApplicability))[requested[i] := ExtendedApplicability]
  {
    var added := BranchesToExtend(requested[..i], committedOnBranches, base.Keys);
    assert requested[..i + 1] == requested[..i] + [requested[i]];
    BranchesToExtendStep(requested[..i], requested[i], committedOnBranches, base.Keys);
    ExtendsWithStep(extended, base, added, d, requested[i]);
    ExtendedApplicabilityStep(app, added, requested[i]);
  }

  /** A requested branch that is committed or already has an entry is not added. */
  lemma ExtendSkipsBranch(requested: seq<string>, i: int, committedOnBranches: set<string>, base: map<string, JiraPatch>,
                          extended: map<string, JiraPatch>, d: JiraPatch)
    requires 0 <= i < |requested|
    requires ExtendsWith(extended, base, BranchesToExtend(requested[..i], committedOnBranches, base.Keys), d)
    requires requested[i] in extended || requested[i] in committedOnBranches
    ensures BranchesToExtend(requested[..i + 1], committedOnBranches, base.Keys)
            == BranchesToExtend(requested[..i], committedOnBranches, base.Keys)
  {
    assert requested[..i + 1] == requested[..i] + [requested[i]];
    BranchesToExtendStep(requested[..i], requested[i], committedOnBranches, base.Keys);
  }

  /**
    Lines 127-148 of `get_patches_per_branch`: every requested branch that is
    not committed and has no patch of its own gets the trunk patch, which
    records the branch as non-explicit.
  */
  method ExtendDefaultPatch(branchToPatch: map<string, JiraPatch>, defaultBranch: string, d: JiraPatch,
                            additionalBranches: seq<string>, committedOnBranches: set<string>)
    returns (extended: map<string, JiraPatch>)
    requires defaultBranch in branchToPatch && branchToPatch[defaultBranch] == d && d.Valid()
    modifies d`targetBranches, d`applicability
    ensures var added := BranchesToExtend(additionalBranches, committedOnBranches, branchToPatch.Keys);
            && d.Valid()
            && d.targetBranches == old(d.targetBranches) + added
            && d.applicability == old(d.applicability) + (map b | b in added :: ExtendedApplicability)
            && ExtendsWith(extended, branchToPatch, added, d)
  {
    extended := branchToPatch;
    var i := 0;
    while i < |additionalBranches|
      invariant 0 <= i <= |additionalBranches|
      invariant d.Valid()
      invariant var added := BranchesToExtend(additionalBranches[..i], committedOnBranches, branchToPatch.Keys);
                && d.targetBranches == old(d.targetBranches) + added
                && d.applicability == old(d.applicability) + (map b | b in added :: ExtendedApplicability)
                && ExtendsWith(extended, branchToPatch, added, d)
    {
      var branch := additionalBranches[i];
      var branchRequired := branch !in committedOnBranches;
      if branch !in extended && branchRequired {
        ExtendAddsBranch(additionalBranches, i, committedOnBranches, branchToPatch, extended, d, old(d.applicability));
        var applicability := NewPatchApplicability(true, explicit := false).value;
        d.AddAdditionalBranch(branch, applicability);
        extended := extended[branch := d];
      } else {
        ExtendSkipsBranch(additionalBranches, i, committedOnBranches, branchToPatch, extended, d);
      }
      i := i + 1;
    }
    assert additionalBranches[..i] == additionalBranches;
  }

  /** Some element of `ps` equals `p` under `JiraPatch.__eq__`. */
  predicate HasEqual(ps: seq<JiraPatch>, p: JiraPatch)
    reads ps, p
  {
    exists k | 0 <= k < |ps| :: ps[k].Equals(p)
  }

  /**
    Lines 154-158 of `get_patches_per_branch`: the patches of the map, with
    equal patches kept once, as a Python set does (its order is arbitrary).
  */
  method DedupPatches(branchToPatch: map<string, JiraPatch>) returns (result: seq<JiraPatch>)
    ensures forall b | b in branchToPatch :: HasEqual(result, branchToPatch[b])
    ensures forall k | 0 <= k < |result| :: result[k] in branchToPatch.Values
    ensures forall j, k | 0 <= j < k < |result| :: !result[j].Equals(result[k])
  {
    result := [];
    var keys := branchToPatch.Keys;
    while keys != {}
      invariant keys <= branchToPatch.Keys
      invariant forall b | b in branchToPatch && b !in keys :: HasEqual(result, branchToPatch[b])
      invariant forall k | 0 <= k < |result| :: result[k] in branchToPatch.Values
      invariant forall j, k | 0 <= j < k < |result| :: !result[j].Equals(result[k])
      decreases |keys|
    {
      var branch :| branch in keys;
      var patch := branchToPatch[branch];
      if !HasEqual(result, patch) {
        ghost var prev := result;
        result := result + [patch];
        assert result[|result| - 1].Equals(patch);
        forall b | b in branchToPatch && b !in keys ensures HasEqual(result, branchToPatch[b]) {
          var k :| 0 <= k < |prev| && prev[k].Equals(branchToPatch[b]);
          assert result[k] == prev[k];
        }
      }
      keys := keys - {branch};
    }
  }

  /** Some patch of `ps` targets `branch`. */
  predicate CoversBranch(ps: seq<JiraPatch>, branch: string)
    reads ps
  {
    exists k | 0 <= k < |ps| :: branch in ps[k].targetBranches
  }

  /** Patches found for each branch target that branch first, and are well formed. */
  ghost predicate PatchPerBranch(branchToPatch: map<string, JiraPatch>)
    reads branchToPatch.Values
  {
    forall b | b in branchToPatch :: branchToPatch[b].Valid() && branchToPatch[b].targetBranches[0] == b
  }

  /**
    Lines 127-158 of `get_patches_per_branch`: the extension onto the
    requested branches followed by the deduplication. The trunk patch gains the
    requested, uncommitted branches without a patch of their own; every patch
    of the map is returned once, and nothing else.
  */
  method ExtendAndDedup(branchToPatch: map<string, JiraPatch>, defaultBranch: string,
                        additionalBranches: seq<string>, committedOnBranches: set<string>)
    returns (result: seq<JiraPatch>)
    requires defaultBranch in branchToPatch && PatchPerBranch(branchToPatch)
    modifies {branchToPatch[defaultBranch]}`targetBranches, {branchToPatch[defaultBranch]}`applicability
    ensures var d := branchToPatch[defaultBranch];
            var added := BranchesToExtend(additionalBranches, committedOnBranches, branchToPatch.Keys);
            && d.Valid()
            && d.targetBranches == old(d.targetBranches) + added
            && d.applicability == old(d.applicability) + (map b | b in added :: ExtendedApplicability)
    ensures forall b | b in branchToPatch :: branchToPatch[b] in result
    ensures forall k | 0 <= k < |result| :: result[k] in branchToPatch.Values && result[k].Valid()
    ensures forall j, k | 0 <= j < k < |result| :: !result[j].Equals(result[k])
    ensures CoversBranch(result, defaultBranch)
    ensures forall b | b in additionalBranches && b !in committedOnBranches :: CoversBranch(result, b)
  {
    var d := branchToPatch[defaultBranch];
    ghost var firstBefore := map b | b in branchToPatch :: branchToPatch[b].targetBranches[0];
    var extended := ExtendDefaultPatch(branchToPatch, defaultBranch, d, additionalBranches, committedOnBranches);
    ghost var added := BranchesToExtend(additionalBranches, committedOnBranches, branchToPatch.Keys);
    BranchesToExtendSpec(additionalBranches, committedOnBranches, branchToPatch.Keys);
    assert PatchPerBranch(branchToPatch) by {
      forall b | b in branchToPatch ensures branchToPatch[b].Valid() && branchToPatch[b].targetBranches[0] == b {
        if branchToPatch[b] == d {
          assert firstBefore[b] == firstBefore[defaultBranch];
        }
      }
    }
    ExtendedWellFormed(branchToPatch, d, extended, added);
    RequestedBranchesCovered(extended, branchToPatch.Keys, added, additionalBranches, committedOnBranches);
    assert defaultBranch in extended;
    result := DedupPatches(extended);
    DedupKeepsValid(extended, result, branchToPatch.Values);
    DedupKeepsBranches(extended, result);
    ExtendedValuesSeparate(branchToPatch, defaultBranch, extended, added);
    DedupKeepsAll(extended, result);
  }

  /**
    No two different patches of the extended map are equal under `__eq__`:
    each of them targets its own branch first.
  */
  lemma ExtendedValuesSeparate(branchToPatch: map<string, JiraPatch>, defaultBranch: string,
                               extended: map<string, JiraPatch>, added: seq<string>)
    requires defaultBranch in branchToPatch && PatchPerBranch(branchToPatch)
    requires ExtendsWith(extended, branchToPatch, added, branchToPatch[defaultBranch])
    ensures forall p, q | p in extended.Values && q in extended.Values && p.Equals(q) :: p == q
  {
    forall p, q | p in extended.Values && q in extended.Values && p.Equals(q) ensures p == q {
      var b :| b in extended && extended[b] == p;
      var c :| c in extended && extended[c] == q;
      var b' := if b in branchToPatch then b else defaultBranch;
      var c' := if c in branchToPatch then c else defaultBranch;
      assert branchToPatch[b'] == p && branchToPatch[c'] == q;
    }
  }

  /** When no two different patches of the map are equal, deduplication keeps every patch of the map. */
  lemma DedupKeepsAll(extended: map<string, JiraPatch>, result: seq<JiraPatch>)
    requires forall p, q | p in extended.Values && q in extended.Values && p.Equals(q) :: p == q
    requires forall k | 0 <= k < |result| :: result[k] in extended.Values
    requires forall b | b in extended :: HasEqual(result, extended[b])
    ensures forall b | b in extended :: extended[b] in result
  {
    forall b | b in extended ensures extended[b] in result {
      var k :| 0 <= k < |result| && result[k].Equals(extended[b]);
      assert extended[b] in extended.Values;
    }
  }

  /** A requested, uncommitted branch either had a patch already or was added. */
  lemma RequestedBranchesCovered(extended: map<string, JiraPatch>, have: set<string>, added: seq<string>,
                                 additionalBranches: seq<string>, committedOnBranches: set<string>)
    requires forall b :: b in extended <==> b in have || b in added
    requires forall b :: b in added <==> b in additionalBranches && b !in committedOnBranches && b !in have
    ensures forall b | b in additionalBranches && b !in committedOnBranches :: b in extended
  {
  }

  /** After the extension every patch of the map targets its own branch and stays well formed. */
  lemma ExtendedWellFormed(branchToPatch: map<string, JiraPatch>, d: JiraPatch,
                           extended: map<string, JiraPatch>, added: seq<string>)
    requires forall b | b in branchToPatch :: branchToPatch[b].Valid() && branchToPatch[b].targetBranches[0] == b
    requires forall b :: b in extended <==> b in branchToPatch || b in added
    requires forall b | b in branchToPatch :: extended[b] == branchToPatch[b]
    requires d in branchToPatch.Values && forall b | b in added :: extended[b] == d && b in d.targetBranches
    ensures forall b | b in extended :: b in extended[b].targetBranches && extended[b].Valid() && extended[b] in branchToPatch.Values
  {
    forall b | b in extended
      ensures b in extended[b].targetBranches && extended[b].Valid() && extended[b] in branchToPatch.Values
    {
      if b in branchToPatch {
        assert extended[b].targetBranches[0] == b;
      }
    }
  }

  /** What holds of every patch of the map holds of each patch of the deduplicated list. */
  lemma DedupKeepsValid(extended: map<string, JiraPatch>, result: seq<JiraPatch>, values: set<JiraPatch>)
    requires forall b | b in extended :: extended[b].Valid() && extended[b] in values
    requires forall k | 0 <= k < |result| :: result[k] in extended.Values
    ensures forall k | 0 <= k < |result| :: result[k] in values && result[k].Valid()
  {
    forall k | 0 <= k < |result| ensures result[k] in values && result[k].Valid() {
      assert result[k] in extended.Values;
      var b :| b in extended && extended[b] == result[k];
    }
  }

  /** The deduplicated list covers every branch some patch of the map covers. */
  lemma DedupKeepsBranches(extended: map<string, JiraPatch>, result: seq<JiraPatch>)
    requires forall b | b in extended :: b in extended[b].targetBranches
    requires forall b | b in extended :: HasEqual(result, extended[b])
    ensures forall b {:trigger CoversBranch(result, b)} | b in extended :: CoversBranch(result, b)
  {
    forall b | b in extended ensures CoversBranch(result, b) {
      var k :| 0 <= k < |result| && result[k].Equals(extended[b]);
    }
  }

  /** The branch of every parse result, in order. */
  function BranchesOf(parsed: seq<ParsedPatch>): (branches: seq<string>)
    ensures |branches| == |parsed| && forall k | 0 <= k < |parsed| :: branches[k] == parsed[k].branch
  {
    seq(|parsed|, k requires 0 <= k < |parsed| => parsed[k].branch)
  }

  /** The owner of the issue's patches: its assignee, or "unassigned" (lines 88-95). */
  function OwnerNames(assignee: Option<Assignee>): (names: (string, string))
    ensures assignee.None? ==> names == ("unassigned", "unassigned")
    ensures assignee.Some? ==> names == (assignee.value.name, assignee.value.displayName)
  {
    match assignee
    case Some(a) => (a.name, a.displayName)
    case None => ("unassigned", "unassigned")
  }

  /** `jp` was built from the parse result `p` for an issue with this assignee (its unchanging fields). */
  ghost predicate CreatedFrom(jp: JiraPatch, p: ParsedPatch, assignee: Option<Assignee>) {
    && jp.issueId == p.issueId && jp.version == p.version && jp.filename == p.filename
    && (jp.ownerShort, jp.ownerDisplayName) == OwnerNames(assignee)
  }

  /**
    What the resolution leaves in a created patch: the trunk patch that was
    kept targets its own branch and then the `added` branches, each applicable
    but not explicitly; every other patch keeps its single branch.
  */
  ghost predicate ResolvedPatch(jp: JiraPatch, p: ParsedPatch, isTrunk: bool, added: seq<string>)
    reads jp
  {
    if isTrunk then
      && jp.targetBranches == [p.branch] + added
      && jp.applicability == map[p.branch := p.applicability] + (map b | b in added :: ExtendedApplicability)
    else
      jp.targetBranches == [p.branch] && jp.applicability == map[p.branch := p.applicability]
  }

  /**
    Every patch built from `parsed` is well formed and resolved: the latest
    trunk patch gained the branches `BranchesToExtend` picks, the others are
    as they were built.
  */
  ghost predicate AllResolved(patches: seq<JiraPatch>, parsed: seq<ParsedPatch>, defaultBranch: string,
                              additionalBranches: seq<string>, committedOnBranches: set<string>)
    requires |patches| == |parsed|
    reads patches
  {
    var latest := LatestPerBranch(patches, BranchesOf(parsed));
    var added := BranchesToExtend(additionalBranches, committedOnBranches, latest.Keys);
    forall k | 0 <= k < |patches| ::
      && patches[k].Valid()
      && ResolvedPatch(patches[k], parsed[k], defaultBranch in latest && patches[k] == latest[defaultBranch], added)
  }

  /**
    `get_patches_per_branch`: the issue's patches, the latest one per branch,
    with the trunk patch extended onto every requested branch that is not
    committed and has no patch of its own, each patch once. Nothing at all
    when no trunk patch exists; the error of the first attachment name that
    raises. `created` are the patches built from the attachment names, one per
    parse result.
  */
  method GetPatchesPerBranch(defaultBranch: string, issueId: string, assignee: Option<Assignee>,
                             attachmentNames: seq<string>, additionalBranches: seq<string>,
                             committedOnBranches: set<string>)
    returns (r: Result<seq<JiraPatch>>, ghost parsed: seq<ParsedPatch>, ghost created: seq<JiraPatch>)
    ensures var all := ParseAll(defaultBranch, issueId, attachmentNames, committedOnBranches);
            && (r.Failure? <==> all.Failure?)
            && (r.Failure? ==> r.error == all.error)
            && (r.Success? ==> all == Success(parsed))
    ensures r.Success? ==> (r.value == [] <==> forall p | p in parsed :: p.branch != defaultBranch)
    ensures r.Success? ==> |created| == |parsed|
    ensures r.Success? ==> forall k | 0 <= k < |created| :: fresh(created[k]) && CreatedFrom(created[k], parsed[k], assignee)
    ensures r.Success? ==> Distinct(created)
    ensures r.Success? ==> AllResolved(created, parsed, defaultBranch, additionalBranches, committedOnBranches)
    ensures r.Success? ==>
              var latest := LatestPerBranch(created, BranchesOf(parsed));
              && (forall k | 0 <= k < |r.value| :: r.value[k] in latest.Values)
              && (r.value != [] ==> forall b | b in latest :: latest[b] in r.value)
    ensures r.Success? ==> forall k | 0 <= k < |r.value| :: r.value[k].Valid()
    ensures r.Success? ==> forall j, k | 0 <= j < k < |r.value| :: !r.value[j].Equals(r.value[k])
    ensures r.Success? && r.value != [] ==> CoversBranch(r.value, defaultBranch)
    ensures r.Success? && r.value != [] ==>
              forall b | b in additionalBranches && b !in committedOnBranches :: CoversBranch(r.value, b)
  {
    var made := CreateOwnedPatches(defaultBranch, issueId, assignee, attachmentNames, committedOnBranches);
    if made.Failure? {
      r := Failure(made.error);
      parsed, created := [], [];
      return;
    }
    var patches := made.value;
    created := patches;
    parsed := ParseAll(defaultBranch, issueId, attachmentNames, committedOnBranches).value;
    if defaultBranch in BranchesOf(parsed) {
      LatestPerBranchFrom(patches, BranchesOf(parsed), defaultBranch);
    }
    assert forall o | o in TrunkOf(patches, BranchesOf(parsed), defaultBranch) :: fresh(o);
    var result := PatchesPerBranchOf(patches, parsed, defaultBranch, additionalBranches, committedOnBranches);
    r := Success(result);
  }

  /** No patch object occurs twice in `ps`. */
  predicate Distinct(ps: seq<JiraPatch>) {
    forall j, k | 0 <= j < k < |ps| :: ps[j] != ps[k]
  }

  /**
    Lines 88-98 of `get_patches_per_branch`: the owner of the issue's patches
    and a new patch per attachment name that parses, each still targeting only
    its own branch.
  */
  method CreateOwnedPatches(defaultBranch: string, issueId: string, assignee: Option<Assignee>,
                            attachmentNames: seq<string>, committedOnBranches: set<string>)
    returns (r: Result<seq<JiraPatch>>)
    ensures var parsed := ParseAll(defaultBranch, issueId, attachmentNames, committedOnBranches);
            && (r.Failure? <==> parsed.Failure?)
            && (r.Failure? ==> r.error == parsed.error)
            && (r.Success? ==> |r.value| == |parsed.value|)
    ensures r.Success? ==>
              var ps := ParseAll(defaultBranch, issueId, attachmentNames, committedOnBranches).value;
              forall k | 0 <= k < |r.value| ::
                && fresh(r.value[k]) && CreatedFrom(r.value[k], ps[k], assignee)
                && r.value[k].Valid() && ResolvedPatch(r.value[k], ps[k], false, [])
    ensures r.Success? ==> Distinct(r.value)
  {
    var owner: PatchOwner;
    match assignee {
      case Some(a) => owner := new PatchOwner(a.name, a.displayName);
      case None => owner := new PatchOwner("unassigned", "unassigned");
    }
    r := CreatePatches(defaultBranch, issueId, attachmentNames, owner, committedOnBranches);
  }

  /**
    Lines 100-158 of `get_patches_per_branch`, from the created patches on,
    where `patches[k]` was built from the parse result `parsed[k]`: grouping by
    branch, the latest patch per branch, the trunk check, the extension onto
    the requested branches and the deduplication. Only the kept trunk patch
    changes, and only its branch list and applicability.
  */
  method PatchesPerBranchOf(patches: seq<JiraPatch>, ghost parsed: seq<ParsedPatch>, defaultBranch: string,
                            additionalBranches: seq<string>, committedOnBranches: set<string>) returns (result: seq<JiraPatch>)
    requires |parsed| == |patches|
    requires forall k | 0 <= k < |patches| :: patches[k].Valid() && ResolvedPatch(patches[k], parsed[k], false, [])
    modifies TrunkOf(patches, BranchesOf(parsed), defaultBranch)`targetBranches,
             TrunkOf(patches, BranchesOf(parsed), defaultBranch)`applicability
    ensures result == [] <==> forall p | p in parsed :: p.branch != defaultBranch
    ensures var latest := LatestPerBranch(patches, BranchesOf(parsed));
            && (forall k | 0 <= k < |result| :: result[k] in latest.Values && result[k].Valid())
            && (result != [] ==> forall b | b in latest :: latest[b] in result)
    ensures forall k | 0 <= k < |result| :: result[k] in patches
    ensures forall j, k | 0 <= j < k < |result| :: !result[j].Equals(result[k])
    ensures AllResolved(patches, parsed, defaultBranch, additionalBranches, committedOnBranches)
    ensures result != [] ==> CoversBranch(result, defaultBranch)
    ensures result != [] ==> forall b | b in additionalBranches && b !in committedOnBranches :: CoversBranch(result, b)
  {
    var branchToPatch := LatestPatchesOf(patches, parsed);
    ghost var added := BranchesToExtend(additionalBranches, committedOnBranches, branchToPatch.Keys);
    if defaultBranch !in branchToPatch {
      result := [];
      return;
    }
    LatestPerBranchFrom(patches, BranchesOf(parsed), defaultBranch);
    ghost var d := branchToPatch[defaultBranch];
    result := ExtendAndDedup(branchToPatch, defaultBranch, additionalBranches, committedOnBranches);
    forall k | 0 <= k < |result| ensures result[k] in patches {
      var b :| b in branchToPatch && branchToPatch[b] == result[k];
    }
    forall k | 0 <= k < |patches|
      ensures patches[k].Valid() && ResolvedPatch(patches[k], parsed[k], patches[k] == d, added)
    {
      if patches[k] != d {
        assert patches[k].targetBranches == old(patches[k].targetBranches);
        assert patches[k].applicability == old(patches[k].applicability);
      }
    }
  }

  /**
    Lines 101-117 of `get_patches_per_branch`: the created patches grouped by
    their only branch, and the latest patch of each group.
  */
  method LatestPatchesOf(patches: seq<JiraPatch>, ghost parsed: seq<ParsedPatch>)
    returns (branchToPatch: map<string, JiraPatch>)
    requires |parsed| == |patches|
    requires forall k | 0 <= k < |patches| :: patches[k].Valid() && ResolvedPatch(patches[k], parsed[k], false, [])
    ensures branchToPatch == LatestPerBranch(patches, BranchesOf(parsed))
    ensures PatchPerBranch(branchToPatch)
    ensures forall b | b in branchToPatch :: branchToPatch[b] in patches
  {
    ghost var branches := BranchesOf(parsed);
    var grouped := GroupByBranch(patches);
    var branchesToPatches := grouped.value;
    var sortedGroups, latest := GetLatestPatchesPerBranch(branchesToPatches);
    branchToPatch := latest.value;
    LatestPerBranchWellFormed(patches, branchesToPatches, branchToPatch);
    LatestPerBranchIs(patches, branches, branchesToPatches, branchToPatch);
  }

  /** The latest patch of trunk, when trunk has one: the only patch the resolution changes. */
  function TrunkOf(patches: seq<JiraPatch>, branches: seq<string>, defaultBranch: string): set<JiraPatch>
    requires |branches| == |patches|
  {
    if defaultBranch in branches then {LatestPerBranch(patches, branches)[defaultBranch]} else {}
  }

  /** The map of latest patches the grouping and sorting compute is `LatestPerBranch`. */
  lemma LatestPerBranchIs(patches: seq<JiraPatch>, branches: seq<string>, groups: map<string, seq<JiraPatch>>,
                          latest: map<string, JiraPatch>)
    requires |branches| == |patches|
    requires forall k | 0 <= k < |patches| :: patches[k].targetBranches == [branches[k]]
    requires forall b :: b in groups <==> exists p | p in patches :: |p.targetBranches| >= 1 && p.targetBranches[0] == b
    requires forall b | b in groups :: groups[b] == GroupOf(patches, b) && |groups[b]| > 0
    requires latest.Keys == groups.Keys
    requires forall b | b in latest :: latest[b] == Latest(groups[b])
    ensures latest == LatestPerBranch(patches, branches)
  {
    GroupKeysAreBranches(patches, branches, groups);
    GroupsAreGroupAt(patches, branches, groups);
    LatestOfGroups(patches, branches, groups);
    SameLatest(latest, LatestPerBranch(patches, branches), groups);
  }

  /** `LatestPerBranch` takes the latest patch of each group of the grouping. */
  lemma LatestOfGroups(patches: seq<JiraPatch>, branches: seq<string>, groups: map<string, seq<JiraPatch>>)
    requires |branches| == |patches|
    requires forall b :: b in groups <==> b in branches
    requires forall b | b in groups :: GroupAt(patches, branches, b) == groups[b] && |groups[b]| > 0
    ensures LatestPerBranch(patches, branches).Keys == groups.Keys
    ensures forall b | b in groups :: LatestPerBranch(patches, branches)[b] == Latest(groups[b])
  {
  }

  /** Two maps that take the latest patch of the same groups are equal. */
  lemma SameLatest(latest: map<string, JiraPatch>, other: map<string, JiraPatch>, groups: map<string, seq<JiraPatch>>)
    requires latest.Keys == groups.Keys && other.Keys == groups.Keys
    requires forall b | b in groups :: |groups[b]| > 0
    requires forall b | b in latest :: latest[b] == Latest(groups[b])
    requires forall b | b in other :: other[b] == Latest(groups[b])
    ensures latest == other
  {
  }

  /** With one branch per patch, every group of the grouping is that branch's `GroupAt`. */
  lemma GroupsAreGroupAt(patches: seq<JiraPatch>, branches: seq<string>, groups: map<string, seq<JiraPatch>>)
    requires |branches| == |patches|
    requires forall k | 0 <= k < |patches| :: patches[k].targetBranches == [branches[k]]
    requires forall b | b in groups :: groups[b] == GroupOf(patches, b)
    ensures forall b | b in groups :: GroupAt(patches, branches, b) == groups[b]
  {
    forall b | b in groups
      ensures GroupAt(patches, branches, b) == groups[b]
    {
      GroupOfIsGroupAt(patches, branches, b);
    }
  }

  /** Every group's branch is the branch of some patch, and the other way round. */
  lemma GroupKeysAreBranches(patches: seq<JiraPatch>, branches: seq<string>, groups: map<string, seq<JiraPatch>>)
    requires |branches| == |patches|
    requires forall k | 0 <= k < |patches| :: patches[k].targetBranches == [branches[k]]
    requires forall b :: b in groups <==> exists p | p in patches :: |p.targetBranches| >= 1 && p.targetBranches[0] == b
    ensures forall b :: b in groups <==> b in branches
  {
    forall b ensures b in groups <==> b in branches {
      if b in groups {
        var p :| p in patches && |p.targetBranches| >= 1 && p.targetBranches[0] == b;
        var k :| 0 <= k < |patches| && patches[k] == p;
        assert branches[k] == b;
      }
      if b in branches {
        var k :| 0 <= k < |branches| && branches[k] == b;
        assert patches[k] in patches && patches[k].targetBranches[0] == b;
      }
    }
  }

  /**
    The latest patch of every group belongs to that group: it is one of the
    patches, well formed, and targets the group's branch first.
  */
  lemma LatestPerBranchWellFormed(patches: seq<JiraPatch>, groups: map<string, seq<JiraPatch>>,
                                  latest: map<string, JiraPatch>)
    requires forall k | 0 <= k < |patches| :: patches[k].Valid()
    requires forall b | b in groups :: groups[b] == GroupOf(patches, b) && |groups[b]| > 0
    requires forall b | b in latest :: b in groups && latest[b] == Latest(groups[b])
    ensures PatchPerBranch(latest)
    ensures forall b | b in latest :: latest[b] in patches
  {
    forall b | b in latest
      ensures latest[b] in patches && latest[b].Valid() && latest[b].targetBranches[0] == b
    {
      LatestIsEarliestNewest(groups[b]);
      GroupOfMembers(patches, b);
      var k :| IsEarliestNewest(groups[b], k) && Latest(groups[b]) == groups[b][k];
      assert latest[b] in GroupOf(patches, b);
    }
  }

  /** The branches with a latest patch are exactly the branches the attachment names parsed to. */
  lemma BranchKeysAreParsedBranches(patches: seq<JiraPatch>, parsed: seq<ParsedPatch>, latest: map<string, JiraPatch>)
    requires |patches| == |parsed|
    requires forall k | 0 <= k < |patches| :: patches[k].targetBranches == [parsed[k].branch]
    requires forall b :: b in latest <==> exists p | p in patches :: |p.targetBranches| >= 1 && p.targetBranches[0] == b
    ensures forall b :: b in latest <==> exists p | p in parsed :: p.branch == b
  {
    forall b ensures b in latest <==> exists p | p in parsed :: p.branch == b {
      if b in latest {
        var p :| p in patches && |p.targetBranches| >= 1 && p.targetBranches[0] == b;
        var k :| 0 <= k < |patches| && patches[k] == p;
        assert parsed[k] in parsed;
      }
      if exists p | p in parsed :: p.branch == b {
        var p :| p in parsed && p.branch == b;
        var k :| 0 <= k < |parsed| && parsed[k] == p;
        assert patches[k] in patches;
      }
    }
  }
}

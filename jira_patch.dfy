/** `JiraPatch`, `PatchOwner` and `PatchOverallStatus` of reviewsync/jira_patch.py. */
module JiraPatches {
  import opened Wrappers
  import opened Applicability

  /** The assignee of an issue. It has no `__eq__`, so two owners are equal only if they are one object. */
  class PatchOwner {
    const name: string
    const displayName: string

    constructor (name: string, displayName: string)
      ensures this.name == name && this.displayName == displayName
    {
      this.name := name;
      this.displayName := displayName;
    }
  }

  /** The per-issue summary written back to the sheet and shown in the table. */
  datatype PatchOverallStatus = PatchOverallStatus(status: string)

  /** The fields `__hash__` hashes, the owner by identity. */
  datatype PatchKey = PatchKey(issueId: string, owner: PatchOwner, filename: string, targetBranches: seq<string>)

  /**
    One attachment of an issue, resolved to the branches it should be applied to.
    Only the branch list, the applicability map, the overall status and the file
    path ever change after construction.
  */
  class JiraPatch {
    const issueId: string
    const owner: PatchOwner
    const ownerShort: string
    const ownerDisplayName: string
    const version: string
    const filename: string
    var targetBranches: seq<string>
    var applicability: map<string, PatchApplicability>
    var overallStatus: PatchOverallStatus
    /** None until `set_patch_file_path` has run (the attribute does not exist before). */
    var filePath: Option<string>

    /** The branch list is never empty and the applicability map has exactly its branches as keys. */
    ghost predicate Valid()
      reads this
    {
      |targetBranches| >= 1 && forall b :: b in applicability <==> b in targetBranches
    }

    constructor (issueId: string, owner: PatchOwner, version: string, targetBranch: string,
                 patchFile: string, applicability: PatchApplicability)
      ensures Valid()
      ensures this.issueId == issueId && this.owner == owner && this.version == version && this.filename == patchFile
      ensures ownerShort == owner.name && ownerDisplayName == owner.displayName
      ensures targetBranches == [targetBranch] && this.applicability == map[targetBranch := applicability]
      ensures overallStatus == PatchOverallStatus("N/A") && filePath == None
    {
      this.issueId := issueId;
      this.owner := owner;
      this.ownerShort := owner.name;
      this.ownerDisplayName := owner.displayName;
      this.version := version;
      this.filename := patchFile;
      this.targetBranches := [targetBranch];
      this.applicability := map[targetBranch := applicability];
      this.overallStatus := PatchOverallStatus("N/A");
      this.filePath := None;
    }

    /** `get_applicability`: a plain dictionary lookup, `KeyError` for a branch without entry. */
    function GetApplicability(branch: string): (r: Result<PatchApplicability>)
      reads this
      ensures r.Success? <==> branch in applicability
      ensures r.Success? ==> r.value == applicability[branch]
      ensures r.Failure? ==> r.error == KeyError(branch)
    {
      if branch in applicability then Success(applicability[branch]) else Failure(KeyError(branch))
    }

    method SetPatchFilePath(filePath: string)
      modifies this`filePath
      ensures this.filePath == Some(filePath)
    {
      this.filePath := Some(filePath);
    }

    /** Replaces the overall status; nothing else of the patch changes. */
    method SetOverallStatus(overallStatus: PatchOverallStatus)
      modifies this`overallStatus
      ensures this.overallStatus == overallStatus
    {
      this.overallStatus := overallStatus;
    }

    /**
      Appends `branch` to the target branches and sets its applicability;
      every other branch keeps its entry.
    */
    method AddAdditionalBranch(branch: string, applicability: PatchApplicability)
      requires Valid()
      modifies this`targetBranches, this`applicability
      ensures Valid()
      ensures targetBranches == old(targetBranches) + [branch]
      ensures this.applicability == old(this.applicability)[branch := applicability]
      ensures IsApplicableForBranch(branch) == applicability.applicable
      ensures forall b :: b != branch ==> IsApplicableForBranch(b) == old(IsApplicableForBranch(b))
    {
      targetBranches := targetBranches + [branch];
      this.applicability := this.applicability[branch := applicability];
    }

    /** False for a branch without an entry, otherwise the stored flag. */
    predicate IsApplicableForBranch(branch: string)
      reads this
      ensures IsApplicableForBranch(branch) ==> branch in applicability
    {
      branch in applicability && applicability[branch].applicable
    }

    /** The stored reason (possibly None), or "Unknown" for a branch without an entry. */
    function GetReasonForNonApplicability(branch: string): (r: Option<string>)
      reads this
      ensures branch !in applicability ==> r == Some("Unknown")
      ensures branch in applicability ==> r == applicability[branch].reason
    {
      if branch in applicability then applicability[branch].reason else Some("Unknown")
    }

    /** Applicable to at least one branch. */
    predicate IsApplicable()
      reads this
    {
      exists b :: b in applicability && applicability[b].applicable
    }

    /** `__eq__`: issue id, owner object, file name and the ordered branch list; version and applicability do not matter. */
    predicate Equals(other: JiraPatch)
      reads this, other
    {
      issueId == other.issueId && owner == other.owner && filename == other.filename
      && targetBranches == other.targetBranches
    }

    /** The tuple `__hash__` hashes. */
    function HashKey(): (k: PatchKey)
      reads this
      ensures k.issueId == issueId && k.owner == owner && k.filename == filename && k.targetBranches == targetBranches
    {
      PatchKey(issueId, owner, filename, targetBranches)
    }
  }

  /** `is_applicable` holds exactly when some target branch is applicable. */
  lemma IsApplicableIffSomeTargetBranch(p: JiraPatch)
    requires p.Valid()
    ensures p.IsApplicable() <==> exists i :: 0 <= i < |p.targetBranches| && p.IsApplicableForBranch(p.targetBranches[i])
  {
    if p.IsApplicable() {
      var b :| b in p.applicability && p.applicability[b].applicable;
      var i :| 0 <= i < |p.targetBranches| && p.targetBranches[i] == b;
      assert p.IsApplicableForBranch(p.targetBranches[i]);
    }
  }

  /**
    Equality and hashing agree: two patches are equal exactly when they hash the
    same tuple, so a Python set keeps one of them.
  */
  lemma EqualsIffSameHashKey(p: JiraPatch, q: JiraPatch)
    ensures p.Equals(q) <==> p.HashKey() == q.HashKey()
  {
  }

  /** `__eq__` is an equivalence relation, as a set's deduplication needs. */
  lemma EqualsIsEquivalence(p: JiraPatch, q: JiraPatch, o: JiraPatch)
    ensures p.Equals(p)
    ensures p.Equals(q) ==> q.Equals(p)
    ensures p.Equals(q) && q.Equals(o) ==> p.Equals(o)
  {
  }
}

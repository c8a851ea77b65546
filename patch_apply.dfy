/** `PatchApply` and `PatchStatus` of reviewsync/patch_apply.py: the outcome of applying a patch to one branch. */
module PatchApply {
  import opened Wrappers
  import opened Applicability
  import opened JiraPatches
  import opened GitUtils

  const APPLIES_CLEANLY: string := "APPLIES CLEANLY"
  const CONFLICT: string := "CONFLICT"
  const PATCH_ALREADY_COMMITTED: string := "PATCH_ALREADY_COMMITTED"
  const ALLOWED_VALUES: set<string> := {APPLIES_CLEANLY, CONFLICT, PATCH_ALREADY_COMMITTED}

  /** The messages of the errors the constructor raises. */
  const UNKNOWN_RESULT_MESSAGE: string := "result must be a value found in PatchStatus!"
  const CONFLICTS_WITHOUT_CONFLICT_MESSAGE: string := "Number of conflicts should be specified only if value of result is 'PatchStatus.CONFLICT'!"
  const DETAILS_WITHOUT_CONFLICT_MESSAGE: string := "Conflict details should be specified only if value of result is 'PatchStatus.CONFLICT'!"
  const UNHASHABLE_LIST_MESSAGE: string := "unhashable type: 'list'"

  /**
    One apply attempt. `branch` is the remote branch name as given, `explicit`
    is copied from the patch's applicability entry for its local name.
  */
  datatype PatchApply = PatchApply(patch: JiraPatch, branch: string, explicit: bool, result: string,
                                   conflicts: int, conflictDetails: Option<string>)

  /** What the constructor guarantees: a known status, and conflicts only for a conflict. */
  predicate ValidApply(pa: PatchApply) {
    pa.result in ALLOWED_VALUES && (pa.result != CONFLICT ==> pa.conflicts <= 0 && !Truthy(pa.conflictDetails))
  }

  /**
    `PatchApply(patch, branch, result, conflicts=0, conflict_details=None)`.
    The applicability lookup comes first: a branch name without "/" converts to
    a list, which cannot be a dictionary key (`TypeError`); a local name the
    patch has no entry for is a `KeyError`. Then the status is validated.
  */
  function NewPatchApply(patch: JiraPatch, branch: string, result: string, conflicts: int := 0,
                         conflictDetails: Option<string> := None): (r: Result<PatchApply>)
    reads patch
    ensures var local := ConvertRemoteBranchNameToLocal(branch);
            && (local.UnsplitList? ==> r.Failure? && r.error.TypeError?)
            && (local.LocalName? && local.name !in patch.applicability ==> r == Failure(KeyError(local.name)))
            && (r.Success? <==>
                  && local.LocalName? && local.name in patch.applicability
                  && result in ALLOWED_VALUES
                  && (result != CONFLICT ==> conflicts <= 0 && !Truthy(conflictDetails)))
            && (r.Success? ==>
                  && ValidApply(r.value)
                  && r.value.explicit == patch.applicability[local.name].explicit
                  && r.value.patch == patch && r.value.branch == branch && r.value.result == result
                  && r.value.conflicts == conflicts && r.value.conflictDetails == conflictDetails)
  {
    match ConvertRemoteBranchNameToLocal(branch)
    case UnsplitList(_) => Failure(TypeError(UNHASHABLE_LIST_MESSAGE))
    case LocalName(localBranch) =>
      match patch.GetApplicability(localBranch)
      case Failure(e) => Failure(e)
      case Success(a) =>
        if result !in ALLOWED_VALUES then
          Failure(ValueError(UNKNOWN_RESULT_MESSAGE))
        else if result != CONFLICT && conflicts > 0 then
          Failure(ValueError(CONFLICTS_WITHOUT_CONFLICT_MESSAGE))
        else if result != CONFLICT && Truthy(conflictDetails) then
          Failure(ValueError(DETAILS_WITHOUT_CONFLICT_MESSAGE))
        else
          Success(PatchApply(patch, branch, a.explicit, result, conflicts, conflictDetails))
  }
}

/** `PatchApplicability` of reviewsync/patch_apply.py: may a patch go onto one branch, and why not. */
module Applicability {
  import opened Wrappers

  /**
    `explicit` is false only for a branch the default-branch patch was extended
    onto; `reason` is Python's optional reason string.
  */
  datatype PatchApplicability = PatchApplicability(applicable: bool, reason: Option<string>, explicit: bool)

  /** Python truthiness of an optional string: neither None nor "". */
  predicate Truthy(s: Option<string>) {
    s.Some? && s.value != ""
  }

  /** What the constructor guarantees: a non-applicable entry always says why. */
  predicate ValidApplicability(a: PatchApplicability) {
    a.applicable || Truthy(a.reason)
  }

  /**
    `PatchApplicability(applicable, reason=None, explicit=True)`: refuses a
    non-applicable entry without a reason.
  */
  function NewPatchApplicability(applicable: bool, reason: Option<string> := None, explicit: bool := true): (r: Result<PatchApplicability>)
    ensures r.Failure? <==> !applicable && !Truthy(reason)
    ensures r.Failure? ==> r.error.ValueError?
    ensures r.Success? ==> ValidApplicability(r.value)
    ensures r.Success? ==> r.value.applicable == applicable && r.value.reason == reason && r.value.explicit == explicit
  {
    if !applicable && !Truthy(reason) then
      Failure(ValueError("Reason should be specified is Patch is not applicable!"))
    else
      Success(PatchApplicability(applicable, reason, explicit))
  }

  /** With only the flag given, an applicable entry is explicit and has no reason. */
  lemma ApplicableDefaults()
    ensures NewPatchApplicability(true) == Success(PatchApplicability(true, None, true))
  {
  }
}

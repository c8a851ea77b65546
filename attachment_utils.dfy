/**
  `AttachmentUtils.get_latest_patches_per_branch` of reviewsync/attachment_utils.py:
  every branch's patch list is sorted by version, newest first, and the head of
  each list is the branch's latest patch. Versions are the digit strings the file
  name parser captured, so they are ordered as Python strings, not as numbers.
*/
module AttachmentUtils {
  import opened Wrappers
  import opened PyText
  import opened JiraPatches

  /** The message of the error for a patch without target branches (its list prints as "[]"). */
  const NO_TARGET_BRANCH_MESSAGE: string := "Expected at least one target branch for patch: []"

  /** Newest first: no patch is followed by one with a greater version. */
  predicate SortedByVersionDesc(ps: seq<JiraPatch>) {
    forall i, j | 0 <= i < j < |ps| :: !StrLess(ps[i].version, ps[j].version)
  }

  /**
    Puts `p`, which came before every element of `ps` in the original list,
    in front of the first element whose version is not greater than its own.
  */
  function InsertByVersionDesc(p: JiraPatch, ps: seq<JiraPatch>): (r: seq<JiraPatch>)
    ensures |r| == |ps| + 1
  {
    if ps == [] || !StrLess(p.version, ps[0].version) then [p] + ps
    else [ps[0]] + InsertByVersionDesc(p, ps[1..])
  }

  /** Inserting adds exactly `p`. */
  lemma {:induction false} InsertIsPermutation(p: JiraPatch, ps: seq<JiraPatch>)
    ensures multiset(InsertByVersionDesc(p, ps)) == multiset(ps) + multiset{p}
  {
    if ps != [] && StrLess(p.version, ps[0].version) {
      InsertIsPermutation(p, ps[1..]);
      assert ps == [ps[0]] + ps[1..];
    }
  }

  /** `patches.sort(key=lambda patch: patch.version, reverse=True)`: a stable sort, newest first. */
  function SortByVersionDesc(ps: seq<JiraPatch>): (r: seq<JiraPatch>)
    ensures |r| == |ps|
  {
    if ps == [] then [] else InsertByVersionDesc(ps[0], SortByVersionDesc(ps[1..]))
  }

  /** Inserting into a list sorted newest first keeps it sorted. */
  lemma {:induction false} InsertKeepsSorted(p: JiraPatch, ps: seq<JiraPatch>)
    requires SortedByVersionDesc(ps)
    ensures SortedByVersionDesc(InsertByVersionDesc(p, ps))
  {
    var r := InsertByVersionDesc(p, ps);
    if ps == [] || !StrLess(p.version, ps[0].version) {
      if ps != [] {
        StrLessIrreflexive(ps[0].version);
      }
      forall j | 1 <= j < |r| ensures !StrLess(p.version, r[j].version) {
        StrNotLessTransitive(p.version, ps[0].version, ps[j - 1].version);
      }
    } else {
      var rest := InsertByVersionDesc(p, ps[1..]);
      InsertKeepsSorted(p, ps[1..]);
      InsertIsPermutation(p, ps[1..]);
      StrLessAsymmetric(p.version, ps[0].version);
      forall j | 0 <= j < |rest| ensures !StrLess(ps[0].version, rest[j].version) {
        assert rest[j] in multiset(rest);
        assert rest[j] == p || rest[j] in multiset(ps[1..]);
        if rest[j] != p {
          var k :| 0 <= k < |ps[1..]| && ps[1..][k] == rest[j];
          assert ps[k + 1] == rest[j];
        }
      }
    }
  }

  /** The sorted list is a reordering of the input, newest first. */
  lemma {:induction false} SortByVersionDescIsSortedPermutation(ps: seq<JiraPatch>)
    ensures multiset(SortByVersionDesc(ps)) == multiset(ps)
    ensures SortedByVersionDesc(SortByVersionDesc(ps))
  {
    if ps != [] {
      SortByVersionDescIsSortedPermutation(ps[1..]);
      InsertIsPermutation(ps[0], SortByVersionDesc(ps[1..]));
      InsertKeepsSorted(ps[0], SortByVersionDesc(ps[1..]));
      assert ps == [ps[0]] + ps[1..];
    }
  }

  /** The patch at the head of the sorted list. */
  function Latest(ps: seq<JiraPatch>): (p: JiraPatch)
    requires |ps| > 0
  {
    SortByVersionDesc(ps)[0]
  }

  /** `ps[k]` has the greatest version, and every patch before it a smaller one. */
  predicate IsEarliestNewest(ps: seq<JiraPatch>, k: int) {
    && 0 <= k < |ps|
    && (forall j | 0 <= j < |ps| :: !StrLess(ps[k].version, ps[j].version))
    && (forall j | 0 <= j < k :: StrLess(ps[j].version, ps[k].version))
  }

  /**
    The latest patch is a member of the list with a version no smaller than any
    other, and among patches of equal version it is the one listed first, since
    Python's sort stays stable under `reverse=True`.
  */
  lemma {:induction false} LatestIsEarliestNewest(ps: seq<JiraPatch>)
    requires |ps| > 0
    ensures exists k :: IsEarliestNewest(ps, k) && Latest(ps) == ps[k]
  {
    var p := ps[0];
    if |ps| == 1 {
      StrLessIrreflexive(p.version);
      assert IsEarliestNewest(ps, 0);
    } else {
      var rest := ps[1..];
      LatestIsEarliestNewest(rest);
      var k' :| IsEarliestNewest(rest, k') && Latest(rest) == rest[k'];
      var h := rest[k'];
      if !StrLess(p.version, h.version) {
        StrLessIrreflexive(p.version);
        forall j | 1 <= j < |ps| ensures !StrLess(p.version, ps[j].version) {
          StrNotLessTransitive(p.version, h.version, rest[j - 1].version);
        }
        assert IsEarliestNewest(ps, 0);
      } else {
        StrLessAsymmetric(p.version, h.version);
        assert IsEarliestNewest(ps, k' + 1);
      }
    }
  }

  /**
    Lines 6-7 of `get_latest_patches_per_branch`: every branch's list sorted
    newest first (in place in the source; here the dictionary afterwards).
  */
  method SortEachBranch(patchesDict: map<string, seq<JiraPatch>>) returns (sortedDict: map<string, seq<JiraPatch>>)
    ensures sortedDict.Keys == patchesDict.Keys
    ensures forall b | b in patchesDict :: sortedDict[b] == SortByVersionDesc(patchesDict[b])
  {
    var keys := patchesDict.Keys;
    sortedDict := map[];
    while keys != {}
      invariant keys <= patchesDict.Keys
      invariant sortedDict.Keys == patchesDict.Keys - keys
      invariant forall b {:trigger SortByVersionDesc(patchesDict[b])} | b in sortedDict :: sortedDict[b] == SortByVersionDesc(patchesDict[b])
      decreases |keys|
    {
      var b :| b in keys;
      sortedDict := sortedDict[b := SortByVersionDesc(patchesDict[b])];
      keys := keys - {b};
    }
  }

  /**
    Lines 9-14 of `get_latest_patches_per_branch`: each branch mapped to the
    head of its list; an empty list raises `ValueError`.
  */
  method HeadPerBranch(sortedDict: map<string, seq<JiraPatch>>) returns (r: Result<map<string, JiraPatch>>)
    ensures r.Failure? <==> exists b :: b in sortedDict && |sortedDict[b]| == 0
    ensures r.Failure? ==> r.error.ValueError?
    ensures r.Success? ==> r.value.Keys == sortedDict.Keys
    ensures r.Success? ==> forall b | b in r.value :: |sortedDict[b]| > 0 && r.value[b] == sortedDict[b][0]
  {
    var result: map<string, JiraPatch> := map[];
    var keys := sortedDict.Keys;
    while keys != {}
      invariant keys <= sortedDict.Keys
      invariant forall b :: b in result <==> b in sortedDict && b !in keys
      invariant forall b | b in result :: |sortedDict[b]| > 0 && result[b] == sortedDict[b][0]
      decreases |keys|
    {
      var b :| b in keys;
      var patches := sortedDict[b];
      if |patches| == 0 {
        r := Failure(ValueError(NO_TARGET_BRANCH_MESSAGE));
        return;
      }
      result := result[b := patches[0]];
      keys := keys - {b};
    }
    r := Success(result);
  }

  /**
    `get_latest_patches_per_branch`: sorts every branch's list newest first
    (`sortedDict` is the dictionary afterwards) and maps each branch to the
    newest patch of its list. An empty list raises `ValueError`.
  */
  method GetLatestPatchesPerBranch(patchesDict: map<string, seq<JiraPatch>>)
    returns (sortedDict: map<string, seq<JiraPatch>>, r: Result<map<string, JiraPatch>>)
    ensures sortedDict.Keys == patchesDict.Keys
    ensures forall b | b in patchesDict :: sortedDict[b] == SortByVersionDesc(patchesDict[b])
    ensures r.Failure? <==> exists b :: b in patchesDict && |patchesDict[b]| == 0
    ensures r.Failure? ==> r.error.ValueError?
    ensures r.Success? ==> r.value.Keys == patchesDict.Keys
    ensures r.Success? ==> forall b | b in r.value :: |patchesDict[b]| > 0 && r.value[b] == Latest(patchesDict[b])
  {
    sortedDict := SortEachBranch(patchesDict);
    r := HeadPerBranch(sortedDict);
  }
}

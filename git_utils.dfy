/** Remote-to-local branch name conversion of reviewsync/git_utils.py. */
module GitUtils {
  import opened PyText

  /** `s.lstrip()`: leading whitespace goes, trailing whitespace stays. */
  function LStrip(s: string): (r: string)
    ensures |r| <= |s| && r == s[|s| - |r|..]
    ensures forall i :: 0 <= i < |s| - |r| ==> IsWhitespace(s[i])
    ensures r == [] || !IsWhitespace(r[0])
  {
    if s != [] && IsWhitespace(s[0]) then LStrip(s[1..]) else s
  }

  /** `s.rsplit(sep, 1)`: split once, at the last occurrence of `sep`. */
  function RSplitOnce(s: string, sep: char): (parts: seq<string>)
    ensures |parts| == 1 <==> sep !in s
    ensures |parts| == 1 ==> parts[0] == s
    ensures |parts| != 1 ==> |parts| == 2 && parts[0] + [sep] + parts[1] == s && sep !in parts[1]
  {
    if s == [] then [s]
    else if s[|s| - 1] == sep then
      assert s == s[..|s| - 1] + [sep];
      [s[..|s| - 1], []]
    else
      var init := s[..|s| - 1];
      var parts := RSplitOnce(init, sep);
      assert s == init + [s[|s| - 1]];
      if |parts| == 1 then [s]
      else
        assert parts[0] + [sep] + (parts[1] + [s[|s| - 1]]) == init + [s[|s| - 1]];
        [parts[0], parts[1] + [s[|s| - 1]]]
  }

  /**
    What `convert_remote_branch_name_to_local` returns: the branch name after the
    last "/", or, when there is no "/", the one-element list `rsplit` produced
    (the function returns that list itself, not its element).
  */
  datatype LocalBranch = LocalName(name: string) | UnsplitList(items: seq<string>)

  function ConvertRemoteBranchNameToLocal(remoteBranch: string): (r: LocalBranch)
    ensures '/' in LStrip(remoteBranch) <==> r.LocalName?
    ensures r.LocalName? ==>
      '/' !in r.name &&
      exists k :: 0 <= k < |LStrip(remoteBranch)| && LStrip(remoteBranch)[k] == '/' &&
        r.name == LStrip(remoteBranch)[k + 1..]
    ensures r.UnsplitList? ==> r.items == [LStrip(remoteBranch)]
  {
    var stripped := LStrip(remoteBranch);
    var splitParts := RSplitOnce(stripped, '/');
    if |splitParts| == 2 then
      var k := |splitParts[0]|;
      assert stripped[k] == '/' && stripped[k + 1..] == splitParts[1];
      LocalName(splitParts[1])
    else
      UnsplitList(splitParts)
  }

  /** "<remote>/<name>" becomes "<name>" whenever the name itself holds no "/". */
  lemma RemotePrefixDropped(remote: string, name: string)
    requires remote == [] || !IsWhitespace(remote[0])
    requires '/' !in name
    ensures ConvertRemoteBranchNameToLocal(remote + "/" + name) == LocalName(name)
  {
    var s := remote + "/" + name;
    assert LStrip(s) == s;
    assert s[|remote|] == '/';
    var r := ConvertRemoteBranchNameToLocal(s);
    var k :| 0 <= k < |s| && s[k] == '/' && r.name == s[k + 1..];
    assert k == |remote|;
  }

  /** Leading whitespace before a name that does not start with whitespace is all `lstrip` removes. */
  lemma {:induction false} LStripPrefix(ws: string, name: string)
    requires forall i | 0 <= i < |ws| :: IsWhitespace(ws[i])
    requires name == [] || !IsWhitespace(name[0])
    ensures LStrip(ws + name) == name
  {
    if ws != [] {
      assert (ws + name)[1..] == ws[1..] + name;
      LStripPrefix(ws[1..], name);
    }
  }

  /**
    A name without "/" comes back wrapped in a one-element list instead of as
    the name: the defect of the source.
  */
  lemma LocalBranchNameIsList(ws: string, name: string)
    requires forall i | 0 <= i < |ws| :: IsWhitespace(ws[i])
    requires name == [] || !IsWhitespace(name[0])
    requires '/' !in name
    ensures ConvertRemoteBranchNameToLocal(ws + name) == UnsplitList([name])
  {
    LStripPrefix(ws, name);
  }
}

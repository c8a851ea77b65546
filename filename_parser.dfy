/**
  Attachment file name parsing of reviewsync/jira_wrapper.py
  (`_get_separator_char` and `create_jira_patch_obj`).

  The three regular expressions are not run by a regex engine here. Each match
  is stated as a decomposition of the file name by index positions (a predicate
  per pattern), and a search function returns the match `re.search` reports.
  That match starts leftmost. Among matches at that start, it is the first one
  found by backtracking, which means the greedy groups are as long as possible,
  in pattern order.
*/
module FilenameParser {
  import opened Wrappers
  import opened PyText
  import opened Applicability

  /** `[a-zA-Z\-0-9.]`, the characters of a branch name in a file name. */
  predicate IsBranchChar(c: char) {
    'a' <= c <= 'z' || 'A' <= c <= 'Z' || '0' <= c <= '9' || c == '-' || c == '.'
  }

  /** s[i..j] is a non-empty run of `\w`. */
  predicate WordRun(s: string, i: int, j: int) {
    0 <= i < j <= |s| && forall k | i <= k < j :: IsWordChar(s[k])
  }

  /** s[i..j] is a non-empty run of `\d`. */
  predicate DigitRun(s: string, i: int, j: int) {
    0 <= i < j <= |s| && forall k | i <= k < j :: IsDigit(s[k])
  }

  /** s[i..j] is a non-empty run of branch-name characters. */
  predicate BranchRun(s: string, i: int, j: int) {
    0 <= i < j <= |s| && forall k | i <= k < j :: IsBranchChar(s[k])
  }

  /** `\w+-\d+` occupies s[a..c], with its "-" at b. */
  predicate KeyAt(s: string, a: int, b: int, c: int) {
    WordRun(s, a, b) && b < |s| && s[b] == '-' && DigitRun(s, b + 1, c)
  }

  /** `\.patch$` matches from d: `$` also matches just before a final newline. */
  predicate ExtensionAt(s: string, d: int) {
    0 <= d <= |s| && (s[d..] == ".patch" || s[d..] == ".patch\n")
  }

  /** `\w+-\d+(.)` matches s[a..c+1]; the captured separator is s[c] (`.` excludes a newline). */
  predicate SeparatorMatch(s: string, a: int, b: int, c: int) {
    KeyAt(s, a, b, c) && c < |s| && s[c] != '\n'
  }

  /** `(\w+-\d+)SEP(\d+)\.patch$` matches from a: issue s[a..c], version s[c+1..d]. */
  predicate DefaultMatch(s: string, sep: char, a: int, b: int, c: int, d: int) {
    KeyAt(s, a, b, c) && c < |s| && s[c] == sep && DigitRun(s, c + 1, d) && ExtensionAt(s, d)
  }

  /**
    `(\w+-\d+)SEP([a-zA-Z\-0-9.]+)SEP(\d+)\.patch$` matches from a:
    issue s[a..c], branch s[c+1..e], version s[e+1..d].
  */
  predicate BranchMatch(s: string, sep: char, a: int, b: int, c: int, e: int, d: int) {
    KeyAt(s, a, b, c) && c < |s| && s[c] == sep && BranchRun(s, c + 1, e) && e < |s| && s[e] == sep
    && DigitRun(s, e + 1, d) && ExtensionAt(s, d)
  }

  /** The separator match starting at a and ending at c is the one `re.search` reports. */
  ghost predicate SeparatorPreferred(s: string, a: int, c: int) {
    forall a', b', c' :: SeparatorMatch(s, a', b', c') ==> a < a' || (a == a' && c' <= c)
  }

  ghost predicate DefaultPreferred(s: string, sep: char, a: int, c: int) {
    forall a', b', c', d' :: DefaultMatch(s, sep, a', b', c', d') ==> a < a' || (a == a' && c' <= c)
  }

  ghost predicate BranchPreferred(s: string, sep: char, a: int, c: int, e: int) {
    forall a', b', c', e', d' :: BranchMatch(s, sep, a', b', c', e', d') ==>
      a < a' || (a == a' && (c' < c || (c' == c && e' <= e)))
  }

  // ---------------------------------------------------------------------------
  // Searching

  /** The smallest k in [lo, hi) satisfying p. */
  function FindFirst(lo: int, hi: int, p: int -> bool): (r: Option<int>)
    decreases hi - lo
    ensures r.Some? ==> lo <= r.value < hi && p(r.value) && forall k :: lo <= k < r.value ==> !p(k)
    ensures r.None? ==> forall k :: lo <= k < hi ==> !p(k)
  {
    if hi <= lo then None
    else if p(lo) then Some(lo)
    else FindFirst(lo + 1, hi, p)
  }

  /** The largest k in [lo, hi) satisfying p. */
  function FindLast(lo: int, hi: int, p: int -> bool): (r: Option<int>)
    decreases hi - lo
    ensures r.Some? ==> lo <= r.value < hi && p(r.value) && forall k :: r.value < k < hi ==> !p(k)
    ensures r.None? ==> forall k :: lo <= k < hi ==> !p(k)
  {
    if hi <= lo then None
    else if p(hi - 1) then Some(hi - 1)
    else FindLast(lo, hi - 1, p)
  }

  /** Where `\w+` starting at a stops: the first non-word character at or after a. */
  function WordEnd(s: string, a: nat): (j: nat)
    requires a <= |s|
    decreases |s| - a
    ensures a <= j <= |s|
    ensures forall k | a <= k < j :: IsWordChar(s[k])
    ensures j == |s| || !IsWordChar(s[j])
  {
    if a == |s| || !IsWordChar(s[a]) then a else WordEnd(s, a + 1)
  }

  /** "-" is not a word character, so `\w+-` can only stop where the word run stops. */
  lemma KeyDashIsWordEnd(s: string, a: int, b: int, c: int)
    requires KeyAt(s, a, b, c)
    ensures b == WordEnd(s, a)
  {
  }

  /** Where `\.patch$` can start, if anywhere. */
  function ExtensionStart(s: string): Option<nat> {
    if |s| >= 6 && s[|s| - 6..] == ".patch" then Some(|s| - 6)
    else if |s| >= 7 && s[|s| - 7..] == ".patch\n" then Some(|s| - 7)
    else None
  }

  /** `\.patch$` has at most one place to match, and `ExtensionStart` finds it. */
  lemma ExtensionStartSpec(s: string)
    ensures ExtensionStart(s).Some? ==> ExtensionAt(s, ExtensionStart(s).value)
    ensures forall d :: ExtensionAt(s, d) ==> ExtensionStart(s) == Some(d)
  {
    forall d | ExtensionAt(s, d) ensures ExtensionStart(s) == Some(d) {
      assert |s[d..]| == |s| - d && s[|s| - 1] == s[d..][|s| - 1 - d];
    }
  }

  // ---------------------------------------------------------------------------
  // `_get_separator_char`

  /** Does a separator match from a, with its "-" at b, end at c? */
  function SeparatorEndTest(s: string, a: int, b: int): int -> bool {
    c => SeparatorMatch(s, a, b, c)
  }

  /** The end of the match of `\w+-\d+(.)` that backtracking finds first from start a. */
  function SeparatorAt(s: string, a: nat): Option<int>
    requires a <= |s|
  {
    FindLast(0, |s|, SeparatorEndTest(s, a, WordEnd(s, a)))
  }

  lemma SeparatorAtSpec(s: string, a: nat)
    requires a <= |s|
    ensures SeparatorAt(s, a).Some? ==> SeparatorMatch(s, a, WordEnd(s, a), SeparatorAt(s, a).value)
    ensures SeparatorAt(s, a).Some? ==> forall b', c' :: SeparatorMatch(s, a, b', c') ==> c' <= SeparatorAt(s, a).value
    ensures SeparatorAt(s, a).None? ==> forall b', c' :: !SeparatorMatch(s, a, b', c')
  {
    var p := SeparatorEndTest(s, a, WordEnd(s, a));
    forall b', c' | SeparatorMatch(s, a, b', c') ensures 0 <= c' < |s| && p(c') {
      KeyDashIsWordEnd(s, a, b', c');
    }
  }

  /** Positions of a separator match: `\w+-\d+` is s[a..c] with its "-" at b, the separator is s[c]. */
  datatype KeySpan = KeySpan(a: nat, b: nat, c: nat)

  /** Does some separator match start at a? */
  function SeparatorStartTest(s: string): int -> bool {
    a => 0 <= a <= |s| && SeparatorAt(s, a).Some?
  }

  /** `re.search(r'\w+-\d+(.)', s)`. */
  function SearchSeparator(s: string): Option<KeySpan> {
    match FindFirst(0, |s| + 1, SeparatorStartTest(s))
    case None => None
    case Some(a) => Some(KeySpan(a, WordEnd(s, a), SeparatorAt(s, a).value))
  }

  /** `SearchSeparator` reports a match exactly when there is one, and then the leftmost, longest one. */
  lemma SearchSeparatorSpec(s: string)
    ensures SearchSeparator(s).None? <==> !exists a, b, c :: SeparatorMatch(s, a, b, c)
    ensures SearchSeparator(s).Some? ==>
              var m := SearchSeparator(s).value;
              SeparatorMatch(s, m.a, m.b, m.c) && SeparatorPreferred(s, m.a, m.c)
  {
    var p := SeparatorStartTest(s);
    forall a, b, c | SeparatorMatch(s, a, b, c) ensures p(a) {
      SeparatorAtSpec(s, a);
    }
    match FindFirst(0, |s| + 1, p)
    case None =>
    case Some(a) =>
      SeparatorAtSpec(s, a);
      forall a', b', c' | SeparatorMatch(s, a', b', c') && a' == a ensures c' <= SeparatorAt(s, a).value {
      }
  }

  /**
    `_get_separator_char`: the character right after the first `WORD-DIGITS`
    occurrence, or None when there is no such occurrence followed by a character.
  */
  function GetSeparatorChar(filename: string): Option<char> {
    match SearchSeparator(filename)
    case None => None
    case Some(m) => Some(filename[m.c])
  }

  lemma GetSeparatorCharSpec(filename: string)
    ensures GetSeparatorChar(filename).None? <==> !exists a, b, c :: SeparatorMatch(filename, a, b, c)
    ensures GetSeparatorChar(filename).Some? ==>
              exists a, b, c :: SeparatorMatch(filename, a, b, c) && SeparatorPreferred(filename, a, c)
                                && GetSeparatorChar(filename).value == filename[c]
  {
    SearchSeparatorSpec(filename);
  }

  // ---------------------------------------------------------------------------
  // The two file name patterns of `create_jira_patch_obj`

  /** Positions of a default-branch match: issue s[a..c], version s[c+1..d]. */
  datatype DefaultSpan = DefaultSpan(a: nat, b: nat, c: nat, d: nat)

  /** Positions of an explicit-branch match: issue s[a..c], branch s[c+1..e], version s[e+1..d]. */
  datatype BranchSpan = BranchSpan(a: nat, b: nat, c: nat, e: nat, d: nat)

  function DefaultEndTest(s: string, sep: char, a: int, b: int, d: int): int -> bool {
    c => DefaultMatch(s, sep, a, b, c, d)
  }

  function DefaultAt(s: string, sep: char, a: nat, d: nat): Option<int>
    requires a <= |s|
  {
    FindLast(0, |s|, DefaultEndTest(s, sep, a, WordEnd(s, a), d))
  }

  lemma DefaultAtSpec(s: string, sep: char, a: nat, d: nat)
    requires a <= |s|
    ensures DefaultAt(s, sep, a, d).Some? ==> DefaultMatch(s, sep, a, WordEnd(s, a), DefaultAt(s, sep, a, d).value, d)
    ensures DefaultAt(s, sep, a, d).Some? ==> forall b', c' :: DefaultMatch(s, sep, a, b', c', d) ==> c' <= DefaultAt(s, sep, a, d).value
    ensures DefaultAt(s, sep, a, d).None? ==> forall b', c' :: !DefaultMatch(s, sep, a, b', c', d)
  {
    var p := DefaultEndTest(s, sep, a, WordEnd(s, a), d);
    forall b', c' | DefaultMatch(s, sep, a, b', c', d) ensures 0 <= c' < |s| && p(c') {
      KeyDashIsWordEnd(s, a, b', c');
    }
  }

  function DefaultStartTest(s: string, sep: char, d: nat): int -> bool {
    a => 0 <= a <= |s| && DefaultAt(s, sep, a, d).Some?
  }

  /** `re.search(r'(\w+-\d+)' + SEP + r'(\d+)\.patch$', s)`. */
  function SearchDefault(s: string, sep: char): Option<DefaultSpan> {
    match ExtensionStart(s)
    case None => None
    case Some(d) =>
      match FindFirst(0, |s| + 1, DefaultStartTest(s, sep, d))
      case None => None
      case Some(a) => Some(DefaultSpan(a, WordEnd(s, a), DefaultAt(s, sep, a, d).value, d))
  }

  /** `SearchDefault` reports a match exactly when there is one, and then the leftmost, longest one. */
  lemma SearchDefaultSpec(s: string, sep: char)
    ensures SearchDefault(s, sep).None? <==> !exists a, b, c, d :: DefaultMatch(s, sep, a, b, c, d)
    ensures SearchDefault(s, sep).Some? ==>
              var m := SearchDefault(s, sep).value;
              DefaultMatch(s, sep, m.a, m.b, m.c, m.d) && DefaultPreferred(s, sep, m.a, m.c)
  {
    ExtensionStartSpec(s);
    match ExtensionStart(s)
    case None =>
    case Some(d) =>
      var p := DefaultStartTest(s, sep, d);
      forall a, b, c, d' | DefaultMatch(s, sep, a, b, c, d') ensures d' == d && p(a) {
        DefaultAtSpec(s, sep, a, d);
      }
      match FindFirst(0, |s| + 1, p)
      case None =>
      case Some(a) =>
        DefaultAtSpec(s, sep, a, d);
  }

  function BranchEndTest(s: string, sep: char, a: int, b: int, c: int, d: int): int -> bool {
    e => BranchMatch(s, sep, a, b, c, e, d)
  }

  /** The largest e completing a branch match with the given a, b, c, d. */
  function BranchEndAt(s: string, sep: char, a: int, b: int, c: int, d: int): Option<int> {
    FindLast(0, |s|, BranchEndTest(s, sep, a, b, c, d))
  }

  lemma BranchEndAtSpec(s: string, sep: char, a: int, b: int, c: int, d: int)
    ensures BranchEndAt(s, sep, a, b, c, d).Some? ==> BranchMatch(s, sep, a, b, c, BranchEndAt(s, sep, a, b, c, d).value, d)
    ensures BranchEndAt(s, sep, a, b, c, d).Some? ==>
              forall e' :: BranchMatch(s, sep, a, b, c, e', d) ==> e' <= BranchEndAt(s, sep, a, b, c, d).value
    ensures BranchEndAt(s, sep, a, b, c, d).None? ==> forall e' :: !BranchMatch(s, sep, a, b, c, e', d)
  {
    var p := BranchEndTest(s, sep, a, b, c, d);
    assert forall e' :: BranchMatch(s, sep, a, b, c, e', d) ==> 0 <= e' < |s| && p(e');
  }

  function BranchMidTest(s: string, sep: char, a: int, b: int, d: int): int -> bool {
    c => BranchEndAt(s, sep, a, b, c, d).Some?
  }

  function BranchAt(s: string, sep: char, a: nat, d: nat): Option<(int, int)>
    requires a <= |s|
  {
    var b := WordEnd(s, a);
    match FindLast(0, |s|, BranchMidTest(s, sep, a, b, d))
    case None => None
    case Some(c) => Some((c, BranchEndAt(s, sep, a, b, c, d).value))
  }

  lemma BranchAtSpec(s: string, sep: char, a: nat, d: nat)
    requires a <= |s|
    ensures BranchAt(s, sep, a, d).Some? ==>
              BranchMatch(s, sep, a, WordEnd(s, a), BranchAt(s, sep, a, d).value.0, BranchAt(s, sep, a, d).value.1, d)
    ensures BranchAt(s, sep, a, d).Some? ==> forall b', c', e' :: BranchMatch(s, sep, a, b', c', e', d) ==>
              c' < BranchAt(s, sep, a, d).value.0 || (c' == BranchAt(s, sep, a, d).value.0 && e' <= BranchAt(s, sep, a, d).value.1)
    ensures BranchAt(s, sep, a, d).None? ==> forall b', c', e' :: !BranchMatch(s, sep, a, b', c', e', d)
  {
    var b := WordEnd(s, a);
    var p := BranchMidTest(s, sep, a, b, d);
    forall b', c', e' | BranchMatch(s, sep, a, b', c', e', d) ensures b' == b && 0 <= c' < |s| && p(c') {
      KeyDashIsWordEnd(s, a, b', c');
      BranchEndAtSpec(s, sep, a, b, c', d);
    }
    match FindLast(0, |s|, p)
    case None =>
    case Some(c) =>
      BranchEndAtSpec(s, sep, a, b, c, d);
  }

  function BranchStartTest(s: string, sep: char, d: nat): int -> bool {
    a => 0 <= a <= |s| && BranchAt(s, sep, a, d).Some?
  }

  /** `re.search(r'(\w+-\d+)' + SEP + r'([a-zA-Z\-0-9.]+)' + SEP + r'(\d+)\.patch$', s)`. */
  function SearchBranch(s: string, sep: char): Option<BranchSpan> {
    match ExtensionStart(s)
    case None => None
    case Some(d) =>
      match FindFirst(0, |s| + 1, BranchStartTest(s, sep, d))
      case None => None
      case Some(a) => Some(BranchSpan(a, WordEnd(s, a), BranchAt(s, sep, a, d).value.0, BranchAt(s, sep, a, d).value.1, d))
  }

  /** `SearchBranch` reports a match exactly when there is one, and then the leftmost one with the longest groups. */
  lemma SearchBranchSpec(s: string, sep: char)
    ensures SearchBranch(s, sep).None? <==> !exists a, b, c, e, d :: BranchMatch(s, sep, a, b, c, e, d)
    ensures SearchBranch(s, sep).Some? ==>
              var m := SearchBranch(s, sep).value;
              BranchMatch(s, sep, m.a, m.b, m.c, m.e, m.d) && BranchPreferred(s, sep, m.a, m.c, m.e)
  {
    ExtensionStartSpec(s);
    match ExtensionStart(s)
    case None =>
    case Some(d) =>
      var p := BranchStartTest(s, sep, d);
      forall a, b, c, e, d' | BranchMatch(s, sep, a, b, c, e, d') ensures d' == d && p(a) {
        BranchAtSpec(s, sep, a, d);
      }
      match FindFirst(0, |s| + 1, p)
      case None =>
      case Some(a) =>
        BranchAtSpec(s, sep, a, d);
  }

  // ---------------------------------------------------------------------------
  // `create_jira_patch_obj`, apart from building the object

  /** What a file name parses to: everything a `JiraPatch` is built from except its owner. */
  datatype ParsedPatch = ParsedPatch(issueId: string, version: string, branch: string, filename: string,
                                     applicability: PatchApplicability)

  /**
    The applicability a freshly parsed patch gets: applicable exactly when the
    issue is not yet committed on its branch.
  */
  function CommittedApplicability(branch: string, committedOnBranches: set<string>): (a: PatchApplicability)
    ensures a.applicable <==> branch !in committedOnBranches
    ensures !a.applicable ==> a.reason == Some("Patch already committed on " + branch)
    ensures a.applicable ==> a.reason == None
    ensures a.explicit && ValidApplicability(a)
  {
    var r := if branch !in committedOnBranches then NewPatchApplicability(true)
             else NewPatchApplicability(false, Some("Patch already committed on " + branch));
    r.value
  }

  /** `s` is an issue key `\w+-\d+` as a whole. */
  ghost predicate IsIssueKey(s: string) {
    exists b :: KeyAt(s, 0, b, |s|)
  }

  /** `s` is a version `\d+` as a whole. */
  predicate IsVersionNumber(s: string) {
    DigitRun(s, 0, |s|)
  }

  /** The issue group of any of the three patterns is an issue key. */
  lemma KeyGroupIsIssueKey(s: string, a: int, b: int, c: int)
    requires KeyAt(s, a, b, c)
    ensures IsIssueKey(s[a..c])
  {
    assert KeyAt(s[a..c], 0, b - a, c - a);
  }

  /** The version group of either file name pattern is a version number. */
  lemma VersionGroupIsNumber(s: string, i: int, j: int)
    requires DigitRun(s, i, j)
    ensures IsVersionNumber(s[i..j])
  {
  }

  /** What every parsed patch satisfies. */
  ghost predicate WellParsed(p: ParsedPatch, filename: string, committedOnBranches: set<string>) {
    && p.filename == filename
    && IsIssueKey(p.issueId)
    && IsVersionNumber(p.version)
    && p.applicability == CommittedApplicability(p.branch, committedOnBranches)
  }

  /** The trunk branch: the issue group must be the issue's own id. */
  function FromDefaultSpan(defaultBranch: string, issueId: string, filename: string, sep: char, m: DefaultSpan,
                           committedOnBranches: set<string>): (r: Result<Option<ParsedPatch>>)
    requires DefaultMatch(filename, sep, m.a, m.b, m.c, m.d)
    ensures r.Failure? <==> filename[m.a..m.c] != issueId
    ensures r.Failure? ==> r.error.ValueError?
    ensures r.Success? ==> r.value.Some? && r.value.value.branch == defaultBranch
  {
    var parsedIssueId := filename[m.a..m.c];
    var parsedVersion := filename[m.c + 1..m.d];
    if parsedIssueId != issueId then
      Failure(ValueError("Parsed issue id " + parsedIssueId + " does not match original issue id " + issueId + "!"))
    else
      Success(Some(ParsedPatch(parsedIssueId, parsedVersion, defaultBranch, filename,
                               CommittedApplicability(defaultBranch, committedOnBranches))))
  }

  /**
    The explicit-branch branch: no check of the issue group against the
    issue id, and a patch for the branch the name gives, made of branch-name
    characters.
  */
  function FromBranchSpan(filename: string, sep: char, m: BranchSpan, committedOnBranches: set<string>): (p: ParsedPatch)
    requires BranchMatch(filename, sep, m.a, m.b, m.c, m.e, m.d)
    ensures WellParsed(p, filename, committedOnBranches)
    ensures |p.branch| > 0 && forall i | 0 <= i < |p.branch| :: IsBranchChar(p.branch[i])
  {
    KeyGroupIsIssueKey(filename, m.a, m.b, m.c);
    VersionGroupIsNumber(filename, m.e + 1, m.d);
    var parsedIssueId := filename[m.a..m.c];
    var parsedBranch := filename[m.c + 1..m.e];
    var parsedVersion := filename[m.e + 1..m.d];
    ParsedPatch(parsedIssueId, parsedVersion, parsedBranch, filename, CommittedApplicability(parsedBranch, committedOnBranches))
  }

  /** Neither file name pattern matches anywhere in `s` with this separator. */
  ghost predicate NoPatternMatch(s: string, sep: char) {
    && (forall a, b, c, d :: !DefaultMatch(s, sep, a, b, c, d))
    && (forall a, b, c, e, d :: !BranchMatch(s, sep, a, b, c, e, d))
  }

  /**
    The part of `create_jira_patch_obj` after the separator has been found:
    nothing when neither pattern matches, an error only for a default-branch
    match, and a patch for the default branch whenever that pattern matches.
  */
  function ParseWithSeparator(defaultBranch: string, issueId: string, filename: string, sep: char,
                              committedOnBranches: set<string>): (r: Result<Option<ParsedPatch>>)
    ensures r == Success(None) <==> NoPatternMatch(filename, sep)
    ensures r.Failure? ==> r.error.ValueError? && exists a, b, c, d :: DefaultMatch(filename, sep, a, b, c, d)
    ensures (exists a, b, c, d :: DefaultMatch(filename, sep, a, b, c, d)) && r.Success? ==>
              r.value.Some? && r.value.value.branch == defaultBranch
  {
    SearchDefaultSpec(filename, sep);
    SearchBranchSpec(filename, sep);
    match SearchDefault(filename, sep)
    case Some(m) => FromDefaultSpan(defaultBranch, issueId, filename, sep, m, committedOnBranches)
    case None =>
      match SearchBranch(filename, sep)
      case Some(m) => Success(Some(FromBranchSpan(filename, sep, m, committedOnBranches)))
      case None => Success(None)
  }

  /**
    `create_jira_patch_obj` without the object: Success(None) where the source
    logs and returns None, Failure where it raises.
  */
  function ParsePatchFilename(defaultBranch: string, issueId: string, filename: string,
                              committedOnBranches: set<string>): (r: Result<Option<ParsedPatch>>)
    ensures GetSeparatorChar(filename).None? ==> r == Success(None)
    ensures r.Failure? ==> r.error.ValueError?
    ensures r.Failure? ==> SearchDefault(filename, GetSeparatorChar(filename).value).Some?
  {
    match GetSeparatorChar(filename)
    case None => Success(None)
    case Some(sep) => ParseWithSeparator(defaultBranch, issueId, filename, sep, committedOnBranches)
  }

  /**
    A file name is skipped without error exactly when it has no separator or
    matches neither the trunk form nor the branch form.
  */
  lemma ParseSkipsIffNoMatch(defaultBranch: string, issueId: string, filename: string, committedOnBranches: set<string>)
    ensures ParsePatchFilename(defaultBranch, issueId, filename, committedOnBranches) == Success(None) <==>
            GetSeparatorChar(filename).None? || NoPatternMatch(filename, GetSeparatorChar(filename).value)
  {
  }

  /**
    Every patch a file name parses to has an issue key as issue id, a number
    as version, the file name itself, and the applicability its branch's
    commit state gives it.
  */
  lemma ParsedPatchIsWellFormed(defaultBranch: string, issueId: string, filename: string, committedOnBranches: set<string>)
    ensures var r := ParsePatchFilename(defaultBranch, issueId, filename, committedOnBranches);
            r.Success? && r.value.Some? ==> WellParsed(r.value.value, filename, committedOnBranches)
  {
    match GetSeparatorChar(filename)
    case None =>
    case Some(sep) =>
      match SearchDefault(filename, sep)
      case Some(m) =>
        SearchDefaultSpec(filename, sep);
        DefaultSpanWellParsed(defaultBranch, issueId, filename, sep, m, committedOnBranches);
      case None =>
        match SearchBranch(filename, sep)
        case Some(m) =>
          SearchBranchSpec(filename, sep);
        case None =>
  }

  /** A trunk-form match that passes the issue check gives a well-formed patch. */
  lemma DefaultSpanWellParsed(defaultBranch: string, issueId: string, filename: string, sep: char, m: DefaultSpan,
                              committedOnBranches: set<string>)
    requires DefaultMatch(filename, sep, m.a, m.b, m.c, m.d)
    ensures var r := FromDefaultSpan(defaultBranch, issueId, filename, sep, m, committedOnBranches);
            r.Success? ==> WellParsed(r.value.value, filename, committedOnBranches)
  {
    KeyGroupIsIssueKey(filename, m.a, m.b, m.c);
    VersionGroupIsNumber(filename, m.c + 1, m.d);
  }

  // ---------------------------------------------------------------------------
  // Which match `re.search` reports for names that start with an issue key

  /** A name that starts with `WORD-DIGITS` and a non-digit has that non-digit as separator. */
  lemma SeparatorAfterLeadingKey(s: string, b: int, c: int)
    requires KeyAt(s, 0, b, c) && c < |s| && !IsDigit(s[c]) && s[c] != '\n'
    ensures GetSeparatorChar(s) == Some(s[c])
  {
    assert SeparatorMatch(s, 0, b, c);
    SearchSeparatorSpec(s);
    var m := SearchSeparator(s).value;
    KeyDashIsWordEnd(s, 0, b, c);
    KeyDashIsWordEnd(s, 0, m.b, m.c);
  }

  /** A default-branch match from position 0, whose issue digits end at the separator, is the one reported. */
  lemma DefaultFromStart(s: string, sep: char, b: int, c: int, d: int)
    requires DefaultMatch(s, sep, 0, b, c, d) && !IsDigit(sep)
    ensures SearchDefault(s, sep) == Some(DefaultSpan(0, b, c, d))
  {
    SearchDefaultSpec(s, sep);
    ExtensionStartSpec(s);
    var m := SearchDefault(s, sep).value;
    KeyDashIsWordEnd(s, 0, b, c);
    KeyDashIsWordEnd(s, 0, m.b, m.c);
  }

  /** An explicit-branch match from position 0 is the one reported when the separator is not a digit. */
  lemma BranchFromStart(s: string, sep: char, b: int, c: int, e: int, d: int)
    requires BranchMatch(s, sep, 0, b, c, e, d) && !IsDigit(sep)
    ensures SearchBranch(s, sep) == Some(BranchSpan(0, b, c, e, d))
  {
    SearchBranchSpec(s, sep);
    ExtensionStartSpec(s);
    var m := SearchBranch(s, sep).value;
    KeyDashIsWordEnd(s, 0, b, c);
    KeyDashIsWordEnd(s, 0, m.b, m.c);
  }

  /** Once separator and default-branch match are known, the parse is decided by that match. */
  lemma ParseByDefaultSpan(s: string, sep: char, m: DefaultSpan,
                           defaultBranch: string, issueId: string, committedOnBranches: set<string>)
    requires GetSeparatorChar(s) == Some(sep) && SearchDefault(s, sep) == Some(m)
    ensures DefaultMatch(s, sep, m.a, m.b, m.c, m.d)
    ensures ParsePatchFilename(defaultBranch, issueId, s, committedOnBranches)
              == FromDefaultSpan(defaultBranch, issueId, s, sep, m, committedOnBranches)
  {
    SearchDefaultSpec(s, sep);
  }

  /** Once separator and explicit-branch match are known, and no default-branch match exists, the parse is decided. */
  lemma ParseByBranchSpan(s: string, sep: char, m: BranchSpan,
                          defaultBranch: string, issueId: string, committedOnBranches: set<string>)
    requires GetSeparatorChar(s) == Some(sep) && SearchDefault(s, sep) == None && SearchBranch(s, sep) == Some(m)
    ensures BranchMatch(s, sep, m.a, m.b, m.c, m.e, m.d)
    ensures ParsePatchFilename(defaultBranch, issueId, s, committedOnBranches)
              == Success(Some(FromBranchSpan(s, sep, m, committedOnBranches)))
  {
    SearchBranchSpec(s, sep);
  }

  /** The groups of an explicit-branch match from position 0. */
  lemma BranchSpanGroups(s: string, sep: char, b: nat, c: nat, e: nat, d: nat, committedOnBranches: set<string>)
    requires BranchMatch(s, sep, 0, b, c, e, d)
    ensures FromBranchSpan(s, sep, BranchSpan(0, b, c, e, d), committedOnBranches)
              == ParsedPatch(s[..c], s[e + 1..d], s[c + 1..e], s, CommittedApplicability(s[c + 1..e], committedOnBranches))
  {
    assert s[0..c] == s[..c];
  }

  /** A name with a default-branch match from position 0 parses by its groups. */
  lemma LeadingDefaultParses(s: string, sep: char, b: int, c: int, d: int,
                             defaultBranch: string, issueId: string, committedOnBranches: set<string>)
    requires DefaultMatch(s, sep, 0, b, c, d) && !IsDigit(sep) && sep != '\n'
    ensures s[..c] == issueId ==>
      ParsePatchFilename(defaultBranch, issueId, s, committedOnBranches)
        == Success(Some(ParsedPatch(s[..c], s[c + 1..d], defaultBranch, s, CommittedApplicability(defaultBranch, committedOnBranches))))
    ensures s[..c] != issueId ==> ParsePatchFilename(defaultBranch, issueId, s, committedOnBranches).Failure?
  {
    SeparatorAfterLeadingKey(s, b, c);
    DefaultFromStart(s, sep, b, c, d);
    ParseByDefaultSpan(s, sep, DefaultSpan(0, b, c, d), defaultBranch, issueId, committedOnBranches);
    DefaultSpanGroups(s, sep, b, c, d, defaultBranch, issueId, committedOnBranches);
  }

  /** The outcome for a default-branch match from position 0. */
  lemma DefaultSpanGroups(s: string, sep: char, b: nat, c: nat, d: nat,
                          defaultBranch: string, issueId: string, committedOnBranches: set<string>)
    requires DefaultMatch(s, sep, 0, b, c, d)
    ensures s[..c] == issueId ==>
      FromDefaultSpan(defaultBranch, issueId, s, sep, DefaultSpan(0, b, c, d), committedOnBranches)
        == Success(Some(ParsedPatch(s[..c], s[c + 1..d], defaultBranch, s, CommittedApplicability(defaultBranch, committedOnBranches))))
    ensures s[..c] != issueId ==>
      FromDefaultSpan(defaultBranch, issueId, s, sep, DefaultSpan(0, b, c, d), committedOnBranches).Failure?
  {
    assert s[0..c] == s[..c];
  }

  /** A name with an explicit-branch match from position 0 and no default-branch match parses by its groups. */
  lemma LeadingBranchParses(s: string, sep: char, b: int, c: int, e: int, d: int,
                            defaultBranch: string, issueId: string, committedOnBranches: set<string>)
    requires BranchMatch(s, sep, 0, b, c, e, d) && !IsDigit(sep) && sep != '\n'
    requires forall a', b', c', d' :: !DefaultMatch(s, sep, a', b', c', d')
    ensures ParsePatchFilename(defaultBranch, issueId, s, committedOnBranches)
              == Success(Some(ParsedPatch(s[..c], s[e + 1..d], s[c + 1..e], s, CommittedApplicability(s[c + 1..e], committedOnBranches))))
  {
    var m := BranchSpan(0, b, c, e, d);
    SeparatorAfterLeadingKey(s, b, c);
    assert SearchDefault(s, sep) == None by { SearchDefaultSpec(s, sep); }
    BranchFromStart(s, sep, b, c, e, d);
    LeadingBranchSpanParses(s, sep, b, c, e, d, defaultBranch, issueId, committedOnBranches);
  }

  /** Once an explicit-branch match from position 0 is the one reported, the parse gives its groups. */
  lemma LeadingBranchSpanParses(s: string, sep: char, b: nat, c: nat, e: nat, d: nat,
                                defaultBranch: string, issueId: string, committedOnBranches: set<string>)
    requires GetSeparatorChar(s) == Some(sep) && SearchDefault(s, sep) == None
    requires SearchBranch(s, sep) == Some(BranchSpan(0, b, c, e, d))
    ensures ParsePatchFilename(defaultBranch, issueId, s, committedOnBranches)
              == Success(Some(ParsedPatch(s[..c], s[e + 1..d], s[c + 1..e], s, CommittedApplicability(s[c + 1..e], committedOnBranches))))
  {
    ParseByBranchSpan(s, sep, BranchSpan(0, b, c, e, d), defaultBranch, issueId, committedOnBranches);
    BranchSpanGroups(s, sep, b, c, e, d, committedOnBranches);
  }

  lemma WordRunOfSlice(s: string, i: int, j: int)
    requires 0 <= i < j <= |s| && WordRun(s[i..j], 0, j - i)
    ensures WordRun(s, i, j)
  {
    forall k | i <= k < j ensures IsWordChar(s[k]) {
      assert s[k] == s[i..j][k - i];
    }
  }

  lemma DigitRunOfSlice(s: string, i: int, j: int)
    requires 0 <= i < j <= |s| && DigitRun(s[i..j], 0, j - i)
    ensures DigitRun(s, i, j)
  {
    forall k | i <= k < j ensures IsDigit(s[k]) {
      assert s[k] == s[i..j][k - i];
    }
  }

  lemma BranchRunOfSlice(s: string, i: int, j: int)
    requires 0 <= i < j <= |s| && BranchRun(s[i..j], 0, j - i)
    ensures BranchRun(s, i, j)
  {
    forall k | i <= k < j ensures IsBranchChar(s[k]) {
      assert s[k] == s[i..j][k - i];
    }
  }

  // ---------------------------------------------------------------------------
  // The file name forms of `create_jira_patch_obj`

  /**
    "<KEY><SEP><VERSION>.patch" is a patch for the default branch; it is accepted
    exactly when KEY is the issue's own id, and otherwise the source raises.
  */
  lemma {:induction false} DefaultFormParses(word: string, number: string, sep: char, version: string,
                                             defaultBranch: string, issueId: string, committedOnBranches: set<string>)
    requires WordRun(word, 0, |word|) && IsVersionNumber(number) && IsVersionNumber(version)
    requires !IsDigit(sep) && sep != '\n'
    ensures var key := word + "-" + number;
            var r := ParsePatchFilename(defaultBranch, issueId, key + [sep] + version + ".patch", committedOnBranches);
            && (key == issueId ==> r == Success(Some(ParsedPatch(key, version, defaultBranch, key + [sep] + version + ".patch",
                                                                CommittedApplicability(defaultBranch, committedOnBranches)))))
            && (key != issueId ==> r.Failure? && r.error.ValueError?)
  {
    var key := word + "-" + number;
    var s := key + [sep] + version + ".patch";
    var b, c, d := |word|, |key|, |key| + 1 + |version|;
    assert s[..c] == key && s[c] == sep && s[c + 1..d] == version && s[d..] == ".patch";
    assert key[..b] == word && key[b] == '-' && key[b + 1..] == number;
    assert s[0..b] == word && s[b] == '-' && s[b + 1..c] == number;
    WordRunOfSlice(s, 0, b);
    DigitRunOfSlice(s, b + 1, c);
    DigitRunOfSlice(s, c + 1, d);
    LeadingDefaultParses(s, sep, b, c, d, defaultBranch, issueId, committedOnBranches);
  }

  /** The branch name has no "-" followed only by digits up to its end. */
  predicate NoDashDigitsTail(branch: string) {
    forall j | 0 <= j < |branch| && branch[j] == '-' :: !IsVersionNumber(branch[j + 1..])
  }

  /** No default-branch match exists in "<KEY><SEP><BRANCH><SEP><VERSION>.patch" for such a branch name. */
  lemma NoDefaultMatchInBranchForm(key: string, sep: char, branch: string, version: string)
    requires IsVersionNumber(version) && !IsDigit(sep) && sep != '-'
    requires NoDashDigitsTail(branch)
    ensures forall a, b, c, d :: !DefaultMatch(key + [sep] + branch + [sep] + version + ".patch", sep, a, b, c, d)
  {
    var s := key + [sep] + branch + [sep] + version + ".patch";
    var c0, e0, d0 := |key|, |key| + 1 + |branch|, |key| + 2 + |branch| + |version|;
    assert s[c0] == sep && s[e0] == sep && s[c0 + 1..e0] == branch && s[e0 + 1..d0] == version && s[d0..] == ".patch";
    ExtensionStartSpec(s);
  }

  /**
    "<KEY><SEP><BRANCH><SEP><VERSION>.patch" names BRANCH explicitly and is
    accepted whatever the issue id, provided the separator is not "-" and the
    branch name does not end in "-DIGITS" (see `BranchShapedLikeKeyRaises`).
  */
  lemma {:induction false} BranchFormParses(word: string, number: string, sep: char, branch: string, version: string,
                                            defaultBranch: string, issueId: string, committedOnBranches: set<string>)
    requires WordRun(word, 0, |word|) && IsVersionNumber(number) && IsVersionNumber(version)
    requires BranchRun(branch, 0, |branch|) && NoDashDigitsTail(branch)
    requires !IsDigit(sep) && sep != '\n' && sep != '-'
    ensures var key := word + "-" + number;
            var filename := key + [sep] + branch + [sep] + version + ".patch";
            ParsePatchFilename(defaultBranch, issueId, filename, committedOnBranches)
              == Success(Some(ParsedPatch(key, version, branch, filename, CommittedApplicability(branch, committedOnBranches))))
  {
    var key := word + "-" + number;
    var s := key + [sep] + branch + [sep] + version + ".patch";
    var b, c, e, d := |word|, |key|, |key| + 1 + |branch|, |key| + 2 + |branch| + |version|;
    assert s[..c] == key && s[c] == sep && s[c + 1..e] == branch && s[e] == sep && s[e + 1..d] == version && s[d..] == ".patch";
    assert key[..b] == word && key[b] == '-' && key[b + 1..] == number;
    assert s[0..b] == word && s[b] == '-' && s[b + 1..c] == number;
    WordRunOfSlice(s, 0, b);
    DigitRunOfSlice(s, b + 1, c);
    BranchRunOfSlice(s, c + 1, e);
    DigitRunOfSlice(s, e + 1, d);
    NoDefaultMatchInBranchForm(key, sep, branch, version);
    LeadingBranchParses(s, sep, b, c, e, d, defaultBranch, issueId, committedOnBranches);
  }
  /**
    In "<KEY><SEP><WORD>-<DIGITS><SEP><VERSION>.patch" with a non-word separator,
    every default-branch match takes WORD-DIGITS as its issue group.
  */
  lemma DefaultMatchInDigitTail(s: string, sep: char, c0: int, dash: int, e0: int, d0: int, a: int, b: int, c: int, d: int)
    requires 0 <= c0 < dash < e0 < d0 <= |s| && s[c0] == sep && !IsWordChar(sep) && s[dash] == '-' && s[e0] == sep
    requires DigitRun(s, dash + 1, e0) && DigitRun(s, e0 + 1, d0) && ExtensionAt(s, d0)
    requires DefaultMatch(s, sep, a, b, c, d)
    ensures c == e0 && b == dash && c0 < a
  {
    ExtensionStartSpec(s);
  }

  /** An issue key found at offset `off` of `s`. */
  lemma KeyAtOffset(s: string, off: int, t: string, b: int)
    requires 0 <= off && off + |t| <= |s| && s[off..off + |t|] == t && KeyAt(t, 0, b, |t|)
    ensures KeyAt(s, off, off + b, off + |t|)
  {
    forall k | off <= k < off + |t| ensures s[k] == t[k - off] {
      assert s[k] == s[off..off + |t|][k - off];
    }
  }

  /**
    The default-branch pattern is searched anywhere in the name, so a branch
    name that itself has the shape of an issue key (such as "branch-2") is
    taken as the issue key of a default-branch patch. The parse then fails
    the issue id check and raises, although the explicit-branch pattern would
    have matched the name.
  */
  lemma BranchShapedLikeKeyRaises(filename: string, key: string, kb: nat, sep: char, branch: string, bb: nat, version: string,
                                  defaultBranch: string, issueId: string, committedOnBranches: set<string>)
    requires filename == key + [sep] + branch + [sep] + version + ".patch"
    requires KeyAt(key, 0, kb, |key|) && KeyAt(branch, 0, bb, |branch|) && IsVersionNumber(version)
    requires !IsWordChar(sep) && sep != '\n'
    requires issueId != branch
    ensures SearchDefault(filename, sep).Some?
    ensures SearchDefault(filename, sep).value.a == |key| + 1
    ensures SearchDefault(filename, sep).value.c == |key| + 1 + |branch|
    ensures filename[|key| + 1..|key| + 1 + |branch|] == branch
    ensures ParsePatchFilename(defaultBranch, issueId, filename, committedOnBranches).Failure?
  {
    var c0, e0, d0 := |key|, |key| + 1 + |branch|, |key| + 2 + |branch| + |version|;
    KeyBranchLayout(filename, key, kb, sep, branch, bb, version);
    KeyShapedSecondKeyRaises(filename, sep, kb, c0, c0 + 1 + bb, e0, d0, defaultBranch, issueId, committedOnBranches);
  }

  /** Where the parts of "<KEY><SEP><BRANCH><SEP><VERSION>.patch" sit when KEY and BRANCH are issue keys. */
  lemma KeyBranchLayout(s: string, key: string, kb: nat, sep: char, branch: string, bb: nat, version: string)
    requires s == key + [sep] + branch + [sep] + version + ".patch"
    requires KeyAt(key, 0, kb, |key|) && KeyAt(branch, 0, bb, |branch|) && IsVersionNumber(version)
    ensures var c0, e0, d0 := |key|, |key| + 1 + |branch|, |key| + 2 + |branch| + |version|;
            && KeyAt(s, 0, kb, c0) && c0 < |s| && s[c0] == sep
            && KeyAt(s, c0 + 1, c0 + 1 + bb, e0) && e0 < |s| && s[e0] == sep && s[c0 + 1..e0] == branch
            && DigitRun(s, e0 + 1, d0) && s[d0..] == ".patch"
  {
    var c0, e0, d0 := |key|, |key| + 1 + |branch|, |key| + 2 + |branch| + |version|;
    assert s[0..c0] == key && s[c0] == sep && s[c0 + 1..e0] == branch && s[e0] == sep && s[e0 + 1..d0] == version && s[d0..] == ".patch";
    KeyAtOffset(s, 0, key, kb);
    KeyAtOffset(s, c0 + 1, branch, bb);
    DigitRunOfSlice(s, e0 + 1, d0);
  }

  /** The same on positions: a second `WORD-DIGITS` between the separators is taken as the issue key. */
  lemma KeyShapedSecondKeyRaises(s: string, sep: char, b0: int, c0: int, dash: int, e0: int, d0: int,
                                 defaultBranch: string, issueId: string, committedOnBranches: set<string>)
    requires KeyAt(s, 0, b0, c0) && c0 < |s| && s[c0] == sep && KeyAt(s, c0 + 1, dash, e0) && e0 < |s| && s[e0] == sep
    requires DigitRun(s, e0 + 1, d0) && s[d0..] == ".patch"
    requires !IsWordChar(sep) && sep != '\n' && issueId != s[c0 + 1..e0]
    ensures SearchDefault(s, sep) == Some(DefaultSpan(c0 + 1, dash, e0, d0))
    ensures ParsePatchFilename(defaultBranch, issueId, s, committedOnBranches).Failure?
  {
    SeparatorAfterLeadingKey(s, b0, c0);
    SecondKeyReported(s, sep, c0, dash, e0, d0);
    ParseByDefaultSpan(s, sep, DefaultSpan(c0 + 1, dash, e0, d0), defaultBranch, issueId, committedOnBranches);
  }

  /** The default-branch match `re.search` reports starts right after the first separator. */
  lemma SecondKeyReported(s: string, sep: char, c0: int, dash: int, e0: int, d0: int)
    requires 0 <= c0 < |s| && s[c0] == sep && KeyAt(s, c0 + 1, dash, e0) && e0 < |s| && s[e0] == sep
    requires DigitRun(s, e0 + 1, d0) && s[d0..] == ".patch" && !IsWordChar(sep)
    ensures SearchDefault(s, sep) == Some(DefaultSpan(c0 + 1, dash, e0, d0))
  {
    assert DefaultMatch(s, sep, c0 + 1, dash, e0, d0);
    SearchDefaultSpec(s, sep);
    ExtensionStartSpec(s);
    var m := SearchDefault(s, sep).value;
    assert m.a <= c0 + 1;
    DefaultMatchInDigitTail(s, sep, c0, dash, e0, d0, m.a, m.b, m.c, m.d);
  }
}

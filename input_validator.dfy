/**
 * The input validator of the resume pipeline: the GitHub profile and CV checks,
 * the username taken from a profile link, and a fresh validator's empty inputs.
 * The two regular expressions the profile check uses are given twice: as what
 * Python's `re.match` accepts (an existential over where each part of the
 * pattern ends) and as the single left-to-right scan that decides it.
 */
module InputValidation {
  import opened Wrappers
  import opened Text

  // ---------------------------------------------------------------------------
  // Character classes and anchors
  // ---------------------------------------------------------------------------

  /** `[\w-]`: an ASCII letter or digit, '_' or '-'. */
  predicate IsNameChar(c: char) {
    ('a' <= c <= 'z') || ('A' <= c <= 'Z') || ('0' <= c <= '9') || c == '_' || c == '-'
  }

  predicate NameChars(w: string) {
    forall i :: 0 <= i < |w| ==> IsNameChar(w[i])
  }

  /** Python's `$` at position `m`: the end of `s`, or just before a final newline. */
  predicate AtEnd(s: string, m: nat) {
    m == |s| || (m + 1 == |s| && s[m] == '\n')
  }

  /** The length of the run of `[\w-]` characters that starts `s`. */
  function NameRun(s: string): (n: nat)
    ensures n <= |s| && NameChars(s[..n])
    ensures n < |s| ==> !IsNameChar(s[n])
  {
    if s != [] && IsNameChar(s[0]) then
      var n := 1 + NameRun(s[1..]);
      assert forall i :: 1 <= i < n ==> s[..n][i] == s[1..][..n - 1][i - 1];
      n
    else 0
  }

  /** No run of name characters starting `s` is longer than `NameRun(s)`. */
  lemma {:induction false} NameRunLongest(s: string, k: nat)
    requires k <= |s| && NameChars(s[..k])
    ensures k <= NameRun(s)
    decreases k
  {
    if k > 0 {
      assert s[1..][..k - 1] == s[..k][1..];
      assert IsNameChar(s[..k][0]);
      NameRunLongest(s[1..], k - 1);
    }
  }

  // ---------------------------------------------------------------------------
  // ^[\w-]+$
  // ---------------------------------------------------------------------------

  /** What `re.match(r'^[\w-]+$', s)` accepts: a non-empty run of name characters reaching the end. */
  ghost predicate UsernameRegex(s: string) {
    exists k :: 1 <= k <= |s| && NameChars(s[..k]) && AtEnd(s, k)
  }

  /** The scan: the longest run of name characters is non-empty and reaches the end. */
  predicate MatchesUsername(s: string) {
    var k := NameRun(s);
    1 <= k && AtEnd(s, k)
  }

  lemma MatchesUsernameIff(s: string)
    ensures MatchesUsername(s) <==> UsernameRegex(s)
  {
    if UsernameRegex(s) {
      var k :| 1 <= k <= |s| && NameChars(s[..k]) && AtEnd(s, k);
      NameRunLongest(s, k);
    }
  }

  // ---------------------------------------------------------------------------
  // ^https?://(?:www\.)?github\.com/[\w-]+/?.*$
  // ---------------------------------------------------------------------------

  const HttpLink: string := "http://github.com/"
  const HttpsLink: string := "https://github.com/"
  const HttpWwwLink: string := "http://www.github.com/"
  const HttpsWwwLink: string := "https://www.github.com/"

  /** The four texts `https?://(?:www\.)?github\.com/` matches. */
  const ProfileLinkPrefixes: set<string> := {HttpLink, HttpsLink, HttpWwwLink, HttpsWwwLink}

  /**
   * What `[\w-]+/?.*$` accepts after the prefix: a non-empty run of name
   * characters, then characters other than a newline (the optional '/' among
   * them), up to the end or a final newline.
   */
  ghost predicate TailRegex(t: string) {
    exists k, m :: 1 <= k <= m <= |t| && NameChars(t[..k]) && '\n' !in t[k..m] && AtEnd(t, m)
  }

  /** What `re.match` of the profile link pattern accepts. */
  ghost predicate LinkRegex(s: string) {
    exists p :: p in ProfileLinkPrefixes && StartsWith(s, p) && TailRegex(s[|p|..])
  }

  /** The length of the profile link prefix that starts `s`, if one does. */
  function LinkPrefix(s: string): Option<nat> {
    if StartsWith(s, HttpsWwwLink) then Some(|HttpsWwwLink|)
    else if StartsWith(s, HttpWwwLink) then Some(|HttpWwwLink|)
    else if StartsWith(s, HttpsLink) then Some(|HttpsLink|)
    else if StartsWith(s, HttpLink) then Some(|HttpLink|)
    else None
  }

  /** The scan after the prefix: at least one name character, and no newline before the last character. */
  predicate MatchesTail(t: string) {
    1 <= NameRun(t) && '\n' !in t[..|t| - 1]
  }

  predicate MatchesLink(s: string) {
    match LinkPrefix(s)
    case None => false
    case Some(n) => MatchesTail(s[n..])
  }

  lemma MatchesTailIff(t: string)
    ensures MatchesTail(t) <==> TailRegex(t)
  {
    if MatchesTail(t) {
      var k := NameRun(t);
      var m := if t[|t| - 1] == '\n' then |t| - 1 else |t|;
      assert 1 <= k <= |t|;
      assert k <= m by {
        if k == |t| { assert t[k - 1] == t[..k][k - 1]; }
      }
      forall i | k <= i < m ensures t[i] != '\n' {
        if i < |t| - 1 {
          assert t[i] == t[..|t| - 1][i];
        }
      }
      assert forall j :: 0 <= j < m - k ==> t[k..m][j] == t[k + j];
      assert 1 <= k <= m <= |t| && NameChars(t[..k]) && '\n' !in t[k..m] && AtEnd(t, m);
    }
    if TailRegex(t) {
      var k, m :| 1 <= k <= m <= |t| && NameChars(t[..k]) && '\n' !in t[k..m] && AtEnd(t, m);
      NameRunLongest(t, k);
      forall i | 0 <= i < |t| - 1 ensures t[i] != '\n' {
        if i < k {
          assert IsNameChar(t[..k][i]);
        } else {
          assert t[i] == t[k..m][i - k];
        }
      }
      assert forall i :: 0 <= i < |t| - 1 ==> t[..|t| - 1][i] == t[i];
    }
  }

  /** At most one of the four prefixes starts a text: they differ at index 4, 7 or 8. */
  lemma PrefixesDisjoint(s: string, p: string, q: string)
    requires p in ProfileLinkPrefixes && q in ProfileLinkPrefixes
    requires StartsWith(s, p) && StartsWith(s, q)
    ensures p == q
  {
    assert s[4] == s[..|p|][4] == p[4] && s[4] == s[..|q|][4] == q[4];
    assert s[7] == s[..|p|][7] == p[7] && s[7] == s[..|q|][7] == q[7];
    assert s[8] == s[..|p|][8] == p[8] && s[8] == s[..|q|][8] == q[8];
  }

  /** The scan finds a prefix of length `|p|` exactly when `p` starts `s`. */
  lemma LinkPrefixIff(s: string, p: string)
    requires p in ProfileLinkPrefixes
    ensures StartsWith(s, p) <==> LinkPrefix(s) == Some(|p|)
  {
    if StartsWith(s, p) {
      if StartsWith(s, HttpsWwwLink) { PrefixesDisjoint(s, p, HttpsWwwLink); }
      if StartsWith(s, HttpWwwLink) { PrefixesDisjoint(s, p, HttpWwwLink); }
      if StartsWith(s, HttpsLink) { PrefixesDisjoint(s, p, HttpsLink); }
    }
  }

  /** The prefix the scan finds is one of the four. */
  lemma LinkPrefixFound(s: string)
    requires LinkPrefix(s).Some?
    ensures exists q :: q in ProfileLinkPrefixes && |q| == LinkPrefix(s).value && StartsWith(s, q)
  {
    var q :=
      if StartsWith(s, HttpsWwwLink) then HttpsWwwLink
      else if StartsWith(s, HttpWwwLink) then HttpWwwLink
      else if StartsWith(s, HttpsLink) then HttpsLink
      else HttpLink;
    assert q in ProfileLinkPrefixes && |q| == LinkPrefix(s).value && StartsWith(s, q);
  }

  lemma MatchesLinkIff(s: string)
    ensures MatchesLink(s) <==> LinkRegex(s)
  {
    if MatchesLink(s) {
      LinkPrefixFound(s);
      var q :| q in ProfileLinkPrefixes && |q| == LinkPrefix(s).value && StartsWith(s, q);
      MatchesTailIff(s[|q|..]);
    }
    if LinkRegex(s) {
      var p :| p in ProfileLinkPrefixes && StartsWith(s, p) && TailRegex(s[|p|..]);
      LinkPrefixIff(s, p);
      MatchesTailIff(s[|p|..]);
    }
  }

  // ---------------------------------------------------------------------------
  // validate_github_profile, validate_cv_file
  // ---------------------------------------------------------------------------

  /** The four spellings whose lower-case form is "na". */
  predicate IsNa(s: string) {
    s in {"na", "nA", "Na", "NA"}
  }

  lemma LowerNa(s: string)
    ensures Lower(s) == "na" <==> IsNa(s)
  {
    if Lower(s) == "na" {
      assert |s| == 2;
      assert Lower(s)[0] == LowerChar(s[0]) && Lower(s)[1] == LowerChar(s[1]);
      assert s == [s[0], s[1]];
    }
  }

  /** `validate_github_profile`. */
  predicate ValidateGithubProfile(profile: string) {
    Lower(profile) == "na" || MatchesLink(profile) || MatchesUsername(profile)
  }

  /**
   * A profile is accepted exactly when it is "na" in any letter case, a GitHub
   * profile link, or a bare username.
   */
  lemma ValidateGithubProfileSpec(profile: string)
    ensures ValidateGithubProfile(profile) <==> IsNa(profile) || LinkRegex(profile) || UsernameRegex(profile)
  {
    LowerNa(profile);
    MatchesLinkIff(profile);
    MatchesUsernameIff(profile);
  }

  /** The empty profile is rejected. */
  lemma EmptyProfileRejected()
    ensures !ValidateGithubProfile("")
  {
    assert LinkPrefix("") == None;
  }

  /** `validate_cv_file`, with whether the file exists passed in. */
  predicate ValidateCvFile(filePath: string, exists_: bool) {
    if Lower(filePath) == "na" then true
    else if !exists_ then false
    else EndsWith(Lower(filePath), ".txt") || EndsWith(Lower(filePath), ".pdf")
  }

  /**
   * A CV path is accepted exactly when it is "na" in any letter case, or the
   * file exists and its last four characters, lower-cased, are ".txt" or ".pdf".
   */
  lemma ValidateCvFileSpec(filePath: string, exists_: bool)
    ensures ValidateCvFile(filePath, exists_)
      <==> IsNa(filePath) || (exists_ && |filePath| >= 4 && Lower(filePath[|filePath| - 4..]) in {".txt", ".pdf"})
  {
    LowerNa(filePath);
    var l := Lower(filePath);
    if |filePath| >= 4 {
      assert l[|l| - 4..] == Lower(filePath[|filePath| - 4..]);
    }
  }

  /** The CV check does not depend on letter case. */
  lemma ValidateCvFileCaseBlind(filePath: string, exists_: bool)
    ensures ValidateCvFile(Lower(filePath), exists_) == ValidateCvFile(filePath, exists_)
  {
    LowerIdempotent(filePath);
  }

  // ---------------------------------------------------------------------------
  // The username taken from an accepted profile
  // ---------------------------------------------------------------------------

  /** The username `collect_inputs` takes: the link's first `[\w-]+` group, or the whole input. */
  function Username(github: string): string {
    match LinkPrefix(github)
    case Some(n) =>
      if MatchesTail(github[n..]) then github[n..][..NameRun(github[n..])] else github
    case None => github
  }

  /** What `collect_inputs` stores for a GitHub profile, or `None` when it asks again. */
  function StoredProfile(github: string): Option<string> {
    if Strip(github) == [] || !ValidateGithubProfile(github) then None
    else if Lower(github) == "na" then Some("na")
    else Some("github.com/" + Username(github))
  }

  /**
   * For a profile link the username is the greedy group of the pattern: the
   * whole run of name characters after the link's prefix.
   */
  lemma UsernameOfLink(github: string, p: string)
    requires p in ProfileLinkPrefixes && StartsWith(github, p) && TailRegex(github[|p|..])
    ensures var u := Username(github);
      && u != [] && NameChars(u) && StartsWith(github, p + u)
      && (|github| == |p| + |u| || !IsNameChar(github[|p| + |u|]))
  {
    LinkPrefixIff(github, p);
    MatchesTailIff(github[|p|..]);
    RunAfter(github, |p|);
    assert github[..|p|] == p;
  }

  /** The run of name characters that starts at index `n`, when it is not empty. */
  lemma RunAfter(s: string, n: nat)
    requires n <= |s| && 1 <= NameRun(s[n..])
    ensures var u := s[n..][..NameRun(s[n..])];
      && u != [] && NameChars(u) && s[..n + |u|] == s[..n] + u
      && (|s| == n + |u| || !IsNameChar(s[n + |u|]))
  {
    var t := s[n..];
    var u := t[..NameRun(t)];
    if n + |u| < |s| {
      assert s[n + |u|] == t[|u|];
    }
  }

  /** A bare username that is no link and not "na" is stored after "github.com/" as it was typed. */
  lemma StoredBareUsername(github: string)
    requires UsernameRegex(github) && !LinkRegex(github) && !IsNa(github)
    ensures StoredProfile(github) == Some("github.com/" + github)
  {
    ValidateGithubProfileSpec(github);
    LowerNa(github);
    MatchesLinkIff(github);
    var k :| 1 <= k <= |github| && NameChars(github[..k]) && AtEnd(github, k);
    assert IsNameChar(github[..k][0]);
    assert !IsSpace(github[0]);
    StripBlank(github);
  }

  /**
   * A stored profile is "na" for the skip answers, and otherwise "github.com/" and a
   * non-empty username. Only a link's username is made of name characters: a bare
   * answer is stored as typed, so one final newline, which `$` lets through, is kept.
   */
  lemma StoredProfileShape(github: string)
    ensures StoredProfile(github).Some? <==> Strip(github) != [] && ValidateGithubProfile(github)
    ensures StoredProfile(github).Some? && IsNa(github) ==> StoredProfile(github) == Some("na")
    ensures StoredProfile(github).Some? && !IsNa(github) ==>
      exists u :: u != [] && StoredProfile(github) == Some("github.com/" + u)
    ensures StoredProfile(github).Some? && !IsNa(github) && MatchesLink(github) ==>
      exists u :: u != [] && NameChars(u) && StoredProfile(github) == Some("github.com/" + u)
    ensures StoredProfile(github).Some? && !IsNa(github) && !MatchesLink(github) ==>
      StoredProfile(github) == Some("github.com/" + github)
  {
    LowerNa(github);
    if StoredProfile(github).Some? && !IsNa(github) {
      var u := Username(github);
      if MatchesLink(github) {
        MatchesLinkIff(github);
        var p :| p in ProfileLinkPrefixes && StartsWith(github, p) && TailRegex(github[|p|..]);
        UsernameOfLink(github, p);
      } else {
        assert u == github;
        StripBlank(github);
      }
      assert StoredProfile(github) == Some("github.com/" + u);
    }
  }

  /**
   * A bare answer with one final newline is accepted and stored with the newline.
   * `input()` strips the newline, so the prompt itself never passes such an answer.
   */
  lemma BareAnswerKeepsNewline()
    ensures StoredProfile("ab\n") == Some("github.com/ab\n")
    ensures !NameChars("ab\n")
  {
    var s := "ab\n";
    assert NameChars(s[..2]) && AtEnd(s, 2);
    MatchesUsernameIff(s);
    assert LinkPrefix(s) == None;
    assert Username(s) == s;
    LowerNa(s);
    assert !IsNa(s);
    assert !IsSpace(s[0]);
    StripBlank(s);
    assert Strip(s) != [] && ValidateGithubProfile(s);
    assert StoredProfile(s) == Some("github.com/" + s);
    assert "github.com/" + s == "github.com/ab\n";
    assert !NameChars(s) by { assert !IsNameChar(s[2]); }
  }

  // ---------------------------------------------------------------------------
  // The validator's state
  // ---------------------------------------------------------------------------

  const JobDescriptionKey: string := "job_description"
  const CompanyNameKey: string := "company_name"
  const GithubProfileKey: string := "github_profile"
  const PersonalCvKey: string := "personal_cv"

  /** A validator: the collected inputs and the paths of the files it produces. */
  const GithubOutputName: string := "output_github.txt"
  const RefinedOutputName: string := "refined_output_github_llm.txt"

  /** `os.path.join` of a directory and a plain file name. */
  function JoinPath(dir: string, name: string): string {
    if dir == [] || dir[|dir| - 1] == '/' then dir + name else dir + "/" + name
  }

  class InputValidator {
    const scriptDir: string
    var inputs: map<string, Option<string>>
    var cvFilePath: Option<string>
    var cvTextPath: Option<string>
    var githubOutputFile: Option<string>
    var refinedOutputFile: Option<string>

    /** Nothing collected yet: the four inputs and the four paths are unset. */
    predicate Empty()
      reads this
    {
      && inputs == map[JobDescriptionKey := None, CompanyNameKey := None, GithubProfileKey := None, PersonalCvKey := None]
      && cvFilePath == None && cvTextPath == None && githubOutputFile == None && refinedOutputFile == None
    }

    /** `__init__`, with the script's directory passed in. */
    constructor(scriptDir: string)
      ensures Empty() && this.scriptDir == scriptDir
    {
      this.scriptDir := scriptDir;
      inputs := map[JobDescriptionKey := None, CompanyNameKey := None, GithubProfileKey := None, PersonalCvKey := None];
      cvFilePath := None;
      cvTextPath := None;
      githubOutputFile := None;
      refinedOutputFile := None;
    }

    /**
     * One answer to the GitHub profile prompt: an accepted answer is stored as
     * `StoredProfile` gives it, a rejected one leaves every input as it was.
     * `fetched` says whether fetching a username's repositories yielded any
     * repository data; only then are the two output paths set.
     */
    method AnswerGithubProfile(github: string, fetched: bool) returns (accepted: bool)
      modifies this
      ensures accepted <==> StoredProfile(github).Some?
      ensures inputs == if accepted then old(inputs)[GithubProfileKey := StoredProfile(github)] else old(inputs)
      ensures cvFilePath == old(cvFilePath) && cvTextPath == old(cvTextPath)
      ensures githubOutputFile ==
        if accepted && !IsNa(github) && fetched then Some(JoinPath(scriptDir, GithubOutputName))
        else old(githubOutputFile)
      ensures refinedOutputFile ==
        if accepted && !IsNa(github) && fetched then Some(JoinPath(scriptDir, RefinedOutputName))
        else old(refinedOutputFile)
    {
      LowerNa(github);
      accepted := Strip(github) != [] && ValidateGithubProfile(github);
      if accepted {
        if Lower(github) == "na" {
          inputs := inputs[GithubProfileKey := Some("na")];
        } else {
          var username := Username(github);
          inputs := inputs[GithubProfileKey := Some("github.com/" + username)];
          if fetched {
            githubOutputFile := Some(JoinPath(scriptDir, GithubOutputName));
            refinedOutputFile := Some(JoinPath(scriptDir, RefinedOutputName));
          }
        }
      }
    }
  }
}

/**
 * The repository refiner's two text functions: `parse_repositories`, which reads
 * the scraper's file back into one record per repository, and `format_output`,
 * which renders the analysed records as a Markdown report.  A record is Python's
 * dict with its keys `name`, `url`, `readme` and `llm_analysis`, each of which
 * may be missing.
 */
module Refiner {
  import opened Wrappers
  import opened Text

  /** A repository record; `None` is a key the dict does not hold. */
  datatype Repo = Repo(name: Option<string>, url: Option<string>, readme: Option<string>, llmAnalysis: Option<string>)

  /** The empty dict a section starts from. */
  const NoFields: Repo := Repo(None, None, None, None)

  /** The string the file is split into sections on. */
  const SectionSeparator: string := "==========\n\n"

  const NamePrefix: string := "Repository: "
  const UrlPrefix: string := "URL: "
  const ReadmePrefix: string := "README Content:"

  // ---------------------------------------------------------------------------
  // parse_repositories
  // ---------------------------------------------------------------------------

  /** `lines.index(line)`: the first position holding `line`. */
  function IndexOf(lines: seq<string>, line: string): (i: nat)
    requires line in lines
    ensures i < |lines| && lines[i] == line
    ensures line !in lines[..i]
  {
    if lines[0] == line then 0
    else
      var j := IndexOf(lines[1..], line);
      assert lines[..j + 1] == [lines[0]] + lines[1..][..j];
      1 + j
  }

  /** A field line's value: the line with every occurrence of its prefix removed, then stripped. */
  function FieldValue(line: string, prefix: string): string
    requires prefix != ""
  {
    Strip(Replace(line, prefix, ""))
  }

  /** The README a README line introduces: every line after the first line equal to it, joined and stripped. */
  function ReadmeAfter(lines: seq<string>, line: string): string
    requires line in lines
  {
    Strip(Join(lines[IndexOf(lines, line) + 1..], "\n"))
  }

  /** What one line of a section does to the record: the first prefix it starts with decides. */
  function ParseLine(lines: seq<string>, line: string, r: Repo): Repo
    requires line in lines
  {
    if StartsWith(line, NamePrefix) then r.(name := Some(Strip(Replace(line, NamePrefix, ""))))
    else if StartsWith(line, UrlPrefix) then r.(url := Some(Strip(Replace(line, UrlPrefix, ""))))
    else if StartsWith(line, ReadmePrefix) then r.(readme := Some(ReadmeAfter(lines, line)))
    else r
  }

  /** The record after the first `k` lines of a section. */
  function ParseLines(lines: seq<string>, k: nat): Repo
    requires k <= |lines|
  {
    if k == 0 then NoFields else ParseLine(lines, lines[k - 1], ParseLines(lines, k - 1))
  }

  /** The lines of a section: the stripped section split on newlines. */
  function SectionLines(section: string): seq<string> {
    Split(Strip(section), "\n")
  }

  /** What one section contributes: nothing when it is blank or fills no key, else its record. */
  function ParseSection(section: string): Option<Repo> {
    if Strip(section) == [] then None
    else
      var lines := SectionLines(section);
      var r := ParseLines(lines, |lines|);
      if r == NoFields then None else Some(r)
  }

  /** What each section contributes, section by section. */
  function SectionRecords(sections: seq<string>): (os: seq<Option<Repo>>)
    ensures |os| == |sections|
  {
    Map(ParseSection, sections)
  }

  /** The records among the first `k` contributions, in order. */
  function Kept(os: seq<Option<Repo>>, k: nat): seq<Repo>
    requires k <= |os|
  {
    if k == 0 then []
    else Kept(os, k - 1) + (match os[k - 1] case Some(r) => [r] case None => [])
  }

  /** The records `parse_repositories` returns for a file's contents. */
  function Parse(content: string): seq<Repo> {
    var records := SectionRecords(Split(content, SectionSeparator));
    Kept(records, |records|)
  }

  /** `parse_repositories`: its outer loop, over the sections of the file. */
  method ParseRepositories(content: string) returns (repositories: seq<Repo>)
    ensures repositories == Parse(content)
  {
    repositories := [];
    var repoSections := Split(content, SectionSeparator);
    for s := 0 to |repoSections|
      invariant repositories == Kept(SectionRecords(repoSections), s)
    {
      var section := repoSections[s];
      assert SectionRecords(repoSections)[s] == ParseSection(section);
      if Strip(section) == [] {
        continue;
      }
      var lines := Split(Strip(section), "\n");
      var repoData := ParseSectionLines(lines);
      if repoData != NoFields {
        repositories := repositories + [repoData];
      }
    }
  }

  /** `parse_repositories`: its inner loop, over the lines of one section. */
  method ParseSectionLines(lines: seq<string>) returns (repoData: Repo)
    ensures repoData == ParseLines(lines, |lines|)
  {
    repoData := NoFields;
    for k := 0 to |lines|
      invariant repoData == ParseLines(lines, k)
    {
      var line := lines[k];
      if StartsWith(line, NamePrefix) {
        repoData := repoData.(name := Some(Strip(Replace(line, NamePrefix, ""))));
      } else if StartsWith(line, UrlPrefix) {
        repoData := repoData.(url := Some(Strip(Replace(line, UrlPrefix, ""))));
      } else if StartsWith(line, ReadmePrefix) {
        var readmeStart := IndexOf(lines, line);
        var readmeContent := Join(lines[readmeStart + 1..], "\n");
        repoData := repoData.(readme := Some(Strip(readmeContent)));
      }
    }
  }

  /** The last of the first `k` lines that starts with `prefix`, if any. */
  function LastMatch(lines: seq<string>, k: nat, prefix: string): (m: Option<nat>)
    requires k <= |lines|
    ensures m.Some? ==> m.value < k && StartsWith(lines[m.value], prefix)
    ensures m.Some? ==> forall j :: m.value < j < k ==> !StartsWith(lines[j], prefix)
    ensures m.None? ==> forall j :: 0 <= j < k ==> !StartsWith(lines[j], prefix)
  {
    if k == 0 then None
    else if StartsWith(lines[k - 1], prefix) then Some(k - 1)
    else LastMatch(lines, k - 1, prefix)
  }

  /** No line starts with two of the field prefixes. */
  lemma PrefixesExclusive(line: string)
    ensures !(StartsWith(line, NamePrefix) && StartsWith(line, UrlPrefix))
    ensures !(StartsWith(line, NamePrefix) && StartsWith(line, ReadmePrefix))
    ensures !(StartsWith(line, UrlPrefix) && StartsWith(line, ReadmePrefix))
  {
    if StartsWith(line, NamePrefix) {
      assert line[0] == 'R' && line[2] == 'p';
    }
    if StartsWith(line, UrlPrefix) {
      assert line[0] == 'U';
    }
  }

  /**
   * Later lines overwrite earlier ones: after `k` lines each key holds the value
   * of the last line that starts with its prefix, and is missing when no line does.
   */
  lemma {:induction false} ParseLinesKeys(lines: seq<string>, k: nat)
    requires k <= |lines|
    ensures var r := ParseLines(lines, k);
      && r.name == (match LastMatch(lines, k, NamePrefix)
                    case None => None case Some(j) => Some(FieldValue(lines[j], NamePrefix)))
      && r.url == (match LastMatch(lines, k, UrlPrefix)
                   case None => None case Some(j) => Some(FieldValue(lines[j], UrlPrefix)))
      && r.readme == (match LastMatch(lines, k, ReadmePrefix)
                      case None => None case Some(j) => Some(ReadmeAfter(lines, lines[j])))
      && r.llmAnalysis == None
  {
    if k > 0 {
      ParseLinesKeys(lines, k - 1);
      PrefixesExclusive(lines[k - 1]);
    }
  }

  /** A section yields a record exactly when it is not blank and one of its lines starts with a field prefix. */
  lemma ParseSectionSome(section: string)
    ensures ParseSection(section).Some? <==>
      Strip(section) != [] &&
      exists j :: 0 <= j < |SectionLines(section)| &&
        (StartsWith(SectionLines(section)[j], NamePrefix) ||
         StartsWith(SectionLines(section)[j], UrlPrefix) ||
         StartsWith(SectionLines(section)[j], ReadmePrefix))
  {
    var lines := SectionLines(section);
    var n := |lines|;
    ParseLinesKeys(lines, n);
    var m1 := LastMatch(lines, n, NamePrefix);
    var m2 := LastMatch(lines, n, UrlPrefix);
    var m3 := LastMatch(lines, n, ReadmePrefix);
    if m1.Some? { assert StartsWith(lines[m1.value], NamePrefix); }
    if m2.Some? { assert StartsWith(lines[m2.value], UrlPrefix); }
    if m3.Some? { assert StartsWith(lines[m3.value], ReadmePrefix); }
  }

  /** The records kept from two runs of contributions are those of each run, in order. */
  lemma {:induction false} KeptAppend(a: seq<Option<Repo>>, b: seq<Option<Repo>>)
    ensures Kept(a + b, |a + b|) == Kept(a, |a|) + Kept(b, |b|)
    decreases |b|
  {
    if b == [] {
      assert a + b == a;
    } else {
      var c := a + b;
      var n := |c|;
      var b' := b[..|b| - 1];
      assert c[..n - 1] == a + b';
      KeptPrefix(c, n - 1);
      KeptPrefix(b, |b| - 1);
      KeptAppend(a, b');
    }
  }

  /** The records kept from the first `k` contributions depend on those contributions only. */
  lemma {:induction false} KeptPrefix(os: seq<Option<Repo>>, k: nat)
    requires k <= |os|
    ensures Kept(os, k) == Kept(os[..k], k)
    decreases k
  {
    if k > 0 {
      var p := os[..k];
      KeptPrefix(os, k - 1);
      KeptPrefix(p, k - 1);
      assert p[..k - 1] == os[..k - 1];
    }
  }

  /** Each section contributes on its own: the contributions of two runs of sections are those of each run. */
  lemma SectionRecordsAppend(a: seq<string>, b: seq<string>)
    ensures SectionRecords(a + b) == SectionRecords(a) + SectionRecords(b)
  {
    MapAppend(ParseSection, a, b);
  }

  /** Records keep section order: the records of a file are those of its sections, concatenated. */
  lemma ParseSectionsAppend(a: seq<string>, b: seq<string>)
    ensures var c := SectionRecords(a + b);
      Kept(c, |c|) == Kept(SectionRecords(a), |a|) + Kept(SectionRecords(b), |b|)
  {
    SectionRecordsAppend(a, b);
    KeptAppend(SectionRecords(a), SectionRecords(b));
  }

  // ---------------------------------------------------------------------------
  // format_output
  // ---------------------------------------------------------------------------

  /** The first line of every report. */
  const Title: string := "# Enhanced GitHub Repository Analysis\n"

  /** The `KeyError` raised when a kept record lacks a key. */
  datatype KeyError = KeyError(key: string)

  /** A record is reported unless its README is missing, empty or the scraper's "No Readme" placeholder. */
  predicate Reported(r: Repo) {
    r.readme.Some? && r.readme.value != "" && r.readme.value != "No Readme"
  }

  /** The report lines for one record, or the missing key that aborts the report. */
  function Entry(r: Repo): Result<seq<string>, KeyError> {
    if !Reported(r) then Ok([])
    else if r.name.None? then Err(KeyError("name"))
    else if r.url.None? then Err(KeyError("url"))
    else Ok(["## " + r.name.value, "Repository URL: " + r.url.value + "\n"]
            + (if r.llmAnalysis.Some? && r.llmAnalysis.value != "" then [r.llmAnalysis.value] else [])
            + ["\n---\n"])
  }

  /** Lines so far followed by the next lines, unless either is already an error; the first error wins. */
  function Then(acc: Result<seq<string>, KeyError>, next: Result<seq<string>, KeyError>): Result<seq<string>, KeyError> {
    match acc
    case Err(_) => acc
    case Ok(a) => match next
      case Err(_) => next
      case Ok(b) => Ok(a + b)
  }

  /** The report lines for the first `k` records, or the first error. */
  function Entries(rs: seq<Repo>, k: nat): Result<seq<string>, KeyError>
    requires k <= |rs|
  {
    if k == 0 then Ok([]) else Then(Entries(rs, k - 1), Entry(rs[k - 1]))
  }

  /** The report `format_output` returns, or the error it raises. */
  function FormatOutputOf(rs: seq<Repo>): Result<string, KeyError> {
    match Entries(rs, |rs|)
    case Err(e) => Err(e)
    case Ok(es) => Ok(Join([Title] + es, "\n"))
  }

  /** `format_output`, as its loop over the records. */
  method FormatOutput(repositories: seq<Repo>) returns (result: Result<string, KeyError>)
    ensures result == FormatOutputOf(repositories)
  {
    var output := [Title];
    for i := 0 to |repositories|
      invariant Entries(repositories, i).Ok?
      invariant output == [Title] + Entries(repositories, i).value
    {
      var repo := repositories[i];
      if repo.readme.None? || repo.readme.value == "" || repo.readme.value == "No Readme" {
        continue;
      }
      ghost var next := i + 1;
      if repo.name.None? {
        EntriesErrorSticks(repositories, next, |repositories|);
        return Err(KeyError("name"));
      }
      output := output + ["## " + repo.name.value];
      if repo.url.None? {
        EntriesErrorSticks(repositories, next, |repositories|);
        return Err(KeyError("url"));
      }
      output := output + ["Repository URL: " + repo.url.value + "\n"];
      if repo.llmAnalysis.Some? && repo.llmAnalysis.value != "" {
        output := output + [repo.llmAnalysis.value];
      }
      output := output + ["\n---\n"];
    }
    result := Ok(Join(output, "\n"));
  }

  /** Once a record raises, every longer prefix of the records raises the same error. */
  lemma {:induction false} EntriesErrorSticks(rs: seq<Repo>, k: nat, m: nat)
    requires k <= m <= |rs| && Entries(rs, k).Err?
    ensures Entries(rs, m) == Entries(rs, k)
    decreases m
  {
    if k < m {
      EntriesErrorSticks(rs, k, m - 1);
    }
  }

  /** A record whose missing key `format_output` looks up: one it reports that lacks its name or its URL. */
  predicate Raises(r: Repo) {
    Reported(r) && (r.name.None? || r.url.None?)
  }

  /** Every report begins with its title line. */
  lemma FormatOutputTitle(rs: seq<Repo>)
    ensures FormatOutputOf(rs).Ok? ==> StartsWith(FormatOutputOf(rs).value, Title)
  {
    if Entries(rs, |rs|).Ok? {
      JoinEnds([Title] + Entries(rs, |rs|).value, "\n");
    }
  }

  /** The records up to `k` fail exactly when one of them raises. */
  lemma {:induction false} EntriesErr(rs: seq<Repo>, k: nat)
    requires k <= |rs|
    ensures Entries(rs, k).Err? <==> exists j :: 0 <= j < k && Raises(rs[j])
  {
    if k > 0 {
      EntriesErr(rs, k - 1);
    }
  }

  /** `format_output` raises `KeyError` exactly when some record it reports lacks its name or its URL. */
  lemma FormatOutputFails(rs: seq<Repo>)
    ensures FormatOutputOf(rs).Err? <==> exists j :: 0 <= j < |rs| && Raises(rs[j])
  {
    EntriesErr(rs, |rs|);
  }

  /** The error raised is the missing key of the first record that raises, its name before its URL. */
  lemma FormatOutputFirstError(rs: seq<Repo>, j: nat)
    requires j < |rs| && Raises(rs[j])
    requires forall i :: 0 <= i < j ==> !Raises(rs[i])
    ensures FormatOutputOf(rs) == Err(KeyError(if rs[j].name.None? then "name" else "url"))
  {
    var next := j + 1;
    EntriesErr(rs, j);
    EntriesErrorSticks(rs, next, |rs|);
  }

  /** The records `format_output` does not skip, in order. */
  function ReportedOnly(rs: seq<Repo>): (kept: seq<Repo>)
    ensures forall i :: 0 <= i < |kept| ==> Reported(kept[i])
  {
    if rs == [] then []
    else ReportedOnly(rs[..|rs| - 1]) + (if Reported(rs[|rs| - 1]) then [rs[|rs| - 1]] else [])
  }

  /** The first error wins, however the records are grouped. */
  lemma ThenAssoc(x: Result<seq<string>, KeyError>, y: Result<seq<string>, KeyError>, z: Result<seq<string>, KeyError>)
    ensures Then(Then(x, y), z) == Then(x, Then(y, z))
  {
    if x.Ok? && y.Ok? && z.Ok? {
      assert (x.value + y.value) + z.value == x.value + (y.value + z.value);
    }
  }

  /** The report lines of the first `k` records depend on those records only. */
  lemma {:induction false} EntriesPrefix(rs: seq<Repo>, k: nat)
    requires k <= |rs|
    ensures Entries(rs, k) == Entries(rs[..k], k)
    decreases k
  {
    if k > 0 {
      var p := rs[..k];
      EntriesPrefix(rs, k - 1);
      EntriesPrefix(p, k - 1);
      assert p[..k - 1] == rs[..k - 1];
    }
  }

  /** The report lines of two runs of records are those of the first run, then those of the second. */
  lemma {:induction false} EntriesAppend(a: seq<Repo>, b: seq<Repo>)
    ensures Entries(a + b, |a + b|) == Then(Entries(a, |a|), Entries(b, |b|))
    decreases |b|
  {
    if b == [] {
      assert a + b == a;
      assert Then(Entries(a, |a|), Ok([])) == Entries(a, |a|) by {
        if Entries(a, |a|).Ok? {
          assert Entries(a, |a|).value + [] == Entries(a, |a|).value;
        }
      }
    } else {
      var c := a + b;
      var n := |c|;
      var b' := b[..|b| - 1];
      assert c[..n - 1] == a + b';
      EntriesPrefix(c, n - 1);
      EntriesPrefix(b, |b| - 1);
      EntriesAppend(a, b');
      ThenAssoc(Entries(a, |a|), Entries(b', |b'|), Entry(b[|b| - 1]));
    }
  }

  /** Skipped records contribute nothing: the report is the one for the reported records alone. */
  lemma SkippedContributeNothing(rs: seq<Repo>)
    ensures FormatOutputOf(rs) == FormatOutputOf(ReportedOnly(rs))
  {
    EntriesSkipped(rs);
  }

  /** The report lines, or the error, of the records and of the reported ones alone are the same. */
  lemma {:induction false} EntriesSkipped(rs: seq<Repo>)
    ensures Entries(rs, |rs|) == Entries(ReportedOnly(rs), |ReportedOnly(rs)|)
    decreases |rs|
  {
    if rs != [] {
      var n := |rs|;
      var p := rs[..n - 1];
      var x := rs[n - 1];
      var tail := if Reported(x) then [x] else [];
      EntriesSkipped(p);
      EntriesPrefix(rs, n - 1);
      EntriesAppend(ReportedOnly(p), tail);
      var e := Entries(p, |p|);
      if Reported(x) {
        assert Entries(tail, 1) == Then(Ok([]), Entry(x));
        assert Then(Ok([]), Entry(x)) == Entry(x) by {
          if Entry(x).Ok? {
            assert [] + Entry(x).value == Entry(x).value;
          }
        }
      } else {
        assert Then(e, Ok([])) == e by {
          if e.Ok? {
            assert e.value + [] == e.value;
          }
        }
      }
    }
  }

  /** The report for one reported record without analysis: title, heading, URL line, blank line, rule. */
  lemma FormatOutputOne(name: string, url: string, readme: string)
    requires readme != "" && readme != "No Readme"
    ensures FormatOutputOf([Repo(Some(name), Some(url), Some(readme), None)])
      == Ok(Title + "\n" + (("## " + name) + "\n" + (("Repository URL: " + url + "\n") + "\n" + "\n---\n")))
  {
    var heading := "## " + name;
    var link := "Repository URL: " + url + "\n";
    var rule := "\n---\n";
    var r := Repo(Some(name), Some(url), Some(readme), None);
    assert Reported(r);
    assert Entry(r) == Ok([heading, link] + [] + [rule]);
    assert [heading, link] + [] + [rule] == [heading, link, rule];
    assert Entries([r], 1) == Then(Ok([]), Ok([heading, link, rule]));
    assert [] + [heading, link, rule] == [heading, link, rule];
    assert [Title] + [heading, link, rule] == [Title, heading, link, rule];
    JoinCons(link, [rule], "\n");
    JoinCons(heading, [link, rule], "\n");
    JoinCons(Title, [heading, link, rule], "\n");
    assert [link] + [rule] == [link, rule];
    assert [heading] + [link, rule] == [heading, link, rule];
    assert Join([rule], "\n") == rule;
    assert Join([Title, heading, link, rule], "\n") == Title + "\n" + (heading + "\n" + (link + "\n" + rule));
  }
}

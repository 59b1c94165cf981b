/**
 * Reading the scraper's file back: `parse_repositories(save_to_text(rs))` gives
 * one record per scraped repository, in order, holding its name, its URL and its
 * README, provided the scraped values cannot be mistaken for the file's own
 * structure (a name or URL spread over lines, a README line that looks like a
 * field line, a separator inside a README).
 */
module RoundTrip {
  import opened Wrappers
  import opened Text
  import opened Scraper
  import opened Refiner

  /** The record the refiner should read back for a scraped repository. */
  function Expected(r: RepoData): Repo {
    Repo(Some(r.name), Some(r.url), Some(r.readmeContent), None)
  }

  /** A line the refiner does not take for a field line. */
  predicate FieldFree(line: string) {
    !StartsWith(line, NamePrefix) && !StartsWith(line, UrlPrefix) && !StartsWith(line, ReadmePrefix)
  }

  /** A name or URL that reads back as itself: one unpadded line, no '=', and no copy of its own prefix. */
  predicate OneLine(v: string, prefix: string) {
    '\n' !in v && '=' !in v && Strip(v) == v && !Contains(v, prefix)
  }

  /**
   * A scraped repository that reads back as itself.  The README is stripped, as
   * `get_repo_data` leaves it; the separator does not occur in the README nor
   * across its end and the blank line after it; and none of its lines looks like
   * a field line.
   */
  predicate Safe(r: RepoData) {
    && OneLine(r.name, NamePrefix)
    && OneLine(r.url, UrlPrefix)
    && Strip(r.readmeContent) == r.readmeContent
    && !Contains(r.readmeContent + "\n\n", SectionSeparator)
    && forall k :: 0 <= k < |Split(r.readmeContent, "\n")| ==> FieldFree(Split(r.readmeContent, "\n")[k])
  }

  // ---------------------------------------------------------------------------
  // One section of the file, line by line
  // ---------------------------------------------------------------------------

  /** The lines of the header, when the section is the file's first. */
  function HeaderLines(first: bool): seq<string> {
    if first then ["GitHub Repositories Data", ""] else []
  }

  /** What precedes a block in its section: the header for the first, nothing for the others. */
  function Lead(first: bool): string {
    if first then Header else ""
  }

  /** The lines of a block before the README line. */
  function InfoLines(r: RepoData): seq<string> {
    ["Repository: " + r.name, "URL: " + r.url,
     "Commits: " + NatToString(r.commits), "Branches: " + NatToString(r.branches),
     "Releases: " + NatToString(r.releases), "Contributors: " + NatToString(r.contributors), ""]
  }

  /** The field lines of a block, the README line included. */
  function FieldLines(r: RepoData): seq<string> {
    InfoLines(r) + [ReadmePrefix]
  }

  /** The lines of a README: none for an empty one. */
  function ReadmeLines(readme: string): seq<string> {
    if readme == "" then [] else Split(readme, "\n")
  }

  /** The lines the refiner should see in a section. */
  function SectionLinesOf(first: bool, r: RepoData): seq<string> {
    HeaderLines(first) + FieldLines(r) + ReadmeLines(r.readmeContent)
  }

  /** A block without its closing separator. */
  function SectionText(r: RepoData): string {
    Fields(r) + r.readmeContent + "\n\n"
  }

  lemma LeadLines(first: bool)
    ensures Lead(first) == Lines(HeaderLines(first))
  {
    if first {
      var ls := HeaderLines(true);
      assert ls[1..] == [""];
      assert ls[1..][1..] == [];
    }
  }

  lemma LinesSnoc(a: seq<string>, x: string)
    ensures Lines(a + [x]) == Lines(a) + x + "\n"
  {
    LinesAppend(a, [x]);
    assert [x][1..] == [];
  }

  /** The field lines of a block are written one per line. */
  lemma FieldsLines(r: RepoData)
    ensures Fields(r) == Lines(FieldLines(r))
  {
    FieldsShape(r.name, r.url, NatToString(r.commits), NatToString(r.branches),
      NatToString(r.releases), NatToString(r.contributors));
  }

  lemma FieldsShape(name: string, url: string, commits: string, branches: string, releases: string, contributors: string)
    ensures "Repository: " + name + "\n" + "URL: " + url + "\n" + "Commits: " + commits + "\n"
      + "Branches: " + branches + "\n" + "Releases: " + releases + "\n"
      + "Contributors: " + contributors + "\n\n" + "README Content:\n"
      == Lines(["Repository: " + name, "URL: " + url, "Commits: " + commits, "Branches: " + branches,
                "Releases: " + releases, "Contributors: " + contributors, ""] + [ReadmePrefix])
  {
    var s1 := ["Repository: " + name];
    var s2 := s1 + ["URL: " + url];
    var s3 := s2 + ["Commits: " + commits];
    var s4 := s3 + ["Branches: " + branches];
    var s5 := s4 + ["Releases: " + releases];
    var s6 := s5 + ["Contributors: " + contributors];
    var s7 := s6 + [""];
    var s8 := s7 + [ReadmePrefix];
    var t1 := "Repository: " + name + "\n";
    var t2 := t1 + "URL: " + url + "\n";
    var t3 := t2 + "Commits: " + commits + "\n";
    var t4 := t3 + "Branches: " + branches + "\n";
    var t5 := t4 + "Releases: " + releases + "\n";
    var t6 := t5 + "Contributors: " + contributors + "\n\n";
    var t7 := t6 + "README Content:\n";
    assert Lines(s1) == t1 by {
      LinesSnoc([], "Repository: " + name);
      assert [] + ["Repository: " + name] == s1;
    }
    assert Lines(s2) == t2 by { LinesSnoc(s1, "URL: " + url); AppendAssoc(t1, "URL: ", url); }
    assert Lines(s3) == t3 by { LinesSnoc(s2, "Commits: " + commits); AppendAssoc(t2, "Commits: ", commits); }
    assert Lines(s4) == t4 by { LinesSnoc(s3, "Branches: " + branches); AppendAssoc(t3, "Branches: ", branches); }
    assert Lines(s5) == t5 by { LinesSnoc(s4, "Releases: " + releases); AppendAssoc(t4, "Releases: ", releases); }
    assert Lines(s7) == t6 by {
      LinesSnoc(s5, "Contributors: " + contributors);
      AppendAssoc(t5, "Contributors: ", contributors);
      LinesSnoc(s6, "");
      AppendAssoc(t5 + "Contributors: " + contributors, "\n", "\n");
    }
    assert Lines(s8) == t7 by { LinesSnoc(s7, ReadmePrefix); AppendAssoc(t6, ReadmePrefix, "\n"); }
    assert s7 == ["Repository: " + name, "URL: " + url, "Commits: " + commits, "Branches: " + branches,
                  "Releases: " + releases, "Contributors: " + contributors, ""];
  }

  lemma DigitsOnly(n: nat)
    ensures '\n' !in NatToString(n) && '=' !in NatToString(n)
  {
    NatToStringDigits(n);
    var t := NatToString(n);
    forall i | 0 <= i < |t| ensures t[i] != '\n' && t[i] != '=' {
      assert '0' <= t[i] <= '9';
    }
  }

  /** No line before the README line spans two lines. */
  lemma InfoLinesPlain(r: RepoData)
    requires '\n' !in r.name && '\n' !in r.url
    requires '=' !in r.name && '=' !in r.url
    ensures forall k :: 0 <= k < |InfoLines(r)| ==> '\n' !in InfoLines(r)[k] && '=' !in InfoLines(r)[k]
  {
    DigitsOnly(r.commits);
    DigitsOnly(r.branches);
    DigitsOnly(r.releases);
    DigitsOnly(r.contributors);
  }

  lemma ReadmeLineStarts()
    ensures StartsWith(ReadmePrefix, ReadmePrefix)
  {
    assert ReadmePrefix[..|ReadmePrefix|] == ReadmePrefix;
  }

  lemma ReadmeLineSplit()
    ensures '\n' !in ReadmePrefix
  {
  }

  lemma ReadmeLineEnd(x: string)
    ensures var s := x + ReadmePrefix; !IsSpace(s[|s| - 1])
  {
    var s := x + ReadmePrefix;
    assert s[|s| - 1] == ReadmePrefix[14] == ':';
  }

  lemma BareTail(core: string)
    ensures core + "\n" + "" + "\n\n" == core + "\n\n\n"
  {
    assert core + "\n" + "" == core + "\n";
    AppendAssoc(core, "\n", "\n\n");
    assert "\n" + "\n\n" == "\n\n\n";
  }

  lemma BlankLines()
    ensures IsBlank("\n\n") && IsBlank("\n\n\n")
  {
  }

  /**
   * Lines, the README line, a stripped README and a blank line: stripped and
   * split on newlines, that is the lines, the README line and the README's lines.
   */
  lemma SplitSection(text: string, front: seq<string>, readme: string)
    requires text == Lines(front + [ReadmePrefix]) + readme + "\n\n"
    requires front != [] ==> front[0] != [] && !IsSpace(front[0][0])
    requires forall k :: 0 <= k < |front| ==> '\n' !in front[k]
    requires Strip(readme) == readme
    ensures Strip(text) != [] && Split(Strip(text), "\n") == front + [ReadmePrefix] + ReadmeLines(readme)
  {
    var core := Lines(front) + ReadmePrefix;
    assert text == core + "\n" + readme + "\n\n" by {
      LinesSnoc(front, ReadmePrefix);
    }
    assert !IsSpace(core[0]) by {
      if front == [] {
        assert core[0] == ReadmePrefix[0];
      } else {
        assert core[0] == Lines(front)[0] == front[0][0];
      }
    }
    if readme == "" {
      SplitSectionBare(text, front, core);
    } else {
      SplitSectionReadme(text, front, core, readme);
    }
  }

  lemma SplitSectionBare(text: string, front: seq<string>, core: string)
    requires text == core + "\n" + "" + "\n\n"
    requires core == Lines(front) + ReadmePrefix && !IsSpace(core[0])
    requires forall k :: 0 <= k < |front| ==> '\n' !in front[k]
    ensures Strip(text) != [] && Split(Strip(text), "\n") == front + [ReadmePrefix] + ReadmeLines("")
  {
    BareTail(core);
    BlankLines();
    ReadmeLineEnd(Lines(front));
    StripPadded(core, "\n\n\n");
    ReadmeLineSplit();
    SplitLinesLast(front, ReadmePrefix);
    assert front + [ReadmePrefix] + ReadmeLines("") == front + [ReadmePrefix];
  }

  lemma SplitSectionReadme(text: string, front: seq<string>, core: string, readme: string)
    requires text == core + "\n" + readme + "\n\n"
    requires core == Lines(front) + ReadmePrefix && !IsSpace(core[0])
    requires forall k :: 0 <= k < |front| ==> '\n' !in front[k]
    requires Strip(readme) == readme && readme != ""
    ensures Strip(text) != [] && Split(Strip(text), "\n") == front + [ReadmePrefix] + ReadmeLines(readme)
  {
    StripReadme(text, core, readme);
    SplitReadme(front, core, readme);
  }

  /** A section with a README strips down to its last README character. */
  lemma StripReadme(text: string, core: string, readme: string)
    requires text == core + "\n" + readme + "\n\n"
    requires core != [] && !IsSpace(core[0])
    requires Strip(readme) == readme && readme != ""
    ensures Strip(text) == core + "\n" + readme
  {
    var all := core + "\n" + readme;
    StripTrimmed(readme);
    assert all[|all| - 1] == readme[|readme| - 1];
    assert all[0] == core[0];
    BlankLines();
    StripPadded(all, "\n\n");
  }

  /** The lines before the README, the README line, then the README's lines. */
  lemma SplitReadme(front: seq<string>, core: string, readme: string)
    requires core == Lines(front) + ReadmePrefix
    requires forall k :: 0 <= k < |front| ==> '\n' !in front[k]
    requires readme != ""
    ensures Split(core + "\n" + readme, "\n") == front + [ReadmePrefix] + ReadmeLines(readme)
  {
    var hf := front + [ReadmePrefix];
    LinesSnoc(front, ReadmePrefix);
    ReadmeLineSplit();
    assert forall k :: 0 <= k < |hf| ==> '\n' !in hf[k];
    SplitLines(hf, readme);
  }

  /** The refiner sees the section as the header lines, the field lines and the README's lines. */
  lemma SectionSplit(first: bool, r: RepoData)
    requires Safe(r)
    ensures var t := Strip(Lead(first) + SectionText(r)); t != [] && Split(t, "\n") == SectionLinesOf(first, r)
  {
    var h, i := HeaderLines(first), InfoLines(r);
    var readme := r.readmeContent;
    var front := h + i;
    var text := Lead(first) + SectionText(r);
    assert text == Lines(front + [ReadmePrefix]) + readme + "\n\n" by {
      LeadLines(first);
      FieldsLines(r);
      LinesAppend(h, FieldLines(r));
      SeqAssoc(h, i, [ReadmePrefix]);
      AppendAssoc(Lead(first), Fields(r) + readme, "\n\n");
      AppendAssoc(Lead(first), Fields(r), readme);
    }
    assert forall k :: 0 <= k < |front| ==> '\n' !in front[k] by {
      InfoLinesPlain(r);
    }
    assert front[0][0] == (if first then 'G' else 'R');
    SplitSection(text, front, readme);
    assert SectionLinesOf(first, r) == front + [ReadmePrefix] + ReadmeLines(readme) by {
      SeqAssoc(h, i, [ReadmePrefix]);
    }
  }

  // ---------------------------------------------------------------------------
  // Reading one section
  // ---------------------------------------------------------------------------

  lemma DiffersAt(line: string, prefix: string, k: nat)
    requires k < |prefix| && (k < |line| ==> line[k] != prefix[k])
    ensures !StartsWith(line, prefix)
  {
    if |prefix| <= |line| {
      assert line[..|prefix|][k] == line[k];
    }
  }

  /** `lines.index(line)` is the first position holding `line`. */
  lemma {:induction false} IndexOfIs(lines: seq<string>, line: string, j: nat)
    requires j < |lines| && lines[j] == line
    requires line !in lines[..j]
    ensures line in lines && IndexOf(lines, line) == j
    decreases j
  {
    if j > 0 {
      var m := j - 1;
      assert lines[0] == lines[..j][0];
      assert lines[1..][m] == line;
      assert lines[1..][..m] == lines[..j][1..];
      IndexOfIs(lines[1..], line, m);
    }
  }

  lemma LastMatchIs(lines: seq<string>, k: nat, prefix: string, j: nat)
    requires j < k <= |lines| && StartsWith(lines[j], prefix)
    requires forall i {:trigger StartsWith(lines[i], prefix)} :: j < i < k ==> !StartsWith(lines[i], prefix)
    ensures LastMatch(lines, k, prefix) == Some(j)
  {
  }

  /** Which prefixes the lines before the README line start with. */
  lemma InfoLinesShape(r: RepoData)
    ensures var ls := InfoLines(r);
      && ls[0] == NamePrefix + r.name && ls[1] == UrlPrefix + r.url
      && (forall k :: 1 <= k < 7 ==> !StartsWith(ls[k], NamePrefix))
      && (forall k :: 2 <= k < 7 ==> !StartsWith(ls[k], UrlPrefix))
      && (forall k :: 0 <= k < 7 ==> !StartsWith(ls[k], ReadmePrefix))
  {
    var ls := InfoLines(r);
    DiffersAt(ls[1], NamePrefix, 0);
    DiffersAt(ls[2], NamePrefix, 0);
    DiffersAt(ls[3], NamePrefix, 0);
    DiffersAt(ls[4], NamePrefix, 2);
    DiffersAt(ls[5], NamePrefix, 0);
    DiffersAt(ls[6], NamePrefix, 0);
    DiffersAt(ls[2], UrlPrefix, 0);
    DiffersAt(ls[3], UrlPrefix, 0);
    DiffersAt(ls[4], UrlPrefix, 0);
    DiffersAt(ls[5], UrlPrefix, 0);
    DiffersAt(ls[6], UrlPrefix, 0);
    DiffersAt(ls[0], ReadmePrefix, 1);
    DiffersAt(ls[1], ReadmePrefix, 0);
    DiffersAt(ls[2], ReadmePrefix, 0);
    DiffersAt(ls[3], ReadmePrefix, 0);
    DiffersAt(ls[4], ReadmePrefix, 1);
    DiffersAt(ls[5], ReadmePrefix, 0);
    DiffersAt(ls[6], ReadmePrefix, 0);
  }

  /** The header lines and the README line start with none of the other prefixes. */
  lemma FixedLinesShape()
    ensures forall k :: 0 <= k < 2 ==> !StartsWith(HeaderLines(true)[k], ReadmePrefix)
    ensures !StartsWith(ReadmePrefix, NamePrefix) && !StartsWith(ReadmePrefix, UrlPrefix)
  {
    DiffersAt(HeaderLines(true)[0], ReadmePrefix, 0);
    DiffersAt(HeaderLines(true)[1], ReadmePrefix, 0);
    DiffersAt(ReadmePrefix, NamePrefix, 1);
    DiffersAt(ReadmePrefix, UrlPrefix, 0);
  }

  /** The name read from a section is that of the last line starting with the name prefix. */
  lemma NameRead(lines: seq<string>, p: nat, name: string)
    requires p < |lines| && lines[p] == NamePrefix + name
    requires forall i {:trigger StartsWith(lines[i], NamePrefix)} :: p < i < |lines| ==> !StartsWith(lines[i], NamePrefix)
    requires Strip(name) == name && !Contains(name, NamePrefix)
    ensures ParseLines(lines, |lines|).name == Some(name)
  {
    assert (NamePrefix + name)[..|NamePrefix|] == NamePrefix;
    ParseLinesKeys(lines, |lines|);
    LastMatchIs(lines, |lines|, NamePrefix, p);
    ReplaceLeading(NamePrefix, name);
  }

  /** The URL read from a section is that of the last line starting with the URL prefix. */
  lemma UrlRead(lines: seq<string>, u: nat, url: string)
    requires u < |lines| && lines[u] == UrlPrefix + url
    requires forall i {:trigger StartsWith(lines[i], UrlPrefix)} :: u < i < |lines| ==> !StartsWith(lines[i], UrlPrefix)
    requires Strip(url) == url && !Contains(url, UrlPrefix)
    ensures ParseLines(lines, |lines|).url == Some(url)
  {
    assert (UrlPrefix + url)[..|UrlPrefix|] == UrlPrefix;
    ParseLinesKeys(lines, |lines|);
    LastMatchIs(lines, |lines|, UrlPrefix, u);
    ReplaceLeading(UrlPrefix, url);
  }

  /** The README read from a section is everything after its only README line. */
  lemma ReadmeRead(lines: seq<string>, m: nat, readme: string)
    requires m < |lines| && lines[m] == ReadmePrefix
    requires forall i {:trigger StartsWith(lines[i], ReadmePrefix)} :: m < i < |lines| ==> !StartsWith(lines[i], ReadmePrefix)
    requires ReadmePrefix !in lines[..m]
    requires Strip(readme) == readme && Join(lines[m + 1..], "\n") == readme
    ensures ParseLines(lines, |lines|).readme == Some(readme)
  {
    var n := |lines|;
    ReadmeLineStarts();
    LastMatchIs(lines, n, ReadmePrefix, m);
    IndexOfIs(lines, ReadmePrefix, m);
    ParseLinesKeys(lines, n);
  }

  /**
   * The lines of a section, read by the refiner: the name line, the URL line and
   * the README line are the last lines with their prefixes, and the README line
   * is the first line equal to it.
   */
  lemma ParseLinesOf(lines: seq<string>, p: nat, name: string, url: string, readme: string)
    requires p + 8 <= |lines|
    requires lines[p] == NamePrefix + name && lines[p + 1] == UrlPrefix + url && lines[p + 7] == ReadmePrefix
    requires forall i {:trigger StartsWith(lines[i], NamePrefix)} :: p < i < |lines| ==> !StartsWith(lines[i], NamePrefix)
    requires forall i {:trigger StartsWith(lines[i], UrlPrefix)} :: p + 1 < i < |lines| ==> !StartsWith(lines[i], UrlPrefix)
    requires forall i {:trigger StartsWith(lines[i], ReadmePrefix)} :: p + 7 < i < |lines| ==> !StartsWith(lines[i], ReadmePrefix)
    requires ReadmePrefix !in lines[..p + 7]
    requires Strip(name) == name && !Contains(name, NamePrefix)
    requires Strip(url) == url && !Contains(url, UrlPrefix)
    requires Strip(readme) == readme && Join(lines[p + 8..], "\n") == readme
    ensures ParseLines(lines, |lines|) == Repo(Some(name), Some(url), Some(readme), None)
  {
    var u, m := p + 1, p + 7;
    NameRead(lines, p, name);
    UrlRead(lines, u, url);
    ReadmeRead(lines, m, readme);
    ParseLinesKeys(lines, |lines|);
  }

  /** A README's lines join back into it, and none of them is a field line when it is safe. */
  lemma ReadmeLinesOf(r: RepoData)
    requires Safe(r)
    ensures var rl := ReadmeLines(r.readmeContent);
      && Join(rl, "\n") == r.readmeContent
      && forall k :: 0 <= k < |rl| ==> FieldFree(rl[k])
  {
    if r.readmeContent != "" {
      JoinSplit(r.readmeContent, "\n");
    }
  }

  /**
   * Where the field lines sit among a section's lines: after `h`, seven info
   * lines then the README line, then lines that are no field lines.
   */
  lemma Layout(h: seq<string>, info: seq<string>, rl: seq<string>, name: string, url: string)
    requires |info| == 7 && info[0] == NamePrefix + name && info[1] == UrlPrefix + url
    requires forall k :: 1 <= k < 7 ==> !StartsWith(info[k], NamePrefix)
    requires forall k :: 2 <= k < 7 ==> !StartsWith(info[k], UrlPrefix)
    requires forall k :: 0 <= k < 7 ==> !StartsWith(info[k], ReadmePrefix)
    requires forall k :: 0 <= k < |h| ==> !StartsWith(h[k], ReadmePrefix)
    requires !StartsWith(ReadmePrefix, NamePrefix) && !StartsWith(ReadmePrefix, UrlPrefix)
    requires forall k :: 0 <= k < |rl| ==> FieldFree(rl[k])
    ensures var ls, p := h + (info + [ReadmePrefix]) + rl, |h|;
      && p + 8 <= |ls| && ls[p] == NamePrefix + name && ls[p + 1] == UrlPrefix + url && ls[p + 7] == ReadmePrefix
      && (forall i {:trigger StartsWith(ls[i], NamePrefix)} :: p < i < |ls| ==> !StartsWith(ls[i], NamePrefix))
      && (forall i {:trigger StartsWith(ls[i], UrlPrefix)} :: p + 1 < i < |ls| ==> !StartsWith(ls[i], UrlPrefix))
      && (forall i {:trigger StartsWith(ls[i], ReadmePrefix)} :: p + 7 < i < |ls| ==> !StartsWith(ls[i], ReadmePrefix))
      && ReadmePrefix !in ls[..p + 7]
      && ls[p + 8..] == rl
  {
    var ls, p := h + (info + [ReadmePrefix]) + rl, |h|;
    forall i | p < i < |ls| ensures !StartsWith(ls[i], NamePrefix) && (p + 1 < i ==> !StartsWith(ls[i], UrlPrefix)) {
      if i < p + 7 {
        assert ls[i] == info[i - p];
      } else if i > p + 7 {
        assert ls[i] == rl[i - p - 8];
      }
    }
    forall i | p + 7 < i < |ls| ensures !StartsWith(ls[i], ReadmePrefix) {
      assert ls[i] == rl[i - p - 8];
    }
    ReadmeLineStarts();
    assert ls[..p + 7] == h + info;
    assert ls[p + 8..] == rl;
  }

  /** Lines laid out as `Layout` describes read as the record of the name, URL and README they hold. */
  lemma LayoutReads(h: seq<string>, info: seq<string>, rl: seq<string>, name: string, url: string, readme: string)
    requires |info| == 7 && info[0] == NamePrefix + name && info[1] == UrlPrefix + url
    requires forall k :: 1 <= k < 7 ==> !StartsWith(info[k], NamePrefix)
    requires forall k :: 2 <= k < 7 ==> !StartsWith(info[k], UrlPrefix)
    requires forall k :: 0 <= k < 7 ==> !StartsWith(info[k], ReadmePrefix)
    requires forall k :: 0 <= k < |h| ==> !StartsWith(h[k], ReadmePrefix)
    requires !StartsWith(ReadmePrefix, NamePrefix) && !StartsWith(ReadmePrefix, UrlPrefix)
    requires forall k :: 0 <= k < |rl| ==> FieldFree(rl[k])
    requires Strip(name) == name && !Contains(name, NamePrefix)
    requires Strip(url) == url && !Contains(url, UrlPrefix)
    requires Strip(readme) == readme && Join(rl, "\n") == readme
    ensures var ls := h + (info + [ReadmePrefix]) + rl; ParseLines(ls, |ls|) == Repo(Some(name), Some(url), Some(readme), None)
  {
    Layout(h, info, rl, name, url);
    ParseLinesOf(h + (info + [ReadmePrefix]) + rl, |h|, name, url, readme);
  }

  /** The lines of a safe section read as the repository's record. */
  lemma SectionRecord(first: bool, r: RepoData)
    requires Safe(r)
    ensures var ls := SectionLinesOf(first, r); ParseLines(ls, |ls|) == Expected(r)
  {
    InfoLinesShape(r);
    FixedLinesShape();
    ReadmeLinesOf(r);
    LayoutReads(HeaderLines(first), InfoLines(r), ReadmeLines(r.readmeContent), r.name, r.url, r.readmeContent);
  }

  /** A section whose stripped lines read as a record that fills a key contributes that record. */
  lemma SectionReads(section: string, lines: seq<string>, rec: Repo)
    requires Strip(section) != [] && Split(Strip(section), "\n") == lines
    requires ParseLines(lines, |lines|) == rec && rec != NoFields
    ensures ParseSection(section) == Some(rec)
  {
  }

  /** A safe repository's section, with or without the header before it, reads back as its record. */
  lemma ParseSectionOf(first: bool, r: RepoData)
    requires Safe(r)
    ensures ParseSection(Lead(first) + SectionText(r)) == Some(Expected(r))
  {
    SectionSplit(first, r);
    SectionRecord(first, r);
    SectionReads(Lead(first) + SectionText(r), SectionLinesOf(first, r), Expected(r));
  }

  /** A section whose only line is no field line contributes nothing. */
  lemma LoneLine(section: string, line: string)
    requires Strip(section) == line && line != [] && '\n' !in line && FieldFree(line)
    ensures ParseSection(section) == None
  {
    SplitWithout(line, '\n');
    assert ParseLines([line], 1) == ParseLine([line], line, NoFields);
  }

  /** The file's title line, as the refiner sees the header. */
  const HeaderTitle: string := "GitHub Repositories Data"

  lemma HeaderStrips()
    ensures Strip(Header) == HeaderTitle
  {
    assert Header == HeaderTitle + "\n\n";
    assert !IsSpace(HeaderTitle[0]) && !IsSpace(HeaderTitle[|HeaderTitle| - 1]);
    BlankLines();
    StripPadded(HeaderTitle, "\n\n");
  }

  lemma TitlePlain()
    ensures HeaderTitle != [] && '\n' !in HeaderTitle && FieldFree(HeaderTitle)
  {
    DiffersAt(HeaderTitle, NamePrefix, 0);
    DiffersAt(HeaderTitle, UrlPrefix, 0);
    DiffersAt(HeaderTitle, ReadmePrefix, 0);
  }

  /** The header alone, and the empty text, contribute nothing. */
  lemma LeadAlone(first: bool)
    ensures ParseSection(Lead(first)) == None
  {
    if first {
      HeaderStrips();
      TitlePlain();
      LoneLine(Header, HeaderTitle);
    }
  }

  // ---------------------------------------------------------------------------
  // The whole file
  // ---------------------------------------------------------------------------

  /** Text a separator can follow without being found earlier: it holds none and ends with a blank line. */
  predicate Clean(x: string) {
    !Contains(x, SectionSeparator) && EndsWith(x, "\n\n")
  }

  /**
   * After a clean piece, the first separator is the one that follows it: every
   * window that starts inside the piece but runs past its end meets one of its
   * two final newlines where the separator has a '='.
   */
  lemma SplitAfterClean(x: string, y: string)
    requires Clean(x)
    ensures Split(x + SectionSeparator + y, SectionSeparator) == [x] + Split(y, SectionSeparator)
  {
    var s, n := x + SectionSeparator + y, |SectionSeparator|;
    assert x[|x| - 2] == '\n' && x[|x| - 1] == '\n' by {
      assert x[|x| - 2..][0] == x[|x| - 2] && x[|x| - 2..][1] == x[|x| - 1];
    }
    forall j | 0 <= j < |x| ensures !OccursAt(s, j, SectionSeparator) {
      if j + n <= |s| {
        if j + n <= |x| {
          assert s[j..j + n] == x[j..j + n];
          assert !OccursAt(x, j, SectionSeparator);
        } else {
          var o := if j <= |x| - 2 then |x| - 2 - j else 0;
          assert s[j..j + n][o] == s[j + o] == '\n';
          assert SectionSeparator[o] == '=';
        }
      }
    }
    SplitFirst(x, SectionSeparator, y);
  }

  /** The pieces a file splits into: `h` glued to the first section, then the other sections. */
  function Sections(h: string, xs: seq<string>): seq<string>
    decreases |xs|
  {
    if xs == [] then [h] else [h + xs[0]] + Sections("", xs[1..])
  }

  /**
   * Clean sections, each closed by the separator, after a head without '=':
   * the file splits into the head glued to the first section, the other
   * sections, and the empty text after the last separator.
   */
  lemma {:induction false} SplitBlocks(h: string, ps: seq<string>, xs: seq<string>)
    requires |ps| == |xs| && '=' !in h
    requires forall i :: 0 <= i < |ps| ==> ps[i] == xs[i] + SectionSeparator
    requires forall i :: 0 <= i < |xs| ==> Clean(xs[i])
    ensures Split(h + Concat(ps, |ps|), SectionSeparator) == Sections(h, xs)
    decreases |ps|
  {
    if ps == [] {
      assert h + Concat(ps, 0) == h;
      FreeConcat(h, "", SectionSeparator);
      assert h + "" == h;
      SplitAbsent(h, SectionSeparator);
    } else {
      var rest := Concat(ps[1..], |ps| - 1);
      var x := h + xs[0];
      ConcatCons(ps, |ps|);
      assert h + Concat(ps, |ps|) == x + SectionSeparator + rest by {
        AppendAssoc(xs[0], SectionSeparator, rest);
        AppendAssoc(h, xs[0] + SectionSeparator, rest);
        AppendAssoc(h, xs[0], SectionSeparator);
      }
      assert Clean(x) by {
        FreeConcat(h, xs[0], SectionSeparator);
        EndsWithConcat(h, xs[0]);
        EndsWithTrans("\n\n", xs[0], x);
      }
      SplitAfterClean(x, rest);
      SplitBlocks("", ps[1..], xs[1..]);
      assert "" + rest == rest;
    }
  }

  /** A block is its section closed by the separator. */
  lemma BlockSection(rs: seq<RepoData>, i: nat)
    requires i < |rs|
    ensures Blocks(rs)[i] == SectionText(rs[i]) + SectionSeparator
  {
    var r := rs[i];
    BlockParts(r);
    assert Trailer == "\n\n" + SectionSeparator;
    AppendAssoc(Fields(r) + r.readmeContent, "\n\n", SectionSeparator);
  }

  /** No line of a block's field lines holds '=' when neither the name nor the URL does. */
  lemma {:induction false} LinesWithout(ls: seq<string>, c: char)
    requires c != '\n' && forall k :: 0 <= k < |ls| ==> c !in ls[k]
    ensures c !in Lines(ls)
    decreases |ls|
  {
    if ls != [] {
      LinesWithout(ls[1..], c);
    }
  }

  lemma FieldsPlain(r: RepoData)
    requires '\n' !in r.name && '\n' !in r.url && '=' !in r.name && '=' !in r.url
    ensures '=' !in Fields(r)
  {
    FieldsLines(r);
    InfoLinesPlain(r);
    var ls := FieldLines(r);
    assert forall k :: 0 <= k < |ls| ==> '=' !in ls[k];
    LinesWithout(ls, '=');
  }

  /** A safe repository's section is clean. */
  lemma SectionClean(r: RepoData)
    requires Safe(r)
    ensures Clean(SectionText(r))
  {
    var f, readme := Fields(r), r.readmeContent;
    FieldsPlain(r);
    FreeConcat(f, readme + "\n\n", SectionSeparator);
    AppendAssoc(f, readme, "\n\n");
    EndsWithConcat(f + readme, "\n\n");
  }

  /** A section that reads as `e`, before sections that read as `tail`, reads as `[e] + tail`. */
  lemma KeptStep(a: string, b: seq<string>, e: Repo, tail: seq<Repo>)
    requires ParseSection(a) == Some(e)
    requires var sb := SectionRecords(b); Kept(sb, |sb|) == tail
    ensures var ss := SectionRecords([a] + b); Kept(ss, |ss|) == [e] + tail
  {
    ParseSectionsAppend([a], b);
    var sa := SectionRecords([a]);
    assert sa == [Some(e)];
    assert Kept(sa, 1) == Kept(sa, 0) + [e];
  }

  /** The sections of safe repositories read back, in order, as their records. */
  lemma {:induction false} KeptSections(first: bool, rs: seq<RepoData>)
    requires forall i :: 0 <= i < |rs| ==> Safe(rs[i])
    ensures var ss := SectionRecords(Sections(Lead(first), Map(SectionText, rs)));
      Kept(ss, |ss|) == Map(Expected, rs)
    decreases |rs|
  {
    var xs := Map(SectionText, rs);
    if rs == [] {
      LeadAlone(first);
      var ss := SectionRecords([Lead(first)]);
      assert ss == [None];
      assert Kept(ss, 1) == Kept(ss, 0) + [];
    } else {
      MapCons(SectionText, rs);
      MapCons(Expected, rs);
      ParseSectionOf(first, rs[0]);
      KeptSections(false, rs[1..]);
      KeptStep(Lead(first) + xs[0], Sections("", xs[1..]), Expected(rs[0]), Map(Expected, rs[1..]));
    }
  }

  /**
   * The round trip: the refiner reads the scraper's file back as one record per
   * safe repository, in the scraper's order, holding its name, URL and README.
   */
  lemma SavedTextReadsBack(rs: seq<RepoData>)
    requires forall i :: 0 <= i < |rs| ==> Safe(rs[i])
    ensures Parse(SavedText(rs)) == Map(Expected, rs)
  {
    var xs, ps := Map(SectionText, rs), Blocks(rs);
    forall i | 0 <= i < |rs| ensures ps[i] == xs[i] + SectionSeparator && Clean(xs[i]) {
      BlockSection(rs, i);
      SectionClean(rs[i]);
    }
    assert '=' !in Header;
    SplitBlocks(Header, ps, xs);
    KeptSections(true, rs);
  }

  /**
   * The pipeline's hand-over: the scraper writes its file, and the refiner
   * parses what was written.
   */
  method SaveThenParse(rs: seq<RepoData>) returns (parsed: seq<Repo>)
    requires forall i :: 0 <= i < |rs| ==> Safe(rs[i])
    ensures parsed == Map(Expected, rs)
  {
    var content := SaveToText(rs);
    parsed := ParseRepositories(content);
    SavedTextReadsBack(rs);
  }
}

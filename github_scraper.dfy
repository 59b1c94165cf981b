/**
 * The text file the GitHub scraper writes (`save_to_text`): a fixed header, then
 * one block per scraped repository, each closed by the separator line that the
 * refiner later splits on.  The file is modelled as the string of everything
 * written to it.
 */
module Scraper {
  import opened Text

  /** One scraped repository, with the fields `get_repo_data` fills in. */
  datatype RepoData = RepoData(
    name: string,
    url: string,
    commits: nat,
    branches: nat,
    releases: nat,
    contributors: nat,
    readmeContent: string)

  /** The first thing written to the file. */
  const Header: string := "GitHub Repositories Data\n\n"

  /** What closes every repository block, and what the refiner splits the file on. */
  const Separator: string := "==========\n\n"

  /** What follows the README in a block: a blank line and the separator. */
  const Trailer: string := "\n\n==========\n\n"

  /** The field lines of a block, up to and including the line that introduces the README. */
  function Fields(r: RepoData): string {
    "Repository: " + r.name + "\n"
    + "URL: " + r.url + "\n"
    + "Commits: " + NatToString(r.commits) + "\n"
    + "Branches: " + NatToString(r.branches) + "\n"
    + "Releases: " + NatToString(r.releases) + "\n"
    + "Contributors: " + NatToString(r.contributors) + "\n\n"
    + "README Content:\n"
  }

  /** The block written for one repository, as its seven successive writes. */
  function Block(r: RepoData): string {
    ("Repository: " + r.name + "\n")
    + ("URL: " + r.url + "\n")
    + ("Commits: " + NatToString(r.commits) + "\n")
    + ("Branches: " + NatToString(r.branches) + "\n")
    + ("Releases: " + NatToString(r.releases) + "\n")
    + ("Contributors: " + NatToString(r.contributors) + "\n\n")
    + ("README Content:\n" + r.readmeContent + Trailer)
  }

  /** A block is its field lines, the README, a blank line and the separator. */
  lemma BlockParts(r: RepoData)
    ensures Block(r) == Fields(r) + r.readmeContent + Trailer
  {
    var f6 := ("Repository: " + r.name + "\n")
      + ("URL: " + r.url + "\n")
      + ("Commits: " + NatToString(r.commits) + "\n")
      + ("Branches: " + NatToString(r.branches) + "\n")
      + ("Releases: " + NatToString(r.releases) + "\n")
      + ("Contributors: " + NatToString(r.contributors) + "\n\n");
    var g := "README Content:\n";
    assert Fields(r) == f6 + g;
    AppendAssoc(f6, g + r.readmeContent, Trailer);
    AppendAssoc(f6, g, r.readmeContent);
  }

  /** The block of every repository, in order. */
  function Blocks(rs: seq<RepoData>): (bs: seq<string>)
    ensures |bs| == |rs|
  {
    seq(|rs|, i requires 0 <= i < |rs| => Block(rs[i]))
  }

  /** The whole file written for `rs`. */
  function SavedText(rs: seq<RepoData>): string {
    Header + Concat(Blocks(rs), |rs|)
  }

  /** `save_to_text`, with the file's contents returned instead of written. */
  method SaveToText(data: seq<RepoData>) returns (out: string)
    ensures out == SavedText(data)
  {
    out := Header;
    for i := 0 to |data|
      invariant out == Header + Concat(Blocks(data), i)
    {
      var repo := data[i];
      ghost var before := out;
      var w1 := "Repository: " + repo.name + "\n";
      var w2 := "URL: " + repo.url + "\n";
      var w3 := "Commits: " + NatToString(repo.commits) + "\n";
      var w4 := "Branches: " + NatToString(repo.branches) + "\n";
      var w5 := "Releases: " + NatToString(repo.releases) + "\n";
      var w6 := "Contributors: " + NatToString(repo.contributors) + "\n\n";
      var w7 := "README Content:\n" + repo.readmeContent + "\n\n==========\n\n";
      out := out + w1;
      out := out + w2;
      out := out + w3;
      out := out + w4;
      out := out + w5;
      out := out + w6;
      out := out + w7;
      AppendSeven(before, w1, w2, w3, w4, w5, w6, w7);
      assert out == before + Block(repo);
      ConcatStep(Blocks(data), i);
      AppendAssoc(Header, Concat(Blocks(data), i), Block(repo));
    }
  }

  /** The file always starts with the header, even when there is no repository. */
  lemma SavedTextStartsWithHeader(rs: seq<RepoData>)
    ensures StartsWith(SavedText(rs), Header)
    ensures rs == [] ==> SavedText(rs) == Header
  {
    assert SavedText(rs)[..|Header|] == Header;
  }

  /**
   * There is one block per repository, in input order: the block of repository
   * `i` sits in the file right after the header and the blocks before it.
   */
  lemma BlockInPlace(rs: seq<RepoData>, i: nat)
    requires i < |rs|
    ensures var t := SavedText(rs); var o := |Header| + |Concat(Blocks(rs), i)|;
      o + |Blocks(rs)[i]| <= |t| && t[o..o + |Blocks(rs)[i]|] == Blocks(rs)[i]
  {
    ConcatAtAfter(Header, Blocks(rs), i);
  }

  /** Blocks do not overlap: the block of repository `i` ends before the block of any later repository starts. */
  lemma BlocksInOrder(rs: seq<RepoData>, i: nat, j: nat)
    requires i < j < |rs|
    ensures |Concat(Blocks(rs), i)| + |Blocks(rs)[i]| <= |Concat(Blocks(rs), j)|
  {
    ConcatLonger(Blocks(rs), i, j);
  }

  /** Every block ends with a blank line and the separator. */
  lemma BlockEnds(rs: seq<RepoData>, i: nat)
    requires i < |rs|
    ensures EndsWith(Blocks(rs)[i], Trailer)
  {
    var r := rs[i];
    var f6 := ("Repository: " + r.name + "\n")
      + ("URL: " + r.url + "\n")
      + ("Commits: " + NatToString(r.commits) + "\n")
      + ("Branches: " + NatToString(r.branches) + "\n")
      + ("Releases: " + NatToString(r.releases) + "\n")
      + ("Contributors: " + NatToString(r.contributors) + "\n\n");
    var g := "README Content:\n" + r.readmeContent;
    AppendAssoc(f6, g, Trailer);
    assert Blocks(rs)[i] == (f6 + g) + Trailer;
    EndsWithConcat(f6 + g, Trailer);
  }

  /** The file of a non-empty list ends with the blank line and separator that close the last block. */
  lemma SavedTextEndsWithSeparator(rs: seq<RepoData>)
    requires rs != []
    ensures EndsWith(SavedText(rs), Trailer)
  {
    BlockEnds(rs, |rs| - 1);
    ConcatEndsWith(Header, Blocks(rs), Trailer);
  }
}

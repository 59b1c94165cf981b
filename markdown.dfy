/**
 * The plain-text to Markdown rewriter of the resume pipeline
 * (`format_text_to_markdown`).  The input is stripped and split into lines; each
 * line is emitted with spacing that depends on what it looks like and on a
 * one-bit "inside a fenced code block" state, and the result is stripped again.
 */
module Markdown {
  import opened Text

  /** The marker that opens and closes a fenced code block. */
  const Fence: string := "```"

  /** A line whose stripped form starts with the fence marker. */
  predicate IsFence(line: string) {
    StartsWith(Strip(line), Fence)
  }

  /** A line whose stripped form starts like a level-2 or level-3 heading. */
  predicate IsHeading(line: string) {
    StartsWith(Strip(line), "## ") || StartsWith(Strip(line), "### ")
  }

  /** A line whose stripped form starts like a bullet item. */
  predicate IsBullet(line: string) {
    StartsWith(Strip(line), "- ") || StartsWith(Strip(line), "* ")
  }

  /** How the converter classifies a line, tested in the converter's order. */
  datatype Kind = FenceLine | HeadingLine | BulletLine | ParagraphLine | BlankLine

  function KindOf(line: string): Kind {
    if IsFence(line) then FenceLine
    else if IsHeading(line) then HeadingLine
    else if IsBullet(line) then BulletLine
    else if Strip(line) != [] then ParagraphLine
    else BlankLine
  }

  /** The kind of every line, in order. */
  function KindsOf(lines: seq<string>): (ks: seq<Kind>)
    ensures |ks| == |lines|
  {
    seq(|lines|, i requires 0 <= i < |lines| => KindOf(lines[i]))
  }

  /** What precedes a kept line: a blank line before a heading outside a code block. */
  function LeadOf(kind: Kind, inCode: bool): string {
    if !inCode && kind == HeadingLine then "\n" else ""
  }

  /** What follows a kept line: one newline for fences, code and bullets, two otherwise. */
  function TailOf(kind: Kind, inCode: bool): string {
    if inCode || kind == FenceLine || kind == BulletLine then "\n" else "\n\n"
  }

  /**
   * The text emitted for one line of the given kind, given whether a code block is
   * open before it: a whitespace-only line outside a code block becomes a single
   * newline, any other line is kept between its lead and its tail.
   */
  function Piece(line: string, kind: Kind, inCode: bool): string {
    if !inCode && kind == BlankLine then "\n" else LeadOf(kind, inCode) + line + TailOf(kind, inCode)
  }

  /** Whether a code block is open after the first `k` lines: every fence line toggles it. */
  function InCode(kinds: seq<Kind>, k: nat): bool
    requires k <= |kinds|
  {
    if k == 0 then false else InCode(kinds, k - 1) != (kinds[k - 1] == FenceLine)
  }

  /** The pieces emitted for the first `n` lines. */
  function PiecesUpTo(lines: seq<string>, kinds: seq<Kind>, n: nat): (ps: seq<string>)
    requires |kinds| == |lines| && n <= |lines|
    ensures |ps| == n
  {
    if n == 0 then [] else PiecesUpTo(lines, kinds, n - 1) + [Piece(lines[n - 1], kinds[n - 1], InCode(kinds, n - 1))]
  }

  /** The piece emitted for every line, in order. */
  function Pieces(lines: seq<string>, kinds: seq<Kind>): (ps: seq<string>)
    requires |kinds| == |lines|
    ensures |ps| == |lines|
  {
    PiecesUpTo(lines, kinds, |lines|)
  }

  /** Piece `i` is line `i` emitted with its kind and the code-block state before it. */
  lemma {:induction false} PieceAt(lines: seq<string>, kinds: seq<Kind>, n: nat, i: nat)
    requires |kinds| == |lines| && i < n <= |lines|
    ensures PiecesUpTo(lines, kinds, n)[i] == Piece(lines[i], kinds[i], InCode(kinds, i))
  {
    if i < n - 1 {
      PieceAt(lines, kinds, n - 1, i);
    }
  }

  /** The lines the converter works on: the stripped input split on newlines. */
  function LinesOf(text: string): seq<string> {
    Split(Strip(text), "\n")
  }

  /** The accumulated output for the given lines, before the final strip. */
  function Output(lines: seq<string>): string {
    Concat(Pieces(lines, KindsOf(lines)), |lines|)
  }

  /** The converter's result for `text`. */
  function MarkdownOf(text: string): string {
    Strip(Output(LinesOf(text)))
  }

  /** The converter as a loop over the lines with an accumulator and the code-block flag. */
  method FormatTextToMarkdown(text: string) returns (markdown: string)
    ensures markdown == MarkdownOf(text)
  {
    var lines := Split(Strip(text), "\n");
    ghost var kinds := KindsOf(lines);
    ghost var pieces := Pieces(lines, kinds);
    var content := "";
    var inCodeBlock := false;
    for k := 0 to |lines|
      invariant content == Concat(pieces, k)
      invariant inCodeBlock == InCode(kinds, k)
    {
      PieceAt(lines, kinds, |lines|, k);
      ConcatStep(pieces, k);
      content, inCodeBlock := AppendLine(content, lines[k], inCodeBlock);
    }
    assert content == Output(LinesOf(text));
    markdown := Strip(content);
  }

  /** One iteration of the converter's loop: the line's spacing follows its tests in order. */
  method AppendLine(content: string, line: string, inCodeBlock: bool) returns (content': string, inCodeBlock': bool)
    ensures content' == content + Piece(line, KindOf(line), inCodeBlock)
    ensures inCodeBlock' == (inCodeBlock != (KindOf(line) == FenceLine))
  {
    var stripped := Strip(line);
    KindOfTests(line);
    PieceOfLine(line, inCodeBlock);
    inCodeBlock' := inCodeBlock;
    if StartsWith(stripped, Fence) {
      inCodeBlock' := !inCodeBlock;
      content' := content + (line + "\n");
    } else if inCodeBlock {
      content' := content + (line + "\n");
    } else if StartsWith(stripped, "## ") {
      content' := content + ("\n" + line + "\n\n");
    } else if StartsWith(stripped, "### ") {
      content' := content + ("\n" + line + "\n\n");
    } else if StartsWith(stripped, "- ") || StartsWith(stripped, "* ") {
      content' := content + (line + "\n");
    } else if stripped != [] {
      content' := content + (line + "\n\n");
    } else {
      content' := content + "\n";
    }
  }

  /** The classification spelled out as the converter's tests on the stripped line. */
  lemma KindOfTests(line: string)
    ensures KindOf(line) == (var t := Strip(line);
      if StartsWith(t, Fence) then FenceLine
      else if StartsWith(t, "## ") || StartsWith(t, "### ") then HeadingLine
      else if StartsWith(t, "- ") || StartsWith(t, "* ") then BulletLine
      else if t != [] then ParagraphLine
      else BlankLine)
  {
  }

  /** The piece for each kind of line, as the converter's branches produce it. */
  lemma PieceByKind(line: string, kind: Kind, inCode: bool)
    ensures Piece(line, kind, inCode) ==
      if kind == FenceLine || inCode then line + "\n"
      else if kind == HeadingLine then "\n" + line + "\n\n"
      else if kind == BulletLine then line + "\n"
      else if kind == ParagraphLine then line + "\n\n"
      else "\n"
  {
    if !inCode {
      match kind
      case FenceLine =>
      case HeadingLine =>
      case BulletLine =>
      case ParagraphLine =>
      case BlankLine =>
    }
  }

  /**
   * The piece emitted for one line follows the converter's tests in order: a fence
   * line, then any line inside a code block, is emitted with one newline; outside a
   * code block a heading gets a blank line before and after it, a bullet one
   * newline, another non-blank line two, and a whitespace-only line becomes one
   * newline.
   */
  lemma PieceOfLine(line: string, inCode: bool)
    ensures Piece(line, KindOf(line), inCode) ==
      var t := Strip(line);
      if StartsWith(t, Fence) then line + "\n"
      else if inCode then line + "\n"
      else if StartsWith(t, "## ") || StartsWith(t, "### ") then "\n" + line + "\n\n"
      else if StartsWith(t, "- ") || StartsWith(t, "* ") then line + "\n"
      else if t != [] then line + "\n\n"
      else "\n"
  {
    KindOfTests(line);
    PieceByKind(line, KindOf(line), inCode);
  }

  /** Only a whitespace-only line is classified as blank. */
  lemma BlankKind(line: string)
    ensures KindOf(line) == BlankLine <==> IsBlank(line)
  {
    StripBlank(line);
  }

  /** The number of fence lines among the first `k` lines. */
  function FenceCount(kinds: seq<Kind>, k: nat): nat
    requires k <= |kinds|
  {
    if k == 0 then 0 else FenceCount(kinds, k - 1) + (if kinds[k - 1] == FenceLine then 1 else 0)
  }

  /** A code block is open exactly when an odd number of fence lines has been seen. */
  lemma {:induction false} InCodeIsFenceParity(kinds: seq<Kind>, k: nat)
    requires k <= |kinds|
    ensures InCode(kinds, k) <==> FenceCount(kinds, k) % 2 == 1
  {
    if k > 0 {
      InCodeIsFenceParity(kinds, k - 1);
      assert FenceCount(kinds, k) == FenceCount(kinds, k - 1) + (if kinds[k - 1] == FenceLine then 1 else 0);
    }
  }

  /**
   * A fence line, and any line inside an open code block (an odd number of fence
   * lines before it), is emitted verbatim with one newline, whatever it looks like.
   */
  lemma CodeLineVerbatim(lines: seq<string>, kinds: seq<Kind>, k: nat)
    requires |kinds| == |lines| && k < |lines|
    requires kinds[k] == FenceLine || FenceCount(kinds, k) % 2 == 1
    ensures Pieces(lines, kinds)[k] == lines[k] + "\n"
  {
    InCodeIsFenceParity(kinds, k);
    PieceAt(lines, kinds, |lines|, k);
  }

  /** Where line `k` starts in the accumulated output. */
  function Offset(lines: seq<string>, kinds: seq<Kind>, k: nat): nat
    requires |kinds| == |lines| && k < |lines|
  {
    |Concat(Pieces(lines, kinds), k)| + |LeadOf(kinds[k], InCode(kinds, k))|
  }

  /** A kept line's piece holds the line unchanged, framed by blank text and at least one newline after it. */
  lemma PieceFrames(line: string, kind: Kind, inCode: bool)
    requires kind != BlankLine || inCode
    ensures var p := Piece(line, kind, inCode); var o := |LeadOf(kind, inCode)|;
      o + |line| < |p| && p[o..o + |line|] == line && IsBlank(p[..o]) && IsBlank(p[o + |line|..])
  {
    var l := LeadOf(kind, inCode);
    var t := TailOf(kind, inCode);
    var p := l + line + t;
    assert p[..|l|] == l;
    assert p[|l|..|l| + |line|] == line;
    assert p[|l| + |line|..] == t;
  }

  /**
   * Every kept line (not blank, or inside a code block) appears unchanged at its
   * offset in the accumulated output, with at least one character after it.
   */
  lemma LineKept(lines: seq<string>, kinds: seq<Kind>, k: nat)
    requires |kinds| == |lines| && k < |lines|
    requires kinds[k] != BlankLine || InCode(kinds, k)
    ensures var r := Concat(Pieces(lines, kinds), |lines|); var o := Offset(lines, kinds, k);
      o + |lines[k]| < |r| && r[o..o + |lines[k]|] == lines[k]
  {
    PieceKeepsLine(lines, kinds, k);
    ConcatKeeps(Pieces(lines, kinds), k, |LeadOf(kinds[k], InCode(kinds, k))|, lines[k]);
  }

  /** The piece of a kept line holds the line right after its lead, with at least one character after it. */
  lemma PieceKeepsLine(lines: seq<string>, kinds: seq<Kind>, k: nat)
    requires |kinds| == |lines| && k < |lines|
    requires kinds[k] != BlankLine || InCode(kinds, k)
    ensures var p := Pieces(lines, kinds)[k]; var l := |LeadOf(kinds[k], InCode(kinds, k))|;
      l + |lines[k]| < |p| && p[l..l + |lines[k]|] == lines[k]
  {
    PieceAt(lines, kinds, |lines|, k);
    PieceFrames(lines[k], kinds[k], InCode(kinds, k));
  }

  /**
   * Kept lines appear in input order: a kept line `j` ends before any later line
   * `k` starts.
   */
  lemma LinesInOrder(lines: seq<string>, kinds: seq<Kind>, j: nat, k: nat)
    requires |kinds| == |lines| && j < k < |lines|
    requires kinds[j] != BlankLine || InCode(kinds, j)
    ensures Offset(lines, kinds, j) + |lines[j]| < Offset(lines, kinds, k)
  {
    ConcatLonger(Pieces(lines, kinds), j, k);
    PieceAt(lines, kinds, |lines|, j);
    PieceFrames(lines[j], kinds[j], InCode(kinds, j));
  }

  /** Lines whose first starts, and whose last ends, with a non-space character. */
  predicate Unpadded(ls: seq<string>) {
    && 0 < |ls| && ls[0] != [] && !IsSpace(ls[0][0])
    && var last := ls[|ls| - 1]; last != [] && !IsSpace(last[|last| - 1])
  }

  /** The stripped input's first line starts, and its last line ends, with a non-space character. */
  lemma LinesOfEnds(text: string)
    requires Strip(text) != []
    ensures Unpadded(LinesOf(text))
  {
    var s := Strip(text);
    StripTrimmed(text);
    LineEnds(s);
  }

  /** In a string that starts and ends with a non-space character, so do its first and last lines. */
  lemma LineEnds(s: string)
    requires s != [] && !IsSpace(s[0]) && !IsSpace(s[|s| - 1])
    ensures var ls := Split(s, "\n");
      ls[0] != [] && !IsSpace(ls[0][0]) && ls[|ls| - 1] != [] && !IsSpace(ls[|ls| - 1][|ls[|ls| - 1]| - 1])
  {
    var ls := Split(s, "\n");
    var first := ls[0];
    var last := ls[|ls| - 1];
    SplitFirstPiece(s, "\n");
    SplitLastPiece(s, "\n");
    if first != s {
      assert s[0] == (first + "\n")[0];
    }
    if last != s {
      assert s[|s| - 1] == ("\n" + last)[|last|];
    }
  }

  /** Before a kept first line whose first character is not a space, the output holds only spacing. */
  lemma OutputHead(lines: seq<string>, kinds: seq<Kind>)
    requires |kinds| == |lines| && 0 < |lines| && kinds[0] != BlankLine
    requires lines[0] != [] && !IsSpace(lines[0][0])
    ensures var r := Concat(Pieces(lines, kinds), |lines|); var a := Offset(lines, kinds, 0);
      a < |r| && SkipSpaces(r, 0) == a
  {
    var ps := Pieces(lines, kinds);
    ConcatFirst(ps);
    PieceAt(lines, kinds, |lines|, 0);
    PieceFrames(lines[0], kinds[0], false);
    SpacingBefore(ps[0], Concat(ps, |lines|), |LeadOf(kinds[0], false)|, lines[0]);
  }

  /** After a kept last line whose last character is not a space, the output holds only spacing. */
  lemma OutputTail(lines: seq<string>, kinds: seq<Kind>)
    requires |kinds| == |lines| && 0 < |lines| && kinds[|lines| - 1] != BlankLine
    requires var last := lines[|lines| - 1]; last != [] && !IsSpace(last[|last| - 1])
    ensures var n := |lines|; var r := Concat(Pieces(lines, kinds), n);
      var b := Offset(lines, kinds, n - 1) + |lines[n - 1]|;
      0 < b <= |r| && TrimEnd(r, |r|) == b
  {
    var ps := Pieces(lines, kinds);
    var n := |lines|;
    var c := InCode(kinds, n - 1);
    PieceAt(lines, kinds, n, n - 1);
    PieceFrames(lines[n - 1], kinds[n - 1], c);
    SpacingAfterLast(ps, |LeadOf(kinds[n - 1], c)|, lines[n - 1]);
  }

  /** Where the first line starts in the accumulated output (0 when there are no lines). */
  function SpanStart(lines: seq<string>, kinds: seq<Kind>): nat {
    if |kinds| != |lines| || lines == [] then 0 else Offset(lines, kinds, 0)
  }

  /** Where the last line ends in the accumulated output (0 when there are no lines). */
  function SpanEnd(lines: seq<string>, kinds: seq<Kind>): nat {
    if |kinds| != |lines| || lines == [] then 0 else Offset(lines, kinds, |lines| - 1) + |lines[|lines| - 1]|
  }

  /** Stripping an output whose first and last lines are kept and unpadded cuts it to those lines' span. */
  lemma OutputSpan(lines: seq<string>, kinds: seq<Kind>)
    requires |kinds| == |lines| && 0 < |lines|
    requires kinds[0] != BlankLine && kinds[|lines| - 1] != BlankLine
    requires lines[0] != [] && !IsSpace(lines[0][0])
    requires var last := lines[|lines| - 1]; last != [] && !IsSpace(last[|last| - 1])
    ensures var r := Concat(Pieces(lines, kinds), |lines|); var a := SpanStart(lines, kinds); var b := SpanEnd(lines, kinds);
      a < b <= |r| && Strip(r) == r[a..b]
  {
    var n := |lines|;
    var r := Concat(Pieces(lines, kinds), n);
    OutputHead(lines, kinds);
    OutputTail(lines, kinds);
    StripBetween(r, Offset(lines, kinds, 0), Offset(lines, kinds, n - 1) + |lines[n - 1]|);
  }

  /** Lines whose first starts and whose last ends with a non-space character convert to exactly their span. */
  lemma LinesSpan(ls: seq<string>)
    requires Unpadded(ls)
    ensures var r := Output(ls); var a := SpanStart(ls, KindsOf(ls)); var b := SpanEnd(ls, KindsOf(ls));
      a < b <= |r| && Strip(r) == r[a..b]
  {
    KindsOfEnds(ls);
    OutputSpan(ls, KindsOf(ls));
  }

  /** A line that starts or ends with a non-space character is not classified as blank. */
  lemma KindsOfEnds(ls: seq<string>)
    requires Unpadded(ls)
    ensures KindsOf(ls)[0] != BlankLine && KindsOf(ls)[|ls| - 1] != BlankLine
  {
    BlankKind(ls[0]);
    BlankKind(ls[|ls| - 1]);
  }

  /** A blank input converts to the empty string. */
  lemma BlankMarkdown(text: string)
    requires Strip(text) == []
    ensures MarkdownOf(text) == []
  {
    assert Find("", "\n").None?;
    assert LinesOf(text) == [""];
    StripBlank("");
    assert KindsOf([""]) == [BlankLine];
    var ps := Pieces([""], [BlankLine]);
    PieceAt([""], [BlankLine], 1, 0);
    ConcatStep(ps, 0);
    var r := Output([""]);
    assert r == "\n";
    assert IsBlank(r);
    StripBlank(r);
  }

  /**
   * The converter's result is exactly the accumulated output from where the first
   * line starts to where the last line ends: stripping removes only the spacing
   * around the first and last pieces, never part of a line.
   */
  lemma MarkdownSpan(text: string)
    requires Strip(text) != []
    ensures var ls := LinesOf(text); var r := Output(ls);
      var a := SpanStart(ls, KindsOf(ls)); var b := SpanEnd(ls, KindsOf(ls));
      a < b <= |r| && MarkdownOf(text) == r[a..b]
    ensures var m := MarkdownOf(text); m != [] && !IsSpace(m[0]) && !IsSpace(m[|m| - 1])
  {
    LinesOfEnds(text);
    LinesSpan(LinesOf(text));
    StripTrimmed(Output(LinesOf(text)));
  }

  /** Line `k` is kept by the converter: it is not blank, or it lies inside a code block. */
  predicate KeptLine(kinds: seq<Kind>, k: nat) {
    k < |kinds| && (kinds[k] != BlankLine || InCode(kinds, k))
  }

  /** Line `k` appears unchanged in `m`, at its offset counted from where the first line starts. */
  ghost predicate KeptAt(m: string, lines: seq<string>, kinds: seq<Kind>, k: nat)
    requires |kinds| == |lines| && k < |lines|
  {
    SpanStart(lines, kinds) <= Offset(lines, kinds, k) &&
    OccursAt(m, Offset(lines, kinds, k) - SpanStart(lines, kinds), lines[k])
  }

  /** A piece found inside the span `r[a..b]` is found in that span, shifted by `a`. */
  lemma SliceWithin(r: string, m: string, a: nat, b: nat, c: nat, piece: string)
    requires a <= c && c + |piece| <= b <= |r| && OccursAt(r, c, piece) && m == r[a..b]
    ensures OccursAt(m, c - a, piece)
  {
    forall i | 0 <= i < |piece|
      ensures m[c - a..c - a + |piece|][i] == piece[i]
    {
      assert piece[i] == r[c..c + |piece|][i] == r[c + i];
    }
  }

  /** A kept line lies within the span from the first line's start to the last line's end. */
  lemma KeptWithinSpan(lines: seq<string>, kinds: seq<Kind>, k: nat)
    requires |kinds| == |lines| && k < |lines|
    requires kinds[0] != BlankLine
    requires kinds[k] != BlankLine || InCode(kinds, k)
    ensures SpanStart(lines, kinds) <= Offset(lines, kinds, k)
    ensures Offset(lines, kinds, k) + |lines[k]| <= SpanEnd(lines, kinds)
  {
    var n := |lines|;
    if 0 < k {
      LinesInOrder(lines, kinds, 0, k);
    }
    if k < n - 1 {
      LinesInOrder(lines, kinds, k, n - 1);
    }
  }

  /** The output's span from the first line's start to the last line's end keeps every kept line at its place. */
  lemma SpanKeepsLine(lines: seq<string>, kinds: seq<Kind>, k: nat, m: string)
    requires |kinds| == |lines| && k < |lines|
    requires kinds[0] != BlankLine
    requires kinds[k] != BlankLine || InCode(kinds, k)
    requires SpanStart(lines, kinds) <= SpanEnd(lines, kinds) <= |Concat(Pieces(lines, kinds), |lines|)|
    requires m == Concat(Pieces(lines, kinds), |lines|)[SpanStart(lines, kinds)..SpanEnd(lines, kinds)]
    ensures KeptAt(m, lines, kinds, k)
  {
    var r := Concat(Pieces(lines, kinds), |lines|);
    LineKept(lines, kinds, k);
    KeptWithinSpan(lines, kinds, k);
    SliceWithin(r, m, SpanStart(lines, kinds), SpanEnd(lines, kinds), Offset(lines, kinds, k), lines[k]);
  }

  /** Stripping the output of unpadded lines keeps every kept line at its place. */
  lemma OutputKeepsLine(ls: seq<string>, k: nat)
    requires Unpadded(ls) && KeptLine(KindsOf(ls), k)
    ensures KeptAt(Strip(Output(ls)), ls, KindsOf(ls), k)
  {
    LinesSpan(ls);
    KindsOfEnds(ls);
    SpanKeepsLine(ls, KindsOf(ls), k, Strip(Output(ls)));
  }

  /**
   * The converter's result keeps every kept line (not blank, or inside a code block)
   * unchanged, at that line's offset counted from where the first line starts.
   */
  lemma MarkdownKeepsLine(text: string, k: nat)
    requires Strip(text) != [] && KeptLine(KindsOf(LinesOf(text)), k)
    ensures KeptAt(MarkdownOf(text), LinesOf(text), KindsOf(LinesOf(text)), k)
  {
    LinesOfEnds(text);
    OutputKeepsLine(LinesOf(text), k);
  }
}

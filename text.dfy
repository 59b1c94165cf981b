/**
 * The handful of Python `str` operations the resume pipeline relies on, with the
 * exact semantics CPython gives them: `isspace`, `strip`, `startswith`, `endswith`,
 * `split` on a non-empty separator, `join`, `replace` of every occurrence, and
 * `str(int)`.  `lower` is modelled on ASCII letters only.
 */
module Text {
  import opened Wrappers

  /** Python's `str.isspace()` for one character. */
  predicate IsSpace(c: char) {
    || c == ' '
    || ('\t' <= c <= '\r')
    || ('\U{1c}' <= c <= '\U{1f}')
    || c == '\U{85}' || c == '\U{a0}' || c == '\U{1680}'
    || ('\U{2000}' <= c <= '\U{200a}')
    || c == '\U{2028}' || c == '\U{2029}' || c == '\U{202f}' || c == '\U{205f}' || c == '\U{3000}'
  }

  /** A string made of whitespace only (the empty string included): Python's `not s.strip()`. */
  predicate IsBlank(s: string) {
    forall i :: 0 <= i < |s| ==> IsSpace(s[i])
  }

  /** The index of the first non-space character of `s` at or after `i`, or `|s|` when there is none. */
  function SkipSpaces(s: string, i: nat): (r: nat)
    requires i <= |s|
    ensures i <= r <= |s|
    ensures r < |s| ==> !IsSpace(s[r])
    decreases |s| - i
  {
    if i < |s| && IsSpace(s[i]) then SkipSpaces(s, i + 1) else i
  }

  /** The length of `s[..n]` once its trailing whitespace is dropped. */
  function TrimEnd(s: string, n: nat): (r: nat)
    requires n <= |s|
    ensures r <= n
    ensures 0 < r ==> !IsSpace(s[r - 1])
    decreases n
  {
    if 0 < n && IsSpace(s[n - 1]) then TrimEnd(s, n - 1) else n
  }

  /** Python's `s.strip()`: what lies between the first and the last non-space character. */
  function Strip(s: string): string {
    var a := SkipSpaces(s, 0);
    if a == |s| then [] else TrimEndTrimmed(s, |s|); s[a..TrimEnd(s, |s|)]
  }

  predicate StartsWith(s: string, prefix: string) {
    |prefix| <= |s| && s[..|prefix|] == prefix
  }

  predicate EndsWith(s: string, suffix: string) {
    |suffix| <= |s| && s[|s| - |suffix|..] == suffix
  }

  /** `pat` occurs in `s` starting at index `i`. */
  predicate OccursAt(s: string, i: int, pat: string) {
    0 <= i && i + |pat| <= |s| && s[i..i + |pat|] == pat
  }

  predicate Contains(s: string, pat: string) {
    exists i :: 0 <= i <= |s| && OccursAt(s, i, pat)
  }

  /** Occurrences in `s[1..]` are the occurrences in `s` moved one place to the left. */
  lemma OccursShift(s: string, j: int, pat: string)
    requires |s| > 0 && 0 <= j
    ensures OccursAt(s, j + 1, pat) <==> OccursAt(s[1..], j, pat)
  {
    if j + 1 + |pat| <= |s| {
      assert s[j + 1..j + 1 + |pat|] == s[1..][j..j + |pat|];
    }
  }

  /** The index of the leftmost occurrence of `pat` in `s` (Python's `s.find(pat)`). */
  function Find(s: string, pat: string): (r: Option<nat>)
    requires pat != ""
    ensures r.Some? ==> OccursAt(s, r.value, pat)
    decreases |s|
  {
    if |s| < |pat| then None
    else if s[..|pat|] == pat then Some(0)
    else
      var r := Find(s[1..], pat);
      if r.None? then None else Some(r.value + 1)
  }

  /** `Find` answers the leftmost occurrence, and `None` exactly when there is none. */
  lemma {:induction false} FindLeftmost(s: string, pat: string)
    requires pat != ""
    ensures var r := Find(s, pat);
      && (r.Some? ==> OccursAt(s, r.value, pat))
      && (r.Some? ==> forall j :: 0 <= j < r.value ==> !OccursAt(s, j, pat))
      && (r.None? ==> forall j :: !OccursAt(s, j, pat))
    decreases |s|
  {
    if |s| >= |pat| && s[..|pat|] != pat {
      FindLeftmost(s[1..], pat);
      forall j | 1 <= j ensures OccursAt(s, j, pat) <==> OccursAt(s[1..], j - 1, pat) {
        OccursShift(s, j - 1, pat);
      }
      assert !OccursAt(s, 0, pat);
    }
  }

  /** Python's `s.split(sep)` for a non-empty separator. */
  function Split(s: string, sep: string): (r: seq<string>)
    requires sep != ""
    ensures |r| >= 1
    decreases |s|
  {
    match Find(s, sep)
    case None => [s]
    case Some(i) => [s[..i]] + Split(s[i + |sep|..], sep)
  }

  /** Python's `[f(x) for x in xs]`. */
  function Map<T, U>(f: T -> U, xs: seq<T>): (ys: seq<U>)
    ensures |ys| == |xs|
  {
    seq(|xs|, i requires 0 <= i < |xs| => f(xs[i]))
  }

  /** Python's `sep.join(parts)`. */
  function Join(parts: seq<string>, sep: string): string {
    if |parts| == 0 then ""
    else if |parts| == 1 then parts[0]
    else parts[0] + sep + Join(parts[1..], sep)
  }

  /** The first `k` strings of `ps`, concatenated in order: what appending each to an accumulator builds. */
  function Concat(ps: seq<string>, k: nat): string
    requires k <= |ps|
  {
    if k == 0 then "" else Concat(ps, k - 1) + ps[k - 1]
  }

  /** Python's `s.replace(pat, with)`: every occurrence, scanned left to right without overlap. */
  function Replace(s: string, pat: string, with: string): string
    requires pat != ""
    decreases |s|
  {
    if StartsWith(s, pat) then with + Replace(s[|pat|..], pat, with)
    else if s == [] then []
    else [s[0]] + Replace(s[1..], pat, with)
  }

  function LowerChar(c: char): char {
    if 'A' <= c <= 'Z' then (c as int + 32) as char else c
  }

  /** Python's `s.lower()` restricted to the ASCII letters. */
  function Lower(s: string): string {
    seq(|s|, i requires 0 <= i < |s| => LowerChar(s[i]))
  }

  function Digit(d: nat): char
    requires d < 10
  {
    (d + 48) as char
  }

  /** Python's `str(n)` for a non-negative integer: its decimal digits, no leading zeros. */
  function NatToString(n: nat): (r: string)
    ensures |r| >= 1
  {
    if n < 10 then [Digit(n)] else NatToString(n / 10) + [Digit(n % 10)]
  }

  /** The decimal form of a number is made of digits only. */
  lemma {:induction false} NatToStringDigits(n: nat)
    ensures forall i :: 0 <= i < |NatToString(n)| ==> '0' <= NatToString(n)[i] <= '9'
  {
    if n >= 10 {
      NatToStringDigits(n / 10);
    }
  }

  // ---------------------------------------------------------------------------
  // Properties of the string operations
  // ---------------------------------------------------------------------------

  /** Everything `SkipSpaces` skips is whitespace. */
  lemma {:induction false} SkipSpacesSkipped(s: string, i: nat)
    requires i <= |s|
    ensures forall j {:trigger IsSpace(s[j])} :: i <= j < SkipSpaces(s, i) ==> IsSpace(s[j])
    decreases |s| - i
  {
    if i < |s| && IsSpace(s[i]) {
      SkipSpacesSkipped(s, i + 1);
    }
  }

  /** Everything `TrimEnd` cuts off is whitespace. */
  lemma {:induction false} TrimEndTrimmed(s: string, n: nat)
    requires n <= |s|
    ensures forall j {:trigger IsSpace(s[j])} :: TrimEnd(s, n) <= j < n ==> IsSpace(s[j])
    decreases n
  {
    if 0 < n && IsSpace(s[n - 1]) {
      TrimEndTrimmed(s, n - 1);
    }
  }

  /** `TrimEnd` stops exactly after the last non-space character before `n`. */
  lemma {:induction false} TrimEndAt(s: string, n: nat, m: nat)
    requires m <= n <= |s|
    requires forall j :: m <= j < n ==> IsSpace(s[j])
    requires 0 < m ==> !IsSpace(s[m - 1])
    ensures TrimEnd(s, n) == m
    decreases n
  {
    if m < n {
      TrimEndAt(s, n - 1, m);
    }
  }

  /** A slice inside the prefix of a string is the same slice of the whole string. */
  lemma SliceOfPrefix(x: string, r: string, i: nat, j: nat)
    requires x <= r && i <= j <= |x|
    ensures r[i..j] == x[i..j]
  {
    assert x == r[..|x|];
  }

  /** A slice of a piece found inside `c` is the matching slice of `c`. */
  lemma SliceOfSlice(c: string, o: nat, p: string, i: nat, j: nat)
    requires o + |p| <= |c| && c[o..o + |p|] == p && i <= j <= |p|
    ensures c[o + i..o + j] == p[i..j]
  {
    forall t | 0 <= t < j - i
      ensures c[o + i..o + j][t] == p[i..j][t]
    {
      assert c[o..o + |p|][i + t] == p[i + t];
    }
  }

  /** Appending is associative. */
  lemma AppendAssoc(a: string, b: string, c: string)
    ensures a + (b + c) == (a + b) + c
  {
  }

  /** Seven successive appends to `b` append their concatenation. */
  lemma AppendSeven(b: string, w1: string, w2: string, w3: string, w4: string, w5: string, w6: string, w7: string)
    ensures b + w1 + w2 + w3 + w4 + w5 + w6 + w7 == b + (w1 + w2 + w3 + w4 + w5 + w6 + w7)
  {
    AppendAssoc(b, w1, w2);
    AppendAssoc(b, w1 + w2, w3);
    AppendAssoc(b, w1 + w2 + w3, w4);
    AppendAssoc(b, w1 + w2 + w3 + w4, w5);
    AppendAssoc(b, w1 + w2 + w3 + w4 + w5, w6);
    AppendAssoc(b, w1 + w2 + w3 + w4 + w5 + w6, w7);
  }

  /** A piece found in `c` is found, shifted, in `h + c`. */
  lemma SliceShift(h: string, c: string, o: nat, p: string)
    requires o + |p| <= |c| && c[o..o + |p|] == p
    ensures |h| + o + |p| <= |h + c| && (h + c)[|h| + o..|h| + o + |p|] == p
  {
    assert (h + c)[|h|..] == c;
  }

  /** The same, after a fixed prefix `h`. */
  lemma ConcatAtAfter(h: string, ps: seq<string>, k: nat)
    requires k < |ps|
    ensures var c := h + Concat(ps, |ps|); var o := |h| + |Concat(ps, k)|;
      o + |ps[k]| <= |c| && c[o..o + |ps[k]|] == ps[k]
  {
    ConcatAt(ps, k);
    SliceShift(h, Concat(ps, |ps|), |Concat(ps, k)|, ps[k]);
  }

  /** A string is a prefix of itself followed by anything. */
  lemma PrefixAppend(a: string, b: string)
    ensures a <= a + b
  {
  }

  /** Being a prefix is transitive. */
  lemma PrefixTrans(a: string, b: string, c: string)
    requires a <= b && b <= c
    ensures a <= c
  {
  }

  /** Concatenating one more string appends it. */
  lemma ConcatStep(ps: seq<string>, k: nat)
    requires k < |ps|
    ensures Concat(ps, k + 1) == Concat(ps, k) + ps[k]
  {
  }

  /** Concatenating more strings only extends the result. */
  lemma {:induction false} ConcatGrows(ps: seq<string>, j: nat, k: nat)
    requires j <= k <= |ps|
    ensures Concat(ps, j) <= Concat(ps, k)
  {
    if j < k {
      ConcatGrows(ps, j, k - 1);
      PrefixAppend(Concat(ps, k - 1), ps[k - 1]);
      PrefixTrans(Concat(ps, j), Concat(ps, k - 1), Concat(ps, k));
    }
  }

  /** String `k` sits unchanged in the whole concatenation, right after the first `k` strings. */
  lemma ConcatAt(ps: seq<string>, k: nat)
    requires k < |ps|
    ensures var c := Concat(ps, |ps|); var o := |Concat(ps, k)|;
      o + |ps[k]| <= |c| && c[o..o + |ps[k]|] == ps[k]
  {
    var next := k + 1;
    ConcatStep(ps, k);
    ConcatGrows(ps, next, |ps|);
    var o := |Concat(ps, k)|;
    assert Concat(ps, next)[o..o + |ps[k]|] == ps[k];
    SliceOfPrefix(Concat(ps, next), Concat(ps, |ps|), o, o + |ps[k]|);
  }

  /** Text found inside string `k` is found in the whole concatenation, shifted by what precedes string `k`. */
  lemma ConcatKeeps(ps: seq<string>, k: nat, l: nat, line: string)
    requires k < |ps| && l + |line| < |ps[k]| && ps[k][l..l + |line|] == line
    ensures var c := Concat(ps, |ps|); var o := |Concat(ps, k)| + l;
      o + |line| < |c| && c[o..o + |line|] == line
  {
    var c := Concat(ps, |ps|);
    var o := |Concat(ps, k)|;
    ConcatAt(ps, k);
    SliceOfSlice(c, o, ps[k], l, l + |line|);
  }

  /** The first string starts the whole concatenation. */
  lemma ConcatFirst(ps: seq<string>)
    requires 0 < |ps|
    ensures ps[0] <= Concat(ps, |ps|)
  {
    ConcatStep(ps, 0);
    ConcatGrows(ps, 1, |ps|);
  }

  /** The last string ends the whole concatenation. */
  lemma ConcatLast(ps: seq<string>)
    requires 0 < |ps|
    ensures Concat(ps, |ps|) == Concat(ps, |ps| - 1) + ps[|ps| - 1]
  {
  }

  /** String `j` ends before string `k > j` starts. */
  lemma {:induction false} ConcatLonger(ps: seq<string>, j: nat, k: nat)
    requires j < k <= |ps|
    ensures |Concat(ps, j)| + |ps[j]| <= |Concat(ps, k)|
    decreases k
  {
    if k == j + 1 {
      ConcatStep(ps, j);
    } else {
      ConcatLonger(ps, j, k - 1);
    }
  }

  /** `SkipSpaces` stops exactly at the first non-space character at or after `i`. */
  lemma {:induction false} SkipSpacesAt(s: string, i: nat, k: nat)
    requires i <= k <= |s|
    requires forall j :: i <= j < k ==> IsSpace(s[j])
    requires k < |s| ==> !IsSpace(s[k])
    ensures SkipSpaces(s, i) == k
    decreases k - i
  {
    if i < k {
      SkipSpacesAt(s, i + 1, k);
    }
  }

  /** Strip of a string whose first and last non-space characters are at `a` and `b - 1`. */
  lemma StripBetween(s: string, a: nat, b: nat)
    requires a < b <= |s| && SkipSpaces(s, 0) == a && TrimEnd(s, |s|) == b
    ensures Strip(s) == s[a..b]
  {
  }

  /** A line placed after only spacing inside a prefix `p` of `r` is where the spacing of `r` ends. */
  lemma SpacingBefore(p: string, r: string, o: nat, line: string)
    requires p <= r && o + |line| <= |p| && p[o..o + |line|] == line && IsBlank(p[..o])
    requires line != [] && !IsSpace(line[0])
    ensures o < |r| && SkipSpaces(r, 0) == o
  {
    forall j | 0 <= j < o ensures IsSpace(r[j]) {
      assert r[j] == p[..o][j];
    }
    assert r[o] == p[o..o + |line|][0];
    SkipSpacesAt(r, 0, o);
  }

  /** A line followed by only spacing at the end of `p` is where the spacing at the end of `x + p` starts. */
  lemma SpacingAfter(x: string, p: string, o: nat, line: string)
    requires o + |line| <= |p| && p[o..o + |line|] == line && IsBlank(p[o + |line|..])
    requires line != [] && !IsSpace(line[|line| - 1])
    ensures var b := |x| + o + |line|; 0 < b <= |x + p| && TrimEnd(x + p, |x + p|) == b
  {
    var s := x + p;
    var b := |x| + o + |line|;
    forall j | b <= j < |s| ensures IsSpace(s[j]) {
      assert s[j] == p[o + |line|..][j - b];
    }
    assert s[b - 1] == p[o..o + |line|][|line| - 1];
    TrimEndAt(s, |s|, b);
  }

  /** A line followed by only spacing at the end of the last string is where the spacing at the end of their concatenation starts. */
  lemma SpacingAfterLast(ps: seq<string>, o: nat, line: string)
    requires 0 < |ps|
    requires var p := ps[|ps| - 1]; o + |line| <= |p| && p[o..o + |line|] == line && IsBlank(p[o + |line|..])
    requires line != [] && !IsSpace(line[|line| - 1])
    ensures var r := Concat(ps, |ps|); var b := |Concat(ps, |ps| - 1)| + o + |line|;
      0 < b <= |r| && TrimEnd(r, |r|) == b
  {
    ConcatLast(ps);
    SpacingAfter(Concat(ps, |ps| - 1), ps[|ps| - 1], o, line);
  }

  /** Strip leaves neither leading nor trailing whitespace. */
  lemma StripTrimmed(s: string)
    ensures var r := Strip(s); r == [] || (!IsSpace(r[0]) && !IsSpace(r[|r| - 1]))
  {
    TrimEndTrimmed(s, |s|);
  }

  /** `strip` gives the empty string exactly on blank strings. */
  lemma StripBlank(s: string)
    ensures Strip(s) == [] <==> IsBlank(s)
  {
    var m := SkipSpaces(s, 0);
    TrimEndTrimmed(s, |s|);
    if Strip(s) == [] {
      assert m == |s|;
      SkipSpacesSkipped(s, 0);
    } else {
      assert !IsSpace(s[m]);
    }
  }

  /** Mapping over two lists one after the other maps each in turn. */
  lemma MapAppend<T, U>(f: T -> U, a: seq<T>, b: seq<T>)
    ensures Map(f, a + b) == Map(f, a) + Map(f, b)
  {
  }

  /** Joining a leading piece onto a non-empty list puts one separator between them. */
  lemma JoinCons(x: string, parts: seq<string>, sep: string)
    requires |parts| >= 1
    ensures Join([x] + parts, sep) == x + sep + Join(parts, sep)
  {
    assert ([x] + parts)[1..] == parts;
  }

  /** A join begins with its first piece and ends with its last. */
  lemma {:induction false} JoinEnds(parts: seq<string>, sep: string)
    requires |parts| >= 1
    ensures var s := Join(parts, sep); |parts[0]| <= |s| && s[..|parts[0]|] == parts[0]
    ensures var s := Join(parts, sep); |parts[|parts| - 1]| <= |s| && s[|s| - |parts[|parts| - 1]|..] == parts[|parts| - 1]
    decreases |parts|
  {
    if |parts| > 1 {
      JoinEnds(parts[1..], sep);
      var s := Join(parts, sep);
      var t := Join(parts[1..], sep);
      assert s == parts[0] + sep + t;
      assert s[..|parts[0]|] == parts[0];
      assert s[|s| - |parts[|parts| - 1]|..] == t[|t| - |parts[|parts| - 1]|..];
    }
  }

  /** `join` undoes `split`: `sep.join(s.split(sep)) == s`. */
  lemma {:induction false} JoinSplit(s: string, sep: string)
    requires sep != ""
    ensures Join(Split(s, sep), sep) == s
    decreases |s|
  {
    match Find(s, sep)
    case None =>
      assert Split(s, sep) == [s];
    case Some(i) =>
      var rest := s[i + |sep|..];
      var parts := Split(rest, sep);
      JoinSplit(rest, sep);
      assert Split(s, sep) == [s[..i]] + parts;
      JoinCons(s[..i], parts, sep);
      assert s[i..i + |sep|] == sep;
      assert s[..i] + sep + rest == s by {
        assert s == s[..i] + s[i..i + |sep|] + s[i + |sep|..];
      }
  }

  /** The first occurrence of `c` in `a + [c] + b` is its first occurrence in `a`, or else the one added. */
  lemma FindCharConcat(a: string, c: char, b: string)
    ensures Find(a + [c] + b, [c]) == Some(if Find(a, [c]).None? then |a| else Find(a, [c]).value)
  {
    var s := a + [c] + b;
    var f := Find(a, [c]);
    var k := if f.None? then |a| else f.value;
    FindLeftmost(s, [c]);
    FindLeftmost(a, [c]);
    assert OccursAt(s, k, [c]) by {
      if f.Some? { assert a[k..k + 1] == s[k..k + 1]; }
      else { assert s[|a|..|a| + 1] == [c]; }
    }
    forall j | 0 <= j < k ensures !OccursAt(s, j, [c]) {
      assert a[j..j + 1] == s[j..j + 1];
      assert !OccursAt(a, j, [c]);
    }
  }

  /** One step of `Split`: the piece before the first separator, then the split of what follows it. */
  lemma SplitAt(s: string, sep: string, k: nat)
    requires sep != "" && Find(s, sep) == Some(k)
    ensures k + |sep| <= |s| && Split(s, sep) == [s[..k]] + Split(s[k + |sep|..], sep)
  {
    assert OccursAt(s, k, sep);
    var rest := s[k + |sep|..];
    assert Split(s, sep) == [s[..k]] + Split(rest, sep);
  }

  /** Splitting on a one-character separator distributes over a concatenation around that character. */
  lemma {:induction false} SplitCharConcat(a: string, c: char, b: string)
    ensures Split(a + [c] + b, [c]) == Split(a, [c]) + Split(b, [c])
    decreases |a|
  {
    var s := a + [c] + b;
    var f := Find(a, [c]);
    FindCharConcat(a, c, b);
    if f.None? {
      SplitAt(s, [c], |a|);
      assert s[..|a|] == a && s[|a| + 1..] == b;
      assert Split(a, [c]) == [a];
    } else {
      var k := f.value;
      var a' := a[k + 1..];
      SplitAt(s, [c], k);
      SplitAt(a, [c], k);
      assert s[..k] == a[..k];
      assert s[k + 1..] == a' + [c] + b;
      SplitCharConcat(a', c, b);
      SeqAssoc([a[..k]], Split(a', [c]), Split(b, [c]));
    }
  }

  /** A string without the separator character splits into itself alone. */
  lemma SplitWithout(s: string, c: char)
    requires c !in s
    ensures Split(s, [c]) == [s]
  {
    FindLeftmost(s, [c]);
    forall j | 0 <= j < |s| ensures !OccursAt(s, j, [c]) {
      assert s[j..j + 1] == [s[j]];
    }
  }

  /** No piece of a split on one character contains that character. */
  lemma {:induction false} SplitPiecesWithout(s: string, c: char)
    ensures forall k :: 0 <= k < |Split(s, [c])| ==> c !in Split(s, [c])[k]
    decreases |s|
  {
    FindLeftmost(s, [c]);
    match Find(s, [c])
    case None =>
      forall j | 0 <= j < |s| ensures s[j] != c {
        assert !OccursAt(s, j, [c]);
        assert s[j..j + 1] == [s[j]];
      }
    case Some(i) =>
      SplitPiecesWithout(s[i + 1..], c);
      forall j | 0 <= j < i ensures s[j] != c {
        assert !OccursAt(s, j, [c]);
        assert s[j..j + 1] == [s[j]];
      }
      assert forall j :: 0 <= j < i ==> s[..i][j] == s[j];
  }

  /** The first piece of a split is the whole string, or what precedes the first separator. */
  lemma SplitFirstPiece(s: string, sep: string)
    requires sep != ""
    ensures var ls := Split(s, sep); ls[0] == s || StartsWith(s, ls[0] + sep)
  {
    match Find(s, sep)
    case None =>
    case Some(i) =>
      assert s[i..i + |sep|] == sep;
      assert s[..i + |sep|] == s[..i] + sep;
  }

  /** The last piece of a split is the whole string, or what follows the last separator. */
  lemma SplitLastPiece(s: string, sep: string)
    requires sep != ""
    ensures var ls := Split(s, sep); ls[|ls| - 1] == s || EndsWith(s, sep + ls[|ls| - 1])
  {
    JoinSplit(s, sep);
    JoinLastPiece(Split(s, sep), sep);
  }

  /** A join is its last piece alone, or ends with a separator followed by that piece. */
  lemma {:induction false} JoinLastPiece(parts: seq<string>, sep: string)
    requires |parts| >= 1
    ensures var last := parts[|parts| - 1]; last == Join(parts, sep) || EndsWith(Join(parts, sep), sep + last)
    decreases |parts|
  {
    if |parts| > 1 {
      var tail := parts[1..];
      var t := Join(tail, sep);
      var last := tail[|tail| - 1];
      JoinLastPiece(tail, sep);
      assert Join(parts, sep) == parts[0] + (sep + t);
      EndsWithConcat(parts[0], sep + t);
      if last != t {
        EndsWithConcat(parts[0] + sep, t);
        EndsWithTrans(sep + last, t, Join(parts, sep));
      }
    }
  }

  /** A string ends with what is appended to it. */
  lemma EndsWithConcat(a: string, b: string)
    ensures EndsWith(a + b, b)
  {
    assert (a + b)[|a|..] == b;
  }

  /** A suffix of a suffix is a suffix. */
  lemma EndsWithTrans(a: string, b: string, c: string)
    requires EndsWith(b, a) && EndsWith(c, b)
    ensures EndsWith(c, a)
  {
    assert c[|c| - |a|..] == c[|c| - |b|..][|b| - |a|..];
  }

  /** When the last piece ends with `t`, so does everything written before and with it. */
  lemma ConcatEndsWith(h: string, ps: seq<string>, t: string)
    requires |ps| > 0 && EndsWith(ps[|ps| - 1], t)
    ensures EndsWith(h + Concat(ps, |ps|), t)
  {
    var last := ps[|ps| - 1];
    var head := h + Concat(ps, |ps| - 1);
    ConcatLast(ps);
    AppendAssoc(h, Concat(ps, |ps| - 1), last);
    EndsWithConcat(head, last);
    EndsWithTrans(t, last, h + Concat(ps, |ps|));
  }

  /** Joining two non-empty lists puts one separator between their joins. */
  lemma {:induction false} JoinAppend(a: seq<string>, b: seq<string>, sep: string)
    requires |a| >= 1 && |b| >= 1
    ensures Join(a + b, sep) == Join(a, sep) + sep + Join(b, sep)
    decreases |a|
  {
    if |a| == 1 {
      JoinCons(a[0], b, sep);
      assert a + b == [a[0]] + b;
    } else {
      JoinAppend(a[1..], b, sep);
      assert (a + b)[1..] == a[1..] + b;
      assert Join(a + b, sep) == a[0] + sep + Join(a[1..] + b, sep);
    }
  }

  /** `split` undoes `join` on one character when no piece contains it. */
  lemma {:induction false} SplitJoin(ps: seq<string>, c: char)
    requires |ps| >= 1
    requires forall k :: 0 <= k < |ps| ==> c !in ps[k]
    ensures Split(Join(ps, [c]), [c]) == ps
    decreases |ps|
  {
    SplitWithout(ps[0], c);
    if |ps| > 1 {
      SplitJoin(ps[1..], c);
      JoinCons(ps[0], ps[1..], [c]);
      assert [ps[0]] + ps[1..] == ps;
      SplitCharConcat(ps[0], c, Join(ps[1..], [c]));
    }
  }

  /** A separator whose first occurrence follows `x` splits off `x` as the first piece. */
  lemma SplitFirst(x: string, sep: string, y: string)
    requires sep != ""
    requires forall j :: 0 <= j < |x| ==> !OccursAt(x + sep + y, j, sep)
    ensures Split(x + sep + y, sep) == [x] + Split(y, sep)
  {
    var s := x + sep + y;
    FindLeftmost(s, sep);
    assert s[|x|..|x| + |sep|] == sep;
    assert OccursAt(s, |x|, sep);
    assert Find(s, sep) == Some(|x|);
    assert s[..|x|] == x;
    assert s[|x| + |sep|..] == y;
  }

  /** Replacing a pattern that does not occur changes nothing. */
  lemma {:induction false} ReplaceAbsent(s: string, pat: string, with: string)
    requires pat != ""
    requires !Contains(s, pat)
    ensures Replace(s, pat, with) == s
    decreases |s|
  {
    if s != [] {
      assert !OccursAt(s, 0, pat);
      assert !StartsWith(s, pat);
      forall j | 0 <= j ensures !OccursAt(s[1..], j, pat) {
        if OccursAt(s[1..], j, pat) { assert s[j + 1..j + 1 + |pat|] == s[1..][j..j + |pat|]; assert OccursAt(s, j + 1, pat); }
      }
      ReplaceAbsent(s[1..], pat, with);
    }
  }

  /** A string without upper-case ASCII letters is its own lower-case form. */
  lemma LowerUnchanged(s: string)
    requires forall i :: 0 <= i < |s| ==> !('A' <= s[i] <= 'Z')
    ensures Lower(s) == s
  {
    assert forall i :: 0 <= i < |s| ==> Lower(s)[i] == s[i];
  }

  /** The lower-cased string has no upper-case ASCII letter, and lower-casing twice is lower-casing once. */
  lemma {:induction false} LowerIdempotent(s: string)
    ensures Lower(Lower(s)) == Lower(s)
    ensures forall i :: 0 <= i < |s| ==> !('A' <= Lower(s)[i] <= 'Z')
  {
    var l := Lower(s);
    forall i | 0 <= i < |s| ensures Lower(l)[i] == l[i] && !('A' <= l[i] <= 'Z') {
      assert l[i] == LowerChar(s[i]);
    }
  }

  // ---------------------------------------------------------------------------
  // Lines and separators, for reading written text back
  // ---------------------------------------------------------------------------

  /** The lines `ls`, each followed by a newline: what writing them one per line produces. */
  function Lines(ls: seq<string>): string {
    if ls == [] then "" else ls[0] + "\n" + Lines(ls[1..])
  }

  /** Writing two runs of lines writes the first run, then the second. */
  lemma {:induction false} LinesAppend(a: seq<string>, b: seq<string>)
    ensures Lines(a + b) == Lines(a) + Lines(b)
    decreases |a|
  {
    if a == [] {
      assert a + b == b;
    } else {
      assert (a + b)[1..] == a[1..] + b;
      LinesAppend(a[1..], b);
      AppendAssoc(a[0] + "\n", Lines(a[1..]), Lines(b));
    }
  }

  /** Splitting written lines on newlines gives the lines back, followed by the pieces of what comes after. */
  lemma {:induction false} SplitLines(ls: seq<string>, tail: string)
    requires forall k :: 0 <= k < |ls| ==> '\n' !in ls[k]
    ensures Split(Lines(ls) + tail, "\n") == ls + Split(tail, "\n")
    decreases |ls|
  {
    if ls == [] {
      assert Lines(ls) + tail == tail;
    } else {
      var x, others := ls[0], ls[1..];
      var rest := Lines(others) + tail;
      SplitLines(others, tail);
      LinesCons(ls, tail);
      SplitLine(x, rest);
      SeqAssoc([x], others, Split(tail, "\n"));
      assert [x] + others == ls;
    }
  }

  /** Written lines followed by more text: the first line, a newline, then the rest. */
  lemma LinesCons(ls: seq<string>, tail: string)
    requires ls != []
    ensures Lines(ls) + tail == ls[0] + "\n" + (Lines(ls[1..]) + tail)
  {
    AppendAssoc(ls[0] + "\n", Lines(ls[1..]), tail);
  }

  /** A line without newlines, then a newline, is split off as the first piece. */
  lemma SplitLine(x: string, rest: string)
    requires '\n' !in x
    ensures Split(x + "\n" + rest, "\n") == [x] + Split(rest, "\n")
  {
    SplitCharConcat(x, '\n', rest);
    SplitWithout(x, '\n');
  }

  /** Written lines followed by a last line without a newline split into those lines and the last one. */
  lemma SplitLinesLast(ls: seq<string>, last: string)
    requires forall k :: 0 <= k < |ls| ==> '\n' !in ls[k]
    requires '\n' !in last
    ensures Split(Lines(ls) + last, "\n") == ls + [last]
  {
    SplitLines(ls, last);
    SplitWithout(last, '\n');
  }

  /** Stripping text that starts and ends with a non-space character, followed by whitespace, leaves the text. */
  lemma StripPadded(core: string, tail: string)
    requires core != [] && !IsSpace(core[0]) && !IsSpace(core[|core| - 1])
    requires IsBlank(tail)
    ensures Strip(core + tail) == core
  {
    var s := core + tail;
    SkipSpacesAt(s, 0, 0);
    forall j | |core| <= j < |s| ensures IsSpace(s[j]) {
      assert s[j] == tail[j - |core|];
    }
    TrimEndAt(s, |s|, |core|);
    StripBetween(s, 0, |core|);
    assert s[0..|core|] == core;
  }

  /** Removing a prefix that occurs nowhere else leaves what followed it. */
  lemma ReplaceLeading(p: string, v: string)
    requires p != "" && !Contains(v, p)
    ensures Replace(p + v, p, "") == v
  {
    var s := p + v;
    assert StartsWith(s, p);
    assert s[|p|..] == v;
    ReplaceAbsent(v, p, "");
  }

  /** A pattern cannot start inside a string that lacks its first character. */
  lemma FreeConcat(a: string, b: string, pat: string)
    requires pat != "" && pat[0] !in a && !Contains(b, pat)
    ensures !Contains(a + b, pat)
  {
    var s := a + b;
    forall j | 0 <= j <= |s| ensures !OccursAt(s, j, pat) {
      if j + |pat| <= |s| {
        if j < |a| {
          assert s[j..j + |pat|][0] == a[j];
        } else {
          assert s[j..j + |pat|] == b[j - |a|..j - |a| + |pat|];
          assert !OccursAt(b, j - |a|, pat);
        }
      }
    }
  }

  /** A string without the separator is its own single piece. */
  lemma SplitAbsent(s: string, sep: string)
    requires sep != "" && !Contains(s, sep)
    ensures Split(s, sep) == [s]
  {
    assert forall i :: !OccursAt(s, i, sep);
  }

  lemma SeqAssoc<T>(a: seq<T>, b: seq<T>, c: seq<T>)
    ensures a + (b + c) == (a + b) + c
  {
  }

  /** Mapping over a non-empty sequence: its first element, then the others. */
  lemma MapCons<T, U>(f: T -> U, xs: seq<T>)
    requires xs != []
    ensures Map(f, xs) == [f(xs[0])] + Map(f, xs[1..])
  {
  }

  /** Concatenating from the front: the first string, then the others. */
  lemma {:induction false} ConcatCons(ps: seq<string>, k: nat)
    requires 0 < k <= |ps|
    ensures Concat(ps, k) == ps[0] + Concat(ps[1..], k - 1)
    decreases k
  {
    if k > 1 {
      var m := k - 1;
      var j := m - 1;
      ConcatCons(ps, m);
      assert Concat(ps[1..], m) == Concat(ps[1..], j) + ps[1..][j];
      AppendAssoc(ps[0], Concat(ps[1..], j), ps[k - 1]);
    }
  }
}

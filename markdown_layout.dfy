/** The text layout `_format_section` of lib/fmt/markdown.py relies on: paragraphs as
    `re.split('\n\n+', text)` cuts them and lines as `str.splitlines` cuts them. */
module MarkdownLayout {
  import opened Strings

  // ===========================================================================
  // Paragraphs: re.split('\n\n+', text) (lines 22-23)

  /** The first "\n\n" at or after `i`. */
  function FindBlankRun(s: string, i: nat): (r: Option<nat>)
    ensures r.Some? ==> i <= r.value && r.value + 1 < |s| && s[r.value] == '\n' && s[r.value + 1] == '\n'
    ensures forall k :: i <= k && k + 1 < |s| && s[k] == '\n' && s[k + 1] == '\n' ==> r.Some? && r.value <= k
    decreases |s| - i
  {
    if i + 1 >= |s| then None
    else if s[i] == '\n' && s[i + 1] == '\n' then Some(i)
    else FindBlankRun(s, i + 1)
  }

  /** The end of the run of newlines starting at `k` (the greedy `+`). */
  function RunEnd(s: string, k: nat): (r: nat)
    requires k <= |s|
    ensures k <= r <= |s| && (r == |s| || s[r] != '\n')
    ensures forall j :: k <= j < r ==> s[j] == '\n'
    decreases |s| - k
  {
    if k == |s| || s[k] != '\n' then k else RunEnd(s, k + 1)
  }

  /** At least one paragraph, and more than one exactly when the text holds a blank line. */
  function SplitParagraphs(s: string): (r: seq<string>)
    ensures |r| >= 1
    ensures |r| == 1 <==> !HasBlankLine(s)
    decreases |s|
  {
    match FindBlankRun(s, 0)
    case None => [s]
    case Some(i) =>
      assert s[i] == '\n' && s[i + 1] == '\n';
      [s[..i]] + SplitParagraphs(s[RunEnd(s, i)..])
  }

  /** The lengths of the separator runs `re.split` drops, in order. */
  function ParagraphGaps(s: string): seq<nat>
    decreases |s|
  {
    match FindBlankRun(s, 0)
    case None => []
    case Some(i) => [RunEnd(s, i) - i] + ParagraphGaps(s[RunEnd(s, i)..])
  }

  function Newlines(n: nat): (r: string)
    ensures |r| == n && forall k :: 0 <= k < n ==> r[k] == '\n'
  {
    if n == 0 then "" else "\n" + Newlines(n - 1)
  }

  /** Paragraphs put back together with their separators. */
  function Weave(ps: seq<string>, gaps: seq<nat>): string
    requires |ps| == |gaps| + 1
  {
    if gaps == [] then ps[0] else ps[0] + Newlines(gaps[0]) + Weave(ps[1..], gaps[1..])
  }

  predicate HasBlankLine(p: string)
  {
    exists k :: 0 <= k < |p| - 1 && p[k] == '\n' && p[k + 1] == '\n'
  }

  /** The first cut `re.split` makes: the text before the first blank-line run holds no
      blank line and does not end in "\n", the run is maximal and at least two long. */
  lemma FirstRun(s: string, i: nat)
    requires FindBlankRun(s, 0) == Some(i)
    ensures var j := RunEnd(s, i);
      i + 2 <= j && !HasBlankLine(s[..i]) && (i == 0 || s[i - 1] != '\n') && (j == |s| || s[j] != '\n')
  {
    assert forall k :: 0 <= k < i ==> s[..i][k] == s[k];
    assert forall k :: 0 <= k < i ==> !(s[k] == '\n' && s[k + 1] == '\n');
    assert i > 0 ==> s[i - 1] != '\n';
  }

  /** The text is the part before the first run, the run, and the part after it. */
  lemma FirstRunCut(s: string, i: nat)
    requires FindBlankRun(s, 0) == Some(i)
    ensures s == s[..i] + Newlines(RunEnd(s, i) - i) + s[RunEnd(s, i)..]
  {
    RunCut(s, i, RunEnd(s, i));
  }

  /** A text around a run of newlines. */
  lemma RunCut(s: string, i: nat, j: nat)
    requires i <= j <= |s| && forall k :: i <= k < j ==> s[k] == '\n'
    ensures s == s[..i] + Newlines(j - i) + s[j..]
  {
    var run := s[i..j];
    assert forall k :: 0 <= k < j - i ==> run[k] == s[i + k];
    assert Newlines(j - i) == run;
    SplitThree(s, i, j);
  }

  /** The first paragraph of a text is a prefix of it. */
  lemma FirstParagraphPrefix(s: string)
    ensures |SplitParagraphs(s)| >= 1 && StartsWith(s, SplitParagraphs(s)[0])
  {
  }

  lemma {:induction false} ParagraphsWeave(s: string)
    ensures |SplitParagraphs(s)| == |ParagraphGaps(s)| + 1
    ensures Weave(SplitParagraphs(s), ParagraphGaps(s)) == s
    decreases |s|
  {
    match FindBlankRun(s, 0)
    case None =>
      assert SplitParagraphs(s) == [s] && ParagraphGaps(s) == [];
    case Some(i) =>
      var j := RunEnd(s, i);
      FirstRunCut(s, i);
      ParagraphsWeave(s[j..]);
      FirstCut(s, i);
      FirstGap(s, i);
      WeaveCons(s[..i], j - i, SplitParagraphs(s[j..]), ParagraphGaps(s[j..]));
  }

  lemma WeaveCons(p: string, g: nat, ps: seq<string>, gs: seq<nat>)
    requires |ps| == |gs| + 1
    ensures Weave([p] + ps, [g] + gs) == p + Newlines(g) + Weave(ps, gs)
  {
    assert ([p] + ps)[1..] == ps && ([g] + gs)[1..] == gs;
  }

  /** The first paragraph, then the split of the text after the first run. */
  lemma FirstCut(s: string, i: nat)
    requires FindBlankRun(s, 0) == Some(i)
    ensures SplitParagraphs(s) == [s[..i]] + SplitParagraphs(s[RunEnd(s, i)..])
  {
  }

  /** The first gap, then the gaps of the text after the first run. */
  lemma FirstGap(s: string, i: nat)
    requires FindBlankRun(s, 0) == Some(i)
    ensures ParagraphGaps(s) == [RunEnd(s, i) - i] + ParagraphGaps(s[RunEnd(s, i)..])
  {
  }

  lemma {:induction false} ParagraphGapsLong(s: string)
    ensures forall k :: 0 <= k < |ParagraphGaps(s)| ==> ParagraphGaps(s)[k] >= 2
    decreases |s|
  {
    match FindBlankRun(s, 0)
    case None =>
      assert ParagraphGaps(s) == [];
    case Some(i) =>
      var j := RunEnd(s, i);
      FirstRun(s, i);
      ParagraphGapsLong(s[j..]);
      FirstGap(s, i);
  }

  lemma {:induction false} ParagraphsUnbroken(s: string)
    ensures forall k :: 0 <= k < |SplitParagraphs(s)| ==> !HasBlankLine(SplitParagraphs(s)[k])
    decreases |s|
  {
    match FindBlankRun(s, 0)
    case None =>
      assert forall k :: 0 <= k < |s| - 1 ==> !(s[k] == '\n' && s[k + 1] == '\n');
      assert SplitParagraphs(s) == [s];
    case Some(i) =>
      var j := RunEnd(s, i);
      FirstRun(s, i);
      ParagraphsUnbroken(s[j..]);
      FirstCut(s, i);
  }

  /** No paragraph after the first starts with "\n": each run ends at the first character
      that is not a newline. */
  lemma {:induction false} ParagraphsStartTrimmed(s: string)
    ensures var ps := SplitParagraphs(s);
      forall k :: 0 < k < |ps| && ps[k] != [] ==> ps[k][0] != '\n'
    decreases |s|
  {
    match FindBlankRun(s, 0)
    case None =>
      assert SplitParagraphs(s) == [s];
    case Some(i) =>
      var j := RunEnd(s, i);
      var rest := s[j..];
      FirstRun(s, i);
      ParagraphsStartTrimmed(rest);
      FirstParagraphPrefix(rest);
      var ps' := SplitParagraphs(rest);
      assert SplitParagraphs(s) == [s[..i]] + ps';
      assert ps'[0] != [] ==> ps'[0][0] == rest[..|ps'[0]|][0] == s[j];
  }

  /** No paragraph but the last ends in "\n". */
  predicate EndTrimmed(ps: seq<string>)
  {
    forall k :: 0 <= k < |ps| - 1 && ps[k] != [] ==> ps[k][|ps[k]| - 1] != '\n'
  }

  /** No paragraph before the last ends with "\n". */
  lemma {:induction false} ParagraphsEndTrimmed(s: string)
    ensures EndTrimmed(SplitParagraphs(s))
    decreases |s|
  {
    match FindBlankRun(s, 0)
    case None =>
      assert SplitParagraphs(s) == [s];
    case Some(i) =>
      var j := RunEnd(s, i);
      FirstRun(s, i);
      ParagraphsEndTrimmed(s[j..]);
      FirstCut(s, i);
      assert i > 0 ==> s[..i][i - 1] == s[i - 1];
      EndTrimmedCons(s[..i], SplitParagraphs(s[j..]));
  }

  lemma EndTrimmedCons(p: string, ps: seq<string>)
    requires p == [] || p[|p| - 1] != '\n'
    requires EndTrimmed(ps)
    ensures EndTrimmed([p] + ps)
  {
    var qs := [p] + ps;
    forall k | 0 <= k < |qs| - 1 && qs[k] != [] ensures qs[k][|qs[k]| - 1] != '\n'
    {
      if k > 0 {
        assert qs[k] == ps[k - 1];
      }
    }
  }

  /** Only the first and the last paragraph can be empty: two runs are never adjacent. */
  lemma {:induction false} ParagraphsInnerNonEmpty(s: string)
    ensures forall k :: 0 < k < |SplitParagraphs(s)| - 1 ==> |SplitParagraphs(s)[k]| > 0
    decreases |s|
  {
    match FindBlankRun(s, 0)
    case None =>
      assert SplitParagraphs(s) == [s];
    case Some(i) =>
      var j := RunEnd(s, i);
      var rest := s[j..];
      FirstRun(s, i);
      ParagraphsInnerNonEmpty(rest);
      var ps' := SplitParagraphs(rest);
      var ps := SplitParagraphs(s);
      assert ps == [s[..i]] + ps';
      if rest != [] {
        assert rest[0] == s[j];
        FirstParagraphNonEmpty(rest);
      }
      assert forall k :: 0 < k < |ps| ==> ps[k] == ps'[k - 1];
  }

  /** A text that does not start with a newline does not start with an empty paragraph. */
  lemma FirstParagraphNonEmpty(t: string)
    requires t != [] && t[0] != '\n'
    ensures |SplitParagraphs(t)[0]| > 0
  {
    match FindBlankRun(t, 0)
    case None =>
      assert SplitParagraphs(t) == [t];
    case Some(i) =>
      assert i > 0;
      assert SplitParagraphs(t)[0] == t[..i];
  }

  /** `ps` and `gs` cut `s` into paragraphs and the blank-line runs between them. */
  predicate Partitioned(s: string, ps: seq<string>, gs: seq<nat>)
  {
    |ps| >= 1 && |ps| == |gs| + 1 && Weave(ps, gs) == s
    && (forall k :: 0 <= k < |gs| ==> gs[k] >= 2)
    && (forall k :: 0 <= k < |ps| ==> !HasBlankLine(ps[k]))
    && (forall k :: 0 < k < |ps| && ps[k] != [] ==> ps[k][0] != '\n')
    && (forall k :: 0 <= k < |ps| - 1 && ps[k] != [] ==> ps[k][|ps[k]| - 1] != '\n')
    && (forall k :: 0 < k < |ps| - 1 ==> |ps[k]| > 0)
  }

  /** `_split_into_paragraphs` partitions the text: at least one paragraph, in order,
      separated by maximal runs of two or more newlines, none containing "\n\n". */
  lemma ParagraphsPartition(s: string)
    ensures Partitioned(s, SplitParagraphs(s), ParagraphGaps(s))
  {
    ParagraphsWeave(s);
    ParagraphGapsLong(s);
    ParagraphsUnbroken(s);
    ParagraphsStartTrimmed(s);
    ParagraphsEndTrimmed(s);
    ParagraphsInnerNonEmpty(s);
  }

  /** A text holding no blank line has no run to split at. */
  lemma NoBlankNoRun(s: string)
    requires !HasBlankLine(s)
    ensures FindBlankRun(s, 0).None?
  {
  }

  /** Woven text starts with its first paragraph. */
  lemma WeaveHead(ps: seq<string>, gs: seq<nat>)
    requires |ps| == |gs| + 1
    ensures StartsWith(Weave(ps, gs), ps[0])
  {
    if gs != [] {
      var x := Newlines(gs[0]) + Weave(ps[1..], gs[1..]);
      assert Weave(ps, gs) == ps[0] + x;
      assert (ps[0] + x)[..|ps[0]|] == ps[0];
    }
  }

  /** Dropping the first paragraph and run of a partition leaves a partition of the rest. */
  lemma PartitionedTail(s: string, ps: seq<string>, gs: seq<nat>)
    requires Partitioned(s, ps, gs) && |gs| > 0
    ensures Partitioned(Weave(ps[1..], gs[1..]), ps[1..], gs[1..])
  {
    var ps', gs' := ps[1..], gs[1..];
    assert forall k :: 0 <= k < |ps'| ==> ps'[k] == ps[k + 1];
    assert forall k :: 0 <= k < |gs'| ==> gs'[k] == gs[k + 1];
  }

  /** The first paragraph and run of a partition meet the conditions of `SplitAtRun`. */
  lemma PartitionedHead(s: string, ps: seq<string>, gs: seq<nat>, rest: string)
    requires Partitioned(s, ps, gs) && |gs| > 0 && rest == Weave(ps[1..], gs[1..])
    ensures s == ps[0] + Newlines(gs[0]) + rest
    ensures gs[0] >= 2 && !HasBlankLine(ps[0])
    ensures ps[0] == [] || ps[0][|ps[0]| - 1] != '\n'
    ensures rest == [] || rest[0] != '\n'
  {
    assert |ps| > 1;
    WeaveHead(ps[1..], gs[1..]);
    if ps[1] != [] {
      assert rest[0] == rest[..|ps[1]|][0] == ps[1][0];
    } else {
      assert |ps| == 2;
    }
  }

  /** The partition is unique: any cut into paragraphs and blank-line runs with the
      properties above is the one `re.split` makes. */
  lemma {:induction false} PartitionUnique(s: string, ps: seq<string>, gs: seq<nat>)
    requires Partitioned(s, ps, gs)
    ensures ps == SplitParagraphs(s) && gs == ParagraphGaps(s)
    decreases |ps|
  {
    if gs == [] {
      NoBlankNoRun(s);
    } else {
      var rest := Weave(ps[1..], gs[1..]);
      PartitionedHead(s, ps, gs, rest);
      SplitAtRun(ps[0], gs[0], rest);
      PartitionedTail(s, ps, gs);
      PartitionUnique(rest, ps[1..], gs[1..]);
      assert ps == [ps[0]] + ps[1..];
      assert gs == [gs[0]] + gs[1..];
    }
  }

  /** Two paragraphs joined by a blank-line run are split apart again, in order. */
  lemma SplitAtRun(first: string, n: nat, rest: string)
    requires n >= 2 && !HasBlankLine(first)
    requires first == [] || first[|first| - 1] != '\n'
    requires rest == [] || rest[0] != '\n'
    ensures SplitParagraphs(first + Newlines(n) + rest) == [first] + SplitParagraphs(rest)
    ensures ParagraphGaps(first + Newlines(n) + rest) == [n] + ParagraphGaps(rest)
  {
    var s := first + Newlines(n) + rest;
    RunAt(first, n, rest);
    assert SplitParagraphs(s) == [s[..|first|]] + SplitParagraphs(s[RunEnd(s, |first|)..]);
  }

  /** Where the search finds the run in first + Newlines(n) + rest, and where it ends. */
  lemma RunAt(first: string, n: nat, rest: string)
    requires n >= 2 && !HasBlankLine(first)
    requires first == [] || first[|first| - 1] != '\n'
    requires rest == [] || rest[0] != '\n'
    ensures var s, i := first + Newlines(n) + rest, |first|;
      FindBlankRun(s, 0) == Some(i) && RunEnd(s, i) == i + n && s[..i] == first && s[i + n..] == rest
  {
    var s := first + Newlines(n) + rest;
    var i := |first|;
    assert s[i] == '\n' && s[i + 1] == '\n';
    assert forall k :: 0 <= k < i ==> s[k] == first[k];
    assert forall k :: i <= k < i + n ==> s[k] == Newlines(n)[k - i];
    assert i + n < |s| ==> s[i + n] == rest[0];
    assert FindBlankRun(s, 0) == Some(i);
    var j := RunEnd(s, i);
    assert j == i + n;
    assert s[..i] == first && s[j..] == rest;
  }

  // ===========================================================================
  // Lines: str.splitlines() (line 81)

  /** The line boundaries `str.splitlines` recognises. */
  predicate IsLineBreak(c: char)
  {
    c == '\n' || c == '\r' || c == '\U{0B}' || c == '\U{0C}' || c == '\U{1C}' || c == '\U{1D}'
    || c == '\U{1E}' || c == '\U{85}' || c == '\U{2028}' || c == '\U{2029}'
  }

  /** The first line boundary at or after `i`, or |s|. */
  function LineEnd(s: string, i: nat): (r: nat)
    requires i <= |s|
    ensures i <= r <= |s| && (r < |s| ==> IsLineBreak(s[r]))
    ensures forall k :: i <= k < r ==> !IsLineBreak(s[k])
    decreases |s| - i
  {
    if i == |s| || IsLineBreak(s[i]) then i else LineEnd(s, i + 1)
  }

  /** Length of the boundary at `k`: "\r\n" counts as one boundary. */
  function BreakLength(s: string, k: nat): nat
    requires k < |s|
  {
    if s[k] == '\r' && k + 1 < |s| && s[k + 1] == '\n' then 2 else 1
  }

  /** No lines for the empty text, and never more lines than characters. */
  function SplitLines(s: string): (r: seq<string>)
    ensures r == [] <==> s == []
    ensures |r| <= |s|
    decreases |s|
  {
    if s == [] then []
    else
      var k := LineEnd(s, 0);
      if k == |s| then [s] else [s[..k]] + SplitLines(s[k + BreakLength(s, k)..])
  }

  /** The boundary that ended each line ("" for a last line without one). */
  function LineTerminators(s: string): seq<string>
    decreases |s|
  {
    if s == [] then []
    else
      var k := LineEnd(s, 0);
      if k == |s| then [""] else [s[k..k + BreakLength(s, k)]] + LineTerminators(s[k + BreakLength(s, k)..])
  }

  predicate IsTerminator(t: string)
  {
    t == "\r\n" || (|t| == 1 && IsLineBreak(t[0]))
  }

  /** Lines put back together with their boundaries. */
  function Rejoin(lines: seq<string>, ends: seq<string>): string
    requires |lines| == |ends|
  {
    if lines == [] then "" else lines[0] + ends[0] + Rejoin(lines[1..], ends[1..])
  }

  /** The boundary that ends the first line is one of those `splitlines` recognises, and
      it is "\r\n" exactly when a "\r" is followed by "\n". */
  lemma FirstBreak(s: string, k: nat)
    requires k < |s| && IsLineBreak(s[k])
    ensures k + BreakLength(s, k) <= |s| && IsTerminator(s[k..k + BreakLength(s, k)])
    ensures s[k..k + BreakLength(s, k)] == "\r\n" <==> s[k] == '\r' && k + 1 < |s| && s[k + 1] == '\n'
  {
    if BreakLength(s, k) == 2 {
      assert s[k..k + 2] == [s[k], s[k + 1]] == "\r\n";
    } else {
      assert |s[k..k + 1]| == 1 && s[k..k + 1][0] == s[k];
    }
  }

  /** No character before the first boundary is a boundary. */
  lemma BeforeLineEnd(s: string, k: nat)
    requires k <= |s| && forall j :: 0 <= j < k ==> !IsLineBreak(s[j])
    ensures forall c :: c in s[..k] ==> !IsLineBreak(c)
  {
    forall c | c in s[..k] ensures !IsLineBreak(c)
    {
      var j :| 0 <= j < k && s[..k][j] == c;
    }
  }

  /** The first cut `splitlines` makes: a line without boundary characters, then one
      boundary. */
  lemma FirstLine(s: string)
    requires s != [] && LineEnd(s, 0) < |s|
    ensures var k := LineEnd(s, 0); var n := BreakLength(s, k);
      k + n <= |s| && s == s[..k] + s[k..k + n] + s[k + n..] && IsTerminator(s[k..k + n])
      && forall c :: c in s[..k] ==> !IsLineBreak(c)
  {
    var k := LineEnd(s, 0);
    FirstBreak(s, k);
    SplitThree(s, k, k + BreakLength(s, k));
    BeforeLineEnd(s, k);
  }

  lemma {:induction false} LinesRejoin(s: string)
    ensures |SplitLines(s)| == |LineTerminators(s)|
    ensures Rejoin(SplitLines(s), LineTerminators(s)) == s
    decreases |s|
  {
    if s != [] && LineEnd(s, 0) < |s| {
      var k := LineEnd(s, 0);
      FirstLine(s);
      LinesRejoin(s[k + BreakLength(s, k)..]);
    }
  }

  lemma {:induction false} LinesUnbroken(s: string)
    ensures forall k, c :: 0 <= k < |SplitLines(s)| && c in SplitLines(s)[k] ==> !IsLineBreak(c)
    decreases |s|
  {
    if s != [] {
      var k := LineEnd(s, 0);
      if k == |s| {
        forall c | c in s ensures !IsLineBreak(c)
        {
          var j :| 0 <= j < |s| && s[j] == c;
        }
      } else {
        var rest := s[k + BreakLength(s, k)..];
        FirstLine(s);
        LinesUnbroken(rest);
        assert SplitLines(s) == [s[..k]] + SplitLines(rest);
      }
    }
  }

  lemma {:induction false} LinesTerminated(s: string)
    ensures forall k :: 0 <= k < |LineTerminators(s)| - 1 ==> IsTerminator(LineTerminators(s)[k])
    decreases |s|
  {
    if s != [] && LineEnd(s, 0) < |s| {
      var k := LineEnd(s, 0);
      var rest := s[k + BreakLength(s, k)..];
      FirstLine(s);
      LinesTerminated(rest);
      assert LineTerminators(s) == [s[k..k + BreakLength(s, k)]] + LineTerminators(rest);
    }
  }

  /** The last line ends with a boundary, or is a non-empty line without one. */
  lemma {:induction false} LastLineTerminated(s: string)
    ensures var ls, es := SplitLines(s), LineTerminators(s);
      |es| > 0 ==> IsTerminator(es[|es| - 1]) || (es[|es| - 1] == "" && ls[|ls| - 1] != "")
    decreases |s|
  {
    if s != [] && LineEnd(s, 0) < |s| {
      var k := LineEnd(s, 0);
      var rest := s[k + BreakLength(s, k)..];
      FirstLine(s);
      LinesRejoin(rest);
      LastLineTerminated(rest);
      var ls, es := SplitLines(s), LineTerminators(s);
      assert ls == [s[..k]] + SplitLines(rest);
      assert es == [s[k..k + BreakLength(s, k)]] + LineTerminators(rest);
    }
  }

  /** A text that does not start with "\n" has a first line that is non-empty or not
      ended by "\n". */
  lemma FirstLineNotLf(s: string)
    requires s != [] && s[0] != '\n'
    ensures |SplitLines(s)| > 0 && |LineTerminators(s)| > 0
    ensures SplitLines(s)[0] != "" || LineTerminators(s)[0] != "\n"
  {
    var k := LineEnd(s, 0);
    if k == 0 {
      assert LineTerminators(s)[0][0] == s[0];
    } else if k < |s| {
      assert SplitLines(s)[0] == s[..k];
    }
  }

  /** "\r\n" is one boundary: a "\r" boundary is never directly followed by a "\n" one. */
  lemma {:induction false} LinesCrLf(s: string)
    ensures var ls, es := SplitLines(s), LineTerminators(s);
      |ls| == |es| && forall k :: 0 <= k < |es| - 1 && es[k] == "\r" && ls[k + 1] == "" ==> es[k + 1] != "\n"
    decreases |s|
  {
    LinesRejoin(s);
    if s != [] && LineEnd(s, 0) < |s| {
      var k := LineEnd(s, 0);
      var n := BreakLength(s, k);
      var rest := s[k + n..];
      FirstBreak(s, k);
      LinesCrLf(rest);
      var ls', es' := SplitLines(rest), LineTerminators(rest);
      var ls, es := [s[..k]] + ls', [s[k..k + n]] + es';
      assert SplitLines(s) == ls && LineTerminators(s) == es;
      if es[0] == "\r" && rest != [] {
        assert n == 1 && rest[0] == s[k + 1];
        FirstLineNotLf(rest);
      }
      assert forall j :: 0 < j < |es| ==> es[j] == es'[j - 1] && ls[j] == ls'[j - 1];
    }
  }

  /** `splitlines` partitions the text into lines without boundary characters, each ended
      by one boundary ("\r\n" counting as one) except possibly a non-empty last line; no
      trailing empty line. */
  lemma LinesPartition(s: string)
    ensures var ls, es := SplitLines(s), LineTerminators(s);
      |ls| == |es| && Rejoin(ls, es) == s
      && (forall k, c :: 0 <= k < |ls| && c in ls[k] ==> !IsLineBreak(c))
      && (forall k :: 0 <= k < |es| - 1 ==> IsTerminator(es[k]))
      && (|es| > 0 ==> IsTerminator(es[|es| - 1]) || (es[|es| - 1] == "" && ls[|ls| - 1] != ""))
      && (forall k :: 0 <= k < |es| - 1 && es[k] == "\r" && ls[k + 1] == "" ==> es[k + 1] != "\n")
  {
    LinesRejoin(s);
    LinesUnbroken(s);
    LinesTerminated(s);
    LastLineTerminated(s);
    LinesCrLf(s);
  }
}

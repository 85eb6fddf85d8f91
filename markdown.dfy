/** The markdown-to-terminal renderer of lib/fmt/markdown.py.

    `FormatSection` runs the two `while True` loops of `_format_section` (fenced-block elision, then
    link rewriting) and assembles the result paragraph by paragraph, line by line. Each loop
    is proved against a specification function (`ElideBlocks`, `RewriteLinks`); the pure
    parts (`Colorize`, `SplitParagraphs`, `SplitLines`, `Assemble`) are functions. The
    line wrapper `ansiwrap.fill` is the parameter `wrap`. */
module Markdown {
  import opened Strings
  import opened MarkdownPatterns
  import opened MarkdownLayout

  const Esc: char := '\U{1B}'

  // SGR sequences (ECMA-48 section 8.3.117) as the colored package writes them for
  // colored.attr('bold'), colored.fg('white'), colored.bg('dark_gray'), colored.attr('reset').
  const Bold: string := "\U{1B}[1m"
  const FgWhite: string := "\U{1B}[38;5;15m"
  const BgDarkGray: string := "\U{1B}[48;5;8m"
  const Reset: string := "\U{1B}[0m"

  /** OSC 8 (ECMA-48 section 8.3.89 OSC, then "8;;") and ST (section 8.3.143). */
  const Osc8: string := "\U{1B}]8;;"
  const St: string := "\U{1B}\\"

  /** The terminal hyperlink that replaces `[display](url)`. A terminal reads `url` back as
      the link target and `display` as the visible text; the escape sequences add no other
      character, and none of them is a CSI. */
  function Hyperlink(url: string, display: string): (r: string)
    ensures Esc !in url && Esc !in display ==> ReadHyperlink(r) == Some((url, display))
    ensures forall c :: c !in Osc8 && c !in St ==> Count(r, c) == Count(url, c) + Count(display, c)
    ensures CsiFree(url) && CsiFree(display) ==> CsiFree(r)
  {
    HyperlinkCharCounts(url, display);
    HyperlinkCsiFree(url, display);
    HyperlinkRead(url, display);
    Osc8 + url + St + display + Osc8 + St
  }

  /** The first ESC at or after `i`, or the end of the text. */
  function FirstEsc(s: string, i: nat): (r: nat)
    requires i <= |s|
    ensures i <= r <= |s| && (r < |s| ==> s[r] == Esc)
    ensures forall k :: i <= k < r ==> s[k] != Esc
    decreases |s| - i
  {
    if i == |s| || s[i] == Esc then i else FirstEsc(s, i + 1)
  }

  /** How a terminal reads an OSC 8 hyperlink: after the opening OSC "8;;" comes the
      target up to the first ST, then the visible text up to the closing OSC "8;;" ST. */
  function ReadHyperlink(t: string): Option<(string, string)>
  {
    if |t| >= |Osc8| + |Osc8| + |St| && t[..|Osc8|] == Osc8 && t[|t| - |Osc8| - |St|..] == Osc8 + St then
      var mid := t[|Osc8|..|t| - |Osc8| - |St|];
      var i := FirstEsc(mid, 0);
      if i + |St| <= |mid| && mid[i..i + |St|] == St then Some((mid[..i], mid[i + |St|..])) else None
    else None
  }

  lemma HyperlinkRead(url: string, disp: string)
    ensures Esc !in url && Esc !in disp ==> ReadHyperlink(Osc8 + url + St + disp + Osc8 + St) == Some((url, disp))
  {
    if Esc in url || Esc in disp { return; }
    var t := Osc8 + url + St + disp + Osc8 + St;
    var mid := url + St + disp;
    assert t == Osc8 + mid + (Osc8 + St);
    assert t[..|Osc8|] == Osc8;
    assert t[|t| - |Osc8| - |St|..] == Osc8 + St;
    assert t[|Osc8|..|t| - |Osc8| - |St|] == mid;
    var i := FirstEsc(mid, 0);
    assert mid[|url|] == Esc;
    assert i == |url|;
    assert mid[i..i + |St|] == St;
    assert mid[..i] == url && mid[i + |St|..] == disp;
  }

  lemma HyperlinkCharCounts(url: string, disp: string)
    ensures forall c :: c !in Osc8 && c !in St ==>
      Count(Osc8 + url + St + disp + Osc8 + St, c) == Count(url, c) + Count(disp, c)
  {
    forall c | c !in Osc8 && c !in St
      ensures Count(Osc8 + url + St + disp + Osc8 + St, c) == Count(url, c) + Count(disp, c)
    {
      CountConcat(Osc8 + url + St + disp + Osc8, St, c);
      CountConcat(Osc8 + url + St + disp, Osc8, c);
      CountConcat(Osc8 + url + St, disp, c);
      CountConcat(Osc8 + url, St, c);
      CountConcat(Osc8, url, c);
      CountAbsent(Osc8, c);
      CountAbsent(St, c);
    }
  }

  lemma HyperlinkCsiFree(url: string, disp: string)
    ensures CsiFree(url) && CsiFree(disp) ==> CsiFree(Osc8 + url + St + disp + Osc8 + St)
  {
    if CsiFree(url) && CsiFree(disp) {
      assert Osc8[1] == ']' && St[1] == '\\' && Osc8[4] == ';';
      assert CsiFree(Osc8) && CsiFree(St);
      var a1 := Osc8 + url;
      CsiFreeConcat(Osc8, url);
      CsiFreeConcat(a1, St);
      var a2 := a1 + St;
      assert a2[|a2| - 1] == '\\';
      CsiFreeConcat(a2, disp);
      CsiFreeConcat(a2 + disp, Osc8);
      CsiFreeConcat(a2 + disp + Osc8, St);
    }
  }

  /** f'MULTILINE_BLOCK_{k}': the fixed prefix, then the block number in decimal. */
  function Placeholder(k: nat): (r: string)
    ensures |r| > 16 && r[..16] == "MULTILINE_BLOCK_"
    ensures AllDigits(r[16..]) && DecimalValue(r[16..]) == k
    ensures |r| > 17 ==> r[16] != '0'
  {
    var r := "MULTILINE_BLOCK_" + Decimal(k);
    assert r[16..] == Decimal(k);
    DecimalRoundTrip(k);
    r
  }

  lemma PlaceholderShape(k: nat)
    ensures |Placeholder(k)| > 16 && Placeholder(k)[0] == 'M'
    ensures IsDigit(Placeholder(k)[|Placeholder(k)| - 1])
    ensures forall c :: c in Placeholder(k) ==> c != '`' && c != '\n' && c != '[' && c != '('
  {
    var p := Placeholder(k);
    forall c | c in p ensures c != '`' && c != '\n' && c != '[' && c != '('
    {
      var i :| 0 <= i < |p| && p[i] == c;
      if i >= 16 {
        assert p[i] == Decimal(k)[i - 16];
      }
    }
    assert p[|p| - 1] == Decimal(k)[|Decimal(k)| - 1];
  }

  /** Placeholder tokens of different blocks differ. */
  lemma PlaceholderUnique(j: nat, k: nat)
    ensures Placeholder(j) == Placeholder(k) ==> j == k
  {
    if Placeholder(j) == Placeholder(k) {
      assert Decimal(j) == Placeholder(j)[16..];
      assert Decimal(k) == Placeholder(k)[16..];
      DecimalInjective(j, k);
    }
  }

  // ===========================================================================
  // Fenced-block elision (lines 43-55)

  /** One `re.subn('^```.*?^```', Placeholder(k), s, 1, flags=re.S | re.M)`: the new text
      and the number of replacements made. A text without a block is returned unchanged;
      otherwise the block found becomes the placeholder, the text around it is kept, and
      the replacement drops at least the six backticks of its two fences and adds none. */
  function BlockSubn(s: string, k: nat): (r: (string, nat))
    ensures r.1 <= 1 && (r.1 == 0 <==> FindBlock(s).None?)
    ensures r.1 == 0 ==> r.0 == s
    ensures r.1 == 1 ==> var b := FindBlock(s).value;
      StartsWith(r.0, s[..b.open] + Placeholder(k)) && EndsWith(r.0, s[b.close + 3..])
      && |r.0| == b.open + |Placeholder(k)| + (|s| - b.close - 3)
    ensures r.1 == 1 ==> Count(r.0, '`') + 6 <= Count(s, '`')
    ensures Count(r.0, '(') <= Count(s, '(')
    ensures CsiFree(s) ==> CsiFree(r.0)
  {
    match FindBlock(s)
    case None => (s, 0)
    case Some(b) =>
      BlockSplice(s, b, k);
      var pre, post := s[..b.open] + Placeholder(k), s[b.close + 3..];
      assert (pre + post)[..|pre|] == pre;
      assert (pre + post)[|pre + post| - |post|..] == post;
      (pre + post, 1)
  }

  /** Putting the placeholder in place of a block drops its fences' backticks, adds no
      "(" and keeps a CSI-free text CSI-free. */
  lemma BlockSplice(s: string, b: Span, k: nat)
    requires FindBlock(s) == Some(b)
    ensures var t := s[..b.open] + Placeholder(k) + s[b.close + 3..];
      Count(t, '`') + 6 <= Count(s, '`') && Count(t, '(') <= Count(s, '(')
      && (CsiFree(s) ==> CsiFree(t))
  {
    PlaceholderShape(k);
    SpliceCount(s, b.open, b.close, Placeholder(k));
    SpliceParens(s, b.open, b.close + 3, Placeholder(k));
    SpliceCsiFree(s, b, Placeholder(k));
  }

  /** Splicing a token without "(" into a text adds no "(". */
  lemma SpliceParens(s: string, p: nat, q: nat, tok: string)
    requires p <= q <= |s| && '(' !in tok
    ensures Count(s[..p] + tok + s[q..], '(') <= Count(s, '(')
  {
    CountSlices(s, p, q, '(');
    CountAbsent(tok, '(');
    CountConcat(s[..p], tok, '(');
    CountConcat(s[..p] + tok, s[q..], '(');
  }

  /** Splicing a token without "[" that does not end in ESC in place of a block keeps a
      text CSI-free. */
  lemma SpliceCsiFree(s: string, b: Span, tok: string)
    requires FindBlock(s) == Some(b) && tok != [] && '[' !in tok && tok[|tok| - 1] != Esc
    ensures CsiFree(s) ==> CsiFree(s[..b.open] + tok + s[b.close + 3..])
  {
    if CsiFree(s) {
      CsiFreeSlice(s, 0, b.open);
      CsiFreeSlice(s, b.close + 3, |s|);
      assert s[b.close + 3..|s|] == s[b.close + 3..];
      forall i | 0 <= i < |tok| ensures tok[i] != '['
      {
        assert tok[i] in tok;
      }
      CsiFreeConcat(s[..b.open], tok);
      CsiFreeConcat(s[..b.open] + tok, s[b.close + 3..]);
    }
  }

  /** A text that starts and ends with a fence holds at least six backticks. */
  lemma FencedCount(m: string)
    requires |m| >= 6 && m[..3] == "```" && m[|m| - 3..] == "```"
    ensures Count(m, '`') >= 6
  {
    CountSlices(m, 3, |m| - 3, '`');
    assert Count("```", '`') == 3;
  }

  /** Cutting s[p..q + 3], which starts and ends with "```", and splicing in a
      backtick-free token drops at least six backticks. */
  lemma SpliceCount(s: string, p: nat, q: nat, tok: string)
    requires Occurs(s, "```", p) && Occurs(s, "```", q) && p + 3 <= q && '`' !in tok
    ensures Count(s[..p] + tok + s[q + 3..], '`') + 6 <= Count(s, '`')
  {
    CountSlices(s, p, q + 3, '`');
    var m := s[p..q + 3];
    SliceOfSlice(s, p, q + 3, 0, 3);
    SliceOfSlice(s, p, q + 3, |m| - 3, |m|);
    assert m[..3] == m[0..3] && m[|m| - 3..] == m[|m| - 3..|m|];
    FencedCount(m);
    CountAbsent(tok, '`');
    CountConcat(s[..p], tok, '`');
    CountConcat(s[..p] + tok, s[q + 3..], '`');
  }

  /** What the block loop leaves, numbering from `k`: the final text and the number of
      blocks replaced. The loop stops only when no block is left; each replacement costs
      six backticks, which bounds the number of blocks; a text without a block is left as
      it is, and a CSI-free text stays CSI-free. */
  function ElideBlocks(s: string, k: nat): (r: (string, nat))
    ensures FindBlock(r.0).None?
    ensures 6 * r.1 <= Count(s, '`')
    ensures r.1 == 0 <==> FindBlock(s).None?
    ensures r.1 == 0 ==> r.0 == s
    ensures Count(r.0, '(') <= Count(s, '(')
    ensures CsiFree(s) ==> CsiFree(r.0)
    decreases Count(s, '`')
  {
    var r := BlockSubn(s, k);
    if r.1 == 0 then (r.0, 0)
    else
      var t := ElideBlocks(r.0, k + 1);
      (t.0, t.1 + 1)
  }

  /** The turn of the block loop that finds no block. */
  lemma ElideBlocksStop(s: string, k: nat)
    requires BlockSubn(s, k).1 == 0
    ensures ElideBlocks(s, k) == (s, 0)
  {
  }

  /** A turn of the block loop that replaces a block. */
  lemma ElideBlocksNext(s: string, k: nat)
    requires BlockSubn(s, k).1 != 0
    ensures ElideBlocks(s, k).0 == ElideBlocks(BlockSubn(s, k).0, k + 1).0
    ensures ElideBlocks(s, k).1 == ElideBlocks(BlockSubn(s, k).0, k + 1).1 + 1
  {
  }

  /** The block loop of `_format_section`. */
  method CutCodeBlocks(text: string) returns (s: string, blocks: nat)
    ensures (s, blocks) == ElideBlocks(text, 0)
  {
    s := text;
    var blockNumber: nat := 0;
    ghost var goal := ElideBlocks(text, 0);
    while true
      invariant ElideBlocks(s, blockNumber).0 == goal.0
      invariant blockNumber + ElideBlocks(s, blockNumber).1 == goal.1
      decreases Count(s, '`')
    {
      ghost var before := s;
      var step := BlockSubn(s, blockNumber);
      var replacements := step.1;
      s := step.0;
      blockNumber := blockNumber + 1;
      if replacements == 0 {
        ElideBlocksStop(before, blockNumber - 1);
        assert s == before;
        assert goal.0 == s && goal.1 == blockNumber - 1;
        break;
      }
      ElideBlocksNext(before, blockNumber - 1);
    }
    blocks := blockNumber - 1;
    assert goal == (s, blocks);
  }

  /** Splicing a backtick-free token that does not end in "\n" after a text with no
      complete line-start fence leaves no fence up to the end of the token. */
  lemma SpliceNoFence(a: string, tok: string, c: string)
    requires forall i :: 0 <= i && i + 3 <= |a| ==> !IsFence(a, i)
    requires |tok| > 0 && '`' !in tok && tok[|tok| - 1] != '\n'
    ensures forall i :: 0 <= i <= |a| + |tok| ==> !IsFence(a + tok + c, i)
  {
    var t := a + tok + c;
    forall i | 0 <= i <= |a| + |tok| ensures !IsFence(t, i)
    {
      if i + 3 <= |a| {
        assert t[i..i + 3] == a[i..i + 3];
        assert i > 0 ==> t[i - 1] == a[i - 1];
        assert !IsFence(a, i);
      } else if i < |a| + |tok| {
        if i + 3 <= |t| {
          var j := if i < |a| then |a| else i;
          assert t[i..i + 3][j - i] == t[j] == tok[j - |a|];
          assert tok[j - |a|] != '`';
        }
        assert !IsFence(t, i);
      } else {
        assert t[i - 1] == tok[|tok| - 1];
      }
    }
  }

  /** No line-start fence occurs before the first block's opening fence. */
  lemma NoFenceBefore(s: string, b: Span)
    requires FindBlock(s) == Some(b)
    ensures forall i :: 0 <= i && i + 3 <= b.open ==> !IsFence(s[..b.open], i)
  {
    var a := s[..b.open];
    forall i | 0 <= i && i + 3 <= |a| ensures !IsFence(a, i)
    {
      assert a[i..i + 3] == s[i..i + 3];
      assert IsFence(s, i) ==> IsBlock(s, i, b.close);
    }
  }

  /** After one replacement, no line-start fence starts in the kept prefix or in the
      placeholder, nor right after the placeholder (a digit precedes it). */
  lemma NoFenceThroughPlaceholder(s: string, k: nat)
    requires FindBlock(s).Some?
    ensures forall i :: 0 <= i <= FindBlock(s).value.open + |Placeholder(k)| ==>
      !IsFence(BlockSubn(s, k).0, i)
  {
    match FindBlock(s)
    case Some(b) =>
      NoFenceBefore(s, b);
      PlaceholderShape(k);
      SpliceNoFence(s[..b.open], Placeholder(k), s[b.close + 3..]);
  }

  /** The loop never looks back: every later replacement starts after the placeholder
      just inserted. */
  lemma NextBlockAfterPlaceholder(s: string, k: nat)
    requires FindBlock(s).Some? && FindBlock(BlockSubn(s, k).0).Some?
    ensures FindBlock(BlockSubn(s, k).0).value.open > FindBlock(s).value.open + |Placeholder(k)|
  {
    NoFenceThroughPlaceholder(s, k);
  }

  /** Text before the first line-start fence is never touched by the loop. */
  lemma {:induction false} ElideBlocksKeepsPrefix(s: string, k: nat, m: nat)
    requires m <= |s|
    requires forall i :: 0 <= i < m ==> !IsFence(s, i)
    ensures StartsWith(ElideBlocks(s, k).0, s[..m])
    decreases Count(s, '`')
  {
    var r := BlockSubn(s, k);
    if r.1 == 0 {
      ElideBlocksStop(s, k);
    } else {
      var t := r.0;
      assert m <= FindBlock(s).value.open;
      BlockSubnPrefix(s, k);
      assert t[..m] == s[..m];
      NoFenceThroughPlaceholder(s, k);
      ElideBlocksKeepsPrefix(t, k + 1, m);
      ElideBlocksNext(s, k);
    }
  }

  /** The k-th replacement puts MULTILINE_BLOCK_k right after the untouched text before its
      block, and that part of the result is final: placeholders appear in increasing order. */
  lemma PlaceholderInPlace(s: string, k: nat)
    requires FindBlock(s).Some?
    ensures StartsWith(ElideBlocks(s, k).0, s[..FindBlock(s).value.open] + Placeholder(k))
  {
    var t := BlockSubn(s, k).0;
    var m := FindBlock(s).value.open + |Placeholder(k)|;
    BlockSubnPrefix(s, k);
    NoFenceThroughPlaceholder(s, k);
    ElideBlocksKeepsPrefix(t, k + 1, m);
    ElideBlocksNext(s, k);
  }

  /** The replacement keeps the text before the block and puts the placeholder after it. */
  lemma BlockSubnPrefix(s: string, k: nat)
    requires FindBlock(s).Some?
    ensures var m := FindBlock(s).value.open + |Placeholder(k)|;
      m <= |BlockSubn(s, k).0|
      && BlockSubn(s, k).0[..m] == s[..FindBlock(s).value.open] + Placeholder(k)
  {
    var b := FindBlock(s).value;
    var a, tok, c := s[..b.open], Placeholder(k), s[b.close + 3..];
    assert BlockSubn(s, k).0 == a + tok + c;
    assert (a + tok + c)[..|a| + |tok|] == a + tok;
  }

  /** Without a line-start fence pair the loop changes nothing (a lone fence included). */
  lemma ElideBlocksUntouched(s: string, k: nat)
    requires forall p, q :: !IsBlock(s, p, q)
    ensures ElideBlocks(s, k) == (s, 0)
  {
  }

  /** The only line-start fences of "```" + content + "\n```" + after are the two shown. */
  lemma OnlyTwoFences(content: string, after: string)
    requires '`' !in content && '`' !in after
    ensures var s := "```" + content + "\n```" + after;
      IsFence(s, 0) && IsFence(s, 4 + |content|)
      && forall i :: IsFence(s, i) ==> i == 0 || i == 4 + |content|
  {
    var s := "```" + content + "\n```" + after;
    var q := 4 + |content|;
    assert s[..3] == "```" && s[q..q + 3] == "```" && s[q - 1] == '\n';
    assert forall j :: 3 <= j < q ==> s[j] != '`' by {
      assert forall j :: 3 <= j < q - 1 ==> s[j] == content[j - 3];
    }
    assert forall j :: q + 3 <= j < |s| ==> s[j] != '`' by {
      assert forall j :: q + 3 <= j < |s| ==> s[j] == after[j - q - 3];
    }
    forall i | 0 < i && i != q ensures !IsFence(s, i)
    {
      if i + 3 <= |s| {
        var j := if i <= 2 then 3 else if i < q then i else if i <= q + 2 then q + 3 else i;
        assert s[i..i + 3][j - i] == s[j];
      }
    }
  }

  /** A single fenced block followed by text: the block, its info string and content go,
      MULTILINE_BLOCK_0 stands in their place and the text after the closing fence stays. */
  lemma SingleBlock(content: string, after: string)
    requires '`' !in content && '`' !in after
    ensures ElideBlocks("```" + content + "\n```" + after, 0) == (Placeholder(0) + after, 1)
  {
    var s := "```" + content + "\n```" + after;
    var q := 4 + |content|;
    OnlyTwoFences(content, after);
    assert IsBlock(s, 0, q);
    assert FindBlock(s) == Some(Span(0, q));
    var t := Placeholder(0) + after;
    assert s[q + 3..] == after;
    assert BlockSubn(s, 0).0 == t;
    PlaceholderShape(0);
    NoBacktickNoBlock(t);
    assert BlockSubn(t, 1).1 == 0;
  }

  // ===========================================================================
  // Link rewriting (lines 57-76)

  function Display(s: string, m: LinkMatch): string
    requires IsLinkMatch(s, m.start, m.sep, m.stop)
  {
    s[m.start + 1..m.sep]
  }

  function Url(s: string, m: LinkMatch): string
    requires IsLinkMatch(s, m.start, m.sep, m.stop)
  {
    s[m.sep + 2..m.stop]
  }

  /** match[0], the text appended to `links`. */
  function MatchText(s: string, m: LinkMatch): string
    requires IsLinkMatch(s, m.start, m.sep, m.stop)
  {
    s[m.start..m.stop + 1]
  }

  /** `regexp.subn(template, s, 1)` with the template read literally: the match `m` (the
      first one) becomes the hyperlink. The text before and after it is kept, exactly one
      "(" goes (the one after "]"), and a CSI-free text stays CSI-free. */
  function LinkSubn(s: string, m: LinkMatch): (r: string)
    requires IsLinkMatch(s, m.start, m.sep, m.stop)
    ensures StartsWith(r, s[..m.start]) && EndsWith(r, s[m.stop + 1..])
    ensures var h := Hyperlink(Url(s, m), Display(s, m));
      |r| == m.start + |h| + (|s| - m.stop - 1) && r[m.start..m.start + |h|] == h
    ensures Count(r, '(') + 1 == Count(s, '(')
    ensures CsiFree(s) ==> CsiFree(r)
  {
    var pre, h, post := s[..m.start], Hyperlink(Url(s, m), Display(s, m)), s[m.stop + 1..];
    LinkSubnCount(s, m);
    LinkSubnCsiFree(s, m);
    assert (pre + h + post)[..|pre|] == pre;
    assert (pre + h + post)[|pre|..|pre| + |h|] == h;
    assert (pre + h + post)[|pre + h + post| - |post|..] == post;
    pre + h + post
  }

  lemma LinkSubnCount(s: string, m: LinkMatch)
    requires IsLinkMatch(s, m.start, m.sep, m.stop)
    ensures Count(s[..m.start] + Hyperlink(Url(s, m), Display(s, m)) + s[m.stop + 1..], '(') + 1
      == Count(s, '(')
  {
    var disp, url := Display(s, m), Url(s, m);
    var pre, h, post := s[..m.start], Hyperlink(url, disp), s[m.stop + 1..];
    CountSlices(s, m.start, m.stop + 1, '(');
    assert Count(s, '(') == Count(pre, '(') + Count(MatchText(s, m), '(') + Count(post, '(');
    MatchPieces(s, m);
    MatchCount(disp, url);
    assert Count(h, '(') == Count(url, '(') + Count(disp, '(') by {
      assert '(' !in Osc8 && '(' !in St;
    }
    CountConcat(pre, h, '(');
    CountConcat(pre + h, post, '(');
  }

  lemma LinkSubnCsiFree(s: string, m: LinkMatch)
    requires IsLinkMatch(s, m.start, m.sep, m.stop)
    ensures CsiFree(s) ==> CsiFree(s[..m.start] + Hyperlink(Url(s, m), Display(s, m)) + s[m.stop + 1..])
  {
    if CsiFree(s) {
      var pre, post := s[..m.start], s[m.stop + 1..];
      CsiFreeSlice(s, 0, m.start);
      CsiFreeSlice(s, m.start + 1, m.sep);
      CsiFreeSlice(s, m.sep + 2, m.stop);
      CsiFreeSlice(s, m.stop + 1, |s|);
      assert s[0..m.start] == pre && s[m.stop + 1..|s|] == post;
      var h := Hyperlink(Url(s, m), Display(s, m));
      assert h[0] == Esc && h[|h| - 1] == St[1];
      CsiFreeConcat(pre, h);
      CsiFreeConcat(pre + h, post);
    }
  }

  /** The matched text is "[" + display + "](" + url + ")". */
  lemma MatchPieces(s: string, m: LinkMatch)
    requires IsLinkMatch(s, m.start, m.sep, m.stop)
    ensures MatchText(s, m) == "[" + Display(s, m) + "](" + Url(s, m) + ")"
  {
    var t := MatchText(s, m);
    var i, d, e := m.start, m.sep, m.stop;
    var r := "[" + Display(s, m) + "](" + Url(s, m) + ")";
    assert |t| == |r|;
    forall k | 0 <= k < |t| ensures t[k] == r[k]
    {
      if k == 0 || k == d - i || k == d - i + 1 || k == e - i {
      } else if k < d - i {
        assert r[k] == Display(s, m)[k - 1];
      } else {
        assert r[k] == Url(s, m)[k - (d - i + 2)];
      }
    }
  }

  lemma MatchCount(disp: string, url: string)
    ensures Count("[" + disp + "](" + url + ")", '(') == Count(disp, '(') + Count(url, '(') + 1
  {
    CountConcat("[" + disp + "](" + url, ")", '(');
    CountConcat("[" + disp + "](", url, '(');
    CountConcat("[" + disp, "](", '(');
    CountConcat("[", disp, '(');
    assert Count("](", '(') == 1;
  }

  /** A recorded link: "[", at least two more characters, and ")". */
  predicate LinkText(t: string)
  {
    |t| >= 4 && t[0] == '[' && t[|t| - 1] == ')'
  }

  /** What the link loop leaves: the final text and the recorded match texts, in order.
      The loop stops only when no match is left, every recorded link used up one "(" and
      has the form "[...)", and a CSI-free text stays CSI-free. */
  function RewriteLinks(s: string): (r: (string, seq<string>))
    ensures FindLink(r.0).None?
    ensures Count(r.0, '(') + |r.1| == Count(s, '(')
    ensures forall k :: 0 <= k < |r.1| ==> LinkText(r.1[k])
    ensures CsiFree(s) ==> CsiFree(r.0)
    decreases Count(s, '(')
  {
    match FindLink(s)
    case None => (s, [])
    case Some(m) =>
      var t := RewriteLinks(LinkSubn(s, m));
      LinkTextPrepend(s, m, t.1);
      (t.0, [MatchText(s, m)] + t.1)
  }

  lemma LinkTextPrepend(s: string, m: LinkMatch, links: seq<string>)
    requires IsLinkMatch(s, m.start, m.sep, m.stop) && forall k :: 0 <= k < |links| ==> LinkText(links[k])
    ensures forall k :: 0 <= k < |links| + 1 ==> LinkText(([MatchText(s, m)] + links)[k])
  {
    var x := MatchText(s, m);
    assert x[0] == s[m.start] && x[|x| - 1] == s[m.stop];
    assert forall k :: 0 < k < |links| + 1 ==> ([x] + links)[k] == links[k - 1];
  }

  /** One turn of the link loop, as the loop invariant needs it. */
  lemma RewriteLinksStep(s: string, m: LinkMatch)
    requires FindLink(s) == Some(m)
    ensures RewriteLinks(s).0 == RewriteLinks(LinkSubn(s, m)).0
    ensures RewriteLinks(s).1 == [MatchText(s, m)] + RewriteLinks(LinkSubn(s, m)).1
  {
  }

  /** The link loop of `_format_section`. */
  method CutLinks(text: string) returns (s: string, links: seq<string>)
    ensures (s, links) == RewriteLinks(text)
  {
    s := text;
    links := [];
    ghost var goal := RewriteLinks(text);
    while true
      invariant RewriteLinks(s).0 == goal.0
      invariant links + RewriteLinks(s).1 == goal.1
      decreases Count(s, '(')
    {
      var found := FindLink(s);
      if found.None? {
        assert RewriteLinks(s) == (s, []);
        assert links + [] == links;
        assert goal.0 == s && goal.1 == links;
        break;
      }
      var m := found.value;
      RewriteLinksStep(s, m);
      links := links + [MatchText(s, m)];
      s := LinkSubn(s, m);
    }
    assert goal == (s, links);
  }

  /** Every "[" before `m` is separated from `m` by a newline. */
  predicate OpenBracketsClosedBy(s: string, m: nat)
    requires m <= |s|
  {
    forall i :: 0 <= i < m && s[i] == '[' ==> !NoNewline(s, i, m)
  }

  lemma {:induction false} RewriteLinksKeepsPrefix(s: string, m: nat)
    requires m <= |s|
    requires forall i, d, e :: i < m ==> !IsLinkMatch(s, i, d, e)
    requires OpenBracketsClosedBy(s, m)
    ensures StartsWith(RewriteLinks(s).0, s[..m])
    decreases Count(s, '(')
  {
    match FindLink(s)
    case None =>
      assert RewriteLinks(s).0 == s;
    case Some(lm) =>
      var t := LinkSubn(s, lm);
      LinkSubnKeepsPrefix(s, lm, m);
      RewriteLinksKeepsPrefix(t, m);
      RewriteLinksStep(s, lm);
  }

  /** One replacement after `m` leaves the text before `m`, and what holds of it, alone. */
  lemma LinkSubnKeepsPrefix(s: string, lm: LinkMatch, m: nat)
    requires FindLink(s) == Some(lm) && m <= |s|
    requires forall i, d, e :: i < m ==> !IsLinkMatch(s, i, d, e)
    requires OpenBracketsClosedBy(s, m)
    ensures var t := LinkSubn(s, lm);
      m <= |t| && t[..m] == s[..m] && OpenBracketsClosedBy(t, m)
      && forall i, d, e :: i < m ==> !IsLinkMatch(t, i, d, e)
  {
    var t := LinkSubn(s, lm);
    assert lm.start >= m;
    assert t[..m] == s[..m];
    assert forall k :: 0 <= k < m ==> t[k] == s[k];
    forall i, d, e | 0 <= i < m ensures !IsLinkMatch(t, i, d, e)
    {
      if e < m {
        assert IsLinkMatch(t, i, d, e) ==> IsLinkMatch(s, i, d, e);
      } else {
        assert IsLinkMatch(t, i, d, e) ==> NoNewline(s, i, m);
      }
    }
  }

  /** The first recorded link is the leftmost match, and the text before it reaches the
      output unchanged. */
  lemma FirstLinkInPlace(s: string)
    requires FindLink(s).Some?
    ensures var m := FindLink(s).value;
      RewriteLinks(s).1 != [] && RewriteLinks(s).1[0] == s[m.start..m.stop + 1]
      && StartsWith(RewriteLinks(s).0, s[..m.start])
  {
    var m := FindLink(s).value;
    forall i | 0 <= i < m.start && s[i] == '[' ensures !NoNewline(s, i, m.start)
    {
      if NoNewline(s, i, m.start) {
        assert IsLinkMatch(s, i, m.sep, m.stop);
      }
    }
    RewriteLinksKeepsPrefix(s, m.start);
  }

  /** Where the link of `before + "[" + display + "](" + url + ")" + after` sits. */
  predicate LinkLayout(s: string, m: LinkMatch, before: string, display: string, url: string, after: string)
  {
    s == before + "[" + display + "](" + url + ")" + after
    && m == LinkMatch(|before|, |before| + 1 + |display|, |before| + 1 + |display| + 2 + |url|)
  }

  /** The only link match in a text with one "[" is the one written there. */
  lemma OnlyLink(s: string, m: LinkMatch, before: string, display: string, url: string, after: string)
    requires LinkLayout(s, m, before, display, url, after)
    requires '[' !in before && '[' !in display && '[' !in url && '[' !in after
    requires ']' !in display && ')' !in url
    requires '\n' !in display && '\n' !in url
    ensures FindLink(s) == Some(m)
  {
    var i, d, e := m.start, m.sep, m.stop;
    assert s[i] == '[' && s[d] == ']' && s[d + 1] == '(' && s[e] == ')';
    assert forall j :: 0 <= j < i ==> s[j] == before[j];
    assert forall j :: i < j < d ==> s[j] == display[j - i - 1];
    assert forall j :: d + 1 < j < e ==> s[j] == url[j - d - 2];
    assert forall j :: e < j < |s| ==> s[j] == after[j - e - 1];
    assert NoNewline(s, i, e + 1);
    assert IsLinkMatch(s, i, d, e);
    var f := FindLink(s).value;
    assert LinkLe(f, i, d, e);
    assert s[f.start] == '[';
    assert f.start == i;
    assert f.sep == d;
  }

  lemma LinkPieces(s: string, m: LinkMatch, before: string, display: string, url: string, after: string)
    requires LinkLayout(s, m, before, display, url, after) && IsLinkMatch(s, m.start, m.sep, m.stop)
    ensures s[..m.start] == before && Display(s, m) == display && Url(s, m) == url
    ensures s[m.stop + 1..] == after && MatchText(s, m) == "[" + display + "](" + url + ")"
  {
    assert s[..m.start] == before;
    assert Display(s, m) == display;
    assert Url(s, m) == url;
    assert s[m.stop + 1..] == after;
    assert MatchText(s, m) == "[" + display + "](" + url + ")";
  }

  /** A text whose first replacement leaves no "[" behind is done after one turn. */
  lemma RewriteOnce(s: string, m: LinkMatch, t: string)
    requires FindLink(s) == Some(m) && t == LinkSubn(s, m) && '[' !in t
    ensures RewriteLinks(s) == (t, [MatchText(s, m)])
  {
    NoBracketNoLink(t);
    assert FindLink(t).None?;
    assert RewriteLinks(t) == (t, []);
    RewriteLinksStep(s, m);
    assert [MatchText(s, m)] + [] == [MatchText(s, m)];
  }

  /** The replacement of a match, given its pieces. */
  lemma LinkSubnOf(s: string, m: LinkMatch, before: string, display: string, url: string, after: string)
    requires IsLinkMatch(s, m.start, m.sep, m.stop)
    requires s[..m.start] == before && Display(s, m) == display && Url(s, m) == url
    requires s[m.stop + 1..] == after
    ensures LinkSubn(s, m) == before + Hyperlink(url, display) + after
  {
  }

  /** Text with one `[display](url)` and no other "[": the link is recorded as written
      and replaced in place by its hyperlink, OSC 8 with the url as target, then ST, then
      the display text, then the closing OSC 8 and ST. */
  lemma SingleLink(before: string, display: string, url: string, after: string)
    requires '[' !in before && '[' !in display && '[' !in url && '[' !in after
    requires ']' !in display && ')' !in url
    requires '\n' !in display && '\n' !in url
    ensures RewriteLinks(before + "[" + display + "](" + url + ")" + after)
      == (before + Osc8 + url + St + display + Osc8 + St + after, ["[" + display + "](" + url + ")"])
  {
    var s := before + "[" + display + "](" + url + ")" + after;
    var m := LinkMatch(|before|, |before| + 1 + |display|, |before| + 1 + |display| + 2 + |url|);
    OnlyLink(s, m, before, display, url, after);
    LinkPieces(s, m, before, display, url, after);
    LinkSubnOf(s, m, before, display, url, after);
    assert '[' !in Osc8 && '[' !in St;
    RewriteOnce(s, m, before + Hyperlink(url, display) + after);
    HyperlinkLayout(before, url, display, after);
  }

  lemma HyperlinkLayout(before: string, url: string, display: string, after: string)
    ensures before + Hyperlink(url, display) + after == before + Osc8 + url + St + display + Osc8 + St + after
  {
  }

  // ===========================================================================
  // Inline styling (lines 25-39)

  /** `re.sub(d + "(.*?)" + d, open + r"\1" + close, s)` for a literal delimiter `d`:
      every leftmost, shortest span, scanned left to right without overlap. The result
      holds no character that is in neither the text nor the markers. */
  function Substitute(s: string, d: string, open: string, close: string): (r: string)
    requires Delimiter(d)
    ensures forall c :: c in r ==> c in s || c in open || c in close
    decreases |s|, 1
  {
    SubstituteFound(s, d, open, close, FindSpan(s, d))
  }

  /** The substitution once the search has answered `f`: the text itself when there is no
      span, else the text before the span, the marked span and the substituted rest. */
  function SubstituteFound(s: string, d: string, open: string, close: string, f: Option<Span>): (r: string)
    requires Delimiter(d) && f == FindSpan(s, d)
    ensures forall c :: c in r ==> c in s || c in open || c in close
    decreases |s|, 0
  {
    match f
    case None => s
    case Some(sp) =>
      SubstituteSlices(s, sp.open, sp.open + |d|, sp.close, sp.close + |d|);
      s[..sp.open] + (open + (s[sp.open + |d|..sp.close] + (close
        + Substitute(s[sp.close + |d|..], d, open, close))))
  }

  /** The characters of the three kept pieces all come from the text. */
  lemma SubstituteSlices(s: string, p: nat, i: nat, j: nat, q: nat)
    requires p <= i <= j <= q <= |s|
    ensures forall c :: c in s[..p] || c in s[i..j] || c in s[q..] ==> c in s
  {
    forall c | c in s[..p] || c in s[i..j] || c in s[q..] ensures c in s
    {
      if c in s[..p] {
        var k :| 0 <= k < p && s[..p][k] == c;
        assert s[k] == c;
      } else if c in s[i..j] {
        var k :| 0 <= k < j - i && s[i..j][k] == c;
        assert s[i + k] == c;
      } else {
        var k :| 0 <= k < |s| - q && s[q..][k] == c;
        assert s[q + k] == c;
      }
    }
  }

  /** The text changes exactly when it holds a span, as long as the opening marker does
      not start like the delimiter. */
  lemma SubstituteChanges(s: string, d: string, open: string, close: string)
    requires Delimiter(d) && |open| > 0 && open[0] != d[0]
    ensures Substitute(s, d, open, close) == s <==> FindSpan(s, d).None?
  {
    match FindSpan(s, d)
    case None =>
    case Some(sp) =>
      SubstituteAt(s, d, open, close, sp);
      var r := Substitute(s, d, open, close);
      assert s[sp.open] == s[sp.open..sp.open + |d|][0];
      assert r[sp.open] == open[0];
  }

  /** One step of the substitution, at the span the search found. */
  lemma SubstituteAt(s: string, d: string, open: string, close: string, sp: Span)
    requires Delimiter(d) && FindSpan(s, d) == Some(sp)
    ensures Substitute(s, d, open, close)
      == s[..sp.open] + (open + (s[sp.open + |d|..sp.close] + (close
         + Substitute(s[sp.close + |d|..], d, open, close))))
  {
  }

  /** A text with one span and nothing to replace after it. */
  lemma SubstituteOnce(s: string, d: string, open: string, close: string, sp: Span,
                       before: string, text: string, after: string)
    requires Delimiter(d) && FindSpan(s, d) == Some(sp) && FindSpan(after, d).None?
    requires s[..sp.open] == before && s[sp.open + |d|..sp.close] == text
    requires s[sp.close + |d|..] == after
    ensures Substitute(s, d, open, close) == before + (open + (text + (close + after)))
  {
    SubstituteAt(s, d, open, close, sp);
  }

  // ---------------------------------------------------------------------------
  // No span survives a pass

  /** The text holds no span of `d`. */
  ghost predicate SpanFree(t: string, d: string)
  {
    forall p, q :: !IsSpan(t, d, p, q)
  }

  /** No character of the delimiter occurs in the marker. */
  predicate Apart(d: string, m: string)
  {
    forall k :: 0 <= k < |d| ==> d[k] !in m
  }

  /** An occurrence of `d` never overlaps a marker that shares no character with it. */
  lemma OccursBesideMarker(t: string, d: string, x: int, a: nat, m: string)
    requires |d| > 0 && |m| > 0 && Occurs(t, d, x) && a + |m| <= |t| && t[a..a + |m|] == m
    requires Apart(d, m)
    ensures x + |d| <= a || a + |m| <= x
  {
    if a < x + |d| && x < a + |m| {
      var k := if x < a then a else x;
      SliceChar(t, x, d, k);
      SliceChar(t, a, m, k);
      assert false;
    }
  }

  /** An occurrence inside a slice is an occurrence in any text holding the same slice. */
  lemma OccursShift(r: string, a: nat, s: string, b: nat, n: nat, d: string, p: int)
    requires a + n <= |r| && b + n <= |s| && r[a..a + n] == s[b..b + n]
    requires a <= p && p + |d| <= a + n && Occurs(r, d, p)
    ensures Occurs(s, d, p - a + b)
  {
    var p' := p - a + b;
    SliceShift(r, a, s, b, n);
    forall k | 0 <= k < |d| ensures s[p' + k] == d[k]
    {
      SliceChar(r, p, d, p + k);
      assert s[p' + k] == r[p + k];
    }
    assert s[p'..p' + |d|] == d;
  }

  /** Equal slices agree position by position. */
  lemma SliceShift(r: string, a: nat, s: string, b: nat, n: nat)
    requires a + n <= |r| && b + n <= |s| && r[a..a + n] == s[b..b + n]
    ensures forall k :: a <= k < a + n ==> r[k] == s[k - a + b]
  {
    forall k | a <= k < a + n ensures r[k] == s[k - a + b]
    {
      SliceChar(r, a, r[a..a + n], k);
      SliceChar(s, b, s[b..b + n], k - a + b);
    }
  }

  lemma SliceChar(t: string, a: nat, u: string, k: nat)
    requires a <= k < a + |u| <= |t| && t[a..a + |u|] == u
    ensures t[k] == u[k - a]
  {
    assert t[k] == t[a..a + |u|][k - a];
  }

  /** The text before the substituted rest holds no span: one starting before the marked
      span would have been found instead of it, one starting inside it would end it
      sooner, and none can start in a marker. */
  lemma NoSpanStep(s: string, d: string, open: string, close: string, sp: Span, R: string)
    requires Delimiter(d) && FindSpan(s, d) == Some(sp)
    requires |open| > 0 && |close| > 0 && Apart(d, open) && Apart(d, close)
    requires forall p, q :: !IsSpan(R, d, p, q)
    ensures var r := s[..sp.open] + (open + (s[sp.open + |d|..sp.close] + (close + R)));
      forall p, q :: !IsSpan(r, d, p, q)
  {
    var A, T := s[..sp.open], s[sp.open + |d|..sp.close];
    var r := A + (open + (T + (close + R)));
    Layout(A, open, T, close, R, r);
    NoSpanPieces(s, d, open, close, sp, R, r, sp.open + |open|, sp.open + |open| + |T| + |close|);
  }

  /** Where the five pieces of a substituted text sit. */
  lemma Layout(a: string, m1: string, t: string, m2: string, b: string, r: string)
    requires r == a + (m1 + (t + (m2 + b)))
    ensures var o1, o2 := |a|, |a| + |m1|;
      var o3, o4 := o2 + |t|, o2 + |t| + |m2|;
      o4 <= |r| && r[..o1] == a && r[o1..o2] == m1 && r[o2..o3] == t && r[o3..o4] == m2 && r[o4..] == b
  {
  }

  /** The case analysis of `NoSpanStep`, on the layout of the substituted text. */
  lemma NoSpanPieces(s: string, d: string, open: string, close: string, sp: Span, R: string,
                     r: string, o2: nat, o4: nat)
    requires Delimiter(d) && FindSpan(s, d) == Some(sp)
    requires |open| > 0 && |close| > 0 && Apart(d, open) && Apart(d, close)
    requires forall p, q :: !IsSpan(R, d, p, q)
    requires o2 == sp.open + |open| && o4 == o2 + (sp.close - sp.open - |d|) + |close| <= |r|
    requires r[..sp.open] == s[..sp.open] && r[sp.open..o2] == open
    requires r[o2..o4 - |close|] == s[sp.open + |d|..sp.close]
    requires r[o4 - |close|..o4] == close && r[o4..] == R
    ensures forall p, q :: !IsSpan(r, d, p, q)
  {
    var i, o3 := sp.open, o4 - |close|;
    forall p, q ensures !IsSpan(r, d, p, q)
    {
      if IsSpan(r, d, p, q) {
        OccursBesideMarker(r, d, p, i, open);
        OccursBesideMarker(r, d, p, o3, close);
        OccursBesideMarker(r, d, q, i, open);
        if p + |d| <= i {
          NoSpanBefore(s, d, i, r, p, q);
        } else if p < o4 {
          NoSpanInside(s, d, sp, r, o2, p);
        } else {
          NoSpanAfter(r, d, R, o4, p, q);
        }
      }
    }
  }

  /** A span starting before `i`, in a text that agrees with `s` up to `i`, is a span of
      `s` too, or else reaches a delimiter of `s` at `i` on the same line. */
  lemma NoSpanBefore(s: string, d: string, i: nat, r: string, p: int, q: int)
    requires i <= |r| && i <= |s| && r[..i] == s[..i] && Occurs(s, d, i)
    requires IsSpan(r, d, p, q) && p + |d| <= i && (q + |d| <= i || q >= i)
    ensures IsSpan(s, d, p, if q + |d| <= i then q else i)
  {
    assert r[0..i] == s[0..i];
    OccursShift(r, 0, s, 0, i, d, p);
    SliceShift(r, 0, s, 0, i);
    if q + |d| <= i {
      OccursShift(r, 0, s, 0, i, d, q);
      forall k | p + |d| <= k < q ensures s[k] != '\n'
      {
        assert s[k] == r[k];
      }
    } else {
      forall k | p + |d| <= k < i ensures s[k] != '\n'
      {
        assert s[k] == r[k];
      }
    }
  }

  /** No delimiter occurs inside the span the search found. */
  lemma NoSpanInside(s: string, d: string, sp: Span, r: string, o2: nat, p: int)
    requires Delimiter(d) && FindSpan(s, d) == Some(sp)
    requires o2 <= p && p + |d| <= o2 + (sp.close - sp.open - |d|) <= |r|
    requires r[o2..o2 + (sp.close - sp.open - |d|)] == s[sp.open + |d|..sp.close]
    ensures !Occurs(r, d, p)
  {
    var i, j := sp.open, sp.close;
    var p' := p - o2 + i + |d|;
    if Occurs(r, d, p) {
      OccursShift(r, o2, s, i + |d|, j - i - |d|, d, p);
      assert IsSpan(s, d, i, p');
    }
  }

  /** A span of a suffix is a span of the text it is a suffix of, shifted. */
  lemma NoSpanAfter(r: string, d: string, R: string, o4: nat, p: int, q: int)
    requires o4 <= |r| && r[o4..] == R && IsSpan(r, d, p, q) && o4 <= p
    ensures IsSpan(R, d, p - o4, q - o4)
  {
    assert forall k :: 0 <= k < |R| ==> R[k] == r[k + o4];
    assert r[p..p + |d|] == R[p - o4..p - o4 + |d|];
    assert r[q..q + |d|] == R[q - o4..q - o4 + |d|];
  }

  /** After a pass no span of its delimiter is left, as long as the markers hold none of
      the delimiter's characters: every span is replaced, not just the first. */
  lemma {:induction false} SubstituteLeavesNoSpan(s: string, d: string, open: string, close: string)
    requires Delimiter(d) && |open| > 0 && |close| > 0 && Apart(d, open) && Apart(d, close)
    ensures FindSpan(Substitute(s, d, open, close), d).None?
    decreases |s|
  {
    match FindSpan(s, d)
    case None =>
      assert Substitute(s, d, open, close) == s;
    case Some(sp) =>
      var rest := s[sp.close + |d|..];
      SubstituteLeavesNoSpan(rest, d, open, close);
      SubstituteAt(s, d, open, close, sp);
      NoSpanStep(s, d, open, close, sp, Substitute(rest, d, open, close));
  }

  /** Putting a marker in place of one delimiter creates no span of another delimiter `e`
      that the marker shares no character with. */
  lemma MarkerKeepsNoSpan(x: string, d: string, m: string, y: string, e: string)
    requires |e| > 0 && |m| > 0 && Apart(e, m) && '\n' !in d
    requires SpanFree(x + d + y, e)
    ensures SpanFree(x + m + y, e)
  {
    var t, r := x + d + y, x + m + y;
    var a, b := |x|, |x| + |m|;
    assert r[a..b] == m;
    forall p, q | IsSpan(r, e, p, q) ensures false
    {
      OccursBesideMarker(r, e, p, a, m);
      OccursBesideMarker(r, e, q, a, m);
      var p' := if p < a then p else p - |m| + |d|;
      var q' := if q < a then q else q - |m| + |d|;
      assert r[p..p + |e|] == t[p'..p' + |e|];
      assert r[q..q + |e|] == t[q'..q' + |e|];
      forall k | p' + |e| <= k < q' ensures 0 <= k < |t| && t[k] != '\n'
      {
        if k < a {
          assert t[k] == r[k];
        } else if k < a + |d| {
          assert t[k] == d[k - a];
        } else {
          assert t[k] == r[k - |d| + |m|];
        }
      }
      assert IsSpan(t, e, p', q');
    }
  }

  /** A pass creates no span of another delimiter `e` that its markers share no character
      with; `P` is the text already scanned. */
  lemma {:induction false} SubstituteKeepsNoSpan(P: string, s: string, d: string, open: string, close: string, e: string)
    requires Delimiter(d) && '\n' !in d && |e| > 0 && |open| > 0 && |close| > 0
    requires Apart(e, open) && Apart(e, close)
    requires SpanFree(P + s, e)
    ensures SpanFree(P + Substitute(s, d, open, close), e)
    decreases |s|
  {
    match FindSpan(s, d)
    case None =>
      assert Substitute(s, d, open, close) == s;
    case Some(sp) =>
      var S := s[sp.close + |d|..];
      var P' := P + s[..sp.open] + open + s[sp.open + |d|..sp.close] + close;
      KeepsNoSpanStep(P, s, d, open, close, e, sp.open, sp.close);
      SubstituteKeepsNoSpan(P', S, d, open, close, e);
      KeepsNoSpanJoin(P, s, d, open, close, e, sp);
  }

  /** One step of `SubstituteKeepsNoSpan`: both delimiters of a span become markers. */
  lemma KeepsNoSpanStep(P: string, s: string, d: string, open: string, close: string, e: string,
                        i: nat, j: nat)
    requires '\n' !in d && |e| > 0 && |open| > 0 && |close| > 0
    requires Apart(e, open) && Apart(e, close)
    requires IsSpan(s, d, i, j) && SpanFree(P + s, e)
    ensures SpanFree(P + s[..i] + open + s[i + |d|..j] + close + s[j + |d|..], e)
  {
    var A, T, S := s[..i], s[i + |d|..j], s[j + |d|..];
    SpanPieces(s, d, i, j);
    Unfold(P, A, d, T, S, open);
    MarkerKeepsNoSpan(P + A, d, open, T + d + S, e);
    MarkerKeepsNoSpan(P + A + open + T, d, close, S, e);
  }

  /** The substituted text after `P` is the substituted rest after `P`, the text before
      the span and the marked span. */
  lemma KeepsNoSpanJoin(P: string, s: string, d: string, open: string, close: string, e: string, sp: Span)
    requires Delimiter(d) && FindSpan(s, d) == Some(sp)
    requires var P' := P + s[..sp.open] + open + s[sp.open + |d|..sp.close] + close;
      SpanFree(P' + Substitute(s[sp.close + |d|..], d, open, close), e)
    ensures SpanFree(P + Substitute(s, d, open, close), e)
  {
    var A, T, S := s[..sp.open], s[sp.open + |d|..sp.close], s[sp.close + |d|..];
    SubstituteAt(s, d, open, close, sp);
    Regroup(P, A, open, T, close, Substitute(S, d, open, close));
  }

  /** A text with a span is the text before it, the delimiter, the content, the delimiter
      and the rest. */
  lemma SpanPieces(s: string, d: string, i: nat, j: nat)
    requires IsSpan(s, d, i, j)
    ensures s == s[..i] + d + s[i + |d|..j] + d + s[j + |d|..]
  {
    assert s[i..i + |d|] == d && s[j..j + |d|] == d;
    assert s == s[..i] + s[i..i + |d|] + s[i + |d|..j] + s[j..j + |d|] + s[j + |d|..];
  }

  /** The regroupings `KeepsNoSpanStep` steps through. */
  lemma Unfold(P: string, A: string, d: string, T: string, S: string, m: string)
    ensures P + (A + d + T + d + S) == (P + A) + d + (T + d + S)
    ensures (P + A) + m + (T + d + S) == (P + A + m + T) + d + S
  {
  }

  /** The regrouping `SubstituteKeepsNoSpan` ends with. */
  lemma Regroup(P: string, A: string, m1: string, T: string, m2: string, X: string)
    ensures P + (A + (m1 + (T + (m2 + X)))) == (P + A + m1 + T + m2) + X
  {
  }

  const BoldOpen: string := Bold + FgWhite
  const BoldClose: string := Reset
  const CodeOpen: string := BgDarkGray + FgWhite + " "
  const CodeClose: string := " " + Reset

  /** The bold pass changes a line exactly when it holds a `**text**` span, and leaves no
      such span behind. */
  function BoldPass(s: string): (r: string)
    ensures r == s <==> FindSpan(s, "**").None?
    ensures FindSpan(r, "**").None?
  {
    assert BoldOpen[0] == Esc;
    SubstituteChanges(s, "**", BoldOpen, BoldClose);
    assert Apart("**", BoldOpen) && Apart("**", BoldClose);
    SubstituteLeavesNoSpan(s, "**", BoldOpen, BoldClose);
    Substitute(s, "**", BoldOpen, BoldClose)
  }

  /** The inline-code pass changes a line exactly when it holds a `` `text` `` span, and
      leaves no such span behind. */
  function CodePass(s: string): (r: string)
    ensures r == s <==> FindSpan(s, "`").None?
    ensures FindSpan(r, "`").None?
  {
    assert CodeOpen[0] == Esc;
    SubstituteChanges(s, "`", CodeOpen, CodeClose);
    assert Apart("`", CodeOpen) && Apart("`", CodeClose);
    SubstituteLeavesNoSpan(s, "`", CodeOpen, CodeClose);
    Substitute(s, "`", CodeOpen, CodeClose)
  }

  /** `_colorize`: the bold pass first, then the inline-code pass on its result. The bold
      markers hold no backtick, so the code pass acts only on the line's own backticks; a
      line with no "*" and no "`" is returned unchanged. No bold or code span is left: the
      code markers hold no "*", so the code pass creates no bold span. */
  function Colorize(line: string): (r: string)
    ensures '*' !in line ==> r == CodePass(line)
    ensures '`' !in line ==> r == BoldPass(line)
    ensures '*' !in line && '`' !in line ==> r == line
    ensures FindSpan(r, "**").None? && FindSpan(r, "`").None?
  {
    ColorizeLeavesNoBold(line);
    if '*' !in line then
      NoDelimiterNoSpan(line, "**");
      assert FindSpan(line, "**").None?;
      assert BoldPass(line) == line;
      if '`' !in line then
        NoDelimiterNoSpan(line, "`");
        assert FindSpan(line, "`").None?;
        CodePass(BoldPass(line))
      else
        CodePass(BoldPass(line))
    else if '`' !in line then
      var b := BoldPass(line);
      assert '`' !in BoldOpen && '`' !in BoldClose;
      assert '`' !in b;
      NoDelimiterNoSpan(b, "`");
      assert FindSpan(b, "`").None?;
      assert CodePass(b) == b;
      CodePass(b)
    else
      CodePass(BoldPass(line))
  }

  lemma ColorizeLeavesNoBold(line: string)
    ensures FindSpan(CodePass(BoldPass(line)), "**").None?
  {
    var b := BoldPass(line);
    assert Apart("**", CodeOpen) && Apart("**", CodeClose);
    assert "" + b == b;
    SubstituteKeepsNoSpan("", b, "`", CodeOpen, CodeClose, "**");
    assert "" + CodePass(b) == CodePass(b);
  }

  /** The only span of a line with one pair of delimiters is the one written there. */
  lemma OnlySpan(before: string, d: string, text: string, after: string)
    requires Delimiter(d) && d[0] !in before && d[0] !in text && '\n' !in text
    ensures FindSpan(before + d + text + d + after, d) == Some(Span(|before|, |before| + |d| + |text|))
  {
    var s := before + d + text + d + after;
    var i, j := |before|, |before| + |d| + |text|;
    WrittenSpan(before, d, text, after);
    var sp := FindSpan(s, d).value;
    assert s[sp.open] == s[sp.open..sp.open + |d|][0];
    assert s[sp.close] == s[sp.close..sp.close + |d|][0];
    assert sp.open == i;
    assert sp.close == j;
  }

  /** The span written between the two delimiters, and where the delimiter's first
      character does not occur. */
  lemma WrittenSpan(before: string, d: string, text: string, after: string)
    requires Delimiter(d) && d[0] !in before && d[0] !in text && '\n' !in text
    ensures var s, i, j := before + d + text + d + after, |before|, |before| + |d| + |text|;
      IsSpan(s, d, i, j) && (forall k :: 0 <= k < i ==> s[k] != d[0])
      && (forall k :: i + |d| <= k < j ==> s[k] != d[0])
  {
    var s := before + d + text + d + after;
    var i, j := |before|, |before| + |d| + |text|;
    assert forall k :: 0 <= k < i ==> s[k] == before[k];
    assert forall k :: i + |d| <= k < j ==> s[k] == text[k - i - |d|];
    assert s[i..i + |d|] == d && s[j..j + |d|] == d;
    assert NoNewline(s, i + |d|, j);
  }

  /** The three pieces of a text with one delimited span. */
  lemma DelimitedPieces(before: string, d: string, text: string, after: string)
    ensures var s, i, j := before + d + text + d + after, |before|, |before| + |d| + |text|;
      s[..i] == before && s[i + |d|..j] == text && s[j + |d|..] == after
  {
  }

  /** One `**text**` on a line without other stars: bold white text, then a reset, and no
      delimiter left. */
  lemma SingleBold(before: string, text: string, after: string)
    requires '*' !in before && '*' !in text && '*' !in after && '\n' !in text
    ensures BoldPass(before + "**" + text + "**" + after)
      == before + (BoldOpen + (text + (BoldClose + after)))
  {
    var s := before + "**" + text + "**" + after;
    var sp := Span(|before|, |before| + 2 + |text|);
    OnlySpan(before, "**", text, after);
    DelimitedPieces(before, "**", text, after);
    NoDelimiterNoSpan(after, "**");
    SubstituteOnce(s, "**", BoldOpen, BoldClose, sp, before, text, after);
  }

  /** One `` `text` `` on a line without other backticks: dark-gray background, white
      text padded by one space on each side, then a reset. */
  lemma SingleCode(before: string, text: string, after: string)
    requires '`' !in before && '`' !in text && '`' !in after && '\n' !in text
    ensures CodePass(before + "`" + text + "`" + after)
      == before + (CodeOpen + (text + (CodeClose + after)))
  {
    var s := before + "`" + text + "`" + after;
    var sp := Span(|before|, |before| + 1 + |text|);
    OnlySpan(before, "`", text, after);
    DelimitedPieces(before, "`", text, after);
    NoDelimiterNoSpan(after, "`");
    SubstituteOnce(s, "`", CodeOpen, CodeClose, sp, before, text, after);
  }

  /** The reference reading back of a pass: each `open` and each `close` becomes the
      delimiter again. */
  function Restore(t: string, d: string, open: string, close: string): string
    requires |open| > 0 && |close| > 0
    decreases |t|
  {
    if t == [] then []
    else if StartsWith(t, open) then d + Restore(t[|open|..], d, open, close)
    else if StartsWith(t, close) then d + Restore(t[|close|..], d, open, close)
    else [t[0]] + Restore(t[1..], d, open, close)
  }

  /** No control sequence introducer (ESC "[", ECMA-48 section 5.4) starts before `n`. */
  predicate CsiFreeBefore(t: string, n: int)
  {
    forall i :: 0 <= i < n && i + 1 < |t| && t[i] == Esc ==> t[i + 1] != '['
  }

  predicate CsiFree(t: string)
  {
    CsiFreeBefore(t, |t|)
  }

  lemma CsiFreeSlice(s: string, i: nat, j: nat)
    requires CsiFree(s) && i <= j <= |s|
    ensures CsiFree(s[i..j])
  {
    assert forall k :: 0 <= k < j - i ==> s[i..j][k] == s[i + k];
  }

  /** Two CSI-free texts stay CSI-free when joined, unless an ESC meets a "[". */
  lemma CsiFreeConcat(a: string, b: string)
    requires CsiFree(a) && CsiFree(b)
    requires a == [] || b == [] || a[|a| - 1] != Esc || b[0] != '['
    ensures CsiFree(a + b)
  {
    var t := a + b;
    forall i | 0 <= i < |t| - 1 && t[i] == Esc ensures t[i + 1] != '['
    {
      if i + 1 < |a| {
        assert t[i] == a[i] && t[i + 1] == a[i + 1];
      } else if i + 1 == |a| {
        assert t[i] == a[i] && t[i + 1] == b[0];
      } else {
        assert t[i] == b[i - |a|] && t[i + 1] == b[i + 1 - |a|];
      }
    }
  }

  /** A CSI-free text followed by anything that does not start with "[". */
  lemma CsiFreeJoin(a: string, w: string)
    requires CsiFree(a) && (w == [] || w[0] != '[')
    ensures CsiFreeBefore(a + w, |a|)
  {
    var t := a + w;
    forall i | 0 <= i < |a| && i + 1 < |t| && t[i] == Esc ensures t[i + 1] != '['
    {
      if i + 1 < |a| {
        assert t[i] == a[i] && t[i + 1] == a[i + 1];
      } else {
        assert t[i + 1] == w[0];
      }
    }
  }

  /** Markers that cannot be confused with CSI-free text or with each other: both are led
      by a CSI, the closing one possibly after one other character. */
  predicate Markers(open: string, close: string)
  {
    |open| >= 2 && open[0] == Esc && open[1] == '['
    && |close| >= 2 && close[0] != '['
    && ((close[0] == Esc && close[1] == '[')
        || (|close| >= 3 && close[0] != Esc && close[1] == Esc && close[2] == '['
            && |open| >= |close| - 1 && !StartsWith(open, close[1..])))
    && !StartsWith(open, close) && !StartsWith(close, open)
  }

  /** An opening marker reads back as the delimiter. */
  lemma RestoreOpen(r: string, d: string, open: string, close: string)
    requires |open| > 0 && |close| > 0
    ensures Restore(open + r, d, open, close) == d + Restore(r, d, open, close)
  {
    assert (open + r)[..|open|] == open;
    assert (open + r)[|open|..] == r;
  }

  /** A closing marker reads back as the delimiter. */
  lemma RestoreClose(r: string, d: string, open: string, close: string)
    requires Markers(open, close)
    ensures Restore(close + r, d, open, close) == d + Restore(r, d, open, close)
  {
    var t := close + r;
    if |open| <= |close| {
      assert |open| <= |t| && t[..|open|] == close[..|open|];
    } else if |open| <= |t| {
      assert t[..|open|][..|close|] == close;
    }
    assert t[..|close|] == close;
    assert t[|close|..] == r;
  }

  /** A character that starts no marker reads back as itself. */
  lemma RestoreChar(c: char, r: string, d: string, open: string, close: string)
    requires |open| > 0 && |close| > 0
    requires !StartsWith([c] + r, open) && !StartsWith([c] + r, close)
    ensures Restore([c] + r, d, open, close) == [c] + Restore(r, d, open, close)
  {
    assert ([c] + r)[1..] == r;
  }

  /** Where no CSI starts in `a`, no marker starts at its first character. */
  lemma StartsNoMarker(a: string, w: string, open: string, close: string)
    requires Markers(open, close) && a != [] && CsiFreeBefore(a + w, |a|)
    requires close[0] != Esc ==> !StartsWith(w, close[1..])
    ensures !StartsWith(a + w, open) && !StartsWith(a + w, close)
  {
    var u := a + w;
    if |u| >= 2 {
      assert u[0] == Esc ==> u[1] != '[';
      assert |open| <= |u| ==> u[..|open|][0] == u[0] && u[..|open|][1] == u[1];
      assert |close| <= |u| ==> u[..|close|][0] == u[0] && u[..|close|][1] == u[1];
    }
    if close[0] != Esc && |close| <= |u| && u[0] == close[0] {
      if |a| == 1 {
        assert u[1..] == w;
        assert u[..|close|][1..] == w[..|close| - 1];
      } else if u[1] == Esc {
        assert u[2] != '[';
        assert u[..|close|][2] == u[2];
      }
    }
  }

  /** CSI-free text reads back as itself, provided it does not run into a closing marker
      that starts with a character other than ESC. */
  lemma {:induction false} RestorePassThrough(a: string, w: string, d: string, open: string, close: string)
    requires Markers(open, close) && CsiFreeBefore(a + w, |a|)
    requires close[0] != Esc ==> !StartsWith(w, close[1..])
    ensures Restore(a + w, d, open, close) == a + Restore(w, d, open, close)
    decreases |a|
  {
    if a == [] {
      assert a + w == w;
    } else {
      var t := a[1..] + w;
      assert a + w == [a[0]] + t;
      StartsNoMarker(a, w, open, close);
      RestoreChar(a[0], t, d, open, close);
      CsiFreeBeforeTail(a, w);
      RestorePassThrough(a[1..], w, d, open, close);
      assert [a[0]] + (a[1..] + Restore(w, d, open, close)) == a + Restore(w, d, open, close);
    }
  }

  lemma CsiFreeBeforeTail(a: string, w: string)
    requires a != [] && CsiFreeBefore(a + w, |a|)
    ensures CsiFreeBefore(a[1..] + w, |a| - 1)
  {
    var t := a[1..] + w;
    assert forall i :: 0 <= i < |t| ==> t[i] == (a + w)[i + 1];
  }

  /** Neither marker can be mistaken for the ESC-led rest of a closing marker that
      starts with another character. */
  lemma MarkersApart(r: string, d: string, open: string, close: string)
    requires Markers(open, close) && close[0] != Esc
    ensures !StartsWith(open + r, close[1..]) && !StartsWith(close + r, close[1..])
  {
    assert (open + r)[..|close| - 1] == open[..|close| - 1];
    assert |close| - 1 <= |close + r| ==> (close + r)[..|close| - 1][0] == close[0];
  }

  /** One replaced span reads back as the delimited text it came from. */
  lemma RestoreSpan(a: string, x: string, tail: string, d: string, open: string, close: string)
    requires Markers(open, close) && CsiFree(a) && CsiFree(x)
    ensures Restore(a + (open + (x + (close + tail))), d, open, close)
      == a + (d + (x + (d + Restore(tail, d, open, close))))
  {
    var w2 := close + tail;
    var w1 := open + (x + w2);
    if close[0] != Esc {
      MarkersApart(x + w2, d, open, close);
      MarkersApart(tail, d, open, close);
    }
    CsiFreeJoin(a, w1);
    CsiFreeJoin(x, w2);
    RestorePassThrough(a, w1, d, open, close);
    RestoreOpen(x + w2, d, open, close);
    RestorePassThrough(x, w2, d, open, close);
    RestoreClose(tail, d, open, close);
  }

  /** The round trip for a span, given the round trip for the text after it. */
  lemma RestoreAfterSpan(s: string, p: nat, q: nat, tail: string, t: string, d: string, open: string, close: string)
    requires Markers(open, close) && CsiFree(s) && IsSpan(s, d, p, q)
    requires Restore(tail, d, open, close) == s[q + |d|..]
    requires t == s[..p] + (open + (s[p + |d|..q] + (close + tail)))
    ensures Restore(t, d, open, close) == s
  {
    var a, x := s[..p], s[p + |d|..q];
    CsiFreeSlice(s, 0, p);
    CsiFreeSlice(s, p + |d|, q);
    assert s[0..p] == a;
    RestoreSpan(a, x, tail, d, open, close);
    assert s[q..] == s[q..q + |d|] + s[q + |d|..];
    assert s[p + |d|..] == s[p + |d|..q] + s[q..];
    assert s[p..] == s[p..p + |d|] + s[p + |d|..];
    assert s == s[..p] + s[p..];
  }

  /** The round trip for the first span, given the round trip for the text after it. */
  lemma RoundTripFirstSpan(s: string, d: string, open: string, close: string, sp: Span, t: string)
    requires Delimiter(d) && Markers(open, close) && CsiFree(s) && FindSpan(s, d) == Some(sp)
    requires Restore(Substitute(s[sp.close + |d|..], d, open, close), d, open, close)
      == s[sp.close + |d|..]
    requires t == Substitute(s, d, open, close)
    ensures Restore(t, d, open, close) == s
  {
    SubstituteAt(s, d, open, close, sp);
    RestoreAfterSpan(s, sp.open, sp.close, Substitute(s[sp.close + |d|..], d, open, close),
      t, d, open, close);
  }

  /** Reading the markers back gives the original text: the pass loses nothing and adds
      nothing but its markers (for CSI-free text). */
  lemma {:induction false} SubstituteRoundTrip(s: string, d: string, open: string, close: string)
    requires Delimiter(d) && Markers(open, close) && CsiFree(s)
    ensures Restore(Substitute(s, d, open, close), d, open, close) == s
    decreases |s|
  {
    match FindSpan(s, d)
    case None =>
      assert s + [] == s;
      RestorePassThrough(s, [], d, open, close);
    case Some(sp) =>
      CsiFreeSlice(s, sp.close + |d|, |s|);
      assert s[sp.close + |d|..|s|] == s[sp.close + |d|..];
      SubstituteRoundTrip(s[sp.close + |d|..], d, open, close);
      RoundTripFirstSpan(s, d, open, close, sp, Substitute(s, d, open, close));
  }

  lemma BoldRoundTrip(s: string)
    requires CsiFree(s)
    ensures Restore(BoldPass(s), "**", BoldOpen, BoldClose) == s
  {
    assert BoldOpen[1] == '[' && BoldOpen[2] == '1' && BoldClose[1] == '[' && BoldClose[2] == '0';
    assert Markers(BoldOpen, BoldClose);
    SubstituteRoundTrip(s, "**", BoldOpen, BoldClose);
  }

  lemma CodeRoundTrip(s: string)
    requires CsiFree(s)
    ensures Restore(CodePass(s), "`", CodeOpen, CodeClose) == s
  {
    assert CodeClose[1..] == Reset;
    assert CodeOpen[1] == '[' && CodeOpen[2] == '4' && Reset[1] == '[' && Reset[2] == '0';
    assert Markers(CodeOpen, CodeClose);
    SubstituteRoundTrip(s, "`", CodeOpen, CodeClose);
  }

  // ===========================================================================
  // Assembly (lines 78-85)

  /** `sep.join(parts)` */
  function Join(sep: string, parts: seq<string>): string
  {
    if parts == [] then "" else if |parts| == 1 then parts[0] else parts[0] + sep + Join(sep, parts[1..])
  }

  /** `ansiwrap.fill(_colorize(line)) + "\n"` for each line, in order. */
  function WrappedLines(lines: seq<string>, wrap: string -> string): (r: seq<string>)
    ensures |r| == |lines|
  {
    if lines == [] then [] else [wrap(Colorize(lines[0])) + "\n"] + WrappedLines(lines[1..], wrap)
  }

  /** A paragraph of lines L1..Lk gives fill(colorize(Li)) + "\n\n" for each i in order; a
      paragraph with no lines gives "\n". Either way the output ends in "\n". */
  function RenderParagraph(p: string, wrap: string -> string): (r: string)
    ensures r == if SplitLines(p) == [] then "\n" else Stanzas(SplitLines(p), wrap)
    ensures EndsWith(r, "\n")
  {
    var lines := SplitLines(p);
    if lines == [] then Join("\n", WrappedLines(lines, wrap)) + "\n"
    else
      JoinedStanzas(lines, wrap);
      Join("\n", WrappedLines(lines, wrap)) + "\n"
  }

  function RenderParagraphs(ps: seq<string>, wrap: string -> string): (r: seq<string>)
    ensures |r| == |ps|
  {
    if ps == [] then [] else [RenderParagraph(ps[0], wrap)] + RenderParagraphs(ps[1..], wrap)
  }

  /** The `answer` of `_format_section` for the text left after both loops; it always
      ends in "\n", since every paragraph contributes at least one. */
  function Assemble(text: string, wrap: string -> string): (r: string)
    ensures EndsWith(r, "\n")
  {
    var parts := RenderParagraphs(SplitParagraphs(text), wrap);
    RenderedParagraphsEndInNewline(SplitParagraphs(text), wrap);
    JoinEndsInNewline(parts);
    Join("", parts)
  }

  /** The reference layout of a paragraph: each wrapped line followed by a blank line. */
  function Stanzas(lines: seq<string>, wrap: string -> string): string
  {
    if lines == [] then "" else wrap(Colorize(lines[0])) + "\n\n" + Stanzas(lines[1..], wrap)
  }

  lemma {:induction false} JoinedStanzas(lines: seq<string>, wrap: string -> string)
    requires lines != []
    ensures Join("\n", WrappedLines(lines, wrap)) + "\n" == Stanzas(lines, wrap)
  {
    var w := wrap(Colorize(lines[0]));
    if |lines| == 1 {
      assert WrappedLines(lines, wrap) == [w + "\n"];
      assert Stanzas(lines, wrap) == w + "\n\n" + "";
    } else {
      var ws, ws' := WrappedLines(lines, wrap), WrappedLines(lines[1..], wrap);
      JoinedStanzas(lines[1..], wrap);
      assert ws == [w + "\n"] + ws' && ws[1..] == ws';
      var j := Join("\n", ws');
      assert Join("\n", ws) == w + "\n" + "\n" + j;
      assert Stanzas(lines, wrap) == w + "\n\n" + (j + "\n");
      NewlinesRegroup(w, j);
    }
  }

  lemma NewlinesRegroup(w: string, j: string)
    ensures (w + "\n" + "\n" + j) + "\n" == w + "\n\n" + (j + "\n")
  {
  }

  lemma {:induction false} JoinEndsInNewline(parts: seq<string>)
    requires parts != [] && forall k :: 0 <= k < |parts| ==> EndsWith(parts[k], "\n")
    ensures EndsWith(Join("", parts), "\n")
  {
    if |parts| > 1 {
      JoinEndsInNewline(parts[1..]);
      var j := Join("", parts[1..]);
      assert Join("", parts) == parts[0] + "" + j;
      assert (parts[0] + "" + j)[|parts[0] + "" + j| - 1..] == j[|j| - 1..];
    }
  }

  /** Paragraphs are rendered one by one, in order. */
  lemma {:induction false} RenderParagraphsEach(ps: seq<string>, wrap: string -> string)
    ensures forall k :: 0 <= k < |ps| ==> RenderParagraphs(ps, wrap)[k] == RenderParagraph(ps[k], wrap)
  {
    if ps != [] {
      RenderParagraphsEach(ps[1..], wrap);
      assert forall k :: 0 < k < |ps| ==> ps[1..][k - 1] == ps[k];
    }
  }

  lemma RenderedParagraphsEndInNewline(ps: seq<string>, wrap: string -> string)
    ensures forall k :: 0 <= k < |ps| ==> EndsWith(RenderParagraphs(ps, wrap)[k], "\n")
  {
    RenderParagraphsEach(ps, wrap);
  }

  /** Paragraphs are rendered in their original order: the first one, then the rest. */
  lemma AssembleInOrder(first: string, n: nat, rest: string, wrap: string -> string)
    requires n >= 2 && !HasBlankLine(first)
    requires first == [] || first[|first| - 1] != '\n'
    requires rest == [] || rest[0] != '\n'
    ensures Assemble(first + Newlines(n) + rest, wrap) == RenderParagraph(first, wrap) + Assemble(rest, wrap)
  {
    SplitAtRun(first, n, rest);
    var ps := SplitParagraphs(rest);
    RenderParagraphsCons(first, ps, wrap);
    JoinCons(RenderParagraph(first, wrap), RenderParagraphs(ps, wrap));
  }

  lemma RenderParagraphsCons(p: string, ps: seq<string>, wrap: string -> string)
    ensures RenderParagraphs([p] + ps, wrap) == [RenderParagraph(p, wrap)] + RenderParagraphs(ps, wrap)
  {
    assert ([p] + ps)[1..] == ps;
  }

  lemma JoinCons(head: string, tail: seq<string>)
    requires tail != []
    ensures Join("", [head] + tail) == head + Join("", tail)
  {
    assert ([head] + tail)[1..] == tail;
    assert head + "" == head;
  }

  // ===========================================================================
  // The entry points (lines 14-20, 41-89)

  /** The record `_format_section` returns: exactly the keys "ansi" and "links". */
  datatype Rendered = Rendered(ansi: string, links: seq<string>)

  /** What `format_text` returns for `text`, given the wrapper `wrap`: `ansi` ends in
      "\n", and the links are recorded link texts, at most one per "(" of the input. */
  function Render(text: string, wrap: string -> string): (r: Rendered)
    ensures EndsWith(r.ansi, "\n")
    ensures |r.links| <= Count(text, '(')
    ensures forall k :: 0 <= k < |r.links| ==> LinkText(r.links[k])
  {
    var blocks := ElideBlocks(text, 0).0;
    var linked := RewriteLinks(blocks);
    Rendered(Assemble(linked.0, wrap), linked.1)
  }

  method FormatSection(text: string, wrap: string -> string) returns (r: Rendered)
    ensures r == Render(text, wrap)
    ensures EndsWith(r.ansi, "\n")
  {
    var sectionText, blocks := CutCodeBlocks(text);
    var rewritten, links := CutLinks(sectionText);
    var answer := Join("", RenderParagraphs(SplitParagraphs(rewritten), wrap));
    assert answer == Assemble(rewritten, wrap);
    r := Rendered(answer, links);
  }

  method FormatText(text: string, wrap: string -> string) returns (r: Rendered)
    ensures r == Render(text, wrap)
    ensures EndsWith(r.ansi, "\n")
  {
    r := FormatSection(text, wrap);
  }

  /** Empty input renders as a single "\n" with no links. */
  lemma RenderEmpty(wrap: string -> string)
    ensures Render("", wrap) == Rendered("\n", [])
  {
    assert FindBlock("").None?;
    assert FindLink("").None?;
    assert SplitParagraphs("") == [""];
    assert SplitLines("") == [];
  }

  /** Without a fence pair and without a link match, no link is recorded and the text
      reaches assembly unchanged. */
  lemma RenderPlain(text: string, wrap: string -> string)
    requires forall p, q :: !IsBlock(text, p, q)
    requires forall i, d, e :: !IsLinkMatch(text, i, d, e)
    ensures Render(text, wrap) == Rendered(Assemble(text, wrap), [])
  {
    ElideBlocksUntouched(text, 0);
  }

  /** A fenced block followed by text: the placeholder MULTILINE_BLOCK_0 and the text
      reach assembly, the block content does not, and no link is recorded. */
  lemma RenderSingleBlock(content: string, after: string, wrap: string -> string)
    requires '`' !in content && '`' !in after && '[' !in after
    ensures Render("```" + content + "\n```" + after, wrap)
      == Rendered(Assemble(Placeholder(0) + after, wrap), [])
  {
    SingleBlock(content, after);
    PlaceholderShape(0);
    NoBracketNoLink(Placeholder(0) + after);
  }

  /** A text with one link and no fence: the link is recorded as written and the
      hyperlink stands in its place. */
  lemma RenderSingleLink(before: string, display: string, url: string, after: string, wrap: string -> string)
    requires '[' !in before && '[' !in display && '[' !in url && '[' !in after
    requires '`' !in before && '`' !in display && '`' !in url && '`' !in after
    requires ']' !in display && ')' !in url
    requires '\n' !in display && '\n' !in url
    ensures Render(before + "[" + display + "](" + url + ")" + after, wrap)
      == Rendered(Assemble(before + Osc8 + url + St + display + Osc8 + St + after, wrap),
                  ["[" + display + "](" + url + ")"])
  {
    var s := before + "[" + display + "](" + url + ")" + after;
    NoBacktickNoBlock(s);
    ElideBlocksUntouched(s, 0);
    SingleLink(before, display, url, after);
  }
}

/** The four regular-expression searches of lib/fmt/markdown.py, each written as the
    search Python's `re` engine performs (try every start position from the left, then
    extend the lazy `.*?` one character at a time) and each specified independently of
    that search: a predicate describes every match of the pattern, and the search returns
    the lexicographically least one (leftmost start, then shortest lazy groups) or None
    exactly when no match exists.

    - `^```.*?^```` with re.S | re.M      : IsBlock, FindBlock
    - `\*\*(.*?)\*\*` and `` `(.*?)` ``   : IsSpan, FindSpan (one definition, delimiter `d`)
    - `\[(.*?)\]\((.*?)\)`                : IsLinkMatch, FindLink
*/
module MarkdownPatterns {
  import opened Strings

  /** No line feed anywhere in s[a..b]: `.` without re.S does not match "\n". */
  predicate NoNewline(s: string, a: int, b: int)
  {
    forall k :: a <= k < b ==> 0 <= k < |s| && s[k] != '\n'
  }

  /** `d` occurs in `s` at position `j`. */
  predicate Occurs(s: string, d: string, j: int)
  {
    0 <= j && j + |d| <= |s| && s[j..j + |d|] == d
  }

  /** A delimiter the lazy-group searches accept: non-empty and not starting with "\n". */
  predicate Delimiter(d: string)
  {
    |d| > 0 && d[0] != '\n'
  }

  /** Positions found by a search: the opening and closing delimiter positions. */
  datatype Span = Span(open: nat, close: nat)

  /** True when `a` comes before `b` in lexicographic order of (open, close). */
  predicate SpanLe(a: Span, p: int, q: int)
  {
    a.open < p || (a.open == p && a.close <= q)
  }

  // ---------------------------------------------------------------------------
  // Fenced blocks: `^```.*?^```` with re.S | re.MULTILINE

  /** A "```" that starts a line: at the start of the text or right after "\n". */
  predicate IsFence(s: string, i: int)
  {
    Occurs(s, "```", i) && (i == 0 || s[i - 1] == '\n')
  }

  /** Every match of the block pattern: a line-start fence at `p` and a later one at `q`
      (any characters in between, newlines included); the match is s[p..q + 3]. */
  predicate IsBlock(s: string, p: int, q: int)
  {
    IsFence(s, p) && IsFence(s, q) && p + 3 <= q
  }

  /** The first line-start fence at or after `i`. */
  function FirstFence(s: string, i: nat): (r: Option<nat>)
    ensures r.Some? ==> i <= r.value && IsFence(s, r.value)
    ensures forall j :: i <= j && IsFence(s, j) ==> r.Some? && r.value <= j
    decreases |s| - i
  {
    if i + 3 > |s| then None
    else if IsFence(s, i) then Some(i)
    else FirstFence(s, i + 1)
  }

  /** The match `re.subn('^```.*?^```', ..., 1, flags=re.S | re.M)` replaces. */
  function FindBlock(s: string): (r: Option<Span>)
    ensures r.Some? ==> IsBlock(s, r.value.open, r.value.close)
    ensures r.Some? ==> forall p, q :: IsBlock(s, p, q) ==> SpanLe(r.value, p, q)
    ensures r.None? <==> forall p, q :: !IsBlock(s, p, q)
  {
    match FirstFence(s, 0)
    case None => None
    case Some(p) =>
      match FirstFence(s, p + 3)
      case None => None
      case Some(q) =>
        assert IsBlock(s, p, q);
        Some(Span(p, q))
  }

  // ---------------------------------------------------------------------------
  // Delimited spans: `d(.*?)d` for d = "**" (bold) and d = "`" (inline code)

  /** Every match of `d(.*?)d`: the inner text s[i + |d|..j] holds no "\n". */
  predicate IsSpan(s: string, d: string, i: int, j: int)
  {
    Occurs(s, d, i) && i + |d| <= j && Occurs(s, d, j) && NoNewline(s, i + |d|, j)
  }

  /** The lazy `(.*?)` followed by `d`: the first `d` at or after `k` on the same line. */
  function FindClose(s: string, d: string, k: nat): (r: Option<nat>)
    requires Delimiter(d)
    ensures r.Some? ==> k <= r.value && Occurs(s, d, r.value) && NoNewline(s, k, r.value)
    ensures forall j :: k <= j && Occurs(s, d, j) && NoNewline(s, k, j) ==> r.Some? && r.value <= j
    decreases |s| - k
  {
    if k + |d| > |s| then None
    else if s[k..k + |d|] == d then Some(k)
    else if s[k] == '\n' then None
    else FindClose(s, d, k + 1)
  }

  function FindSpanFrom(s: string, d: string, i: nat): (r: Option<Span>)
    requires Delimiter(d)
    ensures r.Some? ==> i <= r.value.open && IsSpan(s, d, r.value.open, r.value.close)
    ensures forall p, q :: i <= p && IsSpan(s, d, p, q) ==> r.Some? && SpanLe(r.value, p, q)
    decreases |s| - i
  {
    if i + |d| > |s| then None
    else if s[i..i + |d|] == d && FindClose(s, d, i + |d|).Some? then
      Some(Span(i, FindClose(s, d, i + |d|).value))
    else FindSpanFrom(s, d, i + 1)
  }

  /** The leftmost, shortest match of `d(.*?)d`, the one `re.sub` replaces first. */
  function FindSpan(s: string, d: string): (r: Option<Span>)
    requires Delimiter(d)
    ensures r.Some? ==> IsSpan(s, d, r.value.open, r.value.close)
    ensures r.Some? ==> forall p, q :: IsSpan(s, d, p, q) ==> SpanLe(r.value, p, q)
    ensures r.None? <==> forall p, q :: !IsSpan(s, d, p, q)
  {
    FindSpanFrom(s, d, 0)
  }

  // ---------------------------------------------------------------------------
  // Links: `\[(.*?)\]\((.*?)\)`

  /** Every match of the link pattern: "[" at `i`, "](" at `d`, ")" at `e`, all on one
      line; display text s[i + 1..d], url s[d + 2..e], whole match s[i..e + 1]. */
  predicate IsLinkMatch(s: string, i: int, d: int, e: int)
  {
    0 <= i < d && d + 2 <= e < |s|
    && s[i] == '[' && s[d] == ']' && s[d + 1] == '(' && s[e] == ')'
    && NoNewline(s, i, e + 1)
  }

  datatype LinkMatch = LinkMatch(start: nat, sep: nat, stop: nat)

  predicate LinkLe(m: LinkMatch, i: int, d: int, e: int)
  {
    m.start < i || (m.start == i && (m.sep < d || (m.sep == d && m.stop <= e)))
  }

  /** The parts of a link match, as occurrences the lazy searches look for. */
  lemma LinkMatchParts(s: string)
    ensures forall i, d, e :: IsLinkMatch(s, i, d, e) ==>
      Occurs(s, "](", d) && NoNewline(s, i + 1, d) && Occurs(s, ")", e) && NoNewline(s, d + 2, e)
  {
    forall i, d, e | IsLinkMatch(s, i, d, e)
      ensures Occurs(s, "](", d) && Occurs(s, ")", e)
    {
      assert s[d..d + 2] == "](";
      assert s[e..e + 1] == ")";
    }
  }

  /** The link match the engine finds once "[" at `i` and the first "](" on its line, at
      `d`, are fixed: the shortest url on the same line. */
  function LinkWithSep(s: string, i: nat, d: nat): (r: Option<LinkMatch>)
    requires i < d && Occurs(s, "](", d) && s[i] == '[' && NoNewline(s, i + 1, d)
    ensures r.Some? ==> r.value.start == i && r.value.sep == d && IsLinkMatch(s, i, d, r.value.stop)
    ensures forall e :: IsLinkMatch(s, i, d, e) ==> r.Some? && r.value.stop <= e
  {
    LinkMatchParts(s);
    assert s[d] == s[d..d + 2][0] && s[d + 1] == s[d..d + 2][1];
    match FindClose(s, ")", d + 2)
    case None => None
    case Some(e) =>
      assert s[e] == s[e..e + 1][0];
      Some(LinkMatch(i, d, e))
  }

  /** The link match the engine finds when it starts at `i`: shortest display text, then
      shortest url. When the first "](" on the line has no ")" after it on the line, no
      longer display text can help either, so the engine gives up on `i`. */
  function LinkAt(s: string, i: nat): (r: Option<LinkMatch>)
    ensures r.Some? ==> r.value.start == i && IsLinkMatch(s, i, r.value.sep, r.value.stop)
    ensures forall d, e :: IsLinkMatch(s, i, d, e) ==> r.Some? && LinkLe(r.value, i, d, e)
  {
    LinkMatchParts(s);
    if i < |s| && s[i] == '[' then
      match FindClose(s, "](", i + 1)
      case None => None
      case Some(d) => LinkWithSep(s, i, d)
    else None
  }

  function FindLinkFrom(s: string, i: nat): (r: Option<LinkMatch>)
    ensures r.Some? ==> i <= r.value.start && IsLinkMatch(s, r.value.start, r.value.sep, r.value.stop)
    ensures forall p, d, e :: i <= p && IsLinkMatch(s, p, d, e) ==> r.Some? && LinkLe(r.value, p, d, e)
    decreases |s| - i
  {
    if i >= |s| then None
    else
      match LinkAt(s, i)
      case Some(m) => Some(m)
      case None => FindLinkFrom(s, i + 1)
  }

  /** The leftmost link match with the shortest display text and then the shortest url:
      the match `regexp.search` returns and `regexp.subn(..., 1)` replaces. */
  function FindLink(s: string): (r: Option<LinkMatch>)
    ensures r.Some? ==> IsLinkMatch(s, r.value.start, r.value.sep, r.value.stop)
    ensures r.Some? ==> forall i, d, e :: IsLinkMatch(s, i, d, e) ==> LinkLe(r.value, i, d, e)
    ensures r.None? <==> forall i, d, e :: !IsLinkMatch(s, i, d, e)
  {
    FindLinkFrom(s, 0)
  }

  // ---------------------------------------------------------------------------
  // Texts without the pattern's first character have no match

  lemma NoBacktickNoBlock(s: string)
    requires '`' !in s
    ensures forall p, q :: !IsBlock(s, p, q)
  {
    forall p | 0 <= p < |s| ensures !Occurs(s, "```", p)
    {
      assert s[p] in s;
    }
  }

  lemma NoDelimiterNoSpan(s: string, d: string)
    requires Delimiter(d) && d[0] !in s
    ensures forall p, q :: !IsSpan(s, d, p, q)
  {
    forall p | 0 <= p < |s| ensures !Occurs(s, d, p)
    {
      assert s[p] in s;
    }
  }

  lemma NoBracketNoLink(s: string)
    requires '[' !in s
    ensures forall i, d, e :: !IsLinkMatch(s, i, d, e)
  {
  }
}

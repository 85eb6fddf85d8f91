# cheat.sh: markdown renderer and command adapters, modelled in Dafny

This project models two parts of cheat.sh, the cheat-sheet server.

**The markdown renderer** is `format_text` / `_format_section` in `lib/fmt/markdown.py`. It turns a
markdown answer into the record `{ansi, links}` in four steps:

1. **Fenced code blocks are elided.**
   - A block runs from a "```" at the start of a line to the next "```" at the start of a later line.
   - Each block, leftmost first, is replaced by `MULTILINE_BLOCK_<n>`, numbered from 0.
   - The block's content is dropped.
2. **Links are rewritten.**
   - Each `[display](url)`, leftmost first, is replaced by an OSC 8 terminal hyperlink: the OSC control function of ECMA-48 section 8.3.89, closed by ST of section 8.3.143.
   - The raw text of each match is recorded in `links`.
3. **Paragraphs are split.** The text is split at runs of two or more newlines.
4. **Lines are styled and assembled.** Each line of each paragraph is styled: `**bold**` and `` `code` `` become SGR sequences (ECMA-48 section 8.3.117). The line is then wrapped, followed by a newline, and the pieces are concatenated.

**The command adapters** are in `lib/adapter/cmd.py`. They answer a query by running an external program. The model covers:

- which topics the RFC adapter claims (`is_found`);
- the page list the RFC adapter advertises (`_get_list`);
- the argument vector the RFC adapter builds (`_get_command`), which it derives from a copy of its command list;
- the argument vector that `Translation._get_page` builds from a `from[-to]/text` topic;
- the empty-command branch of `CommandAdapter._get_page`.

`Translation._get_page` returns the argument vector itself as the page. It does not run the program. The model keeps that behaviour.

## How the pieces are modelled

**Regular expressions.** Each regular expression is a search written the way Python's `re` engine runs it: try each start from the left, then extend the lazy `.*?` one character at a time. Each search is also specified independently of that procedure:

- a predicate describes every match of the pattern (`IsBlock`, `IsSpan`, `IsLinkMatch`);
- the search returns the lexicographically least match, or nothing exactly when no match exists.

**The two `while True` loops** of `_format_section` are methods: `CutCodeBlocks` and `CutLinks`.

- Each loop is proved equal to a specification function: `ElideBlocks` and `RewriteLinks`.
- The block loop terminates because each turn removes at least six backticks.
- The link loop terminates because each turn removes exactly one "(".
- The properties of the loops are lemmas about the specification functions.

**The styling passes** are `Substitute` (`re.sub` of `d(.*?)d`). Their partner is the reference function `Restore`, which reads the markers back as delimiters.

- `SubstituteRoundTrip` shows that a pass loses no text, for CSI-free text: text with no ESC followed by "[".
- `SubstituteChanges` shows that a pass changes the text exactly when the text holds a span, so the identity does not satisfy both.

**Wrapping.** `ansiwrap.fill` is the function parameter `wrap` and is left unspecified.

**Errors.** The Python exceptions the adapters raise (`IndexError`, `ValueError`, `AttributeError`) are `Err` values.

Files:

- `strings.dfy` (module `Strings`): character counts, prefixes, decimal rendering, `split(c, 1)` and `replace`.
- `markdown_patterns.dfy` (module `MarkdownPatterns`): the regular-expression searches.
- `markdown_layout.dfy` (module `MarkdownLayout`): `re.split('\n\n+')` and `str.splitlines`.
- `markdown.dfy` (module `Markdown`): the renderer.
- `cmd.dfy` (module `CmdAdapter`): the command adapters.

## Model

| member | source | states |
|---|---|---|
| Strings.Decimal | lib/fmt/markdown.py:48 | the decimal text of a number is non-empty, all digits, without a leading zero |
| Strings.DecimalRoundTrip | lib/adapter/cmd.py:111 | reading the printed number back gives the number |
| Strings.DecimalInjective | lib/fmt/markdown.py:48 | different numbers print differently |
| Strings.LeadingDigitPositive | lib/adapter/cmd.py:111 | a digit string with a nonzero leading digit has value at least 1 |
| Strings.DecimalOfValue | lib/adapter/cmd.py:111 | every digit string without a leading zero is the print of its value |
| Strings.SplitOnce | lib/adapter/cmd.py:79 | `split(c, 1)` fails to give two parts exactly when `c` is absent; otherwise first part + c + rest is the input and the first part holds no `c` |
| Strings.SplitOnceAt | lib/adapter/cmd.py:79-82 | the split is at the first `c`; later occurrences stay in the rest |
| Strings.ReplaceChar | lib/adapter/cmd.py:85 | same length; every `+` becomes a space and every other character is kept |
| MarkdownPatterns.FirstFence | lib/fmt/markdown.py:47 | the first "```" at a line start at or after a position, or none exists |
| MarkdownPatterns.FindBlock | lib/fmt/markdown.py:46-51 | the block found is a match (two line-start fences, any text between) and the least one; none exactly when there is no match |
| MarkdownPatterns.FindClose | lib/fmt/markdown.py:60 | the lazy group stops at the first delimiter on the same line, and none exists when the line ends first |
| MarkdownPatterns.FindSpanFrom | lib/fmt/markdown.py:34 | the span found from a position is a match and precedes every match starting there or later |
| MarkdownPatterns.FindSpan | lib/fmt/markdown.py:27-39 | the leftmost, shortest `d(.*?)d` on one line; none exactly when there is no match |
| MarkdownPatterns.LinkMatchParts | lib/fmt/markdown.py:60 | every link match consists of a "](" and a ")" on the line of its "[" |
| MarkdownPatterns.LinkWithSep | lib/fmt/markdown.py:60 | with "[" and the first "](" fixed, the shortest url, or none when no url ends on the line |
| MarkdownPatterns.LinkAt | lib/fmt/markdown.py:60 | the least match starting at a position, or none exists there |
| MarkdownPatterns.FindLinkFrom | lib/fmt/markdown.py:60-61 | the least match starting at or after a position |
| MarkdownPatterns.FindLink | lib/fmt/markdown.py:60-61 | `regexp.search` returns the leftmost match with shortest display and url; none exactly when there is no match |
| MarkdownPatterns.NoBacktickNoBlock | lib/fmt/markdown.py:46-51 | a text without backticks has no block match |
| MarkdownPatterns.NoDelimiterNoSpan | lib/fmt/markdown.py:27-39 | a text without the delimiter's character has no span match |
| MarkdownPatterns.NoBracketNoLink | lib/fmt/markdown.py:60-61 | a text without "[" has no link match |
| MarkdownLayout.FindBlankRun | lib/fmt/markdown.py:23 | the first "\n\n" at or after a position |
| MarkdownLayout.RunEnd | lib/fmt/markdown.py:23 | the greedy `\n\n+` takes every newline of the run |
| MarkdownLayout.SplitParagraphs | lib/fmt/markdown.py:22-23 | there is at least one paragraph, and exactly one when the text holds no "\n\n" |
| MarkdownLayout.FirstRun | lib/fmt/markdown.py:23 | the first cut: the text before it has no blank line and does not end in "\n"; the run is maximal and at least two long |
| MarkdownLayout.FirstRunCut | lib/fmt/markdown.py:23 | the text is the first paragraph, the newline run, and the rest |
| MarkdownLayout.FirstParagraphPrefix | lib/fmt/markdown.py:22-23 | there is at least one paragraph and the first is a prefix of the text |
| MarkdownLayout.ParagraphsWeave | lib/fmt/markdown.py:22-23 | one paragraph more than separators; paragraphs and separators woven in order give back the text |
| MarkdownLayout.ParagraphGapsLong | lib/fmt/markdown.py:23 | every separator is at least two newlines |
| MarkdownLayout.ParagraphsUnbroken | lib/fmt/markdown.py:22-23 | no paragraph contains "\n\n" |
| MarkdownLayout.ParagraphsStartTrimmed | lib/fmt/markdown.py:23 | no paragraph after the first starts with "\n" |
| MarkdownLayout.ParagraphsEndTrimmed | lib/fmt/markdown.py:23 | no paragraph before the last ends with "\n" |
| MarkdownLayout.ParagraphsInnerNonEmpty | lib/fmt/markdown.py:23 | every paragraph between two newline runs is non-empty: a run takes all of its newlines |
| MarkdownLayout.ParagraphsPartition | lib/fmt/markdown.py:22-23 | the split partitions the text into paragraphs and runs of two or more newlines; no paragraph holds "\n\n", none next to a run starts or ends with "\n", so the runs are maximal, and every paragraph between two runs is non-empty |
| MarkdownLayout.PartitionUnique | lib/fmt/markdown.py:22-23 | any cut of the text with those properties is the split itself: paragraphs and runs are determined |
| MarkdownLayout.SplitAtRun | lib/fmt/markdown.py:22-23 | a paragraph, a run of two or more newlines and a rest split into that paragraph followed by the rest's paragraphs |
| MarkdownLayout.LineEnd | lib/fmt/markdown.py:81 | the first line boundary `splitlines` recognises at or after a position |
| MarkdownLayout.SplitLines | lib/fmt/markdown.py:81 | no lines exactly when the paragraph is empty, and never more lines than characters |
| MarkdownLayout.FirstBreak | lib/fmt/markdown.py:81 | the boundary at a boundary character is a line terminator, and it is "\r\n" exactly when that character is "\r" followed by "\n" |
| MarkdownLayout.BeforeLineEnd | lib/fmt/markdown.py:81 | no boundary character occurs before the first boundary |
| MarkdownLayout.FirstLine | lib/fmt/markdown.py:81 | the first cut is a boundary-free line followed by one boundary |
| MarkdownLayout.LinesRejoin | lib/fmt/markdown.py:81 | the lines with their boundaries give back the paragraph |
| MarkdownLayout.LinesUnbroken | lib/fmt/markdown.py:81 | no line holds a boundary character |
| MarkdownLayout.LinesTerminated | lib/fmt/markdown.py:81 | every line but the last was ended by a boundary |
| MarkdownLayout.LastLineTerminated | lib/fmt/markdown.py:81 | the last line was ended by a boundary or is non-empty: no trailing empty line |
| MarkdownLayout.LinesCrLf | lib/fmt/markdown.py:81 | a "\r" boundary is never followed by an empty line ended by "\n": "\r\n" is one boundary |
| MarkdownLayout.LinesPartition | lib/fmt/markdown.py:81 | `splitlines` partitions the paragraph, with all of the properties above, and "\r\n" is one boundary, never a "\r" and a "\n" around an empty line |
| Markdown.Hyperlink | lib/fmt/markdown.py:69-73 | a terminal reading the hyperlink back (`ReadHyperlink`) gets the url as the target and the display text as the visible text, for ESC-free url and display, so the two are never swapped; the hyperlink adds no character other than those of its escape sequences, and none of those sequences is a CSI |
| Markdown.HyperlinkRead | lib/fmt/markdown.py:69-73 | OSC 8 + url + ST + display + OSC 8 + ST reads back as the pair (url, display) when neither holds ESC |
| Markdown.Placeholder | lib/fmt/markdown.py:48 | "MULTILINE_BLOCK_" followed by digits without a leading zero that read back as the block number |
| Markdown.PlaceholderShape | lib/fmt/markdown.py:48 | a placeholder starts with "M" and ends in a digit, and holds no backtick, newline, "[" or "(" |
| Markdown.PlaceholderUnique | lib/fmt/markdown.py:48 | different block numbers give different placeholders |
| Markdown.SpliceCount | lib/fmt/markdown.py:46-51 | cutting a fenced match and splicing in a backtick-free token drops at least six backticks |
| Markdown.BlockSubn | lib/fmt/markdown.py:46-52 | at most one replacement, none exactly when there is no block; without one the text is unchanged; with one, the text before the block, the placeholder and the text after the closing fence, nothing else; a replacement drops at least six backticks; no "(" is added and CSI-free text stays CSI-free |
| Markdown.ElideBlocks | lib/fmt/markdown.py:45-55 | the loop stops only when no block is left; the number of blocks is at most a sixth of the backticks; none exactly when the input has no block, and then the text is unchanged; no "(" is added and CSI-free text stays CSI-free |
| Markdown.CutCodeBlocks | lib/fmt/markdown.py:43-55 | the block loop's final text and replacement count are those of `ElideBlocks` |
| Markdown.SpliceNoFence | lib/fmt/markdown.py:46-51 | a backtick-free token not ending in "\n" creates no line-start fence |
| Markdown.NoFenceBefore | lib/fmt/markdown.py:46-51 | no line-start fence precedes the first block's opening fence |
| Markdown.NoFenceThroughPlaceholder | lib/fmt/markdown.py:46-51 | after a replacement no fence starts before the end of the placeholder |
| Markdown.NextBlockAfterPlaceholder | lib/fmt/markdown.py:45-55 | the next replacement starts after the placeholder just inserted |
| Markdown.ElideBlocksKeepsPrefix | lib/fmt/markdown.py:45-55 | text before the first line-start fence is never changed by the loop |
| Markdown.PlaceholderInPlace | lib/fmt/markdown.py:45-55 | the k-th replacement leaves MULTILINE_BLOCK_k right after the untouched text before its block, for good: placeholders appear left to right in increasing order |
| Markdown.ElideBlocksUntouched | lib/fmt/markdown.py:45-55 | without a fence pair, a lone fence included, the text is unchanged and nothing is counted |
| Markdown.OnlyTwoFences | lib/fmt/markdown.py:47 | the fences of a block written out are exactly its opening and closing fences |
| Markdown.SingleBlock | lib/fmt/markdown.py:45-55 | a fenced block with its info string and content becomes MULTILINE_BLOCK_0, and text after the closing fence on its line is kept |
| Markdown.MatchPieces | lib/fmt/markdown.py:65 | the recorded match is "[" + display + "](" + url + ")" |
| Markdown.LinkSubn | lib/fmt/markdown.py:69-73 | the rewrite keeps the text before and after the match, puts exactly the hyperlink of the match's url and display in its place, and removes exactly one "(" (the termination measure of the link loop); CSI-free text stays CSI-free |
| Markdown.RewriteLinks | lib/fmt/markdown.py:57-76 | the loop stops only when no match is left; the number of recorded links is the number of "(" used up; every record has the form "[...)"; CSI-free text stays CSI-free |
| Markdown.CutLinks | lib/fmt/markdown.py:57-76 | the link loop's final text and recorded links are those of `RewriteLinks` |
| Markdown.RewriteLinksKeepsPrefix | lib/fmt/markdown.py:70-73 | text that no match reaches into is left unchanged by all later rewrites |
| Markdown.FirstLinkInPlace | lib/fmt/markdown.py:61-73 | the first recorded link is the leftmost match, and the text before it reaches the output unchanged |
| Markdown.OnlyLink | lib/fmt/markdown.py:60-61 | in a text with one "[" the search finds the link written there |
| Markdown.LinkPieces | lib/fmt/markdown.py:65-69 | prefix, display, url, suffix and match text of a link written out |
| Markdown.RewriteOnce | lib/fmt/markdown.py:59-76 | a rewrite that leaves no "[" ends the loop with one recorded link |
| Markdown.SingleLink | lib/fmt/markdown.py:57-76 | one `[display](url)`: recorded as written and replaced in place by ESC]8;; url ESC\ display ESC]8;; ESC\, written out |
| Markdown.Substitute | lib/fmt/markdown.py:27-39 | a pass adds no character that is in neither the text nor the markers (that it replaces every span is `SubstituteLeavesNoSpan`) |
| Markdown.SubstituteChanges | lib/fmt/markdown.py:27-39 | a pass changes the text exactly when the text holds a span |
| Markdown.BoldPass | lib/fmt/markdown.py:33-38 | the bold pass changes a line exactly when it holds a `**text**` span, and leaves no such span |
| Markdown.CodePass | lib/fmt/markdown.py:27-32 | the inline-code pass changes a line exactly when it holds a `` `text` `` span, and leaves no such span |
| Markdown.Colorize | lib/fmt/markdown.py:25-39 | the styled line holds no `**text**` and no `` `text` `` span; a line without "*" gets only the code pass, one without a backtick only the bold pass, and one with neither is returned unchanged |
| Markdown.ColorizeLeavesNoBold | lib/fmt/markdown.py:25-39 | the code pass that follows the bold pass creates no `**text**` span |
| Markdown.OccursBesideMarker | lib/fmt/markdown.py:27-39 | a delimiter occurrence never overlaps a marker sharing no character with it |
| Markdown.NoSpanStep | lib/fmt/markdown.py:27-39 | after the first span is marked and the rest holds no span, the whole text holds none |
| Markdown.NoSpanBefore | lib/fmt/markdown.py:27-39 | a span before the first one found would be a span of the original text before it |
| Markdown.NoSpanInside | lib/fmt/markdown.py:27-39 | no delimiter occurs inside the span found |
| Markdown.NoSpanAfter | lib/fmt/markdown.py:27-39 | a span in the substituted rest is a span of the rest |
| Markdown.SubstituteLeavesNoSpan | lib/fmt/markdown.py:27-39 | `re.sub` replaces every span, not just the first: none is left when the markers share no character with the delimiter |
| Markdown.MarkerKeepsNoSpan | lib/fmt/markdown.py:25-39 | putting a marker in place of one delimiter creates no span of another delimiter |
| Markdown.KeepsNoSpanStep | lib/fmt/markdown.py:25-39 | marking one span creates no span of another delimiter |
| Markdown.KeepsNoSpanJoin | lib/fmt/markdown.py:27-39 | the substituted text is the marked first span followed by the substituted rest |
| Markdown.SubstituteKeepsNoSpan | lib/fmt/markdown.py:25-39 | a pass creates no span of a delimiter its markers share no character with |
| Markdown.OnlySpan | lib/fmt/markdown.py:27-39 | in a line with one pair of delimiters the search finds the span written there |
| Markdown.SingleBold | lib/fmt/markdown.py:33-38 | `**text**` becomes bold + white + text + reset, with the rest of the line kept |
| Markdown.SingleCode | lib/fmt/markdown.py:27-32 | `` `text` `` becomes dark-gray background + white + space + text + space + reset, with the rest of the line kept |
| Markdown.RestoreClose | lib/fmt/markdown.py:25-39 | a closing marker reads back as the delimiter |
| Markdown.RestorePassThrough | lib/fmt/markdown.py:25-39 | CSI-free text reads back as itself |
| Markdown.RestoreSpan | lib/fmt/markdown.py:25-39 | a replaced span reads back as the delimited text |
| Markdown.RestoreAfterSpan | lib/fmt/markdown.py:25-39 | the round trip for one span, given the round trip for the text after it |
| Markdown.RoundTripFirstSpan | lib/fmt/markdown.py:25-39 | the round trip for the first span found, given the round trip for the rest |
| Markdown.SubstituteRoundTrip | lib/fmt/markdown.py:25-39 | for CSI-free text, reading the markers back gives the original text: a pass keeps every character and adds only markers |
| Markdown.BoldRoundTrip | lib/fmt/markdown.py:33-38 | the bold pass loses nothing from CSI-free text |
| Markdown.CodeRoundTrip | lib/fmt/markdown.py:27-32 | the inline-code pass loses nothing from CSI-free text |
| Markdown.WrappedLines | lib/fmt/markdown.py:79-82 | one wrapped output per line |
| Markdown.RenderParagraph | lib/fmt/markdown.py:79-83 | a paragraph with lines L1..Lk gives fill(colorize(Li)) + "\n\n" for each i in order; one with no lines gives "\n"; the output always ends in "\n" |
| Markdown.RenderParagraphs | lib/fmt/markdown.py:78-85 | one output per paragraph |
| Markdown.JoinedStanzas | lib/fmt/markdown.py:79-83 | joining the wrapped lines with "\n" and adding "\n" gives each wrapped line followed by "\n\n" |
| Markdown.JoinEndsInNewline | lib/fmt/markdown.py:78 | concatenating outputs that each end in "\n" gives a text ending in "\n" |
| Markdown.RenderParagraphsEach | lib/fmt/markdown.py:78-85 | the k-th output is the rendering of the k-th paragraph |
| Markdown.RenderedParagraphsEndInNewline | lib/fmt/markdown.py:78-85 | every paragraph output ends in "\n" |
| Markdown.AssembleInOrder | lib/fmt/markdown.py:78-85 | paragraphs are rendered in their original order |
| Markdown.Assemble | lib/fmt/markdown.py:78-85 | `ansi` always ends in "\n" |
| Markdown.Render | lib/fmt/markdown.py:41-89 | `ansi` ends in "\n"; there are at most as many links as "(" in the input, each a recorded link text |
| Markdown.FormatSection | lib/fmt/markdown.py:41-89 | the method's record is the specified `Render` of the input and its `ansi` ends in "\n" |
| Markdown.FormatText | lib/fmt/markdown.py:14-20 | `format_text` is `_format_section` |
| Markdown.RenderEmpty | lib/fmt/markdown.py:41-89 | empty input renders as "\n" with no links |
| Markdown.RenderPlain | lib/fmt/markdown.py:43-76 | without a fence pair and a link match, no link is recorded and the input reaches assembly unchanged |
| Markdown.RenderSingleBlock | lib/fmt/markdown.py:43-76 | a block followed by text renders the placeholder and the text, not the block content |
| Markdown.RenderSingleLink | lib/fmt/markdown.py:43-76 | a text with one link records the link and renders the text before it, OSC 8 + url + ST + display + OSC 8 + ST, and the text after it |
| CmdAdapter.GetAbspath | lib/adapter/cmd.py:14-25 | a path starting with "/" is kept; any other is the root joined to the path; the result is absolute when the root is |
| CmdAdapter.AbspathIdempotent | lib/adapter/cmd.py:19-25 | resolving a resolved path changes nothing when the root is absolute |
| CmdAdapter.CommandPage | lib/adapter/cmd.py:36-45 | the empty page exactly when the command is empty; otherwise the command is run as given |
| CmdAdapter.DigitRunEnd | lib/adapter/cmd.py:114 | the greedy `[0-9]+` takes every digit of the run |
| CmdAdapter.DigitRunEndAt | lib/adapter/cmd.py:114 | a digit run ending before a non-digit is the one the greedy scan finds |
| CmdAdapter.IsFound | lib/adapter/cmd.py:113-116 | true exactly for "rfc/", one or more digits, and at most one final "\n" |
| CmdAdapter.RfcTopicScan | lib/adapter/cmd.py:114 | the anchored scan decides the pattern |
| CmdAdapter.ScanWitness | lib/adapter/cmd.py:114 | a successful scan exhibits the digits the pattern needs |
| CmdAdapter.ScanOfWitness | lib/adapter/cmd.py:114 | every topic of the pattern passes the scan |
| CmdAdapter.RfcName | lib/adapter/cmd.py:111 | "rfc/" + the number is found and reads back as the number |
| CmdAdapter.RfcNames | lib/adapter/cmd.py:111 | the names of RFC 1 to n, in order |
| CmdAdapter.RfcList | lib/adapter/cmd.py:110-111 | 8648 entries, the i-th naming RFC i + 1, each accepted by `is_found` |
| CmdAdapter.RfcListMembers | lib/adapter/cmd.py:110-116 | a topic is listed exactly when it is "rfc/" + a number from 1 to 8648 without leading zeros |
| CmdAdapter.ListedIsName | lib/adapter/cmd.py:110-111 | every listed topic is such a name |
| CmdAdapter.NameIsListed | lib/adapter/cmd.py:110-111 | every such name is listed |
| CmdAdapter.AdapterRfc.constructor | lib/adapter/cmd.py:97 | the command is the RFC script alone |
| CmdAdapter.AdapterRfc.GetCommand | lib/adapter/cmd.py:99-108 | IndexError exactly when the command is empty. Otherwise the result is one longer: the first element is made absolute, the others are kept, and the last is the topic with one leading "rfc/" cut off. The adapter's command does not change |
| CmdAdapter.AdapterRfc.GetPage | lib/adapter/cmd.py:36-45 | the RFC adapter always runs its script: the absolute script path first, the other command arguments as they are, and the topic last, with one leading "rfc/" cut off and passed as given otherwise |
| CmdAdapter.Lang | lib/adapter/cmd.py:80 | the options' "lang" when present, "en" otherwise |
| CmdAdapter.TranslationPage | lib/adapter/cmd.py:78-85 | ValueError exactly when the topic has no "/"; AttributeError exactly when there is a "/" but no options; otherwise four arguments: the program, a `from` language without "/" or "-", a `to` language, and the text without "+" |
| CmdAdapter.TranslationPair | lib/adapter/cmd.py:79-85 | "from-to/text" gives both languages from the topic, whatever the options say, with "+" read as a space |
| CmdAdapter.TranslationDefaultTarget | lib/adapter/cmd.py:79-85 | "from/text" takes the target language from the options' "lang", English when it is absent |

## Left out

- Markdown.LinkSubn: the link replacement is a regular-expression template in Python. A backslash in the display text or url would be reinterpreted (`\1`, `\n`) or raise `re.error`. The model inserts display and url literally, which is what happens when neither holds a backslash. The program's own hyperlinks hold such a backslash: the ST of a hyperlink already inserted is ESC followed by `\`. In `[[a](b)x](c)` the first turn turns `[[a](b)` into a hyperlink whose display `[a` is followed by such an ST. The second turn matches from that `[` to `(c)`, so its display holds the ST, and Python raises `re.error` ("bad escape `\x`"). The model renders the second hyperlink instead. The link loop's `if not replacements: break` never fires under that reading, and its `block_number += 1` has no effect.
- Markdown.SubstituteRoundTrip: the round trip is proved for CSI-free text (no ESC followed by "["). Text that already holds CSI sequences could be mistaken for markers.
- Markdown.BoldRoundTrip: proved for CSI-free text; hyperlinks are CSI-free, so lines holding one are covered; text already holding CSI sequences is not.
- Markdown.CodeRoundTrip: proved for CSI-free text. `_colorize` runs the code pass on the bold pass's output, which holds CSI sequences, and there reading back is ambiguous: "**a **" gives a line ending in " ESC[0m", the code pass's closing marker.
- Markdown.WrappedLines: `ansiwrap.fill` is a foreign library call. It is the uninterpreted parameter `wrap`, so nothing is said about line widths.
- The SGR byte values of `colored.attr('bold')`, `colored.fg('white')`, `colored.bg('dark_gray')` and `colored.attr('reset')` come from the `colored` package. The constants use the 256-colour SGR forms. The proofs rely only on each being a CSI sequence (ESC followed by "[") and on the bold, background and reset codes differing at their third character.
- The `config` and `highlighter` arguments of `format_text` and `_format_section` are never used, so they are not parameters of the model.
- CmdAdapter.GetAbspath: `dirname(dirname(__main__.__file__))` depends on the running program. It is the parameter `root`, joined with POSIX `os.path.join` rules.
- `CommandAdapter._get_page` spawns the process with `Popen` and decodes its output, and returns an error text on `OSError`. That is process I/O; the model's `Output(argv)` page stands for it.
- `CommandAdapter._get_command` only returns the class attribute, so it has no member of its own. `CommandPage` takes the command directly.
- `Fosdem`, the class attributes of `Translation` and `AdapterRfc` other than `_command`, and the `Adapter` base class are constants or code outside this model.
- CmdAdapter.TranslationPage: `request_options` is a map from strings to strings. Other value types for "lang" are not modelled.
- `lib/stateful_queries.py` is a thin wrapper over a cache that is not part of this model.

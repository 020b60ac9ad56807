# renew.py text transformation, in Dafny

`renew.py` cleans an M3U playlist. Its function `process_m3u_file` reads the
playlist text and changes it in two stages. This project models those two
stages as pure functions over strings and proves what they do.

1. **Line filter.** The text is split on `'\n'`.
   - A line counts as a *time message* when `#` occurs anywhere in it, and one of eight shapes follows the `#` later in the line. The shapes are `更新时间`, `dddd-dd-dd`, `dd:dd:dd`, `Update…time`, `Generated…dddd`, `最后更新`, `Last…update` and `时间…dddd`. ASCII letters match without regard to case.
   - A time message is dropped.
   - The line right after a time message is also dropped when, stripped, it is a *stray link*: non-empty, not starting with `#`, and either starting with `http` or containing `://`.
   - A line dropped as a stray link is skipped without being classified.
   - The kept lines are joined back with `'\n'`.
2. **Rewriter.** Three `re.sub` passes, applied in this order:
   - `group-title="[^"]*"` becomes `group-title="频道"`. The quoted value may span lines.
   - `group-title=[^\s,]*` becomes `group-title="频道"`. This pass also matches the output of the first pass.
   - `\n\s*\n\s*\n` becomes `"\n\n"`.

Modules, one per file:

- `Text` (`text.dfy`): Python's whitespace table, ASCII digits and case folding, and `str.strip()`.
- `Lines` (`lines.dfy`): `str.split('\n')` and `'\n'.join`.
- `TimePatterns` (`time_patterns.dfy`): the eight shapes as token sequences, and a scanner for them, proved equal to the declarative "the tokens occur in order" reading.
- `LineFilter` (`line_filter.dfy`): the filter in three forms, each proved to agree:
  - a recursive function over the line list;
  - the source's loop with its `skip_next` flag;
  - a per-line *fate* (kept, time message, follow-on).
- `RewriteRules` (`rewrite_rules.dfy`): each pattern as a matcher anchored at the start of a text. The greedy `\s*` makes `\n\s*\n\s*\n` run from a newline to the last newline of the whitespace that starts the text.
- `Substitution` (`substitution.dfy`): `re.sub` as a left-to-right scanner that makes non-overlapping replacements.
- `GroupTitle` (`group_title.dfy`): the two `group-title` passes.
- `BlankLines` (`blank_lines.dfy`): the blank-line cleanup. It is proved equal to a stretch-by-stretch description: a whitespace stretch with three or more newlines keeps the text before its first newline and after its last newline, with `"\n\n"` in between. Every other stretch is left alone.
- `Renew` (`renew.dfy`): the whole transformation, from the content read to the content written.

Where a comment in the source and its code disagree, the model follows the code:

- The comment at renew.py:52 says the line after a time message is also skipped when it is a URL, or any non-empty line not starting with `#`. The code at renew.py:53-55 needs all three conditions together: non-empty, no leading `#`, and a leading `http` or a `://`. So a plain line without `#` after a time message is kept.
- The comment at renew.py:71 speaks of `group-title` values without quotes. The pass below it also matches quoted values, and swallows any value characters glued to the closing quote.

Notes on what the code does:

- The `#` of a time message may stand anywhere in the line, not only at its start. Each pattern is searched for with `re.search`, which is not anchored.
- A quoted value without a closing quote runs on to the next `"`, lines away.

## Model

| member | source | states |
|---|---|---|
| Text.StripMeaning | renew.py:51 | `strip()` keeps a slice of the line: everything before it and after it is whitespace, and the kept part neither starts nor ends with whitespace. It is empty only when the whole line is whitespace. |
| Text.StripUnpadded | renew.py:51 | A non-empty line that neither starts nor ends with whitespace is its own `strip()`. |
| Lines.SplitCount | renew.py:20 | Splitting on `'\n'` gives exactly one more line than the text has newlines. |
| Lines.JoinSplit | renew.py:61 | Joining with `'\n'` the lines of a split gives the original text back. |
| Lines.SplitJoin | renew.py:20 | Splitting the join of one or more newline-free lines gives the same lines back. |
| TimePatterns.SearchCorrect | renew.py:43 | The scanner answers true exactly when the shape's tokens occur in the line in order, each later than the previous one. This is the `.*` between them. |
| TimePatterns.AnyShapeFromMeaning | renew.py:41-45 | The pattern loop with its `break` is true exactly when one of the remaining shapes is found. |
| TimePatterns.TimeMessageMeaning | renew.py:30-45 | A line is a time message exactly when one of the eight shapes occurs in it after a `#`. |
| TimePatterns.TimeMessageHasHash | renew.py:30-39 | Every time message contains `#`. |
| LineFilter.Filter | renew.py:21-59 | Every kept line is an input line, no kept line is a time message, and the output is no longer than the input. |
| LineFilter.FilterLoop | renew.py:21-59 | The loop with its `skip_next` flag computes exactly the filter. |
| LineFilter.FatesWindow | renew.py:24-57 | A line is a follow-on exactly when the line before it was classified a time message and it is a stray link. Otherwise it is a time message exactly when a shape matches it. |
| LineFilter.FollowOnNeverTriggers | renew.py:25-27 | A line skipped as a follow-on is never classified, so the line after it is never a follow-on. It is kept exactly when it is not a time message. |
| LineFilter.FilterKeepsKept | renew.py:58-59 | The filter's output is exactly the input lines whose fate is "kept", in order. |
| LineFilter.FilterIsSubsequence | renew.py:21-59 | The output is the input at strictly increasing positions, unchanged, and those positions are exactly the lines whose fate is "kept". |
| LineFilter.TimeMessageDropped | renew.py:47-57 | A line that matches a shape is never kept, wherever it stands. |
| LineFilter.LineAfterTimeMessage | renew.py:50-56 | The line after a classified time message is kept exactly when it is neither a stray link nor a time message itself. |
| LineFilter.RemovedLines | renew.py:47-57 | The number of removed lines equals time messages plus follow-ons. Follow-ons never outnumber time messages, so at most two lines go per time message. |
| LineFilter.TrailingTimeMessage | renew.py:50 | A time message on the last line removes only itself. |
| LineFilter.NoTimeMessageKeepsAll | renew.py:58-59 | Without time messages every line is kept. |
| LineFilter.StampIsTimeMessage | renew.py:30-45 | `#EXTM3U 更新时间: 2024-01-15 12:00:00` is a time message. |
| LineFilter.BannerIsStrayLink | renew.py:51-55 | `http://example.com/banner` is a stray link. |
| LineFilter.PlainLineKept | renew.py:50-58 | A plain line without `#`, `http` or `://` right after a time message is kept. |
| LineFilter.BannerExample | renew.py:47-57 | That announcement and the banner link right after it are both removed. The announcement alone on the last line is removed too. |
| RewriteRules.QuotedMatch | renew.py:66 | `group-title="[^"]*"` matches at the start of a text exactly when the text starts with `group-title="` and a `"` follows. The match then ends at the first such quote. |
| RewriteRules.BareMatch | renew.py:73 | `group-title=[^\s,]*` matches at the start exactly when the text starts with `group-title=`. The match then takes every value character that follows, up to a whitespace character, a comma or the end. |
| RewriteRules.BlankMatch | renew.py:79 | On a match, the match is `\n\s*\n\s*\n` and no match is longer. With no match, no prefix of the text matches the pattern. |
| Substitution.SubCopiesNoMatch | renew.py:65-79 | A prefix at none of whose positions the pattern matches, within the whole text, is copied unchanged. The rest is substituted as if it stood alone. |
| Substitution.SubCopies | renew.py:65-79 | Text without the pattern's first character is copied unchanged. |
| Substitution.SubIdentity | renew.py:65-79 | Where the pattern matches at no position, the substitution changes nothing. |
| GroupTitle.QuotedValueReplaced | renew.py:65-69 | A closed quoted value, on however many lines, becomes `"频道"`, and the pass continues after the closing quote. |
| GroupTitle.UnclosedQuoteSwallowsLines | renew.py:65-69 | A value missing its closing quote runs on to the next attribute's opening quote. The lines in between are replaced. |
| GroupTitle.BarePassGreedy | renew.py:72-76 | `group-title=` plus value characters, followed by a delimiter or the end, becomes the canonical attribute. |
| GroupTitle.QuotedAttribute | renew.py:65-76 | After both passes, a quoted attribute becomes canonical. Value characters glued to its closing quote are swallowed, when no `group-title=` starts among them. |
| GroupTitle.UnquotedUntouched | renew.py:65-69 | The quoted pass leaves `group-title=` alone when no `"` follows it. |
| GroupTitle.BareAttribute | renew.py:65-76 | After both passes, an unquoted attribute becomes canonical up to the next whitespace, comma or the end. |
| GroupTitle.KeyStaysInside | renew.py:65-76 | No `group-title=` can start in key-free text and run on past a delimiter or a `g`. |
| GroupTitle.KeyFreePrefixCopied | renew.py:65-76 | Each pass copies a prefix in which no `group-title=` of the whole text starts. It rewrites the rest as if it stood alone. |
| GroupTitle.PassesAfterKeyFree | renew.py:65-76 | Both passes keep text without `group-title=` and rewrite what follows it, when that starts with `g`, as if it stood alone. |
| GroupTitle.QuotedAttributeAfter | renew.py:65-76 | A quoted attribute after key-free text, such as the start of an `#EXTINF` line, becomes canonical in place. The text before it is unchanged. |
| GroupTitle.BareAttributeAfter | renew.py:65-76 | The same holds for an unquoted attribute. |
| GroupTitle.SportsExample | renew.py:65-76 | `#EXTINF:-1 group-title="体育",CCTV5` ends as `#EXTINF:-1 group-title="频道",CCTV5`. |
| GroupTitle.NewsExample | renew.py:65-76 | `#EXTINF:-1 group-title=News,Channel1` ends as `#EXTINF:-1 group-title="频道",Channel1`. |
| GroupTitle.GluedLogoExample | renew.py:65-76 | `#EXTINF:-1 tvg-id="x" group-title="体育"tvg-logo="b",CCTV5` ends as `#EXTINF:-1 tvg-id="x" group-title="频道",CCTV5`. |
| GroupTitle.BarePassSettles | renew.py:72-76 | After the bare pass, every `group-title=` in the text is `group-title="频道"`, followed by a delimiter or the end. |
| GroupTitle.CanonicalMatch | renew.py:65-76 | Both patterns match the canonical attribute as exactly itself when a delimiter or the end follows it. |
| GroupTitle.SettledFixed | renew.py:65-76 | Neither pass changes a text in which every `group-title=` is already canonical. |
| GroupTitle.NoKeyUntouched | renew.py:65-76 | Neither pass changes a text without `group-title=`. |
| BlankLines.CollapseIsByStretch | renew.py:79 | The regex pass equals the stretch-by-stretch cleanup. |
| BlankLines.CollapseStretch | renew.py:79 | A whitespace stretch followed by a non-whitespace character, or by the end, becomes its squeezed form. The rest is then cleaned independently. |
| BlankLines.SqueezeQuiet | renew.py:79 | A squeezed stretch has at most two newlines. |
| BlankLines.SqueezeBlank | renew.py:79 | A squeezed stretch is whitespace, and it is non-empty when the stretch is. |
| BlankLines.CollapseLeavesNoBlankRun | renew.py:79 | After the cleanup, the pattern matches at no position: no whitespace run holds three newlines. |
| BlankLines.CollapseLeavesQuietStretches | renew.py:79 | After the cleanup, no whitespace-only part of the text holds three or more newlines. |
| BlankLines.CollapseFixedExactly | renew.py:79 | The cleanup leaves a text unchanged exactly when the pattern matches nowhere in it. |
| BlankLines.CollapseIdempotent | renew.py:79 | Cleaning twice is the same as cleaning once. |
| BlankLines.CollapseKeepsNonSpace | renew.py:79 | The non-whitespace characters survive unchanged and in order, and none is added. |
| BlankLines.CollapseShortens | renew.py:79 | The cleanup never lengthens a text. A text that changes becomes strictly shorter. |
| BlankLines.CollapseShortensExactly | renew.py:79 | The text becomes shorter exactly when the pattern matches somewhere in it. |
| Renew.FilterTextNoTimeMessage | renew.py:20-61 | Without time messages, the filter gives back the content unchanged. |
| Renew.FilterTextLines | renew.py:20-61 | The lines of the filtered text are exactly the kept lines, or the text is empty when none are kept. None of them is a time message. |
| Renew.CollapseKeepsSettled | renew.py:79 | The blank-line cleanup keeps every `group-title=` canonical. A delimiter or the end still follows each one. |
| Renew.RewriteResult | renew.py:65-79 | After the three passes, every `group-title=` is canonical and no whitespace run holds three newlines. The non-whitespace text is that of the two `group-title` passes. |
| Renew.RewriteIdempotent | renew.py:65-79 | Applying the three passes twice is the same as applying them once. |
| Renew.ProcessContentResult | renew.py:20-79 | In the written content, every `group-title=` is canonical and no whitespace run holds three newlines. No line that entered the rewriter was a time message. |
| Renew.CleanContentUnchanged | renew.py:20-79 | Content without time messages, without `group-title=` and without a three-newline whitespace run is written back unchanged. |
| Renew.BannerFileEmptied | renew.py:20-79 | Content holding only the announcement and the banner link below it is written back empty. |

## Left out

- Reading the file is not modelled: UTF-8 with a GBK fallback (renew.py:11-17). Writing the output file (renew.py:82-83) is not modelled either. Both are I/O and codec handling. The model starts from the decoded text and ends with the text that would be written.
- Newline translation is not modelled. Text-mode reading turns `\r\n` and a lone `\r` into `\n` before the split at renew.py:20, and writing turns `\n` into the platform's line separator. The model accepts any text, so it also covers content in which such characters remain.
- `main`, the prints, the hard-coded paths, the line-count statistics and the exception reporting (renew.py:85 onward) are command-line glue around the transformation.
- Python's `re` engine is not modelled in general. Each of the eleven patterns has its own matcher, with the leftmost, non-overlapping and greedy behaviour these patterns have in `re.search` and `re.sub`.
- `\d` is modelled as the ASCII digits. In a Python `str` pattern it also matches every other Unicode decimal digit, such as full-width `２０２４`.
- `re.IGNORECASE` is modelled as ASCII case folding. Python also folds a few non-ASCII characters onto ASCII letters, such as dotless `ı` and dotted `İ` onto `i` (in `time`) and long `ſ` onto `s` (in `Last`).
- Whitespace, for `str.strip()` and for `\s`, is Python's full `str.isspace()` table and not only ASCII whitespace. This is what Python uses for `str` patterns.
- Only the eight time-message shapes and the three substitutions are modelled. No other M3U or EXTINF syntax is.
- Substitution.Sub: its own contract states only that the output is empty exactly when the input is, and that the first character is kept. What `re.sub` does is stated by SubCopiesNoMatch, SubCopies and SubIdentity, and by the per-pattern lemmas built on them.

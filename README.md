# smi2srt in Dafny

`smi2srt` converts subtitle files to SRT. For each input file it:

- decodes the text;
- tells the format from the first characters: a SAMI (`<SAMI`) header, an SRT index line, or an ASS (`[Script Info]`) header;
- reads the text into one or more *tracks*, where a track is a list of cues and a cue is a start in milliseconds, a stop and a text;
- writes every track back as an SRT file named after the input file and the track's language.

SAMI is the only format with several tracks: one per `class` label of its `SYNC` blocks.

The model follows `readSubtitle`, `writeSubtitle`, `formatTime` and `parseTime`, plus the file-name pattern that gives an output file its base name. Each regular expression the code uses is modelled as the search JavaScript performs:

- leftmost match first;
- lazy quantifiers take the shortest match;
- greedy runs take the longest;
- `.` stops at line terminators;
- `/i` folds ASCII case.

| file | module | what it holds |
|---|---|---|
| `jstext.dfy` | `JsText` | The JavaScript string primitives used: character classes, `trim`, `split`, `parseInt`, decimal notation. |
| `cues.dfy` | `Cues` | Cues, tracks, and the two ways reading can fail. |
| `timecode.dfy` | `TimeCode` | `formatTime` (as written and as intended) and `parseTime`. |
| `sorting.dfy` | `Sorting` | The stable sort, filter and collect that the SAMI reader relies on. |
| `detect.dfy` | `Detect` | The three format tests, in the order they are tried. |
| `srt_normalize.dfy` | `SrtNormalize` | The three rewrites applied to SRT text before splitting. |
| `srt_reader.dfy` | `SrtReader` | SRT blocks and the cue pattern. |
| `srt_writer.dfy` | `SrtWriter` | `writeSubtitle`, and reading its output back. |
| `ass_override.dfy` | `AssOverride` | The `\N` replacement and the translation of `{\...}` override blocks. |
| `ass_reader.dfy` | `AssReader` | ASS sections, `Dialogue` lines and the event track. |
| `sami_reader.dfy` | `SamiReader` | SAMI `SYNC` blocks, the `&nbsp` repair, class labels, grouping, `for-in` order and the per-label tracks. |
| `subtitle.dfy` | `Subtitle` | `readSubtitle` as a whole, and the output file name. |

The HTML parser that SAMI blocks pass through is a parameter of the model, `parse: string -> SyncRecord`. For one repaired block it gives:

- the serialised HTML;
- the `Start` attribute as a number;
- the text of the paragraph (or of the block, when it has no `<p>`);
- the inner HTML of the paragraph.

The code can throw a `TypeError` in two places. The model returns a `Fail` result for each instead:

- A label that names a property every JavaScript object inherits (`constructor`, `__proto__`, `toString` …) makes `syncWithLang[lang].push` throw. This is `Fail(InheritedLabel(name))`.
- An ASS text without an `[Events]` section makes `events.split` throw. This is `Fail(MissingEvents)`.

A SAMI label's last block never gives a cue, because it has no next start to stop at. Blocks of one label at 1000, 4000 and 7000 ms whose first two have text give two cues: 1000 to 4000 and 4000 to 7000 (`SamiReader.ThreeBlockTrack`).

## Model

| member | source | states |
|---|---|---|
| TimeCode.ZeroPad | smi2srt.js:264 | A `%0Nd` field is all digits, reads back as its number, is at least N long, and is exactly N long when the number fits. |
| TimeCode.HoursAsWritten | smi2srt.js:264 | The hours field the code writes is the whole number of hours for every time except 1, 2 and 3 ms. |
| TimeCode.FormatTimeAsWritten | smi2srt.js:263-265 | `formatTime` as written agrees with the intended time code for t = 0 and for t >= 4. |
| TimeCode.FormatTimeAsWrittenMisreadsOneMillisecond | smi2srt.js:263-273 | A cue 1 ms in is written as `02:00:00,001`, which reads back as 7200001 ms. |
| TimeCode.FormatTimeLayout | smi2srt.js:264 | A time code is hours, then minutes and seconds below 60, then three digits of milliseconds. It is 12 characters long exactly when below 100 hours. |
| TimeCode.FormatTimeFields | smi2srt.js:264 | Every time code is laid out as its four fields, and they add back up to the time. Below 100 hours it is 12 characters long. |
| TimeCode.StampLayout | smi2srt.js:264 | Four digit fields joined with `:`, `:` and `,` have the time-code layout, with the values of the fields. |
| TimeCode.FormatTime | smi2srt.js:263-265 | `formatTime` as intended: the four fields by truncating division, written `%02d:%02d:%02d,%03d`. |
| TimeCode.ParseTime | smi2srt.js:267-273 | `parseTime`: `[H:]MM:SS[,mmm]` as milliseconds, otherwise `parseInt` of the text. |
| TimeCode.ClockOfText | smi2srt.js:268 | `MM:SS,mmm` is read as its three fields. |
| TimeCode.HoursWidth | smi2srt.js:264 | The hours field has two digits exactly when the time is below 100 hours. |
| TimeCode.Recombine | smi2srt.js:264 | The hour, minute, second and millisecond fields add back up to the time. |
| TimeCode.ClockOf | smi2srt.js:268 | The anchored `MM:SS[,mmm]` part only matches text of 5 or 9 characters, and its fields fit two, two and three digits. |
| TimeCode.ParseStamp | smi2srt.js:267-270 | A four-field time code is parsed to the fixed-radix sum of its fields. |
| TimeCode.ParseFormatTime | smi2srt.js:263-273 | `parseTime(formatTime(t)) == t` for every t >= 0. |
| TimeCode.ReadTwoHoursOneMillisecond | smi2srt.js:267-270 | `02:00:00,001` is parsed as 7200001 ms. |
| JsText.Trim | smi2srt.js:124 | `trim`: the text without white space at either end. |
| JsText.ParseInt | smi2srt.js:114 | `parseInt` with no radix: leading white space, an optional sign, then a hexadecimal run after `0x` or else a decimal run. NaN when the run is empty. |
| JsText.TrimSpec | smi2srt.js:124 | `trim` gives a slice of its input that neither starts nor ends with white space. |
| JsText.TrimStart | smi2srt.js:124 | The leading-space trim drops only white space and leaves no white space at the front. |
| JsText.TrimEnd | smi2srt.js:124 | The trailing-space trim drops only white space and leaves no white space at the end. |
| JsText.TrimBounds | smi2srt.js:124 | `trim` keeps the slice between the leading and the trailing white space. |
| JsText.TrimOfTrimmed | smi2srt.js:128 | Trimming text that has no white space at either end changes nothing. |
| JsText.Split | smi2srt.js:142 | The parts of `split` joined by the separator give back the text, and no part contains the separator. |
| JsText.SplitFirst | smi2srt.js:142 | Splitting `b + sep + rest` gives `b` then the split of `rest`, when `b` does not contain the separator. |
| JsText.SplitNone | smi2srt.js:142 | Text without the separator splits into itself alone. |
| JsText.NatToString | smi2srt.js:245 | A cue index is written as digits with no leading zero that read back as the index. |
| JsText.ParseIntOfNatToString | smi2srt.js:245 | `parseInt` reads a written index back. |
| JsText.ParseIntDecimalPrefix | smi2srt.js:193 | `parseInt` skips leading white space and reads the longest run of digits. |
| JsText.ParseIntOfTrimmed | smi2srt.js:193 | `parseInt` of text whose trimmed start is digits and then a non-digit gives the value of the digits. |
| JsText.UnsignedDecimalPrefix | smi2srt.js:193 | A decimal digit run followed by a non-digit is read as its value, unless it is a lone `0` before an `x`. |
| JsText.DigitRun | smi2srt.js:144 | A greedy `\d+` takes exactly the digits from the start position up to the first non-digit. |
| JsText.SpaceRun | smi2srt.js:136 | A greedy `\s*` takes exactly the white space from the start position up to the first other character. |
| JsText.IndexOf | smi2srt.js:170 | The search finds the leftmost occurrence at or after the start, or reports that there is none. |
| Sorting.SortByFacts | smi2srt.js:112 | The sort by start gives a sorted permutation of its input. |
| Sorting.InsertByFacts | smi2srt.js:112 | Inserting one element adds exactly it, keeps sorted input sorted, and brings in nothing else. |
| Sorting.SortByKeeps | smi2srt.js:112 | A property that every input has holds for every element of the sorted output. |
| Sorting.SortByStable | smi2srt.js:112 | The sort is stable: the elements with one key keep their order. |
| Sorting.SortOfSorted | smi2srt.js:112 | Sorting a sorted list leaves it unchanged. |
| Sorting.FilterSortBy | smi2srt.js:112 | Filtering commutes with the stable sort. |
| Sorting.CollectSortBy | smi2srt.js:112-131 | Turning elements into cues commutes with the sort, when the cue keeps the element's key. |
| Sorting.CollectMembers | smi2srt.js:112-131 | A cue is collected exactly when some element gives it. |
| Sorting.FilterPartition | smi2srt.js:107 | Splitting a list by a test and its negation loses and adds nothing. |
| Sorting.FilterKept | smi2srt.js:107 | Every element kept by a filter passes its test. |
| Sorting.CollectAppend | smi2srt.js:112-131 | The cues of two runs of elements are those of the first, then those of the second. |
| Sorting.CollectAllSome | smi2srt.js:142-153 | When every element gives a cue, the cues are collected one per element and in order. |
| Detect.Detect | smi2srt.js:86-157 | The branch taken: SAMI, SRT or ASS by the first test that holds, otherwise unknown. |
| Detect.SamiTestSpec | smi2srt.js:86 | The SAMI test holds exactly when the text is white space and then `<SAMI`, ignoring case. |
| Detect.SrtTestSpec | smi2srt.js:136 | The SRT test holds exactly when the text is white space, then one to three digits, then a newline. |
| Detect.SrtTestFound | smi2srt.js:136 | When the SRT test holds, the index line starts right after the leading white space. |
| Detect.IndexLinePassesTest | smi2srt.js:136 | White space and then an index line make the SRT test hold. |
| Detect.AssTestSpec | smi2srt.js:157 | The ASS test holds exactly when the text is white space and then `[Script Info]`. |
| Detect.DetectSpec | smi2srt.js:86-157 | The format chosen is the first test that holds, in SAMI, SRT, ASS order, and Unknown when none holds. |
| Detect.HeadersExclusive | smi2srt.js:86-157 | No text has two of the three headers, so the test order never decides between formats. |
| Detect.TestsExclusive | smi2srt.js:86-157 | No two of the three tests hold for one text. |
| SrtNormalize.ClearBlankLinesDone | smi2srt.js:137 | After the first rewrite, no line made only of spaces and tabs sits between two newlines. |
| SrtNormalize.ClearBlankLinesIdempotent | smi2srt.js:137 | Applying the first rewrite twice gives the same text as applying it once. |
| SrtNormalize.ClearBlankLinesNoop | smi2srt.js:137 | Text without such a line is left unchanged. |
| SrtNormalize.ClearBlankLinesHead | smi2srt.js:137 | The first rewrite keeps the run of spaces and tabs at the start of the text, and the character after it. |
| SrtNormalize.KeptHeadNotBlankLine | smi2srt.js:137 | A first character that does not start a blank line still does not after the rest is rewritten. |
| SrtNormalize.CollapseNewlinesDone | smi2srt.js:138 | After the second rewrite, no three newlines follow each other. |
| SrtNormalize.CollapseNewlinesNoop | smi2srt.js:138 | Text without three newlines in a row is left unchanged. |
| SrtNormalize.CollapseNewlinesKeepsText | smi2srt.js:138 | The second rewrite removes newlines and nothing else. |
| SrtNormalize.InsertBreaksKeepsText | smi2srt.js:139 | The third rewrite inserts newlines and nothing else. |
| SrtNormalize.BreakStep | smi2srt.js:139 | The global replace advances past a whole match at a match, and by one character elsewhere. |
| SrtNormalize.BreakPiece | smi2srt.js:139 | A match gains exactly one character, the newline; elsewhere the character is copied. |
| SrtNormalize.InsertBreaks | smi2srt.js:139 | The third rewrite never makes the text shorter. |
| SrtNormalize.InsertBreaksPrefix | smi2srt.js:139 | Text before the first match is copied unchanged. |
| SrtNormalize.InsertBreaksAtHead | smi2srt.js:139 | A non-newline character followed by a digit line and `dd:` gets one newline after the character. The replace then goes on after the `:`. |
| SrtNormalize.InsertBreaksFirstHead | smi2srt.js:139 | With no match before it, the first cue head gets its newline, and the text before it and the rest are rewritten as on their own. |
| SrtNormalize.InsertBreaksAfterLines | smi2srt.js:139 | Whole lines with no match, then `c\nDIGITS\ndd:` and a rest, become those lines, `c\n\nDIGITS\ndd:` and the rewritten rest. |
| SrtNormalize.ClearBlankLines | smi2srt.js:137 | The first rewrite: each newline followed by spaces and tabs and then a newline loses the spaces and tabs. |
| SrtNormalize.ClearBlankLinesPrefix | smi2srt.js:137 | Text before the first blank line is copied unchanged, spaces and tabs included. |
| SrtNormalize.ClearBlankLineAt | smi2srt.js:137 | A newline, spaces and tabs, and a newline become two newlines. The replace then goes on at the second newline. |
| SrtNormalize.ClearBlankLinesAfterText | smi2srt.js:137 | Text with no blank line in it, then a blank line and a rest, becomes that text unchanged, one newline, and the rest rewritten from its first newline. |
| SrtNormalize.SpaceLineExample | smi2srt.js:137 | `a\n \nb` becomes `a\n\nb`. |
| SrtNormalize.ClearBlankLinesKeepsText | smi2srt.js:137 | The first rewrite removes only spaces and tabs: every newline and every other character is kept, in order. |
| SrtNormalize.CollapseNewlines | smi2srt.js:138 | The second rewrite: each newline followed by two more newlines is removed. |
| SrtNormalize.CollapseAppend | smi2srt.js:138 | Text that does not end with a newline is rewritten independently of what follows it. |
| SrtNormalize.CollapseRunHead | smi2srt.js:138 | A leading run of k newlines is kept when k <= 2 and cut to two otherwise. |
| SrtNormalize.CollapseNewlinesRun | smi2srt.js:138 | A run of k newlines between other characters stays as it is when k <= 2 and becomes exactly two otherwise. The text on each side is rewritten on its own. |
| SrtNormalize.Normalize | smi2srt.js:137-139 | The three rewrites in the order the reader applies them. |
| SrtNormalize.InsertBreaksNoop | smi2srt.js:139 | Text where no cue head follows a non-newline character is left unchanged. |
| SrtNormalize.InsertBreaksKeepsNoTriple | smi2srt.js:139 | The third rewrite never creates three newlines in a row. |
| SrtNormalize.CueHeadPrefix | smi2srt.js:139 | The text put in place of a match has no three newlines in a row and does not end with a newline. |
| SrtNormalize.NormalizeNoTriple | smi2srt.js:137-139 | After the three rewrites, no three newlines follow each other. |
| SrtReader.MatchAt | smi2srt.js:144 | The cue pattern tried at one position: an index line, the timing line, and the rest as the text. |
| SrtReader.DecodeFrom | smi2srt.js:144 | The multiline pattern's search: the leftmost line start where the cue pattern matches. |
| SrtReader.DecodeBlock | smi2srt.js:144-150 | The cue of one block, or none when the pattern does not match. |
| SrtReader.Blocks | smi2srt.js:137-142 | The blocks of an SRT text: the normalised text split at blank lines. |
| SrtReader.SrtCues | smi2srt.js:142-153 | The cues of the blocks, in block order. Empty and non-matching blocks add none. |
| SrtReader.FirstTerminator | smi2srt.js:144 | The lazy `(.*?)\n` stops at the first line terminator. |
| SrtReader.DecodeFromSpec | smi2srt.js:144 | The multiline cue pattern matches at the leftmost line start where it can. It fails only when it matches at none. |
| SrtReader.DecodeFromMiss | smi2srt.js:144 | When the multiline pattern finds nothing, it matches at no line start. |
| SrtReader.ReadSrt | smi2srt.js:136-155 | The SRT branch gives one cue per non-empty block that matches, in block order. |
| SrtReader.SrtCuesAppend | smi2srt.js:142-153 | The cues of two runs of blocks are the cues of the first run, then those of the second. |
| SrtReader.SrtCuesSkip | smi2srt.js:142-153 | A block that does not match adds no cue. |
| SrtReader.SrtCuesEmpty | smi2srt.js:142-143 | The empty piece after the last blank line adds no cue. |
| SrtReader.SrtCuesFromBlocks | smi2srt.js:142-153 | Every cue read comes from some block that decodes to it. |
| SrtReader.StampValueOfFormatTime | smi2srt.js:144-148 | A time code below 100 hours reads back as its milliseconds. |
| SrtReader.DecodeWrittenBlock | smi2srt.js:144-150 | A block laid out with the intended time codes decodes back to its cue, whatever its text, when both times are below 100 hours. |
| SrtReader.MatchWrittenBlock | smi2srt.js:144-150 | An index line, a timing line and a text are matched as the cue with those times and that text. |
| SrtWriter.ShiftTrack | smi2srt.js:244-246 | Each cue is shifted by the offset exactly when it starts at or after the threshold, and the order is kept. |
| SrtWriter.WrittenBlocksAt | smi2srt.js:243-247 | Block i is cue i, numbered i + 1, with its shifted times. |
| SrtWriter.WriteSubtitle | smi2srt.js:241-253 | The output is the concatenation of the cue entries, each with a blank line after it. Times are written by `formatTime` as written. |
| SrtWriter.WriteCue | smi2srt.js:244-248 | One pass of the loop body appends the cue's index line, its timing line written by `formatTime` as written, its text and a blank line. |
| SrtWriter.WrittenBlock | smi2srt.js:245-247 | The block written for a cue: its number, its two times by `formatTime` as written, and its text. |
| SrtWriter.WrittenBlockIntended | smi2srt.js:246 | For times of 0 ms and of 4 ms or more, the written block has the intended time codes. |
| SrtWriter.WrittenBlockOneMillisecond | smi2srt.js:246 | A cue from 1 ms to 1000 ms is written with the timing line `02:00:00,001 --> 00:00:01,000`. |
| SrtWriter.SrtDocument | smi2srt.js:243-249 | The whole output: each shifted cue's block, numbered from 1, then a blank line. |
| SrtWriter.DocumentStep | smi2srt.js:243-249 | After cue i, the output is the document of the first i + 1 cues. |
| SrtWriter.DocumentBlocks | smi2srt.js:243-248 | The written document is the numbered blocks, each followed by a blank line. |
| SrtWriter.SplitTerminated | smi2srt.js:142 | Splitting the written document at blank lines gives back the blocks, plus an empty piece at the end. |
| SrtWriter.ReadWrittenDocument | smi2srt.js:141-155 | Splitting the writer's output at blank lines and decoding the blocks gives exactly the shifted cues, in order. This holds for times below 100 hours, other than 1, 2 and 3 ms, and for non-empty text with no blank line and no newline at either end. |
| SrtWriter.WrittenBlockReads | smi2srt.js:144-150 | Each block the writer emits decodes back to its shifted cue. This holds for times below 100 hours, other than 1, 2 and 3 ms, and for non-empty text with no blank line and no newline at either end. |
| SrtWriter.SrtCuesOfDecoded | smi2srt.js:142-153 | Blocks that each decode to a cue read as exactly those cues, in order. |
| AssOverride.ReplaceBreaks | smi2srt.js:175 | The replacement never makes the text longer, and gives empty text exactly for empty input. |
| AssOverride.ReplaceBreaksPlain | smi2srt.js:175 | Text with no `\N` or `\n` is copied, unless its last backslash pairs with the next character. |
| AssOverride.ReplaceBreaksEscape | smi2srt.js:175 | Each `\N` or `\n`, the first of its text, becomes exactly one newline. The text on each side is rewritten on its own. |
| AssOverride.ReplaceBreaksComplete | smi2srt.js:175 | No `\N` or `\n` is left after the replacement. |
| AssOverride.ReplaceBreaksIdentity | smi2srt.js:175 | Text without a break escape is left unchanged. |
| AssOverride.ReplaceBreaksIdempotent | smi2srt.js:175 | Applying the replacement twice gives the same text as applying it once. |
| AssOverride.Command | smi2srt.js:181 | A command splits into a non-empty run of lower-case letters (the name) and the rest (its argument). |
| AssOverride.ColourFrom | smi2srt.js:185 | `&H(..)(..)(..)&` matches at its leftmost position. |
| AssOverride.ColourArg | smi2srt.js:185-187 | A colour is found exactly when `&H(..)(..)(..)&` matches. It is six characters: the three two-character groups in reverse order. |
| AssOverride.CommandOf | smi2srt.js:181 | A lower-case name followed by an argument that does not start lower-case splits into that name and argument. |
| AssOverride.CommandEffect | smi2srt.js:181-210 | The effect of one command: the tags it writes, the new open-tag record, and whether it is reported unknown. |
| AssOverride.ColourCommand | smi2srt.js:184-188 | `\c&HBBGGRR&` writes `<font color="#RRGGBB">`, leaves the open tags alone and is not reported. |
| AssOverride.RedOverride | smi2srt.js:176-188 | The block `{\c&H0000FF&}` becomes `<font color="#FF0000">`. |
| AssOverride.StyleCommand | smi2srt.js:190-202 | `\i`, `\b` or `\u` with a positive argument opens its tag. Otherwise it writes the closing tag exactly when the tag is open, and marks it closed. No other tag changes. |
| AssOverride.Translate | smi2srt.js:179-212 | Each command reports at most one unknown command. |
| AssOverride.StepTranslate | smi2srt.js:179-212 | The commands are translated one by one, each in the open/closed state the earlier ones left. |
| AssOverride.TranslateNames | smi2srt.js:183-210 | Only `<font>`, `<i>`, `<b>` and `<u>` tags are produced. A command is reported unknown exactly when its name is none of `c`, `i`, `b`, `u`, `fs` and `pos`. |
| AssOverride.SizeAndPositionIgnored | smi2srt.js:204-206 | `\fs` and `\pos` produce nothing, change no open tag and are not reported. |
| AssOverride.IgnoredCommand | smi2srt.js:181-182 | A command that does not start with a lower-case letter does nothing and is not reported. |
| AssOverride.TranslateBlock | smi2srt.js:176-215 | The loop gives the tags and the unknown commands of the override block's translation. |
| AssOverride.RunCommands | smi2srt.js:177-214 | The `forEach` over the pieces after the first gives the tags and the unknown commands of their translation from an empty open-tag record. |
| AssOverride.RunCommand | smi2srt.js:181-210 | One command appends the tags of its effect, updates the open-tag record as its effect says, and is reported exactly when its effect is unknown. |
| AssOverride.BlockClosesOpened | smi2srt.js:190-201 | A closing `</x>` is only written after an `<x>` that is still open. |
| AssOverride.TranslateCloses | smi2srt.js:190-201 | Translating further commands keeps every closing tag after an opening tag of the same name. |
| AssOverride.ReplaceBlocks | smi2srt.js:176-215 | Each closed override block is replaced by its tags. Every other character is kept. |
| AssOverride.EventText | smi2srt.js:175-215 | An event's text: break escapes become newlines, then override blocks become tags. |
| AssOverride.BlockEnd | smi2srt.js:176 | The lazy `{(.*?)}` ends at the first `}` with no line terminator before it. |
| AssOverride.ReplaceBlocksBlock | smi2srt.js:176 | A closed override block is replaced by its tags, and the search goes on after it. |
| AssOverride.ReplaceBlocksPlain | smi2srt.js:176 | Text without an opening brace is kept as it is. |
| AssOverride.UnclosedBrace | smi2srt.js:176 | A brace with no `}` later on its line is kept, and the search goes on after it. |
| AssReader.HeaderEnd | smi2srt.js:160 | The lazy `\[(.*?)\]\n` ends at the first `]` followed by a newline, with no line terminator before it. |
| AssReader.SectionOf | smi2srt.js:160 | A chunk that matches is `[`, header, `]`, a newline, then the content. The header has no line terminator. |
| AssReader.SectionOfHeader | smi2srt.js:160 | Every such chunk matches, with that header and that content. |
| AssReader.BuildSections | smi2srt.js:158-163 | The loop builds the section map of the chunks. |
| AssReader.SectionsLast | smi2srt.js:158-163 | Under a repeated header, the last chunk wins. |
| AssReader.SectionsFrom | smi2srt.js:158-163 | Every section comes from a chunk with that header. |
| AssReader.Sections | smi2srt.js:158-163 | The section map: each chunk's header maps to its content, and a later chunk overwrites an earlier one with that header. |
| AssReader.CentiTime | smi2srt.js:172-173 | `H:MM:SS.cc` in milliseconds, the hundredths counting ten each. |
| AssReader.EventFields | smi2srt.js:170 | The event pattern on a whole line: start, stop and raw text. |
| AssReader.EventCue | smi2srt.js:170-228 | The cue of an event line, with its text rewritten. |
| AssReader.AssTrack | smi2srt.js:157-233 | The ASS branch: the cues of the `[Events]` lines after the first, or the missing-section failure. |
| AssReader.CentiTimeValue | smi2srt.js:170-173 | `H:MM:SS.cc` is read as milliseconds, the hundredths counting ten each. |
| AssReader.MarginsRestOf | smi2srt.js:170 | The three margins and the effect are skipped, and the text is the rest of the line. |
| AssReader.ReadEventLine | smi2srt.js:170-175 | An event line gives its start, its end and its text. The text is turned into the cue's text by the override translation. |
| AssReader.ReadEvents | smi2srt.js:167-229 | The loop over the event lines skips the first and gives the cues of the rest, in order. |
| AssReader.EventCuesLine | smi2srt.js:167-230 | An event line adds its own cue, if it has one, between the cues of the lines before it and those after it. |
| AssReader.EventCuesAppend | smi2srt.js:167-230 | The cues of two runs of lines are those of the first run, then those of the second. |
| AssReader.AssTrackSkipsFirstLine | smi2srt.js:165-168 | The first line of `[Events]` (its `Format:` line) never gives a cue, whatever it holds up to its first `\n`. |
| AssReader.ReadAss | smi2srt.js:157-233 | The ASS branch gives the events' cues, or fails when there is no `[Events]` section. |
| SamiReader.SyncsFrom | smi2srt.js:87 | The global SYNC match from a position: each block runs from a SYNC tag to the first boundary after it. |
| SamiReader.SplitSyncs | smi2srt.js:87 | The SYNC blocks of a whole text. |
| SamiReader.RepairNbsp | smi2srt.js:95 | The first bare `&nbsp` gets a `;`. |
| SamiReader.ClassFrom | smi2srt.js:100 | The first `class="..."` value from a position. |
| SamiReader.LabelOf | smi2srt.js:100-101 | A block's label: its class value, or `unknown`. |
| SamiReader.Grouping | smi2srt.js:93-105 | The blocks grouped by label, with the labels in order of first occurrence, or the inherited-label failure. |
| SamiReader.LabelTrack | smi2srt.js:111-131 | A label's track: its blocks sorted by start, each turned into a cue unless dropped. |
| SamiReader.ThreeBlockTrack | smi2srt.js:112-131 | Three blocks in start order, the first two with text, give two cues, each ending at the next start. The last block gives none. |
| SamiReader.SyncText | smi2srt.js:128 | A cue's text: the inner HTML with its line breaks, trimmed. |
| SamiReader.BrToNewline | smi2srt.js:128 | Each `<br>` and the white space after it become one newline. |
| SamiReader.BrToNewlinePlain | smi2srt.js:128 | Text with no `<br>` is copied, up to a rest that starts with `<` or is empty. |
| SamiReader.BrToNewlineBreak | smi2srt.js:128 | The first `<br>` and all the white space after it become exactly one newline. The text on each side is rewritten on its own. |
| SamiReader.SamiTracks | smi2srt.js:93-134 | The SAMI branch on the parsed blocks: one track per label in `for-in` order, or the inherited-label failure. |
| SamiReader.BoundaryFromSpec | smi2srt.js:87 | The lazy `[^]*?` stops at the first white space run that is followed by `<SYNC` or `</BODY`, and finds none only when there is none. |
| SamiReader.SyncsFromShape | smi2srt.js:87 | Every block found starts with a `<SYNC` tag and contains no other. |
| SamiReader.BlockShape | smi2srt.js:87 | A block cut at its first boundary holds exactly one `<SYNC`. |
| SamiReader.BareNbsp | smi2srt.js:95 | Finds the leftmost `&nbsp` that is not followed by `;`. |
| SamiReader.RepairNbspSpec | smi2srt.js:95 | Text without a bare `&nbsp` is left unchanged. Otherwise `;` is added after the leftmost one and nothing else changes. |
| SamiReader.RepairNbspFirstOnly | smi2srt.js:95 | Only the first bare `&nbsp` is repaired, since the pattern has no `g` flag. |
| SamiReader.ClassLabel | smi2srt.js:100-101 | The label is the text between the first `class="` and the next quote. |
| SamiReader.ClassFromNone | smi2srt.js:100-101 | Without `class="` the label search finds nothing. |
| SamiReader.DefaultLabel | smi2srt.js:100-101 | A block without `class="` gets the label `unknown`. |
| SamiReader.GroupSyncs | smi2srt.js:93-105 | The loop groups the blocks by label, or fails at an inherited label. |
| SamiReader.GroupingFailure | smi2srt.js:102-104 | Grouping fails exactly when some label is inherited, and reports the first such label. |
| SamiReader.GroupingOkAll | smi2srt.js:102-104 | Grouping succeeds exactly when no label is inherited. |
| SamiReader.GroupingFirstFailure | smi2srt.js:102-104 | A failed grouping names the first inherited label in file order. |
| SamiReader.GroupingFailed | smi2srt.js:94-105 | Once grouping has failed, later blocks do not change the outcome. |
| SamiReader.GroupingGroups | smi2srt.js:93-105 | Every block is grouped under its label, in file order. Each label is recorded once, in order of first occurrence. |
| SamiReader.GroupingStep | smi2srt.js:102-104 | A new label starts a group and is appended to the key order. A known label appends the block to its group. |
| SamiReader.GroupingKeys | smi2srt.js:102-104 | The groups and the key order hold the same labels, and no label is recorded twice. |
| SamiReader.GroupingLabels | smi2srt.js:100-104 | A label is recorded exactly when some block has it. |
| SamiReader.GroupingContents | smi2srt.js:102-104 | The group of a label is that label's blocks in file order. |
| SamiReader.ForInOrderSpec | smi2srt.js:107 | `for-in` visits every label once. Array-index labels come first, ascending, and the others follow. |
| SamiReader.ForInOrderPermutes | smi2srt.js:107 | `for-in` visits every label once. |
| SamiReader.ForInOrderOrdered | smi2srt.js:107 | Array-index labels come first, in ascending order. |
| SamiReader.SyncCue | smi2srt.js:114-130 | A block gives no cue exactly when it has no next start, a next start of 0, empty text, or the text `&nbsp;`. Otherwise the cue runs from its start to the next start. |
| SamiReader.PairedCue | smi2srt.js:112-130 | Block j gives the cue from its start to block j + 1's start, when it is not dropped. |
| SamiReader.FileOrderCuesSpec | smi2srt.js:112-130 | A cue is in the label's track exactly when some block that is not the last and not dropped gives it. |
| SamiReader.LabelTrackSpec | smi2srt.js:111-131 | A label's track is its cues sorted by start: sorted, a permutation, and in file order among equal starts. |
| SamiReader.BuildLabelTrack | smi2srt.js:111-131 | The loop builds the label's track. |
| SamiReader.EmitBlock | smi2srt.js:113-130 | One pass of the callback gives the block's cue, or none when it is dropped. |
| SamiReader.BrToNewlineNoBr | smi2srt.js:128 | No `<br>` is left after the replacement. |
| SamiReader.BrToNewlineIdentity | smi2srt.js:128 | Text without `<br>` is left unchanged. |
| SamiReader.KeysGrouped | smi2srt.js:107-108 | Every label that `for-in` visits has a group. |
| SamiReader.TracksOf | smi2srt.js:107-134 | There is one track per label visited. |
| SamiReader.TracksOfAt | smi2srt.js:107-134 | Track i is the track of the i-th label visited. |
| SamiReader.TracksOfSnoc | smi2srt.js:107-134 | One more label visited appends that label's track. |
| SamiReader.BuildTracks | smi2srt.js:107-134 | The loop gives the tracks of the labels, in the order visited. |
| SamiReader.ReadSami | smi2srt.js:93-134 | The SAMI branch groups the blocks, then gives one track per label in `for-in` order, or fails at an inherited label. |
| SamiReader.SamiTracksSpec | smi2srt.js:93-134 | The i-th track is the track of all blocks with the i-th visited label. |
| Subtitle.Subtitles | smi2srt.js:86-236 | The tracks of a decoded text, by the branch the format tests choose. |
| Subtitle.BaseName | smi2srt.js:51-54 | The file name without its language hint and extension, or none for a file that is skipped. |
| Subtitle.OutputName | smi2srt.js:60 | The output file is the base name, the language and `.srt`, joined by dots. |
| Subtitle.SyncRecords | smi2srt.js:94-99 | Each block is parsed after its `&nbsp` repair, one record per block and in order. |
| Subtitle.ReadSubtitle | smi2srt.js:76-239 | Reading follows the format tests. It gives no track when the SAMI text has no `SYNC` block and for an unknown format. |
| Subtitle.SubtitlesDispatch | smi2srt.js:86-236 | The first header decides the branch. SRT and ASS give one track and an unknown format gives none. Reading fails only at an inherited label or a missing `[Events]` section. |
| Subtitle.SamiSubtitles | smi2srt.js:86-134 | A SAMI text with no inherited label gives, for each visited label, the track of its blocks. |
| Subtitle.BaseFrom | smi2srt.js:51 | The lazy `^(.*?)` gives the shortest base whose rest is an optional language hint and then a subtitle extension. |
| Subtitle.BaseNameOf | smi2srt.js:51-54 | For a base without dots, `base.ext` and `base.lang.ext` both give the base back. |
| Subtitle.OtherExtensionSkipped | smi2srt.js:51-53 | A file with another extension (`a.txt`) gets no base name and is skipped. |

## Left out

- The command line is not part of this model: argument parsing, the directory walk and its `.smi`/`.smil` filter (smi2srt.js:17-48 and the `walk` helper after line 275), the `-N` no-overwrite rule, and the `-l` listing and progress output.
- File reading, charset detection and decoding (smi2srt.js:77-84) are left out, because they are I/O and foreign libraries. The model starts from the decoded text, after `\r\n` has become `\n`. `writeSubtitle` returns the text it would write instead of writing a file.
- The HTML parser (`cheerio`) is a parameter, because it is a foreign library.
  - `parse` gives each block's serialised HTML, its start, its text and its inner HTML.
  - The second parse of a label's joined blocks (smi2srt.js:109) is taken to give back the same blocks.
  - `sync.next()` is taken to be the next block of that label in file order.
- A `Start` attribute that does not parse as a number is not modelled: start is an integer. Neither is the sort comparator's behaviour on NaN.
- Language detection (smi2srt.js:255-261) is a foreign library, so `OutputName` takes the language as a parameter. The rule that a track without text gets no output file is not modelled.
- The diagnostics written to the console are not modelled as output:
  - `no sync found` becomes the empty result;
  - `unknown file format` becomes the empty result;
  - unknown override commands are returned as a list by `AssOverride.TranslateBlock`.
- Text is a sequence of Unicode code points, not UTF-16 code units, so surrogate pairs are not distinguished.
- TimeCode.FormatTimeAsWritten: times are unbounded integers, but JavaScript numbers are doubles, and this is not modelled. A `Start` above 2^53 (16 or more digits) is already rounded when `parseInt` reads it. Once the hours quotient reaches 1e21 (t of 3.6e27 ms or more) it prints in exponent form, and `%d` reads `1e+21` as 1.
- Negative times are not modelled: `formatTime` of a negative value, which an offset can cause, is outside `SrtWriter.Writable`.
- `parseTime` is modelled in full, but the command-line options it reads are not.
- SrtWriter.ReadWrittenDocument: proved only for times below 100 hours other than 1, 2 and 3 ms, and for non-empty texts without a blank line or a newline at either end. The reader's pattern has two-digit hours, the split at blank lines would cut such a text, and times of 1 to 3 ms are written with a wrong hours field (see Findings). An empty text, such as that of a SAMI block holding only white space, ends its entry in three newlines, and the split cuts the block before the newline the pattern needs, so that cue is not read back.
- SrtWriter.WrittenBlockReads: proved under the same conditions as SrtWriter.ReadWrittenDocument.
- SrtReader.DecodeWrittenBlock: proved for blocks laid out with the intended time codes, below 100 hours. SrtWriter.WrittenBlockIntended links them to the writer's blocks.
- Subtitle.BaseNameOf: proved only for base names without dots or line terminators. With a dot, the lazy base can stop earlier.
- The JavaScript sort is modelled as a stable insertion sort by start. Modern engines' `Array.prototype.sort` is stable.

## Findings

| source | as written | input that shows it | evidently intended | confidence | as-written member | corrected member |
|---|---|---|---|---|---|---|
| smi2srt.js:264 | `t / 3600000` is a JavaScript float. For t = 1, 2 or 3 ms it is below 1e-6, so it prints in exponent notation (`2.77…e-7`), and `%02d` reads its first digit. The hours field is then `02`, `05` or `08`. | A cue starting at 1 ms is written as `02:00:00,001`. | The hours field is the whole number of hours, `00`, so that `parseTime(formatTime(t)) == t`. | not executed | TimeCode.FormatTimeAsWritten, TimeCode.FormatTimeAsWrittenMisreadsOneMillisecond, SrtWriter.WrittenBlockOneMillisecond | TimeCode.FormatTime, TimeCode.ParseFormatTime |

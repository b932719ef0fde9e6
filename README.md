# srt2csv in Dafny

A model of the text-processing core of srt2csv. The package turns SubRip
(`.srt`) subtitles into CSV rows for speech synthesis, and it rewrites
subtitle text from a vocabulary of `OLD<=>NEW` lines. The model covers three
parts:

- **Vocabulary substitution** (`src/srt2csv/vocabulary.py` and the older
  `vocabulary.py`):
  - `two_cases`.
  - Building the rule list: two rules per `<=>` line, stably sorted longest
    OLD first.
  - `apply_replacements`: `str.replace`, or `re.sub` between `\b` boundaries.
  - The optimized rewriter: `(?<![\w-])OLD(?![\w-])` on every line that is not
    blank, not all digits and has no `-->`, with its change log.
  - The legacy line-by-line rewriter.
- **Subtitle parsing and rows** (`subtitle_csv.py`):
  - `format_timedelta`.
  - `datetime.strptime(t, '%H:%M:%S,%f')` on the timestamps the parser hands it.
  - The lenient fallback parser: a state machine over index, timecode, text and
    blank lines.
  - The per-subtitle row of `srt_to_csv`: duration, symbol duration, and the
    text on one line.
- **Speaker columns** (`subtitle_csv.py`):
  - The first `[Name]: ` tag of a row's text.
  - The scan `find_closest_from_floor_value_index`.
  - The per-row speed lookup with its fallback to the default speaker.

Modules:

| file | module | what it holds |
|---|---|---|
| `wrappers.dfy` | `Wrappers` | `Option`, `Result` |
| `text.dfy` | `Text` | Python's `strip`, `isdigit`, `in`, `split`, `splitlines`, `join`, file-line iteration, decimal digits |
| `replace.dfy` | `Replace` | one engine for `str.replace` and `re.sub` with a literal pattern under three guards: anywhere, `\b…\b`, and `(?<![\w-])…(?![\w-])` |
| `vocabulary.dfy` | `Vocabulary` | `src/srt2csv/vocabulary.py` |
| `legacy_vocabulary.dfy` | `LegacyVocabulary` | `vocabulary.py` |
| `vocabulary_cases.dfy` | `VocabularyCases` | the vocabulary test of the package and the boundary cases |
| `timecode.dfy` | `Timecode` | `format_timedelta` and `strptime` |
| `subtitle_csv.dfy` | `SubtitleCsv` | the fallback parser and the rows of `srt_to_csv` |
| `subtitle_cases.dfy` | `SubtitleCases` | worked blocks of the fallback parser |
| `speakers.dfy` | `Speakers` | `add_speaker_columns`, `find_closest_from_floor_value_index`, `add_speed_columns_with_speakers` |

How the parts are written:
- The loops of the source are methods:
  - the rule-building loops
  - `apply_replacements`
  - both rewriters
  - the fallback parser
  - the row loops
  - the floor scan
- Each method is proved equal to a function that says the same thing
  declaratively. The properties are then proved about those functions.
- The fallback parser is a state machine. It is proved equal to a
  block-by-block reading: the lines are cut at blank lines, and each block
  gives its last index, its last timecode pair and its text lines.

Where the code and its own documentation differ, the model follows the code:
- `find_closest_from_floor_value_index` (subtitle_csv.py:116-134):
  - Its docstring speaks of the "closest floor value (largest value ≤ input
    value)" in an array "assumed to be sorted in ascending order"
    (subtitle_csv.py:118, 121).
  - The code returns the first element strictly below the target, or the last
    element when there is none. That element is the one at which the scan
    stops, not the one visited before it.
  - `Speakers.FloorOfNonIncreasing` proves what the scan does compute: a strict
    floor, on lists that never increase.
  - `Speakers.AscendingTableIsNotFloored` gives an ascending list on which the
    scan does not return the floor.

Two consequences of the code worth knowing:
- The optimized rewriter splits with `splitlines()` and rejoins with `'\n'`
  (src/srt2csv/vocabulary.py:98, 129). A final line break is dropped: `"a\n"`
  becomes `"a"`.
- A second pass of the optimized rewriter can change a line again.
  - Rules apply one after the other, each to the previous result, and the
    `(?<![\w-])` look-behind reads the current text.
  - A replacement can therefore remove the hyphen that kept a later pattern
    from matching.
  - `VocabularyCases.SecondRewriteChangesLine` gives such a case. With the
    vocabulary lines `q-<=>!` and `.abc<=>X`, the line `q-.abc` becomes
    `!.abc`, and a second pass turns that into `!X`.

## Model

| member | source | states |
|---|---|---|
| Replace.NoMatchLeavesUnchanged | src/srt2csv/vocabulary.py:114-118 | a rule with no admissible occurrence leaves the line exactly as it was |
| Replace.CharAbsentAfterReplace | src/srt2csv/vocabulary.py:78-80 | a character in neither the text nor the replacement is not in the result |
| Replace.ReplaceCharRemovesIt | subtitle_csv.py:85 | replacing every `'\n'` by a text without one leaves no `'\n'` |
| Replace.ReplaceSingleOccurrence | src/srt2csv/vocabulary.py:94 | one occurrence of OLD, admitted by the guard, is replaced and nothing else changes |
| Vocabulary.TwoCases | src/srt2csv/vocabulary.py:26-29 | empty gives two empties; otherwise both variants keep the length and the tail, with the first letter upper- and lower-cased |
| Vocabulary.TwoCasesOfVariant | src/srt2csv/vocabulary.py:26-29 | the input is one of its two variants, and the variants of a variant are the same pair |
| Vocabulary.LineRules | src/srt2csv/vocabulary.py:42-51 | a line gives no rule or exactly two |
| Vocabulary.LineRulesShape | src/srt2csv/vocabulary.py:42-51 | two rules iff the stripped line contains `<=>`; both share a stripped OLD free of `<=>`, and their NEWs are the upper and lower variants, upper first |
| Vocabulary.FirstSeparatorAfter | src/srt2csv/vocabulary.py:47 | a `<=>` after a text holding none is the first one, even when that text ends in `<` |
| Vocabulary.LineRulesOfSplit | src/srt2csv/vocabulary.py:42-51 | any line whose stripped form is OLD, `<=>`, NEW with no `<=>` in OLD gives two rules: stripped OLD with the upper, then the lower variant of stripped NEW |
| Vocabulary.OldHasNoSeparator | src/srt2csv/vocabulary.py:47 | OLD holds no `<=>`, so any later `<=>` belongs to NEW |
| Vocabulary.CollectRules | src/srt2csv/vocabulary.py:40-51 | the rule count is twice the number of lines containing `<=>` |
| Vocabulary.CollectRulesByStrip | src/srt2csv/vocabulary.py:42 | the rules depend only on each line stripped |
| Vocabulary.CollectRulesStep | src/srt2csv/vocabulary.py:41-51 | one more line appends exactly its own rules, in line order |
| Vocabulary.InsertPermutes | src/srt2csv/vocabulary.py:54 | insertion adds exactly the one rule |
| Vocabulary.InsertSorted | src/srt2csv/vocabulary.py:54 | insertion keeps non-increasing OLD length |
| Vocabulary.InsertStable | src/srt2csv/vocabulary.py:54 | insertion puts the rule after all rules of equal OLD length |
| Vocabulary.SortByPatternLengthIsStableSort | src/srt2csv/vocabulary.py:54 | the sort is a permutation ordered by non-increasing OLD length, and keeps the input order among equal lengths |
| Vocabulary.ParseVocabularText | src/srt2csv/vocabulary.py:31-55 | the loop and sort give the sorted collected rules: twice the separator lines, ordered longest first, stable |
| Vocabulary.ApplyReplacements | src/srt2csv/vocabulary.py:70-81 | each rule in list order, by `re.sub` with `\b` or by `str.replace`; no rules gives the line back |
| Vocabulary.ApplyRulesAppend | src/srt2csv/vocabulary.py:75-81 | applying a list is applying its first part, then the rest |
| Vocabulary.NoRuleMatchesLeavesLine | src/srt2csv/vocabulary.py:75-81 | rules none of which matches leave the line unchanged |
| Vocabulary.RewriteContentLine | src/srt2csv/vocabulary.py:108-118 | the inner loop gives every rule applied in order under the no-word-or-hyphen guard; a changed line has logged changes, each one of the rules |
| Vocabulary.RewriteLine | src/srt2csv/vocabulary.py:100-127 | a blank, all-digit or `-->` line is kept; any other line gets every rule in order, and a line that changed is logged stripped, before and after |
| Vocabulary.NoRulesRewriteNothing | src/srt2csv/vocabulary.py:87-88 | with no rules every line is kept as it is |
| Vocabulary.ModifySubtitlesOptimized | src/srt2csv/vocabulary.py:83-129 | no rules gives the text back; otherwise the lines of `splitlines`, each rewritten unless blank, digits or holding `-->`, joined by `'\n'`; every changed line is logged |
| LegacyVocabulary.ParseVocabularFile | vocabulary.py:27-49 | the per-line loop and the sort give the sorted rules: twice the separator lines, longest first, stable |
| LegacyVocabulary.FileRulesAgreeWithText | vocabulary.py:36-46 | iterating the file's lines gives the same rules as `splitlines` |
| LegacyVocabulary.LegacyLines | vocabulary.py:73-83 | one output line per input line |
| LegacyVocabulary.ModifySubtitles | vocabulary.py:67-83 | the output is every input line in order, copied when digits or holding `-->`, otherwise rewritten with `\b` rules |
| LegacyVocabulary.EmptyVocabularyKeepsSubtitles | vocabulary.py:58-64 | a vocabulary without separator lines leaves the subtitles byte for byte |
| VocabularyCases.ApplyReplacementsOnTestSentence | tests/test_srt2csv.py:46-56 | the test sentence becomes the expected one with `\b` rules |
| VocabularyCases.OptimizedRewriteOnTestSentence | tests/test_srt2csv.py:58-60 | the optimized rewriter gives the same expected sentence |
| VocabularyCases.TestRulesRewriteSentence | tests/test_srt2csv.py:47-52 | both test rules in order rewrite the sentence under either boundary rule |
| VocabularyCases.KyivBeforeFullStop | src/srt2csv/vocabulary.py:94 | `Kyiv.` becomes `Kiev.` |
| VocabularyCases.KyivInsideAWord | src/srt2csv/vocabulary.py:94 | `Kyivan` is left alone by both boundary rules |
| VocabularyCases.KyivBeforeHyphenKept | src/srt2csv/vocabulary.py:94 | `Kyiv-based` is left alone by the optimized rule |
| VocabularyCases.KyivBeforeHyphenRewritten | vocabulary.py:60-61 | `\b` rewrites `Kyiv-based` |
| VocabularyCases.SplitAtFirstSeparator | src/srt2csv/vocabulary.py:47 | `a<=>b<=>c` gives OLD `a` and NEW `b<=>c` |
| VocabularyCases.PaddedLineWithAngle | src/srt2csv/vocabulary.py:42-50 | ` x<y <=> z` gives OLD `x<y` and NEWs `Z` and `z`: the whole line and both sides are stripped, and a `<` in OLD does not disturb the split |
| VocabularyCases.TwoPassVocabulary | src/srt2csv/vocabulary.py:40-54 | the lines `q-<=>!` and `.abc<=>X` give the rules of `.abc` first, then those of `q-` |
| VocabularyCases.FirstPass | src/srt2csv/vocabulary.py:100-127 | with those rules `q-.abc` becomes `!.abc`: the hyphen keeps `.abc` from matching |
| VocabularyCases.SecondPass | src/srt2csv/vocabulary.py:100-127 | with those rules `!.abc` becomes `!X` |
| VocabularyCases.SecondRewriteChangesLine | src/srt2csv/vocabulary.py:83-129 | the rewriter is not idempotent: a line it has rewritten can be changed by a second pass with the same rules |
| VocabularyCases.DocstringRules | src/srt2csv/vocabulary.py:33-38 | the docstring's two lines give its four rules in line order |
| VocabularyCases.LongestPatternFirst | src/srt2csv/vocabulary.py:54 | sorted, `Ekaterina II` comes before `Kiyv`, each upper variant before its lower |
| Timecode.ToClock | subtitle_csv.py:13-18 | ms < 1000, seconds < 60, minutes < 60, and the fields add back up to the total milliseconds |
| Timecode.ToClockUnique | subtitle_csv.py:14-18 | fields in range are exactly those of their total |
| Timecode.Field | subtitle_csv.py:19 | a zero-padded field: all digits, reads back as the number, at least the width |
| Timecode.FormatTimedelta | subtitle_csv.py:9-19 | `H:MM:SS,mmm` shape: colons and comma at fixed places from the end, at least twelve characters |
| Timecode.FieldOfDigits | subtitle_csv.py:19 | printing the value of two or three digits at their width gives them back |
| Timecode.Strptime | subtitle_csv.py:45-46 | a stamp reads iff hours ≤ 23, minutes ≤ 59, seconds ≤ 59 and the fraction after the comma is all digits, at most six of them |
| Timecode.StrptimeBound | subtitle_csv.py:45-47 | a read stamp lies within the first day |
| Timecode.FormatWithinDay | subtitle_csv.py:9-19 | a duration under a day prints as exactly twelve characters, field by field |
| Timecode.StrptimeOfFormat | subtitle_csv.py:9-19 | reading a printed duration under a day gives it truncated to whole milliseconds |
| Timecode.StrptimeOfTwelve | subtitle_csv.py:45-46 | a twelve-character stamp reads as its fields in milliseconds, times 1000 |
| Timecode.FormatOfStrptime | subtitle_csv.py:45-47 | printing a read twelve-character stamp gives the stamp back |
| SubtitleCsv.SrtLines | subtitle_csv.py:27 | the parser always has at least one line |
| SubtitleCsv.Kinds | subtitle_csv.py:34-54 | every line is classified, one kind per line |
| SubtitleCsv.TimecodeLineSplit | subtitle_csv.py:38-41 | on a timecode line, split at ` --> ` gives the first stamp and a second piece starting with the second stamp |
| SubtitleCsv.Classify | subtitle_csv.py:35-54 | a text line is never empty |
| SubtitleCsv.Blocks | subtitle_csv.py:42-52 | the lines cut at blank lines always leave a last, open block |
| SubtitleCsv.EmitBlock | subtitle_csv.py:43-48 | an incomplete block, including number 0, adds nothing; a complete one adds an entry iff both stamps read, otherwise raises on a stamp |
| SubtitleCsv.EmitCompleteBlock | subtitle_csv.py:43-48 | a complete block's entry has its number, both times and its lines joined by single spaces |
| SubtitleCsv.ParseBlocksAppend | subtitle_csv.py:34-55 | entries of consecutive blocks are those of each part in order; the first error wins |
| SubtitleCsv.BlocksAroundBlank | subtitle_csv.py:42-52 | a blank line separates the blocks before and after it |
| SubtitleCsv.BlankLineSeparates | subtitle_csv.py:42-52 | after a blank line the state is reset: the text after it is parsed on its own |
| SubtitleCsv.TrailingBlankAddsNothing | subtitle_csv.py:56-62 | a final blank line changes nothing: the last block is emitted with or without it |
| SubtitleCsv.SingleBlock | subtitle_csv.py:34-55 | lines without a blank line form one block |
| SubtitleCsv.BlockWithoutTimecodeDropped | subtitle_csv.py:42-52 | a block without a timecode line is dropped and the blocks after it are still read |
| SubtitleCsv.BlockEntryWellFormed | subtitle_csv.py:43-48 | an emitted entry has a positive number, non-empty text and times within a day |
| SubtitleCsv.ParseBlocksWellFormed | subtitle_csv.py:43-62 | every emitted entry is well formed |
| SubtitleCsv.FallbackEntriesWellFormed | subtitle_csv.py:25-63 | every entry of the fallback parser is well formed |
| SubtitleCsv.ErrorStops | subtitle_csv.py:43-48 | once a block has raised on a stamp, nothing after the next blank line changes the outcome |
| SubtitleCsv.StateAfterLine | subtitle_csv.py:36-54 | an index line sets the number, a timecode line both times, a text line appends to the text |
| SubtitleCsv.BlankLineStep | subtitle_csv.py:42-52 | at a blank line the block is emitted or dropped, or the parse stops on a bad stamp, and the state is reset |
| SubtitleCsv.FallbackParseSrt | subtitle_csv.py:25-63 | the state machine gives exactly the block-by-block reading |
| Replace.ReplaceCharByChar | subtitle_csv.py:85 | replacing one character by another equals substituting it at every position, with the length kept |
| SubtitleCsv.RowText | subtitle_csv.py:85 | the row text has no `'\n'` and no surrounding whitespace |
| SubtitleCsv.RowTextIsFlattened | subtitle_csv.py:85 | the row text is the content with every `'\n'` turned into a space, then stripped |
| SubtitleCsv.RowTextOfOneLine | subtitle_csv.py:85 | a content on one line with no surrounding whitespace is written unchanged |
| SubtitleCsv.SymbolDuration | subtitle_csv.py:86 | 0 for an empty text; otherwise times the length it gives the duration |
| SubtitleCsv.MakeRow | subtitle_csv.py:82-88 | the row holds the given number, times, duration and text; its symbol duration times the text length is its duration, and 0 for an empty text |
| SubtitleCsv.ToRow | subtitle_csv.py:82-88 | the row has the subtitle's number, its start and end as `format_timedelta` prints them, end minus start in seconds, the row text of its content, and a symbol duration that times the text length gives the duration, 0 for an empty text |
| SubtitleCsv.Rows | subtitle_csv.py:81-88 | one row per subtitle, in order, each with the subtitle's number |
| SubtitleCsv.RowsSnoc | subtitle_csv.py:81-88 | one more subtitle adds exactly its row at the end |
| SubtitleCsv.RowsOf | subtitle_csv.py:81-88 | the row loop gives the rows of all subtitles |
| SubtitleCsv.SrtToCsv | subtitle_csv.py:69-88 | the rows of the parsed subtitles, or of the fallback parser when `srt.parse` fails; its error ends the conversion |
| SubtitleCases.OneSecond | subtitle_csv.py:45 | `00:00:01,000` reads as one second |
| SubtitleCases.TwoAndAHalfSeconds | subtitle_csv.py:46 | `00:00:02,500` reads as 2.5 seconds |
| SubtitleCases.TwoTextLines | subtitle_csv.py:34-63 | an index, a timecode line and two text lines give one entry with the lines joined by a space |
| SubtitleCases.IndexZeroDropped | subtitle_csv.py:57 | a block numbered 0 gives no entry |
| SubtitleCases.MissingTimecodeDropped | subtitle_csv.py:42-52 | a block without timecode is dropped and the next block is read |
| Speakers.CloseFrom | subtitle_csv.py:104 | the lazy `.*?`: the first `]: ` reached before any line break, and no earlier one |
| Speakers.TagFrom | subtitle_csv.py:104 | `re.search`: the leftmost match, the shortest there, or no match anywhere |
| Speakers.FirstTagIsLeftmostShortest | subtitle_csv.py:104-107 | the tag taken is a match, and every other match opens later or closes later |
| Speakers.ExtractSpeaker | subtitle_csv.py:104-112 | with a non-empty first tag: speaker is its content, text is the rest stripped; otherwise empty speaker and text unchanged |
| Speakers.NoTagNoSpeaker | subtitle_csv.py:111-112 | a text without a tag keeps its text and has no speaker |
| Speakers.SpeakerIsOneLine | subtitle_csv.py:104 | the speaker never holds a line break |
| Speakers.GreetingHasSpeaker | subtitle_csv.py:104-110 | `[Anna]: Hello` gives speaker `Anna` and text `Hello` |
| Speakers.EmptyTagKeepsText | subtitle_csv.py:108-112 | `[]: Hi` gives an empty speaker and leaves the text |
| Speakers.Annotate | subtitle_csv.py:101-113 | the metric columns are copied; speaker and text are those of the tag |
| Speakers.AddSpeakerColumns | subtitle_csv.py:93-113 | every row in order, annotated |
| Speakers.FloorIndexFrom | subtitle_csv.py:128-132 | the first index from here with an element below the value, else the last; every element skipped is at least the value |
| Speakers.FloorIndex | subtitle_csv.py:126-134 | the scan's index is in bounds |
| Speakers.FloorIndexIsScanResult | subtitle_csv.py:126-134 | the index is the first with an element strictly below the value, or the last when none is |
| Speakers.FloorScanResultUnique | subtitle_csv.py:126-134 | only one index fits that description |
| Speakers.FindClosestFromFloorValueIndex | subtitle_csv.py:116-134 | the scan returns an in-bounds index and the element there; the first element below the value, else the last |
| Speakers.FloorOfNonIncreasing | subtitle_csv.py:116-134 | on a non-increasing list the scan gives the largest element below the value, or the smallest when none is |
| Speakers.AscendingTableIsNotFloored | subtitle_csv.py:118 | on 1, 2, 3 with value 2.5 the scan gives index 0, although 2 is the largest value not above 2.5 |
| Speakers.Lookup | subtitle_csv.py:148 | a voice exactly for a name that is a voice key and not a reserved key; a missing name is a KeyError |
| Speakers.ResolveSpeaker | subtitle_csv.py:147-153 | a known speaker is kept; a missing one is replaced by the default speaker; the resolved voice is in the dictionary |
| Speakers.SpeedColumns | subtitle_csv.py:145-158 | the row gets the resolved speaker, the table element the scan picks for its symbol duration and the speed at the same index; a lookup failure is passed on |
| Speakers.UnknownSpeakerUsesDefault | subtitle_csv.py:149-153 | a speaker not in the dictionary is written as the default speaker |
| Speakers.KnownSpeakerKept | subtitle_csv.py:147-148 | a known speaker keeps its name |
| Speakers.SpeedRows | subtitle_csv.py:144-160 | one row out per row in |
| Speakers.SpeedRowsPerRow | subtitle_csv.py:144-160 | all rows succeed iff each does, each output row is its input's columns, and an error is that of the first failing row |
| Speakers.SpeedRowsStopAtError | subtitle_csv.py:144-160 | a failure in the first rows is the failure of the whole file |
| Speakers.SpeedColumnsOf | subtitle_csv.py:145-158 | the loop body gives the speed columns of its row |
| Speakers.AddSpeedColumns | subtitle_csv.py:137-160 | the loop gives the speed rows, stopping at the first failure |

## Left out

- File and CSV input and output are not modelled. This covers `open`, `csv.writer`, `DictReader`/`DictWriter` with `QUOTE_ALL`, the header rows and the conversion of numbers to and from CSV text. Rows are values, and line sequences are strings.
- `print` and `logging` output is not modelled. The optimized rewriter's log is returned as a list of before/after pairs.
- `srt.parse` is a foreign library. `SubtitleCsv.SrtToCsv` takes its outcome as a parameter: its subtitles, or none when it raises.
- `datetime.strptime` is modelled only for texts that start with a `dd:dd:dd,ddd` timecode, which are the only texts the parser hands it.
  - `%H`, `%M` and `%S` are read as exactly two digits.
- `Timecode.FormatTimedelta`: does not model the floating-point `int(td.total_seconds() * 1000)`. Durations are exact microseconds, truncated to milliseconds. The float product can lose a millisecond, which the model does not show.
- `SubtitleCsv.SymbolDuration`: durations are exact reals, not floats.
- Character classes are ASCII:
  - `\w`, `str.isdigit`, `str.upper` and `str.lower` follow ASCII rules.
  - `str.strip` strips ASCII whitespace.
  - `'\n'` is the only line break for `splitlines`.
  - Unicode letters, digits and case mappings are not modelled.
- The replacement texts of `re.sub` are taken literally. Backslash and group references in NEW are not expanded.
- In `Speakers.Speakers`, the speakers dictionary is taken as `get_speakers_from_folder` builds it: voices by name plus the two reserved keys `default_speaker_name` and `speakers_names`.
  - `get_speakers_from_folder` itself scans the file system and is left out.
  - Its `ref_file`, `ref_text` and `durations` entries are unused by the modelled code.
- `Speakers.AddSpeedColumns`: does not model the rows already written to the output file before an exception.
- `Speakers.AddSpeakerColumns`: the rows come from `srt_to_csv`'s row type, and the CSV round trip of their values is not modelled.
- `check_vocabular`, `parse_vocabular_file`'s file wrapper, `check_texts`, `check_speeds_csv`, `csv2excel`, `take_first`, `__main__.py` and `setup.py` are not part of this model. They do file-system work, text-to-speech, pandas/Excel export, command-line parsing or packaging.

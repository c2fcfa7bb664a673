# Scenario files and the statistics log of the solar-system simulator

This project is a Dafny model of the persistence layer of a small N-body
simulator. It covers `solar_input.py`:

- the scenario loader `read_space_objects_data_from_file`: how it classifies
  each line (skipped, record, unknown) and dispatches record lines to a parser;
- the record parsers `parse_star_parameters` and `parse_planet_parameters`;
- the scenario writer `write_space_objects_data_to_file`;
- the statistics log: `save_statistics` appends one block per call and
  `clear_statistics` truncates the log.

How the model represents the program:

- **Files.** A file is the sequence of its lines. Each line keeps its newline,
  as Python's line iteration hands it over. The statistics log `stats.txt` is
  such a sequence, and each call maps the old log to the new one.
- **Bodies.** A body is the record of its public attributes: `type`, `R`,
  `color`, `m`, `x`, `y`, `Vx`, `Vy`.
- **Numbers.** Numbers are exact decimals `mant * 10^exp` (module `Numbers`),
  kept canonical, with no trailing zero in the mantissa.
  - `float(token)` is a scanner for `[sign] digits [. digits] [(e|E) [sign] digits]`.
  - `%d` truncates toward zero.
  - `%f` rounds half-to-even to six decimals and keeps the value's sign.
  - `%s` (Python's `repr` of a float) writes the shortest digits. It uses
    positional form while the decimal exponent lies in [-4, 16), and
    `d.ddde±XX` otherwise.
- **Strings.** `str.split()`, `str.strip()` and `str.lower()` are modelled on
  `seq<char>` (module `Text`). Whitespace is Python's whitespace set; only
  ASCII letters change case.
- **Loading.** Loading is a left fold over per-line steps:
  - skip;
  - report one "Unknown space object" diagnostic;
  - append one body;
  - fail.

  A parser's exception (`IndexError` for a missing token, `ValueError` for a
  token `float()` rejects) ends the load. The result is then an error naming
  the 0-based line number and the reason, and no partial list is returned.
- **Printed diagnostics.** They are modelled as a count.

The main results:

- **The loader.**
  - Its result is the bodies of the record lines, in file order, with one
    diagnostic per unknown line (`LoadInOrder`).
  - A load succeeds exactly when every record line parses
    (`LoadSucceedsIff`). A failure names the first bad line (`LoadFailsAtFirst`).
  - Skipped lines are invisible (`SkippedLineInvisible`). Loading
    distributes over concatenation of files (`LoadConcat`).
- **The writer.** Loading what the writer wrote gives back each body in the
  form the format keeps (`LoadWriteScenario`, `ParseFormatRecord`):
  - the radius is truncated;
  - the colour is lower-cased;
  - the mass is exact;
  - coordinates and velocities are rounded to six decimals.

  That form is a fixed point (`ReloadedStable`).
- **The statistics log.**
  - It only grows between clears (`ReplayAppends`).
  - After the last clear it holds exactly the blocks saved since
    (`ReplayAfterClear`).
  - Reading it with the scenario loader adds each block's bodies after the
    earlier ones, because the blank separator lines are skipped
    (`LoadSavedStatistics`).

Behaviours of the code worth noting:

- The mass is written with `%s`, not with fixed-point formatting. The sample
  body's mass `1000` is written `1000.0`, not `1000.000000` (`SampleFields`).
- The comment test looks at the raw first character of the line, not at the
  trimmed line. An indented `# ...` line is not skipped: it is dispatched on
  its first token, which starts with `#`, and reported as an unknown object
  (`IndentedComment`).
- The parsers do not demand exactly eight tokens. Tokens after the eighth are
  never read (`ExtraTokensIgnored`). The fields are read in order, and a
  failing line raises the exception of its first unreadable field: the
  IndexError of an absent index, or the ValueError of `float()` on a token
  that is not a number (`ParseRecordFirstError`). So a short line fails with
  the index of the first absent field when the numbers before it parse
  (`ShortRecordFails`).
- An unknown object line does not abort the load. A record line
  whose parser raises does abort it, because the loop does not catch the
  exception.

Files:

| file | module | contents |
|---|---|---|
| `wrappers.dfy` | `Wrappers` | `Option`, `Result` |
| `text.dfy` | `Text` | whitespace, `split`, `strip`, `lower`, the writer's line layout |
| `numbers.dfy` | `Numbers` | exact decimals, `float()`, `%d`, `%f`, `%s` and their read-back lemmas |
| `bodies.dfy` | `Bodies` | the body record, the two parsers, the record line written for a body |
| `scenario.dfy` | `Scenario` | line classification, the loader, the writer |
| `statistics.dfy` | `Statistics` | `save_statistics`, `clear_statistics`, runs of calls on the log |
| `samples.dfy` | `Samples` | the documented sample line `Star 10 red 1000 1 2 3 4` |

## Model

| member | source | states |
|---|---|---|
| Text.StripEmptyIffNoTokens | solar_input.py:18 | a stripped line is empty exactly when every character is whitespace, which is exactly when `split()` finds no token |
| Text.SplitLower | solar_input.py:48 | splitting the lower-cased line gives the lower-cased tokens of the line, so the parser's `line.lower().split()` and the loader's `line.split()[0].lower()` agree |
| Text.SplitJoinLine | solar_input.py:92 | splitting a line laid out as the writer lays it out (each token followed by one space, then the newline) gives back exactly the tokens |
| Text.JoinLineEnds | solar_input.py:92 | a written line ends with a space followed by the newline |
| Numbers.Trunc | solar_input.py:92 | `%d` of a value: the integer part, truncated toward zero, with the value's sign |
| Numbers.RoundMicros | solar_input.py:92-98 | `%f` of a value in millionths: within half a millionth of the value, ties to the even neighbour, with the value's sign |
| Numbers.ParseFormatInt | solar_input.py:92 | `float()` of the `%d` text gives the truncated value |
| Numbers.ParseFormatFixed | solar_input.py:92-98 | `float()` of the `%f` text gives the value rounded to six decimals |
| Numbers.ParseFormatRepr | solar_input.py:92-94 | `float()` of the `%s` text gives the value exactly, in positional and in scientific layout |
| Numbers.FormatIntPlain | solar_input.py:92 | the `%d` text is one non-empty token without whitespace or capitals |
| Numbers.FormatFixedPlain | solar_input.py:92-98 | the `%f` text is one non-empty token without whitespace or capitals |
| Numbers.FormatReprPlain | solar_input.py:92-94 | the `%s` text is one non-empty token without whitespace or capitals |
| Numbers.ParseInteger | solar_input.py:50 | `float()` of a run of digits, unsigned, with `+` or with `-`, is the integer those digits spell with that sign |
| Numbers.PlusSignNeutral | solar_input.py:50 | a `+` in front of a token that does not itself start with a sign changes nothing `float()` reads: the same value, or the same rejection |
| Bodies.ParseRecord | solar_input.py:48-56 | a record line parses exactly when it has at least eight tokens and tokens 1, 3, 4, 5, 6 and 7 are numbers; the body then has the given kind, token 2 as its colour and the numbers of tokens 1 and 3 to 7 in field order |
| Bodies.RecordTokensLower | solar_input.py:48 | every token the parsers see is a whitespace-free word with no capital letter |
| Bodies.ParsedColorIsLowerWord | solar_input.py:70-73 | a parsed body has the kind it was parsed as and a lower-case, whitespace-free colour |
| Bodies.ParseFields | solar_input.py:49-56 | fields are read in the order 1 to 7: the parse fails with the IndexError of an absent index or the ValueError of a non-numeric token at the first field that cannot be read, all earlier fields being readable |
| Bodies.ParseRecordFirstError | solar_input.py:48-56 | a failing record line raises the exception of its first unreadable field: `Missing(i)` when index `i` is absent, `NotANumber(t)` when its token `t` is not a number |
| Bodies.ShortRecordFails | solar_input.py:48-56 | a line with fewer than eight tokens, whose field tokens present other than the colour are all numbers, fails with the index of the first missing field |
| Bodies.ExtraTokensIgnored | solar_input.py:70-78 | two lines that agree on their first eight tokens parse to the same result, whatever follows |
| Bodies.TagWord | solar_input.py:91-100 | the tag written for a body is one word, `Star` for a star and `Planet` for any other type, and lower-cases to the kind the loader dispatches on |
| Bodies.FormatRecordTokens | solar_input.py:92-98 | a written line splits into exactly its eight fields (tag, `%d` radius, colour, `%s` mass, four `%f` numbers), and the parsers see them lower-cased |
| Bodies.FormatRecordEnds | solar_input.py:100 | a written line ends with a space and the newline |
| Bodies.ParseFormatRecord | solar_input.py:92-98 | parsing a written line with the kind its tag names gives the reloaded body: radius truncated, colour lower-cased, mass exact, the rest rounded to six decimals |
| Bodies.ReloadedStable | solar_input.py:92-98 | reloading a reloaded body changes nothing: a second write and read cycle loses no more information |
| Scenario.Classify | solar_input.py:18-31 | a line is only ever dispatched as `star` or `planet` |
| Scenario.ClassifyCases | solar_input.py:18-22 | a line is skipped exactly when its stripped form is empty or its raw first character is `#`; it is parsed exactly when, besides, its lower-cased first token is `star` or `planet`, which is then its kind |
| Scenario.ClassifyAgreesWithParser | solar_input.py:21-24 | the keyword the loader dispatches on is token 0 of the list the parser reads |
| Scenario.IndentedComment | solar_input.py:18-31 | every line that starts with whitespace and whose first non-blank character is `#` is not a comment: it is reported as an unknown object |
| Scenario.LineStep | solar_input.py:17-31 | a line is skipped exactly when it is blank or a comment, reported exactly when its keyword is unknown, and parsed exactly when it is a record line |
| Scenario.Load | solar_input.py:15-33 | a failed load names a line of the file |
| Scenario.ReadScenario | solar_input.py:15-33 | the line-by-line loop computes the load: it appends parsed bodies, counts unknown lines and stops at the first parser exception |
| Scenario.LoadConcat | solar_input.py:17-31 | loading two files one after the other equals loading their concatenation: bodies and diagnostics add up, the second part's error lines move by the first part's length, and a failure in the first part hides the second |
| Scenario.SkippedLineInvisible | solar_input.py:18-19 | inserting a blank or comment line anywhere changes neither the outcome nor the bodies nor the diagnostics |
| Scenario.UnknownLineCounted | solar_input.py:30-31 | inserting an unknown line adds exactly one diagnostic and no body, and the lines after it are still loaded |
| Scenario.ShortRecordAbortsLoad | solar_input.py:24-28 | a record line with fewer than eight tokens aborts the load at that line, whatever follows |
| Scenario.OnlySkippedLines | solar_input.py:18-19 | a file of blank and comment lines loads to no body and no diagnostic |
| Scenario.LoadSucceedsIff | solar_input.py:21-29 | the load succeeds exactly when every record line parses |
| Scenario.LoadFailsAtFirst | solar_input.py:21-29 | a failed load reports the first record line that does not parse, with the parser's error, and every record line before it parses |
| Scenario.RecordIndicesExact | solar_input.py:18-29 | the record line numbers are strictly increasing and are exactly the lines classified as records |
| Scenario.LoadInOrder | solar_input.py:15-33 | there is one body per record line, the k-th body is the parse of the k-th record line, and the diagnostics count the unknown lines |
| Scenario.WriteScenario | solar_input.py:89-106 | one line per body, in the given order, each the body's record line |
| Scenario.WrittenLine | solar_input.py:91-106 | a written line has eight tokens, begins with `Star` exactly for a star and `Planet` otherwise, ends with a space and the newline, and is classified as a record of the kind its tag names |
| Scenario.WrittenLineStep | solar_input.py:91-106 | the loader turns a written line into the reloaded body |
| Scenario.LoadWriteScenario | solar_input.py:89-106 | loading a written scenario gives the reloaded bodies in the same order, with no diagnostic |
| Scenario.LoadWriteScenarioExact | solar_input.py:89-106 | bodies already in the form the format keeps (whole radius, lower-case colour, six-decimal coordinates) are read back exactly, in order, with no diagnostic |
| Statistics.SaveStatistics | solar_input.py:117-136 | the old log is kept unchanged, one record line per body follows in order, written as the scenario writer writes it, and a blank line ends the block |
| Statistics.ClearStatistics | solar_input.py:139-141 | the log is left empty |
| Statistics.SaveTwice | solar_input.py:117 | saving the same bodies twice appends the same block twice: there is no deduplication |
| Statistics.ReplayAppends | solar_input.py:117-136 | without a clear, a run of saves keeps the old log and appends the saved blocks in call order |
| Statistics.ReplayConcat | solar_input.py:117-141 | a run of calls split in two is replayed one part after the other |
| Statistics.ReplayAfterClear | solar_input.py:139-141 | after the last clear the log holds exactly the blocks saved since, whatever came before |
| Statistics.LoadSavedStatistics | solar_input.py:117-136 | the scenario loader reads a saved log as the earlier log's load followed by the reloaded bodies, with no new diagnostic |
| Statistics.LoadBlock | solar_input.py:117-136 | one saved block loads to the reloaded bodies |
| Statistics.BlankLineSkipped | solar_input.py:136 | the block separator is a line the loader skips |
| Statistics.LoadClearedStatistics | solar_input.py:139-141 | a cleared log loads to no body and no diagnostic |
| Samples.SampleStarLine | solar_input.py:42 | any line with the tokens `Star 10 red 1000 1 2 3 4` parses to radius 10, colour `red`, mass 1000, position (1, 2), velocity (3, 4) |
| Samples.SampleFields | solar_input.py:92-98 | the sample body is written with the fields `Star 10 red 1000.0 1.000000 2.000000 3.000000 4.000000` |
| Samples.SampleReloaded | solar_input.py:92-98 | the sample body is its own reloaded form, so by `LoadWriteScenarioExact` a written sample reads back unchanged |

## Left out

- File handles, `open` and its modes, and closing the file are not modelled. A file is its list of lines, and the statistics log's fixed path `stats.txt` is implicit.
- Splitting a file's text into lines is not modelled, including Python's universal-newline translation. So is appending to a log whose last line has no newline.
- Wrapping every body in a `DrawableObject` (line 33) is not modelled. `solar_vis.py` is not part of this model. The load result is the list of bodies.
- The `Star` and `Planet` classes in `solar_objects.py` are not part of this model. A body is the record of the attributes the format reads and writes.
- `make_point`, which computes plot points for a plotting collaborator, is not modelled.
- The text of the `print` diagnostic is not modelled, only how many times it is printed.
- Numbers are exact decimals, not IEEE doubles. The binary rounding of `float()` and the limits of the float range are not modelled. The same holds for negative zero: `-0.000000` reads back as zero here.
- `float()` values `inf` and `nan`, digits with `_` separators and non-ASCII digits are not modelled. Such tokens are rejected.
- `str.lower()` beyond the ASCII letters is not modelled.
- `Scenario.WrittenLine`, `Bodies.ParseFormatRecord`, `Scenario.LoadWriteScenario` and `Statistics.LoadSavedStatistics` assume that the colour is a single whitespace-free, non-empty word. The writer prints any colour, and a colour with whitespace reads back as different tokens.
- `Bodies.ReloadedStable` states that values are stable after one write and read cycle. It does not state that the written text is stable: because negative zero is not modelled, a tiny negative coordinate first prints as `-0.000000` and later as `0.000000`.
- `Samples.SampleStarLine` takes any line with the sample's tokens. It does not work through the literal text of the sample line character by character.

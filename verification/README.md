# Rank score logger and plotter: a Dafny model

RankScoreVisualization is two small command-line programs that share one CSV
file format. `data.py` is the logger:
- it creates a record file holding a header and an initial score, or resumes one by reading the score in its last row;
- it then appends one timestamped row for every accepted score change, until the user types `q`;
- before every read and every append it runs a format guard. The guard drops blank lines and makes sure the file ends in a newline.

`drawing.py` is the plotter:
- it picks a `.csv` file from a numbered list;
- it loads the file's rows into two parallel lists, one of times and one of scores;
- it builds the x-axis labels and the hour ticks that the charts use.

This project models the logger and the plotter's preprocessing, and proves
properties about them. The modules follow the programs:

| module | file | models |
|---|---|---|
| `Wrappers` | wrappers.dfy | the `Option` result type |
| `Seqs` | seqs.dfy | list comprehensions with a filter |
| `PyText` | pytext.dfy | `str.strip`, `str.endswith`, `str.split` |
| `PyInt` | pyint.dfy | `int()` on text and `str()` on integers |
| `Lines` | lines.dfy | `readlines()` with `newline=''`, and the line body the `csv` reader sees |
| `FormatGuard` | format_guard.dfy | `check_format` as a function on the file text |
| `Timestamps` | timestamps.dfy | `datetime` values at minute resolution, `strftime`/`strptime` with `%Y-%m-%d-%H-%M`, `date()` and the hour truncation |
| `Records` | records.dfy | CSV rows as `csv.writer` writes them and as the plotter parses them |
| `Validation` | validation.dfy | `validate_initial_score`, `validate_score_change` |
| `Prompts` | prompts.dfy | the numbered `.csv` file list, the quit sentinel and the 1-based choice |
| `Logger` | logger.dfy | `create_new_record`, `select_existing_record`, `work_mode`, and the working directory as a `Folder` object |
| `Drawing` | drawing.dfy | `select_csv_file`, `load_csv`, the label loop and the hour-tick loop |

Modelling choices:
- The working directory is a `Folder` object. Its `files` field maps each file name to the file's text. The methods that write files update that field in place.
- The directory listing is a parameter, a sequence of names in listing order.
- User input is a sequence of lines. In the logger, each line carries the clock reading at the moment it is handled (`Entry.at`), and that reading stamps any row the line causes.
- Every loop that re-prompts ends in one of two ways:
  - with a result value where the source returns or calls `sys.exit`;
  - with an "input exhausted" value when the lines run out.
- Every loop over lists (the row parser, the label loop, the hour-tick loop) is a `method` with a `while` loop. Each is proved equal to a reference function, and lemmas give that function its meaning.

What the resume prompt does with a bad file:
- When a resumed file's last row has a score that is not an integer, the `ValueError` is caught at `data.py:125-126` and the prompt asks again. It does not crash.
- A last row with a single field raises `IndexError`, which nothing catches. The model reports this as `Fatal`, as it does for an empty file, where `next(reader)` raises `StopIteration`.
- A header-only file gives no score, and the prompt asks again without a message.

## Model

| member | source | states |
|---|---|---|
| Validation.ValidateInitialScore | data.py:6-17 | a score is returned exactly when the text parses as an integer greater than zero, and it is that integer |
| Validation.InitialScoreOfStr | data.py:6-17 | the decimal spelling of `n` is accepted exactly when `n > 0`, and yields `n` |
| Validation.ValidateScoreChange | data.py:19-31 | a change is returned exactly when the text parses as an integer in {-20, -10, -5, 0, 20}, and it is that integer |
| Validation.ScoreChangeOfStr | data.py:19-31 | the decimal spelling of `c` is accepted exactly when `c` is one of the five allowed changes, and yields `c` |
| PyInt.ParseInt | data.py:9 | `int()` on text: surrounding whitespace ignored, an optional sign, then ASCII digits; anything else is the `ValueError`, here `None` |
| PyInt.ParseStr | data.py:9 | `int()` reads back the decimal text of every integer, negative ones included; Python 3.11 and later refuse texts of more than 4300 digits (see "## Left out") |
| PyInt.Str | data.py:84 | `str()` of an integer, as `writerow` writes the score: at least one character, and only digits for a non-negative integer; its partner is `PyInt.ParseStr` |
| PyText.Strip | data.py:59 | `str.strip()` with the whitespace set of `str.isspace`; its meaning is stated by the two lemmas below |
| PyText.StripSpec | data.py:59 | `strip()` returns a contiguous slice with only whitespace outside it and no whitespace at either end; it is empty exactly when the text is all whitespace |
| PyText.StripUnchanged | data.py:59 | text with no whitespace at either end is its own `strip()` |
| PyText.SplitOn | drawing.py:50 | `str.split(',')`: there is always at least one part |
| PyText.SplitOnSpec | drawing.py:50 | no part of a split contains the separator, and joining the parts with it restores the text |
| PyText.SplitJoin | drawing.py:50 | splitting the join of separator-free parts gives back exactly those parts |
| Seqs.Filter | data.py:42 | a list comprehension with a condition: never longer than the list |
| Seqs.FilterAppend | data.py:42 | filtering a concatenation is concatenating the filtered parts |
| Seqs.FilterSpec | data.py:42 | a comprehension with a filter keeps only list members that pass it, and keeps the whole list when every member passes |
| Seqs.FilterPosition | data.py:42 | a member that passes the filter is kept at the position right after the members kept before it: the order is preserved |
| Lines.ReadLines | data.py:37 | `readlines()` with `newline=''`: each line ends after its `\n`, `\r\n` or lone `\r`, which it keeps; its meaning is stated by the three lemmas below |
| Lines.Concat | data.py:50 | `writelines`: the lines written one after another; its partner is `Lines.ReadLinesConcat` |
| Lines.ReadLinesJoin | data.py:37 | `readlines()` loses nothing: the lines concatenate back to the file text |
| Lines.ReadLinesOk | data.py:37 | every line read ends at its first terminator, and every line except the last is terminated |
| Lines.ReadLinesConcat | data.py:50 | lines written with `writelines` read back as the same lines when each one ends where a line break falls |
| Lines.Chomp | drawing.py:49 | the line body the `csv` reader splits: the line without its terminator; its meaning is stated by `Lines.ChompSpec` |
| Lines.ChompSpec | drawing.py:49 | only the terminator is dropped: the body is a prefix of the line, what follows it is nothing, `\n`, `\r` or `\r\n`, and it is nothing exactly when the line does not end in a line break; for a single line the body holds no terminator |
| FormatGuard.IsBlankLine | data.py:42 | `line.strip() == ''`; `PyText.StripSpec` says this is a line of whitespace only |
| FormatGuard.KeepNonBlank | data.py:42 | the comprehension that drops blank lines; its meaning is stated by `FormatGuard.KeptNotBlank` and `FormatGuard.KeptInOrder` |
| FormatGuard.EnsureFinalNewline | data.py:45-46 | a missing final `\n` is added to the last line; its meaning is stated by `FormatGuard.FinalNewlineSpec` |
| FormatGuard.CleanLines | data.py:42-46 | `cleaned_lines`: the non-blank lines with the final-newline fix; its meaning is stated by `FormatGuard.CleanLinesSpec` and `FormatGuard.CleanLinesTidy` |
| FormatGuard.KeptNotBlank | data.py:42 | no line kept by the comprehension is blank after `strip()` |
| FormatGuard.FinalNewlineSpec | data.py:45-46 | adding the final newline changes only the last line, which gains `\n` exactly when it did not end in one; afterwards no line is blank and the last one ends in `\n` |
| FormatGuard.CleanLinesSpec | data.py:42-46 | the cleaned lines are the non-blank lines: the same count, all but the last unchanged, the last gaining `\n` exactly when it has none; none is blank and the last ends in `\n` |
| FormatGuard.KeptInOrder | data.py:42-46 | every non-blank line appears in the cleaned lines right after the non-blank lines before it, unchanged unless it is the last |
| FormatGuard.CleanLinesTidy | data.py:42-50 | the cleaned lines, once written, read back as the same lines |
| FormatGuard.Formatted | data.py:36-51 | the file text after `check_format`: an empty file unchanged, otherwise the cleaned lines written back and the rest truncated; its meaning is stated by the lemmas below |
| FormatGuard.FormattedReadsBack | data.py:36-51 | reading the rewritten file gives the cleaned lines of the original file |
| FormatGuard.FormattedEmpty | data.py:38-39 | an empty file is left empty |
| FormatGuard.FormattedNoBlankLine | data.py:42 | no line of the rewritten file is blank |
| FormatGuard.FormattedEndsInNewline | data.py:45-46 | the rewritten file is empty or ends in `\n` |
| FormatGuard.FormattedEmptyWhenBlank | data.py:38-42 | the rewritten file is empty exactly when every line of the original is blank |
| FormatGuard.FormattedShape | data.py:38-51 | the three facts above together |
| FormatGuard.FormattedTidy | data.py:33-51 | a file whose lines are already clean is left unchanged |
| FormatGuard.FormatIdempotent | data.py:33-51 | running the guard twice gives the same text as running it once |
| FormatGuard.AppendToFormatted | data.py:145-152 | after the guard, appended clean rows read back as the old lines followed by those rows, and the guard leaves the result unchanged |
| FormatGuard.CsvLineTidy | data.py:152 | a CSV row whose body has no terminator and does not start with whitespace is a clean line, and its body is what the reader sees |
| Timestamps.HourOf | drawing.py:161 | truncating to the hour keeps the date and the hour and zeroes the minute |
| Timestamps.HourOfMonotone | drawing.py:161 | truncating to the hour preserves chronological order |
| Timestamps.DateOf | drawing.py:85 | `.date()`: the year, month and day of a time, also used at drawing.py:160 and drawing.py:172; `Timestamps.HourOf` keeps it |
| Timestamps.Parse | drawing.py:51 | a time accepted by `strptime` is a real calendar time: month, day within its month, hour and minute all in range |
| Timestamps.Format | data.py:83 | `strftime("%Y-%m-%d-%H-%M")`: zero-padded year, month, day, hour and minute joined by `-`; its partner is `Timestamps.ParseFormat` |
| Timestamps.Pad2Value | data.py:83 | the two-digit zero-padded text of `n < 100` reads back as `n` |
| Timestamps.Pad4Value | data.py:83 | the four-digit zero-padded text of `n < 10000` reads back as `n` |
| Timestamps.ParseFormat | drawing.py:51 | `strptime` of the `strftime` text of a valid time gives that time back |
| Timestamps.FormatChars | data.py:83 | a formatted time contains only digits and `-`, so a CSV row never needs quoting |
| Records.RowText | data.py:84 | `writerow([timestamp, score])`: the time text, a comma, the score text and `\r\n`; its partners are `Records.RowFields` and `Records.ParseRowText` |
| Records.RowLinesAt | data.py:152 | the written rows are one line per record, in record order |
| Records.Fields | drawing.py:49-50 | the fields a `csv` reader yields for a line: none for an empty line, otherwise the comma-separated parts of the line without its terminator |
| Records.ParseRow | drawing.py:50-53 | a parsed row always carries a valid time |
| Records.FileText | data.py:78-84 | the file `create_new_record` writes and the append loop extends: the header row `time,score\r\n` followed by one written row per record; its meaning is stated by `Records.FileLines` and `Records.FileRoundTrip` |
| Records.HeaderTidy | data.py:81 | the header row is a clean line |
| Records.RowTidy | data.py:84 | a written data row is a clean line whose body is the time, a comma and the score |
| Records.RowFields | data.py:84 | a written data row has exactly two fields: the time text and the score text |
| Records.ParseRowText | drawing.py:50-53 | a written data row parses back to its own record |
| Records.RowLinesTidy | data.py:152 | any run of written data rows is clean |
| Records.FileLines | data.py:78-84 | a written file reads as the header followed by one line per record |
| Records.FileRoundTrip | drawing.py:46-53 | every data line of a written file parses back to its record, in order |
| Prompts.IsQuit | data.py:105 | `choice.lower() == 'q'` on a stripped answer: exactly `q` or `Q`, also at data.py:135 and drawing.py:28; `Prompts.QuitIsNoChoice` says it is never a number |
| Prompts.CsvFiles | data.py:93 | the `.csv` names of the listing, in listing order; its meaning is stated by `Prompts.CsvFilesInOrder` and `Prompts.CsvFilesMembers` |
| Prompts.ChoiceIndex | data.py:108-109 | an accepted choice is an index into the list |
| Prompts.ChoiceOfStr | data.py:108-109 | typing `k` selects entry `k - 1` exactly when `1 <= k <= count` |
| Prompts.QuitIsNoChoice | data.py:105 | the quit sentinel is never read as a number |
| Prompts.CsvFilesInOrder | data.py:93-100 | the numbered `.csv` list keeps the listing order |
| Prompts.CsvFilesMembers | data.py:93 | every numbered file is a listed name that ends in `.csv` |
| Logger.Folder.CheckFormat | data.py:33-54 | it fails on a missing file, the `IOError` exit; otherwise that file becomes its formatted text and no other file changes |
| Logger.Folder.AppendRow | data.py:150-152 | the file gains exactly the row's text at its end (it is created if missing), and nothing else changes |
| Logger.NameAccepted | data.py:59-67 | a stripped name is accepted when it is non-empty and `<name>.csv` does not exist; `Logger.AskName` stops exactly at the first such name |
| Logger.AskName | data.py:58-67 | it stops at the first answer whose stripped text is non-empty and names no existing `.csv` file; every earlier answer failed that test |
| Logger.AskInitialScore | data.py:70-74 | it stops at the first answer that is a valid initial score, returns that score, and every earlier answer was invalid |
| Logger.CreateNewRecord | data.py:56-89 | every rejected name and score was invalid; on success the new file `<name>.csv` holds exactly the header and one row with the validated score, stamped at the last answer, and nothing else changes; with input exhausted nothing is written |
| Logger.ReadRow | data.py:120-121 | what the resume prompt reads from the last row: no score, the uncaught `IndexError`, `int()` of the second field, or the caught `ValueError`; its meaning is stated by `Logger.ReadRowSpec` |
| Logger.ReadRowSpec | data.py:120-121 | an empty row gives no score; a crash happens exactly for a one-field row; a row of two or more fields gives `int()` of its second field as the score when `int()` accepts it, and the caught `ValueError` exactly when it does not |
| Logger.ResumeRead | data.py:114-121 | skip the header, keep the last row, read its score; its meaning is stated by `Logger.ResumeReadSpec` |
| Logger.ResumeReadSpec | data.py:114-121 | an empty file is the uncaught `StopIteration`; a header-only file gives no score; a file of two or more lines is read from its last line, and only such a file gives a score |
| Logger.RowReadsBack | data.py:114-121 | the resume reader reads a written row's own score |
| Logger.ScoredFileNotBlank | data.py:112-121 | a file that yields a score is not emptied by the guard |
| Logger.ResumeReadsLastRow | data.py:114-122 | a file with a header and a written last row resumes with that row's score |
| Logger.ResumeAfterWrites | data.py:114-122 | a written file resumes with its last record's score; a header-only file gives no score |
| Logger.GuardedStep | data.py:112 | guarding a file again keeps the folder to original or formatted files, and that file formatted |
| Logger.ChoiceOutcome | data.py:104-126 | what one stripped answer does at the resume prompt, judged on the folder before the guard runs; its meaning is stated by `Logger.ChoiceOutcomeSpec`, `Logger.AskAgainOutOfRange`, `Logger.ResumeChoice` and `Logger.ResumeWrittenFile` |
| Logger.ChoiceOutcomeSpec | data.py:104-126 | an answer quits exactly when it is `q` or `Q`; any other answer that is not the number of a listed file makes the prompt ask again; a resumed session always names a numbered file that exists |
| Logger.AskAgainOutOfRange | data.py:108-124 | typing a number `k` outside `1..len(csv_files)` makes the prompt ask again; with `Logger.ResumeWrittenFile` this gives both directions of the range test |
| Logger.FormatAll | data.py:112 | the folder after the format guard has run on some of its files |
| Logger.FormatAllGuarded | data.py:112 | after the guard has run on some files, every file is either unchanged or formatted, and no file appears or disappears |
| Logger.FormatOne | data.py:112 | guarding no file changes nothing; guarding one file changes that file alone, and nothing when it does not exist |
| Logger.FormatAllTwice | data.py:112 | running the guard over two sets of files in turn is running it once over their union, because the guard is idempotent |
| Logger.Chosen | data.py:105-112 | the file an answer makes the prompt format: exactly one numbered file when the answer is not `q`/`Q` and is an in-range number, and none otherwise |
| Logger.Picked | data.py:104-112 | the files picked by the first answers: all of them numbered files |
| Logger.PickedAt | data.py:104-112 | every file an earlier answer picked is among the picked files |
| Logger.ResumeChoice | data.py:104-122 | one choice does what the reference outcome says (quit, ask again, crash, or resume with the last row's score); the folder changes exactly by formatting the chosen file, so quitting or a bad number touches nothing, and a valid number formats that file even when the prompt then asks again |
| Logger.ResumeWrittenFile | data.py:104-122 | choosing a file the logger wrote by its number resumes with the score of its last row, through the format guard; a header-only file makes the prompt ask again |
| Logger.Answers | data.py:102-126 | one outcome per answer, in order |
| Logger.AnswerAt | data.py:102-126 | entry `j` is what answer `j` does at the prompt |
| Logger.AnswersAt | data.py:102-126 | every entry is what its answer does at the prompt |
| Logger.FirstOutcome | data.py:102-126 | the reference for the `while True` loop: the first answer with an outcome, and the number of answers read up to it |
| Logger.FirstOutcomeSpec | data.py:102-126 | the loop stops at the first answer with an outcome, every earlier answer having asked again; with no such answer it reads them all |
| Logger.AskUntilOutcome | data.py:102-126 | the loop reads exactly the answers the reference loop reads and returns its outcome; the folder ends with exactly the picked files formatted |
| Logger.SelectExistingRecord | data.py:91-126 | no `.csv` file gives no record; every answer before the last asked again; the last answer's outcome is the result; a resumed file is the formatted original; the folder ends with exactly the files the answers picked formatted and every other file unchanged |
| Logger.Classify | data.py:134-139 | what the append loop makes of one input line: quit, an accepted change, or refused; its meaning is stated by `Logger.ClassifySpec` |
| Logger.ClassifySpec | data.py:134-139 | an input line quits exactly when its stripped text is `q` or `Q`; an accepted change is one of the five allowed values and is what `int()` reads |
| Logger.Rows | data.py:133-153 | the reference for the append loop: one row per accepted change before the first quit, stamped with its line's clock reading and carrying the running score; its meaning is stated by `Logger.WorkMode` and `Logger.WrittenResumes` |
| Logger.Steps | data.py:134-139 | there is one classified step per input line |
| Logger.StepAt | data.py:134-139 | each input line is classified in place as quit, an allowed change or refused input, with its clock reading |
| Logger.WrittenIsFormatted | data.py:145-152 | the formatted old file followed by written rows is left unchanged by the guard |
| Logger.WrittenStep | data.py:145-152 | guarding the file and appending one row gives the file with one more record written |
| Logger.AppendKeepsLastScore | data.py:141-153 | after rows are appended, the lines are the old lines plus the rows, and resuming reads the last row's score |
| Logger.WrittenResumes | data.py:141-153 | after the loop, resuming the file yields the running score: the last row's score, or the start score if nothing was written |
| Logger.LogRow | data.py:144-157 | guarding and appending one row writes that record after the ones before it; a missing file fails with the folder unchanged |
| Logger.LogChange | data.py:139-157 | an accepted change advances the loop state by one written row, or fails on a missing file with nothing changed |
| Logger.ReadCommand | data.py:134-140 | the stripped line `q` or `Q` leaves; a line that `int()` reads as one of the five allowed changes is that change; any other line is refused; the result is that line's step |
| Logger.HandleLine | data.py:134-157 | one input line either advances the loop state, stops on a quit with no write, or fails on a missing file with no write |
| Logger.WorkMode | data.py:128-157 | unless the file is missing, the folder ends as the formatted old file followed by one row per accepted change before the first quit, and the score is the last row's; it stops at the first quit, runs out of input only when no line quit, and fails exactly when the file is missing and a change was accepted, and then nothing is written |
| Drawing.Pick | drawing.py:27-33 | what one stripped answer does at the file prompt: it quits exactly when it is `q` or `Q`, and a picked file is one of the numbered files |
| Drawing.PickNumber | drawing.py:27-33 | typing `k` picks file `k` of the list exactly when `1 <= k <= len(csv_files)` |
| Drawing.SelectCsvFile | drawing.py:14-37 | no `.csv` file gives `NoFiles`; every answer before the last asked again; the last answer quits or picks a listed `.csv` file; with input exhausted every answer asked again |
| Drawing.ParsedRows | drawing.py:49-53 | there is one parse result per data row |
| Drawing.ParsedRowsAt | drawing.py:49-53 | parse result `i` is what row `i` parses to |
| Drawing.Collect | drawing.py:49-54 | the reference for the row loop: each parsed row's time and score appended in turn, and `Malformed` from the first row that does not parse; its meaning is stated by `Drawing.CollectSpec` |
| Drawing.CollectSpec | drawing.py:49-54 | gathering succeeds exactly when every row parsed; then the times and scores have one entry per row, and entry `i` is row `i`'s |
| Drawing.MalformedSticks | drawing.py:49-59 | once a row fails to parse, the load fails whatever rows follow |
| Drawing.LoadRowsSpec | drawing.py:43-54 | the rows load exactly when every row parses, and then time `i` and score `i` are what row `i` parses to |
| Drawing.LoadCsv | drawing.py:39-60 | a missing file gives `NotFound`; an empty file, with no header, fails; otherwise the result is the reference load of the rows after the header |
| Drawing.WrittenRowsParse | drawing.py:46-53 | the data rows of a file the logger wrote parse as its records |
| Drawing.WrittenFileLoads | drawing.py:46-54 | a file the logger wrote loads back as exactly its times and its scores, in order |
| Drawing.ShowsDate | drawing.py:85-86 | the label condition: the first time, or a time whose date differs from the one before; `Drawing.FirstOfDay` says where it holds |
| Drawing.LabelAt | drawing.py:84-90 | label `i` carries time `i` |
| Drawing.DateLabels | drawing.py:82-90 | one label per time; label `i` carries the date exactly when `i = 0` or its date differs from time `i - 1`'s |
| Drawing.FirstOfDay | drawing.py:82-90 | for chronological times, a label carries the date exactly at the first time of each day |
| Drawing.Ticks | drawing.py:159-166 | the reference for the hour-tick loop: the hour of each time in turn, one tick per run of times in the same hour; its meaning is stated by the five lemmas below |
| Drawing.TicksShape | drawing.py:159-166 | there are no more ticks than times, there are ticks as soon as there is a time, and the last tick is the last time's hour |
| Drawing.TicksCover | drawing.py:159-166 | every time's hour is a tick |
| Drawing.TicksFrom | drawing.py:159-166 | every tick is the hour of some time |
| Drawing.TicksNoRepeats | drawing.py:159-166 | no tick equals the tick before it |
| Drawing.TicksIncreasing | drawing.py:159-166 | for chronological times, each tick is strictly later than the one before it |
| Drawing.HourTicks | drawing.py:154-166 | the loop with its `prev_hour`/`prev_date` state builds exactly the reference ticks |
| Drawing.TimeAxis | drawing.py:154-177 | the ticks cover every time's hour, each comes from some time, and no tick repeats its predecessor; for chronological times they strictly increase; there is one hour label per tick, carrying the date exactly where the tick's date changes |

## Left out

- Terminal I/O is not modelled: the prompts and messages printed by `input` and `print`. The main menus (`main` in both programs) are not modelled either.
- End of input stops the model with an "exhausted" result. In Python, `input()` would raise `EOFError`.
- `sys.exit` is not modelled. It becomes a result value: `NoFiles`, `Quit`, `NotFound`, `Malformed`, `Fatal` or `WriteFailed`.
- I/O errors other than a missing file are not modelled: permissions, a full disk, a failed truncate. They only print and exit.
- The file system is not modelled. The working directory is a map from names to texts.
  - `os.listdir` is a parameter.
  - `os.path.exists` is membership in that map, so a directory named like the new file is not seen.
  - File encodings and a byte order mark are not modelled.
- The clock is a parameter carried by each input line. The model does not claim that readings increase. `Chronological` is a hypothesis of the lemmas that need it.
- PyInt.ParseInt: has no limit on the number of digits. Python 3.11 and later, and the 2022 security releases of 3.7 to 3.10, raise `ValueError` from `int()` on a text of more than 4300 digits (`sys.int_info.default_max_str_digits`), and `str()` of such an integer raises too. So `validate_initial_score` of a 4301-digit text returns `None` and the prompt asks again, while `Validation.ValidateInitialScore` accepts it. `PyInt.ParseStr`, `Validation.InitialScoreOfStr`, `Validation.ScoreChangeOfStr`, `Prompts.ChoiceOfStr`, `Drawing.PickNumber` and the written-file round trips state their results without that bound.
- PyInt.ParseInt: accepts only ASCII digits. Python's `int()` also accepts underscores between digits (`2_0`) and other Unicode decimal digits, such as the full-width `２０` an input method can produce; the model refuses both. The difference reaches every typed answer read with `int()`:
  - `Validation.ValidateInitialScore`, `Validation.ValidateScoreChange`;
  - `Prompts.ChoiceIndex`, `Logger.ChoiceOutcome`, `Logger.Classify`, `Logger.ReadCommand`, `Drawing.Pick`;
  - `Records.ParseRow` and `Logger.ReadRow`, for a score field edited by hand.
  A file the logger wrote holds only ASCII digits, so its round trips are not affected.
- Timestamps.Parse: accepts only ASCII digits in each field. Python's `strptime` matches `\d` against any Unicode decimal digit, so it accepts a hand-edited time such as `２０２４-01-02-03-04`, which `Records.ParseRow` and `Drawing.LoadCsv` refuse. Times the logger wrote hold only ASCII digits.
- Timestamps.Format: pads a year below 1000 to four digits, while glibc's `%Y` prints such a year without padding. `datetime.now()` never returns such a year.
- The `csv` module's quoting rules are not modelled. Rows are split on `,` after removing the line terminator. The values the logger writes never need quoting (`Timestamps.FormatChars`).
- `load_csv`'s `filename=None` default is not a separate operation. It is `Drawing.SelectCsvFile` followed by `Drawing.LoadCsv`.
- The file name that `load_csv` returns is not modelled, because it is its own argument.
- A label's text from `strftime` is not modelled. A label carries its timestamp and whether the date is shown.
- Plot rendering is not modelled. This covers:
  - spline resampling with `make_interp_spline` and `linspace` (floating point);
  - `date2num`;
  - figure layout, fonts (`set_chinese_font`), and the desktop save path and name.
- Concurrent writers to the same file are not modelled; the programs take no lock.

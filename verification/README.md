# svdf core in Dafny: the mutation fuzzer and the static rule engine

This project models the two analysis engines of the svdf security toolkit and
proves properties of the model.

- **The mutation fuzzer** (`svdf/fuzzer.py`). `mutate` replaces about a tenth
  of an input's bytes and sometimes appends a few random bytes. The fuzzer
  builds its starting corpus from the seed files it can read, falling back to
  `b"AAAA"`. `run_mutation_fuzz` then runs a fixed number of iterations. Each
  one samples a corpus entry, mutates it, runs the target and classifies the
  result. A nonzero return code counts as a crash, and so does standard error
  mentioning "error", "segmentation" or "asan" in any case. For a crash the
  fuzzer writes a `.bin` reproducer and a `.log` file, both named after the
  millisecond clock. It records the crash and adds the input to the corpus.
- **The static rule engine** (`svdf/static_checks.py`). `run_static_checks`
  matches every rule's regular expression against every readable `*.c` file.
  It reports one finding per match. The finding carries the rule's id,
  message, severity and fix. Its line number counts the `'\n'` characters
  before the match. Its snippet is the stripped `splitlines()` line at that
  number.

Everything the source takes from the outside world is an input of the model:
- the random draws of each iteration (`Campaign.Draw`, `Mutator.Choices`), restricted to the values Python's `random` calls can return;
- the outcome of launching the target, one per iteration (`Classifier.Launch`): a normal exit with its `Classifier.RunResult`, a timeout, a missing binary, or a launch the operating system refuses;
- the clock reading of each crashing iteration;
- which seed files could be read, and their bytes;
- the file system the reproducers are written into, as a map from path to contents;
- the regular-expression engine (`StaticChecks.Matcher`: the match start offsets for a pattern and a text);
- the directory walk: the `*.c` files in `rglob` order, each with its text, or with no text if reading it raised.

Python's string behaviour is written out in full:
- `str(int)` (`Base.IntToString`, with a parser it round-trips through);
- the substring test `in` (`Base.Contains`);
- ASCII `lower()`;
- `str.splitlines()`, with all of Python's line-break characters and `"\r\n"` as one break (`Lines.SplitLines`);
- `str.strip()`, with the `str.isspace()` set (`Lines.Strip`);
- `text.count("\n", 0, start)` (`Lines.LineNumber`).

Modules, one file each: `Base` (base.dfy), `Mutator` (mutator.dfy), `Corpus` (corpus.dfy),
`Classifier` (classifier.dfy), `Reproducer` (reproducer.dfy), `Campaign` (campaign.dfy),
`Lines` (lines.dfy) and `StaticChecks` (static_checks.dfy).

The line number and the snippet use two different notions of a line. The
number counts only `'\n'`. `splitlines()` also breaks at `'\v'`, `'\f'`,
`'\x1c'`–`'\x1e'`, `'\x85'`, U+2028 and U+2029. Reading in text mode turns
`'\r'` into `'\n'`, but it leaves those other characters in place. The model
keeps the code as written and proves both sides:
- when `'\n'` is the only break character in the text, the snippet is the
  stripped line that contains the match (`StaticChecks.SnippetIsMatchLine`);
- when another break character occurs, the snippet can come from a different
  line (`StaticChecks.SnippetFromOtherLine`).

The `try` around the launch catches only `subprocess.TimeoutExpired` and
`FileNotFoundError`. A binary that exists but cannot be executed raises
`PermissionError` or another `OSError`, which escapes the loop and ends the
whole campaign without returning its crash list. `Classifier.CaughtAsWritten`
and `Campaign.RunAsWritten` model the loop as written. `Classifier.Caught`
gives every launch failure the synthetic `BINARY_NOT_FOUND` result, and
`Campaign.RunMutationFuzz` uses it (see "## Findings").

## Model

| member | source | states |
|---|---|---|
| Mutator.FlipCount | svdf/fuzzer.py:14 | at least one byte is replaced; inputs shorter than 20 bytes get exactly one replacement, and longer ones get `len // 10` |
| Mutator.ApplyFlips | svdf/fuzzer.py:15-17 | the replacement loop keeps the length; a position no draw targets keeps its byte; every position some draw targets ends up holding a value in 1..254 |
| Mutator.ApplyFlipsIsLastWrite | svdf/fuzzer.py:15-17 | each byte after the loop equals the value of the last draw aimed at its position, or the original byte if no draw was |
| Mutator.Mutate | svdf/fuzzer.py:10-21 | the output is never empty; it is the working copy, or the working copy plus 1 to 7 appended bytes exactly when the append branch was taken; bytes of the working copy that no draw targets are unchanged; every targeted position holds a value in 1..254, whatever it held before; appended bytes are at most 254 |
| Mutator.MutateEmptyIsPlaceholder | svdf/fuzzer.py:11-12 | an empty input is mutated exactly as `b"AAAA"` would be, so its output has at least four bytes |
| Mutator.LastFlipVisible | svdf/fuzzer.py:14-17 | the value of the final replacement draw always appears at its position in the output |
| Mutator.MutateContents | svdf/fuzzer.py:13-20 | every output byte is either the last write to that position of the working copy or the matching byte of the appended tail |
| Mutator.MutateIsPossible | svdf/fuzzer.py:10-21 | every output is a possible output: same length or up to 7 longer, with changed bytes in 1..254 and at most `FlipCount` of them |
| Mutator.PossibleIsReachable | svdf/fuzzer.py:10-21 | conversely, every possible output is produced by some valid sequence of random draws |
| Corpus.InitialCorpus | svdf/fuzzer.py:27-34 | the corpus is never empty; if no seed could be read it is `[b"AAAA"]`, otherwise it is the readable seeds in order, and each entry is one of them |
| Corpus.LoadedMembers | svdf/fuzzer.py:28-32 | a byte string is in the loaded corpus if and only if some seed file read produced it |
| Corpus.LoadedAppend | svdf/fuzzer.py:28-32 | loading two seed lists one after the other gives the two corpora concatenated |
| Corpus.UnreadableSkipped | svdf/fuzzer.py:29-32 | a seed whose read raised contributes nothing and does not stop the loop |
| Corpus.LoadCorpus | svdf/fuzzer.py:27-34 | the loop that reads the seeds and then applies the fallback computes the initial corpus |
| Base.IntRoundTrip | svdf/fuzzer.py:62 | the decimal text of any return code, negative ones included, parses back to that code |
| Base.ContainsIff | svdf/fuzzer.py:54 | Python's substring test holds exactly when the pattern occurs at some offset |
| Classifier.IsCrash | svdf/fuzzer.py:54 | a result is a crash if and only if its return code is nonzero or its lower-cased standard error contains "error", "segmentation" or "asan" |
| Classifier.MarkerInAnyCase | svdf/fuzzer.py:54 | a marker written in any mix of upper and lower case in standard error makes the result a crash |
| Classifier.SyntheticResultsAreCrashes | svdf/fuzzer.py:44-54 | a timeout and a missing binary both count as crashes |
| Classifier.CaughtAsWritten | svdf/fuzzer.py:39-51 | the `try` as written: a normal exit gives the process's result, a timeout and a missing binary give their synthetic results, and a refused launch gives no result, because its exception is not caught |
| Classifier.Caught | svdf/fuzzer.py:39-51 | the corrected `try`: a normal exit keeps the process's result; every launch failure gives return code -1 and counts as a crash, with "TIMEOUT" for a timeout and "BINARY_NOT_FOUND" for a missing or non-executable binary |
| Classifier.SampleVerdicts | svdf/fuzzer.py:54 | return code 1 is a crash, a clean run printing "ok" is not, and "Segmentation fault" on standard error is one |
| Reproducer.RecordFor | svdf/fuzzer.py:56-63 | a crash record names two different files that both carry the crash's millisecond stamp, and keeps the return code |
| Reproducer.LogText | svdf/fuzzer.py:62 | the log's first line is "rc: " followed by the decimal return code, and the log ends with a newline |
| Reproducer.Persist | svdf/fuzzer.py:57-62 | writing a reproducer adds exactly the `.bin` file with the input and the `.log` file with the log; every other file is unchanged |
| Reproducer.NamesShareStamp | svdf/fuzzer.py:56-60 | the stamp can be read back from either file name |
| Reproducer.BinIsNeverLog | svdf/fuzzer.py:57-60 | no input file name is ever a log file name, whatever the stamps |
| Reproducer.DistinctStampsDistinctFiles | svdf/fuzzer.py:56-60 | different stamps give different input files and different log files |
| Reproducer.LogRoundTrip | svdf/fuzzer.py:62 | the first line of the log gives back the return code, whatever the output streams contain |
| Reproducer.SequentialPersists | svdf/fuzzer.py:56-62 | after two crashes with different stamps, both inputs and both return codes can still be read from the store |
| Reproducer.SameStampLastWriteWins | svdf/fuzzer.py:56-62 | two crashes in the same millisecond leave only the second crash's files |
| Campaign.Step | svdf/fuzzer.py:37-65 | an iteration whose result is not a crash leaves the corpus, the crash list and the files as they were; a crash appends to the corpus exactly the input the iteration ran (the mutation of the sampled entry), and to the crash list one record carrying the iteration's stamp and return code |
| Campaign.StepAddsMutant | svdf/fuzzer.py:37-65 | the corpus entry a crash adds is a possible mutation of the entry the iteration sampled |
| Campaign.StepWritesFiles | svdf/fuzzer.py:56-65 | a crash leaves a `.bin` file named after its stamp that holds the input the iteration ran, which is also the new corpus entry, and a `.log` file from which its return code reads back |
| Campaign.Run | svdf/fuzzer.py:36-65 | over the iterations, the corpus and the crash list are only appended to; they grow by the same amount, at most one entry per iteration |
| Campaign.RunCrashes | svdf/fuzzer.py:54-63 | the crash list gets exactly one record per iteration whose result is a crash, in iteration order, with that iteration's stamp and return code |
| Campaign.RunSplit | svdf/fuzzer.py:36-38 | running the iterations in two parts, the second part starting from the state the first reached, is the same as running them all |
| Campaign.SampledSeedInCorpus | svdf/fuzzer.py:36-65 | the entry an iteration samples exists when it samples it, and it is still in the final corpus |
| Campaign.CrashRecordsReproduce | svdf/fuzzer.py:56-65 | when crashing iterations have distinct stamps, every crash record's `.bin` file holds the corpus entry added with it and its `.log` file gives back its return code |
| Campaign.RunAppendsMutants | svdf/fuzzer.py:36-65 | every entry the campaign adds to the corpus is a possible mutation of an entry that was in the corpus before it |
| Campaign.RunAsWritten | svdf/fuzzer.py:36-65 | the loop with the `try` as written: when no launch is refused it ends normally, in the state the loop with every failure caught reaches; when some launch is refused it ends with an exception |
| Campaign.FirstRefusal | svdf/fuzzer.py:36-65 | when the first refused launch is at iteration `i`, the loop as written raises with exactly the files the iterations before `i` wrote, and returns no crash list |
| Campaign.AsWrittenAgreesWithoutRefusal | svdf/fuzzer.py:36-51 | when no launch is refused, the loop as written ends normally, in the state the loop with every failure caught reaches |
| Campaign.RefusalRaises | svdf/fuzzer.py:39-51 | when any launch is refused, the loop as written ends with an exception rather than a crash list |
| Campaign.RefusalLosesCrashes | svdf/fuzzer.py:39-51 | a refused launch, as written, ends the campaign at that iteration with the files written so far and no crash list; with every failure caught, the same iteration is recorded as a `BINARY_NOT_FOUND` crash after the crashes found so far |
| Campaign.RunMutationFuzz | svdf/fuzzer.py:23-66 | the loop, with every launch failure caught, computes the campaign: its crashes are the reference crash list, with at most one per iteration (none for a negative count); the corpus starts with the initial corpus and gains one entry per crash, each a possible mutation of an earlier entry |
| Lines.LineNumber | svdf/static_checks.py:41 | the line number is at least 1 and at most one more than the number of `'\n'` in the text |
| Lines.LineNumberMonotone | svdf/static_checks.py:39-41 | a later match never gets a smaller line number |
| Lines.SplitLines | svdf/static_checks.py:37 | a non-empty text has at least one line |
| Lines.LinesFromAreSegments | svdf/static_checks.py:37 | every line produced from an offset on is a whole line of the text: it starts at that offset or just after a break, ends at a break or at the end of the text, and holds no break |
| Lines.SplitLinesAreSegments | svdf/static_checks.py:37 | every line `splitlines()` returns is such a whole line of the text |
| Lines.SplitLinesHaveNoBreaks | svdf/static_checks.py:37 | no line from `splitlines()` contains a line-break character |
| Lines.Strip | svdf/static_checks.py:42 | the stripped text is a slice of the line, with no whitespace at either end, and everything cut off is whitespace |
| Lines.LineIndexInRange | svdf/static_checks.py:37-42 | for a match inside the text, the line number always indexes the `splitlines()` list, so the empty-snippet guard only applies at the end of the text |
| Lines.LinesAgreeOnNewlineText | svdf/static_checks.py:37-42 | when `'\n'` is the only break character, the `splitlines()` entry at the match's line number is the line that contains the match |
| Lines.FormFeedShiftsLines | svdf/static_checks.py:37-41 | in "a\fb\nc" the 'c' is counted on line 2, while `splitlines()` has "b" at that index |
| Lines.EndOffsetPastLastLine | svdf/static_checks.py:41-42 | at the end of a text ending in `'\n'` the line number is one past the last line |
| StaticChecks.DefaultRules | svdf/static_checks.py:7-26 | the built-in table has six rules with distinct ids, each HIGH or MEDIUM |
| StaticChecks.EffectiveRules | svdf/static_checks.py:30 | a missing or empty rule list means the built-in table; any other list is used as given; the rules used are never empty |
| StaticChecks.Snippet | svdf/static_checks.py:42 | the snippet is the stripped line at the line number when that line exists, and empty otherwise |
| StaticChecks.RuleFindings | svdf/static_checks.py:39-51 | one finding per match, in match order, each with the rule's fields, the file's path, the match's line number and that line's snippet |
| StaticChecks.FindingsCount | svdf/static_checks.py:32-51 | the number of findings is the number of matches of all rules over all readable files |
| StaticChecks.ScanFilesAppend | svdf/static_checks.py:32 | scanning two file lists gives the two lists' findings in order |
| StaticChecks.UnreadableFileSkipped | svdf/static_checks.py:33-36 | a file whose read raised contributes no findings and does not stop the scan |
| StaticChecks.TextFindingsAppend | svdf/static_checks.py:38 | within one file, findings are grouped by rule, in rule order |
| StaticChecks.RuleFindingsOrdered | svdf/static_checks.py:39-41 | when the matches are in text order, the line numbers of one rule's findings do not decrease |
| StaticChecks.FindingProvenance | svdf/static_checks.py:43-51 | every finding has a line number of at least 1, copies the fields of one of the rules, and names a file that was read |
| StaticChecks.RunStaticChecks | svdf/static_checks.py:29-52 | the scan reports exactly as many findings as there are matches of the rules in effect over the readable files; each finding has a line number of at least 1, copies the fields of a rule in effect, and names a file that was read |
| StaticChecks.RulesInEffect | svdf/static_checks.py:30-51 | with no rule list or an empty one, the findings are those of the six built-in rules: one per match of theirs, each copying one of them, so each has severity HIGH or MEDIUM; a non-empty list is used exactly as given |
| StaticChecks.SnippetIsMatchLine | svdf/static_checks.py:37-42 | when `'\n'` is the only break character, a finding's snippet is the stripped line that contains the match |
| StaticChecks.SnippetFromOtherLine | svdf/static_checks.py:37-42 | in "a\fb\nc" a match on the 'c' is reported on line 2 with the snippet "b" from the line before it |

## Left out

- Running the target: `subprocess.run`, the timeout and the captured pipes. The outcome of each launch is an input, and `binary_path` and `timeout` only affect that outcome. A timeout is the result `rc -1`, `""`, `"TIMEOUT"`, and a missing binary is `rc -1`, `""`, `"BINARY_NOT_FOUND"`, as in the code. A refused launch stands for every other exception `subprocess.run` can raise. svdf/sanitizer_runner.py is not part of this model.
- Exceptions outside the launch: a failed write of a reproducer file would also end the campaign. In the model every write succeeds.
- Decoding the target's output with `errors="ignore"`: the output is given as text.
- `ensure_dir(REPRO_DIR)` and the other helpers in svdf/utils.py: directory creation is not modelled, and the store accepts any path.
- The probability distribution of the random calls: the uniform choices and the 20% chance of appending. The model allows every value the calls can return, each draw with its own parameter.
- `time.time()`: the clock reading of each iteration is an input, and it is used only when that iteration crashes.
- Reading files: `open(s, "rb").read()`, `Path.rglob("*.c")` and `read_text(errors="ignore")` are inputs. This includes decoding and newline translation: the model gets the text after them. The exception raised by a failed read is modelled only as "no contents".
- The regular-expression engine and `re.IGNORECASE`: the match offsets are an input, in the order `finditer` reports them.
- `str(p)` for paths: a path is already a string.
- Unicode in `err.lower()`: the model lowers only the letters A–Z. The crash verdict is still exact for the three markers. The only non-ASCII character that Python lowers to an ASCII letter is the Kelvin sign U+212A, which becomes 'k', and 'k' is in no marker. 'İ' (U+0130) becomes 'i' followed by U+0307. That 'i' cannot complete "segmentation", because the 'i' there must be followed by 'o'. Every other non-ASCII character stays non-ASCII, so it cannot be part of a marker.
- The command line, the reports and the launcher (svdf/cli.py, make_report.py, open_report.py, run.py): they are outside the two engines.

## Findings

| source | as written | input that shows it | evidently intended | confidence | as-written member | corrected member |
|---|---|---|---|---|---|---|
| svdf/fuzzer.py:39-51 | only `subprocess.TimeoutExpired` and `FileNotFoundError` are caught, so any other launch failure escapes the loop and the campaign returns no crash list | a target path that exists without execute permission (`PermissionError`), or a file that is not a runnable program (`OSError`) | the launch failure gives the synthetic result `rc -1`, `"BINARY_NOT_FOUND"`, counts as a crash, and the campaign goes on | not executed | Campaign.RefusalLosesCrashes | Classifier.Caught |

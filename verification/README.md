# Register machine, modelled in Dafny

`machine.py` simulates a counter (Minsky) machine. Registers hold non-negative
integers. A program is a table of labelled instructions with three kinds:
`halt`, `inc(rN),L` and `dec(rN),L1,L2`. The script works in four steps:

1. It normalises the program text and keeps only its significant lines.
2. It reads the start label and the initial registers from the first of those lines.
3. It builds the instruction table from the remaining lines.
4. It runs the machine, tracing every pass of the loop, until a proper halt
   (a `halt` instruction) or an erroneous halt (a label with no instruction).

The Dafny project follows these steps, one module each:

- `Text` (text.dfy): the character classes, `str.split` on one character with its inverse `Join`, and `int` on digits.
- `Preprocess` (preprocess.dfy): the line filter (machine.py:11-15), as functions.
- `ConfigLine` (config.dfy): the configuration line (machine.py:18-28). A character scan replaces the regular expression `\d+(,\d+)*`.
- `Syntax` (syntax.dfy): the instruction datatype, the table type `map<string, Instr>`, and one error constructor per exit status of the loader.
- `Instructions` (instructions.dfy): the classification of an instruction body (machine.py:44-73).
- `Table` (table.dfy): the table-building loop (machine.py:31-74). `BuildTable` is a method with a loop, proved equal to the function `ParseTable`.
- `Engine` (engine.dfy): the execution loop (machine.py:76-108). It has a pure `Step`, a fuel-bounded `Run` that returns the trace and an outcome, and the imperative `Execute` proved equal to `Run`.
- `RegisterMachine` (machine.dfy): the whole script (`Load`, `Simulate`) and worked examples.

Where the model departs from the code, it says so below or under
"## Left out". These are the points where it differs, or where the code
does something a reader might not expect:

- **Arity (deliberate tightening).** At machine.py:57-62 the code only prints a
  warning when `inc` has other than one target or `dec` other than two. It then
  keeps the instruction and reads just `args[0]` (and `args[1]`). A one-target `dec`
  would fail with an index error at machine.py:107 once its register is zero. The
  model rejects such a body with `ArityError`, so every `Inc` has exactly one
  target and every `Dec` exactly two.
- **Operation count.** `exec_num` is incremented straight after the trace
  line (machine.py:82), before any check. The reported count is therefore the
  number of trace entries, terminal pass included. An undefined start label
  gives count 1, not 0.
- **First digit run.** The start label is the first run of digits in the first
  line, wherever it is. So `a,0` starts at label `0` with no registers
  (`ConfigLetterStart`). The end-to-end example is stated with digit labels for that reason.
- **Colon split.** `line.split(":")` must give exactly two parts. A line with
  two colons is rejected; it is not split at the first colon.
- **Zero branch of `dec`.** The register list is grown before dispatch
  (machine.py:91-93). A `dec` on a zero register past the end of the list still
  leaves the list longer, with every value unchanged.

## Model

| member | source | states |
|---|---|---|
| `Text.Split` | machine.py:33 | every piece is free of the separator, and there is at least one piece |
| `Text.JoinSplit` | machine.py:33 | joining the pieces of `s.split(c)` with `c` gives back `s` |
| `Text.SplitJoin` | machine.py:45 | splitting pieces that hold no separator after joining them gives back exactly those pieces |
| `Text.SplitCount` | machine.py:33-34 | `s.split(c)` has one more piece than `s` has occurrences of `c`, so two parts means exactly one colon |
| `Text.DecimalValueOfDigits` | machine.py:26 | `int` reads back the decimal rendering of every natural number |
| `Text.LeadingZero` | machine.py:26 | a leading zero does not change the value `int` reads |
| `Preprocess.Normalize` | machine.py:13 | a normalised line has no space and no upper-case letter |
| `Preprocess.WithoutAppend` | machine.py:13 | removing a character works piece by piece: the kept characters stay in their order |
| `Preprocess.NormalizeAppend` | machine.py:13 | lower-casing and removing spaces work piece by piece, so the normalised line keeps the order of the input |
| `Preprocess.NormalizeOne` | machine.py:13 | one character normalises to its lower-case form, or to nothing when it is a space; with `NormalizeAppend` this fixes the normalised form of every line |
| `Preprocess.Lines` | machine.py:11-15 | every kept line is non-empty, does not start with `#`, has no space and no upper-case letter; no more lines than the input |
| `Preprocess.LinesAppend` | machine.py:11-15 | filtering works line by line, so the order of the lines is kept |
| `Preprocess.LinesMembership` | machine.py:11-15 | a line is kept exactly when some input line normalises to it and it is non-empty and not a comment |
| `ConfigLine.FirstDigit` | machine.py:18 | the position of the first digit; no digit comes before it |
| `ConfigLine.MatchEnd` | machine.py:18 | the greedy match ends neither inside a run of digits nor before a further `,digit` |
| `ConfigLine.MatchFields` | machine.py:18-26 | every comma field of the match is a non-empty run of digits |
| `ConfigLine.ParseConfig` | machine.py:18-28 | the load fails with `ConfigFormatError` exactly when the line has no digit; otherwise the start label is a numeral |
| `ConfigLine.ConfigOfShape` | machine.py:18-28 | for a line of the form (no digits) + start + `,`-joined numerals + (text that cannot continue the match), the start label is that exact text and the registers are the values of the numerals, in order |
| `ConfigLine.ValuesAt` | machine.py:26 | register `k` is `int` of the `k`-th field after the start label |
| `Instructions.ParseOpField` | machine.py:51-55 | an accepted operation field is exactly `name(r<digits>)`, with a word name and a numeral |
| `Instructions.OpFieldOfShape` | machine.py:51-55 | every field `name(r<digits>)` is accepted and split into that name and those digits |
| `Instructions.BodyDenotes` | machine.py:44-70 | a body gives instruction `ins` exactly when it is one of its textual forms: `halt`; `inc(r<digits>),L`; `dec(r<digits>),L1,L2`. The register is the value of the digits and the targets hold no comma |
| `Instructions.BodyErrors` | machine.py:45-73 | a single field other than `halt` gives `UnknownOperationError`; an operation field not shaped `name(rN)` gives `OperationFormatError`; a name other than `inc`/`dec` gives `UnknownOperationError`; a wrong number of targets gives `ArityError` |
| `Instructions.ShowBodyParses` | machine.py:45-70 | the canonical text of any instruction whose targets hold no comma is read back into that instruction |
| `Table.AddLineErrors` | machine.py:33-73 | a colon count other than one gives `InstructionFormatError`; then a known label gives `DuplicateLabelError`; then the body's own error |
| `Table.TableOk` | machine.py:31-74 | the table loads exactly when every line is well formed and no label repeats; then it has one entry per line, keyed by the line's label and holding its body's instruction |
| `Table.ErrorPersists` | machine.py:32-74 | once a prefix of the lines fails, the whole load fails with the same error (all or nothing) |
| `Table.FirstFailingLine` | machine.py:33-73 | after a good prefix, the first failing line decides the error: wrong colon count, then a repeated label, then its body's error |
| `Table.BuildTable` | machine.py:31-74 | the loop that fills the table returns exactly the table, or the error, of `ParseTable` |
| `Engine.Grow` | machine.py:91-93 | the grown list is exactly long enough for register `r` (never shorter than before), keeps the old values as its prefix, and is zero beyond them |
| `Engine.GrowKeepsValues` | machine.py:91-93 | growing changes no register's value, counting registers past the end as zero |
| `Engine.Extend` | machine.py:91-93 | the loop that appends zeros gives exactly the grown list |
| `Engine.Step` | machine.py:84-97 | an undefined label stops erroneously and a `halt` stops properly, both with label and registers unchanged; a continuing step never shrinks the registers |
| `Engine.StepInc` | machine.py:98-101 | `inc` adds one to its register and to no other, and goes to its target |
| `Engine.StepDec` | machine.py:102-108 | `dec` on a positive register subtracts one and goes to the first target; on zero it changes no value and goes to the second |
| `Engine.Run` | machine.py:79-108 | the count of the outcome equals the number of trace entries, entries are numbered consecutively from the first step, and a run out of fuel made exactly `fuel` passes |
| `Engine.RunTrace` | machine.py:80-97 | the trace starts at the initial state; each entry steps to the next; a halted run ends on the entry that stopped, with its label and registers |
| `Engine.RunMoreFuel` | machine.py:79 | a run that halted within its fuel gives the same trace and outcome with any larger fuel |
| `Engine.RunResume` | machine.py:79-108 | stopping after `f1` passes and resuming from the state reached for `f2` more is the same as running `f1 + f2` passes |
| `Engine.Execute` | machine.py:76-108 | the imperative loop returns exactly the trace and outcome of `Run` |
| `RegisterMachine.Load` | machine.py:11-74 | no significant line gives `EmptyProgram`; a loaded program starts at a numeral label |
| `RegisterMachine.LoadOk` | machine.py:11-74 | a program loads exactly when it has a first significant line with a digit and well-formed, uniquely labelled later lines; the table then holds exactly those labels, one per line |
| `RegisterMachine.Simulate` | machine.py:11-108 | a load failure is returned with no trace; otherwise the result is `Run` from the configured start and registers |
| `RegisterMachine.UndefinedStart` | machine.py:84-86 | an undefined start label halts erroneously with one trace entry, count 1 and the initial registers |
| `RegisterMachine.CountUp` | machine.py:79-101 | a self-incrementing label runs as long as its fuel allows, with register 0 counting up by one per pass |
| `RegisterMachine.ConfigExample` | machine.py:18-28 | `5,1,2,3` gives start `5` and registers 1, 2, 3 |
| `RegisterMachine.ConfigLetterStart` | machine.py:18-28 | `a,0` gives start `0` and no registers |
| `RegisterMachine.RepeatedLine` | machine.py:41-43 | a well-formed line given twice is rejected with `DuplicateLabelError` |
| `RegisterMachine.EndToEndExample` | machine.py:79-108 | `0: dec(r0),1,2` with `2: halt` from `0` on `[0]` traces `(0,0,[0])`, `(1,2,[0])` and halts properly with count 2 |
| `RegisterMachine.EndToEndBodies` | machine.py:45-70 | the bodies `dec(r0),1,2` and `halt` are read into `Dec(0, "1", "2")` and `Halt` |

## Left out

- Command-line handling and file reading (machine.py:6-10) are left out. The model starts from the list of raw lines, so `splitlines` is not modelled either.
- All printed output and message text are left out, along with the `SHOW_TRACE` flag (machine.py:4). The trace is always returned as `TraceEntry` values.
- Process exit is not modelled. Each exit status of the loader is a `LoadError` constructor: 2 `ConfigFormatError`, 3 `InstructionFormatError`, 4 `DuplicateLabelError`, 5 `OperationFormatError`, 6 `UnknownOperationError`.
- The index error that an empty program raises at `machine[0]` (machine.py:18) is modelled as `EmptyProgram`.
- Unicode is left out. `lower`, `\d` and `\w` are modelled on ASCII only.
- `Text.DecimalValue`: since Python 3.11, `int` raises `ValueError` on a numeral of more than 4300 digits. This applies to register values (machine.py:26) and register numbers (machine.py:67), where the code then fails. The model reads numerals of any length.
- `Instructions.ParseOpField`: the regular expression at machine.py:51 is unanchored, and the split at machine.py:55 can raise an error. The model accepts only a field that is exactly `name(r<digits>)` and reports everything else as `OperationFormatError`. For `inc` and `dec` the accepted fields are the same as the code's. A malformed field is reported differently: the code exits with status 6 for, e.g., `a.inc(r0)`, and raises a `ValueError` for `(inc(r0)` or `inc(r0)x`.
- `Instructions.BodyErrors`: wrong arity is rejected with `ArityError`. The code only warns here (see above).
- `Engine.Run`: the loop at machine.py:79 may run forever. The model bounds it by a fuel count and adds an `OutOfFuel` outcome. Termination is not claimed.
- Determinism is not stated as a separate lemma. `Run` and `Load` are functions, and `Execute` and `Simulate` are proved equal to them, so two runs on the same input agree.

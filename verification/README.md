# gobrain in Dafny

A model of the engine of gobrain, a single-file Brainfuck interpreter written in
Go (`main.go`). The model covers four parts:

- The tokenizer: the `tokenLookup` table and `Tokenizer.tokenize`.
- The tape helpers: `incrementPointer`, `decrementPointer`, `incrementValue` and
  `decrementValue`.
- The two bracket matchers: `findMatchingLoopEnd` and `findMatchingLoopStart`.
- The interpreter: `NewBrainfuckInterpreter`, the state effect of `loadCode`,
  the single-step dispatch `executeStep`, and the `execute` loop.

The state is an immutable record `Interp`, and every operation is a pure
function that returns the next state. `execute` need not stop (`+[]` spins
forever), so it is modelled as `Execute`, which takes a step budget (`fuel`).

Modules, one per file:

| module | file | contents |
|---|---|---|
| `GoInts` | go_ints.dfy | Go's `int` on a 64-bit platform, its wrap-around, the truncating `%`, and `byte(...)` |
| `Tokens` | tokens.dfy | `Token`, the lookup table, a reference tokenizer `TokensOf`, and the loop `Tokenize` |
| `Tape` | tape.dfy | the pointer and cell helpers, following Go's arithmetic exactly |
| `Brackets` | brackets.dfy | nesting depth (`Level`), balance, and the two scans with their partner predicates `ClosesAt` and `OpensAt` |
| `Interpreter` | interpreter.dfy | the state, `Load`, `Step`, and the fuel-bounded `Execute` |
| `Scenarios` | scenarios.dfy | whole runs of small programs |

Go semantics are written out where they matter:

- A cell is a Go `int`. The `,` instruction stores the integer it reads without
  clamping it.
- `(cell + 1) % 256` is therefore evaluated as Go does. The sum wraps at 64
  bits (`Wrap`). The `%` truncates toward zero (`Rem`), so its result has the
  sign of the sum.
- `.` writes `byte(cell)`, which is the low eight bits (`ByteOf`).
- For every cell value, `+`, `-` and `.` agree with arithmetic modulo 256 on
  that byte.

Source text is a Go string, which is indexed by byte, so it is modelled as a
sequence of bytes. The program's output is a sequence of bytes too.

### Cells outside [0, 255]

A cell leaves [0, 255] only through `,`, which stores any Go `int`. After
that, `+` and `-` behave as follows:

- `+` on a cell below -1 gives a result in (-256, 0]: `-5` becomes `-4`.
  A cell of -1 or more gives a result in [0, 255].
- `-` adds 255 before taking `% 256`. A cell in [-255, -1] therefore comes
  back into [0, 254]: `-1` becomes `254`. A cell below -255 gives a result in
  (-256, 0]: `-300` becomes `-45`.
- For a cell above `MaxInt - 255` (within 254 of `MaxInt`), the `+ 256` in
  `decrementValue` overflows. The sum wraps to `MinInt` or a little above it,
  so the result is at most 0: `MaxInt - 254` decremented gives `0`, and
  `MaxInt` decremented gives `-2`. The cell `MaxInt - 255` does not overflow
  and gives `255`.

In every case the result's low byte is the old low byte plus or minus one,
modulo 256. The sign and the low byte together fix the result
(`Tape.SignAndByteDetermine`), so the contracts of `Tape.IncValue` and
`Tape.DecValue` pin down Go's exact result for every cell.
`Tape.OutOfRangeCellExamples` gives the cases above.

## Model

| member | source | states |
|---|---|---|
| GoInts.Wrap | main.go:88-94 | the 64-bit result of an integer expression is a Go `int`, is the exact value when that fits, is the value minus 2^64 after a single overflow past `MaxInt`, and always differs from the exact value by a multiple of 2^64 |
| GoInts.Rem | main.go:80-94 | Go's truncating `%` by a positive divisor: smaller than the divisor in magnitude, equal to the mathematical remainder for a non-negative dividend, and for a negative dividend equal to the dividend plus the divisor times the truncated quotient of its magnitude, so never positive |
| GoInts.ByteOf | main.go:155 | `byte(x)` is a byte, is `x` itself when `x` is already in [0, 255], and is congruent to `x` modulo 256 |
| GoInts.WrapKeepsByte | main.go:88-94 | 64-bit wrap-around never changes the low byte of a result |
| GoInts.RemKeepsByte | main.go:88-94 | Go's `% 256` never changes the low byte, even for a negative dividend |
| Tokens.Lookup | main.go:29-38 | the table finds exactly the eight instruction symbols and maps each one to the instruction written with it; it never yields `Unknown` |
| Tokens.LookupSymbol | main.go:29-38 | every instruction's symbol looks up to that instruction, so the table is one-to-one |
| Tokens.TokensOf | main.go:54-61 | the tokens are never more than the bytes of the source and never include `Unknown` |
| Tokens.Tokenize | main.go:54-61 | the `codePointer` loop produces exactly the reference tokenization: the lookup images of the recognised bytes, in source order |
| Tokens.TokensOfAppend | main.go:54-61 | tokenizing distributes over concatenation, so each byte is read on its own and no byte affects its neighbours |
| Tokens.RenderTokensOf | main.go:54-61 | the tokens, written back as symbols, are exactly the source with every non-instruction byte removed |
| Tokens.TokensOfRender | main.go:29-61 | tokenizing the symbols of any `Unknown`-free token sequence returns that sequence |
| Tokens.TokenCount | main.go:54-61 | the number of tokens is the number of recognised bytes in the source |
| Tokens.TokensOfRepeat | main.go:54-61 | n copies of one byte give n copies of its instruction, or no tokens when the byte is a comment |
| Tokens.CommentsIgnored | main.go:54-61 | text without instruction symbols, placed before or after a program, leaves its tokens unchanged |
| Tokens.TokensOfNoSymbols | main.go:54-61 | source with no instruction symbol yields no tokens |
| Tape.IncPointer | main.go:80-82 | `>` keeps the pointer on the 300-cell tape, moves one cell right, and goes from cell 299 to cell 0 |
| Tape.DecPointer | main.go:84-86 | `<` keeps the pointer on the tape, moves one cell left, and goes from cell 0 to cell 299 |
| Tape.PointerMovesInverse | main.go:80-86 | moving right then left, or left then right, returns to the same cell |
| Tape.IncValue | main.go:88-90 | `+` gives a Go `int` of magnitude below 256; on [0, 254] it adds one; 255 becomes 0; the low byte always goes up by one modulo 256; a cell of -1 or more gives a result in [0, 255], and a cell below -1 gives a result of at most 0 |
| Tape.DecValue | main.go:92-94 | `-` gives a Go `int` of magnitude below 256; on [1, 255] it subtracts one; 0 becomes 255; the low byte always goes down by one modulo 256; a cell in [-255, `MaxInt` - 255] gives a result in [0, 255], and any other cell (below -255, or so large that `+ 256` overflows) gives a result of at most 0 |
| Tape.ValueChangesInverse | main.go:88-94 | on a cell in [0, 255], `+` and `-` undo each other in either order |
| Tape.OutOfRangeCellExamples | main.go:88-94 | concrete out-of-range cells: -5 goes to -4 under `+`, not to the Euclidean 252; -1 goes to 0 under `+` and to 254 under `-`; -100 goes to 155 and -300 to -45 under `-`; `MaxInt - 255` goes to 255 under `-`, while `MaxInt - 254` overflows to 0; `MaxInt` goes to 0 under `+` and, by overflow, to -2 under `-` |
| Tape.SignAndByteDetermine | main.go:88-94 | two values of magnitude below 256 with the same sign and the same low byte are equal, so the sign and byte laws of `+` and `-` determine their results |
| Tape.WalkIsNetDisplacement | main.go:80-86 | any run of `>` and `<` ends on the start cell plus the net displacement, modulo 300 |
| Tape.AdjustIsNetChange | main.go:88-94 | any run of `+` and `-` leaves an in-range cell at its start value plus the net change, modulo 256 |
| Brackets.ScanForward | main.go:213-224 | the forward loop, entered with the depth never yet at zero, returns a closing partner or the start index; it returns the start index only when no `]` ahead is a partner |
| Brackets.FindLoopEnd | main.go:211-225 | returns the start index or a `]` after it whose enclosed tokens are balanced; the start index only when no partner exists |
| Brackets.ScanBackward | main.go:197-208 | the backward loop returns an opening partner or the end index; it returns the end index only when no `[` behind is a partner |
| Brackets.FindLoopStart | main.go:195-209 | returns the end index or a `[` before it whose enclosed tokens are balanced; the end index only when no partner exists |
| Brackets.ClosesAtUnique | main.go:211-225 | a `[` has at most one closing partner |
| Brackets.ClosesAtFirstZero | main.go:213-221 | the closing partner is where the depth counter first returns to zero: the counter stays positive after every token in between |
| Brackets.OpensAtUnique | main.go:195-209 | a `]` has at most one opening partner |
| Brackets.ScanForwardFinds | main.go:213-224 | if the depth would reach zero somewhere ahead, the forward scan finds a partner |
| Brackets.ScanBackwardFinds | main.go:197-208 | if the depth would reach zero somewhere behind, the backward scan finds a partner |
| Brackets.EndThenStart | main.go:195-225 | for a `[` that has a partner, matching forward and then back returns to that `[` |
| Brackets.StartThenEnd | main.go:195-225 | for a `]` that has a partner, matching back and then forward returns to that `]` |
| Brackets.BalancedStartMatches | main.go:211-225 | in a balanced program every `[` has a closing partner |
| Brackets.BalancedEndMatches | main.go:195-209 | in a balanced program every `]` has an opening partner |
| Brackets.BalancedRoundTrip | main.go:195-225 | in a balanced program the two matchers undo each other on every bracket |
| Interpreter.NewInterpreter | main.go:73-78 | a new interpreter has a zeroed tape, pointer and cursor at 0, no program and no output |
| Interpreter.Load | main.go:96-101 | `loadCode` installs the tokenized program and empties the output; tape, pointer and cursor are unchanged |
| Interpreter.Step | main.go:133-181 | a step keeps the state well formed and the program unchanged; it does nothing once the cursor is past the end; otherwise it leaves the cursor inside the program or just past its end |
| Interpreter.StepFrame | main.go:141-159 | a step writes only the cell under the pointer, and writes at most one output byte, after the earlier output |
| Interpreter.StepNonBracket | main.go:141-180 | a non-bracket instruction advances the cursor by exactly one and changes only what it names: `>`/`<` move the pointer; `+`/`-` change the cell, in range and modulo 256; `.` appends `byte(cell)`; `,` stores the input unchanged; `Unknown` changes nothing but the cursor |
| Interpreter.StepLoopStart | main.go:160-180 | `[` on a zero cell resumes one past its closing partner; on a non-zero cell, or with no partner, it moves on by one; nothing else changes |
| Interpreter.StepLoopEnd | main.go:165-180 | `]` on a non-zero cell resumes one past its opening partner; on a zero cell, or with no partner, it moves on by one; nothing else changes |
| Interpreter.Execute | main.go:183-190 | a run keeps the state well formed and the program unchanged, and reads the inputs forward only |
| Interpreter.ExecuteStatus | main.go:183-190 | a run halts exactly when the cursor is past the end; it waits for input only at a `,` with every input used; a run that starts inside the program never leaves the cursor beyond its end |
| Interpreter.ExecuteOutputGrows | main.go:183-190 | a run only appends to the output that was already there |
| Interpreter.ExecuteMoreFuel | main.go:183-190 | a run that halted or waited for input gives the same result with any larger budget |
| Interpreter.ExecuteResume | main.go:183-190 | when the first f steps use up the budget, running f + g steps is the same as running f steps and then g more from where they stopped |
| Scenarios.PlusPlusPlusDot | main.go:148-155 | `+++.` halts with 3 in cell 0 and the single output byte 3 |
| Scenarios.ClearLoop | main.go:160-169 | `+[-]` enters the loop once, clears the cell and halts with no output |
| Scenarios.RightIncrementLeft | main.go:80-90 | `>+<` sets cell 1 to 1, leaves cell 0 at 0 and returns the pointer to cell 0 |
| Scenarios.LeftFromFirstCell | main.go:84-86 | `<` from cell 0 halts with the pointer on cell 299 |
| Scenarios.UnclosedBracket | main.go:160-164 | in `[+` the unmatched `[` falls through and the `+` still runs |
| Scenarios.SkippedLoop | main.go:160-164 | `[+]+` on a zero cell skips the loop body and runs only the final `+` |
| Scenarios.InputIsNotClamped | main.go:154-158 | `,.` given -1 stores -1 and prints 255; given no input it stops waiting at the `,` |
| Scenarios.EmptyLoopSpins | main.go:165-169 | in `+[]`, the `]` on a non-zero cell jumps back onto itself, so the run never ends |
| Scenarios.EmptyLoopNeverHalts | main.go:183-190 | `+[]` does not halt on any step budget |

## Left out

- `inputInteger` (main.go:120-131) is left out because it reads the terminal, parses with `strconv.Atoi` and re-prompts on bad input. Its effect is an integer supplied from outside. `Step` takes that integer as a parameter. `Execute` takes a sequence of integers and a read position. When a `,` is reached with no integer left, `Execute` stops with `AwaitingInput`. On an interactive terminal the program would block there. At end of input it would not: `ReadString`'s error is discarded (main.go:123), `Atoi` fails on the empty string, and `inputInteger` calls itself without bound (main.go:126-128). Each call also builds a new `bufio.Reader` (main.go:122), which can drop lines of piped input that an earlier reader had buffered. The model has neither behaviour.
- Tracing (main.go:174-178), `displayTape` and `formatTape` (main.go:103-118) are left out. They only sleep and print and never change the state. The record's `showTapeState` switch is dropped with them.
- The `deadLoops` branch of `execute` (main.go:185-186) is left out because nothing ever writes to the map, so the branch is never taken. The map is dropped from the record.
- The final `Printf` of `execute` (main.go:192) is left out because it is output. So is `main` with its built-in program (main.go:227-238).
- Interpreter.Execute: the Go loop runs until the cursor passes the end, and may never stop. The model runs at most `fuel` steps and reports `OutOfFuel` when the budget is spent. `ExecuteMoreFuel` shows that a larger budget never changes a halted or waiting run, and `ExecuteResume` shows that a run cut short by the budget can be continued.
- `tokenIndex` is a natural number in the model. In the Go code it is an `int` that is never negative, because both matchers return an index of the program.
- Go's `int` is modelled as 64 bits wide. On 32-bit targets such as `GOARCH=386` or `arm`, `int` and `strconv.Atoi` are 32 bits wide and overflow at 2^31; those targets are not modelled.

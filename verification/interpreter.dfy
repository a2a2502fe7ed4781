/**
 The interpreter: its state, program loading, the single-step dispatch and the
 run loop. The state is an immutable record; each operation returns the next
 state. Reading an integer from the terminal is replaced by a value supplied
 by the caller (for one step) or by a sequence of values (for a run).
 */
module Interpreter {
  import opened GoInts
  import opened Tokens
  import opened Tape
  import opened Brackets

  /** The `BrainfuckInterpreter` record without its tracing switch and its
      never-written dead-loop set. */
  datatype Interp = Interp(
    memory: seq<GoInt>,
    pointer: int,
    tokens: seq<Token>,
    tokenIndex: nat,
    output: seq<Byte>)

  /** What Go's types guarantee on a 64-bit platform: a 300-cell array of
      64-bit ints, and a pointer that the wrapping helpers keep on the tape. */
  predicate Valid(s: Interp) {
    && |s.memory| == TapeSize
    && 0 <= s.pointer < TapeSize
  }

  /** The cell under the pointer. */
  function Cell(s: Interp): GoInt
    requires Valid(s)
  {
    s.memory[s.pointer]
  }

  /** The cursor has run off the end of the program. */
  predicate Finished(s: Interp) {
    s.tokenIndex >= |s.tokens|
  }

  /** `NewBrainfuckInterpreter`: a zeroed tape, pointer and cursor at 0, no program. */
  function NewInterpreter(): (s: Interp)
    ensures Valid(s) && Finished(s)
    ensures s.pointer == 0 && s.tokenIndex == 0 && s.output == []
    ensures forall k :: 0 <= k < TapeSize ==> s.memory[k] == 0
  {
    Interp(seq(TapeSize, _ => 0), 0, [], 0, [])
  }

  /** `loadCode`: installs the tokenized program and clears the output, but
      keeps the tape, the pointer and the cursor. */
  function Load(s: Interp, code: seq<Byte>): (r: Interp)
    requires Valid(s)
    ensures Valid(r)
    ensures r.tokens == TokensOf(code) && r.output == []
    ensures r.memory == s.memory && r.pointer == s.pointer && r.tokenIndex == s.tokenIndex
  {
    s.(tokens := TokensOf(code), output := [])
  }

  /** `executeStep`: runs the instruction under the cursor, then advances the
      cursor by one. A taken jump first moves the cursor onto the partner
      bracket, so execution resumes just past it. `input` is the integer the
      terminal would supply if the instruction is `,`. */
  function Step(s: Interp, input: GoInt): (r: Interp)
    requires Valid(s)
    ensures Valid(r) && r.tokens == s.tokens
    ensures Finished(s) ==> r == s
    ensures !Finished(s) ==> 0 < r.tokenIndex <= |s.tokens|
  {
    if Finished(s) then s
    else
      var next := s.tokenIndex + 1;
      match s.tokens[s.tokenIndex]
      case IncrementPointer => s.(pointer := IncPointer(s.pointer), tokenIndex := next)
      case DecrementPointer => s.(pointer := DecPointer(s.pointer), tokenIndex := next)
      case IncrementValue => s.(memory := s.memory[s.pointer := IncValue(Cell(s))], tokenIndex := next)
      case DecrementValue => s.(memory := s.memory[s.pointer := DecValue(Cell(s))], tokenIndex := next)
      case Output => s.(output := s.output + [ByteOf(Cell(s))], tokenIndex := next)
      case Input => s.(memory := s.memory[s.pointer := input], tokenIndex := next)
      case LoopStart =>
        var at := if Cell(s) == 0 then FindLoopEnd(s.tokens, s.tokenIndex) else s.tokenIndex;
        s.(tokenIndex := at + 1)
      case LoopEnd =>
        var at := if Cell(s) != 0 then FindLoopStart(s.tokens, s.tokenIndex) else s.tokenIndex;
        s.(tokenIndex := at + 1)
      case Unknown => s.(tokenIndex := next)
  }

  /** A step writes at most the cell under the pointer and at most one byte of
      output, after what was already printed. */
  lemma StepFrame(s: Interp, input: GoInt)
    requires Valid(s)
    ensures forall k :: 0 <= k < TapeSize && k != s.pointer ==> Step(s, input).memory[k] == s.memory[k]
    ensures var out := Step(s, input).output;
      |s.output| <= |out| <= |s.output| + 1 && out[..|s.output|] == s.output
  {
  }

  predicate IsBracket(t: Token) {
    t == LoopStart || t == LoopEnd
  }

  /** Every instruction other than a bracket advances the cursor by exactly one
      and touches only the part of the state it names. */
  lemma StepNonBracket(s: Interp, input: GoInt)
    requires Valid(s) && !Finished(s)
    requires !IsBracket(s.tokens[s.tokenIndex])
    ensures Step(s, input).tokenIndex == s.tokenIndex + 1
    ensures s.tokens[s.tokenIndex] in {IncrementPointer, DecrementPointer} ==>
      Step(s, input).memory == s.memory && Step(s, input).output == s.output
    ensures s.tokens[s.tokenIndex] == IncrementPointer ==>
      Step(s, input).pointer == (if s.pointer == TapeSize - 1 then 0 else s.pointer + 1)
    ensures s.tokens[s.tokenIndex] == DecrementPointer ==>
      Step(s, input).pointer == (if s.pointer == 0 then TapeSize - 1 else s.pointer - 1)
    ensures s.tokens[s.tokenIndex] in {IncrementValue, DecrementValue, Output, Input} ==>
      Step(s, input).pointer == s.pointer
    ensures s.tokens[s.tokenIndex] in {IncrementValue, DecrementValue, Input} ==>
      Step(s, input).output == s.output
    ensures s.tokens[s.tokenIndex] in {IncrementValue, DecrementValue} && 0 <= Cell(s) < CellModulus ==>
      0 <= Cell(Step(s, input)) < CellModulus
    ensures s.tokens[s.tokenIndex] == IncrementValue ==>
      ByteOf(Cell(Step(s, input))) == (ByteOf(Cell(s)) + 1) % CellModulus
    ensures s.tokens[s.tokenIndex] == DecrementValue ==>
      ByteOf(Cell(Step(s, input))) == (ByteOf(Cell(s)) + CellModulus - 1) % CellModulus
    ensures s.tokens[s.tokenIndex] == Output ==>
      Step(s, input).memory == s.memory && Step(s, input).output == s.output + [ByteOf(Cell(s))]
    ensures s.tokens[s.tokenIndex] == Input ==> Cell(Step(s, input)) == input
    ensures s.tokens[s.tokenIndex] == Unknown ==> Step(s, input) == s.(tokenIndex := s.tokenIndex + 1)
  {
  }

  /** `[`: on a zero cell the cursor resumes one past the matching `]`, leaving
      tape, pointer and output as they were; on a non-zero cell, or when there
      is no matching `]`, it simply moves on. */
  lemma StepLoopStart(s: Interp, input: GoInt)
    requires Valid(s) && !Finished(s)
    requires s.tokens[s.tokenIndex] == LoopStart
    ensures forall j :: ClosesAt(s.tokens, s.tokenIndex, j) && Cell(s) == 0 ==>
      Step(s, input) == s.(tokenIndex := j + 1)
    ensures Cell(s) != 0 ==> Step(s, input) == s.(tokenIndex := s.tokenIndex + 1)
    ensures (forall j :: !ClosesAt(s.tokens, s.tokenIndex, j)) ==>
      Step(s, input) == s.(tokenIndex := s.tokenIndex + 1)
  {
    forall j | ClosesAt(s.tokens, s.tokenIndex, j) && Cell(s) == 0
      ensures Step(s, input) == s.(tokenIndex := j + 1)
    {
      ClosesAtUnique(s.tokens, s.tokenIndex, j, FindLoopEnd(s.tokens, s.tokenIndex));
    }
  }

  /** `]`: on a non-zero cell the cursor resumes one past the matching `[`,
      leaving tape, pointer and output as they were; on a zero cell, or when
      there is no matching `[`, it simply moves on. */
  lemma StepLoopEnd(s: Interp, input: GoInt)
    requires Valid(s) && !Finished(s)
    requires s.tokens[s.tokenIndex] == LoopEnd
    ensures forall i :: OpensAt(s.tokens, i, s.tokenIndex) && Cell(s) != 0 ==>
      Step(s, input) == s.(tokenIndex := i + 1)
    ensures Cell(s) == 0 ==> Step(s, input) == s.(tokenIndex := s.tokenIndex + 1)
    ensures (forall i :: !OpensAt(s.tokens, i, s.tokenIndex)) ==>
      Step(s, input) == s.(tokenIndex := s.tokenIndex + 1)
  {
    forall i | OpensAt(s.tokens, i, s.tokenIndex) && Cell(s) != 0
      ensures Step(s, input) == s.(tokenIndex := i + 1)
    {
      OpensAtUnique(s.tokens, i, FindLoopStart(s.tokens, s.tokenIndex), s.tokenIndex);
    }
  }

  /** How a run stopped: the cursor passed the end, the step budget ran out, or
      the next instruction is `,` and no input is left. */
  datatype Status = Halted | OutOfFuel | AwaitingInput

  /** The state a run reached, how far it had read into the input, and why it
      stopped. */
  datatype Run = Run(state: Interp, read: nat, status: Status)

  /** `execute`: steps until the cursor passes the end of the program, for at
      most `fuel` steps, since a program such as `+[]` never stops. `inputs`
      is everything the terminal will supply; each `,` instruction reads the
      value at position `read` and moves on. */
  function Execute(s: Interp, inputs: seq<GoInt>, read: nat, fuel: nat): (r: Run)
    requires Valid(s) && read <= |inputs|
    ensures Valid(r.state) && r.state.tokens == s.tokens
    ensures read <= r.read <= |inputs|
    decreases fuel
  {
    if Finished(s) then Run(s, read, Halted)
    else if fuel == 0 then Run(s, read, OutOfFuel)
    else if s.tokens[s.tokenIndex] != Input then Execute(Step(s, 0), inputs, read, fuel - 1)
    else if read == |inputs| then Run(s, read, AwaitingInput)
    else Execute(Step(s, inputs[read]), inputs, read + 1, fuel - 1)
  }

  /** A run that stopped for a reason other than fuel stops at the same place
      with any larger budget: the budget never changes the outcome. */
  lemma {:induction false} ExecuteMoreFuel(s: Interp, inputs: seq<GoInt>, read: nat, fuel: nat, more: nat)
    requires Valid(s) && read <= |inputs|
    requires Execute(s, inputs, read, fuel).status != OutOfFuel
    requires fuel <= more
    ensures Execute(s, inputs, read, more) == Execute(s, inputs, read, fuel)
    decreases fuel
  {
    if !Finished(s) && fuel > 0 {
      if s.tokens[s.tokenIndex] != Input {
        ExecuteMoreFuel(Step(s, 0), inputs, read, fuel - 1, more - 1);
      } else if read < |inputs| {
        ExecuteMoreFuel(Step(s, inputs[read]), inputs, read + 1, fuel - 1, more - 1);
      }
    }
  }

  lemma {:induction false} ExecuteResume(s: Interp, inputs: seq<GoInt>, read: nat, f: nat, g: nat)
    requires Valid(s) && read <= |inputs|
    requires Execute(s, inputs, read, f).status == OutOfFuel
    ensures Execute(s, inputs, read, f + g)
         == Execute(Execute(s, inputs, read, f).state, inputs, Execute(s, inputs, read, f).read, g)
    decreases f
  {
    if f > 0 {
      if s.tokens[s.tokenIndex] != Input {
        ExecuteResume(Step(s, 0), inputs, read, f - 1, g);
      } else {
        ExecuteResume(Step(s, inputs[read]), inputs, read + 1, f - 1, g);
      }
    }
  }

  /** How a run ends: it halts exactly when the cursor has passed the end, and
      it waits for input only at a `,` with every input value consumed. */
  lemma {:induction false} ExecuteStatus(s: Interp, inputs: seq<GoInt>, read: nat, fuel: nat)
    requires Valid(s) && read <= |inputs|
    ensures var r := Execute(s, inputs, read, fuel);
      && (r.status == Halted <==> Finished(r.state))
      && (r.status == AwaitingInput ==> r.read == |inputs| && s.tokens[r.state.tokenIndex] == Input)
      && (s.tokenIndex <= |s.tokens| ==> r.state.tokenIndex <= |s.tokens|)
    decreases fuel
  {
    if !Finished(s) && fuel > 0 {
      if s.tokens[s.tokenIndex] != Input {
        ExecuteStatus(Step(s, 0), inputs, read, fuel - 1);
      } else if read < |inputs| {
        ExecuteStatus(Step(s, inputs[read]), inputs, read + 1, fuel - 1);
      }
    }
  }

  /** Output is append-only: a run only ever adds bytes after what was printed. */
  lemma {:induction false} ExecuteOutputGrows(s: Interp, inputs: seq<GoInt>, read: nat, fuel: nat)
    requires Valid(s) && read <= |inputs|
    ensures var r := Execute(s, inputs, read, fuel);
      |s.output| <= |r.state.output| && r.state.output[..|s.output|] == s.output
    decreases fuel
  {
    if !Finished(s) && fuel > 0 {
      StepFrame(s, 0);
      if s.tokens[s.tokenIndex] != Input {
        ExecuteOutputGrows(Step(s, 0), inputs, read, fuel - 1);
      } else if read < |inputs| {
        StepFrame(s, inputs[read]);
        ExecuteOutputGrows(Step(s, inputs[read]), inputs, read + 1, fuel - 1);
      }
    }
  }
}

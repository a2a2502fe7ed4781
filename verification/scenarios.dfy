/**
 Whole-program behaviour on small programs: each lemma loads a program into a
 fresh interpreter (or, for `EmptyLoopSpins`, starts inside one), runs it on a
 step budget and states where it stops (the final tape, pointer and output) or
 that it has not stopped.
 */
module Scenarios {
  import opened GoInts
  import opened Tokens
  import opened Tape
  import opened Brackets
  import opened Interpreter

  /** The bytes of an ASCII string. */
  function Ascii(text: string): (code: seq<Byte>)
    requires forall k :: 0 <= k < |text| ==> text[k] as int < 256
    ensures |code| == |text|
    ensures forall k :: 0 <= k < |text| ==> code[k] == text[k] as int
  {
    seq(|text|, k requires 0 <= k < |text| => text[k] as int)
  }

  /** A fresh interpreter with `text` loaded. */
  function Fresh(text: string): (s: Interp)
    requires forall k :: 0 <= k < |text| ==> text[k] as int < 256
    ensures Valid(s) && s.pointer == 0 && s.tokenIndex == 0 && s.output == []
    ensures s.tokens == TokensOf(Ascii(text))
  {
    Load(NewInterpreter(), Ascii(text))
  }

  /** `+++.` prints the byte 3 and leaves 3 in cell 0. */
  lemma PlusPlusPlusDot()
    ensures var r := Execute(Fresh("+++."), [], 0, 5);
            r.status == Halted && r.state.output == [3]
            && r.state.memory[0] == 3 && r.state.pointer == 0
  {
    var ts := [IncrementValue, IncrementValue, IncrementValue, Output];
    assert Render(ts) == Ascii("+++.");
    TokensOfRender(ts);
    var s0 := Fresh("+++.");
    var s1 := Step(s0, 0);
    assert s1.memory[0] == 1 && s1.tokenIndex == 1;
    var s2 := Step(s1, 0);
    assert s2.memory[0] == 2 && s2.tokenIndex == 2;
    var s3 := Step(s2, 0);
    assert s3.memory[0] == 3 && s3.tokenIndex == 3;
    var s4 := Step(s3, 0);
    assert s4.output == [3] && s4.tokenIndex == 4;
    assert Execute(s0, [], 0, 5) == Execute(s4, [], 0, 1);
  }

  /** `+[-]` enters the loop once, clears the cell and stops, printing nothing. */
  lemma ClearLoop()
    ensures var r := Execute(Fresh("+[-]"), [], 0, 5);
            r.status == Halted && r.state.output == [] && r.state.memory[0] == 0
  {
    var ts := [IncrementValue, LoopStart, DecrementValue, LoopEnd];
    assert Render(ts) == Ascii("+[-]");
    TokensOfRender(ts);
    var s0 := Fresh("+[-]");
    var s1 := Step(s0, 0);
    assert s1.memory[0] == 1 && s1.tokenIndex == 1;
    var s2 := Step(s1, 0);
    assert s2.tokenIndex == 2;
    var s3 := Step(s2, 0);
    assert s3.memory[0] == 0 && s3.tokenIndex == 3;
    var s4 := Step(s3, 0);
    assert s4.tokenIndex == 4 && s4.memory[0] == 0;
    assert Execute(s0, [], 0, 5) == Execute(s4, [], 0, 1);
  }

  /** `>+<` sets cell 1 and returns the pointer to cell 0. */
  lemma RightIncrementLeft()
    ensures var r := Execute(Fresh(">+<"), [], 0, 4);
            r.status == Halted && r.state.pointer == 0
            && r.state.memory[0] == 0 && r.state.memory[1] == 1
  {
    var ts := [IncrementPointer, IncrementValue, DecrementPointer];
    assert Render(ts) == Ascii(">+<");
    TokensOfRender(ts);
    var s0 := Fresh(">+<");
    var s1 := Step(s0, 0);
    assert s1.pointer == 1 && s1.tokenIndex == 1;
    var s2 := Step(s1, 0);
    assert s2.memory[1] == 1 && s2.memory[0] == 0 && s2.tokenIndex == 2;
    var s3 := Step(s2, 0);
    assert s3.pointer == 0 && s3.tokenIndex == 3;
    assert Execute(s0, [], 0, 4) == Execute(s3, [], 0, 1);
  }

  /** `<` from cell 0 wraps round to the last cell. */
  lemma LeftFromFirstCell()
    ensures var r := Execute(Fresh("<"), [], 0, 2);
            r.status == Halted && r.state.pointer == TapeSize - 1
  {
    var ts := [DecrementPointer];
    assert Render(ts) == Ascii("<");
    TokensOfRender(ts);
  }

  /** `[+` has no closing bracket: the `[` falls through and the `+` still runs. */
  lemma UnclosedBracket()
    ensures var r := Execute(Fresh("[+"), [], 0, 3);
            r.status == Halted && r.state.memory[0] == 1 && r.state.output == []
  {
    var ts := [LoopStart, IncrementValue];
    assert Render(ts) == Ascii("[+");
    TokensOfRender(ts);
    var s0 := Fresh("[+");
    var s1 := Step(s0, 0);
    assert s1.tokenIndex == 1 && s1.memory == s0.memory;
    var s2 := Step(s1, 0);
    assert s2.tokenIndex == 2 && s2.memory[0] == 1;
    assert Execute(s0, [], 0, 3) == Execute(s2, [], 0, 1);
  }

  /** `[+]+` on a zero cell skips the loop body entirely and runs the final `+`. */
  lemma SkippedLoop()
    ensures var r := Execute(Fresh("[+]+"), [], 0, 3);
            r.status == Halted && r.state.memory[0] == 1 && r.state.output == []
  {
    var ts := [LoopStart, IncrementValue, LoopEnd, IncrementValue];
    assert Render(ts) == Ascii("[+]+");
    TokensOfRender(ts);
    var s0 := Fresh("[+]+");
    assert ClosesAt(ts, 0, 2) by {
      assert Level(ts, 1, 2) == 0;
    }
    StepLoopStart(s0, 0);
    var s1 := Step(s0, 0);
    assert s1.tokenIndex == 3 && s1.memory == s0.memory;
    var s2 := Step(s1, 0);
    assert s2.tokenIndex == 4 && s2.memory[0] == 1;
    assert Execute(s0, [], 0, 3) == Execute(s2, [], 0, 1);
  }

  /** `,.` stores the input unclamped; the output byte is its low eight bits. */
  lemma InputIsNotClamped()
    ensures var r := Execute(Fresh(",."), [-1], 0, 3);
            r.status == Halted && r.read == 1
            && r.state.memory[0] == -1 && r.state.output == [255]
    ensures Execute(Fresh(",."), [], 0, 3).status == AwaitingInput
  {
    var ts := [Input, Output];
    assert Render(ts) == Ascii(",.");
    TokensOfRender(ts);
    var s0 := Fresh(",.");
    var s1 := Step(s0, -1);
    assert s1.memory[0] == -1 && s1.tokenIndex == 1;
    var s2 := Step(s1, 0);
    assert s2.output == [255] && s2.tokenIndex == 2;
    assert Execute(s0, [-1], 0, 3) == Execute(s2, [-1], 1, 1);
  }

  /** In `+[]` the `]` jumps to just past the `[`, which is the `]` itself: once
      there, the run never ends, whatever the budget. */
  lemma {:induction false} EmptyLoopSpins(s: Interp, fuel: nat)
    requires Valid(s) && s.tokens == [IncrementValue, LoopStart, LoopEnd]
    requires s.tokenIndex == 2 && Cell(s) != 0
    ensures Execute(s, [], 0, fuel).status == OutOfFuel
    decreases fuel
  {
    if fuel > 0 {
      assert OpensAt(s.tokens, 1, 2) by {
        assert Level(s.tokens, 2, 2) == 0;
      }
      StepLoopEnd(s, 0);
      assert Step(s, 0) == s;
      EmptyLoopSpins(s, fuel - 1);
    }
  }

  /** `+[]` never halts. */
  lemma EmptyLoopNeverHalts(fuel: nat)
    ensures Execute(Fresh("+[]"), [], 0, fuel).status != Halted
  {
    var ts := [IncrementValue, LoopStart, LoopEnd];
    assert Render(ts) == Ascii("+[]");
    TokensOfRender(ts);
    var s0 := Fresh("+[]");
    if fuel >= 2 {
      var s1 := Step(s0, 0);
      assert s1.memory[0] == 1 && s1.tokenIndex == 1;
      var s2 := Step(s1, 0);
      assert s2.tokenIndex == 2 && Cell(s2) == 1;
      assert Execute(s0, [], 0, fuel) == Execute(s1, [], 0, fuel - 1);
      assert Execute(s1, [], 0, fuel - 1) == Execute(s2, [], 0, fuel - 2);
      EmptyLoopSpins(s2, fuel - 2);
    } else if fuel == 1 {
      assert Execute(s0, [], 0, 1) == Execute(Step(s0, 0), [], 0, 0);
    }
  }
}

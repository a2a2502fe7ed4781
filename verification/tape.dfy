/**
 The circular tape: a data pointer that wraps modulo the tape length and cells
 that wrap modulo 256 when incremented or decremented. Cells hold Go `int`s,
 because the input instruction stores whatever integer it reads without
 clamping; the helpers below therefore follow Go's arithmetic exactly,
 including the 64-bit wrap of the intermediate sum and the truncating `%`.
 */
module Tape {
  import opened GoInts

  const TapeSize: int := 300
  const CellModulus: int := 256

  /** `incrementPointer`: one cell to the right, from the last cell back to the first. */
  function IncPointer(p: int): (r: int)
    requires 0 <= p < TapeSize
    ensures 0 <= r < TapeSize
    ensures p < TapeSize - 1 ==> r == p + 1
    ensures p == TapeSize - 1 ==> r == 0
  {
    Rem(p + 1, TapeSize)
  }

  /** `decrementPointer`: one cell to the left, from the first cell round to the last. */
  function DecPointer(p: int): (r: int)
    requires 0 <= p < TapeSize
    ensures 0 <= r < TapeSize
    ensures 0 < p ==> r == p - 1
    ensures p == 0 ==> r == TapeSize - 1
  {
    Rem(p - 1 + TapeSize, TapeSize)
  }

  /** Moving right then left, or left then right, returns to the same cell. */
  lemma PointerMovesInverse(p: int)
    requires 0 <= p < TapeSize
    ensures DecPointer(IncPointer(p)) == p
    ensures IncPointer(DecPointer(p)) == p
  {
  }

  /** `incrementValue`: Go evaluates `(cell + 1) % 256` in 64-bit `int`. */
  function IncValue(v: int): (r: int)
    requires IsGoInt(v)
    ensures IsGoInt(r) && -CellModulus < r < CellModulus
    ensures 0 <= v < CellModulus - 1 ==> r == v + 1
    ensures v == CellModulus - 1 ==> r == 0
    ensures ByteOf(r) == (ByteOf(v) + 1) % CellModulus
    ensures -1 <= v ==> 0 <= r < CellModulus
    ensures v < -1 ==> r <= 0
  {
    var r := Rem(Wrap(v + 1), CellModulus);
    RemKeepsByte(Wrap(v + 1));
    WrapKeepsByte(v + 1);
    ModShift(v, 1, CellModulus);
    assert ByteOf(r) == (v + 1) % CellModulus;
    r
  }

  /** `decrementValue`: Go evaluates `(cell - 1 + 256) % 256` in 64-bit `int`. */
  function DecValue(v: int): (r: int)
    requires IsGoInt(v)
    ensures IsGoInt(r) && -CellModulus < r < CellModulus
    ensures 0 < v < CellModulus ==> r == v - 1
    ensures v == 0 ==> r == CellModulus - 1
    ensures ByteOf(r) == (ByteOf(v) + CellModulus - 1) % CellModulus
    ensures 1 - CellModulus <= v <= MaxInt - (CellModulus - 1) ==> 0 <= r < CellModulus
    ensures v < 1 - CellModulus || MaxInt - (CellModulus - 1) < v ==> r <= 0
  {
    var r := Rem(Wrap(v - 1 + CellModulus), CellModulus);
    RemKeepsByte(Wrap(v - 1 + CellModulus));
    WrapKeepsByte(v - 1 + CellModulus);
    ModShift(v, CellModulus - 1, CellModulus);
    assert ByteOf(r) == (v + CellModulus - 1) % CellModulus;
    r
  }

  /** On a cell already in [0, 255] the two value helpers undo each other. */
  lemma ValueChangesInverse(v: int)
    requires 0 <= v < CellModulus
    ensures DecValue(IncValue(v)) == v
    ensures IncValue(DecValue(v)) == v
  {
  }

  /** Cells outside [0, 255]. Go's `%` keeps the sign of its left operand, so
      `+` on a cell below -1 gives a result at most 0, where Dafny's Euclidean
      `%` would give one in [0, 255]; `-` brings [-255, -1] back into range;
      above `MaxInt - 255` the `+ 256` of `decrementValue` overflows and the
      result is at most 0. */
  lemma OutOfRangeCellExamples()
    ensures IncValue(-5) == -4 && IncValue(-5) != (-5 + 1) % CellModulus
    ensures IncValue(-1) == 0 && IncValue(-257) == 0
    ensures DecValue(-1) == 254 && DecValue(-100) == 155
    ensures DecValue(-300) == -45
    ensures IncValue(256) == 1
    ensures DecValue(MaxInt - 255) == 255 && DecValue(MaxInt - 254) == 0
    ensures IncValue(MaxInt) == 0 && DecValue(MaxInt) == -2
  {
  }

  /** The sign and the low byte of a value of magnitude below 256 determine it,
      so the contracts of `IncValue` and `DecValue` fix their results exactly. */
  lemma SignAndByteDetermine(r1: int, r2: int)
    requires -CellModulus < r1 < CellModulus && -CellModulus < r2 < CellModulus
    requires (0 <= r1 && 0 <= r2) || (r1 <= 0 && r2 <= 0)
    requires ByteOf(r1) == ByteOf(r2)
    ensures r1 == r2
  {
  }

  /** A direction of travel for the pointer, or of change for a cell. */
  datatype Move = Up | Down

  /** The net displacement of a sequence of moves. */
  function Net(moves: seq<Move>): int
  {
    if |moves| == 0 then 0
    else (if moves[0] == Up then 1 else -1) + Net(moves[1..])
  }

  /** The pointer after a run of `>` (Up) and `<` (Down) instructions. */
  function Walk(p: int, moves: seq<Move>): (r: int)
    requires 0 <= p < TapeSize
    ensures 0 <= r < TapeSize
    decreases |moves|
  {
    if |moves| == 0 then p
    else Walk(if moves[0] == Up then IncPointer(p) else DecPointer(p), moves[1..])
  }

  /** The cell after a run of `+` (Up) and `-` (Down) instructions. */
  function Adjust(v: int, moves: seq<Move>): (r: int)
    requires 0 <= v < CellModulus
    ensures 0 <= r < CellModulus
    decreases |moves|
  {
    if |moves| == 0 then v
    else Adjust(if moves[0] == Up then IncValue(v) else DecValue(v), moves[1..])
  }

  /** Adding after reducing modulo the tape length or the cell modulus is the
      same as adding first. */
  lemma ModShift(x: int, y: int, n: int)
    requires n == TapeSize || n == CellModulus
    ensures (x % n + y) % n == (x + y) % n
  {
    if n == TapeSize { ModShiftBy300(x, y); } else { ModShiftBy256(x, y); }
  }

  lemma ModShiftBy300(x: int, y: int)
    ensures (x % 300 + y) % 300 == (x + y) % 300
  {
    var q := x / 300;
    assert x + y == (x % 300 + y) + q * 300;
  }

  lemma ModShiftBy256(x: int, y: int)
    ensures (x % 256 + y) % 256 == (x + y) % 256
  {
    var q := x / 256;
    assert x + y == (x % 256 + y) + q * 256;
  }

  /** Any walk ends on the cell its net displacement names, modulo the tape length. */
  lemma {:induction false} WalkIsNetDisplacement(p: int, moves: seq<Move>)
    requires 0 <= p < TapeSize
    ensures Walk(p, moves) == (p + Net(moves)) % TapeSize
    decreases |moves|
  {
    if |moves| > 0 {
      var d := if moves[0] == Up then 1 else -1;
      var p' := if moves[0] == Up then IncPointer(p) else DecPointer(p);
      assert p' == (p + d) % TapeSize;
      WalkIsNetDisplacement(p', moves[1..]);
      ModShift(p + d, Net(moves[1..]), TapeSize);
    }
  }

  /** Any run of increments and decrements leaves an in-range cell at its start
      value plus the net change, modulo 256. */
  lemma {:induction false} AdjustIsNetChange(v: int, moves: seq<Move>)
    requires 0 <= v < CellModulus
    ensures Adjust(v, moves) == (v + Net(moves)) % CellModulus
    decreases |moves|
  {
    if |moves| > 0 {
      var d := if moves[0] == Up then 1 else -1;
      var v' := if moves[0] == Up then IncValue(v) else DecValue(v);
      assert v' == (v + d) % CellModulus;
      AdjustIsNetChange(v', moves[1..]);
      ModShift(v + d, Net(moves[1..]), CellModulus);
    }
  }
}

/**
 Go integer semantics the interpreter relies on: the 64-bit `int`, its
 wrap-around on overflow, the truncating `%` operator and the `byte(...)`
 conversion. Dafny's `int` is unbounded and its `%` is Euclidean, so each of
 these is written out here.
 */
module GoInts {

  /** An 8-bit unsigned value: one byte of source text or of output. */
  type Byte = b: int | 0 <= b < 256

  const MinInt: int := -0x8000_0000_0000_0000
  const MaxInt: int := 0x7fff_ffff_ffff_ffff
  const IntRange: int := 0x1_0000_0000_0000_0000

  /** True iff `x` fits in a Go `int` on a 64-bit platform. */
  predicate IsGoInt(x: int) {
    MinInt <= x <= MaxInt
  }

  /** The values of a Go `int`: what a tape cell or an input value can hold. */
  type GoInt = x: int | IsGoInt(x)

  /** The value Go's 64-bit two's-complement arithmetic leaves for the exact result `x`. */
  function Wrap(x: int): (r: int)
    ensures IsGoInt(r)
    ensures IsGoInt(x) ==> r == x
    ensures MaxInt < x <= MaxInt + IntRange ==> r == x - IntRange
    ensures (x - r) % IntRange == 0
  {
    (x - MinInt) % IntRange + MinInt
  }

  /** Go's `a % b` for a positive divisor: the quotient truncates toward zero,
      so the remainder takes the sign of `a`. */
  function Rem(a: int, b: int): (r: int)
    requires b > 0
    ensures -b < r < b
    ensures a >= 0 ==> r == a % b
    ensures a <= 0 ==> r <= 0
    ensures a < 0 ==> r == a + ((-a) / b) * b
  {
    if a >= 0 then a % b else -((-a) % b)
  }

  /** Go's `byte(x)` conversion: keeps the low eight bits of the two's-complement value. */
  function ByteOf(x: int): (b: Byte)
    ensures 0 <= x < 256 ==> b == x
    ensures (x - b) % 256 == 0
  {
    x % 256
  }

  /** A multiple of 2^64 is a multiple of 256, so wrapping never changes the low byte. */
  lemma WrapKeepsByte(x: int)
    ensures ByteOf(Wrap(x)) == ByteOf(x)
  {
    var k := (x - Wrap(x)) / IntRange;
    assert x - Wrap(x) == k * IntRange;
    assert x == Wrap(x) + (k * 0x100_0000_0000_0000) * 256;
    MultipleOf256(Wrap(x), k * 0x100_0000_0000_0000);
  }

  lemma MultipleOf256(a: int, k: int)
    ensures (a + k * 256) % 256 == a % 256
  {
  }

  /** Go's remainder by 256 differs from its operand by a multiple of 256, so it
      never changes the low byte either. */
  lemma RemKeepsByte(a: int)
    ensures ByteOf(Rem(a, 256)) == ByteOf(a)
  {
    if a < 0 {
      var q := (-a) / 256;
      assert a == Rem(a, 256) + (-q) * 256;
      MultipleOf256(Rem(a, 256), -q);
    }
  }
}

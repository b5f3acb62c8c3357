/** The signed fixed-width integer types that elf_integer<T> is instantiated with,
    their bounds, and the two ways a value is brought into range: clamping
    (what the overflow checks are for) and two's-complement narrowing (what a
    C++ conversion to a narrower type does). */
module Widths {

  /** T in elf_integer<T>: int8_t, int16_t, int32_t or int64_t. */
  datatype Width = W8 | W16 | W32 | W64 {

    function Bits(): (n: nat)
      ensures n >= 8
    {
      match this
      case W8 => 8
      case W16 => 16
      case W32 => 32
      case W64 => 64
    }

    /** std::numeric_limits<T>::min(): -2^(n-1) for an n-bit T, one below
        the negation of max(T). */
    function Min(): (r: int)
      ensures r + Pow2(Bits() - 1) == 0
      ensures r == -Max() - 1
    {
      Pow2Values();
      match this
      case W8 => -0x80
      case W16 => -0x8000
      case W32 => -0x8000_0000
      case W64 => -0x8000_0000_0000_0000
    }

    /** std::numeric_limits<T>::max(): 2^(n-1) - 1 for an n-bit T. */
    function Max(): (r: int)
      ensures r == Pow2(Bits() - 1) - 1
    {
      Pow2Values();
      match this
      case W8 => 0x7f
      case W16 => 0x7fff
      case W32 => 0x7fff_ffff
      case W64 => 0x7fff_ffff_ffff_ffff
    }

    /** The number of distinct values of T. */
    function Modulus(): int {
      Max() - Min() + 1
    }

    /** The type C++ computes in when an operand of type T takes part in
        arithmetic: int8_t and int16_t are promoted to int (32 bits on every
        platform the library targets); int32_t and int64_t stay as they are. */
    function Promoted(): Width {
      if Bits() < 32 then W32 else this
    }
  }

  /** x is a value of type T. */
  predicate InRange(w: Width, x: int) {
    w.Min() <= x <= w.Max()
  }

  function Pow2(n: nat): (r: nat)
    ensures r > 0
  {
    if n == 0 then 1 else 2 * Pow2(n - 1)
  }

  function Dist(x: int, y: int): nat {
    if x < y then y - x else x - y
  }

  /** T's bounds are those of an n-bit two's-complement type:
      min(T) == -2^(n-1) and max(T) == 2^(n-1) - 1. */
  lemma BoundsArePowersOfTwo(w: Width)
    ensures w.Min() + Pow2(w.Bits() - 1) == 0 && w.Max() == Pow2(w.Bits() - 1) - 1
    ensures w.Modulus() == Pow2(w.Bits())
  {
  }

  lemma Pow2Values()
    ensures Pow2(7) == 0x80 && Pow2(8) == 0x100
    ensures Pow2(15) == 0x8000 && Pow2(16) == 0x1_0000
    ensures Pow2(31) == 0x8000_0000 && Pow2(32) == 0x1_0000_0000
    ensures Pow2(63) == 0x8000_0000_0000_0000 && Pow2(64) == 0x1_0000_0000_0000_0000
  {
    assert Pow2(7) == 0x80;
    assert Pow2(8) == 0x100;
    Pow2Add(8, 7);
    Pow2Add(8, 8);
    Pow2Add(16, 15);
    Pow2Add(16, 16);
    Pow2Add(32, 31);
    Pow2Add(32, 32);
  }

  lemma {:induction false} Pow2Add(a: nat, b: nat)
    ensures Pow2(a + b) == Pow2(a) * Pow2(b)
  {
    if a > 0 {
      Pow2Add(a - 1, b);
      assert Pow2(a + b) == 2 * Pow2(a - 1 + b);
    }
  }

  /** The value of T nearest to x: saturation. */
  function Clamp(w: Width, x: int): (r: int)
    ensures InRange(w, r)
    ensures InRange(w, x) ==> r == x
    ensures x > w.Max() ==> r == w.Max()
    ensures x < w.Min() ==> r == w.Min()
  {
    if x > w.Max() then w.Max() else if x < w.Min() then w.Min() else x
  }

  /** No value of T is nearer to x than Clamp(w, x). */
  lemma ClampNearest(w: Width, x: int, y: int)
    requires InRange(w, y)
    ensures Dist(Clamp(w, x), x) <= Dist(y, x)
  {
  }

  /** Clamping is idempotent and monotone. */
  lemma ClampIdempotentMonotone(w: Width, x: int, y: int)
    ensures Clamp(w, Clamp(w, x)) == Clamp(w, x)
    ensures x <= y ==> Clamp(w, x) <= Clamp(w, y)
  {
  }

  /** The implicit C++ conversion of an integer to T: the value of T that is
      congruent to x modulo 2^n (two's-complement truncation). */
  function Narrow(w: Width, x: int): (r: int)
    ensures InRange(w, r)
    ensures (x - r) % w.Modulus() == 0
    ensures InRange(w, x) ==> r == x
  {
    w.Min() + (x - w.Min()) % w.Modulus()
  }

  /** Narrowing is determined by its two properties: the only value of T
      congruent to x modulo 2^n is Narrow(w, x). */
  lemma NarrowUnique(w: Width, x: int, y: int)
    requires InRange(w, y) && (x - y) % w.Modulus() == 0
    ensures y == Narrow(w, x)
  {
  }

  /** Narrowing and clamping disagree as soon as the value does not fit:
      200 becomes -56 when narrowed to 8 bits, and 127 when clamped; -200
      becomes 56, and -128. */
  lemma NarrowingIsNotClamping()
    ensures Narrow(W8, 200) == -56 && Clamp(W8, 200) == 127
    ensures Narrow(W8, -200) == 56 && Clamp(W8, -200) == -128
    ensures Narrow(W8, 42) == 42 && Clamp(W8, 42) == 42
  {
  }
}

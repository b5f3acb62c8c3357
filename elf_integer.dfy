/** elf_integer<T>: a signed integer of width T whose arithmetic saturates at
    T's bounds instead of overflowing.

    The const operators (+ - * / % and unary -) build a new value from two
    values of T, so they are functions over ints here; a width `w` stands for
    T. The compound operators, ++ and -- update `value` in place, so they are
    methods of the class ElfInt, each proved to leave what the matching const
    operator returns. */
module ElfInteger {
  import opened Widths
  import opened TruncDiv

  // ---------------------------------------------------------------------
  // Arithmetic lemmas the overflow guards rest on

  lemma MulMonotone(x: int, y: int, d: int)
    requires x <= y && d > 0
    ensures x * d <= y * d
  {
  }

  /** For a natural n and a positive d: a exceeds n / d exactly when a * d
      exceeds n. This is why dividing the bound by one factor is a faithful
      overflow test for the product. */
  lemma FloorDivThreshold(n: int, d: int, a: int)
    requires n >= 0 && d > 0
    ensures a > n / d <==> a * d > n
  {
    var q := n / d;
    FloorDivBounds(n, d);
    if a > q {
      MulMonotone(q + 1, a, d);
    } else {
      MulMonotone(a, q, d);
    }
  }

  // ---------------------------------------------------------------------
  // + and -

  /** a + b for values a, b of T: the chain of checks of operator+= run on a
      copy of a. */
  function Plus(w: Width, a: int, b: int): (r: int)
    requires InRange(w, a) && InRange(w, b)
    ensures r == Clamp(w, a + b)
  {
    if b > 0 && a > w.Max() - b then w.Max()
    else if b < 0 && a < w.Min() - b then w.Min()
    else a + b
  }

  /** Each check of operator+= computes a value of T, and holds exactly when
      the exact sum leaves T on that side. */
  lemma PlusGuardsExact(w: Width, a: int, b: int)
    requires InRange(w, a) && InRange(w, b)
    ensures b > 0 ==> InRange(w, w.Max() - b) && (a > w.Max() - b <==> a + b > w.Max())
    ensures b < 0 ==> InRange(w, w.Min() - b) && (a < w.Min() - b <==> a + b < w.Min())
    ensures b <= 0 ==> a + b <= w.Max()
    ensures b >= 0 ==> a + b >= w.Min()
  {
  }

  /** a - b for values a, b of T: the chain of checks of operator-= run on a
      copy of a. */
  function Minus(w: Width, a: int, b: int): (r: int)
    requires InRange(w, a) && InRange(w, b)
    ensures r == Clamp(w, a - b)
  {
    if b > 0 && a < w.Min() + b then w.Min()
    else if b < 0 && a > w.Max() + b then w.Max()
    else a - b
  }

  /** Each check of operator-= computes a value of T, and holds exactly when
      the exact difference leaves T on that side. */
  lemma MinusGuardsExact(w: Width, a: int, b: int)
    requires InRange(w, a) && InRange(w, b)
    ensures b > 0 ==> InRange(w, w.Min() + b) && (a < w.Min() + b <==> a - b < w.Min())
    ensures b < 0 ==> InRange(w, w.Max() + b) && (a > w.Max() + b <==> a - b > w.Max())
    ensures b <= 0 ==> a - b >= w.Min()
    ensures b >= 0 ==> a - b <= w.Max()
  {
  }

  /** Saturating addition is not associative: for 8 bits,
      (100 + 100) + -100 == 27 while 100 + (100 + -100) == 100. */
  lemma PlusNotAssociative()
    ensures Plus(W8, Plus(W8, 100, 100), -100) == 27
    ensures Plus(W8, 100, Plus(W8, 100, -100)) == 100
  {
  }

  // ---------------------------------------------------------------------
  // *

  /** The four division thresholds of operator*= are exact overflow tests:
      each holds exactly when the product leaves T in the direction its
      branch saturates to. */
  lemma MulGuardsExact(w: Width, a: int, b: int)
    ensures a > 0 && b > 0 ==> (a > TDiv(w.Max(), b) <==> a * b > w.Max())
    ensures a > 0 && b < 0 ==> (a > TDiv(w.Min(), b) <==> a * b < w.Min())
    ensures a < 0 && b > 0 ==> (a < TDiv(w.Min(), b) <==> a * b < w.Min())
    ensures a < 0 && b < 0 ==> (a < TDiv(w.Max(), b) <==> a * b > w.Max())
  {
    var lo, hi := -w.Min(), w.Max();
    if a > 0 && b > 0 {
      FloorDivThreshold(hi, b, a);
    } else if a > 0 && b < 0 {
      FloorDivThreshold(lo, -b, a);
      assert a * -b == -(a * b);
    } else if a < 0 && b > 0 {
      FloorDivThreshold(lo, b, -a);
      assert -a * b == -(a * b);
    } else if a < 0 && b < 0 {
      FloorDivThreshold(hi, -b, -a);
      assert -a * -b == a * b;
    }
  }

  /** The chain of checks of operator*= exactly as the source writes it.
      For b < 0 < a the threshold min(T) / b is computed, which for b == -1 is
      max(T) + 1 (see MulGuardOverflow). */
  function TimesAsWritten(w: Width, a: int, b: int): (r: int)
    requires InRange(w, a) && InRange(w, b)
    ensures a == 0 || b == 0 ==> r == 0
    ensures r == Clamp(w, a * b)
  {
    MulGuardsExact(w, a, b);
    if a == 0 || b == 0 then 0
    else if a > 0 && b > 0 && a > TDiv(w.Max(), b) then w.Max()
    else if a > 0 && b < 0 && a > TDiv(w.Min(), b) then w.Min()
    else if a < 0 && b > 0 && a < TDiv(w.Min(), b) then w.Min()
    else if a < 0 && b < 0 && a < TDiv(w.Max(), b) then w.Max()
    else a * b
  }

  /** Every threshold the source's operator*= divides out for operands a, b
      is a value of the type C++ computes it in. */
  predicate AsWrittenQuotientsFit(w: Width, a: int, b: int)
    requires b != 0
  {
    var p := w.Promoted();
    (a > 0 && b > 0 ==> InRange(p, TDiv(w.Max(), b))) &&
    (a > 0 && b < 0 ==> InRange(p, TDiv(w.Min(), b))) &&
    (a < 0 && b > 0 ==> InRange(p, TDiv(w.Min(), b))) &&
    (a < 0 && b < 0 ==> InRange(p, TDiv(w.Max(), b)))
  }

  lemma PromotedWidens(w: Width)
    ensures w.Promoted().Min() <= w.Min() && w.Max() <= w.Promoted().Max()
    ensures w.Bits() < 32 ==> w.Max() + 1 <= w.Promoted().Max()
    ensures w.Bits() >= 32 ==> w.Promoted() == w
  {
  }

  /** The source's operator*= overflows while checking for overflow: its
      thresholds all fit, except when T is at least as wide as int, the value
      is positive and the operand is -1, where min(T) / -1 == max(T) + 1 is
      outside T. */
  lemma MulGuardOverflow(w: Width, a: int, b: int)
    requires InRange(w, a) && InRange(w, b) && b != 0
    ensures AsWrittenQuotientsFit(w, a, b) <==> !(w.Bits() >= 32 && a > 0 && b == -1)
  {
    PromotedWidens(w);
    QuotientMagnitude(w.Max(), b);
    QuotientMagnitude(w.Min(), b);
    if b == -1 {
      assert TDiv(w.Min(), b) == w.Max() + 1;
    }
  }

  /** The 32-bit instance: 1 *= -1 divides INT32_MIN by -1. */
  lemma MulGuardOverflowExample()
    ensures !AsWrittenQuotientsFit(W32, 1, -1)
    ensures TDiv(W32.Min(), -1) == W32.Max() + 1
    ensures TimesAsWritten(W32, 1, -1) == -1
  {
  }

  /** Every threshold the corrected chain (Times) divides out is a value of T
      itself. */
  predicate QuotientsFit(w: Width, a: int, b: int)
    requires a != 0 && b != 0
  {
    (a > 0 && b > 0 ==> InRange(w, TDiv(w.Max(), b))) &&
    (a > 0 && b < 0 ==> InRange(w, TDiv(w.Min(), a))) &&
    (a < 0 && b > 0 ==> InRange(w, TDiv(w.Min(), b))) &&
    (a < 0 && b < 0 ==> InRange(w, TDiv(w.Max(), b)))
  }

  /** a * b for values a, b of T, as operator*= computes it with the
      threshold of the positive-times-negative case taken as min(T) / a
      (a > 0) instead of min(T) / b, which cannot overflow. */
  function Times(w: Width, a: int, b: int): (r: int)
    requires InRange(w, a) && InRange(w, b)
    ensures a == 0 || b == 0 ==> r == 0
    ensures r == Clamp(w, a * b)
    ensures r == TimesAsWritten(w, a, b)
    ensures a != 0 && b != 0 ==> QuotientsFit(w, a, b)
  {
    MulGuardsExact(w, a, b);
    MulGuardsExact(w, b, a);
    assert a * b == b * a;
    if a == 0 || b == 0 then 0
    else (
      TimesQuotientsFit(w, a, b);
      if a > 0 && b > 0 && a > TDiv(w.Max(), b) then w.Max()
      else if a > 0 && b < 0 && b < TDiv(w.Min(), a) then w.Min()
      else if a < 0 && b > 0 && a < TDiv(w.Min(), b) then w.Min()
      else if a < 0 && b < 0 && a < TDiv(w.Max(), b) then w.Max()
      else a * b)
  }

  lemma TimesQuotientsFit(w: Width, a: int, b: int)
    requires InRange(w, a) && InRange(w, b) && a != 0 && b != 0
    ensures QuotientsFit(w, a, b)
  {
  }

  // ---------------------------------------------------------------------
  // / and %

  /** A truncating quotient of values of T is a value of T, except
      min(T) / -1. */
  lemma QuotientInRange(w: Width, a: int, b: int)
    requires InRange(w, a) && b != 0
    ensures InRange(w, TDiv(a, b)) <==> !(a == w.Min() && b == -1)
  {
  }

  /** a / b for values a, b of T: division by zero gives max(T); otherwise
      the exact truncating quotient, clamped (which only matters for
      min(T) / -1, the one quotient that leaves T). */
  function Quot(w: Width, a: int, b: int): (r: int)
    requires InRange(w, a) && InRange(w, b)
    ensures b == 0 ==> r == w.Max()
    ensures b != 0 ==> r == Clamp(w, TDiv(a, b))
  {
    if b == 0 then w.Max()
    else if a == w.Min() && b == -1 then (QuotientInRange(w, a, b); w.Max())
    else (QuotientInRange(w, a, b); TDiv(a, b))
  }

  /** a % b for values a, b of T: remainder by zero gives max(T); otherwise
      the exact truncating remainder, smaller in magnitude than b and with
      a's sign (min(T) % -1 is 0). */
  function Mod(w: Width, a: int, b: int): (r: int)
    requires InRange(w, a) && InRange(w, b)
    ensures InRange(w, r)
    ensures b == 0 ==> r == w.Max()
    ensures b != 0 ==> r == TRem(a, b)
    ensures b != 0 ==> Abs(r) < Abs(b) && (r == 0 || ((r < 0) <==> (a < 0)))
  {
    if b == 0 then w.Max()
    else if a == w.Min() && b == -1 then 0
    else TRem(a, b)
  }

  /** Wherever / does not saturate, / and % recompose the dividend. */
  lemma QuotModRecompose(w: Width, a: int, b: int)
    requires InRange(w, a) && InRange(w, b)
    requires b != 0 && !(a == w.Min() && b == -1)
    ensures Quot(w, a, b) * b + Mod(w, a, b) == a
  {
  }

  // ---------------------------------------------------------------------
  // ++, -- and unary -

  /** The value ++ leaves: one more, unless already max(T). */
  function Succ(w: Width, a: int): (r: int)
    requires InRange(w, a)
    ensures r == Clamp(w, a + 1)
    ensures r == Plus(w, a, 1)
  {
    if a < w.Max() then a + 1 else a
  }

  /** The value -- leaves: one less, unless already min(T). */
  function Pred(w: Width, a: int): (r: int)
    requires InRange(w, a)
    ensures r == Clamp(w, a - 1)
    ensures r == Minus(w, a, 1)
  {
    if a > w.Min() then a - 1 else a
  }

  /** ++ and -- undo each other away from the bound they stop at, and repeat
      at it. */
  lemma SuccPredInverse(w: Width, a: int)
    requires InRange(w, a)
    ensures a < w.Max() ==> Pred(w, Succ(w, a)) == a
    ensures a > w.Min() ==> Succ(w, Pred(w, a)) == a
    ensures Succ(w, w.Max()) == w.Max() && Pred(w, w.Min()) == w.Min()
  {
  }

  /** Unary -: the negation, except min(T), which is returned unchanged
      (not saturated to max(T)). */
  function Negate(w: Width, a: int): (r: int)
    requires InRange(w, a)
    ensures InRange(w, r)
    ensures a != w.Min() ==> r == -a
    ensures a == w.Min() ==> r == a && r != Clamp(w, -a)
  {
    if a != w.Min() then -a else a
  }

  /** Negating twice gives back every value of T, min(T) included. */
  lemma NegateInvolutive(w: Width, a: int)
    requires InRange(w, a)
    ensures Negate(w, Negate(w, a)) == a
  {
  }

  // ---------------------------------------------------------------------
  // Examples on 8 bits

  lemma EightBitExamples()
    ensures Plus(W8, 100, 100) == 127 && Plus(W8, -100, -100) == -128
    ensures Times(W8, 100, 100) == 127 && Times(W8, -100, 100) == -128
    ensures Quot(W8, 5, 0) == 127 && Quot(W8, -128, -1) == 127
    ensures Mod(W8, -128, -1) == 0 && Mod(W8, -7, 2) == -1 && Quot(W8, -7, 2) == -3
    ensures Negate(W8, -128) == -128
    ensures Succ(W8, 127) == 127 && Pred(W8, -128) == -128
  {
  }

  // ---------------------------------------------------------------------
  // The object

  class ElfInt {
    const width: Width
    var value: int

    /** value is a value of T. */
    ghost predicate Valid()
      reads this
    {
      InRange(width, value)
    }

    /** elf_integer(T value_): stores the value verbatim. */
    constructor (w: Width, v: int)
      requires InRange(w, v)
      ensures width == w && value == v && Valid()
    {
      width := w;
      value := v;
    }

    /** elf_integer(const elf_integer<U>& other), as written: other.value is
        first converted to T (two's-complement narrowing), and only then
        compared with T's bounds, which a value of T never exceeds. */
    constructor Converting(w: Width, other: ElfInt)
      requires other.Valid()
      ensures width == w && Valid()
      ensures value == Narrow(w, other.value)
      ensures InRange(w, other.value) ==> value == other.value
    {
      var v := Narrow(w, other.value);
      if v > w.Max() {
        assert false;
        v := w.Max();
      } else if v < w.Min() {
        assert false;
        v := w.Min();
      }
      width := w;
      value := v;
    }

    /** The conversion the checks of the converting constructor are meant
        to perform: compare other.value with T's bounds before narrowing. */
    constructor Clamping(w: Width, other: ElfInt)
      requires other.Valid()
      ensures width == w && Valid()
      ensures value == Clamp(w, other.value)
    {
      var v := other.value;
      if v > w.Max() {
        v := w.Max();
      } else if v < w.Min() {
        v := w.Min();
      }
      width := w;
      value := v;
    }

    /** operator+= (other may be this object itself). */
    method AddAssign(other: ElfInt)
      requires Valid() && other.Valid() && other.width == width
      modifies this
      ensures Valid()
      ensures value == Plus(width, old(value), old(other.value))
    {
      if other.value > 0 && value > width.Max() - other.value {
        value := width.Max();
      } else if other.value < 0 && value < width.Min() - other.value {
        value := width.Min();
      } else {
        value := value + other.value;
      }
    }

    /** operator-= */
    method SubAssign(other: ElfInt)
      requires Valid() && other.Valid() && other.width == width
      modifies this
      ensures Valid()
      ensures value == Minus(width, old(value), old(other.value))
    {
      if other.value > 0 && value < width.Min() + other.value {
        value := width.Min();
      } else if other.value < 0 && value > width.Max() + other.value {
        value := width.Max();
      } else {
        value := value - other.value;
      }
    }

    /** operator*=, with the threshold of the positive-times-negative case
        divided by the positive factor (see Times). */
    method MulAssign(other: ElfInt)
      requires Valid() && other.Valid() && other.width == width
      modifies this
      ensures Valid()
      ensures value == Times(width, old(value), old(other.value))
    {
      var a, b := value, other.value;
      ghost var r := Times(width, a, b);
      if a == 0 || b == 0 {
        value := 0;
      } else if a > 0 && b > 0 && a > TDiv(width.Max(), b) {
        value := width.Max();
      } else if a > 0 && b < 0 && b < TDiv(width.Min(), a) {
        value := width.Min();
      } else if a < 0 && b > 0 && a < TDiv(width.Min(), b) {
        value := width.Min();
      } else if a < 0 && b < 0 && a < TDiv(width.Max(), b) {
        value := width.Max();
      } else {
        value := a * b;
        assert value == r;
      }
    }

    /** operator/= */
    method DivAssign(other: ElfInt)
      requires Valid() && other.Valid() && other.width == width
      modifies this
      ensures Valid()
      ensures value == Quot(width, old(value), old(other.value))
    {
      var a, b := value, other.value;
      if b == 0 {
        value := width.Max();
      } else if a == width.Min() && b == -1 {
        value := width.Max();
      } else {
        QuotientInRange(width, a, b);
        value := TDiv(a, b);
      }
    }

    /** operator%= */
    method RemAssign(other: ElfInt)
      requires Valid() && other.Valid() && other.width == width
      modifies this
      ensures Valid()
      ensures value == Mod(width, old(value), old(other.value))
    {
      if other.value == 0 {
        value := width.Max();
      } else if value == width.Min() && other.value == -1 {
        value := 0;
      } else {
        value := TRem(value, other.value);
      }
    }

    /** Prefix operator++ */
    method PreInc()
      requires Valid()
      modifies this
      ensures Valid()
      ensures value == Succ(width, old(value))
    {
      if value < width.Max() {
        value := value + 1;
      }
    }

    /** Postfix operator++: the same update, returning the value before it. */
    method PostInc() returns (r: int)
      requires Valid()
      modifies this
      ensures Valid()
      ensures r == old(value) && value == Succ(width, old(value))
    {
      r := value;
      if value < width.Max() {
        value := value + 1;
      }
    }

    /** Prefix operator-- */
    method PreDec()
      requires Valid()
      modifies this
      ensures Valid()
      ensures value == Pred(width, old(value))
    {
      if value > width.Min() {
        value := value - 1;
      }
    }

    /** Postfix operator--: the same update, returning the value before it. */
    method PostDec() returns (r: int)
      requires Valid()
      modifies this
      ensures Valid()
      ensures r == old(value) && value == Pred(width, old(value))
    {
      r := value;
      if value > width.Min() {
        value := value - 1;
      }
    }

    /** operator== : reflexive, and true exactly when neither < nor >
        holds (trichotomy). */
    predicate Eq(other: ElfInt)
      requires other.width == width
      reads this, other
      ensures other == this ==> Eq(other)
      ensures Eq(other) == (!Lt(other) && !Gt(other))
    {
      value == other.value
    }

    /** operator!= : the negation of ==. */
    predicate Ne(other: ElfInt)
      requires other.width == width
      reads this, other
      ensures Ne(other) == !Eq(other)
    {
      value != other.value
    }

    /** operator< : irreflexive (ComparisonsAreIntegerOrder shows the rest
        of the strict order). */
    predicate Lt(other: ElfInt)
      requires other.width == width
      reads this, other
      ensures other == this ==> !Lt(other)
    {
      value < other.value
    }

    /** operator> : < with the operands exchanged. */
    predicate Gt(other: ElfInt)
      requires other.width == width
      reads this, other
      ensures Gt(other) == other.Lt(this)
    {
      value > other.value
    }

    /** operator<= : the negation of >. */
    predicate Le(other: ElfInt)
      requires other.width == width
      reads this, other
      ensures Le(other) == !Gt(other)
    {
      value <= other.value
    }

    /** operator>= : the negation of <. */
    predicate Ge(other: ElfInt)
      requires other.width == width
      reads this, other
      ensures Ge(other) == !Lt(other)
    {
      value >= other.value
    }
  }

  lemma ComparisonsAreIntegerOrder(x: ElfInt, y: ElfInt)
    requires y.width == x.width
    ensures x.Ne(y) == !x.Eq(y)
    ensures x.Ge(y) == !x.Lt(y)
    ensures x.Le(y) == !x.Gt(y)
    ensures x.Gt(y) == y.Lt(x)
    ensures x.Le(y) == (x.Lt(y) || x.Eq(y))
    ensures (if x.Lt(y) then 1 else 0) + (if x.Eq(y) then 1 else 0) + (if x.Gt(y) then 1 else 0) == 1
  {
  }

  /** < is a strict order: asymmetric and transitive. */
  lemma LtIsStrictOrder(x: ElfInt, y: ElfInt, z: ElfInt)
    requires y.width == x.width && z.width == x.width
    ensures x.Lt(y) ==> !y.Lt(x)
    ensures x.Lt(y) && y.Lt(z) ==> x.Lt(z)
  {
  }
}

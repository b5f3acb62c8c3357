# elf_integer: saturating fixed-width integers

ELFIO uses `elf_integer<T>` in place of native integer types. The comment at
elfio/elf_integer.hpp:8-10 states its aim: to replace the standard integer
types with one that checks for overflow, so that integer arithmetic in the
library cannot overflow. The type wraps one value of a signed type `T`. Its
arithmetic operators check the operands against T's bounds and, where the exact
result would not fit, give `max(T)` or `min(T)` instead. Division and remainder
by zero give `max(T)`. `min(T) / -1` gives `max(T)` and `min(T) % -1` gives `0`.
Unary minus leaves `min(T)` unchanged. `++` and `--` stop at the bounds.

The code does not fully reach that aim, in two places (see Findings):
- The cross-width converting constructor (lines 25-31) wraps instead of
  clamping.
- For `int32_t` and `int64_t`, the check of `*=` at line 60 computes
  `min(T) / -1` when the value is positive and the operand is -1. That division
  itself overflows. The result the chain would give is still the clamped
  product.

This project models the type in Dafny. It proves that `+ - *`, `++` and `--`
leave the exact result clamped to T. It proves that `/` and `%` follow the rules
above for a zero divisor and for `min(T)` and otherwise truncate like C++. It
proves that unary minus negates every value except `min(T)`. It also proves
exactly when the overflow checks stay in range.

- `widths.dfy` (module `Widths`): the widths T can have (8, 16, 32 and 64 bits),
  their bounds, clamping, and the two's-complement narrowing that a C++
  conversion to T performs.
- `trunc_div.dfy` (module `TruncDiv`): C++ `/` and `%`. The quotient is
  truncated toward zero and the remainder takes the dividend's sign. Dafny's
  own `/` and `%` are Euclidean.
- `elf_integer.dfy` (module `ElfInteger`):
  - The `const` operators (`+ - * / %`, unary `-`) are functions over integers.
    A `Width` stands for T. `elf_integer` is a value type, so a function that
    returns the new value is a faithful model.
  - The class `ElfInt` holds `value` as a field. Its compound operators
    (`+= -= *= /= %=`), prefix and postfix `++`/`--`, constructors and
    comparisons are methods and predicates of the class. Each compound method
    is proved to leave exactly what the matching binary operator returns. It is
    also proved correct when `other` is the object itself (`x += x`).

Integers are unbounded in the model. Staying inside T is a proved property
(`Valid()`, `InRange`), not something the types guarantee.

## Model

| member | source | states |
|---|---|---|
| `Widths.Width.Min` | elfio/elf_integer.hpp:169 | `min()` is -2^(n-1) for an n-bit T, one below the negation of `max()` |
| `Widths.Width.Max` | elfio/elf_integer.hpp:170 | `max()` is 2^(n-1)-1 for an n-bit T |
| `Widths.BoundsArePowersOfTwo` | elfio/elf_integer.hpp:169-170 | `min()` is -2^(n-1) and `max()` is 2^(n-1)-1 for an n-bit T; T has 2^n values |
| `Widths.Clamp` | elfio/elf_integer.hpp:8-9 | saturation: the result is a value of T; it equals x when x fits, `max(T)` above the range, `min(T)` below it |
| `Widths.ClampNearest` | elfio/elf_integer.hpp:8-9 | no value of T is nearer to x than its clamp |
| `Widths.ClampIdempotentMonotone` | elfio/elf_integer.hpp:8-9 | clamping twice changes nothing, and clamping preserves order |
| `Widths.Narrow` | elfio/elf_integer.hpp:25 | the conversion `value( other.value )` gives a value of T congruent to the source modulo 2^n, and the source itself when it fits |
| `Widths.NarrowUnique` | elfio/elf_integer.hpp:25 | that value is the only value of T congruent to the source modulo 2^n |
| `Widths.NarrowingIsNotClamping` | elfio/elf_integer.hpp:25-31 | converting 200 to 8 bits gives -56, where clamping gives 127; -200 gives 56, where clamping gives -128; 42 stays 42 |
| `TruncDiv.TDiv` | elfio/elf_integer.hpp:78 | a nonzero quotient is negative exactly when the operands' signs differ |
| `TruncDiv.TDivMagnitude` | elfio/elf_integer.hpp:78 | the quotient's magnitude is the dividend's magnitude divided by the divisor's, rounded down (truncation toward zero) |
| `TruncDiv.TRem` | elfio/elf_integer.hpp:89 | the remainder is smaller in magnitude than the divisor and, when nonzero, has the dividend's sign |
| `TruncDiv.TDivTRem` | elfio/elf_integer.hpp:78-89 | `(a / b) * b + a % b == a` |
| `TruncDiv.QuotientMagnitude` | elfio/elf_integer.hpp:78 | a quotient is no larger than its dividend, and at most half of it when the divisor's magnitude is at least 2 |
| `ElfInteger.FloorDivThreshold` | elfio/elf_integer.hpp:58-64 | for n >= 0 and d > 0: `a > n / d` exactly when `a * d > n` |
| `ElfInteger.Plus` | elfio/elf_integer.hpp:124-128 | `a + b` is the exact sum clamped to T |
| `ElfInteger.PlusGuardsExact` | elfio/elf_integer.hpp:34-37 | both thresholds of `+=` are values of T; each check holds exactly when the sum passes that bound; no other overflow can happen |
| `ElfInteger.Minus` | elfio/elf_integer.hpp:130-134 | `a - b` is the exact difference clamped to T |
| `ElfInteger.MinusGuardsExact` | elfio/elf_integer.hpp:45-48 | both thresholds of `-=` are values of T; each check holds exactly when the difference passes that bound; no other overflow can happen |
| `ElfInteger.PlusNotAssociative` | elfio/elf_integer.hpp:124-128 | for 8 bits, (100 + 100) + -100 == 27 but 100 + (100 + -100) == 100 |
| `ElfInteger.MulGuardsExact` | elfio/elf_integer.hpp:58-65 | each of the four sign-case division checks of `*=` holds exactly when the product passes the bound that its branch saturates to |
| `ElfInteger.TimesAsWritten` | elfio/elf_integer.hpp:56-68 | the check chain of `*=` as written gives 0 when either operand is 0, and the exact product clamped to T otherwise |
| `ElfInteger.MulGuardOverflow` | elfio/elf_integer.hpp:60 | every threshold that `*=` divides out fits the type C++ computes it in, except when T is 32 or 64 bits, the value is positive and the operand is -1 |
| `ElfInteger.MulGuardOverflowExample` | elfio/elf_integer.hpp:60 | for 32 bits, `1 *= -1` computes `INT32_MIN / -1 == INT32_MAX + 1`; the result it would produce is still -1 |
| `ElfInteger.Times` | elfio/elf_integer.hpp:136-140 | `a * b` is 0 when either operand is 0 and the exact product clamped to T otherwise; it agrees with the chain as written on every input, and every threshold it divides out is a value of T |
| `ElfInteger.TimesQuotientsFit` | elfio/elf_integer.hpp:58-64 | the thresholds `max/b`, `min/a` (a > 0), `min/b` (b > 0) and `max/b` (b < 0) are values of T |
| `ElfInteger.QuotientInRange` | elfio/elf_integer.hpp:75-78 | a truncating quotient of values of T is a value of T exactly when it is not `min(T) / -1` |
| `ElfInteger.Quot` | elfio/elf_integer.hpp:142-146 | `a / 0` is `max(T)`; otherwise `a / b` is the truncating quotient clamped to T, so `min(T) / -1` is `max(T)` |
| `ElfInteger.Mod` | elfio/elf_integer.hpp:148-152 | `a % 0` is `max(T)`; otherwise `a % b` is the exact truncating remainder (0 for `min(T) % -1`), with the dividend's sign and a magnitude below the divisor's |
| `ElfInteger.QuotModRecompose` | elfio/elf_integer.hpp:72-92 | wherever `/` does not saturate, `(a / b) * b + a % b == a` |
| `ElfInteger.Succ` | elfio/elf_integer.hpp:94-99 | `++` leaves `a + 1` clamped to T, which is `a + 1` below `max(T)` and is what `a += 1` leaves |
| `ElfInteger.Pred` | elfio/elf_integer.hpp:109-114 | `--` leaves `a - 1` clamped to T, which is `a - 1` above `min(T)` and is what `a -= 1` leaves |
| `ElfInteger.SuccPredInverse` | elfio/elf_integer.hpp:94-122 | `--` undoes `++` below `max(T)` and `++` undoes `--` above `min(T)`; at its bound each changes nothing |
| `ElfInteger.Negate` | elfio/elf_integer.hpp:154-160 | unary `-` gives `-a`, except at `min(T)`, where it gives `min(T)` and not the saturated `max(T)` |
| `ElfInteger.NegateInvolutive` | elfio/elf_integer.hpp:154-160 | `-(-a) == a` for every value of T, `min(T)` included |
| `ElfInteger.EightBitExamples` | elfio/elf_integer.hpp:33-160 | for 8 bits: 100+100 is 127, -100+-100 is -128, 100*100 is 127, -100*100 is -128, x/0 and -128/-1 are 127, -128%-1 is 0, -7%2 is -1, -7/2 is -3, -(-128) is -128, ++127 is 127 and --(-128) is -128 |
| `ElfInteger.ElfInt.constructor` | elfio/elf_integer.hpp:16 | constructing from a value of T stores it verbatim |
| `ElfInteger.ElfInt.Converting` | elfio/elf_integer.hpp:25-31 | cross-width construction stores the source narrowed into T; both bound checks are unreachable (`assert false` in each); the source is kept when it fits |
| `ElfInteger.ElfInt.Clamping` | elfio/elf_integer.hpp:25-31 | the conversion the bound checks aim at: compares before narrowing and stores the source clamped to T |
| `ElfInteger.ElfInt.AddAssign` | elfio/elf_integer.hpp:33-42 | `+=` keeps `value` in T and leaves exactly what `Plus` returns for the old value and operand |
| `ElfInteger.ElfInt.SubAssign` | elfio/elf_integer.hpp:44-53 | `-=` keeps `value` in T and leaves exactly what `Minus` returns |
| `ElfInteger.ElfInt.MulAssign` | elfio/elf_integer.hpp:55-70 | `*=` keeps `value` in T and leaves exactly what `Times` returns; see Findings for the threshold of line 60 |
| `ElfInteger.ElfInt.DivAssign` | elfio/elf_integer.hpp:72-81 | `/=` keeps `value` in T and leaves exactly what `Quot` returns |
| `ElfInteger.ElfInt.RemAssign` | elfio/elf_integer.hpp:83-92 | `%=` keeps `value` in T and leaves exactly what `Mod` returns |
| `ElfInteger.ElfInt.PreInc` | elfio/elf_integer.hpp:94-99 | prefix `++` leaves `Succ` of the old value |
| `ElfInteger.ElfInt.PostInc` | elfio/elf_integer.hpp:101-107 | postfix `++` makes the same update and returns the old value |
| `ElfInteger.ElfInt.PreDec` | elfio/elf_integer.hpp:109-114 | prefix `--` leaves `Pred` of the old value |
| `ElfInteger.ElfInt.PostDec` | elfio/elf_integer.hpp:116-122 | postfix `--` makes the same update and returns the old value |
| `ElfInteger.ElfInt.Eq` | elfio/elf_integer.hpp:162 | `==` is reflexive, and holds exactly when neither `<` nor `>` does |
| `ElfInteger.ElfInt.Ne` | elfio/elf_integer.hpp:163 | `!=` is the negation of `==` |
| `ElfInteger.ElfInt.Lt` | elfio/elf_integer.hpp:164 | `<` is irreflexive |
| `ElfInteger.ElfInt.Gt` | elfio/elf_integer.hpp:165 | `a > b` is `b < a` |
| `ElfInteger.ElfInt.Le` | elfio/elf_integer.hpp:166 | `<=` is the negation of `>` |
| `ElfInteger.ElfInt.Ge` | elfio/elf_integer.hpp:167 | `>=` is the negation of `<` |
| `ElfInteger.LtIsStrictOrder` | elfio/elf_integer.hpp:164 | `<` is asymmetric and transitive |
| `ElfInteger.ComparisonsAreIntegerOrder` | elfio/elf_integer.hpp:162-167 | the six comparisons are the integer order on `value`: `!=` negates `==`, `>=` negates `<`, `<=` negates `>`, `>` is `<` reversed, and exactly one of `<`, `==`, `>` holds |

## Left out

- The default constructor (elfio/elf_integer.hpp:15) leaves `value` uninitialised, so it is not modelled.
- The defaulted copy and move constructors and assignments (elfio/elf_integer.hpp:18-22) are plain value copies, so they are not modelled separately.
- The compound operators and prefix `++`/`--` return a reference to `*this`. The methods return nothing, and the caller still holds the object.
- The `const` operators are functions over integers. They take and return the values of `elf_integer` objects rather than objects. They cannot change their operands.
- The comparisons take two operands of the same T, as the C++ operators do. C++ would first convert an operand of another width implicitly, through the converting constructor, which narrows. The model does not perform that conversion implicitly. Such a comparison is the converting constructor (`ElfInt.Converting`) followed by the same-width comparison.
- `static min()` and `static max()` return instances. The model has their values, `Width.Min()` and `Width.Max()`.
- Unsigned instantiations of `elf_integer<T>` are not modelled. Conversions from or to them are not modelled either. Only `int8_t`, `int16_t`, `int32_t` and `int64_t` are.
- C++ integer promotion appears only where it matters, in the overflow of the `*=` threshold (`Width.Promoted`). `int` is taken to be 32 bits wide.
- ElfInteger.ElfInt.MulAssign: uses the corrected threshold for the positive-times-negative case instead of the one at line 60. The value it leaves is the same, as proved by `Times` (`r == TimesAsWritten(w, a, b)`). The undefined division of the original is modelled by `MulGuardOverflow`.
- ElfInteger.ElfInt.Converting: follows the code, so it narrows, as C++20 and every mainstream compiler do. The bound checks at lines 26-29 show that clamping was meant: 32-bit 200 to 8 bits should give 127, but the code gives -56. The clamping conversion is `ElfInt.Clamping` (see Findings).

## Findings

| source | as written | input that shows it | evidently intended | confidence | as-written member | corrected member |
|---|---|---|---|---|---|---|
| elfio/elf_integer.hpp:25-31 | `other.value` is stored into the T-typed field first, and the field is then compared with T's bounds. A value of T never exceeds them, so the checks never fire and the conversion wraps. | `elf_integer<int32_t>(200)` converted to `elf_integer<int8_t>` gives -56 | clamp to T: 127 | high; not executed | `Widths.NarrowingIsNotClamping` | `ElfInteger.ElfInt.Clamping` |
| elfio/elf_integer.hpp:60 | When the value is positive and the operand negative, the check divides `min(T)` by the operand. For an operand of -1 that quotient is `max(T) + 1`. When T is `int32_t` or `int64_t` nothing is promoted, so the check itself overflows, which is undefined behaviour and usually a division trap. | `elf_integer<int32_t>(1) *= elf_integer<int32_t>(-1)` evaluates `INT32_MIN / -1` | an overflow test that cannot overflow, e.g. `other.value < min(T) / value`, giving -1 | high; not executed | `ElfInteger.MulGuardOverflow` | `ElfInteger.Times` |

/**
 * The accumulator factories: `joinOn(separator)` for strings, and `sum()` /
 * `product()` for the integral `Number` classes, each computing in the width of
 * the accumulated value's class with Java's two's-complement wrap-around.
 */
module Accumulators {
  import opened JavaLang

  // ---------------------------------------------------------------------------
  // Two's-complement arithmetic
  // ---------------------------------------------------------------------------

  /** The bit widths of `byte`, `short`, `int` and `long`. */
  datatype Width = W8 | W16 | W32 | W64

  function Modulus(w: Width): (m: int)
    ensures m >= 256 && m % 2 == 0
  {
    match w
    case W8 => 0x100
    case W16 => 0x1_0000
    case W32 => 0x1_0000_0000
    case W64 => 0x1_0000_0000_0000_0000
  }

  /** `x` and `y` leave the same remainder modulo `m`. */
  ghost predicate Congruent(x: int, y: int, m: int)
    requires m > 0
  {
    (x - y) % m == 0
  }

  /** A positive multiple of `m` is at least `m`. */
  lemma MulAtLeast(m: int, d: int)
    requires m > 0 && d >= 1
    ensures m * d >= m
    decreases d
  {
    if d > 1 {
      MulAtLeast(m, d - 1);
      assert m * d == m * (d - 1) + m;
    }
  }

  /** Euclidean division is unique: a quotient and remainder in range are the ones `/` and `%` give. */
  lemma DivModUnique(a: int, m: int, q: int, r: int)
    requires m > 0 && 0 <= r < m && a == m * q + r
    ensures a % m == r && a / m == q
  {
    var q0, r0 := a / m, a % m;
    assert a == m * q0 + r0;
    var d := q - q0;
    assert m * q - m * q0 == m * d;
    if d >= 1 {
      MulAtLeast(m, d);
    } else if d <= -1 {
      MulAtLeast(m, -d);
    }
  }

  /** Multiples of `m` are congruent to zero modulo `m`. */
  lemma MultipleCongruent(x: int, y: int, m: int, k: int)
    requires m > 0 && x - y == m * k
    ensures Congruent(x, y, m)
  {
    DivModUnique(x - y, m, k, 0);
  }

  /** A congruence yields the multiple that witnesses it. */
  lemma CongruentMultiple(x: int, y: int, m: int) returns (k: int)
    requires m > 0 && Congruent(x, y, m)
    ensures x - y == m * k
  {
    k := (x - y) / m;
  }

  /** Half the modulus: the magnitude of the most negative value of the width. */
  function Half(w: Width): (h: int)
    ensures h >= 128 && Modulus(w) == 2 * h
  {
    match w
    case W8 => 0x80
    case W16 => 0x8000
    case W32 => 0x8000_0000
    case W64 => 0x8000_0000_0000_0000
  }

  /**
   * The narrowing primitive conversion to `w` bits: the value in
   * [-2^(w-1), 2^(w-1)) congruent to `x` modulo 2^w (see `NarrowIsCongruent`).
   */
  function Narrow(x: int, w: Width): (r: int)
    ensures -Half(w) <= r < Half(w)
  {
    match w
    case W8 => (x + 0x80) % 0x100 - 0x80
    case W16 => (x + 0x8000) % 0x1_0000 - 0x8000
    case W32 => (x + 0x8000_0000) % 0x1_0000_0000 - 0x8000_0000
    case W64 => (x + 0x8000_0000_0000_0000) % 0x1_0000_0000_0000_0000 - 0x8000_0000_0000_0000
  }

  /** Narrowing keeps the remainder modulo 2^w. */
  lemma NarrowIsCongruent(x: int, w: Width)
    ensures Congruent(x, Narrow(x, w), Modulus(w))
    ensures Congruent(Narrow(x, w), x, Modulus(w))
  {
    var m, h := Modulus(w), Half(w);
    MultipleCongruent(x, Narrow(x, w), m, (x + h) / m);
    MultipleCongruent(Narrow(x, w), x, m, -((x + h) / m));
  }

  /** Narrowing depends only on the remainder modulo 2^w. */
  lemma NarrowCongruent(x: int, y: int, w: Width)
    requires Congruent(x, y, Modulus(w))
    ensures Narrow(x, w) == Narrow(y, w)
  {
    var m, h := Modulus(w), Half(w);
    var k := CongruentMultiple(x, y, m);
    DivModUnique(x + h, m, (y + h) / m + k, (y + h) % m);
  }

  /** A value already in range is left unchanged by narrowing. */
  lemma NarrowInRange(x: int, w: Width)
    requires -Half(w) <= x < Half(w)
    ensures Narrow(x, w) == x
  {
    DivModUnique(x + Half(w), Modulus(w), 0, x + Half(w));
  }

  /** Narrowing is exact on the values of the width. */
  lemma NarrowFits(x: int, w: Width)
    ensures -Half(w) <= x < Half(w) ==> Narrow(x, w) == x
  {
    if -Half(w) <= x < Half(w) {
      NarrowInRange(x, w);
    }
  }

  /** Addition respects congruence. */
  lemma AddCongruent(x: int, x': int, y: int, y': int, m: int)
    requires m > 0 && Congruent(x, x', m) && Congruent(y, y', m)
    ensures Congruent(x + y, x' + y', m)
  {
    var k := CongruentMultiple(x, x', m);
    var l := CongruentMultiple(y, y', m);
    MultipleCongruent(x + y, x' + y', m, k + l);
  }

  /** Multiplication respects congruence. */
  lemma MulCongruent(x: int, x': int, y: int, y': int, m: int)
    requires m > 0 && Congruent(x, x', m) && Congruent(y, y', m)
    ensures Congruent(x * y, x' * y', m)
  {
    var k := CongruentMultiple(x, x', m);
    var l := CongruentMultiple(y, y', m);
    assert x == x' + m * k && y == y' + m * l;
    assert x * y - x' * y' == m * (k * y' + l * x' + m * k * l);
    MultipleCongruent(x * y, x' * y', m, k * y' + l * x' + m * k * l);
  }

  /** Narrowing the operands of a sum first gives the same narrowed result. */
  lemma NarrowAddOperands(x: int, y: int, w: Width)
    ensures Narrow(Narrow(x, w) + Narrow(y, w), w) == Narrow(x + y, w)
  {
    var m := Modulus(w);
    NarrowIsCongruent(x, w);
    NarrowIsCongruent(y, w);
    AddCongruent(x, Narrow(x, w), y, Narrow(y, w), m);
    NarrowCongruent(x + y, Narrow(x, w) + Narrow(y, w), w);
  }

  /** Narrowing the operands of a product first gives the same narrowed result. */
  lemma NarrowMulOperands(x: int, y: int, w: Width)
    ensures Narrow(Narrow(x, w) * Narrow(y, w), w) == Narrow(x * y, w)
  {
    var m := Modulus(w);
    NarrowIsCongruent(x, w);
    NarrowIsCongruent(y, w);
    MulCongruent(x, Narrow(x, w), y, Narrow(y, w), m);
    NarrowCongruent(x * y, Narrow(x, w) * Narrow(y, w), w);
  }

  /** Wrapping an intermediate sum does not change the wrapped total. */
  lemma NarrowInnerSum(x: int, y: int, w: Width)
    ensures Narrow(Narrow(x, w) + y, w) == Narrow(x + y, w)
  {
    NarrowIsCongruent(x, w);
    AddCongruent(Narrow(x, w), x, y, y, Modulus(w));
    NarrowCongruent(Narrow(x, w) + y, x + y, w);
  }

  /** Wrapping an intermediate product does not change the wrapped total. */
  lemma NarrowInnerProduct(x: int, y: int, w: Width)
    ensures Narrow(Narrow(x, w) * y, w) == Narrow(x * y, w)
  {
    NarrowIsCongruent(x, w);
    MulCongruent(Narrow(x, w), x, y, y, Modulus(w));
    NarrowCongruent(Narrow(x, w) * y, x * y, w);
  }

  /** Regrouping a wrapped sum of three terms does not change it. */
  lemma NarrowSumRegroups(x: int, y: int, z: int, w: Width)
    ensures Narrow(Narrow(x + y, w) + z, w) == Narrow(x + Narrow(y + z, w), w)
  {
    NarrowInnerSum(x + y, z, w);
    NarrowInnerSum(y + z, x, w);
  }

  /** Regrouping a wrapped product of three factors does not change it. */
  lemma NarrowProductRegroups(x: int, y: int, z: int, w: Width)
    ensures Narrow(Narrow(x * y, w) * z, w) == Narrow(x * Narrow(y * z, w), w)
  {
    var v := Narrow(y * z, w);
    NarrowInnerProduct(x * y, z, w);
    NarrowInnerProduct(y * z, x, w);
    assert (y * z) * x == (x * y) * z;
    assert x * v == v * x;
  }

  // ---------------------------------------------------------------------------
  // Numbers
  // ---------------------------------------------------------------------------

  type Int8 = x: int | -0x80 <= x < 0x80
  type Int16 = x: int | -0x8000 <= x < 0x8000
  type Int32 = x: int | -0x8000_0000 <= x < 0x8000_0000
  type Int64 = x: int | -0x8000_0000_0000_0000 <= x < 0x8000_0000_0000_0000

  /**
   * A boxed integral `Number`, by runtime class. `OtherIntegral` stands for every
   * other integral subtype (for example `BigInteger` or `AtomicLong`), whose
   * `byteValue()` and friends narrow its value like the primitive casts.
   */
  datatype Number =
    | Byte(b: Int8)
    | Short(s: Int16)
    | Integer(i: Int32)
    | Long(l: Int64)
    | OtherIntegral(v: int)

  function NumberValue(n: Number): int
  {
    match n
    case Byte(b) => b
    case Short(s) => s
    case Integer(i) => i
    case Long(l) => l
    case OtherIntegral(v) => v
  }

  /** The width of the class the `isAssignableFrom` chain selects; `OtherIntegral` has none. */
  function WidthOf(n: Number): Width
    requires !n.OtherIntegral?
  {
    match n
    case Byte(_) => W8
    case Short(_) => W16
    case Integer(_) => W32
    case Long(_) => W64
  }

  predicate SameClass(a: Number, b: Number)
  {
    match (a, b)
    case (Byte(_), Byte(_)) => true
    case (Short(_), Short(_)) => true
    case (Integer(_), Integer(_)) => true
    case (Long(_), Long(_)) => true
    case (OtherIntegral(_), OtherIntegral(_)) => true
    case _ => false
  }

  /**
   * `byteValue()`, `shortValue()`, `intValue()`, `longValue()`: the value wrapped
   * to the width (congruent modulo 2^w), and unchanged when it already fits.
   */
  function ByteValue(n: Number): (r: Int8)
    ensures Congruent(r, NumberValue(n), 0x100)
    ensures -0x80 <= NumberValue(n) < 0x80 ==> r == NumberValue(n)
  {
    NarrowIsCongruent(NumberValue(n), W8);
    NarrowFits(NumberValue(n), W8);
    Narrow(NumberValue(n), W8)
  }

  function ShortValue(n: Number): (r: Int16)
    ensures Congruent(r, NumberValue(n), 0x1_0000)
    ensures -0x8000 <= NumberValue(n) < 0x8000 ==> r == NumberValue(n)
  {
    NarrowIsCongruent(NumberValue(n), W16);
    NarrowFits(NumberValue(n), W16);
    Narrow(NumberValue(n), W16)
  }

  function IntValue(n: Number): (r: Int32)
    ensures Congruent(r, NumberValue(n), 0x1_0000_0000)
    ensures -0x8000_0000 <= NumberValue(n) < 0x8000_0000 ==> r == NumberValue(n)
  {
    NarrowIsCongruent(NumberValue(n), W32);
    NarrowFits(NumberValue(n), W32);
    Narrow(NumberValue(n), W32)
  }

  function LongValue(n: Number): (r: Int64)
    ensures Congruent(r, NumberValue(n), 0x1_0000_0000_0000_0000)
    ensures -0x8000_0000_0000_0000 <= NumberValue(n) < 0x8000_0000_0000_0000 ==> r == NumberValue(n)
  {
    NarrowIsCongruent(NumberValue(n), W64);
    NarrowFits(NumberValue(n), W64);
    Narrow(NumberValue(n), W64)
  }

  /**
   * Java's `int` and `long` `+` and `*`: the exact result wrapped to the width,
   * and the exact result itself when it does not overflow.
   */
  function IntAdd(a: Int32, b: Int32): (r: Int32)
    ensures Congruent(r, a + b, 0x1_0000_0000)
    ensures -0x8000_0000 <= a + b < 0x8000_0000 ==> r == a + b
  {
    NarrowIsCongruent(a + b, W32);
    NarrowFits(a + b, W32);
    Narrow(a + b, W32)
  }

  function IntMul(a: Int32, b: Int32): (r: Int32)
    ensures Congruent(r, a * b, 0x1_0000_0000)
    ensures -0x8000_0000 <= a * b < 0x8000_0000 ==> r == a * b
  {
    NarrowIsCongruent(a * b, W32);
    NarrowFits(a * b, W32);
    Narrow(a * b, W32)
  }

  function LongAdd(a: Int64, b: Int64): (r: Int64)
    ensures Congruent(r, a + b, 0x1_0000_0000_0000_0000)
    ensures -0x8000_0000_0000_0000 <= a + b < 0x8000_0000_0000_0000 ==> r == a + b
  {
    NarrowIsCongruent(a + b, W64);
    NarrowFits(a + b, W64);
    Narrow(a + b, W64)
  }

  function LongMul(a: Int64, b: Int64): (r: Int64)
    ensures Congruent(r, a * b, 0x1_0000_0000_0000_0000)
    ensures -0x8000_0000_0000_0000 <= a * b < 0x8000_0000_0000_0000 ==> r == a * b
  {
    NarrowIsCongruent(a * b, W64);
    NarrowFits(a * b, W64);
    Narrow(a * b, W64)
  }

  /** The number of `like`'s class whose value is `v` wrapped to that class's width. */
  function Wrapped(like: Number, v: int): (r: Number)
    requires !like.OtherIntegral?
    ensures SameClass(r, like) && !r.OtherIntegral?
    ensures NumberValue(r) == Narrow(v, WidthOf(like))
  {
    match like
    case Byte(_) => Byte(Narrow(v, W8))
    case Short(_) => Short(Narrow(v, W16))
    case Integer(_) => Integer(Narrow(v, W32))
    case Long(_) => Long(Narrow(v, W64))
  }

  /** Wrapping values that agree modulo the width gives one number. */
  lemma WrappedCongruent(a: Number, b: Number, u: int, v: int)
    requires !a.OtherIntegral? && SameClass(a, b)
    requires Narrow(u, WidthOf(a)) == Narrow(v, WidthOf(a))
    ensures !b.OtherIntegral? && Wrapped(a, u) == Wrapped(b, v)
  {
  }

  /**
   * The `byte` branch of `sum`: add the byte values in `int`, then cast to `byte`.
   * The `int` sum of two bytes (or two shorts) cannot overflow, so the cast is the only wrap.
   */
  function ByteSum(accumulate: Number, source: Number): (r: Int8)
    ensures r == Narrow(NumberValue(accumulate) + NumberValue(source), W8)
  {
    NarrowAddOperands(NumberValue(accumulate), NumberValue(source), W8);
    Narrow(ByteValue(accumulate) + ByteValue(source), W8)
  }

  /** The `short` branch of `sum`. */
  function ShortSum(accumulate: Number, source: Number): (r: Int16)
    ensures r == Narrow(NumberValue(accumulate) + NumberValue(source), W16)
  {
    NarrowAddOperands(NumberValue(accumulate), NumberValue(source), W16);
    Narrow(ShortValue(accumulate) + ShortValue(source), W16)
  }

  /** The `int` branch of `sum`. */
  function IntegerSum(accumulate: Number, source: Number): (r: Int32)
    ensures r == Narrow(NumberValue(accumulate) + NumberValue(source), W32)
  {
    NarrowAddOperands(NumberValue(accumulate), NumberValue(source), W32);
    IntAdd(IntValue(accumulate), IntValue(source))
  }

  /** The `long` branch of `sum`. */
  function LongSum(accumulate: Number, source: Number): (r: Int64)
    ensures r == Narrow(NumberValue(accumulate) + NumberValue(source), W64)
  {
    NarrowAddOperands(NumberValue(accumulate), NumberValue(source), W64);
    LongAdd(LongValue(accumulate), LongValue(source))
  }

  /**
   * The `byte` branch of `product`: multiply the byte values in `int`, then cast to `byte`.
   * The `int` product of two bytes (or two shorts) cannot overflow.
   */
  function ByteProduct(accumulate: Number, source: Number): (r: Int8)
    ensures r == Narrow(NumberValue(accumulate) * NumberValue(source), W8)
  {
    NarrowMulOperands(NumberValue(accumulate), NumberValue(source), W8);
    Narrow(ByteValue(accumulate) * ByteValue(source), W8)
  }

  /** The `short` branch of `product`. */
  function ShortProduct(accumulate: Number, source: Number): (r: Int16)
    ensures r == Narrow(NumberValue(accumulate) * NumberValue(source), W16)
  {
    NarrowMulOperands(NumberValue(accumulate), NumberValue(source), W16);
    Narrow(ShortValue(accumulate) * ShortValue(source), W16)
  }

  /** The `int` branch of `product`. */
  function IntegerProduct(accumulate: Number, source: Number): (r: Int32)
    ensures r == Narrow(NumberValue(accumulate) * NumberValue(source), W32)
  {
    NarrowMulOperands(NumberValue(accumulate), NumberValue(source), W32);
    IntMul(IntValue(accumulate), IntValue(source))
  }

  /** The `long` branch of `product`. */
  function LongProduct(accumulate: Number, source: Number): (r: Int64)
    ensures r == Narrow(NumberValue(accumulate) * NumberValue(source), W64)
  {
    NarrowMulOperands(NumberValue(accumulate), NumberValue(source), W64);
    LongMul(LongValue(accumulate), LongValue(source))
  }

  /**
   * `sum().accumulate(accumulate, source)`: the branch is chosen by the class of
   * `accumulate` and `source` is narrowed to that class; any other class throws.
   * The result is the exact sum wrapped to the accumulated class's width.
   */
  function Sum(accumulate: Number, source: Number): (r: Result<Number>)
    ensures r.Ok? <==> !accumulate.OtherIntegral?
    ensures r.Throws? ==> r.exception == UnsupportedOperation
    ensures r.Ok? ==> r.value == Wrapped(accumulate, NumberValue(accumulate) + NumberValue(source))
  {
    match accumulate
    case Byte(_) => Ok(Byte(ByteSum(accumulate, source)))
    case Integer(_) => Ok(Integer(IntegerSum(accumulate, source)))
    case Long(_) => Ok(Long(LongSum(accumulate, source)))
    case Short(_) => Ok(Short(ShortSum(accumulate, source)))
    case OtherIntegral(_) => Throws(UnsupportedOperation)
  }

  /**
   * `product().accumulate(accumulate, source)`: the same dispatch with `*`.
   * The result is the exact product wrapped to the accumulated class's width.
   */
  function Product(accumulate: Number, source: Number): (r: Result<Number>)
    ensures r.Ok? <==> !accumulate.OtherIntegral?
    ensures r.Throws? ==> r.exception == UnsupportedOperation
    ensures r.Ok? ==> r.value == Wrapped(accumulate, NumberValue(accumulate) * NumberValue(source))
  {
    match accumulate
    case Byte(_) => Ok(Byte(ByteProduct(accumulate, source)))
    case Integer(_) => Ok(Integer(IntegerProduct(accumulate, source)))
    case Long(_) => Ok(Long(LongProduct(accumulate, source)))
    case Short(_) => Ok(Short(ShortProduct(accumulate, source)))
    case OtherIntegral(_) => Throws(UnsupportedOperation)
  }

  /** Numbers of one class have one width. */
  lemma SameClassWidth(a: Number, b: Number)
    requires !a.OtherIntegral? && SameClass(a, b)
    ensures !b.OtherIntegral? && WidthOf(a) == WidthOf(b)
  {
  }

  /** Within one class, `sum` is commutative. */
  lemma SumCommutative(a: Number, b: Number)
    requires !a.OtherIntegral? && SameClass(a, b)
    ensures Sum(a, b) == Sum(b, a)
  {
    WrappedCongruent(a, b, NumberValue(a) + NumberValue(b), NumberValue(b) + NumberValue(a));
  }

  /** Wrapped addition regroups: the value-level core of `SumAssociative`. */
  lemma WrappedSumRegroups(a: Number, b: Number, x: int, y: int, z: int)
    requires !a.OtherIntegral? && SameClass(a, b)
    ensures !b.OtherIntegral? && !Wrapped(a, x + y).OtherIntegral?
    ensures Wrapped(Wrapped(a, x + y), NumberValue(Wrapped(a, x + y)) + z)
         == Wrapped(a, x + NumberValue(Wrapped(b, y + z)))
  {
    var ab, bc := Wrapped(a, x + y), Wrapped(b, y + z);
    SameClassWidth(a, ab);
    SameClassWidth(a, b);
    NarrowSumRegroups(x, y, z, WidthOf(a));
    WrappedCongruent(ab, a, NumberValue(ab) + z, x + NumberValue(bc));
  }


  /**
   * Within one class, `sum` is associative whatever wraps around on the way:
   * with `ab` and `bc` the partial results, `(a + b) + c` equals `a + (b + c)`.
   */
  lemma SumAssociative(a: Number, b: Number, c: Number, ab: Number, bc: Number)
    requires !a.OtherIntegral? && SameClass(a, b) && SameClass(b, c)
    requires Sum(a, b) == Ok(ab) && Sum(b, c) == Ok(bc)
    ensures Sum(ab, c).Ok? && Sum(ab, c) == Sum(a, bc)
  {
    var x, y, z := NumberValue(a), NumberValue(b), NumberValue(c);
    assert ab == Wrapped(a, x + y) && bc == Wrapped(b, y + z);
    SameClassWidth(a, ab);
    WrappedSumRegroups(a, b, x, y, z);
    assert Sum(ab, c) == Ok(Wrapped(ab, NumberValue(ab) + z));
  }



  /** Within one class, `product` is commutative. */
  lemma ProductCommutative(a: Number, b: Number)
    requires !a.OtherIntegral? && SameClass(a, b)
    ensures Product(a, b) == Product(b, a)
  {
    var x, y := NumberValue(a), NumberValue(b);
    assert x * y == y * x;
    WrappedCongruent(a, b, x * y, y * x);
  }

  /** Wrapped multiplication regroups: the value-level core of `ProductAssociative`. */
  lemma WrappedProductRegroups(a: Number, b: Number, x: int, y: int, z: int)
    requires !a.OtherIntegral? && SameClass(a, b)
    ensures !b.OtherIntegral? && !Wrapped(a, x * y).OtherIntegral?
    ensures Wrapped(Wrapped(a, x * y), NumberValue(Wrapped(a, x * y)) * z)
         == Wrapped(a, x * NumberValue(Wrapped(b, y * z)))
  {
    var ab, bc := Wrapped(a, x * y), Wrapped(b, y * z);
    SameClassWidth(a, ab);
    SameClassWidth(a, b);
    NarrowProductRegroups(x, y, z, WidthOf(a));
    WrappedCongruent(ab, a, NumberValue(ab) * z, x * NumberValue(bc));
  }


  /**
   * Within one class, `product` is associative whatever wraps around on the way:
   * with `ab` and `bc` the partial results, `(a * b) * c` equals `a * (b * c)`.
   */
  lemma ProductAssociative(a: Number, b: Number, c: Number, ab: Number, bc: Number)
    requires !a.OtherIntegral? && SameClass(a, b) && SameClass(b, c)
    requires Product(a, b) == Ok(ab) && Product(b, c) == Ok(bc)
    ensures Product(ab, c).Ok? && Product(ab, c) == Product(a, bc)
  {
    var x, y, z := NumberValue(a), NumberValue(b), NumberValue(c);
    assert ab == Wrapped(a, x * y) && bc == Wrapped(b, y * z);
    SameClassWidth(a, ab);
    WrappedProductRegroups(a, b, x, y, z);
    assert Product(ab, c) == Ok(Wrapped(ab, NumberValue(ab) * z));
  }



  /** Examples: Integer `1 + 1` is 2, a byte sum wraps past 127, and a short product of 256 and 256 wraps to 0. */
  lemma SumExamples()
    ensures Sum(Integer(1), Integer(1)) == Ok(Integer(2))
    ensures Sum(Byte(127), Byte(1)) == Ok(Byte(-128))
    ensures Product(Short(256), Short(256)) == Ok(Short(0))
  {
    NarrowInRange(2, W32);
    NarrowInRange(-128, W8);
    NarrowInRange(128, W32);
    NarrowInRange(65536, W32);
    assert Narrow(65536, W16) == 0 by {
      DivModUnique(65536 + 32768, 65536, 1, 32768);
    }
    assert Narrow(128, W8) == -128 by {
      DivModUnique(128 + 128, 256, 1, 0);
    }
  }

  // ---------------------------------------------------------------------------
  // joinOn
  // ---------------------------------------------------------------------------

  /** The separator `joinOn` uses: ", " for a null or empty argument, the argument otherwise. */
  function JoinSeparator(separator: Ref<string>): (r: string)
    ensures |r| > 0
    ensures separator == Null || separator == NonNull("") ==> r == ", "
    ensures separator != Null && separator != NonNull("") ==> r == separator.value
  {
    if separator.Null? || |separator.value| == 0 then ", " else separator.value
  }

  /** `joinOn(separator).accumulate(accumulate, source)`: Java string concatenation around the separator. */
  function JoinOn(separator: Ref<string>): (acc: (Ref<string>, Ref<string>) -> string)
    ensures forall a, s :: acc(a, s) == ToJavaString(a) + JoinSeparator(separator) + ToJavaString(s)
  {
    var sep := JoinSeparator(separator);
    (a: Ref<string>, s: Ref<string>) => ToJavaString(a) + sep + ToJavaString(s)
  }

  /**
   * A joined pair begins with the first string and ends with the second, and the
   * two never touch, since the separator is never empty.
   */
  lemma JoinOnKeepsBoth(separator: Ref<string>, a: Ref<string>, s: Ref<string>)
    ensures ToJavaString(a) < JoinOn(separator)(a, s)
    ensures |JoinOn(separator)(a, s)| > |ToJavaString(a)| + |ToJavaString(s)|
    ensures JoinOn(separator)(a, s)[|ToJavaString(a)| + |JoinSeparator(separator)|..] == ToJavaString(s)
  {
    var l, m, t := ToJavaString(a), JoinSeparator(separator), ToJavaString(s);
    assert JoinOn(separator)(a, s) == l + m + t;
    assert (l + m + t)[|l| + |m|..] == t;
  }

  /** How a consumer applies an accumulator: left to right, starting from `seed`. */
  function FoldStrings(acc: (Ref<string>, Ref<string>) -> string, seed: string, parts: seq<string>): string
    decreases |parts|
  {
    if |parts| == 0 then seed else FoldStrings(acc, acc(NonNull(seed), NonNull(parts[0])), parts[1..])
  }

  /** The reference: the parts, in order, with `sep` between neighbours. */
  function Interleave(sep: string, parts: seq<string>): string
    requires |parts| > 0
  {
    if |parts| == 1 then parts[0] else parts[0] + sep + Interleave(sep, parts[1..])
  }

  /** Folding `joinOn` from a seed appends the separator and each part in turn. */
  lemma {:induction false} FoldJoinOnFrom(separator: Ref<string>, seed: string, parts: seq<string>)
    requires |parts| > 0
    decreases |parts|
    ensures FoldStrings(JoinOn(separator), seed, parts) == seed + JoinSeparator(separator) + Interleave(JoinSeparator(separator), parts)
  {
    var acc, sep := JoinOn(separator), JoinSeparator(separator);
    var next := acc(NonNull(seed), NonNull(parts[0]));
    assert next == seed + sep + parts[0];
    if |parts| > 1 {
      FoldJoinOnFrom(separator, next, parts[1..]);
    }
  }

  /** Aggregating strings with `joinOn(separator)` joins them with the separator. */
  lemma FoldJoinOn(separator: Ref<string>, parts: seq<string>)
    requires |parts| > 0
    ensures FoldStrings(JoinOn(separator), parts[0], parts[1..]) == Interleave(JoinSeparator(separator), parts)
  {
    if |parts| > 1 {
      FoldJoinOnFrom(separator, parts[0], parts[1..]);
    }
  }
}

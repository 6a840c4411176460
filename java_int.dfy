/** Java's 32-bit `int`: its range and the wrap-around of its multiplication. */
module JavaInt {

  const MinInt: int := -0x8000_0000
  const MaxInt: int := 0x7FFF_FFFF
  const Modulus: int := 0x1_0000_0000

  predicate InInt32(x: int) {
    MinInt <= x <= MaxInt
  }

  /** The values a Java `int` can hold. */
  type int32 = x: int | InInt32(x)

  /** The two's-complement reduction a Java `int` operation applies to its exact result.
      It leaves a value that fits unchanged; `Wrap32Congruent` states what it does to the rest. */
  function Wrap32(x: int): (r: int32)
    ensures InInt32(x) ==> r == x
    decreases if x > MaxInt then x - MaxInt else if x < MinInt then MinInt - x else 0
  {
    if x > MaxInt then Wrap32(x - Modulus)
    else if x < MinInt then Wrap32(x + Modulus)
    else x
  }

  /** The wrapped value is the unique 32-bit value congruent to `x` modulo 2^32. */
  lemma {:induction false} Wrap32Congruent(x: int, y: int32)
    ensures (x - Wrap32(x)) % Modulus == 0
    ensures (x - y) % Modulus == 0 ==> y == Wrap32(x)
    decreases if x > MaxInt then x - MaxInt else if x < MinInt then MinInt - x else 0
  {
    if x > MaxInt {
      Wrap32Congruent(x - Modulus, y);
    } else if x < MinInt {
      Wrap32Congruent(x + Modulus, y);
    } else if (x - y) % Modulus == 0 {
      var k := (x - y) / Modulus;
      assert x - y == Modulus * k;
      assert InInt32(y);
    }
  }

  /** Java's `a * b` on two `int` operands. */
  function Mul32(a: int32, b: int32): (r: int32)
    ensures InInt32((a as int) * (b as int)) ==> r == (a as int) * (b as int)
  {
    Wrap32((a as int) * (b as int))
  }

  /** Java's `a + b` on two `int` operands: the exact sum reduced modulo 2^32 into the `int` range. */
  function Add32(a: int32, b: int32): (r: int32)
    ensures InInt32((a as int) + (b as int)) ==> r == (a as int) + (b as int)
    ensures 0 <= a && 0 <= b && (a as int) + (b as int) > MaxInt ==> r < 0
  {
    var x := (a as int) + (b as int);
    var m := x % Modulus;
    assert InInt32(a) && InInt32(b);
    assert x == Modulus * (x / Modulus) + m;
    assert x > MaxInt ==> x / Modulus == 0;
    if m <= MaxInt then m else m - Modulus
  }

  /** `Add32` is the general reduction applied to the exact sum. */
  lemma {:induction false} Add32IsWrapped(a: int32, b: int32)
    ensures Add32(a, b) == Wrap32((a as int) + (b as int))
  {
    var x := (a as int) + (b as int);
    assert InInt32(a) && InInt32(b);
    if x > MaxInt {
      assert Wrap32(x - Modulus) == x - Modulus;
    } else if x < MinInt {
      assert Wrap32(x + Modulus) == x + Modulus;
    }
  }

  /** Operands in [0, 100] keep the product in [0, 10000], so the multiplication does not wrap. */
  lemma SmallProductExact(a: int32, b: int32)
    requires 0 <= a <= 100 && 0 <= b <= 100
    ensures Mul32(a, b) == (a as int) * (b as int)
    ensures 0 <= Mul32(a, b) <= 10000
  {
    ProductBound(a as int, b as int);
  }

  lemma ProductBound(x: int, y: int)
    requires 0 <= x <= 100 && 0 <= y <= 100
    ensures 0 <= x * y <= 10000
  {
    assert x * y <= 100 * y by {
      assert (100 - x) * y >= 0;
    }
  }
}

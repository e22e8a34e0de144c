/** Bit-level arithmetic on unbounded naturals: the C operators |, & ~ and the
    two's-complement readings the toolchain relies on. */
module Bits {

  const TWO16: nat := 0x1_0000
  const TWO32: nat := 0x1_0000_0000
  const TWO63: nat := 0x8000_0000_0000_0000
  const TWO64: nat := 0x1_0000_0000_0000_0000

  function Pow2(n: nat): (p: nat)
    ensures p >= 1
  {
    if n == 0 then 1 else 2 * Pow2(n - 1)
  }

  lemma MulMono(d: nat, a: int, b: int)
    requires a <= b
    ensures d * a <= d * b
  {
  }

  lemma MultipleIsFar(d: nat, t: int)
    requires d > 0 && t != 0
    ensures d * t >= d || d * t <= 0 - d
  {
    if t > 0 { MulMono(d, 1, t); } else { MulMono(d, t, -1); }
  }

  /** Quotient and remainder of a number written as q * d + r. */
  lemma DivMod(q: int, r: nat, d: nat)
    requires r < d
    ensures (q * d + r) / d == q && (q * d + r) % d == r
  {
    var x := q * d + r;
    ghost var q', r' := x / d, x % d;
    assert x == d * q' + r';
    assert d * (q' - q) == d * q' - d * q;
    if q' != q { MultipleIsFar(d, q' - q); }
  }

  /** A remainder by k * d splits into a digit and a remainder by d. */
  lemma ModParts(v: int, k: nat, d: nat)
    requires k > 0 && d > 0
    ensures k * d > 0 && v % (k * d) == v / d % k * d + v % d
  {
    var q, t := v / d, v / d % k;
    DigitBound(t, v % d, k, d);
    assert v == q / k * (k * d) + (t * d + v % d) by {
      Regroup(q / k, k, d, t);
      assert q == q / k * k + t && v == q * d + v % d;
    }
    DivMod(q / k, t * d + v % d, k * d);
  }

  lemma DigitBound(t: nat, r: nat, k: nat, d: nat)
    requires t < k && r < d
    ensures t * d + r < k * d
  {
    MulMono(d, t, k - 1);
  }

  lemma Regroup(a: int, k: int, d: int, t: int)
    ensures (a * k + t) * d == a * (k * d) + t * d
  {
    assert (a * k) * d == a * (k * d);
  }

  /** Two's-complement reduction to 64 bits. */
  function Wrap(x: int): (r: nat)
    ensures r < TWO64
  {
    x % TWO64
  }

  lemma WrapAdd(x: int, y: int)
    ensures Wrap(Wrap(x) + y) == Wrap(x + y)
    ensures 0 <= x < TWO64 ==> Wrap(x) == x
  {
    var q := x / TWO64;
    assert x == q * TWO64 + Wrap(x);
    WrapMultiple(Wrap(x) + y, q);
  }

  lemma WrapMultiple(x: int, q: int)
    ensures Wrap(x + q * TWO64) == Wrap(x)
  {
  }

  /** The signed reading of a `bits`-wide field. */
  function SignExtend(v: nat, bits: nat): int
    requires bits >= 1
  {
    if v >= Pow2(bits - 1) then v - Pow2(bits) else v
  }

  /** Bitwise `a | b`. */
  function Or(a: nat, b: nat): nat
    decreases a
  {
    if a == 0 then b
    else 2 * Or(a / 2, b / 2) + (if a % 2 == 1 || b % 2 == 1 then 1 else 0)
  }

  /** Bitwise `a & ~b`. */
  function AndNot(a: nat, b: nat): nat
    decreases a
  {
    if a == 0 then 0
    else 2 * AndNot(a / 2, b / 2) + (if a % 2 == 1 && b % 2 == 0 then 1 else 0)
  }

  lemma {:induction false} OrZero(a: nat)
    ensures Or(a, 0) == a && Or(0, a) == a
  {
    if a > 0 { OrZero(a / 2); }
  }

  lemma {:induction false} OrSame(a: nat)
    ensures Or(a, a) == a
  {
    if a > 0 { OrSame(a / 2); }
  }

  lemma {:induction false} OrSwap(a: nat, b: nat)
    ensures Or(a, b) == Or(b, a)
  {
    if a == 0 {
      OrZero(b);
    } else if b == 0 {
      OrZero(a);
    } else {
      OrSwap(a / 2, b / 2);
    }
  }

  lemma {:induction false} OrBound(a: nat, b: nat, k: nat)
    requires a < Pow2(k) && b < Pow2(k)
    ensures Or(a, b) < Pow2(k)
  {
    if a > 0 { OrBound(a / 2, b / 2, k - 1); }
  }

  lemma {:induction false} AndNotBound(a: nat, b: nat)
    ensures AndNot(a, b) <= a
  {
    if a > 0 { AndNotBound(a / 2, b / 2); }
  }

  lemma ShiftIn(a: nat, b: nat, k: nat)
    requires k > 0
    ensures (a * Pow2(k) + b) / 2 == a * Pow2(k - 1) + b / 2
    ensures (a * Pow2(k) + b) % 2 == b % 2
  {
    var m := a * Pow2(k - 1);
    assert a * Pow2(k) == 2 * m;
  }

  lemma OrUnfold(x: nat, y: nat)
    ensures Or(x, y) == 2 * Or(x / 2, y / 2) + (if x % 2 == 1 || y % 2 == 1 then 1 else 0)
  {
  }

  /** An OR acts on a high and a low part independently. */
  lemma {:induction false} OrSplit(a: nat, b: nat, c: nat, d: nat, k: nat)
    requires b < Pow2(k) && d < Pow2(k)
    ensures Or(a * Pow2(k) + b, c * Pow2(k) + d) == Or(a, c) * Pow2(k) + Or(b, d)
  {
    if k == 0 {
      OrZero(0);
    } else {
      var x, y := a * Pow2(k) + b, c * Pow2(k) + d;
      ShiftIn(a, b, k);
      ShiftIn(c, d, k);
      OrUnfold(x, y);
      OrUnfold(b, d);
      assert Or(x / 2, y / 2) == Or(a, c) * Pow2(k - 1) + Or(b / 2, d / 2) by {
        OrSplit(a, b / 2, c, d / 2, k - 1);
      }
      ShiftIn(Or(a, c), 0, k);
    }
  }

  /** OR-ing a value into a field whose bits are zero adds it. */
  lemma OrField(hi: nat, lo: nat, k: nat)
    requires lo < Pow2(k)
    ensures Or(hi * Pow2(k), lo) == hi * Pow2(k) + lo
  {
    hide Or, Pow2;
    OrSplit(hi, 0, 0, lo, k);
    OrZero(hi);
    OrZero(lo);
  }

  lemma {:induction false} OrOnes(a: nat, k: nat)
    requires a < Pow2(k)
    ensures Or(a, Pow2(k) - 1) == Pow2(k) - 1
  {
    if a > 0 {
      OrUnfold(a, Pow2(k) - 1);
      OrOnes(a / 2, k - 1);
      hide Or;
      assert (Pow2(k) - 1) / 2 == Pow2(k - 1) - 1;
    }
  }

  /** Clearing from all ones complements. */
  lemma {:induction false} AndNotOnes(b: nat, k: nat)
    requires b < Pow2(k)
    ensures AndNot(Pow2(k) - 1, b) == Pow2(k) - 1 - b
  {
    if k > 0 {
      AndNotOnes(b / 2, k - 1);
      assert (Pow2(k) - 1) / 2 == Pow2(k - 1) - 1;
    }
  }

  // ------------------------------------------------------- bit by bit

  /** Bit k of x. */
  predicate Bit(x: nat, k: nat) { x / Pow2(k) % 2 == 1 }

  lemma BitHalf(x: nat, k: nat)
    requires k > 0
    ensures Bit(x, k) <==> Bit(x / 2, k - 1)
  {
    var d, q := Pow2(k - 1), x / 2;
    assert x == q / d * (2 * d) + (2 * (q % d) + x % 2) by {
      assert q == q / d * d + q % d;
      MulAssoc(q / d, d, 2);
    }
    DivMod(q / d, 2 * (q % d) + x % 2, 2 * d);
  }

  lemma BitLow(x: nat)
    ensures Bit(x, 0) <==> x % 2 == 1
  {
  }

  lemma {:induction false} BitZero(k: nat)
    ensures !Bit(0, k)
  {
  }

  lemma {:induction false} OrBit(a: nat, b: nat, k: nat)
    ensures Bit(Or(a, b), k) <==> Bit(a, k) || Bit(b, k)
    decreases k
  {
    hide Bit;
    OrUnfold(a, b);
    if k == 0 {
      BitLow(a);
      BitLow(b);
      BitLow(Or(a, b));
    } else {
      BitHalf(a, k);
      BitHalf(b, k);
      BitHalf(Or(a, b), k);
      OrBit(a / 2, b / 2, k - 1);
    }
  }

  lemma AndNotUnfold(x: nat, y: nat)
    ensures AndNot(x, y) == 2 * AndNot(x / 2, y / 2) + (if x % 2 == 1 && y % 2 == 0 then 1 else 0)
  {
  }

  lemma {:induction false} AndNotBit(a: nat, b: nat, k: nat)
    ensures Bit(AndNot(a, b), k) <==> Bit(a, k) && !Bit(b, k)
    decreases k
  {
    hide Bit;
    AndNotUnfold(a, b);
    if k == 0 {
      BitLow(a);
      BitLow(b);
      BitLow(AndNot(a, b));
    } else {
      BitHalf(a, k);
      BitHalf(b, k);
      BitHalf(AndNot(a, b), k);
      AndNotBit(a / 2, b / 2, k - 1);
    }
  }

  /** What clearing b's bits takes away from a is `a & b`. */
  lemma {:induction false} AndBit(a: nat, b: nat, k: nat)
    ensures AndNot(a, b) <= a && (Bit(a - AndNot(a, b), k) <==> Bit(a, k) && Bit(b, k))
    decreases k
  {
    hide Bit;
    AndNotBound(a, b);
    AndNotBound(a / 2, b / 2);
    AndNotUnfold(a, b);
    var x := a - AndNot(a, b);
    assert x == 2 * (a / 2 - AndNot(a / 2, b / 2)) + if a % 2 == 1 && b % 2 == 1 then 1 else 0;
    if k == 0 {
      BitLow(a);
      BitLow(b);
      BitLow(x);
    } else {
      BitHalf(a, k);
      BitHalf(b, k);
      BitHalf(x, k);
      AndBit(a / 2, b / 2, k - 1);
    }
  }

  lemma Pow2Values()
    ensures Pow2(1) == 2 && Pow2(2) == 4 && Pow2(4) == 16 && Pow2(6) == 64 && Pow2(8) == 256
    ensures Pow2(11) == 0x800 && Pow2(12) == 0x1000 && Pow2(16) == TWO16
    ensures Pow2(17) == 0x2_0000 && Pow2(18) == 0x4_0000 && Pow2(23) == 0x80_0000 && Pow2(24) == 0x100_0000
  {
    assert Pow2(4) == 16 && Pow2(8) == 256 && Pow2(12) == 0x1000 && Pow2(16) == 0x1_0000;
    assert Pow2(18) == 0x4_0000;
    assert Pow2(24) == 0x100_0000;
  }

  lemma {:induction false} PowAdd(a: nat, b: nat)
    ensures Pow2(a + b) == Pow2(a) * Pow2(b)
  {
    if a > 0 {
      PowAdd(a - 1, b);
      MulAssoc(2, Pow2(a - 1), Pow2(b));
    }
  }

  lemma MulAssoc(a: int, b: int, c: int)
    ensures (a * b) * c == a * (b * c)
  {
  }

  lemma Pow64()
    ensures Pow2(32) == TWO32 && Pow2(63) == TWO63 && Pow2(64) == TWO64
  {
    Pow2Values();
    PowAdd(16, 16);
    PowAdd(32, 32);
    assert Pow2(64) == 2 * Pow2(63);
  }
}

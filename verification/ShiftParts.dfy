/** Double-width shifts lowered to 64-bit shifts that use their amount modulo 64. */
module ShiftParts {
  import opened Bits
  import opened Machine

  // -------------------------------------------- the 64-bit nodes, as they run

  /** Shift amounts wrap. */
  function Wrapped(amount: Octa): nat { amount % 64 }

  function Shl(x: Octa, amount: Octa): Octa { Wrap(x * Pow2(Wrapped(amount))) }

  function Srl(x: Octa, amount: Octa): Octa { Quotient(x, Pow2(Wrapped(amount))) }

  lemma WrappedIs(a: Octa)
    ensures a < 64 ==> Wrapped(a) == a
  {
  }

  lemma WrapIs(x: int)
    ensures Wrap(x) == x % TWO64
  {
  }

  function Quotient(x: Octa, d: nat): (q: Octa)
    requires d > 0
    ensures q == x / d
  {
    DivLess(x, d);
    x / d
  }

  function Sub(x: Octa, y: Octa): Octa { Wrap(x - y) }

  function Signed(x: Octa): int { if x >= TWO63 then x - TWO64 else x }

  function Select(c: bool, x: Octa, y: Octa): Octa { if c then x else y }

  function OrNode(x: Octa, y: Octa): Octa {
    Pow64();
    OrBound(x, y, 64);
    Or(x, y)
  }

  lemma DivLess(x: nat, d: nat)
    requires d > 0
    ensures x / d <= x
  {
    assert x == x / d * d + x % d;
    MulMono(x / d, 1, d);
  }

  datatype Pair = Pair(lo: Octa, hi: Octa) {
    function Value(): nat { hi * TWO64 + lo }
  }

  // ------------------------------------------------------------ the lowering

  function LowerShlParts(lo: Octa, hi: Octa, amount: Octa): Pair {
    var revAmount := Sub(64, amount);
    var carried := Srl(lo, revAmount);
    var loBitsForHi := Select(amount == 0, 0, carried);
    var extraAmount := Sub(amount, 64);
    var hiBitsForHi := Shl(hi, amount);
    var hiForNormal := OrNode(loBitsForHi, hiBitsForHi);
    var hiForBig := Shl(lo, extraAmount);
    var isBig := Signed(extraAmount) >= 0;
    Pair(Select(isBig, 0, Shl(lo, amount)), Select(isBig, hiForBig, hiForNormal))
  }

  function LowerSrlParts(lo: Octa, hi: Octa, amount: Octa): Pair {
    var negated := Sub(64, amount);
    var isBig := Signed(negated) <= 0;
    var newHi := Select(isBig, 0, Srl(hi, amount));
    var shiftedLo := Select(isBig, newHi, Srl(lo, amount));
    var carryBits := Shl(hi, negated);
    Pair(Select(amount == 0, shiftedLo, OrNode(shiftedLo, carryBits)), newHi)
  }

  // ----------------------------------------------------------------- left

  const TWO128: nat := TWO64 * TWO64

  lemma SmallSub(x: nat, y: nat)
    requires x <= 127 && y <= 127
    ensures x >= y ==> Sub(x, y) == x - y && Signed(Sub(x, y)) == x - y
    ensures x < y ==> Sub(x, y) == TWO64 + x - y && Signed(Sub(x, y)) == x - y
    ensures x < y && y - x <= 64 ==> Wrapped(Sub(x, y)) == (64 + x - y) % 64
  {
    WrapAdd(x - y, 0);
    if x < y && y - x <= 64 {
      DivMod(TWO64 / 64 - 1, (64 + x - y) % 64, 64);
    }
  }

  lemma ShlIsMod(x: Octa, a: nat)
    requires a < 64
    ensures Shl(x, a) == x * Pow2(a) % TWO64
  {
    WrappedIs(a);
    WrapIs(x * Pow2(a));
    hide Pow2, Wrap, Wrapped;
  }

  /** x shifted left by a < 64 splits at bit 64. */
  lemma ShlSplits(x: Octa, a: nat)
    requires 0 < a < 64
    ensures Pow2(a) * Pow2(64 - a) == TWO64
    ensures x * Pow2(a) == x / Pow2(64 - a) * TWO64 + Shl(x, a)
    ensures Shl(x, a) == x % Pow2(64 - a) * Pow2(a)
    ensures x / Pow2(64 - a) < Pow2(a)
  {
    Pow64();
    PowAdd(a, 64 - a);
    ShlIsMod(x, a);
    hide Pow2, Shl;
    SplitProduct(x, Pow2(a), Pow2(64 - a));
  }

  lemma SplitProduct(x: Octa, p: nat, r: nat)
    requires p > 0 && r > 0 && p * r == TWO64
    ensures x * p == x / r * TWO64 + x % r * p
    ensures x * p % TWO64 == x % r * p
    ensures x / r < p
  {
    var q, m := x / r, x % r;
    assert x == q * r + m;
    calc {
      x * p;
      (q * r + m) * p;
      q * (r * p) + m * p;
      q * TWO64 + m * p;
    }
    MulMono(p, m, r - 1);
    assert p * (r - 1) == TWO64 - p;
    DivMod(q, m * p, TWO64);
    if q >= p {
      MulMono(r, p, q);
    }
  }

  lemma OrNodeAdd(c: Octa, m: nat, a: nat)
    requires c < Pow2(a) && m * Pow2(a) < TWO64
    ensures OrNode(c, m * Pow2(a)) == c + m * Pow2(a)
  {
    hide Or, Pow2;
    OrField(m, c, a);
    OrSwap(c, m * Pow2(a));
  }

  lemma SrlIs(x: Octa, a: nat)
    requires a < 64
    ensures Srl(x, a) == x / Pow2(a)
  {
    WrappedIs(a);
    hide Pow2, Wrapped;
  }

  lemma SrlBack(x: Octa, a: nat)
    requires 0 < a < 64
    ensures Srl(x, Sub(64, a)) == x / Pow2(64 - a)
  {
    SmallSub(64, a);
    SrlIs(x, 64 - a);
    hide Sub, Signed, Pow2, Srl;
  }

  lemma NormalShl(lo: Octa, hi: Octa, a: nat)
    requires 0 < a < 64
    ensures LowerShlParts(lo, hi, a).lo == Shl(lo, a)
    ensures LowerShlParts(lo, hi, a).hi == lo / Pow2(64 - a) + Shl(hi, a)
  {
    SrlBack(lo, a);
    SmallSub(a, 64);
    ShlSplits(lo, a);
    ShlSplits(hi, a);
    hide Shl, Pow2, Srl, OrNode, Sub, Signed;
    OrNodeAdd(lo / Pow2(64 - a), hi % Pow2(64 - a), a);
  }

  lemma BigShl(lo: Octa, hi: Octa, a: nat)
    requires 64 <= a < 128
    ensures LowerShlParts(lo, hi, a) == Pair(0, Shl(lo, a - 64))
  {
    SmallSub(a, 64);
    hide Sub, Signed, Shl, Srl, OrNode;
  }

  lemma ShlZero(x: Octa)
    ensures Shl(x, 0) == x && Srl(x, 0) == x
  {
    PowZero();
    ShlIsMod(x, 0);
    SrlIs(x, 0);
    hide Shl, Srl, Pow2;
  }

  lemma ZeroShl(lo: Octa, hi: Octa)
    ensures LowerShlParts(lo, hi, 0) == Pair(lo, hi)
  {
    SmallSub(0, 64);
    ShlZero(lo);
    ShlZero(hi);
    OrZero(hi);
    hide Sub, Signed, Srl, Shl, Or;
  }

  /** value * 2^a modulo 2^128, put together from its parts. */
  lemma ShlModulo(lo: Octa, hi: Octa, a: nat, q: nat, low: nat, p: nat)
    requires lo * p == q * TWO64 + low && low < TWO64 && p > 0
    requires hi * p % TWO64 + q < TWO64
    ensures (hi * TWO64 + lo) * p % TWO128 == (hi * p % TWO64 + q) * TWO64 + low
  {
    var h, r := hi * p / TWO64, hi * p % TWO64;
    calc {
      (hi * TWO64 + lo) * p;
      hi * p * TWO64 + lo * p;
      (h * TWO64 + r) * TWO64 + q * TWO64 + low;
      h * TWO128 + ((r + q) * TWO64 + low);
    }
    MulMono(TWO64, r + q, TWO64 - 1);
    DivMod(h, (r + q) * TWO64 + low, TWO128);
  }

  /** The pair is the 128-bit left shift, for every amount below 128. */
  lemma ShlPartsCorrect(lo: Octa, hi: Octa, amount: nat)
    requires amount < 128
    ensures LowerShlParts(lo, hi, amount).Value() == Pair(lo, hi).Value() * Pow2(amount) % TWO128
  {
    hide LowerShlParts, Pow2, Shl, Wrap;
    if amount == 0 {
      ZeroShl(lo, hi);
      PowZero();
      DivMod(0, Pair(lo, hi).Value(), TWO128);
    } else if amount < 64 {
      NormalShl(lo, hi, amount);
      ShlSplits(lo, amount);
      ShlSplits(hi, amount);
      ShlIsMod(hi, amount);
      ShlIsMod(lo, amount);
      NoCarry(hi, lo, amount);
      ShlModulo(lo, hi, amount, lo / Pow2(64 - amount), Shl(lo, amount), Pow2(amount));
    } else {
      BigShl(lo, hi, amount);
      ShlIsMod(lo, amount - 64);
      BigShlModulo(lo, hi, amount - 64);
    }
  }

  lemma PowZero()
    ensures Pow2(0) == 1
  {
  }

  lemma Distribute(p: int, x: int, y: int)
    ensures p * (x + y) == p * x + p * y && (x + y) * p == x * p + y * p
  {
  }

  lemma FitsBelow(x: Octa, y: Octa, p: nat, r: nat)
    requires p > 0 && r > 0 && p * r == TWO64
    ensures x % r * p + y / r < TWO64
  {
    SplitProduct(y, p, r);
    MulMono(p, x % r, r - 1);
    Distribute(p, r, -1);
  }

  /** The carried bits fit below the shifted high half. */
  lemma NoCarry(hi: Octa, lo: Octa, a: nat)
    requires 0 < a < 64
    ensures Shl(hi, a) + lo / Pow2(64 - a) < TWO64
  {
    ShlSplits(hi, a);
    hide Pow2, Shl;
    FitsBelow(hi, lo, Pow2(a), Pow2(64 - a));
  }

  lemma ShiftedTwice(v: nat, lo: Octa, hi: Octa, p: nat)
    requires v == hi * TWO64 + lo
    ensures v * (p * TWO64) % TWO128 == lo * p % TWO64 * TWO64
  {
    var q, r := lo * p / TWO64, lo * p % TWO64;
    assert lo * p == q * TWO64 + r;
    assert v * p == hi * p * TWO64 + (q * TWO64 + r) by {
      Distribute(p, hi * TWO64, lo);
      MulAssoc(hi, TWO64, p);
      MulAssoc(hi, p, TWO64);
    }
    MulAssoc(v, p, TWO64);
    assert v * (p * TWO64) == (hi * p + q) * TWO128 + r * TWO64;
    DivMod(hi * p + q, r * TWO64, TWO128);
  }

  lemma BigShlModulo(lo: Octa, hi: Octa, b: nat)
    requires b < 64
    ensures Pair(lo, hi).Value() * Pow2(b + 64) % TWO128 == lo * Pow2(b) % TWO64 * TWO64
  {
    Pow64();
    PowAdd(b, 64);
    hide Pow2;
    ShiftedTwice(Pair(lo, hi).Value(), lo, hi, Pow2(b));
  }

  // ---------------------------------------------------------------- right

  lemma ZeroSrl(lo: Octa, hi: Octa)
    ensures LowerSrlParts(lo, hi, 0) == Pair(lo, hi)
  {
    SmallSub(64, 0);
    hide Sub, Signed, Shl, OrNode;
    PowZero();
  }

  lemma ShrSplits(x: Octa, a: nat)
    requires 0 < a < 64
    ensures Pow2(a) * Pow2(64 - a) == TWO64
    ensures x / Pow2(a) < Pow2(64 - a)
    ensures Shl(x, 64 - a) == x % Pow2(a) * Pow2(64 - a)
  {
    hide Pow2, Shl;
    assert 64 - (64 - a) == a;
    ShlSplits(x, 64 - a);
  }

  lemma NormalSrl(lo: Octa, hi: Octa, a: nat)
    requires 0 < a < 64
    ensures LowerSrlParts(lo, hi, a).hi == hi / Pow2(a)
    ensures LowerSrlParts(lo, hi, a).lo == lo / Pow2(a) + hi % Pow2(a) * Pow2(64 - a)
  {
    SmallSub(64, a);
    SrlIs(hi, a);
    SrlIs(lo, a);
    ShrSplits(hi, a);
    ShrSplits(lo, a);
    hide Sub, Signed, Shl, Srl, OrNode, Pow2;
    OrNodeAdd(lo / Pow2(a), hi % Pow2(a), 64 - a);
  }

  lemma ShlWraps(x: Octa, amount: Octa, k: nat)
    requires k < 64 && Wrapped(amount) == k
    ensures Shl(x, amount) == Shl(x, k)
  {
    WrappedIs(k);
    hide Wrapped, Wrap, Pow2;
  }

  /** From 64 on the high half is zeroed before the low half takes it over, so
      only the carry bits, shifted the wrong way round, are left. */
  lemma BigSrl(lo: Octa, hi: Octa, a: nat, k: nat)
    requires 64 <= a < 128 && k == (if a == 64 then 0 else 128 - a)
    ensures LowerSrlParts(lo, hi, a) == Pair(Shl(hi, k), 0)
  {
    SmallSub(64, a);
    assert Wrapped(Sub(64, a)) == k by { hide Sub, Signed; WrappedIs(0); }
    ShlWraps(hi, Sub(64, a), k);
    hide Sub, Signed, Shl, Srl, Or;
    OrZero(Shl(hi, k));
  }

  lemma QuotientParts(lo: Octa, hi: Octa, p: nat, r: nat)
    requires p > 0 && r > 0 && p * r == TWO64
    ensures (hi * TWO64 + lo) / p == hi / p * TWO64 + (hi % p * r + lo / p)
  {
    var h, m, q, n := hi / p, hi % p, lo / p, lo % p;
    assert hi == h * p + m && lo == q * p + n;
    assert hi * TWO64 == (h * TWO64 + m * r) * p by {
      Distribute(TWO64, h * p, m);
      Distribute(p, h * TWO64, m * r);
      MulAssoc(h, p, TWO64);
      MulAssoc(h, TWO64, p);
      MulAssoc(m, r, p);
    }
    Distribute(p, h * TWO64 + m * r, q);
    DivMod(h * TWO64 + (m * r + q), n, p);
  }

  lemma QuotientBig(lo: Octa, hi: Octa, p: nat)
    requires p > 0
    ensures (hi * TWO64 + lo) / (p * TWO64) == hi / p
  {
    var h, m := hi / p, hi % p;
    assert hi == h * p + m;
    assert hi * TWO64 == h * (p * TWO64) + m * TWO64 by {
      Distribute(TWO64, h * p, m);
      MulAssoc(h, p, TWO64);
    }
    MulMono(TWO64, m, p - 1);
    Distribute(TWO64, p, -1);
    DivMod(h, m * TWO64 + lo, p * TWO64);
  }

  /** What is right of the low half from 65 on: nothing, unless the high half is 0. */
  lemma RotatedDiffers(hi: Octa, p: nat, r: nat)
    requires p > 0 && r > 0 && p * r == TWO64
    ensures hi % p * r == hi / p <==> hi == 0
  {
    var h, m := hi / p, hi % p;
    assert hi == h * p + m;
    SplitProduct(hi, r, p);
    if m > 0 { MulMono(r, 1, m); }
  }

  lemma SrlBelow64(lo: Octa, hi: Octa, a: nat)
    requires a < 64
    ensures LowerSrlParts(lo, hi, a).Value() == Pair(lo, hi).Value() / Pow2(a)
  {
    hide LowerSrlParts, Pow2;
    if a == 0 {
      ZeroSrl(lo, hi);
      PowZero();
    } else {
      NormalSrl(lo, hi, a);
      ShlSplits(0, 64 - a);
      QuotientParts(lo, hi, Pow2(a), Pow2(64 - a));
    }
  }

  lemma Srl64(lo: Octa, hi: Octa)
    ensures LowerSrlParts(lo, hi, 64).Value() == Pair(lo, hi).Value() / TWO64
  {
    BigSrl(lo, hi, 64, 0);
    hide LowerSrlParts, Pow2, Shl;
    ShlIsMod(hi, 0);
    PowZero();
    DivMod(hi, lo, TWO64);
  }

  lemma LowOfBig(lo: Octa, hi: Octa, b: nat)
    requires 0 < b < 64
    ensures LowerSrlParts(lo, hi, b + 64).Value() == hi % Pow2(b) * Pow2(64 - b)
  {
    hide LowerSrlParts, Pow2, Shl;
    BigSrl(lo, hi, b + 64, 64 - b);
    ShrSplits(hi, b);
  }

  lemma SrlFrom65(lo: Octa, hi: Octa, b: nat)
    requires 0 < b < 64
    ensures LowerSrlParts(lo, hi, b + 64).Value() == Pair(lo, hi).Value() / (Pow2(b) * TWO64) <==> hi == 0
  {
    hide LowerSrlParts, Pow2;
    LowOfBig(lo, hi, b);
    PowProduct(b);
    RotatedDiffers(hi, Pow2(b), Pow2(64 - b));
    hide Pair.Value;
    assert Pair(lo, hi).Value() / (Pow2(b) * TWO64) == hi / Pow2(b) by { PairQuotient(lo, hi, Pow2(b)); }
  }

  lemma PowProduct(b: nat)
    requires 0 < b < 64
    ensures Pow2(b) * Pow2(64 - b) == TWO64
  {
    Pow64();
    PowAdd(b, 64 - b);
  }

  lemma PairQuotient(lo: Octa, hi: Octa, p: nat)
    requires p > 0
    ensures Pair(lo, hi).Value() / (p * TWO64) == hi / p
  {
    QuotientBig(lo, hi, p);
  }

  /** The pair is the 128-bit logical right shift exactly for the amounts up to
      64, and beyond that when the high half is zero. */
  lemma SrlPartsExactly(lo: Octa, hi: Octa, amount: nat)
    requires amount < 128
    ensures LowerSrlParts(lo, hi, amount).Value() == Pair(lo, hi).Value() / Pow2(amount) <==> amount <= 64 || hi == 0
  {
    hide LowerSrlParts, Pow2;
    if amount < 64 {
      SrlBelow64(lo, hi, amount);
    } else if amount == 64 {
      Pow64();
      Srl64(lo, hi);
    } else {
      Pow64();
      PowAdd(amount - 64, 64);
      SrlFrom65(lo, hi, amount - 64);
    }
  }
}

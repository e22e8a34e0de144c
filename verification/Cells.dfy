/** Cells of the byte memory: what a little-endian store changes, what it leaves
    alone, and what a load gives back. */
module Cells {
  import opened Bits
  import opened Machine

  /** x lies in the `size` bytes from lo on, addresses wrapping at 2^64. */
  predicate Inside(x: int, lo: int, size: nat) { Wrap(x - lo) < size }

  lemma WrapLess(x: int, k: nat)
    requires Wrap(x) >= k
    ensures Wrap(x - k) == Wrap(x) - k
  {
    WrapAdd(x, 0 - k);
    WrapAdd(Wrap(x) - k, 0);
  }

  lemma SameWrapInside(x: int, a: int)
    requires Wrap(x) == Wrap(a)
    ensures Wrap(x - a) == 0
  {
    WrapAdd(x, 0 - a);
    WrapAdd(a, 0 - a);
  }

  lemma {:induction false} StoreFrame(m: Memory, a: int, size: nat, v: nat, x: int)
    requires !Inside(x, a, size)
    ensures ByteAt(StoreLE(m, a, size, v), x) == ByteAt(m, x)
    decreases size
  {
    if size > 0 {
      if Wrap(x) == Wrap(a) { SameWrapInside(x, a); }
      WrapLess(x - a, 1);
      assert x - a - 1 == x - (a + 1);
      hide Wrap;
      StoreFrame(m[Wrap(a) := v % 256], a + 1, size - 1, v / 256, x);
    }
  }

  lemma {:induction false} LoadStore(m: Memory, a: int, size: nat, v: nat)
    requires v < Pow2(8 * size) && size < TWO64
    ensures LoadLE(StoreLE(m, a, size, v), a, size) == v
    decreases size
  {
    if size > 0 {
      PowStep8(size - 1);
      var m1 := m[Wrap(a) := v % 256];
      assert ByteAt(m1, a) == v % 256;
      assert Wrap(-1) == TWO64 - 1;
      hide Wrap, Pow2;
      StoreFrame(m1, a + 1, size - 1, v / 256, a);
      LoadStore(m1, a + 1, size - 1, v / 256);
    }
  }

  lemma {:induction false} LoadSame(m: Memory, m': Memory, a: int, size: nat)
    requires forall x: int :: a <= x < a + size ==> ByteAt(m, x) == ByteAt(m', x)
    ensures LoadLE(m, a, size) == LoadLE(m', a, size)
    decreases size
  {
    hide ByteAt, Pow2;
    if size > 0 {
      LoadSame(m, m', a + 1, size - 1);
    }
  }

  lemma {:induction false} LoadWraps(m: Memory, a: int, b: int, size: nat)
    requires Wrap(a) == Wrap(b)
    ensures LoadLE(m, a, size) == LoadLE(m, b, size)
    decreases size
  {
    if size > 0 {
      WrapAdd(a, 1);
      WrapAdd(b, 1);
      hide Wrap, Pow2;
      LoadWraps(m, a + 1, b + 1, size - 1);
    }
  }

  /** Both memories hold the same bytes in the region. */
  ghost predicate SameInside(m: Memory, m': Memory, lo: int, size: nat) {
    forall x: int :: Inside(x, lo, size) ==> ByteAt(m, x) == ByteAt(m', x)
  }

  ghost predicate SameOutside(m: Memory, m': Memory, lo: int, size: nat) {
    forall x: int :: !Inside(x, lo, size) ==> ByteAt(m, x) == ByteAt(m', x)
  }

  lemma CellSame(m: Memory, m': Memory, lo: int, size: nat, a: int)
    requires SameInside(m, m', lo, size) && size < TWO64
    requires lo <= a && a + 8 <= lo + size
    ensures LoadLE(m, a, 8) == LoadLE(m', a, 8)
  {
    hide ByteAt;
    forall x: int | a <= x < a + 8 ensures ByteAt(m, x) == ByteAt(m', x) {
      WrapAdd(x - lo, 0);
      assert Inside(x, lo, size);
    }
    LoadSame(m, m', a, 8);
  }

  /** The cell of 8 bytes at a keeps its value when a store goes to another place. */
  lemma CellFrame(m: Memory, a: int, b: int, v: nat)
    requires b + 8 <= a && a + 8 <= b + TWO64
    ensures LoadLE(StoreLE(m, b, 8, v), a, 8) == LoadLE(m, a, 8)
  {
    hide ByteAt, StoreLE;
    var m' := StoreLE(m, b, 8, v);
    forall x: int | a <= x < a + 8 ensures ByteAt(m', x) == ByteAt(m, x) {
      WrapAdd(x - b, 0);
      StoreFrame(m, b, 8, v, x);
    }
    LoadSame(m', m, a, 8);
  }
}

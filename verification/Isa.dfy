/** What the instructions of the emulated machine do, by the names that the
    opcode table gives them: conditional branches, wyde instructions and
    multi-register loads and stores. */
module Isa {
  import opened Bits
  import opened Machine
  import opened Cells
  import OpcodeTable
  import MultiReg
  import SimRisc

  function Signed(x: Octa): int { if x >= TWO63 then x - TWO64 else x }

  // ------------------------------------------------- conditional branches

  predicate BranchIf(name: string, x: int, y: int) {
    || (name == "brn" && x < 0) || (name == "brnn" && x >= 0)
    || (name == "brz" && x == 0) || (name == "brnz" && x != 0)
    || (name == "brp" && x > 0) || (name == "brnp" && x <= 0)
    || (name == "breq" && x == y) || (name == "brne" && x != y)
  }

  /** Every conditional branch of the table goes, from every state, four times
      its signed displacement further when its condition holds of the signed
      registers it names, and to the next word otherwise. */
  lemma ConditionalBranch(w: nat, s: State)
    requires w < TWO32 && 0x28 <= Op(w) <= 0x2F && s.Valid()
    ensures var l := SimRisc.Branch(Op(w));
            var low := if l.format == OpcodeTable.RIII then w % 0x4_0000 else w % 0x1000;
            var half := if l.format == OpcodeTable.RIII then 0x2_0000 else 0x800;
            var disp := if low < half then low else low - 2 * half;
            var x, y := Signed(s.Get(RD, FA(w))), Signed(s.Get(RD, FB(w)));
            Step(w, s) == Some(s.(pc := Wrap(s.pc + if BranchIf(l.name, x, y) then 4 * disp else 4)))
  {
    Pow2Values();
    hide Pow2, FA, FB, State.Get, Wrap;
    BranchNames(Op(w), s.Get(RD, FA(w)), s.Get(RD, FB(w)));
    hide BranchIf, SimRisc.BranchName, CondHolds;
  }

  lemma BranchNames(op: nat, x: Octa, y: Octa)
    requires 0x28 <= op <= 0x2F
    ensures CondHolds(CondOf(op), x, if op <= 0x2D then 0 else y) <==> BranchIf(SimRisc.BranchName(op), Signed(x), Signed(y))
  {
  }

  /** addi of the table's second rd form: the sum of the source and the signed
      12-bit immediate, modulo 2^64, in the destination. */
  lemma AddImmediate(dst: Reg, src: Reg, imm: nat, s: State)
    requires imm < 0x1000 && dst != 0 && s.Valid()
    ensures Step(0x1900_0000 + dst * 0x4_0000 + src * 0x1000 + imm, s)
         == Some(s.Put(RD, dst, Wrap(s.Get(RD, src) + if imm < 0x800 then imm else imm - 0x1000)).(pc := Wrap(s.pc + 4)))
  {
    Pow2Values();
    HighFields(0x19, dst, src * 0x1000 + imm);
    MiddleField(0x19 * 64 + dst, src, imm);
    hide Op, FA, FB, Pow2, Wrap, State.Get, State.Put, State.Valid;
  }

  // --------------------------------------------------- elements of memory

  /** The value of 1, 2, 4 or 8 little-endian bytes. */
  function Bytes(m: Memory, a: int, size: nat): nat {
    if size == 1 then ByteAt(m, a)
    else if size == 2 then ByteAt(m, a) + 0x100 * ByteAt(m, a + 1)
    else if size == 4 then ByteAt(m, a) + 0x100 * ByteAt(m, a + 1) + 0x1_0000 * ByteAt(m, a + 2) + 0x100_0000 * ByteAt(m, a + 3)
    else ByteAt(m, a) + 0x100 * ByteAt(m, a + 1) + 0x1_0000 * ByteAt(m, a + 2) + 0x100_0000 * ByteAt(m, a + 3)
         + 0x1_0000_0000 * ByteAt(m, a + 4) + 0x100_0000_0000 * ByteAt(m, a + 5)
         + 0x1_0000_0000_0000 * ByteAt(m, a + 6) + 0x100_0000_0000_0000 * ByteAt(m, a + 7)
  }

  lemma {:induction false} LoadParts(m: Memory, a: int, i: nat, j: nat)
    ensures LoadLE(m, a, i + j) == LoadLE(m, a, i) + Pow2(8 * i) * LoadLE(m, a + i, j)
    decreases i
  {
    hide ByteAt;
    if i == 0 {
      assert Pow2(0) == 1;
    } else {
      PowStep8(i - 1);
      LoadParts(m, a + 1, i - 1, j);
      hide Pow2;
      assert a + 1 + (i - 1) == a + i;
      MulAssoc(256, Pow2(8 * (i - 1)), LoadLE(m, a + i, j));
    }
  }

  lemma LoadPair(m: Memory, a: int)
    ensures LoadLE(m, a, 2) == ByteAt(m, a) + 0x100 * ByteAt(m, a + 1)
  {
    hide ByteAt, Pow2;
    assert LoadLE(m, a + 1, 1) == ByteAt(m, a + 1) + 256 * LoadLE(m, a + 2, 0);
  }

  lemma LoadBytes(m: Memory, a: int, size: nat)
    requires size == 1 || size == 2 || size == 4 || size == 8
    ensures LoadLE(m, a, size) == Bytes(m, a, size)
  {
    Pow2Values();
    Pow64();
    assert LoadLE(m, a, 1) == ByteAt(m, a) + 256 * LoadLE(m, a + 1, 0);
    LoadPair(m, a);
    LoadPair(m, a + 2);
    LoadPair(m, a + 4);
    LoadPair(m, a + 6);
    hide LoadLE, Pow2, ByteAt;
    LoadParts(m, a, 2, 2);
    LoadParts(m, a + 4, 2, 2);
    LoadParts(m, a, 4, 4);
  }

  lemma HalfPowers()
    ensures Pow2(7) == 0x80 && Pow2(8) == 0x100 && Pow2(15) == 0x8000 && Pow2(16) == 0x1_0000
    ensures Pow2(31) == 0x8000_0000 && Pow2(32) == TWO32 && Pow2(63) == TWO63 && Pow2(64) == TWO64
  {
    Pow64();
    assert Pow2(8) == 2 * Pow2(7) && Pow2(16) == 2 * Pow2(15) && Pow2(32) == 2 * Pow2(31);
    Pow2Values();
  }

  /** What a load of one element gives a register. */
  function Element(m: Memory, a: int, size: nat, signed: bool): nat {
    var v := Bytes(m, a, size);
    if signed && size == 1 && v >= 0x80 then TWO64 - 0x100 + v
    else if signed && size == 2 && v >= 0x8000 then TWO64 - 0x1_0000 + v
    else if signed && size == 4 && v >= 0x8000_0000 then TWO64 - TWO32 + v
    else v
  }

  lemma ElementLoaded(m: Memory, a: int, size: nat, signed: bool)
    requires size == 1 || size == 2 || size == 4 || (size == 8 && !signed)
    ensures LoadElem(m, a, size, signed) == Element(m, a, size, signed)
  {
    hide Pow2, Bytes, LoadLE, Wrap;
    HalfPowers();
    LoadBytes(m, a, size);
    var v := LoadLE(m, a, size);
    WrapSmall(v);
    WrapSmall(v - 0x100);
    WrapSmall(v - 0x1_0000);
    WrapSmall(v - TWO32);
  }

  lemma WrapSmall(x: int)
    requires 0 - TWO64 <= x < TWO64
    ensures Wrap(x) == if x < 0 then TWO64 + x else x
  {
    WrapMultiple(x, 1);
    WrapAdd(x, 0);
    WrapAdd(x + TWO64, 0);
  }

  lemma {:induction false} LoadStored(m: Memory, a: int, size: nat, v: nat)
    requires size < TWO64
    ensures LoadLE(StoreLE(m, a, size, v), a, size) == v % Pow2(8 * size)
    decreases size
  {
    if size > 0 {
      PowStep8(size - 1);
      ModParts(v, Pow2(8 * (size - 1)), 256);
      var m1 := m[Wrap(a) := v % 256];
      assert ByteAt(m1, a) == v % 256;
      assert Wrap(-1) == TWO64 - 1;
      hide Wrap, Pow2;
      StoreFrame(m1, a + 1, size - 1, v / 256, a);
      LoadStored(m1, a + 1, size - 1, v / 256);
    }
  }

  // -------------------------------------- multi-register loads and stores

  /** The letter behind `ldm` or `stm`: byte, wyde, tetra or octa. */
  function LetterSize(c: char): nat { if c == 'b' then 1 else if c == 'w' then 2 else if c == 't' then 4 else 8 }

  function BankOf(c: OpcodeTable.Class): Bank {
    match c case ClassRb => RB case ClassRf => RF case ClassRa => RA case _ => RD
  }

  /** Decoding a word of such a line: bank, direction, element size and extension
      are the ones its name tells. */
  lemma MultiDecodes(op: nat, a: Reg, b: Reg, c: Reg, d: Reg)
    requires SimRisc.MultiName(op) != ""
    ensures var name, bank := SimRisc.MultiName(op), BankOf(SimRisc.MultiClass(op));
            && |name| >= 4 && LetterSize(name[3]) == MemSize(op)
            && Decode(Word(op, a, b, c, d)) ==
                 if name[0] == 'l' then Ldm(bank, a, b, c, d, LetterSize(name[3]), |name| == 5 && name[4] == 's')
                 else Stm(bank, a, b, c, d, LetterSize(name[3]))
  {
    FieldsOfWord(op, a, b, c, d);
    hide Word, Op, FA, FB, FC, FD;
  }

  lemma {:induction false} LdLoopGet(s: State, b: Bank, r: Reg, a: int, n: nat, size: nat, sg: bool, k: nat)
    requires s.Valid() && r + n <= 64 && k < n && !(r + k == 0 && (b == RD || b == RB))
    ensures LdLoop(s, b, r, a, n, size, sg).Get(b, r + k) == LoadElem(s.mem, a + size * k, size, sg)
    decreases n
  {
    hide LoadElem, State.Get, State.Put, State.Valid, LdLoop;
    MultiReg.LdLoopLast(s, b, r, a, n - 1, size, sg);
    var t := LdLoop(s, b, r, a, n - 1, size, sg);
    PutGet(t, b, r + (n - 1), LoadElem(s.mem, a + size * (n - 1), size, sg), b, r + k);
    if k < n - 1 { LdLoopGet(s, b, r, a, n - 1, size, sg, k); }
  }

  lemma ApartBound(size: nat, k: nat, n: nat)
    requires k < n <= 64 && size <= 8
    ensures size * k + size <= size * n <= 512
  {
    MulMono(size, k + 1, n);
    MulMono(n, size, 8);
  }

  lemma Apart(a: int, size: nat, k: nat, n: nat, x: int)
    requires k < n <= 64 && size <= 8 && a + size * k <= x < a + size * k + size
    ensures !Inside(x, a + size * n, size)
  {
    ApartBound(size, k, n);
    WrapSmall(x - (a + size * n));
    hide Wrap;
  }

  /** What the k-th of n stores put in memory is still there. */
  lemma {:induction false} StLoopLoad(s: State, b: Bank, r: Reg, a: int, n: nat, size: nat, k: nat)
    requires s.Valid() && r + n <= 64 && k < n && size <= 8
    ensures LoadLE(StLoop(s, b, r, a, n, size).mem, a + size * k, size) == s.Get(b, r + k) % Pow2(8 * size)
    decreases n
  {
    hide State.Get, State.Valid, StLoop, LoadLE, StoreLE, ByteAt, Pow2, Inside;
    MultiReg.StLoopLast(s, b, r, a, n - 1, size);
    var t, v := StLoop(s, b, r, a, n - 1, size), s.Get(b, r + (n - 1));
    if k == n - 1 {
      LoadStored(t.mem, a + size * k, size, v);
    } else {
      StLoopLoad(s, b, r, a, n - 1, size, k);
      forall x: int | a + size * k <= x < a + size * k + size
        ensures ByteAt(StoreLE(t.mem, a + size * (n - 1), size, v), x) == ByteAt(t.mem, x)
      {
        Apart(a, size, k, n - 1, x);
        StoreFrame(t.mem, a + size * (n - 1), size, v, x);
      }
      LoadSame(StoreLE(t.mem, a + size * (n - 1), size, v), t.mem, a + size * k, size);
    }
  }

  lemma {:induction false} StLoopFrame(s: State, b: Bank, r: Reg, a: int, n: nat, size: nat, x: int)
    requires s.Valid() && r + n <= 64 && size <= 8 && !Inside(x, a, size * n)
    ensures ByteAt(StLoop(s, b, r, a, n, size).mem, x) == ByteAt(s.mem, x)
    decreases n
  {
    hide State.Get, StoreLE, ByteAt;
    if n > 0 {
      assert size * n == size + size * (n - 1);
      var t := s.(mem := StoreLE(s.mem, a, size, s.Get(b, r)));
      InsideParts(x, a, size, size * (n - 1));
      hide Inside;
      StoreFrame(s.mem, a, size, s.Get(b, r), x);
      if n > 1 {
        StLoopFrame(t, b, r + 1, a + size, n - 1, size, x);
      }
    }
  }

  lemma InsideParts(x: int, a: int, i: nat, j: nat)
    requires !Inside(x, a, i + j)
    ensures !Inside(x, a, i) && !Inside(x, a + i, j)
  {
    WrapLess(x - a, i);
    assert x - a - i == x - (a + i);
  }

  /** Register k gets the k-th element behind base plus index; other registers
      and the memory stay. */
  ghost predicate Loads(s: State, t: State, bank: Bank, a: Reg, n: nat, at: int, size: nat, signed: bool)
    requires s.Valid() && t.Valid() && a + n <= 64
  {
    && t.mem == s.mem && t.pc == Wrap(s.pc + 4)
    && (forall k: nat :: k < n && !(a + k == 0 && (bank == RD || bank == RB)) ==>
          t.Get(bank, a + k) == Element(s.mem, at + size * k, size, signed))
    && (forall b: Bank, r: Reg :: (b != bank || r < a || a + n <= r) && !(b == RB && r == 0) ==> t.Get(b, r) == s.Get(b, r))
  }

  lemma ExecLdm(s: State, bank: Bank, a: Reg, b: Reg, c: Reg, n: nat, size: nat, sg: bool)
    requires s.Valid() && 0 < n && a + n <= 64
    ensures Exec(Ldm(bank, a, b, c, n, size, sg), s) == Some(Next(LdLoop(s, bank, a, s.Get(RB, b) + s.Get(RD, c), n, size, sg)))
  {
    hide LdLoop, StLoop, Next, State.Get, State.Valid, WydeEffect, Split, MoveLoop, CondHolds, Wrap, Pow2;
  }

  lemma ExecStm(s: State, bank: Bank, a: Reg, b: Reg, c: Reg, n: nat, size: nat)
    requires s.Valid() && 0 < n && a + n <= 64
    ensures Exec(Stm(bank, a, b, c, n, size), s) == Some(Next(StLoop(s, bank, a, s.Get(RB, b) + s.Get(RD, c), n, size)))
  {
    hide LdLoop, StLoop, Next, State.Get, State.Valid, WydeEffect, Split, MoveLoop, CondHolds, Wrap, Pow2;
  }

  lemma LoopLoads(s: State, bank: Bank, a: Reg, at: int, n: nat, size: nat, sg: bool)
    requires s.Valid() && 0 < n && a + n <= 64 && (size == 1 || size == 2 || size == 4 || (size == 8 && !sg))
    ensures var t := Next(LdLoop(s, bank, a, at, n, size, sg));
            t.Valid() && Loads(s, t, bank, a, n, at, size, sg)
  {
    hide Element, LoadElem, LdLoop, State.Get, Next, State.Valid;
    var t := LdLoop(s, bank, a, at, n, size, sg);
    NextOf(t);
    forall k: nat | k < n && !(a + k == 0 && (bank == RD || bank == RB))
      ensures Next(t).Get(bank, a + k) == Element(s.mem, at + size * k, size, sg)
    {
      LdLoopGet(s, bank, a, at, n, size, sg, k);
      ElementLoaded(s.mem, at + size * k, size, sg);
      NextGet(t, bank, a + k);
    }
    forall b': Bank, r: Reg | (b' != bank || r < a || a + n <= r) && !(b' == RB && r == 0)
      ensures Next(t).Get(b', r) == s.Get(b', r)
    {
      MultiReg.LdLoopFrame(s, bank, a, at, n, size, sg, b', r);
      NextGet(t, b', r);
    }
  }

  lemma LdmLoads(s: State, bank: Bank, a: Reg, b: Reg, c: Reg, n: nat, size: nat, sg: bool)
    requires s.Valid() && 0 < n && a + n <= 64 && (size == 1 || size == 2 || size == 4 || (size == 8 && !sg))
    ensures var o := Exec(Ldm(bank, a, b, c, n, size, sg), s);
            o.Some? && Loads(s, o.value, bank, a, n, s.Get(RB, b) + s.Get(RD, c), size, sg)
  {
    hide *;
    ExecLdm(s, bank, a, b, c, n, size, sg);
    LoopLoads(s, bank, a, s.Get(RB, b) + s.Get(RD, c), n, size, sg);
  }

  /** One instruction of a line named `ldm...` loads elements of the size and
      extension that its name tells, from every state. */
  lemma MultiLoad(op: nat, a: Reg, b: Reg, c: Reg, d: Reg, s: State)
    requires SimRisc.MultiName(op) != "" && SimRisc.MultiName(op)[0] == 'l' && s.Valid() && d > 0 && a + d <= 64
    ensures |SimRisc.MultiName(op)| >= 4
    ensures var name, bank := SimRisc.MultiName(op), BankOf(SimRisc.MultiClass(op));
            var o := Step(Word(op, a, b, c, d), s);
            o.Some? && Loads(s, o.value, bank, a, d, s.Get(RB, b) + s.Get(RD, c), LetterSize(name[3]),
                             |name| == 5 && name[4] == 's')
  {
    MultiDecodes(op, a, b, c, d);
    MultiSizes(op);
    hide SimRisc.MultiName, SimRisc.MultiClass, BankOf, LetterSize, Decode, Word, Exec, Loads, State.Get, State.Valid;
    var name, bank := SimRisc.MultiName(op), BankOf(SimRisc.MultiClass(op));
    LdmLoads(s, bank, a, b, c, d, LetterSize(name[3]), |name| == 5 && name[4] == 's');
  }

  lemma NextOf(t: State)
    requires t.Valid()
    ensures Next(t).Valid() && Next(t) == t.(mem := Next(t).mem, pc := Wrap(t.pc + 4)) && Next(t).mem == t.mem
  {
  }

  lemma NextGet(t: State, b: Bank, r: Reg)
    requires t.Valid() && !(b == RB && r == 0)
    ensures Next(t).Get(b, r) == t.Get(b, r)
  {
  }

  lemma MultiSizes(op: nat)
    requires SimRisc.MultiName(op) != ""
    ensures var name := SimRisc.MultiName(op);
            && |name| >= 4 && LetterSize(name[3]) in {1, 2, 4, 8}
            && (|name| == 5 && name[4] == 's' ==> LetterSize(name[3]) != 8)
  {
  }

  /** The k-th element behind base plus index is the low part of register k; the
      rest of the memory and all registers stay. */
  ghost predicate Stores(s: State, t: State, bank: Bank, a: Reg, n: nat, at: int, size: nat)
    requires s.Valid() && t.Valid() && a + n <= 64
  {
    && t == s.(mem := t.mem, pc := Wrap(s.pc + 4))
    && (forall k: nat :: k < n ==> Bytes(t.mem, at + size * k, size) == s.Get(bank, a + k) % Pow2(8 * size))
    && (forall x: int :: !Inside(x, at, size * n) ==> ByteAt(t.mem, x) == ByteAt(s.mem, x))
  }

  lemma LoopStores(s: State, bank: Bank, a: Reg, at: int, n: nat, size: nat)
    requires s.Valid() && 0 < n && a + n <= 64 && (size == 1 || size == 2 || size == 4 || size == 8)
    ensures var t := Next(StLoop(s, bank, a, at, n, size));
            t.Valid() && Stores(s, t, bank, a, n, at, size)
  {
    hide Bytes, StLoop, State.Get, ByteAt, Inside, Pow2, LoadLE, Next, State.Valid;
    var t := StLoop(s, bank, a, at, n, size);
    NextOf(t);
    forall k: nat | k < n ensures Bytes(t.mem, at + size * k, size) == s.Get(bank, a + k) % Pow2(8 * size) {
      StLoopLoad(s, bank, a, at, n, size, k);
      LoadBytes(t.mem, at + size * k, size);
    }
    forall x: int | !Inside(x, at, size * n) ensures ByteAt(t.mem, x) == ByteAt(s.mem, x) {
      StLoopFrame(s, bank, a, at, n, size, x);
    }
  }

  lemma StmStores(s: State, bank: Bank, a: Reg, b: Reg, c: Reg, n: nat, size: nat)
    requires s.Valid() && 0 < n && a + n <= 64 && (size == 1 || size == 2 || size == 4 || size == 8)
    ensures var o := Exec(Stm(bank, a, b, c, n, size), s);
            o.Some? && Stores(s, o.value, bank, a, n, s.Get(RB, b) + s.Get(RD, c), size)
  {
    hide *;
    ExecStm(s, bank, a, b, c, n, size);
    LoopStores(s, bank, a, s.Get(RB, b) + s.Get(RD, c), n, size);
  }

  /** One instruction of a line named `stm...` stores elements of the size that
      its name tells, from every state. */
  lemma MultiStore(op: nat, a: Reg, b: Reg, c: Reg, d: Reg, s: State)
    requires SimRisc.MultiName(op) != "" && SimRisc.MultiName(op)[0] == 's' && s.Valid() && d > 0 && a + d <= 64
    ensures |SimRisc.MultiName(op)| >= 4
    ensures var name, bank := SimRisc.MultiName(op), BankOf(SimRisc.MultiClass(op));
            var o := Step(Word(op, a, b, c, d), s);
            o.Some? && Stores(s, o.value, bank, a, d, s.Get(RB, b) + s.Get(RD, c), LetterSize(name[3]))
  {
    MultiDecodes(op, a, b, c, d);
    MultiSizes(op);
    hide SimRisc.MultiName, SimRisc.MultiClass, BankOf, LetterSize, Decode, Word, Exec, Stores, State.Get, State.Valid;
    var name, bank := SimRisc.MultiName(op), BankOf(SimRisc.MultiClass(op));
    StmStores(s, bank, a, b, c, d, LetterSize(name[3]));
  }

  // ------------------------------------------------- the expansion's words

  /** The opcodes that the expansion uses are the lowest of their names; a name's
      banks are those of its entries, and OwnOpcode finds the entry. */
  lemma EntriesByName(op: nat, bank: Bank)
    ensures MultiReg.FirstEntry(op) <==>
              SimRisc.MultiName(op) != "" && forall lower: nat :: lower < op ==> SimRisc.MultiName(lower) != SimRisc.MultiName(op)
    ensures MultiReg.FirstEntry(op) ==>
              && MultiReg.EntryBank(op) == BankOf(SimRisc.MultiClass(op))
              && (MultiReg.Mnemonic(op, bank) <==>
                    exists o: nat :: SimRisc.MultiName(o) == SimRisc.MultiName(op) && BankOf(SimRisc.MultiClass(o)) == bank)
  {
    assert SimRisc.MultiName(0x37) == "ldmo" && SimRisc.MultiName(0x3F) == "stmo" && SimRisc.MultiName(0x3E) == "stmt";
    if MultiReg.FirstEntry(op) && MultiReg.Mnemonic(op, bank) {
      var o := MultiReg.OwnOpcode(op, bank);
      assert SimRisc.MultiName(o) == SimRisc.MultiName(op) && BankOf(SimRisc.MultiClass(o)) == bank;
    }
  }

  lemma {:induction false} PrefixWord(op: nat, exp0: nat, base: nat, index: nat, n: nat, k: nat)
    requires k < n
    ensures var ws := MultiReg.CodePrefix(op, exp0, base, index, n);
            && |ws| == 2 * n - 1 && ws[2 * k] == MultiReg.MemWord(op, exp0 + k, base, index)
            && (k + 1 < n ==> ws[2 * k + 1] == MultiReg.AddIWord(index, MemSize(op)))
  {
    hide MultiReg.MemWord, MultiReg.AddIWord, MemSize;
    if k < n - 1 {
      PrefixWord(op, exp0, base, index, n - 1, k);
    } else if n > 1 {
      PrefixWord(op, exp0, base, index, n - 1, n - 2);
    }
  }

  /** Of the 2n words, the even ones access one register after the other, the odd
      ones between them step the index by the size that the mnemonic's letter
      tells, and the last one takes the steps back. */
  lemma SteppedBySize(op: nat, bank: Bank, reg: Reg, base: Reg, index: Reg, n: nat, k: nat)
    requires MultiReg.FirstEntry(op) && MultiReg.Mnemonic(op, bank) && 1 < n && reg + n <= 64 && k < n
    ensures |SimRisc.MultiName(op)| >= 4 && MemSize(op) * (n - 1) <= 0x1000
    ensures var size := LetterSize(SimRisc.MultiName(op)[3]);
            var ws := MultiReg.MultiCode(op, 64 * MultiReg.BankNo(bank) + reg, base, index, n);
            && |ws| == 2 * n
            && ws[2 * k] == Word(op, reg + k, base, index, 1)
            && Decode(ws[2 * k + 1]) == AddI(index, index, if k < n - 1 then size else 0 - size * (n - 1))
  {
    hide *;
    NameSize(op, bank);
    MultiReg.SizeBound(MemSize(op), n);
    CodeWord(op, 64 * MultiReg.BankNo(bank) + reg, base, index, n, k);
    FirstWord(op, bank, reg, base, index, k);
    MultiReg.MemWordSum(op, bank, reg + k, base, index);
    MultiReg.AddIWordDecodes(index, if k < n - 1 then MemSize(op) else 0x1000 - MemSize(op) * (n - 1));
  }

  lemma FirstWord(op: nat, bank: Bank, reg: Reg, base: Reg, index: Reg, k: nat)
    ensures 64 * MultiReg.BankNo(bank) + reg + k == 64 * MultiReg.BankNo(bank) + (reg + k)
  {
  }

  lemma NameSize(op: nat, bank: Bank)
    requires MultiReg.FirstEntry(op)
    ensures |SimRisc.MultiName(op)| >= 4 && MemSize(op) == LetterSize(SimRisc.MultiName(op)[3]) && 1 <= MemSize(op) <= 8
  {
  }

  lemma CodeWord(op: nat, exp0: nat, base: nat, index: nat, n: nat, k: nat)
    requires k < n && 1 <= MemSize(op) && MemSize(op) * (n - 1) <= 0x1000
    ensures var ws := MultiReg.MultiCode(op, exp0, base, index, n);
            && |ws| == 2 * n && ws[2 * k] == MultiReg.MemWord(op, exp0 + k, base, index)
            && ws[2 * k + 1] == MultiReg.AddIWord(index, if k < n - 1 then MemSize(op) else 0x1000 - MemSize(op) * (n - 1))
  {
    hide MultiReg.MemWord, MultiReg.AddIWord, MultiReg.CodePrefix, MemSize;
    PrefixWord(op, exp0, base, index, n, k);
  }

  // ------------------------------------------------------ wyde instructions

  /** What a wyde instruction of this name makes of one wyde: `own` is the one it
      names. */
  ghost predicate WydeBecomes(name: string, own: bool, was: nat, imm: nat, v: nat) {
    if !own then v == (if name == "setzw" then 0 else if name == "setow" then 0xFFFF else was)
    else if name == "orw" then forall k: nat :: Bit(v, k) <==> Bit(was, k) || Bit(imm, k)
    else if name == "andnw" then forall k: nat :: Bit(v, k) <==> Bit(was, k) && !Bit(imm, k)
    else v == imm
  }

  /** Every wyde instruction of the table, from every state: each of the four
      wydes of its register becomes what its name tells, the rest stays. */
  lemma WydeInstruction(op: nat, a: Reg, ww: nat, imm: nat, s: State, j: nat)
    requires SimRisc.WydeName(op) != "" && ww < 4 && imm < TWO16 && s.Valid() && j < 4
    requires a > 0 || op == 0x54
    ensures var bank := BankOf(SimRisc.WydeClass(op));
            var o := Step(op * 0x100_0000 + a * 0x4_0000 + ww * 0x1_0000 + imm, s);
            && o.Some?
            && o.value == s.Put(bank, a, o.value.Get(bank, a)).(pc := Wrap(s.pc + 4))
            && WydeBecomes(SimRisc.WydeName(op), j == ww, Split(s.Get(bank, a)).At(j), imm, Split(o.value.Get(bank, a)).At(j))
  {
    var bank, kind := BankOf(SimRisc.WydeClass(op)), KindOf(SimRisc.WydeName(op));
    WydeDecodes(op, a, ww, imm);
    var was := Split(s.Get(bank, a));
    SplitValue(s.Get(bank, a));
    WydeEffectValid(kind, was, ww, imm);
    var v := WydeEffect(kind, was, ww, imm);
    ValueSplit(v);
    WydeNames(SimRisc.WydeName(op), was, ww, imm, j);
    WydeStep(kind, bank, a, ww, imm, s);
    hide SimRisc.WydeName, SimRisc.WydeClass, BankOf, KindOf, Decode, WydeEffect, WydeBecomes, Split, Exec, State.Get, State.Put, Wydes.Value;
  }

  lemma WydeStep(kind: WydeKind, bank: Bank, a: Reg, ww: nat, imm: nat, s: State)
    requires ww < 4 && imm < TWO16 && s.Valid() && (a > 0 || bank == RF)
    ensures var v := WydeEffect(kind, Split(s.Get(bank, a)), ww, imm);
            var o := Exec(WydeImm(kind, bank, a, ww, imm), s);
            && v.Value() < TWO64 && o == Some(s.Put(bank, a, v.Value()).(pc := Wrap(s.pc + 4)))
            && o.value.Get(bank, a) == v.Value()
  {
    WydeEffectValid(kind, Split(s.Get(bank, a)), ww, imm);
    ValueSplit(WydeEffect(kind, Split(s.Get(bank, a)), ww, imm));
    hide WydeEffect, Split, Wydes.Value, Wrap;
  }

  function KindOf(name: string): WydeKind {
    if name == "setzw" then SetZw else if name == "setow" then SetOw
    else if name == "orw" then OrW else if name == "andnw" then AndNW else SetW
  }

  lemma WydeDecodes(op: nat, a: Reg, ww: nat, imm: nat)
    requires SimRisc.WydeName(op) != "" && ww < 4 && imm < TWO16
    ensures Decode(op * 0x100_0000 + a * 0x4_0000 + ww * 0x1_0000 + imm)
         == WydeImm(KindOf(SimRisc.WydeName(op)), BankOf(SimRisc.WydeClass(op)), a, ww, imm)
  {
    HighFields(op, a, ww * 0x1_0000 + imm);
    DivMod((op * 64 + a) * 4 + ww, imm, 0x1_0000);
    DivMod(op * 64 + a, ww, 4);
    hide Op, FA;
  }

  lemma WydeNames(name: string, was: Wydes, ww: nat, imm: nat, j: nat)
    requires name in ["setzw", "setow", "orw", "andnw", "setw"] && ww < 4 && imm < TWO16 && was.Valid() && j < 4
    ensures WydeBecomes(name, j == ww, was.At(j), imm, WydeEffect(KindOf(name), was, ww, imm).At(j))
  {
    hide Or, AndNot, Bit;
    forall k: nat
      ensures Bit(Or(was.At(ww), imm), k) <==> Bit(was.At(ww), k) || Bit(imm, k)
      ensures Bit(AndNot(was.At(ww), imm), k) <==> Bit(was.At(ww), k) && !Bit(imm, k)
    {
      OrBit(was.At(ww), imm, k);
      AndNotBit(was.At(ww), imm, k);
    }
  }

  /** A count of zero, and registers beyond the last one, are illegal. */
  lemma MultiIllegal(op: nat, a: Reg, b: Reg, c: Reg, d: Reg, s: State)
    requires SimRisc.MultiName(op) != "" && s.Valid()
    ensures Step(Word(op, a, b, c, d), s).None? <==> d == 0 || a + d > 64
  {
    MultiDecodes(op, a, b, c, d);
    hide SimRisc.MultiName, SimRisc.MultiClass, BankOf, LetterSize, Decode, Word, State.Get, State.Valid, LdLoop, StLoop;
  }
}

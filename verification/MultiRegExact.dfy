/** When the single-register expansion of a multi-register access is the access:
    for every operand list that fails the condition, a state that shows it. */
module MultiRegExact {
  import opened Bits
  import opened Machine
  import opened Cells
  import opened MultiReg

  /** The expansion does what the one instruction does, from this state. */
  ghost predicate Agrees(m: Mem, s: State)
    requires m.Valid() && s.Valid()
  {
    && Exec(m.Whole(), s).Some?
    && RunIns(m.Expansion(), s) == Some(Exec(m.Whole(), s).value.(pc := Wrap(s.pc + 8 * m.n)))
  }

  // ------------------------------------------- the expansion, step by step

  function Addr(m: Mem, t: State): int
    requires t.Valid()
  {
    t.Get(RB, m.base) + t.Get(RD, m.index)
  }

  /** The k-th single access from state t. */
  function Access(m: Mem, t: State, k: nat): (u: State)
    requires m.Valid() && t.Valid() && k < m.n
    ensures u.Valid() && u.pc == Wrap(t.pc + 4)
  {
    if m.load then Next(t.Put(m.bank, m.reg + k, LoadElem(t.mem, Addr(m, t), m.size, m.signed)))
    else Next(t.(mem := StoreLE(t.mem, Addr(m, t), m.size, t.Get(m.bank, m.reg + k))))
  }

  function Stepped(m: Mem, t: State): (u: State)
    requires m.Valid() && t.Valid()
    ensures u.Valid() && u.mem == t.mem && u.pc == Wrap(t.pc + 4)
  {
    Next(t.Put(RD, m.index, Wrap(t.Get(RD, m.index) + m.size)))
  }

  /** The state after j accesses with the steps between them. */
  function After(m: Mem, s: State, j: nat): (t: State)
    requires m.Valid() && s.Valid() && 1 <= j <= m.n
    ensures t.Valid()
  {
    if j == 1 then Access(m, s, 0) else Access(m, Stepped(m, After(m, s, j - 1)), j - 1)
  }

  lemma OneIsAccess(m: Mem, t: State, k: nat)
    requires m.Valid() && t.Valid() && k < m.n
    ensures Exec(m.One(k), t) == Some(Access(m, t, k))
  {
    hide Exec, LoadElem, StoreLE, State.Get, State.Put;
    if m.load { ExecLoad(m, t, k); } else { ExecStore(m, t, k); }
  }

  lemma {:induction false} PrefixIsAfter(m: Mem, s: State, j: nat)
    requires m.Valid() && s.Valid() && 1 <= j <= m.n
    ensures RunIns(m.Prefix(j), s) == Some(After(m, s, j))
  {
    hide Exec, RunIns, Access, Stepped;
    if j == 1 {
      RunInsOne(m.One(0), s);
      OneIsAccess(m, s, 0);
    } else {
      var t := After(m, s, j - 1);
      PrefixIsAfter(m, s, j - 1);
      RunInsAppend(m.Prefix(j - 1), [AddI(m.index, m.index, m.size), m.One(j - 1)], s);
      StepIs(m, t);
      RunInsTwo(AddI(m.index, m.index, m.size), m.One(j - 1), t);
      OneIsAccess(m, Stepped(m, t), j - 1);
    }
  }

  lemma StepIs(m: Mem, t: State)
    requires m.Valid() && t.Valid()
    ensures Exec(AddI(m.index, m.index, m.size), t) == Some(Stepped(m, t))
  {
    hide Exec, State.Get, State.Put;
    ExecAddI(m.index, m.size, t);
  }

  function Restored(m: Mem, t: State): (u: State)
    requires m.Valid() && t.Valid()
    ensures u.Valid() && u.mem == t.mem
  {
    Next(t.Put(RD, m.index, Wrap(t.Get(RD, m.index) - m.size * (m.n - 1))))
  }

  lemma ExpansionIs(m: Mem, s: State)
    requires m.Valid() && s.Valid()
    ensures RunIns(m.Expansion(), s) == Some(Restored(m, After(m, s, m.n)))
  {
    hide Exec, RunIns, After, State.Get, State.Put;
    var back := AddI(m.index, m.index, -(m.size * (m.n - 1)));
    PrefixIsAfter(m, s, m.n);
    RunInsAppend(m.Prefix(m.n), [back], s);
    RunInsOne(back, After(m, s, m.n));
    ExecAddI(m.index, -(m.size * (m.n - 1)), After(m, s, m.n));
  }

  /** Any register or byte that ends up different is a disagreement. */
  lemma Disagrees(m: Mem, s: State, b: Bank, r: Reg)
    requires m.Valid() && s.Valid() && (b != RB || r != 0)
    requires Restored(m, After(m, s, m.n)).Get(b, r) != m.Part(s, m.n).Get(b, r)
    ensures !Agrees(m, s)
  {
    hide Exec, RunIns, After, Restored, Mem.Part;
    ExpansionIs(m, s);
    WholeIsPart(m, s);
  }

  lemma DisagreesInMemory(m: Mem, s: State)
    requires m.Valid() && s.Valid()
    requires After(m, s, m.n).mem != m.Part(s, m.n).mem
    ensures !Agrees(m, s)
  {
    hide Exec, RunIns, After, Restored, Mem.Part;
    ExpansionIs(m, s);
    WholeIsPart(m, s);
  }

  // ---------------------------------------------------- the witness states

  function Zeros(): (z: seq<Octa>)
    ensures |z| == 64 && forall i :: 0 <= i < 64 ==> z[i] == 0
  {
    seq(64, _ => 0)
  }

  /** All registers and the pc zero. */
  function Blank(mem: Memory): (s: State)
    ensures s.Valid()
  {
    State(Zeros(), Zeros(), Zeros(), Zeros(), mem, 0)
  }

  lemma BlankGet(mem: Memory, b: Bank, r: Reg)
    ensures Blank(mem).Get(b, r) == 0
  {
  }

  lemma {:induction false} LoadZeros(m: Memory, a: int, size: nat)
    requires forall x: int :: a <= x < a + size ==> ByteAt(m, x) == 0
    ensures LoadLE(m, a, size) == 0
    decreases size
  {
    hide ByteAt, Pow2;
    if size > 0 { LoadZeros(m, a + 1, size - 1); }
  }

  lemma WrapLow(x: int)
    ensures Wrap(x) % 256 == x % 256
  {
    var q := x / TWO64;
    assert x == (q * 0x100_0000_0000_0000) * 256 + Wrap(x);
    DivModLow(q * 0x100_0000_0000_0000, Wrap(x));
  }

  lemma DivModLow(k: int, y: int)
    ensures (k * 256 + y) % 256 == y % 256
  {
  }

  /** The low byte of an element is the first byte in memory. */
  lemma ElemLow(m: Memory, a: int, size: nat, signed: bool)
    requires size >= 1
    ensures LoadElem(m, a, size, signed) % 256 == ByteAt(m, a)
  {
    var v := LoadLE(m, a, size);
    assert v % 256 == ByteAt(m, a) by { DivMod(LoadLE(m, a + 1, size - 1), ByteAt(m, a), 256); }
    PowStep8(size - 1);
    DivModLow(0 - Pow2(8 * (size - 1)), v);
    hide LoadLE, ByteAt, Pow2;
    WrapLow(v);
    WrapLow(v - Pow2(8 * size));
    hide Wrap;
  }

  lemma ElemZero(m: Memory, a: int, size: nat, signed: bool)
    requires LoadLE(m, a, size) == 0
    ensures LoadElem(m, a, size, signed) == 0
  {
    hide LoadLE, Pow2;
    WrapAdd(0, 0);
  }

  // ---------------------------------------- loads: the second register

  /** Loads after the second access leave the second register alone. */
  lemma {:induction false} LoadsKeep(m: Mem, s: State, j: nat)
    requires m.Valid() && s.Valid() && m.load && 2 <= j <= m.n && !(m.bank == RD && m.index == m.reg + 1)
    ensures After(m, s, j).mem == s.mem
    ensures After(m, s, j).Get(m.bank, m.reg + 1) == After(m, s, 2).Get(m.bank, m.reg + 1)
  {
    hide LoadElem, Wrap, State.Valid;
    if j > 2 {
      LoadsKeep(m, s, j - 1);
      KeepsOther(m, After(m, s, j - 1), j - 1, m.bank, m.reg + 1);
    } else {
      KeepsMemory(m, s);
    }
  }

  lemma KeepsMemory(m: Mem, s: State)
    requires m.Valid() && s.Valid() && m.load && 2 <= m.n
    ensures After(m, s, 1).mem == s.mem && After(m, s, 2).mem == s.mem
  {
    hide LoadElem, Wrap;
    assert After(m, s, 2) == Access(m, Stepped(m, After(m, s, 1)), 1);
  }

  lemma KeepsOther(m: Mem, t: State, k: nat, b: Bank, r: Reg)
    requires m.Valid() && t.Valid() && m.load && k < m.n && (b != RB || r != 0)
    requires !(b == RD && r == m.index) && !(b == m.bank && r == m.reg + k)
    ensures Access(m, Stepped(m, t), k).Get(b, r) == t.Get(b, r)
    ensures Access(m, Stepped(m, t), k).mem == t.mem
  {
    hide LoadElem, Wrap;
    PutGet(t, RD, m.index, Wrap(t.Get(RD, m.index) + m.size), b, r);
    var u := Stepped(m, t);
    PutGet(u, m.bank, m.reg + k, LoadElem(u.mem, Addr(m, u), m.size, m.signed), b, r);
  }

  lemma SecondLoad(m: Mem, s: State)
    requires m.Valid() && s.Valid() && m.load && 2 <= m.n
    ensures var t := Stepped(m, After(m, s, 1));
            After(m, s, 2).Get(m.bank, m.reg + 1) == LoadElem(s.mem, Addr(m, t), m.size, m.signed)
  {
    KeepsMemory(m, s);
    var t := Stepped(m, After(m, s, 1));
    hide LoadElem, Wrap;
    assert After(m, s, 2) == Access(m, t, 1);
    PutGet(t, m.bank, m.reg + 1, LoadElem(t.mem, Addr(m, t), m.size, m.signed), m.bank, m.reg + 1);
  }

  lemma LdTwo(s: State, b: Bank, r: nat, a: int, n: nat, size: nat, sg: bool)
    requires s.Valid() && r + n <= 64 && n >= 2
    ensures var s1 := s.Put(b, r, LoadElem(s.mem, a, size, sg));
            var s2 := s1.Put(b, r + 1, LoadElem(s1.mem, a + size, size, sg));
            LdLoop(s, b, r, a, n, size, sg) == LdLoop(s2, b, r + 2, a + size + size, n - 2, size, sg)
  {
    hide LoadElem, State.Put, State.Valid;
    var s1 := s.Put(b, r, LoadElem(s.mem, a, size, sg));
    assert LdLoop(s, b, r, a, n, size, sg) == LdLoop(s1, b, r + 1, a + size, n - 1, size, sg);
  }

  lemma LdSecond(s: State, b: Bank, r: nat, r1: Reg, a: int, n: nat, size: nat, sg: bool)
    requires s.Valid() && r + n <= 64 && n >= 2 && r1 == r + 1
    ensures LdLoop(s, b, r, a, n, size, sg).Get(b, r1) == LoadElem(s.mem, a + size, size, sg)
  {
    hide LoadElem, LdLoop, State.Put, State.Get, State.Valid;
    LdTwo(s, b, r, a, n, size, sg);
    var s1 := s.Put(b, r, LoadElem(s.mem, a, size, sg));
    var e := LoadElem(s1.mem, a + size, size, sg);
    PutGet(s1, b, r1, e, b, r1);
    LdLoopFrame(s1.Put(b, r1, e), b, r + 2, a + size + size, n - 2, size, sg, b, r1);
  }

  lemma WholeSecond(m: Mem, s: State)
    requires m.Valid() && s.Valid() && m.load && 2 <= m.n
    ensures m.Part(s, m.n).Get(m.bank, m.reg + 1) == LoadElem(s.mem, Addr(m, s) + m.size, m.size, m.signed)
  {
    hide LoadElem, LdLoop, State.Get, State.Valid;
    LdSecond(s, m.bank, m.reg, m.reg + 1, Addr(m, s), m.n, m.size, m.signed);
  }

  lemma RestoredGet(m: Mem, t: State, b: Bank, r: Reg)
    requires m.Valid() && t.Valid() && (b != RB || r != 0) && !(b == RD && r == m.index)
    ensures Restored(m, t).Get(b, r) == t.Get(b, r)
  {
    hide Wrap;
    PutGet(t, RD, m.index, Wrap(t.Get(RD, m.index) - m.size * (m.n - 1)), b, r);
  }

  lemma SecondValues(m: Mem, s: State, r: Reg, x: int, y: int)
    requires m.Valid() && s.Valid() && m.load && 2 <= m.n && !(m.bank == RD && m.index == m.reg + 1) && r == m.reg + 1
    requires x == Addr(m, Stepped(m, After(m, s, 1))) && y == Addr(m, s) + m.size
    ensures Restored(m, After(m, s, m.n)).Get(m.bank, r) == LoadElem(s.mem, x, m.size, m.signed)
    ensures m.Part(s, m.n).Get(m.bank, r) == LoadElem(s.mem, y, m.size, m.signed)
  {
    hide LoadElem, After, Stepped, Wrap, Mem.Part, State.Get, Addr, Restored, State.Valid;
    LoadsKeep(m, s, m.n);
    SecondLoad(m, s);
    WholeSecond(m, s);
    RestoredGet(m, After(m, s, m.n), m.bank, r);
  }

  /** Different first bytes of the second element show in the second register. */
  lemma SecondDiffers(m: Mem, s: State, x: int, y: int)
    requires m.Valid() && s.Valid() && m.load && 2 <= m.n && !(m.bank == RD && m.index == m.reg + 1)
    requires x == Addr(m, Stepped(m, After(m, s, 1))) && y == Addr(m, s) + m.size
    requires ByteAt(s.mem, x) != ByteAt(s.mem, y)
    ensures !Agrees(m, s)
  {
    var r: Reg := m.reg + 1;
    hide LoadElem, ByteAt, After, Stepped, Wrap, Mem.Part, State.Get, Addr, Restored, Agrees, State.Valid;
    SecondValues(m, s, r, x, y);
    ElemLow(s.mem, x, m.size, m.signed);
    ElemLow(s.mem, y, m.size, m.signed);
    Disagrees(m, s, m.bank, r);
  }

  lemma SteppedGet(m: Mem, t: State)
    requires m.Valid() && t.Valid()
    ensures Stepped(m, t).Get(RD, m.index) == if m.index == 0 then 0 else Wrap(t.Get(RD, m.index) + m.size)
    ensures Stepped(m, t).Get(RB, m.base) == if m.base == 0 then Wrap(t.pc + 4) else t.Get(RB, m.base)
  {
    hide Wrap;
    var y := Wrap(t.Get(RD, m.index) + m.size);
    PutGet(t, RD, m.index, y, RD, m.index);
    PutGet(t, RD, m.index, y, RB, m.base);
    RdZero(t);
  }

  lemma RdZero(t: State)
    requires t.Valid()
    ensures t.Get(RD, 0) == 0 && t.Get(RB, 0) == t.pc
  {
  }

  lemma BlankFirst(m: Mem, mem: Memory)
    requires m.Valid() && m.load && 2 <= m.n
    ensures Addr(m, Blank(mem)) == 0
    ensures After(m, Blank(mem), 1).pc == 4
    ensures m.base != 0 ==> After(m, Blank(mem), 1).Get(RB, m.base) == 0
    ensures var loaded := m.bank == RD && m.index == m.reg;
            m.index != 0 ==>
              After(m, Blank(mem), 1).Get(RD, m.index) == if loaded then LoadElem(mem, 0, m.size, m.signed) else 0
  {
    var s, e := Blank(mem), LoadElem(mem, 0, m.size, m.signed);
    BlankGet(mem, RD, m.index);
    BlankGet(mem, RB, m.base);
    assert s.mem == mem && s.pc == 0;
    hide LoadElem, Blank;
    PutGet(s, m.bank, m.reg, e, RD, m.index);
    PutGet(s, m.bank, m.reg, e, RB, m.base);
    assert After(m, s, 1) == Next(s.Put(m.bank, m.reg, e));
  }

  /** Where the second access of the expansion loads from, all registers zero at first. */
  lemma BlankSecond(m: Mem, mem: Memory)
    requires m.Valid() && m.load && 2 <= m.n
    ensures Addr(m, Blank(mem)) == 0
    ensures Addr(m, Stepped(m, After(m, Blank(mem), 1)))
         == (if m.base == 0 then 8 else 0)
          + (if m.index == 0 then 0
             else if m.bank == RD && m.index == m.reg then Wrap(LoadElem(mem, 0, m.size, m.signed) + m.size)
             else m.size)
  {
    hide LoadElem, Blank, After, Stepped, State.Get, State.Valid, Mem.Valid;
    BlankFirst(m, mem);
    SteppedGet(m, After(m, Blank(mem), 1));
    assert Wrap(4 + 4) == 8 && (m.size <= 8 ==> Wrap(0 + m.size) == m.size);
    assert m.size <= 8 by { SizeAtMost8(m); }
  }

  lemma SizeAtMost8(m: Mem)
    requires m.Valid()
    ensures 1 <= m.size <= 8
  {
  }

  /** A base of rb0 or an index of rd0: a byte in the second element that the
      expansion does not reach. */
  lemma FixedRegisterLoad(m: Mem)
    requires m.Valid() && m.load && 2 <= m.n && (m.base == 0 || m.index == 0)
    requires m.index != 0 ==> m.IndexFree()
    requires m.base == 0 && m.index == 0 ==> m.size != 8
    ensures !Agrees(m, Blank(map[m.size := 1]))
  {
    var mem: Memory := map[m.size := 1];
    assert !(m.bank == RD && m.index == m.reg && m.index != 0) && !(m.bank == RD && m.index == m.reg + 1);
    SizeAtMost8(m);
    hide Mem.Valid, Mem.IndexFree, After, Stepped, Addr, Agrees, Blank, LoadElem, State.Get, State.Valid;
    BlankSecond(m, mem);
    var x := Addr(m, Stepped(m, After(m, Blank(mem), 1)));
    OneByte(m.size, x);
    BlankMem(mem);
    SecondDiffers(m, Blank(mem), x, m.size);
  }

  lemma OneByte(at: nat, x: nat)
    requires at < 100 && x < 100 && x != at
    ensures ByteAt(map[at := 1], at) == 1 && ByteAt(map[at := 1], x) == 0
  {
  }

  lemma BlankMem(mem: Memory)
    ensures Blank(mem).mem == mem && Blank(mem).pc == 0
  {
  }

  /** The index is the first register loaded: the next address starts from what was loaded. */
  lemma FirstLoadedIndex(m: Mem)
    requires m.Valid() && m.load && 2 <= m.n && m.bank == RD && m.index == m.reg && m.index != 0
    ensures exists s: State :: s.Valid() && !Agrees(m, s)
  {
    hide ByteAt, After, Stepped, Agrees, Blank, LoadElem, Wrap, State.Get, State.Valid, Addr;
    var x := (if m.base == 0 then 8 else 0) + 1 + m.size;
    var mem: Memory := map[0 := 1, x := 1];
    OnesAt(x, m.size);
    FirstElemOne(mem, m.size, m.signed);
    BlankSecond(m, mem);
    WrapAdd(1 + m.size, 0);
    BlankAddr(m, mem);
    SecondDiffers(m, Blank(mem), x, m.size);
  }

  /** A memory of two ones, at 0 and beyond the first element. */
  lemma OnesAt(x: int, size: nat)
    requires 1 <= size < x < 100
    ensures var mem: Memory := map[0 := 1, x := 1];
            && ByteAt(mem, x) == 1 && ByteAt(mem, 0) == 1
            && forall y: int :: 1 <= y <= size ==> ByteAt(mem, y) == 0
  {
  }

  lemma FirstElemOne(mem: Memory, size: nat, signed: bool)
    requires size in {1, 2, 4, 8} && ByteAt(mem, 0) == 1
    requires forall x: int :: 1 <= x < size ==> ByteAt(mem, x) == 0
    ensures LoadElem(mem, 0, size, signed) == 1
  {
    hide ByteAt;
    LoadZeros(mem, 1, size - 1);
    Pow2Values();
    PowAtLeast(8 * size - 1);
    WrapAdd(1, 0);
    hide Pow2;
  }

  lemma PowAtLeast(k: nat)
    requires k >= 1
    ensures Pow2(k) >= 2
  {
  }

  // ------------------------------- loads: the index among the later registers

  lemma EmptyZero(a: int, size: nat, signed: bool)
    ensures LoadElem(map[], a, size, signed) == 0
  {
    LoadZeros(map[], a, size);
    ElemZero(map[], a, size, signed);
  }

  /** The index after j accesses: it counts up from where it was loaded itself. */
  function ZeroIndex(size: nat, k: nat, j: nat): int {
    if j <= k then size * (j - 1) else size * (j - 1 - k)
  }

  lemma ZeroIndexStep(size: nat, k: nat, j: nat)
    requires size <= 8 && 1 <= k && 2 <= j <= 64
    ensures if j - 1 == k then ZeroIndex(size, k, j) == 0
            else ZeroIndex(size, k, j) == Wrap(ZeroIndex(size, k, j - 1) + size)
  {
    Spread(size, j - 2, 1);
    Spread(size, j - 2 - k, 1);
    MulMono(j - 1, size, 8);
    if j > k { MulMono(j - 1 - k, size, 8); }
    WrapAdd(ZeroIndex(size, k, j - 1) + size, 0);
  }

  lemma AfterMore(m: Mem, s: State, j: nat)
    requires m.Valid() && s.Valid() && 2 <= j <= m.n
    ensures After(m, s, j) == Access(m, Stepped(m, After(m, s, j - 1)), j - 1)
  {
    hide Access, Stepped;
  }

  /** Loading zeros. */
  lemma {:induction false} ZeroLoads(m: Mem, k: nat, j: nat)
    requires m.Valid() && m.load && m.bank == RD && 1 <= k < m.n && m.index == m.reg + k && 1 <= j <= m.n
    ensures After(m, Blank(map[]), j).mem == map[]
    ensures After(m, Blank(map[]), j).Get(RD, m.index) == ZeroIndex(m.size, k, j)
  {
    hide After, Access, Stepped, ZeroIndex, Wrap, Blank, State.Get, State.Valid;
    var s := Blank(map[]);
    if j == 1 {
      BlankMem(map[]);
      ZeroFirst(m, s);
      BlankGet(map[], RD, m.index);
      ZeroIndexFirst(m.size, k);
    } else {
      ZeroLoads(m, k, j - 1);
      AfterMore(m, s, j);
      ZeroStep(m, After(m, s, j - 1), j - 1);
      ZeroIndexStep(m.size, k, j);
    }
  }

  lemma ZeroIndexFirst(size: nat, k: nat)
    requires k >= 1
    ensures ZeroIndex(size, k, 1) == 0
  {
  }

  lemma ZeroFirst(m: Mem, s: State)
    requires m.Valid() && s.Valid() && m.load && m.bank == RD && m.index != m.reg && s.mem == map[]
    ensures After(m, s, 1).mem == map[]
    ensures After(m, s, 1).Get(RD, m.index) == s.Get(RD, m.index)
  {
    EmptyZero(Addr(m, s), m.size, m.signed);
    hide LoadElem, Wrap;
    PutGet(s, RD, m.reg, 0, RD, m.index);
  }

  lemma Spread(x: int, a: int, b: int)
    ensures x * (a + b) == x * a + x * b
  {
  }

  lemma ZeroStep(m: Mem, t: State, k: nat)
    requires m.Valid() && t.Valid() && m.load && m.bank == RD && k < m.n && m.index != 0 && t.mem == map[]
    ensures Access(m, Stepped(m, t), k).mem == map[]
    ensures Access(m, Stepped(m, t), k).Get(RD, m.index)
         == if m.index == m.reg + k then 0 else Wrap(t.Get(RD, m.index) + m.size)
  {
    var u := Stepped(m, t);
    EmptyZero(Addr(m, u), m.size, m.signed);
    hide LoadElem, Wrap;
    PutGet(t, RD, m.index, Wrap(t.Get(RD, m.index) + m.size), RD, m.index);
    PutGet(u, RD, m.reg + k, 0, RD, m.index);
  }

  lemma {:induction false} WholeZero(s: State, r: nat, a: int, n: nat, size: nat, sg: bool, x: Reg)
    requires s.Valid() && r + n <= 64 && s.mem == map[] && s.Get(RD, x) == 0
    ensures LdLoop(s, RD, r, a, n, size, sg).Get(RD, x) == 0
    decreases n
  {
    if n > 0 {
      EmptyZero(a, size, sg);
      hide LoadElem;
      PutGet(s, RD, r, 0, RD, x);
      hide State.Get, State.Put, State.Valid;
      WholeZero(s.Put(RD, r, 0), r + 1, a + size, n - 1, size, sg, x);
    }
  }

  /** The index is loaded after the first access: the last step takes away more
      than was added since. */
  lemma LaterLoadedIndex(m: Mem, k: nat)
    requires m.Valid() && m.load && m.bank == RD && 1 <= k < m.n && m.index == m.reg + k
    ensures !Agrees(m, Blank(map[]))
  {
    hide After, Blank, Wrap, Restored, Agrees, LdLoop, State.Get, State.Valid, ZeroIndex;
    var s := Blank(map[]);
    ZeroLoads(m, k, m.n);
    BlankGet(map[], RD, m.index);
    BlankMem(map[]);
    WholeZero(s, m.reg, Addr(m, s), m.n, m.size, m.signed, m.index);
    RestoredIndex(m, After(m, s, m.n));
    LessThanNothing(m.size, k, m.n);
    Disagrees(m, s, RD, m.index);
  }

  lemma RestoredIndex(m: Mem, t: State)
    requires m.Valid() && t.Valid() && m.index != 0
    ensures Restored(m, t).Get(RD, m.index) == Wrap(t.Get(RD, m.index) - m.size * (m.n - 1))
  {
    var y := Wrap(t.Get(RD, m.index) - m.size * (m.n - 1));
    hide Wrap;
    PutGet(t, RD, m.index, y, RD, m.index);
  }

  lemma LessThanNothing(size: nat, k: nat, n: nat)
    requires 1 <= size <= 8 && 1 <= k < n <= 64
    ensures Wrap(ZeroIndex(size, k, n) - size * (n - 1)) != 0
  {
    Spread(size, n - 1 - k, k);
    MulMono(k, size, 8);
    MulMono(size, 1, k);
    WrapAdd(TWO64 - size * k, 0);
  }

  // ----------------------------------------- stores: where the accesses go

  /** How far apart consecutive accesses of the expansion are. */
  function Stride(m: Mem): nat { (if m.base == 0 then 8 else 0) + (if m.index == 0 then 0 else m.size) }

  /** A state whose addresses are small: a zero base and pc, an index of 0 or 1. */
  predicate NearZero(m: Mem, s: State) {
    s.Valid() && s.pc == 0 && (m.base != 0 ==> s.Get(RB, m.base) == 0) && s.Get(RD, m.index) <= 1
  }

  lemma StoreGet(m: Mem, t: State, k: nat, b: Bank, r: Reg)
    requires m.Valid() && t.Valid() && !m.load && k < m.n && (b != RB || r != 0)
    ensures Access(m, t, k).Get(b, r) == t.Get(b, r)
  {
    hide StoreLE, Wrap;
  }

  /** The pc, the index and the base after j stores. */
  ghost predicate Tracked(m: Mem, s: State, t: State, j: nat)
    requires s.Valid() && t.Valid()
  {
    && t.pc == 8 * j - 4
    && (m.base != 0 ==> t.Get(RB, m.base) == 0)
    && t.Get(RD, m.index) == if m.index == 0 then 0 else s.Get(RD, m.index) + m.size * (j - 1)
  }

  lemma {:induction false} StoresTracked(m: Mem, s: State, j: nat)
    requires m.Valid() && !m.load && NearZero(m, s) && 1 <= j <= m.n
    ensures Tracked(m, s, After(m, s, j), j)
  {
    hide Wrap, StoreLE, State.Get, State.Valid;
    RdZero(s);
    if j == 1 {
      assert After(m, s, 1) == Access(m, s, 0);
      hide After, Access;
      AccessPc(m, s, 0);
      StoreGet(m, s, 0, RD, m.index);
      if m.base != 0 { StoreGet(m, s, 0, RB, m.base); }
      assert m.size * 0 == 0;
    } else {
      AfterMore(m, s, j);
      hide After, Access;
      StoresTracked(m, s, j - 1);
      StepTracked(m, s, After(m, s, j - 1), j - 1);
    }
  }

  lemma AccessPc(m: Mem, t: State, k: nat)
    requires m.Valid() && t.Valid() && k < m.n && t.pc < 0x1000
    ensures Access(m, t, k).pc == t.pc + 4 && Stepped(m, t).pc == t.pc + 4
  {
    WrapAdd(t.pc + 4, 0);
    hide Wrap, State.Put, State.Get, StoreLE, LoadElem;
  }

  /** After a step the pc is 8 times the number of the coming access. */
  lemma StepGets(m: Mem, s: State, t: State, j: nat)
    requires m.Valid() && NearZero(m, s) && t.Valid() && 1 <= j < m.n && Tracked(m, s, t, j)
    ensures Stepped(m, t).pc == 8 * j
    ensures m.base != 0 ==> Stepped(m, t).Get(RB, m.base) == 0
    ensures Stepped(m, t).Get(RD, m.index) == if m.index == 0 then 0 else s.Get(RD, m.index) + m.size * j
  {
    SizeAtMost8(m);
    hide State.Get, State.Valid, Stepped, Mem.Valid, Wrap;
    SteppedGet(m, t);
    AccessPc(m, t, j);
    Spread(m.size, j - 1, 1);
    MulMono(j, m.size, 8);
    WrapAdd(t.Get(RD, m.index) + m.size, 0);
  }

  lemma StrideTimes(m: Mem, j: nat)
    ensures Stride(m) * j == (if m.base == 0 then 8 * j else 0) + (if m.index == 0 then 0 else m.size * j)
  {
    Spread(j, 8, m.size);
  }

  lemma StepAddr(m: Mem, s: State, t: State, j: nat)
    requires m.Valid() && NearZero(m, s) && t.Valid() && 1 <= j < m.n && Tracked(m, s, t, j)
    ensures Addr(m, Stepped(m, t)) == Addr(m, s) + Stride(m) * j
  {
    StepGets(m, s, t, j);
    StrideTimes(m, j);
    RdZero(s);
    RdZero(Stepped(m, t));
    hide State.Get, State.Valid, Stepped, Mem.Valid, Stride, Tracked;
  }

  /** One step and one store: what is tracked after it. */
  lemma StepTracked(m: Mem, s: State, t: State, j: nat)
    requires m.Valid() && !m.load && NearZero(m, s) && t.Valid() && 1 <= j < m.n && Tracked(m, s, t, j)
    ensures Tracked(m, s, Access(m, Stepped(m, t), j), j + 1)
  {
    StepGets(m, s, t, j);
    hide State.Get, State.Valid, Stepped, Access, NearZero;
    var u := Stepped(m, t);
    AccessPc(m, u, j);
    StoreGet(m, u, j, RD, m.index);
    if m.base != 0 { StoreGet(m, u, j, RB, m.base); }
  }

  // --------------------------- stores with a base of rb0 or an index of rd0

  /** Blank, but for a 1 in the second register stored. */
  function OneStored(m: Mem): (s: State)
    requires m.Valid() && 2 <= m.n
    ensures s.Valid() && s.mem == map[]
  {
    Blank(map[]).Put(m.bank, m.reg + 1, 1)
  }

  lemma OneStoredNear(m: Mem)
    requires m.Valid() && 2 <= m.n
    ensures NearZero(m, OneStored(m)) && OneStored(m).Get(m.bank, m.reg + 1) == 1
    ensures 0 <= Addr(m, OneStored(m)) <= 1
  {
    var s := Blank(map[]);
    BlankGet(map[], RD, m.index);
    BlankGet(map[], RB, m.base);
    BlankMem(map[]);
    hide Blank;
    PutGet(s, m.bank, m.reg + 1, 1, RD, m.index);
    PutGet(s, m.bank, m.reg + 1, 1, RB, m.base);
    PutGet(s, m.bank, m.reg + 1, 1, m.bank, m.reg + 1);
  }

  lemma NotInside(z: int, a: int, size: nat)
    requires (z >= a + size && z < a + 0x1000) || (z < a && z > a - 0x1000)
    requires size <= 8
    ensures !Inside(z, a, size)
  {
    WrapAdd(z - a, 0);
    WrapMultiple(z - a, 1);
    WrapAdd(z - a + TWO64, 0);
  }

  lemma FirstMisses(m: Mem, s: State, z: int)
    requires m.Valid() && !m.load && s.Valid() && 0 <= Addr(m, s) <= 1 && z == Addr(m, s) + m.size
    ensures ByteAt(After(m, s, 1).mem, z) == ByteAt(s.mem, z)
  {
    SizeAtMost8(m);
    AccessMem(m, s, 0);
    assert After(m, s, 1) == Access(m, s, 0);
    hide ByteAt, StoreLE, State.Get, State.Valid, Mem.Valid, Wrap, Inside, After, Access, Addr;
    NotInside(z, Addr(m, s), m.size);
    StoreFrame(s.mem, Addr(m, s), m.size, s.Get(m.bank, m.reg), z);
  }

  lemma NextMisses(m: Mem, s: State, t: State, j: nat, z: int)
    requires m.Valid() && !m.load && s.Valid() && NearZero(m, s) && 0 <= Addr(m, s) <= 1 && z == Addr(m, s) + m.size
    requires t.Valid() && 1 <= j < m.n && Tracked(m, s, t, j)
    requires Stride(m) * j == 0 || m.size < Stride(m) * j <= 1008
    ensures ByteAt(Access(m, Stepped(m, t), j).mem, z) == ByteAt(t.mem, z)
  {
    hide ByteAt, StoreLE, State.Get, State.Valid, Mem.Valid, NearZero, Wrap, Inside, Addr, Access, Stepped, Stride, Tracked;
    var u := Stepped(m, t);
    SizeAtMost8(m);
    SteppedMem(m, t);
    StepAddr(m, s, t, j);
    AccessMem(m, u, j);
    CountBound(m);
    NotInside(z, Addr(m, u), m.size);
    StoreFrame(u.mem, Addr(m, u), m.size, u.Get(m.bank, m.reg + j), z);
  }

  /** The first byte of the second element is never stored to. */
  lemma {:induction false} StoresMiss(m: Mem, s: State, j: nat)
    requires m.Valid() && !m.load && s.Valid() && NearZero(m, s) && 1 <= j <= m.n && 0 <= Addr(m, s) <= 1
    requires m.base == 0 || m.index == 0
    requires m.base == 0 && m.index == 0 ==> m.size != 8
    ensures ByteAt(After(m, s, j).mem, Addr(m, s) + m.size) == ByteAt(s.mem, Addr(m, s) + m.size)
  {
    hide ByteAt, State.Get, State.Valid, Mem.Valid, NearZero, After, Addr, Access, Stepped, Stride, Tracked;
    if j == 1 {
      FirstMisses(m, s, Addr(m, s) + m.size);
    } else {
      StoresMiss(m, s, j - 1);
      AfterMore(m, s, j);
      StoresTracked(m, s, j - 1);
      CountBound(m);
      StrideBound(m, j - 1);
      NextMisses(m, s, After(m, s, j - 1), j - 1, Addr(m, s) + m.size);
    }
  }

  lemma AccessMem(m: Mem, t: State, k: nat)
    requires m.Valid() && t.Valid() && !m.load && k < m.n
    ensures Access(m, t, k).mem == StoreLE(t.mem, Addr(m, t), m.size, t.Get(m.bank, m.reg + k))
  {
    hide StoreLE, State.Get, Wrap;
  }

  lemma StrideBound(m: Mem, j: nat)
    requires m.Valid() && 1 <= j < 64
    requires m.base == 0 || m.index == 0
    requires m.base == 0 && m.index == 0 ==> m.size != 8
    ensures Stride(m) * j == 0 || m.size < Stride(m) * j <= 1008
  {
    if Stride(m) > 0 {
      MulMono(Stride(m), 1, j);
      MulMono(j, Stride(m), 16);
    }
  }

  lemma StoreFirstByte(m: Memory, a: int, size: nat, v: nat)
    requires 1 <= size <= 8
    ensures ByteAt(StoreLE(m, a, size, v), a) == v % 256
  {
    var m1 := m[Wrap(a) := v % 256];
    assert ByteAt(m1, a) == v % 256;
    NotInside(a, a + 1, size - 1);
    hide ByteAt, Wrap, Inside;
    StoreFrame(m1, a + 1, size - 1, v / 256, a);
  }

  lemma {:induction false} StFrame(s: State, b: Bank, r: nat, a: int, n: nat, size: nat, x: int)
    requires s.Valid() && r + n <= 64 && a - 0x1000 < x < a && 1 <= size <= 8 && a - x + size * n < 0x1000
    ensures ByteAt(StLoop(s, b, r, a, n, size).mem, x) == ByteAt(s.mem, x)
    decreases n
  {
    hide ByteAt, StoreLE, State.Get, Inside;
    if n > 0 {
      Spread(size, n - 1, 1);
      assert size * (n - 1) + size == size * n;
      MulMono(size, 0, n - 1);
      assert a + size - x < 0x1000;
      NotInside(x, a, size);
      StoreFrame(s.mem, a, size, s.Get(b, r), x);
      StFrame(s.(mem := StoreLE(s.mem, a, size, s.Get(b, r))), b, r + 1, a + size, n - 1, size, x);
    }
  }

  lemma StTwo(s: State, b: Bank, r: nat, r1: Reg, a: int, n: nat, size: nat)
    requires s.Valid() && r + n <= 64 && n >= 2 && r1 == r + 1
    ensures exists s2: State :: s2.Valid()
              && s2.mem == StoreLE(StoreLE(s.mem, a, size, s.Get(b, r)), a + size, size, s.Get(b, r1))
              && StLoop(s, b, r, a, n, size) == StLoop(s2, b, r + 2, a + size + size, n - 2, size)
  {
    hide StoreLE;
    var s1 := s.(mem := StoreLE(s.mem, a, size, s.Get(b, r)));
    assert StLoop(s, b, r, a, n, size) == StLoop(s1, b, r + 1, a + size, n - 1, size);
    assert s1.Get(b, r1) == s.Get(b, r1);
    var s2 := s1.(mem := StoreLE(s1.mem, a + size, size, s1.Get(b, r1)));
    assert StLoop(s1, b, r + 1, a + size, n - 1, size) == StLoop(s2, b, r + 2, a + size + size, n - 2, size);
  }

  /** The one instruction stores the second register behind the first. */
  lemma WholeStoresSecond(s: State, b: Bank, r: nat, r1: Reg, a: int, n: nat, size: nat)
    requires s.Valid() && r + n <= 64 && n >= 2 && r1 == r + 1 && 1 <= size <= 8
    ensures ByteAt(StLoop(s, b, r, a, n, size).mem, a + size) == s.Get(b, r1) % 256
  {
    hide StLoop, StoreLE, ByteAt, State.Get, State.Valid;
    StTwo(s, b, r, r1, a, n, size);
    var s2: State :| s2.Valid()
              && s2.mem == StoreLE(StoreLE(s.mem, a, size, s.Get(b, r)), a + size, size, s.Get(b, r1))
              && StLoop(s, b, r, a, n, size) == StLoop(s2, b, r + 2, a + size + size, n - 2, size);
    StoreFirstByte(StoreLE(s.mem, a, size, s.Get(b, r)), a + size, size, s.Get(b, r1));
    MulMono(n - 2, size, 8);
    StFrame(s2, b, r + 2, a + size + size, n - 2, size, a + size);
  }

  /** The expansion leaves a byte of the second element as it was. */
  lemma FixedRegisterStore(m: Mem)
    requires m.Valid() && !m.load && 2 <= m.n && (m.base == 0 || m.index == 0)
    requires m.base == 0 && m.index == 0 ==> m.size != 8
    ensures !Agrees(m, OneStored(m))
  {
    hide ByteAt, After, Addr, Mem.Part, Mem.Valid, StLoop, Agrees, OneStored, State.Get, State.Valid, NearZero;
    var s := OneStored(m);
    SizeAtMost8(m);
    PartIsStore(m, s);
    OneStoredNear(m);
    StoresMiss(m, s, m.n);
    EmptyByte(Addr(m, s) + m.size);
    WholeStoresSecond(s, m.bank, m.reg, m.reg + 1, Addr(m, s), m.n, m.size);
    DisagreesInMemory(m, s);
  }

  lemma EmptyByte(x: int)
    ensures ByteAt(map[], x) == 0
  {
  }

  lemma PartIsStore(m: Mem, s: State)
    requires m.Valid() && s.Valid() && !m.load
    ensures m.Part(s, m.n) == StLoop(s, m.bank, m.reg, Addr(m, s), m.n, m.size) && m.reg + m.n <= 64
  {
    hide StLoop, State.Get;
  }

  // ------------------------- stores: the index among the later registers

  /** A register other than the index keeps its value through the expansion's stores. */
  lemma {:induction false} StoresKeep(m: Mem, s: State, j: nat, r: Reg)
    requires m.Valid() && !m.load && s.Valid() && 1 <= j <= m.n && r != m.index
    ensures After(m, s, j).Get(RD, r) == s.Get(RD, r)
  {
    hide State.Get, State.Valid, Mem.Valid, Access, Stepped;
    if j == 1 {
      StoreGet(m, s, 0, RD, r);
    } else {
      var t := After(m, s, j - 1);
      StoresKeep(m, s, j - 1, r);
      StepKeeps(m, t, r);
      StoreGet(m, Stepped(m, t), j - 1, RD, r);
    }
  }

  lemma StepKeeps(m: Mem, t: State, r: Reg)
    requires m.Valid() && t.Valid() && r != m.index
    ensures Stepped(m, t).Get(RD, r) == t.Get(RD, r)
  {
    hide Wrap;
    PutGet(t, RD, m.index, Wrap(t.Get(RD, m.index) + m.size), RD, r);
  }

  lemma BlankNear(m: Mem)
    ensures Blank(map[]).Valid() && NearZero(m, Blank(map[])) && Addr(m, Blank(map[])) == 0
  {
    BlankGet(map[], RD, m.index);
    BlankGet(map[], RB, m.base);
    BlankMem(map[]);
    hide Blank;
  }

  /** All registers zero at first: the j-th store goes to the j-th element. */
  lemma BlankStore(m: Mem, t: State, j: nat)
    requires m.Valid() && !m.load && m.base != 0 && m.index != 0 && 2 <= j <= m.n && t == After(m, Blank(map[]), j - 1)
    ensures Stepped(m, t).Get(RD, m.index) == m.size * (j - 1)
    ensures After(m, Blank(map[]), j).mem
         == StoreLE(t.mem, m.size * (j - 1), m.size, Stepped(m, t).Get(m.bank, m.reg + (j - 1)))
  {
    var s := Blank(map[]);
    hide State.Get, State.Valid, Mem.Valid, Access, Stepped, NearZero, After, StoreLE, Blank, Tracked, Stride;
    BlankNear(m);
    StoresTracked(m, s, j - 1);
    StepAddr(m, s, t, j - 1);
    StepGets(m, s, t, j - 1);
    StrideIs(m);
    BlankGet(map[], RD, m.index);
    AfterMore(m, s, j);
    AccessMem(m, Stepped(m, t), j - 1);
    SteppedMem(m, t);
  }

  lemma SteppedMem(m: Mem, t: State)
    requires m.Valid() && t.Valid()
    ensures Stepped(m, t).mem == t.mem
  {
    hide Wrap;
  }

  /** The index is stored after k steps: the element is how far it was stepped. */
  lemma IndexStored(m: Mem, k: nat)
    requires m.Valid() && !m.load && m.bank == RD && m.base != 0 && 1 <= k < m.n && m.index == m.reg + k
    ensures LoadLE(After(m, Blank(map[]), k + 1).mem, m.size * k, m.size) == m.size * k
  {
    hide State.Get, State.Valid, Mem.Valid, Stepped, After, LoadLE, StoreLE, Pow2, Blank;
    SizeAtMost8(m);
    ElementFits(m, k);
    var t := After(m, Blank(map[]), k);
    BlankStore(m, t, k + 1);
    LoadStore(t.mem, m.size * k, m.size, m.size * k);
  }

  lemma ElementFits(m: Mem, k: nat)
    requires m.Valid() && k < m.n
    ensures m.size * k < Pow2(8 * m.size)
  {
    hide Pow2;
    FitsElement(m.size, k);
  }

  lemma CountBound(m: Mem)
    requires m.Valid()
    ensures m.reg + m.n <= 64
  {
  }

  lemma ElementsApart(size: nat, k: nat, i: nat)
    requires 1 <= size <= 8 && k < i < 64
    ensures size * k + size <= size * i <= 504
  {
    Spread(size, k, i - k);
    MulMono(size, 1, i - k);
    MulMono(i, size, 8);
  }

  lemma StrideIs(m: Mem)
    ensures m.base != 0 && m.index != 0 ==> Stride(m) == m.size
  {
  }

  lemma FitsElement(size: nat, k: nat)
    requires size in {1, 2, 4, 8} && k <= 63
    ensures size * k < Pow2(8 * size)
  {
    Pow2Values();
    MulMono(k, size, 8);
    if size != 1 {
      PowAdd(16, 8 * size - 16);
    }
  }

  /** Stores to later elements leave an element alone. */
  lemma LaterStore(mem: Memory, a: int, b: int, size: nat, v: nat)
    requires a + size <= b < a + 0xFF0 && 1 <= size <= 8
    ensures LoadLE(StoreLE(mem, b, size, v), a, size) == LoadLE(mem, a, size)
  {
    hide ByteAt, StoreLE, Inside;
    var mem' := StoreLE(mem, b, size, v);
    forall x: int | a <= x < a + size ensures ByteAt(mem', x) == ByteAt(mem, x) {
      NotInside(x, b, size);
      StoreFrame(mem, b, size, v, x);
    }
    LoadSame(mem', mem, a, size);
  }

  lemma {:induction false} IndexStays(m: Mem, k: nat, j: nat)
    requires m.Valid() && !m.load && m.bank == RD && m.base != 0 && 1 <= k < j <= m.n && m.index == m.reg + k
    ensures LoadLE(After(m, Blank(map[]), j).mem, m.size * k, m.size) == m.size * k
  {
    hide State.Get, State.Valid, Mem.Valid, Stepped, After, LoadLE, StoreLE, Blank;
    var s := Blank(map[]);
    if j == k + 1 {
      IndexStored(m, k);
    } else {
      SizeAtMost8(m);
      CountBound(m);
      var t := After(m, s, j - 1);
      IndexStays(m, k, j - 1);
      BlankStore(m, t, j);
      ElementsApart(m.size, k, j - 1);
      LaterStore(t.mem, m.size * k, m.size * (j - 1), m.size, Stepped(m, t).Get(m.bank, m.reg + (j - 1)));
    }
  }

  lemma {:induction false} StoreZero(mem: Memory, a: int, size: nat, x: int)
    requires ByteAt(mem, x) == 0
    ensures ByteAt(StoreLE(mem, a, size, 0), x) == 0
    decreases size
  {
    if size > 0 {
      var m1 := mem[Wrap(a) := 0];
      assert ByteAt(m1, x) == 0;
      hide ByteAt, Wrap;
      StoreZero(m1, a + 1, size - 1, x);
    }
  }

  lemma {:induction false} StoresZero(s: State, r: nat, a: int, n: nat, size: nat, x: int)
    requires s.Valid() && r + n <= 64 && ByteAt(s.mem, x) == 0
    requires forall i: Reg :: s.Get(RD, i) == 0
    ensures ByteAt(StLoop(s, RD, r, a, n, size).mem, x) == 0
    decreases n
  {
    hide ByteAt, StoreLE;
    if n > 0 {
      StoreZero(s.mem, a, size, x);
      var s1 := s.(mem := StoreLE(s.mem, a, size, 0));
      assert forall i: Reg :: s1.Get(RD, i) == s.Get(RD, i);
      StoresZero(s1, r + 1, a + size, n - 1, size, x);
    }
  }

  /** All registers zero: the one instruction stores zeros, the expansion does not. */
  lemma LaterStoredIndex(m: Mem, k: nat)
    requires m.Valid() && !m.load && m.bank == RD && m.base != 0 && 1 <= k < m.n && m.index == m.reg + k
    ensures !Agrees(m, Blank(map[]))
  {
    var s := Blank(map[]);
    IndexStays(m, k, m.n);
    SizeAtMost8(m);
    MulMono(m.size, 1, k);
    PartIsStore(m, s);
    BlankMem(map[]);
    forall i: Reg ensures s.Get(RD, i) == 0 { BlankGet(map[], RD, i); }
    var whole := m.Part(s, m.n).mem;
    hide ByteAt, After, Addr, Mem.Part, Mem.Valid, StLoop, Agrees, Blank, State.Get, State.Valid, LoadLE;
    forall x: int ensures ByteAt(whole, x) == 0 {
      EmptyByte(x);
      StoresZero(s, m.reg, Addr(m, s), m.n, m.size, x);
    }
    LoadZeros(whole, m.size * k, m.size);
    DisagreesInMemory(m, s);
  }

  // ----------------------------- rb0 as the base and rd0 as the index, octas

  /** The pc moves by 8 between the accesses, which is the size of an octa. */
  predicate PcStride(m: Mem) { m.base == 0 && m.index == 0 && m.size == 8 }

  lemma PcAddr(m: Mem, s: State, t: State, k: nat)
    requires s.Valid() && t.Valid() && PcStride(m) && t.pc == Wrap(s.pc + 8 * k)
    ensures Wrap(Addr(m, t)) == Wrap(Addr(m, s) + m.size * k)
  {
    RdZero(s);
    RdZero(t);
    WrapAdd(s.pc + 8 * k, 0);
    hide Wrap, State.Get, State.Valid;
  }

  lemma PcElem(m: Mem, s: State, t: State, k: nat)
    requires m.Valid() && s.Valid() && t.Valid() && PcStride(m) && t.pc == Wrap(s.pc + 8 * k)
    ensures LoadElem(t.mem, Addr(m, t), m.size, m.signed) == LoadElem(t.mem, Addr(m, s) + m.size * k, m.size, m.signed)
  {
    hide LoadElem, LoadLE, Wrap, State.Get, Addr, State.Valid, PcStride;
    var a, b := Addr(m, s) + m.size * k, Addr(m, t);
    PcAddr(m, s, t, k);
    LoadWraps(t.mem, b, a, m.size);
    SameElem(t.mem, b, a, m.size, m.signed);
  }

  lemma PcLoad(m: Mem, s: State, p: State, k: nat, pc: Octa)
    requires m.Valid() && s.Valid() && p.Valid() && PcStride(m) && k < m.n && m.load
    requires p == m.Part(s, k) && pc == Wrap(s.pc + 8 * k)
    ensures Access(m, p.(pc := pc), k) == m.Part(s, k + 1).(pc := Wrap(pc + 4))
  {
    var t := p.(pc := pc);
    assert t.Valid() && m.reg + k < 64;
    hide LoadElem, Wrap, Mem.Part, State.Get, State.Put, Addr, Mem.Valid, State.Valid, PcStride;
    PcElem(m, s, t, k);
    PartKeepsMem(m, s, k);
    PartMore(m, s, k);
    PutPc(p, m.bank, m.reg + k, LoadElem(s.mem, Addr(m, s) + m.size * k, m.size, m.signed), pc);
  }

  lemma SameElem(m: Memory, a: int, b: int, size: nat, signed: bool)
    requires LoadLE(m, a, size) == LoadLE(m, b, size)
    ensures LoadElem(m, a, size, signed) == LoadElem(m, b, size, signed)
  {
    hide LoadLE, Wrap, Pow2;
  }

  /** One register's worth more. */
  lemma PartMore(m: Mem, s: State, k: nat)
    requires m.Valid() && s.Valid() && k < m.n
    ensures var a, p := Addr(m, s) + m.size * k, m.Part(s, k);
            m.Part(s, k + 1) == if m.load then p.Put(m.bank, m.reg + k, LoadElem(s.mem, a, m.size, m.signed))
                                else p.(mem := StoreLE(p.mem, a, m.size, s.Get(m.bank, m.reg + k)))
  {
    hide LdLoop, StLoop, LoadElem, StoreLE, State.Get, State.Put;
    if m.load {
      LdLoopLast(s, m.bank, m.reg, Addr(m, s), k, m.size, m.signed);
    } else {
      StLoopLast(s, m.bank, m.reg, Addr(m, s), k, m.size);
    }
  }

  lemma PcStore(m: Mem, s: State, p: State, k: nat, pc: Octa)
    requires m.Valid() && s.Valid() && p.Valid() && PcStride(m) && k < m.n && !m.load
    requires p == m.Part(s, k) && pc == Wrap(s.pc + 8 * k)
    ensures Access(m, p.(pc := pc), k) == m.Part(s, k + 1).(pc := Wrap(pc + 4))
  {
    var t := p.(pc := pc);
    var a, b := Addr(m, s) + m.size * k, Addr(m, t);
    PcAddr(m, s, t, k);
    PartKeepsRegs(m, s, k);
    assert t.Get(m.bank, m.reg + k) == s.Get(m.bank, m.reg + k);
    StoreWraps(t.mem, b, a, m.size, s.Get(m.bank, m.reg + k));
    PartMore(m, s, k);
    hide StLoop, StoreLE, Wrap, Mem.Part, State.Get, Addr, Mem.Valid, State.Valid;
  }

  /** One access from a state that differs from the first k registers' worth in the pc only. */
  lemma PcAccess(m: Mem, s: State, t: State, k: nat)
    requires m.Valid() && s.Valid() && t.Valid() && PcStride(m) && k < m.n
    requires t == m.Part(s, k).(pc := t.pc) && t.pc == Wrap(s.pc + 8 * k)
    ensures Access(m, t, k) == m.Part(s, k + 1).(pc := Wrap(t.pc + 4))
  {
    hide Access, Mem.Part, Wrap, State.Valid, Mem.Valid;
    if m.load {
      PcLoad(m, s, m.Part(s, k), k, t.pc);
    } else {
      PcStore(m, s, m.Part(s, k), k, t.pc);
    }
  }

  lemma PartKeepsMem(m: Mem, s: State, k: nat)
    requires m.Valid() && s.Valid() && k <= m.n && m.load
    ensures m.Part(s, k).mem == s.mem
  {
    hide LdLoop;
  }

  lemma PartKeepsRegs(m: Mem, s: State, k: nat)
    requires m.Valid() && s.Valid() && k < m.n && !m.load
    ensures m.Part(s, k) == s.(mem := m.Part(s, k).mem)
  {
    hide StLoop;
  }

  lemma ZeroStepKeeps(m: Mem, t: State)
    requires m.Valid() && t.Valid() && m.index == 0
    ensures Stepped(m, t) == Next(t) && Restored(m, t) == Next(t)
  {
    hide Wrap;
  }

  lemma {:induction false} PcAfter(m: Mem, s: State, j: nat)
    requires m.Valid() && s.Valid() && PcStride(m) && 1 <= j <= m.n
    ensures After(m, s, j) == m.Part(s, j).(pc := Wrap(s.pc + (8 * j - 4)))
  {
    hide Access, Mem.Part, State.Get, Mem.Valid, Stepped;
    if j == 1 {
      PartNone(m, s);
      WrapAdd(s.pc, 0);
      PcAccess(m, s, s, 0);
    } else {
      var t := After(m, s, j - 1);
      PcAfter(m, s, j - 1);
      AfterMore(m, s, j);
      ZeroStepKeeps(m, t);
      WrapAdd(s.pc + (8 * (j - 1) - 4), 4);
      WrapAdd(s.pc + 8 * (j - 1), 4);
      hide After, Wrap;
      PcAccess(m, s, Next(t), j - 1);
    }
  }

  lemma PartNone(m: Mem, s: State)
    requires m.Valid() && s.Valid()
    ensures m.Part(s, 0) == s
  {
  }

  lemma PcStrideAgrees(m: Mem, s: State)
    requires m.Valid() && s.Valid() && PcStride(m)
    ensures Agrees(m, s)
  {
    hide Exec, RunIns, After, Mem.Part, State.Get, Restored;
    ExpansionIs(m, s);
    PcAfter(m, s, m.n);
    ZeroStepKeeps(m, After(m, s, m.n));
    WholeIsPart(m, s);
    WrapAdd(s.pc + (8 * m.n - 4), 4);
  }

  // --------------------------------------------------- the exact condition

  /** The operands with which the expansion is the access from every state. */
  predicate Expandable(m: Mem) { (m.base != 0 && m.index != 0 && m.IndexFree()) || PcStride(m) }

  /** The expansion does from every state what the one instruction does exactly
      when the base is not rb0, the index is not rd0 and neither loaded nor
      stored after the first step; and in the one other case in which the pc
      steps through the elements by itself. */
  lemma ExpansionExactly(m: Mem)
    requires m.Valid() && 2 <= m.n
    ensures (forall s: State :: s.Valid() ==> Agrees(m, s)) <==> Expandable(m)
  {
    hide Agrees, PcStride, Mem.IndexFree, State.Valid, Mem.Valid;
    if PcStride(m) {
      forall s: State | s.Valid() ensures Agrees(m, s) { PcStrideAgrees(m, s); }
    } else if m.base != 0 && m.index != 0 && m.IndexFree() {
      forall s: State | s.Valid() ensures Agrees(m, s) { FreeAgrees(m, s); }
    } else {
      SomeDisagreement(m);
    }
  }

  lemma FreeAgrees(m: Mem, s: State)
    requires m.Valid() && s.Valid() && m.base != 0 && m.index != 0 && m.IndexFree()
    ensures Agrees(m, s)
  {
    hide Exec, RunIns, Mem.IndexFree, Mem.Valid, State.Valid;
    ExpansionCorrect(m, s);
  }

  lemma SomeDisagreement(m: Mem)
    requires m.Valid() && 2 <= m.n && !Expandable(m)
    ensures exists s: State :: s.Valid() && !Agrees(m, s)
  {
    var k := m.index - m.reg;
    hide Agrees, Blank, State.Valid;
    if m.index == 0 || m.IndexFree() {
      if m.load { FixedRegisterLoad(m); } else { FixedRegisterStore(m); }
    } else if m.load {
      if k == 0 { FirstLoadedIndex(m); } else { LaterLoadedIndex(m, k); }
    } else if m.base == 0 {
      FixedRegisterStore(m);
    } else {
      LaterStoredIndex(m, k);
    }
  }

  // --------------------------------------------- an operand of another bank

  /** Loading rd registers leaves the other banks alone. */
  lemma {:induction false} OtherBankKept(m: Mem, s: State, j: nat, b: Bank, r: Reg)
    requires m.Valid() && s.Valid() && m.load && m.bank == RD && 1 <= j <= m.n && b != RD && (b != RB || r != 0)
    ensures After(m, s, j).Get(b, r) == s.Get(b, r)
  {
    hide State.Get, State.Valid, Mem.Valid, Stepped, LoadElem, Wrap;
    if j == 1 {
      FirstKeeps(m, s, b, r);
    } else {
      OtherBankKept(m, s, j - 1, b, r);
      AfterMore(m, s, j);
      hide After, Access;
      KeepsOther(m, After(m, s, j - 1), j - 1, b, r);
    }
  }

  lemma FirstKeeps(m: Mem, s: State, b: Bank, r: Reg)
    requires m.Valid() && s.Valid() && m.load && m.bank == RD && b != RD && (b != RB || r != 0)
    ensures After(m, s, 1).Get(b, r) == s.Get(b, r)
  {
    hide LoadElem, Wrap;
    PutGet(s, RD, m.reg, LoadElem(s.mem, Addr(m, s), m.size, m.signed), b, r);
  }

  lemma OtherBankUnloaded(m: Mem, bank: Bank, s: State, r: Reg)
    requires m.Valid() && m.load && m.bank == RD && 2 <= m.n && s.Valid() && bank != RD && (bank != RB || r != 0)
    ensures RunIns(m.Expansion(), s).Some?
    ensures RunIns(m.Expansion(), s).value.Get(bank, r) == s.Get(bank, r)
  {
    hide State.Get, State.Valid, RunIns, After, Restored, Mem.Expansion;
    ExpansionIs(m, s);
    OtherBankKept(m, s, m.n, bank, r);
    RestoredGet(m, After(m, s, m.n), bank, r);
  }

  lemma OneElem(size: nat, signed: bool)
    requires 1 <= size <= 8
    ensures LoadElem(map[size := 1], size, size, signed) != 0
  {
    ElemLow(map[size := 1], size, size, signed);
    OneByte(size, 0);
    hide LoadElem, ByteAt;
  }

  lemma BlankAddr(m: Mem, mem: Memory)
    ensures Blank(mem).mem == mem && Addr(m, Blank(mem)) == 0
  {
    BlankGet(mem, RD, m.index);
    BlankGet(mem, RB, m.base);
    hide State.Get;
  }

  lemma OtherBankLoaded(m: Mem, bank: Bank, s: State, r: Reg)
    requires m.Valid() && m.load && 2 <= m.n && s == Blank(map[m.size := 1]) && r == m.reg + 1
    ensures s.Get(bank, r) == 0
    ensures m.reg + m.n <= 64 && LdLoop(s, bank, m.reg, Addr(m, s), m.n, m.size, m.signed).Get(bank, r) != 0
  {
    hide State.Get, State.Valid, Mem.Valid, LdLoop, LoadElem, Addr, Blank;
    CountBound(m);
    SizeAtMost8(m);
    BlankGet(map[m.size := 1], bank, r);
    BlankAddr(m, map[m.size := 1]);
    LdSecond(s, bank, m.reg, r, 0, m.n, m.size, m.signed);
    OneElem(m.size, m.signed);
  }

  /** A value none of whose bytes is 255. */
  predicate Coarse(v: nat) { (v <= 504 && v % 4 == 0) || v == 1 }

  lemma {:induction false} CoarseStore(mem: Memory, a: int, size: nat, v: nat, x: int)
    requires Coarse(v) && ByteAt(mem, x) != 255
    ensures ByteAt(StoreLE(mem, a, size, v), x) != 255
    decreases size
  {
    if size > 0 {
      var m1 := mem[Wrap(a) := v % 256];
      assert v % 256 != 255 && Coarse(v / 256);
      assert ByteAt(m1, x) != 255;
      hide ByteAt, Wrap, Coarse;
      CoarseStore(m1, a + 1, size - 1, v / 256, x);
    }
  }

  /** Blank, but for 255 in the second register of another bank. */
  function OtherStored(m: Mem, bank: Bank): (s: State)
    requires m.Valid() && 2 <= m.n
    ensures s.Valid() && s.mem == map[]
  {
    Blank(map[]).Put(bank, m.reg + 1, 255)
  }

  lemma OtherStoredGet(m: Mem, bank: Bank, r: Reg)
    requires m.Valid() && 2 <= m.n && bank != RD
    ensures OtherStored(m, bank).Get(RD, r) == 0 && OtherStored(m, bank).Get(bank, m.reg + 1) == 255
  {
    BlankGet(map[], RD, r);
    hide Blank;
    PutGet(Blank(map[]), bank, m.reg + 1, 255, RD, r);
    PutGet(Blank(map[]), bank, m.reg + 1, 255, bank, m.reg + 1);
  }

  /** All rd registers zero at first: the index counts the steps. */
  lemma {:induction false} IndexCounts(m: Mem, s: State, j: nat)
    requires m.Valid() && !m.load && s.Valid() && s.Get(RD, m.index) == 0 && 1 <= j <= m.n
    ensures After(m, s, j).Get(RD, m.index) == if m.index == 0 then 0 else m.size * (j - 1)
  {
    hide State.Get, State.Valid, Mem.Valid, Access, Stepped, Wrap;
    if j == 1 {
      StoreGet(m, s, 0, RD, m.index);
      assert m.size * 0 == 0;
    } else {
      AfterMore(m, s, j);
      hide After;
      IndexCounts(m, s, j - 1);
      IndexSteps(m, After(m, s, j - 1), j);
      StoreGet(m, Stepped(m, After(m, s, j - 1)), j - 1, RD, m.index);
    }
  }

  lemma IndexSteps(m: Mem, t: State, j: nat)
    requires m.Valid() && t.Valid() && 2 <= j <= m.n
    requires t.Get(RD, m.index) == if m.index == 0 then 0 else m.size * (j - 2)
    ensures Stepped(m, t).Get(RD, m.index) == if m.index == 0 then 0 else m.size * (j - 1)
  {
    SizeAtMost8(m);
    CountBound(m);
    hide State.Get, State.Valid, Mem.Valid, Stepped, Wrap;
    SteppedGet(m, t);
    StepCount(m.size, j);
  }

  lemma StepCount(size: nat, j: nat)
    requires size <= 8 && 2 <= j <= 64
    ensures Wrap(size * (j - 2) + size) == size * (j - 1)
  {
    Spread(size, j - 2, 1);
    MulMono(j - 1, size, 8);
    WrapAdd(size * (j - 1), 0);
  }

  lemma MultipleCoarse(size: nat, j: nat)
    requires (size == 4 || size == 8) && 1 <= j <= 64
    ensures Coarse(size * (j - 1))
  {
    MulMono(j - 1, size, 8);
  }

  /** What the j-th store of the expansion takes from a register. */
  lemma StoredCoarse(m: Mem, s: State, j: nat)
    requires m.Valid() && !m.load && m.bank == RD && s.Valid() && 2 <= j <= m.n && (m.size == 4 || m.size == 8)
    requires forall r: Reg :: s.Get(RD, r) == 0
    ensures Coarse(Stepped(m, After(m, s, j - 1)).Get(RD, m.reg + (j - 1)))
  {
    CountBound(m);
    hide State.Get, State.Valid, Mem.Valid, After, Stepped, Coarse, Wrap;
    var t, r := After(m, s, j - 1), m.reg + (j - 1);
    ZeroCoarse();
    if r == m.index {
      IndexCounts(m, s, j - 1);
      IndexSteps(m, t, j);
      MultipleCoarse(m.size, j);
    } else {
      StoresKeep(m, s, j - 1, r);
      StepKeeps(m, t, r);
    }
  }

  lemma ZeroCoarse()
    ensures Coarse(0)
  {
  }

  /** No byte that the expansion stores is 255. */
  lemma {:induction false} StoresCoarse(m: Mem, s: State, j: nat, x: int)
    requires m.Valid() && !m.load && m.bank == RD && s.Valid() && 1 <= j <= m.n && (m.size == 4 || m.size == 8)
    requires s.mem == map[] && forall r: Reg :: s.Get(RD, r) == 0
    ensures ByteAt(After(m, s, j).mem, x) != 255
  {
    CountBound(m);
    hide State.Get, State.Valid, Mem.Valid, Access, Stepped, ByteAt, StoreLE, Coarse;
    ZeroCoarse();
    EmptyByte(x);
    if j == 1 {
      AccessMem(m, s, 0);
      CoarseStore(s.mem, Addr(m, s), m.size, 0, x);
    } else {
      var t := After(m, s, j - 1);
      StoresCoarse(m, s, j - 1, x);
      AfterMore(m, s, j);
      hide After;
      StoredCoarse(m, s, j);
      var u := Stepped(m, t);
      SteppedMem(m, t);
      AccessMem(m, u, j - 1);
      CoarseStore(t.mem, Addr(m, u), m.size, u.Get(RD, m.reg + (j - 1)), x);
    }
  }

  lemma OtherBankUnstored(m: Mem, s: State, x: int)
    requires m.Valid() && !m.load && m.bank == RD && s.Valid() && 2 <= m.n && (m.size == 4 || m.size == 8)
    requires s.mem == map[] && forall r: Reg :: s.Get(RD, r) == 0
    ensures RunIns(m.Expansion(), s).Some? && ByteAt(RunIns(m.Expansion(), s).value.mem, x) != 255
  {
    hide State.Get, State.Valid, RunIns, After, Restored, ByteAt, Mem.Expansion;
    ExpansionIs(m, s);
    StoresCoarse(m, s, m.n, x);
    RestoredMem(m, After(m, s, m.n));
  }

  lemma RestoredMem(m: Mem, t: State)
    requires m.Valid() && t.Valid()
    ensures Restored(m, t).mem == t.mem
  {
    hide Wrap;
  }

  lemma OtherBankStored(m: Mem, bank: Bank, s: State)
    requires m.Valid() && 2 <= m.n && bank != RD && s == OtherStored(m, bank)
    ensures m.reg + m.n <= 64
    ensures ByteAt(StLoop(s, bank, m.reg, Addr(m, s), m.n, m.size).mem, Addr(m, s) + m.size) == 255
  {
    CountBound(m);
    SizeAtMost8(m);
    hide State.Get, State.Valid, Mem.Valid, StLoop, ByteAt, Addr, OtherStored;
    OtherStoredGet(m, bank, 0);
    WholeStoresSecond(s, bank, m.reg, m.reg + 1, Addr(m, s), m.n, m.size);
  }

  // -------------------------------------------------------- emitted words

  /** The emitted words do from this state what the one instruction of the
      operands' own bank does. */
  ghost predicate CodeAgrees(op: nat, bank: Bank, reg: Reg, base: Reg, index: Reg, n: nat, s: State)
    requires s.Valid() && n > 1 && MemSize(op) * (n - 1) <= 0x1000
  {
    var one := Exec(OwnInsn(op, bank, reg, base, index, n), s);
    && one.Some?
    && Run(MultiCode(op, 64 * BankNo(bank) + reg, base, index, n), s) == Some(one.value.(pc := Wrap(s.pc + 8 * n)))
  }

  lemma AgreementOfCode(op: nat, reg: Reg, base: Reg, index: Reg, n: nat, s: State)
    requires FirstEntry(op) && 1 < n && reg + n <= 64 && s.Valid()
    ensures MemSize(op) * (n - 1) <= 0x1000 && EmittedMem(op, reg, base, index, n).Valid()
    ensures CodeAgrees(op, EntryBank(op), reg, base, index, n, s) <==> Agrees(EmittedMem(op, reg, base, index, n), s)
  {
    hide Exec, Run, RunIns, MultiCode, FirstEntry, Mnemonic, State.Valid, Mem.Valid, Mem.Whole, Mem.Expansion, OwnInsn, EntryBank,
      EmittedMem;
    EntryIsEmitted(op, reg, base, index, n);
    EmittedCount(op, reg, base, index, n);
    MultiCodeRuns(op, EntryBank(op), reg, base, index, n, s);
  }

  lemma EntryIsEmitted(op: nat, reg: Reg, base: Reg, index: Reg, n: nat)
    requires FirstEntry(op)
    ensures Mnemonic(op, EntryBank(op))
    ensures OwnInsn(op, EntryBank(op), reg, base, index, n) == EmittedMem(op, reg, base, index, n).Whole()
  {
  }

  lemma OtherBankShape(op: nat, bank: Bank, reg: Reg, base: Reg, index: Reg, n: nat)
    requires FirstEntry(op) && Mnemonic(op, bank) && bank != EntryBank(op)
    ensures var m := EmittedMem(op, reg, base, index, n);
            m.bank == RD && bank != RD && m.reg == reg && (!m.load ==> m.size == 4 || m.size == 8)
  {
  }

  /** Of another bank: from some state the words and the instruction differ. */
  lemma OtherBankDiffers(op: nat, bank: Bank, reg: Reg, base: Reg, index: Reg, n: nat)
    requires FirstEntry(op) && Mnemonic(op, bank) && bank != EntryBank(op) && 1 < n && reg + n <= 64
    ensures MemSize(op) * (n - 1) <= 0x1000
    ensures exists s: State :: s.Valid() && !CodeAgrees(op, bank, reg, base, index, n, s)
  {
    hide Exec, Run, RunIns, MultiCode, FirstEntry, Mnemonic, State.Valid, Mem.Valid, Mem.Expansion, OwnInsn, LdLoop, StLoop,
      State.Get, Blank, OtherStored, Addr, EmittedMem, MemSize, EntryBank, ByteAt;
    var m := EmittedMem(op, reg, base, index, n);
    EmittedCount(op, reg, base, index, n);
    OtherBankShape(op, bank, reg, base, index, n);
    var s := if m.load then Blank(map[m.size := 1]) else OtherStored(m, bank);
    OwnRuns(op, bank, reg, base, index, n, s);
    MultiCodeRuns(op, bank, reg, base, index, n, s);
    if m.load {
      OtherBankLoaded(m, bank, s, reg + 1);
      OtherBankUnloaded(m, bank, s, reg + 1);
      PcOnly(LdLoop(s, bank, reg, Addr(m, s), n, m.size, m.signed), bank, reg + 1);
    } else {
      forall r: Reg ensures s.Get(RD, r) == 0 { OtherStoredGet(m, bank, r); }
      OtherBankStored(m, bank, s);
      OtherBankUnstored(m, s, Addr(m, s) + m.size);
    }
    assert !CodeAgrees(op, bank, reg, base, index, n, s);
  }

  /** What the instruction of the operands' own bank does. */
  lemma OwnRuns(op: nat, bank: Bank, reg: Reg, base: Reg, index: Reg, n: nat, s: State)
    requires FirstEntry(op) && 1 < n && reg + n <= 64 && s.Valid()
    ensures var m := EmittedMem(op, reg, base, index, n);
            var t := if m.load then LdLoop(s, bank, reg, Addr(m, s), n, m.size, m.signed)
                     else StLoop(s, bank, reg, Addr(m, s), n, m.size);
            Exec(OwnInsn(op, bank, reg, base, index, n), s) == Some(Next(t))
  {
    hide LdLoop, StLoop, State.Get, State.Put;
  }

  /** The pc does not show in a register other than rb0. */
  lemma PcOnly(t: State, bank: Bank, r: Reg)
    requires t.Valid() && r != 0
    ensures forall pc: Octa :: t.(pc := pc).Valid() && t.(pc := pc).Get(bank, r) == t.Get(bank, r)
  {
  }

  /** The words that the assembler emits for n > 1 registers do from every state
      what the one instruction does exactly when the operand's bank is that of
      the mnemonic's first entry and the expansion is right for it. */
  lemma MultiCodeExactly(op: nat, bank: Bank, reg: Reg, base: Reg, index: Reg, n: nat)
    requires FirstEntry(op) && Mnemonic(op, bank) && 1 < n && reg + n <= 64
    ensures MemSize(op) * (n - 1) <= 0x1000 && EmittedMem(op, reg, base, index, n).Valid()
    ensures (forall s: State :: s.Valid() ==> CodeAgrees(op, bank, reg, base, index, n, s))
       <==> bank == EntryBank(op) && Expandable(EmittedMem(op, reg, base, index, n))
  {
    hide Agrees, Exec, Run, RunIns, MultiCode, FirstEntry, Mnemonic, State.Valid, Mem.Valid, Expandable, CodeAgrees, EmittedMem,
      EntryBank;
    EmittedCount(op, reg, base, index, n);
    if bank == EntryBank(op) {
      var m := EmittedMem(op, reg, base, index, n);
      forall s: State | s.Valid() ensures CodeAgrees(op, bank, reg, base, index, n, s) <==> Agrees(m, s) {
        AgreementOfCode(op, reg, base, index, n, s);
      }
      ExpansionExactly(m);
    } else {
      OtherBankDiffers(op, bank, reg, base, index, n);
    }
  }

  lemma EmittedCount(op: nat, reg: Reg, base: Reg, index: Reg, n: nat)
    requires FirstEntry(op) && 1 < n && reg + n <= 64
    ensures EmittedMem(op, reg, base, index, n).Valid() && EmittedMem(op, reg, base, index, n).n == n
    ensures MemSize(op) * (n - 1) <= 0x1000
  {
    SizeBound(MemSize(op), n);
  }
}

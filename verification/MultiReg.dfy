/** The assembler's expansion of a multi-register load or store into single
    ones that step an index register. */
module MultiReg {
  import opened Bits
  import opened Machine
  import opened Cells
  import opened Frags

  const MATCH_ADDIRD: nat := 0x1900_0000

  // ------------------------------------------------------------ expansion

  /** A multi-register access of `n` registers from `reg` on. */
  datatype Mem = Mem(load: bool, bank: Bank, reg: Reg, base: Reg, index: Reg, n: nat, size: nat, signed: bool) {
    predicate Valid() {
      && 1 <= n && reg + n <= 64 && (size == 1 || size == 2 || size == 4 || size == 8)
      && (bank == RD || bank == RF)
    }

    /** The one instruction. */
    function Whole(): Insn {
      if load then Ldm(bank, reg, base, index, n, size, signed) else Stm(bank, reg, base, index, n, size)
    }

    /** The access of the k-th register alone. */
    function One(k: nat): Insn
      requires Valid() && k < n
    {
      if load then Ldm(bank, reg + k, base, index, 1, size, signed) else Stm(bank, reg + k, base, index, 1, size)
    }

    /** The first k single accesses, with the index stepped in between. */
    function Prefix(k: nat): seq<Insn>
      requires Valid() && 1 <= k <= n
    {
      if k == 1 then [One(0)] else Prefix(k - 1) + [AddI(index, index, size), One(k - 1)]
    }

    function Expansion(): seq<Insn>
      requires Valid()
    {
      Prefix(n) + [AddI(index, index, -(size * (n - 1)))]
    }

    /** The first k registers' worth of the one instruction, without the pc. */
    function Part(s: State, k: nat): (t: State)
      requires Valid() && s.Valid() && k <= n
      ensures t.Valid() && t.pc == s.pc
    {
      var a := s.Get(RB, base) + s.Get(RD, index);
      if load then LdLoop(s, bank, reg, a, k, size, signed) else StLoop(s, bank, reg, a, k, size)
    }

    /** The register the k-th access loads is not the index; a stored one may be
        the index only before the first step. */
    predicate IndexFree() {
      bank == RD ==> index < reg || index >= reg + n || (!load && index == reg)
    }
  }

  function RunIns(code: seq<Insn>, s: State): (o: Option<State>)
    requires s.Valid()
    ensures o.Some? ==> o.value.Valid()
  {
    if code == [] then Some(s)
    else
      var o1 := Exec(code[0], s);
      if o1.None? then None else RunIns(code[1..], o1.value)
  }

  lemma {:induction false} RunInsAppend(a: seq<Insn>, b: seq<Insn>, s: State)
    requires s.Valid()
    ensures RunIns(a + b, s) == if RunIns(a, s).None? then None else RunIns(b, RunIns(a, s).value)
  {
    hide Exec;
    if a == [] {
      assert a + b == b;
    } else {
      assert (a + b)[1..] == a[1..] + b;
      var o1 := Exec(a[0], s);
      if o1.Some? { RunInsAppend(a[1..], b, o1.value); }
    }
  }

  lemma RunInsOne(i: Insn, s: State)
    requires s.Valid()
    ensures RunIns([i], s) == Exec(i, s)
  {
    hide Exec;
    if Exec(i, s).Some? { assert [i][1..] == []; }
  }

  lemma RunInsTwo(i: Insn, j: Insn, s: State)
    requires s.Valid() && Exec(i, s).Some?
    ensures RunIns([i, j], s) == Exec(j, Exec(i, s).value)
  {
    hide Exec;
    assert [i] + [j] == [i, j];
    RunInsAppend([i], [j], s);
    RunInsOne(i, s);
    RunInsOne(j, Exec(i, s).value);
  }

  // ----------------------------------------------- addresses wrap at 2^64

  lemma {:induction false} StoreWraps(m: Memory, a: int, b: int, size: nat, v: nat)
    requires Wrap(a) == Wrap(b)
    ensures StoreLE(m, a, size, v) == StoreLE(m, b, size, v)
    decreases size
  {
    if size > 0 {
      WrapAdd(a, 1);
      WrapAdd(b, 1);
      hide Wrap;
      StoreWraps(m[Wrap(a) := v % 256], a + 1, b + 1, size - 1, v / 256);
    }
  }

  // -------------------------------------------------------- the loop's end

  lemma {:induction false} LdLoopLast(s: State, b: Bank, r: nat, a: int, n: nat, size: nat, sg: bool)
    requires s.Valid() && r + n + 1 <= 64
    ensures LdLoop(s, b, r, a, n + 1, size, sg)
         == LdLoop(s, b, r, a, n, size, sg).Put(b, r + n, LoadElem(s.mem, a + size * n, size, sg))
    decreases n
  {
    hide LoadElem, State.Put, State.Valid;
    if n == 0 {
      assert LdLoop(s, b, r, a, 0, size, sg) == s;
    } else {
      var s1 := s.Put(b, r, LoadElem(s.mem, a, size, sg));
      LdLoopLast(s1, b, r + 1, a + size, n - 1, size, sg);
      assert a + size + size * (n - 1) == a + size * n;
    }
  }

  lemma {:induction false} StLoopLast(s: State, b: Bank, r: nat, a: int, n: nat, size: nat)
    requires s.Valid() && r + n + 1 <= 64
    ensures var t := StLoop(s, b, r, a, n, size);
            StLoop(s, b, r, a, n + 1, size) == t.(mem := StoreLE(t.mem, a + size * n, size, s.Get(b, r + n)))
    decreases n
  {
    hide StoreLE;
    if n == 0 {
      assert StLoop(s, b, r, a, 0, size) == s;
    } else {
      var s1 := s.(mem := StoreLE(s.mem, a, size, s.Get(b, r)));
      StLoopLast(s1, b, r + 1, a + size, n - 1, size);
      assert a + size + size * (n - 1) == a + size * n;
    }
  }

  // ------------------------------------------------- the expansion's meaning

  /** The state after k single accesses: the first k registers done and the
      index k - 1 elements further. */
  function Stage(m: Mem, s: State, k: nat): State
    requires m.Valid() && s.Valid() && 1 <= k <= m.n
  {
    m.Part(s, k).Put(RD, m.index, Wrap(s.Get(RD, m.index) + m.size * (k - 1))).(pc := Wrap(s.pc + 4 * (2 * k - 1)))
  }

  lemma PutCommute(s: State, b: Bank, r: Reg, v: Octa, b': Bank, r': Reg, v': Octa)
    requires s.Valid() && (b != b' || r != r')
    ensures s.Put(b, r, v).Put(b', r', v') == s.Put(b', r', v').Put(b, r, v)
  {
    if b == b' {
      match b
      case RD => assert s.rd[r := v][r' := v'] == s.rd[r' := v'][r := v];
      case RB => assert s.rb[r := v][r' := v'] == s.rb[r' := v'][r := v];
      case RF => assert s.rf[r := v][r' := v'] == s.rf[r' := v'][r := v];
      case RA => assert s.ra[r := v][r' := v'] == s.ra[r' := v'][r := v];
    }
  }

  /** Loading leaves every register outside the range alone. */
  lemma {:induction false} LdLoopFrame(s: State, b: Bank, r: nat, a: int, n: nat, size: nat, sg: bool, b': Bank, r': Reg)
    requires s.Valid() && r + n <= 64 && (b' != b || r' < r || r' >= r + n)
    ensures LdLoop(s, b, r, a, n, size, sg).Get(b', r') == s.Get(b', r')
    decreases n
  {
    hide LoadElem;
    if n > 0 {
      PutGet(s, b, r, LoadElem(s.mem, a, size, sg), b', r');
      hide State.Get, State.Put, State.Valid;
      LdLoopFrame(s.Put(b, r, LoadElem(s.mem, a, size, sg)), b, r + 1, a + size, n - 1, size, sg, b', r');
    }
  }

  lemma PartFrame(m: Mem, s: State, k: nat)
    requires m.Valid() && s.Valid() && k <= m.n && m.IndexFree()
    ensures m.Part(s, k).Get(RD, m.index) == s.Get(RD, m.index)
    ensures m.Part(s, k).Get(RB, m.base) == s.Get(RB, m.base)
  {
    if m.load {
      var a := s.Get(RB, m.base) + s.Get(RD, m.index);
      LdLoopFrame(s, m.bank, m.reg, a, k, m.size, m.signed, RD, m.index);
      LdLoopFrame(s, m.bank, m.reg, a, k, m.size, m.signed, RB, m.base);
    }
  }

  /** The k-th single access, executed where the index has the right value. */
  lemma OneMore(m: Mem, s: State, t: State, k: nat)
    requires m.Valid() && s.Valid() && t.Valid() && k < m.n && m.IndexFree() && m.base != 0 && m.index != 0
    requires var y := Wrap(s.Get(RD, m.index) + m.size * k);
             t == m.Part(s, k).Put(RD, m.index, y).(pc := t.pc)
    requires k > 0 || t.mem == s.mem
    ensures var y := Wrap(s.Get(RD, m.index) + m.size * k);
            Exec(m.One(k), t) == Some(m.Part(s, k + 1).Put(RD, m.index, y).(pc := Wrap(t.pc + 4)))
  {
    var x0, rb := s.Get(RD, m.index), s.Get(RB, m.base);
    var y := Wrap(x0 + m.size * k);
    var p := m.Part(s, k);
    PartFrame(m, s, k);
    PutGet(p, RD, m.index, y, RD, m.index);
    PutGet(p, RD, m.index, y, RB, m.base);
    assert t.Get(RD, m.index) == y && t.Get(RB, m.base) == rb;
    WrapAdd(x0 + m.size * k, rb);
    assert Wrap(rb + y) == Wrap(rb + x0 + m.size * k);
    if m.load {
      OneLoad(m, s, t, k, y);
    } else {
      OneStore(m, s, t, k, y);
    }
  }

  lemma ExecLoad(m: Mem, t: State, k: nat)
    requires m.Valid() && t.Valid() && k < m.n && m.load
    ensures Exec(m.One(k), t)
         == Some(Next(t.Put(m.bank, m.reg + k, LoadElem(t.mem, t.Get(RB, m.base) + t.Get(RD, m.index), m.size, m.signed))))
  {
    hide LoadElem, State.Put, State.Get;
  }

  lemma ExecStore(m: Mem, t: State, k: nat)
    requires m.Valid() && t.Valid() && k < m.n && !m.load
    ensures Exec(m.One(k), t)
         == Some(Next(t.(mem := StoreLE(t.mem, t.Get(RB, m.base) + t.Get(RD, m.index), m.size, t.Get(m.bank, m.reg + k)))))
  {
    hide StoreLE, State.Get;
  }

  lemma OneLoad(m: Mem, s: State, t: State, k: nat, y: Octa)
    requires m.Valid() && s.Valid() && t.Valid() && k < m.n && m.IndexFree() && m.load && m.index != 0
    requires t == m.Part(s, k).Put(RD, m.index, y).(pc := t.pc)
    requires t.Get(RD, m.index) == y && Wrap(t.Get(RB, m.base) + y) == Wrap(s.Get(RB, m.base) + s.Get(RD, m.index) + m.size * k)
    ensures Exec(m.One(k), t) == Some(m.Part(s, k + 1).Put(RD, m.index, y).(pc := Wrap(t.pc + 4)))
  {
    hide LoadLE, Wrap, State.Put, State.Get, Exec;
    var a := s.Get(RB, m.base) + s.Get(RD, m.index);
    var b := t.Get(RB, m.base) + y;
    var p := m.Part(s, k);
    LoadWraps(t.mem, b, a + m.size * k, m.size);
    var v := LoadElem(s.mem, a + m.size * k, m.size, m.signed);
    assert LoadElem(t.mem, b, m.size, m.signed) == v;
    hide LoadElem;
    ExecLoad(m, t, k);
    LdLoopLast(s, m.bank, m.reg, a, k, m.size, m.signed);
    hide LdLoop;
    PutCommute(p, RD, m.index, y, m.bank, m.reg + k, v);
    PutPc(p.Put(RD, m.index, y), m.bank, m.reg + k, v, t.pc);
  }

  lemma OneStore(m: Mem, s: State, t: State, k: nat, y: Octa)
    requires m.Valid() && s.Valid() && t.Valid() && k < m.n && m.IndexFree() && !m.load && m.index != 0
    requires t == m.Part(s, k).Put(RD, m.index, y).(pc := t.pc)
    requires k == 0 ==> y == s.Get(RD, m.index)
    requires t.Get(RD, m.index) == y && Wrap(t.Get(RB, m.base) + y) == Wrap(s.Get(RB, m.base) + s.Get(RD, m.index) + m.size * k)
    ensures Exec(m.One(k), t) == Some(m.Part(s, k + 1).Put(RD, m.index, y).(pc := Wrap(t.pc + 4)))
  {
    hide StoreLE, Wrap, Exec;
    var a := s.Get(RB, m.base) + s.Get(RD, m.index);
    var b := t.Get(RB, m.base) + y;
    var p := m.Part(s, k);
    assert p == s.(mem := p.mem);
    assert t.Get(m.bank, m.reg + k) == s.Get(m.bank, m.reg + k);
    var v := s.Get(m.bank, m.reg + k);
    hide State.Get;
    StoreWraps(t.mem, b, a + m.size * k, m.size, v);
    ExecStore(m, t, k);
    StLoopLast(s, m.bank, m.reg, a, k, m.size);
    hide StLoop;
  }

  lemma ExecAddI(r: Reg, imms: int, t: State)
    requires t.Valid()
    ensures Exec(AddI(r, r, imms), t) == Some(Next(t.Put(RD, r, Wrap(t.Get(RD, r) + imms))))
  {
  }

  /** Stepping the index of a state that differs from p in the index only. */
  lemma StepIndex(p: State, r: Reg, x: int, imms: int, pc: Octa)
    requires p.Valid() && r != 0
    ensures Exec(AddI(r, r, imms), p.Put(RD, r, Wrap(x)).(pc := pc))
         == Some(p.Put(RD, r, Wrap(x + imms)).(pc := Wrap(pc + 4)))
  {
    var t := p.Put(RD, r, Wrap(x)).(pc := pc);
    hide Exec;
    ExecAddI(r, imms, t);
    PutGet(p, RD, r, Wrap(x), RD, r);
    WrapAdd(x, imms);
    hide Wrap;
    PutPut(p, RD, r, Wrap(x), Wrap(x + imms));
    PutPc(p.Put(RD, r, Wrap(x)), RD, r, Wrap(x + imms), pc);
    hide State.Put;
  }

  lemma FirstRuns(m: Mem, s: State)
    requires m.Valid() && s.Valid() && m.IndexFree() && m.base != 0 && m.index != 0
    ensures RunIns(m.Prefix(1), s) == Some(Stage(m, s, 1))
  {
    hide Exec, RunIns;
    assert m.Part(s, 0) == s;
    PutSame(s, RD, m.index);
    WrapAdd(s.Get(RD, m.index), 0);
    OneMore(m, s, s, 0);
    RunInsOne(m.One(0), s);
  }

  /** One step of the index and one access lead from a stage to the next. */
  lemma NextRuns(m: Mem, s: State, k: nat)
    requires m.Valid() && s.Valid() && 1 <= k < m.n && m.IndexFree() && m.base != 0 && m.index != 0
    ensures RunIns([AddI(m.index, m.index, m.size), m.One(k)], Stage(m, s, k)) == Some(Stage(m, s, k + 1))
  {
    hide Exec, RunIns, State.Put, State.Get, Mem.Part, Wrap;
    var t := Stage(m, s, k);
    var step := AddI(m.index, m.index, m.size);
    var x := s.Get(RD, m.index) + m.size * (k - 1);
    StepIndex(m.Part(s, k), m.index, x, m.size, t.pc);
    var t1 := Exec(step, t).value;
    assert x + m.size == s.Get(RD, m.index) + m.size * k;
    OneMore(m, s, t1, k);
    RunInsTwo(step, m.One(k), t);
    WrapAdd(s.pc + 4 * (2 * k - 1), 4);
    WrapAdd(s.pc + 4 * (2 * k - 1) + 4, 4);
  }

  lemma {:induction false} PrefixRuns(m: Mem, s: State, k: nat)
    requires m.Valid() && s.Valid() && 1 <= k <= m.n && m.IndexFree() && m.base != 0 && m.index != 0
    ensures RunIns(m.Prefix(k), s) == Some(Stage(m, s, k))
  {
    hide Exec, RunIns, Stage;
    if k == 1 {
      FirstRuns(m, s);
    } else {
      PrefixRuns(m, s, k - 1);
      NextRuns(m, s, k - 1);
      RunInsAppend(m.Prefix(k - 1), [AddI(m.index, m.index, m.size), m.One(k - 1)], s);
    }
  }

  lemma WholeIsPart(m: Mem, s: State)
    requires m.Valid() && s.Valid()
    ensures Exec(m.Whole(), s) == Some(Next(m.Part(s, m.n)))
  {
    hide LdLoop, StLoop, State.Get;
  }

  lemma BackToStart(m: Mem, s: State)
    requires m.Valid() && s.Valid() && m.IndexFree() && m.index != 0
    ensures Exec(AddI(m.index, m.index, -(m.size * (m.n - 1))), Stage(m, s, m.n))
         == Some(m.Part(s, m.n).(pc := Wrap(s.pc + 8 * m.n)))
  {
    hide Exec, Mem.Part, State.Put, State.Get, Wrap;
    var p, x0, d := m.Part(s, m.n), s.Get(RD, m.index), m.size * (m.n - 1);
    PartFrame(m, s, m.n);
    PutSame(p, RD, m.index);
    WrapAdd(x0, 0);
    StepIndex(p, m.index, x0 + d, -d, Wrap(s.pc + 4 * (2 * m.n - 1)));
    WrapAdd(s.pc + 4 * (2 * m.n - 1), 4);
  }

  /** From every state the expansion gives the registers and the memory of the
      one instruction and restores the index, when the base is not rb0, the
      index is not rd0 and no access interferes with the index. */
  lemma ExpansionCorrect(m: Mem, s: State)
    requires m.Valid() && s.Valid() && m.IndexFree() && m.base != 0 && m.index != 0
    ensures Exec(m.Whole(), s).Some?
    ensures RunIns(m.Expansion(), s) == Some(Exec(m.Whole(), s).value.(pc := Wrap(s.pc + 8 * m.n)))
  {
    hide Exec, Mem.Part, Stage, RunIns;
    WholeIsPart(m, s);
    PrefixRuns(m, s, m.n);
    BackToStart(m, s);
    var back := AddI(m.index, m.index, -(m.size * (m.n - 1)));
    RunInsAppend(m.Prefix(m.n), [back], s);
    RunInsOne(back, Stage(m, s, m.n));
  }

  // ------------------------------------------------------ emitted words

  /** Major opcodes of the first table entries of the ldm and stm mnemonics,
      the ones the expansion uses whatever bank the operand names. */
  predicate FirstEntry(op: nat) {
    0x34 <= op <= 0x37 || 0x3C <= op <= 0x3F || 0x44 <= op <= 0x46 || op == 0x56
  }

  function EntryBank(op: nat): Bank { if op == 0x56 then RF else RD }

  /** Whether some entry of the same mnemonic takes this bank. */
  predicate Mnemonic(op: nat, bank: Bank) {
    if op == 0x37 || op == 0x3F then true
    else if op == 0x3E then bank == RD || bank == RF
    else bank == EntryBank(op)
  }

  function BankNo(bank: Bank): nat { match bank case RD => 0 case RB => 1 case RF => 2 case RA => 3 }

  /** The opcode of the mnemonic's entry for this bank. */
  function OwnOpcode(op: nat, bank: Bank): nat {
    if bank == EntryBank(op) then op else op + 0x10 * BankNo(bank)
  }

  /** The instruction that the operands ask for. */
  function OwnInsn(op: nat, bank: Bank, reg: Reg, base: Reg, index: Reg, n: nat): Insn {
    if 0x3C <= op <= 0x3F then Stm(bank, reg, base, index, n, MemSize(op))
    else Ldm(bank, reg, base, index, n, MemSize(op), 0x34 <= op <= 0x36)
  }

  /** It is what its own table entry encodes, when the count fits the field. */
  lemma OwnInsnDecodes(op: nat, bank: Bank, reg: Reg, base: Reg, index: Reg, n: Reg)
    requires FirstEntry(op) && Mnemonic(op, bank)
    ensures Decode(Word(OwnOpcode(op, bank), reg, base, index, n)) == OwnInsn(op, bank, reg, base, index, n)
  {
    FieldsOfWord(OwnOpcode(op, bank), reg, base, index, n);
    hide Word, Op, FA, FB, FC, FD;
  }

  /** The access the emitted words perform. */
  function EmittedMem(op: nat, reg: Reg, base: Reg, index: Reg, n: nat): Mem {
    Mem(!(0x3C <= op <= 0x3F), EntryBank(op), reg, base, index, n, MemSize(op), 0x34 <= op <= 0x36)
  }

  /** major << 24 | reg << 18 | base << 12 | index << 6 | 1, with the register
      number still carrying its bank. */
  function MemWord(op: nat, exp0: nat, base: nat, index: nat): nat {
    Or(Or(Or(Or(op * 0x100_0000, exp0 * 0x4_0000), base * 0x1000), index * 64), 1)
  }

  function AddIWord(index: nat, imm: nat): nat {
    Or(Or(Or(MATCH_ADDIRD, index * 0x4_0000), index * 0x1000), imm)
  }

  lemma LowBitsAbsorbed(x: nat, b: nat)
    requires (x == 3 && b < 4) || b == 0 || (x == 2 && b == 2)
    ensures Or(x, b) == x
  {
    hide Or;
    OrZero(x);
    OrSame(2);
    if x == 3 && b < 4 {
      Pow2Values();
      OrSwap(3, b);
      OrOnes(b, 2);
    }
  }

  /** The bank bits of a register number fall into opcode bits that are set. */
  lemma BankBitsAbsorbed(op: nat, bank: Bank)
    requires FirstEntry(op) && Mnemonic(op, bank)
    ensures Or(op, BankNo(bank)) == op
  {
    hide Or;
    var b, q, r := BankNo(bank), op / 4, op % 4;
    LowBitsAbsorbed(r, b);
    assert q * 4 + r == op;
    hide FirstEntry, Mnemonic;
    OrZero(q);
    assert Pow2(2) == 4;
    OrSplit(q, r, 0, b, 2);
  }

  lemma TopFields(op: nat, bank: nat, r: Reg)
    requires Or(op, bank) == op
    ensures Or(op * 0x100_0000, (64 * bank + r) * 0x4_0000) == (op * 64 + r) * 0x4_0000
  {
    hide Or;
    Pow2Values();
    OrSplit(op, 0, bank, r * 0x4_0000, 24);
    OrZero(r * 0x4_0000);
  }

  lemma LowerFields(top: nat, base: Reg, index: Reg)
    ensures Or(Or(Or(top * 0x4_0000, base * 0x1000), index * 64), 1) == top * 0x4_0000 + base * 0x1000 + index * 64 + 1
  {
    hide Or;
    Pow2Values();
    OrField(top, base * 0x1000, 18);
    OrField(top * 64 + base, index * 64, 12);
    OrField(top * 0x1000 + base * 64 + index, 1, 6);
  }

  lemma MemWordSum(op: nat, bank: Bank, r: Reg, base: Reg, index: Reg)
    requires FirstEntry(op) && Mnemonic(op, bank)
    ensures MemWord(op, 64 * BankNo(bank) + r, base, index) == Word(op, r, base, index, 1)
  {
    hide Or, FirstEntry, Mnemonic;
    BankBitsAbsorbed(op, bank);
    TopFields(op, BankNo(bank), r);
    LowerFields(op * 64 + r, base, index);
  }

  lemma MemWordDecodes(op: nat, bank: Bank, r: Reg, base: Reg, index: Reg)
    requires FirstEntry(op) && Mnemonic(op, bank)
    ensures Decode(MemWord(op, 64 * BankNo(bank) + r, base, index)) == EmittedMem(op, r, base, index, 1).Whole()
  {
    hide MemWord, Op, FA, FB, FC, FD, Word;
    MemWordSum(op, bank, r, base, index);
    FieldsOfWord(op, r, base, index, 1);
  }

  lemma AddIWordDecodes(index: Reg, imm: nat)
    requires imm < 0x1000
    ensures Decode(AddIWord(index, imm)) == AddI(index, index, if imm < 0x800 then imm else imm - 0x1000)
  {
    hide Or;
    Pow2Values();
    OrField(0x19, index * 0x4_0000, 24);
    assert Or(MATCH_ADDIRD, index * 0x4_0000) == (0x19 * 64 + index) * 0x4_0000;
    OrField(0x19 * 64 + index, index * 0x1000, 18);
    OrField(0x19 * 0x1000 + index * 64 + index, imm, 12);
    assert AddIWord(index, imm) == Word(0x19, index, index, imm / 64, imm % 64);
    FieldsOfWord(0x19, index, index, imm / 64, imm % 64);
    hide AddIWord, Op, FA, FB, FC, FD, Pow2;
  }

  function CodePrefix(op: nat, exp0: nat, base: nat, index: nat, k: nat): seq<nat>
    requires k >= 1
  {
    if k == 1 then [MemWord(op, exp0, base, index)]
    else CodePrefix(op, exp0, base, index, k - 1)
         + [AddIWord(index, MemSize(op)), MemWord(op, exp0 + k - 1, base, index)]
  }

  function MultiCode(op: nat, exp0: nat, base: nat, index: nat, n: nat): seq<nat>
    requires n >= 1 && MemSize(op) * (n - 1) <= 0x1000
  {
    CodePrefix(op, exp0, base, index, n) + [AddIWord(index, 0x1000 - MemSize(op) * (n - 1))]
  }

  /** The ldm/stm part of the multiple-to-single assembly; exp1 is the rb
      number plus 64. */
  method MultipleToSingle(frag: CodeFrag, op: nat, exp0: nat, exp1: nat, exp2: nat, n: nat)
    requires FirstEntry(op) && 64 <= exp1 < 128 && exp2 < 64 && 1 < n <= 64
    modifies frag
    ensures MemSize(op) * (n - 1) <= 0x1000
    ensures frag.code == old(frag.code) + MultiCode(op, exp0, exp1 - 64, exp2, n)
  {
    hide Or, MemWord, AddIWord;
    var lenData := MemSize(op);
    frag.Emit(MemWord(op, exp0, exp1 - 64, exp2));
    for i := 1 to n
      invariant frag.code == old(frag.code) + CodePrefix(op, exp0, exp1 - 64, exp2, i)
    {
      frag.Emit(AddIWord(exp2, lenData));
      frag.Emit(MemWord(op, exp0 + i, exp1 - 64, exp2));
    }
    frag.Emit(AddIWord(exp2, 0x1000 - lenData * (n - 1)));
  }

  // --------------------------------------------------- words to meaning

  ghost predicate Decodes(ws: seq<nat>, code: seq<Insn>) {
    |ws| == |code| && forall i :: 0 <= i < |ws| ==> Decode(ws[i]) == code[i]
  }

  lemma DecodesConcat(a: seq<nat>, b: seq<nat>, x: seq<Insn>, y: seq<Insn>)
    requires Decodes(a, x) && Decodes(b, y)
    ensures Decodes(a + b, x + y)
  {
    hide Decode;
  }

  lemma DecodesOne(w: nat, i: Insn)
    requires Decode(w) == i
    ensures Decodes([w], [i])
  {
    hide Decode;
  }

  lemma {:induction false} RunDecoded(ws: seq<nat>, code: seq<Insn>, s: State)
    requires s.Valid() && Decodes(ws, code)
    ensures Run(ws, s) == RunIns(code, s)
  {
    hide Decode, Exec;
    if ws != [] {
      assert Step(ws[0], s) == Exec(code[0], s);
      if Exec(code[0], s).Some? { RunDecoded(ws[1..], code[1..], Exec(code[0], s).value); }
    }
  }

  lemma EmittedValid(op: nat, reg: Reg, base: Reg, index: Reg, n: nat, k: nat)
    requires FirstEntry(op) && k < n && reg + n <= 64
    ensures var m := EmittedMem(op, reg, base, index, n);
            m.Valid() && m.One(k) == EmittedMem(op, reg + k, base, index, 1).Whole()
  {
  }

  lemma {:induction false} CodePrefixDecodes(op: nat, bank: Bank, reg: Reg, base: Reg, index: Reg, n: nat, k: nat)
    requires FirstEntry(op) && Mnemonic(op, bank) && 1 <= k <= n && reg + n <= 64
    ensures var m := EmittedMem(op, reg, base, index, n);
            m.Valid() && Decodes(CodePrefix(op, 64 * BankNo(bank) + reg, base, index, k), m.Prefix(k))
  {
    hide Decode, MemWord, AddIWord, Decodes, FirstEntry, Mnemonic, Mem.Valid, Mem.One;
    EmittedValid(op, reg, base, index, n, k - 1);
    var m := EmittedMem(op, reg, base, index, n);
    var w := MemWord(op, 64 * BankNo(bank) + reg + (k - 1), base, index);
    MemWordDecodes(op, bank, reg + k - 1, base, index);
    DecodesOne(w, m.One(k - 1));
    if k > 1 {
      var step := AddIWord(index, m.size);
      AddIWordDecodes(index, m.size);
      DecodesOne(step, AddI(index, index, m.size));
      DecodesConcat([step], [w], [AddI(index, index, m.size)], [m.One(k - 1)]);
      assert [step] + [w] == [step, w];
      assert [AddI(index, index, m.size)] + [m.One(k - 1)] == [AddI(index, index, m.size), m.One(k - 1)];
      CodePrefixDecodes(op, bank, reg, base, index, n, k - 1);
      DecodesConcat(CodePrefix(op, 64 * BankNo(bank) + reg, base, index, k - 1), [step, w],
                    m.Prefix(k - 1), [AddI(index, index, m.size), m.One(k - 1)]);
    }
  }

  /** The emitted words are the expansion of the mnemonic's first entry. */
  lemma MultiCodeRuns(op: nat, bank: Bank, reg: Reg, base: Reg, index: Reg, n: nat, s: State)
    requires FirstEntry(op) && Mnemonic(op, bank) && 1 < n && reg + n <= 64 && s.Valid()
    ensures MemSize(op) * (n - 1) <= 0x1000 && EmittedMem(op, reg, base, index, n).Valid()
    ensures Run(MultiCode(op, 64 * BankNo(bank) + reg, base, index, n), s)
         == RunIns(EmittedMem(op, reg, base, index, n).Expansion(), s)
  {
    hide Decode, Exec, MemWord, AddIWord, Mem.IndexFree, Mem.Valid, Decodes, CodePrefix, FirstEntry, Mem.Prefix, Run, RunIns;
    EmittedValid(op, reg, base, index, n, 0);
    EntrySize(op);
    var m := EmittedMem(op, reg, base, index, n);
    SizeBound(m.size, n);
    CodePrefixDecodes(op, bank, reg, base, index, n, n);
    var imm := 0x1000 - m.size * (n - 1);
    AddIWordDecodes(index, imm);
    DecodesOne(AddIWord(index, imm), AddI(index, index, imm - 0x1000));
    DecodesConcat(CodePrefix(op, 64 * BankNo(bank) + reg, base, index, n), [AddIWord(index, imm)],
                  m.Prefix(n), [AddI(index, index, imm - 0x1000)]);
    RunDecoded(MultiCode(op, 64 * BankNo(bank) + reg, base, index, n), m.Expansion(), s);
  }

  lemma SizeBound(size: nat, n: nat)
    requires size <= 8 && 1 < n <= 64
    ensures size * (n - 1) <= 504 && (size > 0 ==> size * (n - 1) > 0)
  {
    MulMono(n - 1, size, 8);
  }

  lemma EntrySize(op: nat)
    requires FirstEntry(op)
    ensures 1 <= MemSize(op) <= 8
  {
  }
}

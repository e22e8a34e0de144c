/** The part of the SimRISC instruction set that the toolchain's own code
    sequences use: 32-bit words of five fields, four banks of 64 registers, a
    byte memory and a program counter.  Behaviour follows the emulator's
    translator, field layout and opcodes follow the opcode table. */
module Machine {
  import opened Bits

  // ---------------------------------------------------------------- words

  type Reg = r: nat | r < 64
  type Octa = x: nat | x < TWO64
  type Byte = x: nat | x < 256

  /** OP: bits 31-24, FA: 23-18, FB: 17-12, FC: 11-6, FD: 5-0. */
  function Word(op: nat, ha: nat, hb: nat, hc: nat, hd: nat): nat {
    op * 0x100_0000 + ha * 0x4_0000 + hb * 0x1000 + hc * 0x40 + hd
  }

  function Op(w: nat): nat { w / 0x100_0000 }
  function FA(w: nat): Reg { w / 0x4_0000 % 64 }
  function FB(w: nat): Reg { w / 0x1000 % 64 }
  function FC(w: nat): Reg { w / 0x40 % 64 }
  function FD(w: nat): Reg { w % 64 }

  lemma HighFields(op: nat, ha: Reg, low: nat)
    requires low < 0x4_0000
    ensures var w := op * 0x100_0000 + ha * 0x4_0000 + low;
            Op(w) == op && FA(w) == ha && w % 0x4_0000 == low
  {
    DivMod(op, ha * 0x4_0000 + low, 0x100_0000);
    DivMod(op * 64 + ha, low, 0x4_0000);
    DivMod(op, ha, 64);
  }

  lemma MiddleField(high: nat, hb: Reg, low: nat)
    requires low < 0x1000
    ensures var w := high * 0x4_0000 + hb * 0x1000 + low;
            FB(w) == hb && w % 0x1000 == low
  {
    DivMod(high * 64 + hb, low, 0x1000);
    DivMod(high, hb, 64);
  }

  lemma LowFields(high: nat, hc: Reg, hd: Reg)
    ensures var w := high * 0x1000 + hc * 0x40 + hd;
            FC(w) == hc && FD(w) == hd
  {
    DivMod(high * 64 + hc, hd, 64);
    DivMod(high, hc, 64);
  }

  lemma FieldsOfWord(op: nat, ha: Reg, hb: Reg, hc: Reg, hd: Reg)
    ensures var w := Word(op, ha, hb, hc, hd);
            && Op(w) == op && FA(w) == ha && FB(w) == hb && FC(w) == hc && FD(w) == hd
            && w % 0x1000 == hc * 0x40 + hd
            && w % 0x4_0000 == hb * 0x1000 + hc * 0x40 + hd
  {
    hide Op, FA, FB, FC, FD;
    HighFields(op, ha, hb * 0x1000 + hc * 0x40 + hd);
    MiddleField(op * 64 + ha, hb, hc * 0x40 + hd);
    LowFields(op * 0x1000 + ha * 64 + hb, hc, hd);
  }

  /** Every word is its opcode, two fields and a 12-bit rest. */
  lemma WordParts(w: nat)
    ensures w == Op(w) * 0x100_0000 + FA(w) * 0x4_0000 + FB(w) * 0x1000 + w % 0x1000
    ensures w % 0x4_0000 == FB(w) * 0x1000 + w % 0x1000
    ensures w % 0x100_0000 == FA(w) * 0x4_0000 + w % 0x4_0000
  {
    ModParts(w, 64, 0x1000);
    ModParts(w, 64, 0x4_0000);
  }

  // ---------------------------------------------------------------- wydes

  /** One octa is four wydes, named wl, wk, wj, wh from the low end. */
  datatype Wydes = Wydes(wl: nat, wk: nat, wj: nat, wh: nat) {
    predicate Valid() { wl < TWO16 && wk < TWO16 && wj < TWO16 && wh < TWO16 }

    function At(ww: nat): nat
      requires ww < 4
    {
      if ww == 0 then wl else if ww == 1 then wk else if ww == 2 then wj else wh
    }

    function With(ww: nat, v: nat): Wydes
      requires ww < 4
    {
      if ww == 0 then this.(wl := v) else if ww == 1 then this.(wk := v)
      else if ww == 2 then this.(wj := v) else this.(wh := v)
    }

    function Value(): nat {
      wl + wk * 0x1_0000 + wj * 0x1_0000_0000 + wh * 0x1_0000_0000_0000
    }
  }

  function Split(x: nat): Wydes {
    Wydes(x % TWO16, x / 0x1_0000 % TWO16, x / 0x1_0000_0000 % TWO16, x / 0x1_0000_0000_0000 % TWO16)
  }

  lemma NextWyde(q: nat, r: nat, d: nat)
    requires r < d
    ensures (q * d + r) / (0x1_0000 * d) == q / 0x1_0000
  {
    var q', r' := q / 0x1_0000, q % 0x1_0000;
    calc {
      q * d + r;
      (q' * 0x1_0000 + r') * d + r;
      q' * (0x1_0000 * d) + (r' * d + r);
    }
    assert r' * d + r < 0x1_0000 * d by { MulMono(d, r', 0xFFFF); }
    DivMod(q', r' * d + r, 0x1_0000 * d);
  }

  lemma SplitValue(x: Octa)
    ensures Split(x).Valid() && Split(x).Value() == x
  {
    ghost var q1 := x / 0x1_0000;
    ghost var q2 := x / 0x1_0000_0000;
    ghost var q3 := x / 0x1_0000_0000_0000;
    assert q2 == q1 / 0x1_0000 by { NextWyde(q1, x % 0x1_0000, 0x1_0000); }
    assert q3 == q2 / 0x1_0000 by { NextWyde(q2, x % 0x1_0000_0000, 0x1_0000_0000); }
    assert x == q1 * 0x1_0000 + x % 0x1_0000;
    assert q1 == q2 * 0x1_0000 + q1 % 0x1_0000;
    assert q2 == q3 * 0x1_0000 + q2 % 0x1_0000;
    assert q3 % 0x1_0000 == q3;
  }

  lemma ValueSplit(v: Wydes)
    requires v.Valid()
    ensures v.Value() < TWO64 && Split(v.Value()) == v
  {
    DivMod(v.wk + v.wj * 0x1_0000 + v.wh * 0x1_0000_0000, v.wl, 0x1_0000);
    DivMod(v.wj + v.wh * 0x1_0000, v.wl + v.wk * 0x1_0000, 0x1_0000_0000);
    DivMod(v.wh, v.wl + v.wk * 0x1_0000 + v.wj * 0x1_0000_0000, 0x1_0000_0000_0000);
    DivMod(v.wj + v.wh * 0x1_0000, v.wk, 0x1_0000);
    DivMod(v.wh, v.wj, 0x1_0000);
  }

  // ---------------------------------------------------------------- state

  datatype Bank = RD | RB | RF | RA

  type Memory = map<nat, Byte>

  datatype State = State(rd: seq<Octa>, rb: seq<Octa>, rf: seq<Octa>, ra: seq<Octa>, mem: Memory, pc: Octa) {
    predicate Valid() {
      |rd| == 64 && |rb| == 64 && |rf| == 64 && |ra| == 64 && rd[0] == 0
    }

    /** rd0 reads as zero and rb0 as the program counter. */
    function Get(b: Bank, r: Reg): Octa
      requires Valid()
    {
      match b
      case RD => rd[r]
      case RB => if r == 0 then pc else rb[r]
      case RF => rf[r]
      case RA => ra[r]
    }

    /** Writes to rd0 and rb0 are dropped. */
    function Put(b: Bank, r: Reg, v: Octa): (s: State)
      requires Valid()
      ensures s.Valid() && s.mem == mem && s.pc == pc
    {
      match b
      case RD => if r == 0 then this else this.(rd := rd[r := v])
      case RB => if r == 0 then this else this.(rb := rb[r := v])
      case RF => this.(rf := rf[r := v])
      case RA => this.(ra := ra[r := v])
    }
  }

  /** A register whose writes are dropped. */
  predicate ReadOnly(b: Bank, r: Reg) { r == 0 && (b == RD || b == RB) }

  /** A register reads as it was last written, rd0 and rb0 apart. */
  lemma PutGet(s: State, b: Bank, r: Reg, v: Octa, b': Bank, r': Reg)
    requires s.Valid()
    ensures s.Put(b, r, v).Get(b', r') ==
            if b == b' && r == r' && !(r == 0 && (b == RD || b == RB)) then v else s.Get(b', r')
    ensures ReadOnly(b, r) <==> r == 0 && (b == RD || b == RB)
    ensures s.Get(RD, 0) == 0 && s.Get(RB, 0) == s.pc
  {
  }

  lemma PutSame(s: State, b: Bank, r: Reg)
    requires s.Valid()
    ensures !ReadOnly(b, r) ==> s.Put(b, r, s.Get(b, r)) == s
  {
    match b
    case RD => assert s.rd[r := s.rd[r]] == s.rd;
    case RB => assert s.rb[r := s.rb[r]] == s.rb;
    case RF => assert s.rf[r := s.rf[r]] == s.rf;
    case RA => assert s.ra[r := s.ra[r]] == s.ra;
  }

  lemma PutPc(s: State, b: Bank, r: Reg, v: Octa, pc: Octa)
    requires s.Valid()
    ensures s.(pc := pc).Put(b, r, v) == s.Put(b, r, v).(pc := pc)
  {
  }

  lemma PutPut(s: State, b: Bank, r: Reg, v: Octa, w: Octa)
    requires s.Valid()
    ensures s.Put(b, r, v).Put(b, r, w) == s.Put(b, r, w)
  {
    match b
    case RD => assert s.rd[r := v][r := w] == s.rd[r := w];
    case RB => assert s.rb[r := v][r := w] == s.rb[r := w];
    case RF => assert s.rf[r := v][r := w] == s.rf[r := w];
    case RA => assert s.ra[r := v][r := w] == s.ra[r := w];
  }

  // --------------------------------------------------------------- memory

  function ByteAt(m: Memory, a: int): Byte {
    if Wrap(a) in m then m[Wrap(a)] else 0
  }

  function LoadLE(m: Memory, a: int, size: nat): (v: nat)
    ensures v < Pow2(8 * size)
    decreases size
  {
    if size == 0 then 0
    else
      assert Pow2(8 * size) == 256 * Pow2(8 * (size - 1)) by { PowStep8(size - 1); }
      ByteAt(m, a) + 256 * LoadLE(m, a + 1, size - 1)
  }

  function StoreLE(m: Memory, a: int, size: nat, v: nat): Memory
    decreases size
  {
    if size == 0 then m else StoreLE(m[Wrap(a) := v % 256], a + 1, size - 1, v / 256)
  }

  lemma PowStep8(k: nat)
    ensures Pow2(8 * (k + 1)) == 256 * Pow2(8 * k)
  {
    var n := 8 * k;
    assert Pow2(n + 8) == 2 * Pow2(n + 7) == 4 * Pow2(n + 6) == 8 * Pow2(n + 5) == 16 * Pow2(n + 4);
    assert Pow2(n + 4) == 2 * Pow2(n + 3) == 4 * Pow2(n + 2) == 8 * Pow2(n + 1) == 16 * Pow2(n);
  }

  function LoadElem(m: Memory, a: int, size: nat, signed: bool): Octa {
    var v := LoadLE(m, a, size);
    if signed && size > 0 then Wrap(SignExtend(v, 8 * size)) else Wrap(v)
  }

  // --------------------------------------------------------- instructions

  datatype Cond = N | NN | Z | NZ | P | NP | EQ | NE

  datatype WydeKind = SetZw | SetOw | OrW | AndNW | SetW

  datatype Insn =
    | WydeImm(kind: WydeKind, bank: Bank, reg: Reg, ww: nat, imm: nat)
    | AddI(dst: Reg, src: Reg, imms: int)
    | Ldm(bank: Bank, ha: Reg, hb: Reg, hc: Reg, n: nat, size: nat, signed: bool)
    | Stm(bank: Bank, ha: Reg, hb: Reg, hc: Reg, n: nat, size: nat)
    | Move(dstBank: Bank, srcBank: Bank, hb: Reg, hc: Reg, n: nat)
    | Branch(cond: Cond, ra: Reg, rb: Reg, disp: int)
    | Jump(disp: int)
    | Nop
    | Illegal

  function MemSize(op: nat): nat {
    if op % 4 == 0 then 1 else if op % 4 == 1 then 2 else if op % 4 == 2 then 4 else 8
  }

  function DecodeMove(w: nat): Insn {
    var m := (db: Bank, sb: Bank) => Move(db, sb, FB(w), FC(w), FD(w));
    match FA(w)
    case 0x00 => Nop
    case 0x28 => m(RD, RD)
    case 0x29 => m(RB, RD)
    case 0x2A => m(RD, RB)
    case 0x2B => m(RB, RB)
    case 0x31 => m(RF, RD)
    case 0x32 => m(RD, RF)
    case 0x33 => m(RF, RF)
    case 0x39 => m(RA, RD)
    case 0x3A => m(RD, RA)
    case _ => Illegal
  }

  function DecodeWyde(w: nat): Insn {
    var f := (k: WydeKind, b: Bank) => WydeImm(k, b, FA(w), w / 0x1_0000 % 4, w % 0x1_0000);
    match Op(w)
    case 0x14 => f(OrW, RD)
    case 0x15 => f(AndNW, RD)
    case 0x16 => f(SetZw, RD)
    case 0x17 => f(SetOw, RD)
    case 0x4C => f(OrW, RB)
    case 0x4D => f(AndNW, RB)
    case 0x4E => f(SetZw, RB)
    case 0x54 => f(SetW, RF)
    case _ => Illegal
  }

  function CondOf(op: nat): Cond
    requires 0x28 <= op <= 0x2F
  {
    match op
    case 0x28 => N
    case 0x29 => NN
    case 0x2A => Z
    case 0x2B => NZ
    case 0x2C => P
    case 0x2D => NP
    case 0x2E => EQ
    case _ => NE
  }

  function DecodeMem(w: nat): Insn {
    var o := Op(w);
    var ld := (b: Bank, sg: bool) => Ldm(b, FA(w), FB(w), FC(w), FD(w), MemSize(o), sg);
    var st := (b: Bank) => Stm(b, FA(w), FB(w), FC(w), FD(w), MemSize(o));
    if 0x34 <= o <= 0x36 then ld(RD, true)
    else if o == 0x37 || 0x44 <= o <= 0x46 then ld(RD, false)
    else if o == 0x47 then ld(RB, false)
    else if o == 0x56 || o == 0x57 then ld(RF, false)
    else if o == 0x67 then ld(RA, false)
    else if 0x3C <= o <= 0x3F then st(RD)
    else if o == 0x4F then st(RB)
    else if o == 0x5E || o == 0x5F then st(RF)
    else if o == 0x6F then st(RA)
    else Illegal
  }

  function Decode(w: nat): Insn {
    var o := Op(w);
    if o == 0x10 then DecodeMove(w)
    else if o == 0x19 then AddI(FA(w), FB(w), SignExtend(w % 0x1000, 12))
    else if 0x28 <= o <= 0x2D then Branch(CondOf(o), FA(w), 0, SignExtend(w % 0x4_0000, 18))
    else if 0x2E <= o <= 0x2F then Branch(CondOf(o), FA(w), FB(w), SignExtend(w % 0x1000, 12))
    else if o == 0x64 then Jump(SignExtend(w % 0x100_0000, 24))
    else if DecodeWyde(w) != Illegal then DecodeWyde(w)
    else DecodeMem(w)
  }

  // ------------------------------------------------------------ execution

  function WydeEffect(kind: WydeKind, was: Wydes, ww: nat, imm: nat): Wydes
    requires ww < 4
  {
    match kind
    case SetZw => Wydes(0, 0, 0, 0).With(ww, imm)
    case SetOw => Wydes(0xFFFF, 0xFFFF, 0xFFFF, 0xFFFF).With(ww, imm)
    case OrW => was.With(ww, Or(was.At(ww), imm))
    case AndNW => was.With(ww, AndNot(was.At(ww), imm))
    case SetW => was.With(ww, imm)
  }

  lemma WydeEffectValid(kind: WydeKind, was: Wydes, ww: nat, imm: nat)
    requires ww < 4 && imm < TWO16 && was.Valid()
    ensures WydeEffect(kind, was, ww, imm).Valid()
  {
    Pow2Values();
    OrBound(was.At(ww), imm, 16);
    AndNotBound(was.At(ww), imm);
  }

  /** The load loop of ldm: consecutive registers from consecutive elements. */
  function LdLoop(s: State, b: Bank, r: nat, a: int, n: nat, size: nat, signed: bool): (s': State)
    requires s.Valid() && r + n <= 64
    ensures s'.Valid() && s'.mem == s.mem && s'.pc == s.pc
    decreases n
  {
    if n == 0 then s
    else LdLoop(s.Put(b, r, LoadElem(s.mem, a, size, signed)), b, r + 1, a + size, n - 1, size, signed)
  }

  function StLoop(s: State, b: Bank, r: nat, a: int, n: nat, size: nat): (s': State)
    requires s.Valid() && r + n <= 64
    ensures s'.Valid() && s'.pc == s.pc && s' == s.(mem := s'.mem)
    decreases n
  {
    if n == 0 then s
    else StLoop(s.(mem := StoreLE(s.mem, a, size, s.Get(b, r))), b, r + 1, a + size, n - 1, size)
  }

  /** The register-move loop: it walks down when the destination number is the
      larger one and up otherwise. */
  function MoveLoop(s: State, db: Bank, sb: Bank, hb: int, hc: int, n: nat): (s': State)
    requires s.Valid()
    requires n > 0 ==> 0 <= hb < 64 && 0 <= hc < 64
    requires n > 0 ==> if hb > hc then hc - n + 1 >= 0 else hc + n <= 64
    ensures s'.Valid() && s'.mem == s.mem && s'.pc == s.pc
    decreases n
  {
    if n == 0 then s
    else
      var s1 := s.Put(db, hb, s.Get(sb, hc));
      if hb > hc then MoveLoop(s1, db, sb, hb - 1, hc - 1, n - 1)
      else MoveLoop(s1, db, sb, hb + 1, hc + 1, n - 1)
  }

  predicate CondHolds(c: Cond, x: Octa, y: Octa) {
    match c
    case N => x >= TWO63
    case NN => x < TWO63
    case Z => x == 0
    case NZ => x != 0
    case P => 0 < x < TWO63
    case NP => x == 0 || x >= TWO63
    case EQ => x == y
    case NE => x != y
  }

  datatype Option<+T> = None | Some(value: T)

  function Next(s: State): State { s.(pc := Wrap(s.pc + 4)) }

  /** One instruction; None is the illegal-instruction exception. */
  function Exec(i: Insn, s: State): (o: Option<State>)
    requires s.Valid()
    ensures o.Some? ==> o.value.Valid()
  {
    match i
    case WydeImm(kind, b, r, ww, imm) =>
      if ww < 4 && imm < TWO16 then
        WydeEffectValid(kind, Split(s.Get(b, r)), ww, imm);
        ValueSplit(WydeEffect(kind, Split(s.Get(b, r)), ww, imm));
        Some(Next(s.Put(b, r, WydeEffect(kind, Split(s.Get(b, r)), ww, imm).Value())))
      else None
    case AddI(dst, src, imms) => Some(Next(s.Put(RD, dst, Wrap(s.Get(RD, src) + imms))))
    case Ldm(b, ha, hb, hc, n, size, sg) =>
      if n == 0 || ha + n > 64 then None
      else Some(Next(LdLoop(s, b, ha, s.Get(RB, hb) + s.Get(RD, hc), n, size, sg)))
    case Stm(b, ha, hb, hc, n, size) =>
      if n == 0 || ha + n > 64 then None
      else Some(Next(StLoop(s, b, ha, s.Get(RB, hb) + s.Get(RD, hc), n, size)))
    case Move(db, sb, hb, hc, n) =>
      if n == 0 || hb + n > 64 || hc + n > 64 then None
      else if hb > hc then Some(Next(MoveLoop(s, db, sb, hb + n - 1, hc + n - 1, n)))
      else Some(Next(MoveLoop(s, db, sb, hb, hc, n)))
    case Branch(c, x, y, d) =>
      Some(s.(pc := if CondHolds(c, s.Get(RD, x), s.Get(RD, y)) then Wrap(s.pc + 4 * d) else Wrap(s.pc + 4)))
    case Jump(d) => Some(s.(pc := Wrap(s.pc + 4 * d)))
    case Nop => Some(Next(s))
    case Illegal => None
  }

  function Step(w: nat, s: State): (o: Option<State>)
    requires s.Valid()
    ensures o.Some? ==> o.value.Valid()
  {
    Exec(Decode(w), s)
  }

  /** Straight-line execution of consecutive words. */
  function Run(ws: seq<nat>, s: State): (o: Option<State>)
    requires s.Valid()
    ensures o.Some? ==> o.value.Valid()
  {
    if ws == [] then Some(s)
    else
      var o1 := Step(ws[0], s);
      if o1.None? then None else Run(ws[1..], o1.value)
  }

  lemma {:induction false} RunAppend(a: seq<nat>, b: seq<nat>, s: State)
    requires s.Valid()
    ensures Run(a + b, s) == if Run(a, s).None? then None else Run(b, Run(a, s).value)
  {
    if a == [] {
      assert a + b == b;
    } else {
      assert (a + b)[1..] == a[1..] + b;
      var o1 := Step(a[0], s);
      if o1.Some? { RunAppend(a[1..], b, o1.value); }
    }
  }

  lemma RunOne(w: nat, s: State)
    requires s.Valid()
    ensures Run([w], s) == Step(w, s)
  {
    if Step(w, s).Some? { assert [w][1..] == []; }
  }
}

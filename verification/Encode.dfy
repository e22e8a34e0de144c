/** The assembler's encoder of one instruction: dd_get_insn_code. */
module Encode {
  import opened Bits
  import opened Machine
  import opened OpcodeTable

  /** An operand expression, as far as the encoder looks at it. */
  datatype Expr =
    | Register(n: nat)
    | Constant(v: int)
    | Wyde(ww: int)
    | Symbol
    | LeftShift(left: Expr, right: Expr)
    | Other

  function At(exp: seq<Expr>, i: nat): Expr { if i < |exp| then exp[i] else Other }

  /** `x << k` on unsigned ints, d being 2 to the k. */
  function Shl(x: nat, d: nat): nat { x * d % TWO32 }

  /** What a field's parsing leads to: an early return, or the field's value and
      the number of expressions used so far. */
  datatype Parse = Stop(ret: int, code: nat) | Go(v: nat, used: nat)

  const REJECT: Parse := Stop(-1, 0)

  function RegField(c: Class, e: Expr, used: nat): Parse {
    if e.Register? && Base(c) <= e.n <= Base(c) + 0x3F then Go(e.n - Base(c), used + 1) else REJECT
  }

  predicate ImmIn(e: Expr, lo: int, hi: int) { e.Constant? && lo <= e.v <= hi }

  function FieldA(o: Opcode, exp: seq<Expr>): Parse {
    match o.fa
    case OpReg(c) => if c == ClassCr then REJECT else RegField(c, At(exp, 0), 0)
    case OpMinor => Go(o.minor, 0)
    case OpImm(bits, signed) =>
      if bits != 24 || !signed then REJECT
      else if !At(exp, 0).Constant? then Stop(o.kind, Shl(o.major, 0x100_0000))
      else if !ImmIn(At(exp, 0), -0x80_0000, 0x7F_FFFF) then REJECT
      else Stop(NORMAL, Or(Shl(o.major, 0x100_0000), At(exp, 0).v % 0x100_0000))
    case OpNone => Go(0, 0)
    case OpWyde => REJECT
  }

  function FieldB(o: Opcode, exp: seq<Expr>, ha: nat, used: nat): Parse {
    var e := At(exp, used);
    var high := Or(Shl(o.major, 0x100_0000), Shl(ha, 0x4_0000));
    match o.fb
    case OpReg(c) => if c == ClassCp then REJECT else RegField(c, e, used)
    case OpWyde => if e.Wyde? && e.ww <= 3 then Go(e.ww % TWO32, used + 1) else REJECT
    case OpImm(bits, signed) =>
      if bits != 18 then REJECT
      else if signed then
        if !e.Constant? then Stop(o.kind, high)
        else if !ImmIn(e, -0x2_0000, 0x1_FFFF) then REJECT
        else Stop(NORMAL, Or(high, e.v % 0x4_0000))
      else if !ImmIn(e, 0, 0x3_FFFF) then REJECT
      else Stop(NORMAL, Or(high, e.v % 0x4_0000))
    case OpNone => Go(0, used)
    case OpMinor => REJECT
  }

  /** The expressions for the last two fields: a shifted register gives both. */
  function LastTwo(o: Opcode, exp: seq<Expr>, used: nat): (r: Option<(Expr, Expr)>) {
    if |exp| == 3 && exp[2].LeftShift? then
      if o.fc != OpReg(ClassRd) || o.fd != OpImm(6, false) then None
      else Some((exp[2].left, exp[2].right))
    else Some((At(exp, used), At(exp, used + 1)))
  }

  function FieldC(o: Opcode, exp: seq<Expr>, ha: nat, hb: nat, used: nat, next: Expr): Parse {
    var high := Or(Or(Shl(o.major, 0x100_0000), Shl(ha, 0x4_0000)), Shl(hb, 0x1000));
    match o.fc
    case OpReg(c) => if c == ClassCp then REJECT else RegField(c, next, used)
    case OpImm(bits, signed) =>
      if bits == 12 && signed then
        if next.Symbol? then Stop(o.kind, high)
        else if !ImmIn(next, -0x800, 0x7FF) then REJECT
        else if o.major == 0x6D && o.operands == 3 && ha == 0 && hb == 0 && next.v % 0x1000 == 0 then REJECT
        else Stop(NORMAL, Or(high, next.v % 0x1000))
      else if bits == 12 then
        if !ImmIn(next, 0, 0xFFF) then REJECT else Stop(NORMAL, Or(high, next.v % 0x1000))
      else if bits == 16 && !signed then
        if !ImmIn(At(exp, used), 0, 0xFFFF) then REJECT
        else
          Stop(NORMAL, Or(Or(Or(Shl(o.major, 0x100_0000), Shl(ha, 0x4_0000)), Shl(hb, 0x1_0000)), At(exp, used).v % 0x1_0000))
      else REJECT
    case OpNone => Go(0, used)
    case _ => REJECT
  }

  function FieldD(o: Opcode, last: Expr): Parse {
    match o.fd
    case OpReg(c) => if c == ClassCp then REJECT else RegField(c, last, 0)
    case OpImm(bits, signed) =>
      if bits != 6 || signed then REJECT
      else if !last.Constant? then Go(0, 0)
      else if !ImmIn(last, 0, 0x3F) then REJECT
      else Go(last.v, 0)
    case OpNone => Go(0, 0)
    case _ => REJECT
  }

  /** Return value -1 rejects, 0 accepts the word as it is, and a kind asks for
      the word to be relocated by it. */
  function InsnCode(o: Opcode, exp: seq<Expr>): (p: Parse)
    ensures p.Stop?
  {
    if |exp| != o.operands then REJECT
    else
      var a := FieldA(o, exp);
      if a.Stop? then a else
      var b := FieldB(o, exp, a.v, a.used);
      if b.Stop? then b else
      var two := LastTwo(o, exp, b.used);
      if two.None? then REJECT else
      var c := FieldC(o, exp, a.v, b.v, b.used, two.value.0);
      if c.Stop? then c else
      var d := FieldD(o, two.value.1);
      if d.Stop? then d else
      Stop(NORMAL, Or(Or(Or(Or(Shl(o.major, 0x100_0000), Shl(a.v, 0x4_0000)), Shl(b.v, 0x1000)), Shl(c.v, 0x40)), d.v))
  }

  // ---------------------------------------------- the word that is put together

  lemma ShlSmall(x: nat, d: nat)
    requires x * d < TWO32
    ensures Shl(x, d) == x * d
  {
  }

  lemma OrAdd(hi: nat, lo: nat, k: nat, d: nat)
    requires d == Pow2(k) && lo < d
    ensures Or(hi * d, lo) == hi * d + lo
  {
    hide Or, Pow2;
    OrField(hi, lo, k);
  }

  /** major << 24 | ha << 18 */
  lemma HighPart(major: nat, ha: nat)
    requires major < 256 && ha < 64
    ensures Shl(major, 0x100_0000) == major * 0x100_0000
    ensures Or(Shl(major, 0x100_0000), Shl(ha, 0x4_0000)) == (major * 64 + ha) * 0x4_0000
  {
    Pow2Values();
    ShlSmall(major, 0x100_0000);
    ShlSmall(ha, 0x4_0000);
    hide Or, Pow2, Shl;
    OrAdd(major, ha * 0x4_0000, 24, 0x100_0000);
  }

  /** ... | hb << 12 */
  lemma MiddlePart(major: nat, ha: nat, hb: nat)
    requires major < 256 && ha < 64 && hb < 64
    ensures Or(Or(Shl(major, 0x100_0000), Shl(ha, 0x4_0000)), Shl(hb, 0x1000)) == ((major * 64 + ha) * 64 + hb) * 0x1000
  {
    HighPart(major, ha);
    Pow2Values();
    ShlSmall(hb, 0x1000);
    hide Or, Pow2, Shl;
    OrAdd(major * 64 + ha, hb * 0x1000, 18, 0x4_0000);
  }

  /** ... | hc << 6 */
  lemma LowPart(top: nat, hc: Reg)
    ensures Or(top * 0x1000, Shl(hc, 0x40)) == (top * 64 + hc) * 0x40
  {
    Pow2Values();
    ShlSmall(hc, 0x40);
    hide Or, Pow2, Shl;
    OrAdd(top, hc * 0x40, 12, 0x1000);
  }

  lemma LastPart(top: nat, hd: Reg)
    ensures Or(top * 0x40, hd) == top * 0x40 + hd
  {
    Pow2Values();
    hide Or, Pow2;
    OrAdd(top, hd, 6, 0x40);
  }

  lemma WordOfFields(major: nat, ha: Reg, hb: Reg, hc: Reg, hd: Reg)
    requires major < 256
    ensures Or(Or(Or(Or(Shl(major, 0x100_0000), Shl(ha, 0x4_0000)), Shl(hb, 0x1000)), Shl(hc, 0x40)), hd)
         == Word(major, ha, hb, hc, hd)
  {
    hide Or, Shl;
    MiddlePart(major, ha, hb);
    LowPart((major * 64 + ha) * 64 + hb, hc);
    LastPart(((major * 64 + ha) * 64 + hb) * 64 + hc, hd);
  }

  lemma WordOfImm12(major: nat, ha: Reg, hb: Reg, imm: nat)
    requires major < 256 && imm < 0x1000
    ensures Or(Or(Or(Shl(major, 0x100_0000), Shl(ha, 0x4_0000)), Shl(hb, 0x1000)), imm)
         == major * 0x100_0000 + ha * 0x4_0000 + hb * 0x1000 + imm
  {
    MiddlePart(major, ha, hb);
    Pow2Values();
    hide Or, Pow2, Shl;
    OrAdd((major * 64 + ha) * 64 + hb, imm, 12, 0x1000);
  }

  lemma WordOfImm18(major: nat, ha: Reg, imm: nat)
    requires major < 256 && imm < 0x4_0000
    ensures Or(Or(Shl(major, 0x100_0000), Shl(ha, 0x4_0000)), imm) == major * 0x100_0000 + ha * 0x4_0000 + imm
  {
    HighPart(major, ha);
    Pow2Values();
    hide Or, Pow2, Shl;
    OrAdd(major * 64 + ha, imm, 18, 0x4_0000);
  }

  lemma WordOfImm24(major: nat, imm: nat)
    requires major < 256 && imm < 0x100_0000
    ensures Or(Shl(major, 0x100_0000), imm) == major * 0x100_0000 + imm
  {
    HighPart(major, 0);
    Pow2Values();
    hide Or, Pow2, Shl;
    OrAdd(major, imm, 24, 0x100_0000);
  }

  lemma WydePart(top: nat, ww: nat)
    requires ww < 4
    ensures Or(top * 0x4_0000, Shl(ww, 0x1_0000)) == (top * 4 + ww) * 0x1_0000
  {
    Pow2Values();
    ShlSmall(ww, 0x1_0000);
    hide Or, Pow2, Shl;
    OrAdd(top, ww * 0x1_0000, 18, 0x4_0000);
  }

  lemma Imm16Part(top: nat, imm: nat)
    requires imm < 0x1_0000
    ensures Or(top * 0x1_0000, imm) == top * 0x1_0000 + imm
  {
    Pow2Values();
    hide Or, Pow2;
    OrAdd(top, imm, 16, 0x1_0000);
  }

  lemma WordOfWyde(major: nat, ha: Reg, ww: nat, imm: nat)
    requires major < 256 && ww < 4 && imm < 0x1_0000
    ensures Or(Or(Or(Shl(major, 0x100_0000), Shl(ha, 0x4_0000)), Shl(ww, 0x1_0000)), imm)
         == major * 0x100_0000 + ha * 0x4_0000 + ww * 0x1_0000 + imm
  {
    hide Or, Shl;
    HighPart(major, ha);
    WydePart(major * 64 + ha, ww);
    Imm16Part((major * 64 + ha) * 4 + ww, imm);
  }

  // ------------------------------------------------- operands in plain form

  /** The expression is of the field's own kind and in its range. */
  predicate Plain(f: Operand, e: Expr) {
    match f
    case OpReg(c) => e.Register? && Base(c) <= e.n < Base(c) + 64
    case OpImm(bits, signed) =>
      && e.Constant? && bits > 0
      && (if signed then 0 - Pow2(bits - 1) <= e.v < Pow2(bits - 1) else 0 <= e.v < Pow2(bits))
    case OpWyde => e.Wyde? && 0 <= e.ww < 4
    case _ => false
  }

  predicate AllPlain(fs: seq<Operand>, exp: seq<Expr>) {
    |exp| == |fs| && forall i :: 0 <= i < |fs| ==> Plain(fs[i], exp[i])
  }

  /** The bits that a plain operand has in the word. */
  function OperandBits(f: Operand, e: Expr): nat
    requires Plain(f, e)
  {
    match f
    case OpReg(c) => e.n - Base(c)
    case OpImm(bits, _) => e.v % Pow2(bits)
    case OpWyde => e.ww
  }

  /** The symbol of register i of a class is an operand of exactly the fields of
      that class, and i is what the word gets. */
  lemma RegisterOperand(c: Class, i: Reg, field: Class)
    ensures Plain(OpReg(field), Register(RegisterSymbol(c, i))) <==> field == c
    ensures OperandBits(OpReg(c), Register(RegisterSymbol(c, i))) == i
  {
  }

  /** call rb0, rd0, 0: the one plain operand list that is refused. */
  predicate NullCall(l: Line, exp: seq<Expr>) {
    && l.format == RRII && l.signed && l.major == 0x6D
    && AllPlain(l.Fields(), exp) && exp[0].n == Base(l.a) && exp[1].n == Base(l.b) && exp[2].v == 0
  }

  /** The bits of a word that an operand is read from. */
  function Extract(op: DisOperand, w: nat): nat {
    match op
    case DisNone => 0
    case DisHa => FA(w)
    case DisHb => FB(w)
    case DisHc => FC(w)
    case DisHd => FD(w)
    case DisImm(bits, _) => w % Pow2(bits)
    case DisOffset(bits) => w % Pow2(bits)
    case DisWyde => w / 0x1_0000 % 4
  }

  /** w is a word of the line that has every operand in its place. */
  ghost predicate Encodes(l: Line, exp: seq<Expr>, w: nat)
    requires AllPlain(l.Fields(), exp)
  {
    && w < TWO32 && OfLine(l, w)
    && forall i :: 0 <= i < |l.Fields()| ==> Extract(DisOp(l, i), w) == OperandBits(l.Fields()[i], exp[i])
  }

  /** The bits of the i-th operand. */
  function BitsOf(l: Line, exp: seq<Expr>, i: nat): nat
    requires AllPlain(l.Fields(), exp) && i < |exp|
  {
    assert Plain(l.Fields()[i], exp[i]);
    OperandBits(l.Fields()[i], exp[i])
  }

  /** The word of a plain operand list. */
  function PlainWord(l: Line, exp: seq<Expr>): nat
    requires AllPlain(l.Fields(), exp)
  {
    match l.format
    case RRII => l.major * 0x100_0000 + BitsOf(l, exp, 0) * 0x4_0000 + BitsOf(l, exp, 1) * 0x1000 + BitsOf(l, exp, 2)
    case RRRI => Word(l.major, BitsOf(l, exp, 0), BitsOf(l, exp, 1), BitsOf(l, exp, 2), BitsOf(l, exp, 3))
    case ORRI => Word(l.major, l.minor, BitsOf(l, exp, 0), BitsOf(l, exp, 1), BitsOf(l, exp, 2))
    case ORRR => Word(l.major, l.minor, BitsOf(l, exp, 0), BitsOf(l, exp, 1), BitsOf(l, exp, 2))
    case RRRR => Word(l.major, BitsOf(l, exp, 0), BitsOf(l, exp, 1), BitsOf(l, exp, 2), BitsOf(l, exp, 3))
    case RWII => l.major * 0x100_0000 + BitsOf(l, exp, 0) * 0x4_0000 + BitsOf(l, exp, 1) * 0x1_0000 + BitsOf(l, exp, 2)
    case RIII => l.major * 0x100_0000 + BitsOf(l, exp, 0) * 0x4_0000 + BitsOf(l, exp, 1)
    case OIII => l.major * 0x100_0000 + l.minor * 0x4_0000 + BitsOf(l, exp, 0)
    case IIII => l.major * 0x100_0000 + BitsOf(l, exp, 0)
  }

  /** The assembler's entry of each format. */
  lemma EntryIs(l: Line)
    ensures AsmEntry(l) ==
              match l.format
              case RRII => Opcode(l.name, 3, l.major, 0, OpReg(l.a), OpReg(l.b), OpImm(12, l.signed), OpNone, l.kind)
              case RRRI => Opcode(l.name, 4, l.major, 0, OpReg(l.a), OpReg(l.b), OpReg(l.c), OpImm(6, false), l.kind)
              case ORRI => Opcode(l.name, 3, l.major, l.minor, OpMinor, OpReg(l.b), OpReg(l.c), OpImm(6, false), l.kind)
              case ORRR => Opcode(l.name, 3, l.major, l.minor, OpMinor, OpReg(l.b), OpReg(l.c), OpReg(l.d), l.kind)
              case RRRR => Opcode(l.name, 4, l.major, 0, OpReg(l.a), OpReg(l.b), OpReg(l.c), OpReg(l.d), l.kind)
              case RWII => Opcode(l.name, 3, l.major, 0, OpReg(l.a), OpWyde, OpImm(16, false), OpNone, l.kind)
              case RIII => Opcode(l.name, 2, l.major, 0, OpReg(l.a), OpImm(18, l.signed), OpNone, OpNone, l.kind)
              case OIII => Opcode(l.name, 1, l.major, l.minor, OpMinor, OpImm(18, false), OpNone, OpNone, l.kind)
              case IIII => Opcode(l.name, 1, l.major, 0, OpImm(24, true), OpNone, OpNone, OpNone, l.kind)
  {
  }

  lemma RegisterBits(c: Class, e: Expr)
    requires Plain(OpReg(c), e)
    ensures e.Register? && Base(c) <= e.n < Base(c) + 64 && OperandBits(OpReg(c), e) == e.n - Base(c)
  {
  }

  lemma WydeBits(e: Expr)
    requires Plain(OpWyde, e)
    ensures e.Wyde? && 0 <= e.ww < 4 && OperandBits(OpWyde, e) == e.ww
  {
  }

  /** A plain immediate's range and bits, in numbers. */
  lemma ImmBits(bits: nat, signed: bool, e: Expr)
    requires Plain(OpImm(bits, signed), e) && (bits == 6 || bits == 12 || bits == 16 || bits == 18 || bits == 24)
    ensures e.Constant?
    ensures bits == 6 && !signed ==> 0 <= e.v < 64 && OperandBits(OpImm(6, false), e) == e.v
    ensures bits == 12 ==> (if signed then -0x800 <= e.v < 0x800 else 0 <= e.v < 0x1000)
                           && OperandBits(OpImm(12, signed), e) == e.v % 0x1000
    ensures bits == 16 && !signed ==> 0 <= e.v < 0x1_0000 && OperandBits(OpImm(16, false), e) == e.v
    ensures bits == 18 ==> (if signed then -0x2_0000 <= e.v < 0x2_0000 else 0 <= e.v < 0x4_0000)
                           && OperandBits(OpImm(18, signed), e) == e.v % 0x4_0000
    ensures bits == 24 && signed ==> -0x80_0000 <= e.v < 0x80_0000 && OperandBits(OpImm(24, true), e) == e.v % 0x100_0000
  {
    Pow2Values();
    hide Pow2;
  }

  lemma CodeRRRR(l: Line, exp: seq<Expr>)
    requires l.Valid() && l.format == RRRR && AllPlain(l.Fields(), exp)
    ensures InsnCode(AsmEntry(l), exp) == Stop(NORMAL, PlainWord(l, exp))
  {
    hide Or, Pow2, Word, Shl, AsmEntry, OperandBits;
    EntryIs(l);
    assert Plain(l.Fields()[0], exp[0]) && Plain(l.Fields()[1], exp[1]) && Plain(l.Fields()[2], exp[2]) && Plain(l.Fields()[3], exp[3]);
    RegisterBits(l.a, exp[0]);
    RegisterBits(l.b, exp[1]);
    RegisterBits(l.c, exp[2]);
    RegisterBits(l.d, exp[3]);
    var a, b, c, d := exp[0].n - Base(l.a), exp[1].n - Base(l.b), exp[2].n - Base(l.c), exp[3].n - Base(l.d);
    hide Base;
    WordOfFields(l.major, a, b, c, d);
  }

  lemma PlacesRRRR(l: Line, exp: seq<Expr>)
    requires l.Valid() && l.format == RRRR && AllPlain(l.Fields(), exp)
    ensures Encodes(l, exp, PlainWord(l, exp))
  {
    Pow2Values();
    hide Pow2, Op, FA, FB, FC, FD, Word;
    assert Plain(l.Fields()[0], exp[0]) && Plain(l.Fields()[1], exp[1]) && Plain(l.Fields()[2], exp[2]) && Plain(l.Fields()[3], exp[3]);
    FieldsOfWord(l.major, exp[0].n - Base(l.a), exp[1].n - Base(l.b), exp[2].n - Base(l.c), exp[3].n - Base(l.d));
    WordBound(l.major, exp[0].n - Base(l.a), exp[1].n - Base(l.b), exp[2].n - Base(l.c), exp[3].n - Base(l.d));
  }

  lemma CodeORRR(l: Line, exp: seq<Expr>)
    requires l.Valid() && l.format == ORRR && AllPlain(l.Fields(), exp)
    ensures InsnCode(AsmEntry(l), exp) == Stop(NORMAL, PlainWord(l, exp))
  {
    hide Or, Pow2, Word, Shl, AsmEntry, OperandBits;
    EntryIs(l);
    assert Plain(l.Fields()[0], exp[0]) && Plain(l.Fields()[1], exp[1]) && Plain(l.Fields()[2], exp[2]);
    RegisterBits(l.b, exp[0]);
    RegisterBits(l.c, exp[1]);
    RegisterBits(l.d, exp[2]);
    var b, c, d := exp[0].n - Base(l.b), exp[1].n - Base(l.c), exp[2].n - Base(l.d);
    hide Base;
    WordOfFields(l.major, l.minor, b, c, d);
  }

  lemma PlacesORRR(l: Line, exp: seq<Expr>)
    requires l.Valid() && l.format == ORRR && AllPlain(l.Fields(), exp)
    ensures Encodes(l, exp, PlainWord(l, exp))
  {
    Pow2Values();
    hide Pow2, Op, FA, FB, FC, FD, Word;
    assert Plain(l.Fields()[0], exp[0]) && Plain(l.Fields()[1], exp[1]) && Plain(l.Fields()[2], exp[2]);
    FieldsOfWord(l.major, l.minor, exp[0].n - Base(l.b), exp[1].n - Base(l.c), exp[2].n - Base(l.d));
    WordBound(l.major, l.minor, exp[0].n - Base(l.b), exp[1].n - Base(l.c), exp[2].n - Base(l.d));
  }

  lemma CodeRRRI(l: Line, exp: seq<Expr>)
    requires l.Valid() && l.format == RRRI && AllPlain(l.Fields(), exp)
    ensures InsnCode(AsmEntry(l), exp) == Stop(NORMAL, PlainWord(l, exp))
  {
    hide Or, Pow2, Word, Shl, AsmEntry, OperandBits;
    EntryIs(l);
    assert Plain(l.Fields()[0], exp[0]) && Plain(l.Fields()[1], exp[1]) && Plain(l.Fields()[2], exp[2]) && Plain(l.Fields()[3], exp[3]);
    RegisterBits(l.a, exp[0]);
    RegisterBits(l.b, exp[1]);
    RegisterBits(l.c, exp[2]);
    ImmBits(6, false, exp[3]);
    var a, b, c := exp[0].n - Base(l.a), exp[1].n - Base(l.b), exp[2].n - Base(l.c);
    hide Base;
    WordOfFields(l.major, a, b, c, exp[3].v);
  }

  lemma PlacesRRRI(l: Line, exp: seq<Expr>)
    requires l.Valid() && l.format == RRRI && AllPlain(l.Fields(), exp)
    ensures Encodes(l, exp, PlainWord(l, exp))
  {
    Pow2Values();
    hide Pow2, Op, FA, FB, FC, Word;
    assert Plain(l.Fields()[0], exp[0]) && Plain(l.Fields()[1], exp[1]) && Plain(l.Fields()[2], exp[2]) && Plain(l.Fields()[3], exp[3]);
    FieldsOfWord(l.major, exp[0].n - Base(l.a), exp[1].n - Base(l.b), exp[2].n - Base(l.c), exp[3].v);
    WordBound(l.major, exp[0].n - Base(l.a), exp[1].n - Base(l.b), exp[2].n - Base(l.c), exp[3].v);
  }

  lemma CodeORRI(l: Line, exp: seq<Expr>)
    requires l.Valid() && l.format == ORRI && AllPlain(l.Fields(), exp)
    ensures InsnCode(AsmEntry(l), exp) == Stop(NORMAL, PlainWord(l, exp))
  {
    hide Or, Pow2, Word, Shl, AsmEntry, OperandBits;
    EntryIs(l);
    assert Plain(l.Fields()[0], exp[0]) && Plain(l.Fields()[1], exp[1]) && Plain(l.Fields()[2], exp[2]);
    RegisterBits(l.b, exp[0]);
    RegisterBits(l.c, exp[1]);
    ImmBits(6, false, exp[2]);
    var b, c := exp[0].n - Base(l.b), exp[1].n - Base(l.c);
    hide Base;
    WordOfFields(l.major, l.minor, b, c, exp[2].v);
  }

  lemma PlacesORRI(l: Line, exp: seq<Expr>)
    requires l.Valid() && l.format == ORRI && AllPlain(l.Fields(), exp)
    ensures Encodes(l, exp, PlainWord(l, exp))
  {
    Pow2Values();
    hide Pow2, Op, FA, FB, FC, Word;
    assert Plain(l.Fields()[0], exp[0]) && Plain(l.Fields()[1], exp[1]) && Plain(l.Fields()[2], exp[2]);
    FieldsOfWord(l.major, l.minor, exp[0].n - Base(l.b), exp[1].n - Base(l.c), exp[2].v);
    WordBound(l.major, l.minor, exp[0].n - Base(l.b), exp[1].n - Base(l.c), exp[2].v);
  }

  lemma WordBound(major: nat, ha: Reg, hb: Reg, hc: Reg, hd: Reg)
    requires major < 256
    ensures Word(major, ha, hb, hc, hd) < TWO32
  {
  }

  lemma ZeroLow(v: int)
    requires -0x1000 < v < 0x1000
    ensures v % 0x1000 == 0 <==> v == 0
  {
  }

  lemma CodeRRII(l: Line, exp: seq<Expr>)
    requires l.Valid() && l.format == RRII && AllPlain(l.Fields(), exp) && !NullCall(l, exp)
    ensures InsnCode(AsmEntry(l), exp) == Stop(NORMAL, PlainWord(l, exp))
  {
    hide Or, Pow2, Word, Shl, AsmEntry, OperandBits;
    EntryIs(l);
    assert Plain(l.Fields()[0], exp[0]) && Plain(l.Fields()[1], exp[1]) && Plain(l.Fields()[2], exp[2]);
    RegisterBits(l.a, exp[0]);
    RegisterBits(l.b, exp[1]);
    ImmBits(12, l.signed, exp[2]);
    var a, b := exp[0].n - Base(l.a), exp[1].n - Base(l.b);
    hide Base;
    ZeroLow(exp[2].v);
    WordOfImm12(l.major, a, b, exp[2].v % 0x1000);
  }

  lemma PlacesRRII(l: Line, exp: seq<Expr>)
    requires l.Valid() && l.format == RRII && AllPlain(l.Fields(), exp)
    ensures Encodes(l, exp, PlainWord(l, exp))
  {
    Pow2Values();
    hide Pow2, Op, FA, FB;
    assert Plain(l.Fields()[0], exp[0]) && Plain(l.Fields()[1], exp[1]) && Plain(l.Fields()[2], exp[2]);
    var a, b, imm := exp[0].n - Base(l.a), exp[1].n - Base(l.b), exp[2].v % 0x1000;
    HighFields(l.major, a, b * 0x1000 + imm);
    MiddleField(l.major * 64 + a, b, imm);
  }

  lemma CodeRWII(l: Line, exp: seq<Expr>)
    requires l.Valid() && l.format == RWII && AllPlain(l.Fields(), exp)
    ensures InsnCode(AsmEntry(l), exp) == Stop(NORMAL, PlainWord(l, exp))
  {
    hide Or, Pow2, Word, Shl, AsmEntry, OperandBits;
    EntryIs(l);
    assert Plain(l.Fields()[0], exp[0]) && Plain(l.Fields()[1], exp[1]) && Plain(l.Fields()[2], exp[2]);
    RegisterBits(l.a, exp[0]);
    ImmBits(16, false, exp[2]);
    WydeBits(exp[1]);
    var a := exp[0].n - Base(l.a);
    hide Base;
    WordOfWyde(l.major, a, exp[1].ww, exp[2].v);
  }

  lemma WordRWII(l: Line, exp: seq<Expr>)
    requires l.format == RWII && AllPlain(l.Fields(), exp)
    ensures |exp| == 3
    ensures exp[0].Register? && Base(l.a) <= exp[0].n < Base(l.a) + 64
    ensures exp[1].Wyde? && 0 <= exp[1].ww < 4 && exp[2].Constant? && 0 <= exp[2].v < 0x1_0000
    ensures OperandBits(l.Fields()[0], exp[0]) == exp[0].n - Base(l.a)
    ensures OperandBits(l.Fields()[1], exp[1]) == exp[1].ww && OperandBits(l.Fields()[2], exp[2]) == exp[2].v
    ensures PlainWord(l, exp)
         == l.major * 0x100_0000 + (exp[0].n - Base(l.a)) * 0x4_0000 + exp[1].ww * 0x1_0000 + exp[2].v
  {
    Pow2Values();
    hide Pow2;
    assert Plain(l.Fields()[0], exp[0]) && Plain(l.Fields()[1], exp[1]) && Plain(l.Fields()[2], exp[2]);
  }

  lemma PlacesRWII(l: Line, exp: seq<Expr>)
    requires l.Valid() && l.format == RWII && AllPlain(l.Fields(), exp)
    ensures Encodes(l, exp, PlainWord(l, exp))
  {
    hide Pow2, Op, FA, PlainWord, OperandBits, AllPlain;
    WordRWII(l, exp);
    var a, ww, imm := exp[0].n - Base(l.a), exp[1].ww, exp[2].v;
    HighFields(l.major, a, ww * 0x1_0000 + imm);
    WydeFields(l.major * 64 + a, ww, imm);
    Pow2Values();
  }

  lemma WydeFields(top: nat, ww: nat, imm: nat)
    requires ww < 4 && imm < 0x1_0000
    ensures var w := top * 0x4_0000 + ww * 0x1_0000 + imm; w % 0x1_0000 == imm && w / 0x1_0000 % 4 == ww
  {
    DivMod(top * 4 + ww, imm, 0x1_0000);
    DivMod(top, ww, 4);
  }

  lemma CodeRIII(l: Line, exp: seq<Expr>)
    requires l.Valid() && l.format == RIII && AllPlain(l.Fields(), exp)
    ensures InsnCode(AsmEntry(l), exp) == Stop(NORMAL, PlainWord(l, exp))
  {
    hide Or, Pow2, Word, Shl, AsmEntry, OperandBits;
    EntryIs(l);
    assert Plain(l.Fields()[0], exp[0]) && Plain(l.Fields()[1], exp[1]);
    RegisterBits(l.a, exp[0]);
    ImmBits(18, l.signed, exp[1]);
    var a := exp[0].n - Base(l.a);
    hide Base;
    WordOfImm18(l.major, a, exp[1].v % 0x4_0000);
  }

  lemma PlacesRIII(l: Line, exp: seq<Expr>)
    requires l.Valid() && l.format == RIII && AllPlain(l.Fields(), exp)
    ensures Encodes(l, exp, PlainWord(l, exp))
  {
    Pow2Values();
    hide Pow2, Op, FA;
    assert Plain(l.Fields()[0], exp[0]) && Plain(l.Fields()[1], exp[1]);
    HighFields(l.major, exp[0].n - Base(l.a), exp[1].v % 0x4_0000);
  }

  lemma CodeOIII(l: Line, exp: seq<Expr>)
    requires l.Valid() && l.format == OIII && AllPlain(l.Fields(), exp)
    ensures InsnCode(AsmEntry(l), exp) == Stop(NORMAL, PlainWord(l, exp))
  {
    hide Or, Pow2, Word, Shl, AsmEntry, OperandBits;
    EntryIs(l);
    assert Plain(l.Fields()[0], exp[0]);
    ImmBits(18, false, exp[0]);
    WordOfImm18(l.major, l.minor, exp[0].v % 0x4_0000);
  }

  lemma PlacesOIII(l: Line, exp: seq<Expr>)
    requires l.Valid() && l.format == OIII && AllPlain(l.Fields(), exp)
    ensures Encodes(l, exp, PlainWord(l, exp))
  {
    Pow2Values();
    hide Pow2, Op, FA;
    assert Plain(l.Fields()[0], exp[0]);
    HighFields(l.major, l.minor, exp[0].v % 0x4_0000);
  }

  lemma CodeIIII(l: Line, exp: seq<Expr>)
    requires l.Valid() && l.format == IIII && AllPlain(l.Fields(), exp)
    ensures InsnCode(AsmEntry(l), exp) == Stop(NORMAL, PlainWord(l, exp))
  {
    hide Or, Pow2, Word, Shl, AsmEntry, OperandBits;
    EntryIs(l);
    assert Plain(l.Fields()[0], exp[0]);
    ImmBits(24, true, exp[0]);
    WordOfImm24(l.major, exp[0].v % 0x100_0000);
  }

  lemma PlacesIIII(l: Line, exp: seq<Expr>)
    requires l.Valid() && l.format == IIII && AllPlain(l.Fields(), exp)
    ensures Encodes(l, exp, PlainWord(l, exp))
  {
    Pow2Values();
    hide Pow2, FA;
    assert Plain(l.Fields()[0], exp[0]);
    DivMod(l.major, exp[0].v % 0x100_0000, 0x100_0000);
  }

  /** Every operand list whose operands are of their fields' kinds and in range
      is accepted, and each operand is in its place of the word; the call
      through two zero registers is the exception. */
  lemma PlainEncodes(l: Line, exp: seq<Expr>)
    requires l.Valid() && AllPlain(l.Fields(), exp) && !NullCall(l, exp)
    ensures InsnCode(AsmEntry(l), exp) == Stop(NORMAL, PlainWord(l, exp))
    ensures Encodes(l, exp, PlainWord(l, exp))
  {
    hide InsnCode, AsmEntry, AllPlain, Encodes, Line.Fields, PlainWord;
    match l.format
    case RRII => CodeRRII(l, exp); PlacesRRII(l, exp);
    case RRRI => CodeRRRI(l, exp); PlacesRRRI(l, exp);
    case ORRI => CodeORRI(l, exp); PlacesORRI(l, exp);
    case ORRR => CodeORRR(l, exp); PlacesORRR(l, exp);
    case RRRR => CodeRRRR(l, exp); PlacesRRRR(l, exp);
    case RWII => CodeRWII(l, exp); PlacesRWII(l, exp);
    case RIII => CodeRIII(l, exp); PlacesRIII(l, exp);
    case OIII => CodeOIII(l, exp); PlacesOIII(l, exp);
    case IIII => CodeIIII(l, exp); PlacesIIII(l, exp);
  }

  // ------------------------------------------------ everything that is accepted

  /** What the encoder puts in the word for an immediate: zero when it is not a constant. */
  function SeenImm(e: Expr): Expr { if e.Constant? then e else Constant(0) }

  /** The plain operand list that an accepted list is encoded like.  A symbol in
      the immediate of an ordinary instruction and a missing constant in a
      6-bit immediate count as zero; a shifted third operand replaces the
      second and the third. */
  function Seen(l: Line, exp: seq<Expr>): seq<Expr>
    requires |exp| == |l.Fields()|
  {
    match l.format
    case RRRI => [exp[0], exp[1], exp[2], SeenImm(exp[3])]
    case ORRI => if exp[2].LeftShift? then [exp[0], exp[2].left, SeenImm(exp[2].right)] else [exp[0], exp[1], SeenImm(exp[2])]
    case RRII => [exp[0], exp[1], SeenImm(exp[2])]
    case RIII => [exp[0], SeenImm(exp[1])]
    case IIII => [SeenImm(exp[0])]
    case _ => exp
  }

  predicate NegativeWyde(l: Line, exp: seq<Expr>) { l.format == RWII && |exp| == 3 && exp[1].Wyde? && exp[1].ww < 0 }

  /** Not rejected: the word stands as it is, or is to be relocated. */
  predicate Accepted(l: Line, exp: seq<Expr>) { InsnCode(AsmEntry(l), exp).ret != -1 }

  lemma {:induction false} PlainIsSeen(l: Line, exp: seq<Expr>)
    requires AllPlain(l.Fields(), exp)
    ensures Seen(l, exp) == exp
  {
    hide Pow2;
    assert forall i :: 0 <= i < |exp| ==> Plain(l.Fields()[i], exp[i]);
  }

  lemma PlainRRRR(l: Line, exp: seq<Expr>)
    requires l.Valid() && l.format == RRRR && Accepted(l, exp)
    ensures |exp| == |l.Fields()| && AllPlain(l.Fields(), Seen(l, exp))
  {
    Pow2Values();
    hide Or, Pow2, Shl;
  }

  lemma AcceptedRRRR(l: Line, exp: seq<Expr>)
    requires l.Valid() && l.format == RRRR && Accepted(l, exp)
    ensures |exp| == |l.Fields()| && AllPlain(l.Fields(), Seen(l, exp))
    ensures InsnCode(AsmEntry(l), exp).code == PlainWord(l, Seen(l, exp))
  {
    hide Or, Pow2, Shl;
    PlainRRRR(l, exp);
    CodeRRRR(l, exp);
  }

  lemma PlainORRR(l: Line, exp: seq<Expr>)
    requires l.Valid() && l.format == ORRR && Accepted(l, exp)
    ensures |exp| == |l.Fields()| && AllPlain(l.Fields(), Seen(l, exp))
  {
    Pow2Values();
    hide Or, Pow2, Shl;
  }

  lemma AcceptedORRR(l: Line, exp: seq<Expr>)
    requires l.Valid() && l.format == ORRR && Accepted(l, exp)
    ensures |exp| == |l.Fields()| && AllPlain(l.Fields(), Seen(l, exp))
    ensures InsnCode(AsmEntry(l), exp).code == PlainWord(l, Seen(l, exp))
  {
    hide Or, Pow2, Shl;
    PlainORRR(l, exp);
    CodeORRR(l, exp);
  }

  lemma PlainRRRI(l: Line, exp: seq<Expr>)
    requires l.Valid() && l.format == RRRI && Accepted(l, exp)
    ensures |exp| == |l.Fields()| && AllPlain(l.Fields(), Seen(l, exp))
    ensures InsnCode(AsmEntry(l), exp) == InsnCode(AsmEntry(l), Seen(l, exp))
  {
    Pow2Values();
    hide Or, Pow2, Shl;
  }

  lemma AcceptedRRRI(l: Line, exp: seq<Expr>)
    requires l.Valid() && l.format == RRRI && Accepted(l, exp)
    ensures |exp| == |l.Fields()| && AllPlain(l.Fields(), Seen(l, exp))
    ensures InsnCode(AsmEntry(l), exp).code == PlainWord(l, Seen(l, exp))
  {
    hide Or, Pow2, Shl;
    PlainRRRI(l, exp);
    CodeRRRI(l, Seen(l, exp));
  }

  lemma PlainORRI(l: Line, exp: seq<Expr>)
    requires l.Valid() && l.format == ORRI && Accepted(l, exp)
    ensures |exp| == |l.Fields()| && AllPlain(l.Fields(), Seen(l, exp))
    ensures InsnCode(AsmEntry(l), exp) == InsnCode(AsmEntry(l), Seen(l, exp))
  {
    Pow2Values();
    hide Or, Pow2, Shl;
  }

  lemma AcceptedORRI(l: Line, exp: seq<Expr>)
    requires l.Valid() && l.format == ORRI && Accepted(l, exp)
    ensures |exp| == |l.Fields()| && AllPlain(l.Fields(), Seen(l, exp))
    ensures InsnCode(AsmEntry(l), exp).code == PlainWord(l, Seen(l, exp))
  {
    hide Or, Pow2, Shl;
    PlainORRI(l, exp);
    CodeORRI(l, Seen(l, exp));
  }

  lemma PlainRRII(l: Line, exp: seq<Expr>)
    requires l.Valid() && l.format == RRII && Accepted(l, exp)
    ensures |exp| == |l.Fields()| == 3 && AllPlain(l.Fields(), Seen(l, exp))
    ensures exp[2].Constant? ==> !NullCall(l, exp) && Seen(l, exp) == exp
    ensures var high := Or(Shl(l.major, 0x100_0000), Shl(exp[0].n - Base(l.a), 0x4_0000));
            !exp[2].Constant? ==> InsnCode(AsmEntry(l), exp).code == Or(high, Shl(exp[1].n - Base(l.b), 0x1000))
  {
    Pow2Values();
    hide Or, Pow2, Shl;
  }

  lemma SymbolRRII(l: Line, exp: seq<Expr>)
    requires l.Valid() && l.format == RRII && |exp| == 3 && !exp[2].Constant?
    requires AllPlain(l.Fields(), Seen(l, exp))
    ensures exp[0].Register? && Base(l.a) <= exp[0].n < Base(l.a) + 64
    ensures exp[1].Register? && Base(l.b) <= exp[1].n < Base(l.b) + 64
    ensures PlainWord(l, Seen(l, exp)) == ((l.major * 64 + exp[0].n - Base(l.a)) * 64 + exp[1].n - Base(l.b)) * 0x1000
  {
    Pow2Values();
    hide Pow2;
    assert Plain(l.Fields()[0], Seen(l, exp)[0]) && Plain(l.Fields()[1], Seen(l, exp)[1]);
  }

  lemma AcceptedRRII(l: Line, exp: seq<Expr>)
    requires l.Valid() && l.format == RRII && Accepted(l, exp)
    ensures |exp| == |l.Fields()| && AllPlain(l.Fields(), Seen(l, exp))
    ensures InsnCode(AsmEntry(l), exp).code == PlainWord(l, Seen(l, exp))
  {
    hide Or, Pow2, Shl, InsnCode, AsmEntry, PlainWord, AllPlain, Seen;
    PlainRRII(l, exp);
    if exp[2].Constant? {
      CodeRRII(l, exp);
    } else {
      SymbolRRII(l, exp);
      MiddlePart(l.major, exp[0].n - Base(l.a), exp[1].n - Base(l.b));
    }
  }

  lemma PlainRWII(l: Line, exp: seq<Expr>)
    requires l.Valid() && l.format == RWII && Accepted(l, exp) && !NegativeWyde(l, exp)
    ensures |exp| == |l.Fields()| && AllPlain(l.Fields(), Seen(l, exp))
  {
    Pow2Values();
    hide Or, Pow2, Shl;
  }

  lemma AcceptedRWII(l: Line, exp: seq<Expr>)
    requires l.Valid() && l.format == RWII && Accepted(l, exp) && !NegativeWyde(l, exp)
    ensures |exp| == |l.Fields()| && AllPlain(l.Fields(), Seen(l, exp))
    ensures InsnCode(AsmEntry(l), exp).code == PlainWord(l, Seen(l, exp))
  {
    hide Or, Pow2, Shl;
    PlainRWII(l, exp);
    CodeRWII(l, exp);
  }

  lemma AcceptedRIII(l: Line, exp: seq<Expr>)
    requires l.Valid() && l.format == RIII && Accepted(l, exp)
    ensures |exp| == |l.Fields()| && AllPlain(l.Fields(), Seen(l, exp))
    ensures InsnCode(AsmEntry(l), exp).code == PlainWord(l, Seen(l, exp))
  {
    Pow2Values();
    hide Or, Pow2, Shl;
    var e := Seen(l, exp);
    WordOfImm18(l.major, e[0].n - Base(l.a), e[1].v % 0x4_0000);
    HighPart(l.major, e[0].n - Base(l.a));
  }

  lemma AcceptedOIII(l: Line, exp: seq<Expr>)
    requires l.Valid() && l.format == OIII && Accepted(l, exp)
    ensures |exp| == |l.Fields()| && AllPlain(l.Fields(), Seen(l, exp))
    ensures InsnCode(AsmEntry(l), exp).code == PlainWord(l, Seen(l, exp))
  {
    Pow2Values();
    hide Or, Pow2, Shl;
    var e := Seen(l, exp);
    WordOfImm18(l.major, l.minor, exp[0].v % 0x4_0000);
  }

  lemma AcceptedIIII(l: Line, exp: seq<Expr>)
    requires l.Valid() && l.format == IIII && Accepted(l, exp)
    ensures |exp| == |l.Fields()| && AllPlain(l.Fields(), Seen(l, exp))
    ensures InsnCode(AsmEntry(l), exp).code == PlainWord(l, Seen(l, exp))
  {
    Pow2Values();
    hide Or, Pow2, Shl;
    var e := Seen(l, exp);
    WordOfImm24(l.major, e[0].v % 0x100_0000);
    HighPart(l.major, 0);
  }

  /** Whatever is accepted, a negative wyde number apart, is encoded as the plain
      operand list it is taken for. */
  lemma AcceptedEncodesSeen(l: Line, exp: seq<Expr>)
    requires l.Valid() && Accepted(l, exp) && !NegativeWyde(l, exp)
    ensures |exp| == |l.Fields()| && AllPlain(l.Fields(), Seen(l, exp))
    ensures InsnCode(AsmEntry(l), exp).code == PlainWord(l, Seen(l, exp))
    ensures Encodes(l, Seen(l, exp), InsnCode(AsmEntry(l), exp).code)
  {
    hide InsnCode, AsmEntry, AllPlain, Encodes, Line.Fields, PlainWord, Accepted, NegativeWyde, Seen;
    match l.format
    case RRII => AcceptedRRII(l, exp); PlacesRRII(l, Seen(l, exp));
    case RRRI => AcceptedRRRI(l, exp); PlacesRRRI(l, Seen(l, exp));
    case ORRI => AcceptedORRI(l, exp); PlacesORRI(l, Seen(l, exp));
    case ORRR => AcceptedORRR(l, exp); PlacesORRR(l, Seen(l, exp));
    case RRRR => AcceptedRRRR(l, exp); PlacesRRRR(l, Seen(l, exp));
    case RWII => AcceptedRWII(l, exp); PlacesRWII(l, Seen(l, exp));
    case RIII => AcceptedRIII(l, exp); PlacesRIII(l, Seen(l, exp));
    case OIII => AcceptedOIII(l, exp); PlacesOIII(l, Seen(l, exp));
    case IIII => AcceptedIIII(l, exp); PlacesIIII(l, Seen(l, exp));
  }

  /** A negative wyde number, which the operand parser makes of `w` and a
      character below `0` (or above 0x7F, where char is signed), turns the
      opcode into 0xFF. */
  lemma NegativeWydeBreaks(l: Line, exp: seq<Expr>)
    requires l.Valid() && Accepted(l, exp) && NegativeWyde(l, exp) && exp[1].ww >= -256
    ensures Op(InsnCode(AsmEntry(l), exp).code) == 0xFF
  {
    Pow2Values();
    hide Or, Pow2, Op;
    var ha, hb, imm := exp[0].n - Base(l.a), exp[1].ww % TWO32, exp[2].v % 0x1_0000;
    HighPart(l.major, ha);
    var low := exp[1].ww + 0x1_0000;
    ShlNegative(exp[1].ww);
    BrokenTop(l.major * 64 + ha, low, imm);
  }

  lemma ShlNegative(ww: int)
    requires -0x1_0000 <= ww < 0
    ensures Shl(ww % TWO32, 0x1_0000) == (ww + 0x1_0000) * 0x1_0000
  {
    assert ww % TWO32 == ww + TWO32;
    assert (ww + TWO32) * 0x1_0000 == 0xFFFF * TWO32 + (ww + 0x1_0000) * 0x1_0000;
    DivMod(0xFFFF, (ww + 0x1_0000) * 0x1_0000, TWO32);
  }

  lemma BrokenTop(top: nat, low: nat, imm: nat)
    requires top < 0x4000 && 0xFF00 <= low < 0x1_0000 && imm < 0x1_0000
    ensures Op(Or(Or(top * 0x4_0000, low * 0x1_0000), imm)) == 0xFF
  {
    Pow2Values();
    hide Or, Pow2;
    var t, u := top * 4, low - 0xFF00;
    OrBound(t % 256, u, 8);
    var r := Or(t % 256, u);
    assert Or(t, low) == 0xFF00 + r by {
      OrSplit(t / 256, t % 256, 0xFF, u, 8);
      OrOnes(t / 256, 8);
    }
    OrSplit(t, 0, low, 0, 16);
    OrZero(0);
    Imm16Part(0xFF00 + r, imm);
    DivMod(0xFF, r * 0x1_0000 + imm, 0x100_0000);
  }

  // --------------------------------------------- every operand list there is

  /** An immediate that a label may stand for: the instruction is relocated. */
  predicate Relocatable(f: Operand) { f == OpImm(24, true) || f == OpImm(18, true) || f == OpImm(12, true) }

  /** The expressions that a field takes: plain ones; in a relocatable immediate
      also anything that is not a constant (of 12 bits: a symbol); in a 6-bit
      immediate anything that is not a constant; and negative wyde numbers. */
  predicate Takes(f: Operand, e: Expr) {
    || Plain(f, e)
    || (Relocatable(f) && !e.Constant? && (f.bits == 12 ==> e.Symbol?))
    || (f == OpImm(6, false) && !e.Constant?)
    || (f == OpWyde && e.Wyde? && e.ww < 0)
  }

  /** A shifted third operand gives the second and the third, of an rd register. */
  predicate Shifted(l: Line, exp: seq<Expr>) { l.format == ORRI && |exp| == 3 && exp[2].LeftShift? }

  predicate Readable(l: Line, exp: seq<Expr>) {
    && |exp| == |l.Fields()|
    && (if Shifted(l, exp)
        then l.c == ClassRd && Takes(OpReg(l.b), exp[0]) && Takes(OpReg(ClassRd), exp[2].left) && Takes(OpImm(6, false), exp[2].right)
        else forall i :: 0 <= i < |exp| ==> Takes(l.Fields()[i], exp[i]))
    && !NullCall(l, exp)
  }

  /** The last operand is left to a relocation. */
  predicate LeftOpen(l: Line, exp: seq<Expr>)
    requires |exp| == |l.Fields()|
  {
    Relocatable(l.Last()) && !exp[|exp| - 1].Constant?
  }

  /** The encoder's return value for every line and every operand list. */
  function Verdict(l: Line, exp: seq<Expr>): int {
    if !Readable(l, exp) then -1 else if LeftOpen(l, exp) then l.kind else 0
  }

  lemma VerdictRRRR(l: Line, exp: seq<Expr>)
    requires l.Valid() && l.format == RRRR
    ensures InsnCode(AsmEntry(l), exp).ret == Verdict(l, exp)
  {
    hide Or, Pow2, Shl;
    if |exp| == 4 { assert Readable(l, exp) <==> forall i :: 0 <= i < 4 ==> Takes(l.Fields()[i], exp[i]); }
  }

  lemma VerdictORRR(l: Line, exp: seq<Expr>)
    requires l.Valid() && l.format == ORRR
    ensures InsnCode(AsmEntry(l), exp).ret == Verdict(l, exp)
  {
    hide Or, Pow2, Shl;
  }

  lemma VerdictRRRI(l: Line, exp: seq<Expr>)
    requires l.Valid() && l.format == RRRI
    ensures InsnCode(AsmEntry(l), exp).ret == Verdict(l, exp)
  {
    Pow2Values();
    hide Or, Pow2, Shl;
  }

  lemma VerdictORRI(l: Line, exp: seq<Expr>)
    requires l.Valid() && l.format == ORRI
    ensures InsnCode(AsmEntry(l), exp).ret == Verdict(l, exp)
  {
    Pow2Values();
    hide Or, Pow2, Shl;
  }

  lemma VerdictRRII(l: Line, exp: seq<Expr>)
    requires l.Valid() && l.format == RRII
    ensures InsnCode(AsmEntry(l), exp).ret == Verdict(l, exp)
  {
    Pow2Values();
    hide Or, Pow2, Shl;
  }

  lemma VerdictRWII(l: Line, exp: seq<Expr>)
    requires l.Valid() && l.format == RWII
    ensures InsnCode(AsmEntry(l), exp).ret == Verdict(l, exp)
  {
    Pow2Values();
    hide Or, Pow2, Shl;
  }

  lemma VerdictRIII(l: Line, exp: seq<Expr>)
    requires l.Valid() && l.format == RIII
    ensures InsnCode(AsmEntry(l), exp).ret == Verdict(l, exp)
  {
    Pow2Values();
    hide Or, Pow2, Shl;
  }

  lemma VerdictOIII(l: Line, exp: seq<Expr>)
    requires l.Valid() && l.format == OIII
    ensures InsnCode(AsmEntry(l), exp).ret == Verdict(l, exp)
  {
    Pow2Values();
    hide Or, Pow2, Shl;
  }

  lemma VerdictIIII(l: Line, exp: seq<Expr>)
    requires l.Valid() && l.format == IIII
    ensures InsnCode(AsmEntry(l), exp).ret == Verdict(l, exp)
  {
    Pow2Values();
    hide Or, Pow2, Shl;
  }

  /** For every line and every operand list: which are rejected, which are left
      to a relocation of the line's kind, and which are final. */
  lemma ReturnsVerdict(l: Line, exp: seq<Expr>)
    requires l.Valid()
    ensures InsnCode(AsmEntry(l), exp).ret == Verdict(l, exp)
    ensures Accepted(l, exp) <==> Readable(l, exp)
  {
    hide InsnCode, AsmEntry, Readable, LeftOpen;
    match l.format
    case RRII => VerdictRRII(l, exp);
    case RRRI => VerdictRRRI(l, exp);
    case ORRI => VerdictORRI(l, exp);
    case ORRR => VerdictORRR(l, exp);
    case RRRR => VerdictRRRR(l, exp);
    case RWII => VerdictRWII(l, exp);
    case RIII => VerdictRIII(l, exp);
    case OIII => VerdictOIII(l, exp);
    case IIII => VerdictIIII(l, exp);
  }

  /** A label in the immediate of a jump, call, branch, load or store: the
      encoder returns the line's kind, and the word is the one for zero. */
  lemma LabelIsRelocated(l: Line, exp: seq<Expr>)
    requires l.Valid() && Relocatable(l.Last()) && |exp| == |l.Fields()| && exp[|exp| - 1] == Symbol
    requires forall i :: 0 <= i < |exp| - 1 ==> Plain(l.Fields()[i], exp[i])
    ensures InsnCode(AsmEntry(l), exp).ret == l.kind
    ensures var zero := exp[|exp| - 1 := Constant(0)];
            AllPlain(l.Fields(), zero) && Encodes(l, zero, InsnCode(AsmEntry(l), exp).code)
  {
    var zero := exp[|exp| - 1 := Constant(0)];
    ReturnsVerdict(l, exp);
    LabelReadable(l, exp);
    AcceptedEncodesSeen(l, exp);
  }

  lemma LabelReadable(l: Line, exp: seq<Expr>)
    requires l.Valid() && Relocatable(l.Last()) && |exp| == |l.Fields()| && exp[|exp| - 1] == Symbol
    requires forall i :: 0 <= i < |exp| - 1 ==> Plain(l.Fields()[i], exp[i])
    ensures Readable(l, exp) && LeftOpen(l, exp) && !NegativeWyde(l, exp)
    ensures Seen(l, exp) == exp[|exp| - 1 := Constant(0)]
  {
    hide Pow2;
  }

  // ------------------------------------------------------ the encoder itself

  /** The register macros: check the class and take its base off. */
  method ExpShouldBeReg(c: Class, e: Expr, used: nat) returns (p: Parse)
    ensures p == RegField(c, e, used)
  {
    if !e.Register? { return REJECT; }
    if e.n > Base(c) + 0x3F { return REJECT; }
    if e.n < Base(c) { return REJECT; }
    p := Go(e.n - Base(c), used + 1);
  }

  method ParseA(o: Opcode, exp: seq<Expr>) returns (p: Parse)
    ensures p == FieldA(o, exp)
  {
    hide Or, Shl, RegField;
    match o.fa {
      case OpReg(c) =>
        if c == ClassCr { return REJECT; }
        p := ExpShouldBeReg(c, At(exp, 0), 0);
      case OpMinor =>
        p := Go(o.minor, 0);
      case OpImm(bits, signed) =>
        if bits != 24 || !signed { return REJECT; }
        var e := At(exp, 0);
        if e.Constant? {
          if e.v > 0x7F_FFFF || e.v < -0x80_0000 { return REJECT; }
          p := Stop(NORMAL, Or(Shl(o.major, 0x100_0000), e.v % 0x100_0000));
        } else {
          p := Stop(o.kind, Shl(o.major, 0x100_0000));
        }
      case OpNone =>
        p := Go(0, 0);
      case OpWyde =>
        p := REJECT;
    }
  }

  method ParseB(o: Opcode, exp: seq<Expr>, ha: nat, nExp: nat) returns (p: Parse)
    ensures p == FieldB(o, exp, ha, nExp)
  {
    hide Or, Shl, RegField;
    var e := At(exp, nExp);
    match o.fb {
      case OpReg(c) =>
        if c == ClassCp { return REJECT; }
        p := ExpShouldBeReg(c, e, nExp);
      case OpWyde =>
        if !e.Wyde? || e.ww > 0x3 { return REJECT; }
        p := Go(e.ww % TWO32, nExp + 1);
      case OpImm(bits, signed) =>
        if bits != 18 { return REJECT; }
        var high := Or(Shl(o.major, 0x100_0000), Shl(ha, 0x4_0000));
        if signed {
          if e.Constant? {
            if e.v > 0x1_FFFF || e.v < -0x2_0000 { return REJECT; }
            return Stop(NORMAL, Or(high, e.v % 0x4_0000));
          } else {
            return Stop(o.kind, high);
          }
        }
        if !e.Constant? || e.v > 0x3_FFFF || e.v < 0 { return REJECT; }
        p := Stop(NORMAL, Or(high, e.v % 0x4_0000));
      case OpNone =>
        p := Go(0, nExp);
      case OpMinor =>
        p := REJECT;
    }
  }

  method ParseC(o: Opcode, exp: seq<Expr>, ha: nat, hb: nat, nExp: nat, next: Expr) returns (p: Parse)
    ensures p == FieldC(o, exp, ha, hb, nExp, next)
  {
    hide Or, Shl, RegField;
    match o.fc {
      case OpReg(c) =>
        if c == ClassCp { return REJECT; }
        p := ExpShouldBeReg(c, next, nExp);
      case OpImm(bits, signed) =>
        var high := Or(Or(Shl(o.major, 0x100_0000), Shl(ha, 0x4_0000)), Shl(hb, 0x1000));
        if bits == 12 && signed {
          if next.Symbol? { return Stop(o.kind, high); }
          if !next.Constant? || next.v > 0x7FF || next.v < -0x800 { return REJECT; }
          if o.major == 0x6D && o.operands == 3 {
            if ha == 0 && hb == 0 && next.v % 0x1000 == 0 { return REJECT; }
          }
          p := Stop(NORMAL, Or(high, next.v % 0x1000));
        } else if bits == 12 {
          if !next.Constant? || next.v > 0xFFF || next.v < 0 { return REJECT; }
          p := Stop(NORMAL, Or(high, next.v % 0x1000));
        } else if bits == 16 && !signed {
          var e := At(exp, nExp);
          if !e.Constant? || e.v > 0xFFFF || e.v < 0 { return REJECT; }
          var top := Or(Or(Shl(o.major, 0x100_0000), Shl(ha, 0x4_0000)), Shl(hb, 0x1_0000));
          p := Stop(NORMAL, Or(top, e.v % 0x1_0000));
        } else {
          p := REJECT;
        }
      case OpNone =>
        p := Go(0, nExp);
      case _ =>
        p := REJECT;
    }
  }

  method ParseD(o: Opcode, last: Expr) returns (p: Parse)
    ensures p == FieldD(o, last)
  {
    hide RegField;
    match o.fd {
      case OpReg(c) =>
        if c == ClassCp { return REJECT; }
        p := ExpShouldBeReg(c, last, 0);
      case OpImm(bits, signed) =>
        if bits != 6 || signed { return REJECT; }
        if last.Constant? {
          if last.v > 0x3F || last.v < 0 { return REJECT; }
          p := Go(last.v, 0);
        } else {
          p := Go(0, 0);
        }
      case OpNone =>
        p := Go(0, 0);
      case _ =>
        p := REJECT;
    }
  }

  /** Encodes field by field; code is left alone when the operands are refused. */
  method GetInsnCode(o: Opcode, exp: seq<Expr>, initial: nat) returns (ret: int, code: nat)
    ensures InsnCode(o, exp).Stop? && ret == InsnCode(o, exp).ret
    ensures code == if InsnCode(o, exp) == REJECT then initial else InsnCode(o, exp).code
  {
    hide Or, Shl, FieldA, FieldB, FieldC, FieldD;
    code := initial;
    if |exp| != o.operands { return -1, code; }
    var a := ParseA(o, exp);
    if a.Stop? { return a.ret, if a == REJECT then code else a.code; }
    var b := ParseB(o, exp, a.v, a.used);
    if b.Stop? { return b.ret, if b == REJECT then code else b.code; }
    var next, last := At(exp, b.used), At(exp, b.used + 1);
    if |exp| == 3 && exp[2].LeftShift? {
      if o.fc != OpReg(ClassRd) || o.fd != OpImm(6, false) { return -1, code; }
      next, last := exp[2].left, exp[2].right;
    }
    var c := ParseC(o, exp, a.v, b.v, b.used, next);
    if c.Stop? { return c.ret, if c == REJECT then code else c.code; }
    var d := ParseD(o, last);
    if d.Stop? { return d.ret, if d == REJECT then code else d.code; }
    return 0, Or(Or(Or(Or(Shl(o.major, 0x100_0000), Shl(a.v, 0x4_0000)), Shl(b.v, 0x1000)), Shl(c.v, 0x40)), d.v);
  }
}

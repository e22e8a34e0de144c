/** `setrd`/`setrb`/`setrf` with a 64-bit constant: the assembler's expansion
    into wyde instructions, what it computes and how close to shortest it is. */
module SetImm {
  import opened Bits
  import opened Machine
  import opened Frags
  import OpcodeTable

  const SETZW_RD: nat := 0x1600_0000
  const SETOW_RD: nat := 0x1700_0000
  const ORW_RD: nat := 0x1400_0000
  const ANDNW_RD: nat := 0x1500_0000
  const SETZW_RB: nat := 0x4E00_0000
  const ORW_RB: nat := 0x4C00_0000
  const SETW: nat := 0x5400_0000

  /** insn | (reg << 18) | (wyde << 16) | imm */
  function WydeWord(insn: nat, reg: nat, wyde: nat, imm: nat): nat {
    Or(Or(Or(insn, reg * 0x4_0000), wyde * 0x1_0000), imm)
  }

  /** The opcode of a wyde instruction, 0 when the bank has no such one. */
  function OpcodeOf(bank: Bank, kind: WydeKind): nat {
    match bank
    case RD => (match kind case OrW => 0x14 case AndNW => 0x15 case SetZw => 0x16 case SetOw => 0x17 case SetW => 0)
    case RB => (match kind case OrW => 0x4C case AndNW => 0x4D case SetZw => 0x4E case _ => 0)
    case RF => (match kind case SetW => 0x54 case _ => 0)
    case RA => 0
  }

  lemma WydeWordSum(op: nat, reg: Reg, wyde: nat, imm: nat)
    requires wyde < 4 && imm < TWO16
    ensures WydeWord(op * 0x100_0000, reg, wyde, imm) == op * 0x100_0000 + reg * 0x4_0000 + wyde * 0x1_0000 + imm
  {
    hide Or;
    Pow2Values();
    OrField(op, reg * 0x4_0000, 24);
    OrField(op * 64 + reg, wyde * 0x1_0000, 18);
    assert Or(op * 0x100_0000, reg * 0x4_0000) == (op * 64 + reg) * 0x4_0000;
    assert Or((op * 64 + reg) * 0x4_0000, wyde * 0x1_0000) == (op * 0x100 + reg * 4 + wyde) * 0x1_0000;
    OrField(op * 0x100 + reg * 4 + wyde, imm, 16);
  }

  lemma WydeWordFields(op: nat, reg: Reg, wyde: nat, imm: nat)
    requires wyde < 4 && imm < TWO16
    ensures var w := WydeWord(op * 0x100_0000, reg, wyde, imm);
            Op(w) == op && FA(w) == reg && w / 0x1_0000 % 4 == wyde && w % 0x1_0000 == imm
  {
    hide WydeWord, Op, FA;
    WydeWordSum(op, reg, wyde, imm);
    HighFields(op, reg, wyde * 0x1_0000 + imm);
    WydeFields(op * 64 + reg, wyde, imm);
  }

  lemma WydeFields(high: nat, wyde: nat, imm: nat)
    requires wyde < 4 && imm < TWO16
    ensures var w := high * 0x4_0000 + wyde * 0x1_0000 + imm;
            w / 0x1_0000 % 4 == wyde && w % 0x1_0000 == imm
  {
    DivMod(high * 4 + wyde, imm, 0x1_0000);
    DivMod(high, wyde, 4);
  }

  lemma WydeWordDecodes(bank: Bank, kind: WydeKind, reg: Reg, wyde: nat, imm: nat)
    requires wyde < 4 && imm < TWO16 && OpcodeOf(bank, kind) != 0
    ensures Decode(WydeWord(OpcodeOf(bank, kind) * 0x100_0000, reg, wyde, imm)) == WydeImm(kind, bank, reg, wyde, imm)
  {
    WydeWordFields(OpcodeOf(bank, kind), reg, wyde, imm);
  }

  // ------------------------------------------------------- wyde programs

  /** One wyde instruction on a fixed register. */
  datatype WydeOp = WydeOp(kind: WydeKind, ww: nat, imm: nat) {
    predicate Valid() { ww < 4 && imm < TWO16 }
  }

  predicate ValidOps(ops: seq<WydeOp>) { forall i :: 0 <= i < |ops| ==> ops[i].Valid() }

  function Apply(ops: seq<WydeOp>, v: Wydes): (r: Wydes)
    requires ValidOps(ops)
  {
    if ops == [] then v else Apply(ops[1..], WydeEffect(ops[0].kind, v, ops[0].ww, ops[0].imm))
  }

  function CountNot(v: Wydes, base: nat): nat {
    (if v.wk != base then 1 else 0) + (if v.wj != base then 1 else 0) + (if v.wh != base then 1 else 0)
  }

  /** The background the expansion starts from: ones when more of the three
      upper wydes are all ones than are zero, else zeros. */
  function BaseOf(bank: Bank, v: Wydes): nat {
    if bank == RD && CountNot(v, 0xFFFF) < CountNot(v, 0) then 0xFFFF else 0
  }

  function Patch(base: nat, ww: nat, w: nat): seq<WydeOp>
    requires w < TWO16
  {
    if w == base then []
    else if base == 0 then [WydeOp(OrW, ww, w)]
    else [WydeOp(AndNW, ww, 0xFFFF - w)]
  }

  /** The expansion, as wyde operations. */
  function Plan(bank: Bank, v: Wydes): (ops: seq<WydeOp>)
    requires v.Valid()
    ensures ValidOps(ops)
  {
    if bank == RF then
      [WydeOp(SetW, 0, v.wl), WydeOp(SetW, 1, v.wk), WydeOp(SetW, 2, v.wj), WydeOp(SetW, 3, v.wh)]
    else
      var b := BaseOf(bank, v);
      [WydeOp(if b == 0 then SetZw else SetOw, 0, v.wl)]
      + Patch(b, 1, v.wk) + Patch(b, 2, v.wj) + Patch(b, 3, v.wh)
  }

  function Encode(bank: Bank, reg: nat, op: WydeOp): nat {
    WydeWord(OpcodeOf(bank, op.kind) * 0x100_0000, reg, op.ww, op.imm)
  }

  function EncodeAll(bank: Bank, reg: nat, ops: seq<WydeOp>): (ws: seq<nat>)
    ensures |ws| == |ops|
  {
    seq(|ops|, i requires 0 <= i < |ops| => Encode(bank, reg, ops[i]))
  }

  /** The bank whose branch a destination takes: ra, cp and cr registers, numbered
      from 0xC0, take the last one too. */
  function BankOf(regDst: nat): Bank { if regDst < 0x40 then RD else if regDst < 0x80 then RB else RF }

  /** What that branch puts in the register field. */
  function FieldOf(regDst: nat): nat {
    if regDst < 0x40 then regDst else if regDst < 0x80 then regDst - 0x40 else regDst - 0x80
  }

  lemma EncodeConcat(bank: Bank, reg: nat, a: seq<WydeOp>, b: seq<WydeOp>)
    ensures EncodeAll(bank, reg, a + b) == EncodeAll(bank, reg, a) + EncodeAll(bank, reg, b)
  {
  }

  /** What the plan looks like: wydes in ascending order from the low one; for rd
      it starts from all ones exactly when more of the three upper wydes are
      0xFFFF than are zero, so a draw starts from zeros. */
  lemma PlanLooks(bank: Bank, v: Wydes)
    requires v.Valid()
    ensures var ops := Plan(bank, v);
            && 1 <= |ops| <= 4 && ops[0].ww == 0 && ops[0].imm == v.wl
            && (forall i, j :: 0 <= i < j < |ops| ==> ops[i].ww < ops[j].ww)
            && ops[0].kind == (if bank == RF then SetW
                               else if bank == RD
                                    && (if v.wk == 0xFFFF then 1 else 0) + (if v.wj == 0xFFFF then 1 else 0)
                                       + (if v.wh == 0xFFFF then 1 else 0)
                                       > (if v.wk == 0 then 1 else 0) + (if v.wj == 0 then 1 else 0) + (if v.wh == 0 then 1 else 0)
                               then SetOw else SetZw)
            && forall i :: 0 < i < |ops| ==>
                 ops[i].kind == if bank == RF then SetW else if ops[0].kind == SetOw then AndNW else OrW
  {
    if bank != RF {
      var b := BaseOf(bank, v);
      Patches(b, 1, v.wk);
      Patches(b, 2, v.wj);
      Patches(b, 3, v.wh);
      hide Patch;
    }
  }

  lemma Patches(base: nat, ww: nat, w: nat)
    requires w < TWO16
    ensures var p := Patch(base, ww, w);
            |p| <= 1 && forall i :: 0 <= i < |p| ==> p[i].ww == ww && p[i].kind == if base == 0 then OrW else AndNW
  {
  }

  function SetImmCode(regDst: nat, imm: Octa): seq<nat> {
    SplitValue(imm);
    EncodeAll(BankOf(regDst), FieldOf(regDst), Plan(BankOf(regDst), Split(imm)))
  }

  /** dd_pseudo_set_imm. */
  method PseudoSetImm(frag: CodeFrag, regDst: nat, srcImm: Octa)
    modifies frag
    ensures frag.code == old(frag.code) + SetImmCode(regDst, srcImm)
  {
    hide EncodeAll, Plan, WydeWord;
    SplitValue(srcImm);
    var w1 := srcImm % TWO16;
    var w2 := srcImm / 0x1_0000 % TWO16;
    var w3 := srcImm / 0x1_0000_0000 % TWO16;
    var w4 := srcImm / 0x1_0000_0000_0000 % TWO16;
    if regDst < 0x40 {
      SetRdImm(frag, regDst, w1, w2, w3, w4);
    } else if regDst < 0x80 {
      SetRbImm(frag, regDst - 0x40, w1, w2, w3, w4);
    } else {
      SetRfImm(frag, regDst - 0x80, w1, w2, w3, w4);
    }
  }

  /** The `setrd rd, imm64` branch. */
  method SetRdImm(frag: CodeFrag, reg: Reg, w1: nat, w2: nat, w3: nat, w4: nat)
    requires Wydes(w1, w2, w3, w4).Valid()
    modifies frag
    ensures frag.code == old(frag.code) + EncodeAll(RD, reg, Plan(RD, Wydes(w1, w2, w3, w4)))
  {
    hide Or, WydeWord;
    var zeros := (if w4 == 0 then 1 else 0) + (if w3 == 0 then 1 else 0) + (if w2 == 0 then 1 else 0);
    var ones := (if w4 == 0xFFFF then 1 else 0) + (if w3 == 0xFFFF then 1 else 0) + (if w2 == 0xFFFF then 1 else 0);
    var flag := zeros < ones;
    ghost var base := BaseOf(RD, Wydes(w1, w2, w3, w4));
    assert flag <==> base == 0xFFFF;
    frag.Emit(WydeWord(if flag then SETOW_RD else SETZW_RD, reg, 0, w1));
    ghost var ops := [WydeOp(if flag then SetOw else SetZw, 0, w1)];
    assert frag.code == old(frag.code) + EncodeAll(RD, reg, ops);
    PatchRd(frag, flag, reg, 1, w2);
    EncodeConcat(RD, reg, ops, Patch(base, 1, w2));
    PatchRd(frag, flag, reg, 2, w3);
    EncodeConcat(RD, reg, ops + Patch(base, 1, w2), Patch(base, 2, w3));
    PatchRd(frag, flag, reg, 3, w4);
    EncodeConcat(RD, reg, ops + Patch(base, 1, w2) + Patch(base, 2, w3), Patch(base, 3, w4));
  }

  /** One upper wyde of `setrd`: nothing, an andnw or an orw. */
  method PatchRd(frag: CodeFrag, flag: bool, reg: Reg, wyde: nat, w: nat)
    requires w < TWO16
    modifies frag
    ensures frag.code == old(frag.code) + EncodeAll(RD, reg, Patch(if flag then 0xFFFF else 0, wyde, w))
  {
    hide Or, WydeWord;
    if flag {
      if w != 0xFFFF { frag.Emit(WydeWord(ANDNW_RD, reg, wyde, 0xFFFF - w)); }
    } else if w != 0 {
      frag.Emit(WydeWord(ORW_RD, reg, wyde, w));
    }
  }

  /** The `setrb rb, imm64` branch. */
  method SetRbImm(frag: CodeFrag, reg: Reg, w1: nat, w2: nat, w3: nat, w4: nat)
    requires Wydes(w1, w2, w3, w4).Valid()
    modifies frag
    ensures frag.code == old(frag.code) + EncodeAll(RB, reg, Plan(RB, Wydes(w1, w2, w3, w4)))
  {
    hide Or, WydeWord;
    frag.Emit(WydeWord(SETZW_RB, reg, 0, w1));
    ghost var ops := [WydeOp(SetZw, 0, w1)];
    assert frag.code == old(frag.code) + EncodeAll(RB, reg, ops);
    if w2 != 0 { frag.Emit(WydeWord(ORW_RB, reg, 1, w2)); }
    EncodeConcat(RB, reg, ops, Patch(0, 1, w2));
    if w3 != 0 { frag.Emit(WydeWord(ORW_RB, reg, 2, w3)); }
    EncodeConcat(RB, reg, ops + Patch(0, 1, w2), Patch(0, 2, w3));
    if w4 != 0 { frag.Emit(WydeWord(ORW_RB, reg, 3, w4)); }
    EncodeConcat(RB, reg, ops + Patch(0, 1, w2) + Patch(0, 2, w3), Patch(0, 3, w4));
  }

  /** The `setrf rf, imm64` branch. */
  method SetRfImm(frag: CodeFrag, reg: nat, w1: nat, w2: nat, w3: nat, w4: nat)
    requires Wydes(w1, w2, w3, w4).Valid()
    modifies frag
    ensures frag.code == old(frag.code) + EncodeAll(RF, reg, Plan(RF, Wydes(w1, w2, w3, w4)))
  {
    hide Or, WydeWord;
    frag.Emit(WydeWord(SETW, reg, 0, w1));
    frag.Emit(WydeWord(SETW, reg, 1, w2));
    frag.Emit(WydeWord(SETW, reg, 2, w3));
    frag.Emit(WydeWord(SETW, reg, 3, w4));
  }

  // ------------------------------------------------- what it computes

  lemma StepEncoded(bank: Bank, reg: Reg, op: WydeOp, s: State)
    requires s.Valid() && op.Valid() && OpcodeOf(bank, op.kind) != 0
    ensures var now := WydeEffect(op.kind, Split(s.Get(bank, reg)), op.ww, op.imm);
            now.Valid() && now.Value() < TWO64
            && Step(Encode(bank, reg, op), s) == Some(Next(s.Put(bank, reg, now.Value())))
  {
    SplitValue(s.Get(bank, reg));
    WydeWordDecodes(bank, op.kind, reg, op.ww, op.imm);
    var now := WydeEffect(op.kind, Split(s.Get(bank, reg)), op.ww, op.imm);
    WydeEffectValid(op.kind, Split(s.Get(bank, reg)), op.ww, op.imm);
    ValueSplit(now);
  }

  lemma {:induction false} ApplyValid(ops: seq<WydeOp>, v: Wydes)
    requires ValidOps(ops) && v.Valid()
    ensures Apply(ops, v).Valid() && Apply(ops, v).Value() < TWO64
  {
    if ops == [] {
      ValueSplit(v);
    } else {
      WydeEffectValid(ops[0].kind, v, ops[0].ww, ops[0].imm);
      ApplyValid(ops[1..], WydeEffect(ops[0].kind, v, ops[0].ww, ops[0].imm));
    }
  }

  predicate InBank(bank: Bank, ops: seq<WydeOp>) {
    forall i :: 0 <= i < |ops| ==> OpcodeOf(bank, ops[i].kind) != 0
  }

  /** The state after a register was set and `n` instructions were passed. */
  function After(s: State, bank: Bank, reg: Reg, v: Octa, n: nat): State
    requires s.Valid()
  {
    s.Put(bank, reg, v).(pc := Wrap(s.pc + 4 * n))
  }

  lemma AfterGet(s: State, bank: Bank, reg: Reg, v: Octa, n: nat)
    requires s.Valid() && !ReadOnly(bank, reg)
    ensures After(s, bank, reg, v, n).Get(bank, reg) == v
  {
  }

  lemma AfterAfter(s: State, bank: Bank, reg: Reg, u: Octa, v: Octa, n: nat)
    requires s.Valid()
    ensures After(After(s, bank, reg, u, 1), bank, reg, v, n) == After(s, bank, reg, v, n + 1)
  {
    hide State.Put, State.Valid, Wrap;
    PutPc(s.Put(bank, reg, u), bank, reg, v, Wrap(s.pc + 4));
    PutPut(s, bank, reg, u, v);
    WrapAdd(s.pc + 4, 4 * n);
  }

  /** Executing encoded wyde operations applies them to the register. */
  lemma {:induction false} RunEncoded(bank: Bank, reg: Reg, ops: seq<WydeOp>, s: State)
    requires s.Valid() && ValidOps(ops) && InBank(bank, ops) && !ReadOnly(bank, reg)
    ensures Apply(ops, Split(s.Get(bank, reg))).Value() < TWO64
    ensures Run(EncodeAll(bank, reg, ops), s)
         == Some(After(s, bank, reg, Apply(ops, Split(s.Get(bank, reg))).Value(), |ops|))
  {
    hide Exec, Decode, Step, Split, Wydes.Value, WydeEffect, State.Get, State.Put;
    var was := Split(s.Get(bank, reg));
    SplitValue(s.Get(bank, reg));
    ApplyValid(ops, was);
    if ops == [] {
      PutSame(s, bank, reg);
    } else {
      StepEncoded(bank, reg, ops[0], s);
      var now := WydeEffect(ops[0].kind, was, ops[0].ww, ops[0].imm);
      ValueSplit(now);
      var s1 := After(s, bank, reg, now.Value(), 1);
      AfterGet(s, bank, reg, now.Value(), 1);
      RunEncoded(bank, reg, ops[1..], s1);
      AfterAfter(s, bank, reg, now.Value(), Apply(ops, was).Value(), |ops| - 1);
      assert EncodeAll(bank, reg, ops)[1..] == EncodeAll(bank, reg, ops[1..]);
    }
  }

  lemma WydeBits(w: nat)
    requires w < TWO16
    ensures Or(0, w) == w && AndNot(0xFFFF, 0xFFFF - w) == w
  {
    Pow2Values();
    AndNotOnes(0xFFFF - w, 16);
  }

  lemma PatchApplies(base: nat, ww: nat, w: nat, v: Wydes)
    requires w < TWO16 && ww < 4 && v.At(ww) == base && (base == 0 || base == 0xFFFF)
    ensures ValidOps(Patch(base, ww, w)) && Apply(Patch(base, ww, w), v) == v.With(ww, w)
  {
    hide Or, AndNot;
    WydeBits(w);
    var p := Patch(base, ww, w);
    if p != [] { assert p[1..] == []; }
  }

  lemma {:induction false} ApplyConcat(a: seq<WydeOp>, b: seq<WydeOp>, v: Wydes)
    requires ValidOps(a) && ValidOps(b)
    ensures ValidOps(a + b) && Apply(a + b, v) == Apply(b, Apply(a, v))
  {
    if a == [] {
      assert a + b == b;
    } else {
      assert (a + b)[1..] == a[1..] + b;
      ApplyConcat(a[1..], b, WydeEffect(a[0].kind, v, a[0].ww, a[0].imm));
    }
  }

  /** The planned operations build the constant whatever the register held. */
  lemma PlanComputes(bank: Bank, v: Wydes, was: Wydes)
    requires v.Valid() && was.Valid()
    ensures Apply(Plan(bank, v), was) == v
  {
    if bank == RF {
      var p := Plan(RF, v);
      assert p[1..] == [WydeOp(SetW, 1, v.wk), WydeOp(SetW, 2, v.wj), WydeOp(SetW, 3, v.wh)];
      assert p[1..][1..] == [WydeOp(SetW, 2, v.wj), WydeOp(SetW, 3, v.wh)];
      assert p[1..][1..][1..] == [WydeOp(SetW, 3, v.wh)];
      assert Apply(p[1..][1..][1..], Wydes(v.wl, v.wk, v.wj, was.wh)) == v;
      assert Apply(p[1..][1..], Wydes(v.wl, v.wk, was.wj, was.wh)) == v;
    } else {
      var b := BaseOf(bank, v);
      var first := [WydeOp(if b == 0 then SetZw else SetOw, 0, v.wl)];
      var v0 := Wydes(v.wl, b, b, b);
      assert first[1..] == [] && Apply(first, was) == v0;
      PatchApplies(b, 1, v.wk, v0);
      PatchApplies(b, 2, v.wj, v0.With(1, v.wk));
      PatchApplies(b, 3, v.wh, v0.With(1, v.wk).With(2, v.wj));
      ApplyConcat(first, Patch(b, 1, v.wk), was);
      ApplyConcat(first + Patch(b, 1, v.wk), Patch(b, 2, v.wj), was);
      ApplyConcat(first + Patch(b, 1, v.wk) + Patch(b, 2, v.wj), Patch(b, 3, v.wh), was);
    }
  }

  lemma PlanLength(bank: Bank, v: Wydes)
    requires v.Valid() && bank != RF
    ensures |Plan(bank, v)| == 1 + CountNot(v, BaseOf(bank, v))
    ensures InBank(RD, Plan(RD, v)) && InBank(RB, Plan(RB, v)) && InBank(RF, Plan(RF, v))
  {
  }

  lemma SetImmRuns(regDst: nat, imm: Octa, s: State)
    requires regDst < 0xC0 && regDst != 0 && regDst != 0x40 && s.Valid()
    ensures var n := |SetImmCode(regDst, imm)|;
            Run(SetImmCode(regDst, imm), s) == Some(After(s, BankOf(regDst), FieldOf(regDst), imm, n))
    ensures var v := Split(imm);
            |SetImmCode(regDst, imm)| ==
              (match BankOf(regDst)
               case RD => 1 + (if CountNot(v, 0) <= CountNot(v, 0xFFFF) then CountNot(v, 0) else CountNot(v, 0xFFFF))
               case RB => 1 + CountNot(v, 0)
               case _ => 4)
  {
    var bank, reg, v := BankOf(regDst), FieldOf(regDst), Split(imm);
    SplitValue(imm);
    SplitValue(s.Get(bank, reg));
    hide Split, Apply, Run, Wydes.Value, Wydes.Valid, WydeWord;
    PlanComputes(bank, v, Split(s.Get(bank, reg)));
    PlanLength(if bank == RD then RD else RB, v);
    RunEncoded(bank, reg, Plan(bank, v), s);
  }

  function BankOfClass(c: OpcodeTable.Class): Bank
    requires c == OpcodeTable.ClassRd || c == OpcodeTable.ClassRb || c == OpcodeTable.ClassRf
  {
    match c case ClassRd => RD case ClassRb => RB case ClassRf => RF
  }

  /** For every rd, rb and rf register as the symbol table numbers it, rd0 and rb0
      apart: running the emitted words from any state leaves exactly the
      constant in that register and changes nothing else but the pc.  The
      number of words is 4 minus the zero (or, for rd, all-ones) upper wydes. */
  lemma SetImmCorrect(c: OpcodeTable.Class, r: Reg, imm: Octa, s: State)
    requires c == OpcodeTable.ClassRf || ((c == OpcodeTable.ClassRd || c == OpcodeTable.ClassRb) && r != 0)
    requires s.Valid()
    ensures var code := SetImmCode(OpcodeTable.RegisterSymbol(c, r), imm);
            && Run(code, s) == Some(s.Put(BankOfClass(c), r, imm).(pc := Wrap(s.pc + 4 * |code|)))
            && var v := Split(imm);
               |code| == match c
                         case ClassRd => 1 + (if CountNot(v, 0) <= CountNot(v, 0xFFFF) then CountNot(v, 0) else CountNot(v, 0xFFFF))
                         case ClassRb => 1 + CountNot(v, 0)
                         case _ => 4
  {
    hide Run, SetImmCode, CountNot, Split;
    SetImmRuns(OpcodeTable.RegisterSymbol(c, r), imm, s);
  }

  // ------------------------------------------------- registers beyond rf

  /** A register number of 64 or more reaches into the opcode. */
  lemma SpilledWord(q: nat, r: Reg, wyde: nat, imm: nat)
    requires 1 <= q < 4 && wyde < 4 && imm < TWO16
    ensures WydeWord(SETW, q * 64 + r, wyde, imm) == WydeWord((0x54 + q) * 0x100_0000, r, wyde, imm)
  {
    hide Or;
    Pow2Values();
    var top := q * 0x100_0000 + r * 0x4_0000;
    OrField(21, q, 2);
    OrZero(r * 0x4_0000);
    OrSplit(0x54, 0, q, r * 0x4_0000, 24);
    OrField(0x54 + q, r * 0x4_0000, 24);
  }

  lemma SpilledDecodes(q: nat, r: Reg, wyde: nat, imm: nat)
    requires 1 <= q < 4 && wyde < 4 && imm < TWO16
    ensures var i := Decode(WydeWord(SETW, q * 64 + r, wyde, imm));
            if q == 1 then i == Illegal else i.Ldm? && i.bank == RF && i.ha == r
  {
    hide WydeWord, FA;
    SpilledWord(q, r, wyde, imm);
    WydeWordFields(0x54 + q, r, wyde, imm);
  }

  /** For ra, cp and cr registers what is emitted is no setw: running it stops at
      an illegal instruction for ra from every state, and for cp and cr every
      word is a load of rf registers. */
  lemma BeyondRf(regDst: nat, imm: Octa)
    requires 0xC0 <= regDst < 0x180
    ensures |SetImmCode(regDst, imm)| == 4
    ensures regDst < 0x100 ==> forall s: State | s.Valid() :: Run(SetImmCode(regDst, imm), s) == None
    ensures regDst >= 0x100 ==> forall w | w in SetImmCode(regDst, imm) ::
              Decode(w).Ldm? && Decode(w).bank == RF && Decode(w).ha == regDst % 64
  {
    hide WydeWord, Decode, Split;
    var v, ws := Split(imm), SetImmCode(regDst, imm);
    SplitValue(imm);
    assert regDst - 0x80 == (regDst / 64 - 2) * 64 + regDst % 64;
    forall i | 0 <= i < 4
      ensures if regDst < 0x100 then Decode(ws[i]) == Illegal
              else Decode(ws[i]).Ldm? && Decode(ws[i]).bank == RF && Decode(ws[i]).ha == regDst % 64
    {
      SpilledDecodes(regDst / 64 - 2, regDst % 64, i, v.At(i));
    }
  }

  // ----------------------------------------------------------- optimality

  /** A program over the four rd wyde instructions. */
  predicate RdProgram(ops: seq<WydeOp>) {
    ValidOps(ops) && forall i :: 0 <= i < |ops| ==> ops[i].kind != SetW
  }

  /** It produces v from every initial value of the register. */
  ghost predicate Produces(ops: seq<WydeOp>, v: Wydes)
    requires ValidOps(ops)
  {
    forall was: Wydes | was.Valid() :: Apply(ops, was) == v
  }

  predicate IsSet(op: WydeOp) { op.kind == SetZw || op.kind == SetOw }

  predicate HasSet(ops: seq<WydeOp>) { exists i :: 0 <= i < |ops| && IsSet(ops[i]) }

  predicate Touches(ops: seq<WydeOp>, ww: nat) { exists i :: 0 <= i < |ops| && ops[i].ww == ww }

  function AsNat(b: bool): nat { if b then 1 else 0 }

  function TouchCount(ops: seq<WydeOp>): nat {
    AsNat(Touches(ops, 0)) + AsNat(Touches(ops, 1)) + AsNat(Touches(ops, 2)) + AsNat(Touches(ops, 3))
  }

  lemma {:induction false} TouchBound(ops: seq<WydeOp>)
    ensures TouchCount(ops) <= |ops|
  {
    if ops != [] {
      TouchBound(ops[1..]);
      forall ww: nat | ww != ops[0].ww && Touches(ops, ww) ensures Touches(ops[1..], ww) {
        var i :| 0 <= i < |ops| && ops[i].ww == ww;
        assert ops[1..][i - 1].ww == ww;
      }
    }
  }

  /** Without a set instruction, an untouched wyde keeps its value. */
  lemma {:induction false} UntouchedStays(ops: seq<WydeOp>, v: Wydes, ww: nat)
    requires RdProgram(ops) && !HasSet(ops) && ww < 4 && !Touches(ops, ww)
    ensures Apply(ops, v).At(ww) == v.At(ww)
  {
    if ops != [] {
      assert !IsSet(ops[0]) && ops[0].ww != ww;
      var rest := ops[1..];
      assert forall i :: 0 <= i < |rest| ==> rest[i] == ops[i + 1];
      UntouchedStays(rest, WydeEffect(ops[0].kind, v, ops[0].ww, ops[0].imm), ww);
    }
  }

  /** After a set instruction the start value is forgotten. */
  lemma {:induction false} SetForgets(ops: seq<WydeOp>, a: Wydes, b: Wydes)
    requires RdProgram(ops) && HasSet(ops)
    ensures Apply(ops, a) == Apply(ops, b)
  {
    if !IsSet(ops[0]) {
      var i :| 0 <= i < |ops| && IsSet(ops[i]);
      assert IsSet(ops[1..][i - 1]);
      SetForgets(ops[1..], WydeEffect(ops[0].kind, a, ops[0].ww, ops[0].imm),
                 WydeEffect(ops[0].kind, b, ops[0].ww, ops[0].imm));
    }
  }

  /** Wydes of v that differ from the background, all four counted. */
  function CountAll(v: Wydes, base: nat): nat { CountNot(v, base) + AsNat(v.wl != base) }

  function Cost(v: Wydes, base: nat): nat {
    if CountAll(v, base) == 0 then 1 else CountAll(v, base)
  }

  /** The length of a shortest program for v. */
  function Shortest(v: Wydes): nat {
    if Cost(v, 0) <= Cost(v, 0xFFFF) then Cost(v, 0) else Cost(v, 0xFFFF)
  }

  lemma NoSetBound(ops: seq<WydeOp>, v: Wydes)
    requires RdProgram(ops) && Produces(ops, v) && !HasSet(ops)
    ensures |ops| >= 4
  {
    var a, b := Wydes(0, 0, 0, 0), Wydes(1, 1, 1, 1);
    assert Apply(ops, a) == v && Apply(ops, b) == v;
    forall ww: nat | ww < 4 ensures Touches(ops, ww) {
      if !Touches(ops, ww) {
        UntouchedStays(ops, a, ww);
        UntouchedStays(ops, b, ww);
      }
    }
    TouchBound(ops);
  }

  /** A set instruction followed by none: every other wyde off the background
      needs an instruction of its own. */
  lemma SetFirstBound(op: WydeOp, post: seq<WydeOp>, v: Wydes, start: Wydes, base: nat)
    requires RdProgram(post) && !HasSet(post) && op.Valid() && IsSet(op)
    requires base == (if op.kind == SetZw then 0 else 0xFFFF)
    requires start == WydeEffect(op.kind, v, op.ww, op.imm) && Apply(post, start) == v
    ensures |post| + 1 >= Cost(v, base)
  {
    forall ww: nat | ww < 4 && ww != op.ww && v.At(ww) != base ensures Touches(post, ww) {
      if !Touches(post, ww) { UntouchedStays(post, start, ww); }
    }
    TouchBound(post);
    assert v.At(0) == v.wl && v.At(1) == v.wk && v.At(2) == v.wj && v.At(3) == v.wh;
  }

  lemma {:induction false} LowerBound(ops: seq<WydeOp>, v: Wydes)
    requires RdProgram(ops) && Produces(ops, v)
    ensures |ops| >= Shortest(v)
  {
    var a := Wydes(0, 0, 0, 0);
    assert Apply(ops, a) == v;
    if !HasSet(ops) {
      NoSetBound(ops, v);
    } else if HasSet(ops[1..]) {
      forall was: Wydes | was.Valid() ensures Apply(ops[1..], was) == v {
        SetForgets(ops[1..], was, WydeEffect(ops[0].kind, a, ops[0].ww, ops[0].imm));
      }
      LowerBound(ops[1..], v);
    } else {
      var post := ops[1..];
      forall i | 0 < i < |ops| ensures !IsSet(ops[i]) {
        assert ops[i] == post[i - 1];
      }
      SetFirstBound(ops[0], post, v, WydeEffect(ops[0].kind, v, ops[0].ww, ops[0].imm),
                    if ops[0].kind == SetZw then 0 else 0xFFFF);
    }
  }

  // ------------------------------------- the bound is met, by how much

  function PatchUnless(skip: nat, base: nat, ww: nat, w: nat): seq<WydeOp>
    requires w < TWO16
  {
    if ww == skip then [] else Patch(base, ww, w)
  }

  /** Set wyde ww, then patch the others. */
  function SetThenPatch(v: Wydes, base: nat, ww: nat): seq<WydeOp>
    requires v.Valid() && ww < 4
  {
    [WydeOp(if base == 0 then SetZw else SetOw, ww, v.At(ww))]
    + PatchUnless(ww, base, 0, v.wl) + PatchUnless(ww, base, 1, v.wk)
    + PatchUnless(ww, base, 2, v.wj) + PatchUnless(ww, base, 3, v.wh)
  }

  /** The best choice sets a wyde that differs from the background. */
  function BestFrom(v: Wydes, base: nat): seq<WydeOp>
    requires v.Valid()
  {
    SetThenPatch(v, base, if v.wl != base then 0 else if v.wk != base then 1 else if v.wj != base then 2 else 3)
  }

  lemma PatchUnlessApplies(skip: nat, base: nat, ww: nat, w: nat, v: Wydes)
    requires w < TWO16 && ww < 4 && (base == 0 || base == 0xFFFF)
    requires v.At(ww) == if ww == skip then w else base
    ensures ValidOps(PatchUnless(skip, base, ww, w)) && Apply(PatchUnless(skip, base, ww, w), v) == v.With(ww, w)
    ensures |PatchUnless(skip, base, ww, w)| == AsNat(ww != skip && w != base)
    ensures RdProgram(PatchUnless(skip, base, ww, w))
  {
    hide Or, AndNot;
    if ww != skip { PatchApplies(base, ww, w, v); }
  }

  lemma ApplyFive(a: seq<WydeOp>, b: seq<WydeOp>, c: seq<WydeOp>, d: seq<WydeOp>, e: seq<WydeOp>, v: Wydes)
    requires RdProgram(a) && RdProgram(b) && RdProgram(c) && RdProgram(d) && RdProgram(e)
    ensures RdProgram(a + b + c + d + e)
    ensures Apply(a + b + c + d + e, v) == Apply(e, Apply(d, Apply(c, Apply(b, Apply(a, v)))))
  {
    hide Apply;
    ApplyConcat(a, b, v);
    ApplyConcat(a + b, c, v);
    ApplyConcat(a + b + c, d, v);
    ApplyConcat(a + b + c + d, e, v);
  }

  lemma SetThenPatchLength(v: Wydes, base: nat, ww: nat)
    requires v.Valid() && ww < 4
    ensures |SetThenPatch(v, base, ww)| == 1 + CountAll(v, base) - AsNat(v.At(ww) != base)
  {
    assert forall i: nat, w: nat | w < TWO16 :: |PatchUnless(ww, base, i, w)| == AsNat(i != ww && w != base);
    hide PatchUnless;
  }

  lemma SetThenPatchProduces(v: Wydes, base: nat, ww: nat, was: Wydes)
    requires v.Valid() && (base == 0 || base == 0xFFFF) && ww < 4
    ensures RdProgram(SetThenPatch(v, base, ww)) && Apply(SetThenPatch(v, base, ww), was) == v
  {
    var first := [WydeOp(if base == 0 then SetZw else SetOw, ww, v.At(ww))];
    var v0 := Wydes(base, base, base, base).With(ww, v.At(ww));
    assert first[1..] == [] && Apply(first, was) == v0 && RdProgram(first);
    hide Or, AndNot, WydeEffect, Apply, PatchUnless, Patch, RdProgram, ValidOps;
    PatchesApply(v, base, ww, v0);
    ApplyFive(first, PatchUnless(ww, base, 0, v.wl), PatchUnless(ww, base, 1, v.wk),
              PatchUnless(ww, base, 2, v.wj), PatchUnless(ww, base, 3, v.wh), was);
  }

  lemma PatchesApply(v: Wydes, base: nat, ww: nat, v0: Wydes)
    requires v.Valid() && (base == 0 || base == 0xFFFF) && ww < 4
    requires v0 == Wydes(base, base, base, base).With(ww, v.At(ww))
    ensures RdProgram(PatchUnless(ww, base, 0, v.wl)) && RdProgram(PatchUnless(ww, base, 1, v.wk))
    ensures RdProgram(PatchUnless(ww, base, 2, v.wj)) && RdProgram(PatchUnless(ww, base, 3, v.wh))
    ensures Apply(PatchUnless(ww, base, 3, v.wh), Apply(PatchUnless(ww, base, 2, v.wj),
              Apply(PatchUnless(ww, base, 1, v.wk), Apply(PatchUnless(ww, base, 0, v.wl), v0)))) == v
  {
    hide Apply, PatchUnless, RdProgram, ValidOps;
    var v1 := v0.With(0, v.wl);
    var v2 := v1.With(1, v.wk);
    PatchUnlessApplies(ww, base, 0, v.wl, v0);
    PatchUnlessApplies(ww, base, 1, v.wk, v1);
    PatchUnlessApplies(ww, base, 2, v.wj, v2);
    PatchUnlessApplies(ww, base, 3, v.wh, v2.With(2, v.wj));
  }

  lemma BestFromProduces(v: Wydes, base: nat, was: Wydes)
    requires v.Valid() && (base == 0 || base == 0xFFFF)
    ensures RdProgram(BestFrom(v, base)) && |BestFrom(v, base)| == Cost(v, base)
    ensures Apply(BestFrom(v, base), was) == v
  {
    hide SetThenPatch, RdProgram, Apply, ValidOps;
    var ww := if v.wl != base then 0 else if v.wk != base then 1 else if v.wj != base then 2 else 3;
    SetThenPatchProduces(v, base, ww, was);
    SetThenPatchLength(v, base, ww);
  }

  /** `Shortest` is exactly the length of a shortest rd program for v. */
  lemma ShortestIsExact(v: Wydes)
    requires v.Valid()
    ensures forall ops | RdProgram(ops) && Produces(ops, v) :: |ops| >= Shortest(v)
    ensures exists ops :: RdProgram(ops) && Produces(ops, v) && |ops| == Shortest(v)
  {
    forall ops | RdProgram(ops) && Produces(ops, v) ensures |ops| >= Shortest(v) {
      LowerBound(ops, v);
    }
    var base := if Cost(v, 0) <= Cost(v, 0xFFFF) then 0 else 0xFFFF;
    var best := BestFrom(v, base);
    BestFromProduces(v, base, v);
    forall was: Wydes | was.Valid() ensures Apply(best, was) == v {
      BestFromProduces(v, base, was);
    }
    assert Produces(best, v);
  }

  lemma PlanProduces(v: Wydes)
    requires v.Valid()
    ensures RdProgram(Plan(RD, v)) && Produces(Plan(RD, v), v)
  {
    assert RdProgram(Plan(RD, v));
    hide Plan, Apply, Wydes.Valid;
    forall was: Wydes | was.Valid() ensures Apply(Plan(RD, v), was) == v {
      PlanComputes(RD, v, was);
    }
  }

  lemma PlanLengthNearShortest(v: Wydes)
    ensures Shortest(v) <= 1 + CountNot(v, BaseOf(RD, v)) <= Shortest(v) + 1
    ensures 1 + CountNot(v, BaseOf(RD, v)) == Shortest(v) + 1 <==>
            || (v.wl == 0 && 1 <= CountNot(v, 0) <= CountNot(v, 0xFFFF))
            || (v.wl == 0xFFFF && 1 <= CountNot(v, 0xFFFF) <= CountNot(v, 0))
  {
    hide CountNot;
  }

  /** The `setrd` expansion is a producing program at most one longer than a
      shortest one, and is longer exactly when the low wyde itself equals a
      background that is no worse for the upper three. */
  lemma PlanNearShortest(v: Wydes)
    requires v.Valid()
    ensures RdProgram(Plan(RD, v)) && Produces(Plan(RD, v), v)
    ensures Shortest(v) <= |Plan(RD, v)| <= Shortest(v) + 1
    ensures |Plan(RD, v)| == Shortest(v) + 1 <==>
            || (v.wl == 0 && 1 <= CountNot(v, 0) <= CountNot(v, 0xFFFF))
            || (v.wl == 0xFFFF && 1 <= CountNot(v, 0xFFFF) <= CountNot(v, 0))
  {
    hide Plan, Produces, Apply, ValidOps, CountNot, RdProgram;
    PlanProduces(v);
    PlanLength(RD, v);
    PlanLengthNearShortest(v);
  }
}

/** The linker's absolute-address slot: four words, filled with the shortest
    setzw/orw sequence for the address. */
module FillAbs {
  import opened Bits
  import opened Machine
  import opened Bytes
  import opened SetImm

  // ------------------------------------------------------------ the plan

  /** One operation per nonzero wyde below `upto`: a set for the first and a
      patch for each further one. */
  function AbsUpTo(v: Wydes, upto: nat, setKind: WydeKind, patchKind: WydeKind): (ops: seq<WydeOp>)
    requires upto <= 4 && v.Valid()
    ensures ValidOps(ops)
  {
    if upto == 0 then []
    else
      var ops := AbsUpTo(v, upto - 1, setKind, patchKind);
      var w := v.At(upto - 1);
      if w == 0 then ops else ops + [WydeOp(if ops == [] then setKind else patchKind, upto - 1, w)]
  }

  /** Zero is set explicitly. */
  function AbsPlan(v: Wydes, setKind: WydeKind, patchKind: WydeKind): (ops: seq<WydeOp>)
    requires v.Valid()
    ensures ValidOps(ops)
  {
    var ops := AbsUpTo(v, 4, setKind, patchKind);
    if ops == [] then [WydeOp(setKind, 0, 0)] else ops
  }

  /** The wydes of v below ww, zeros from ww on. */
  function Below(v: Wydes, ww: nat): Wydes {
    Wydes(if ww > 0 then v.wl else 0, if ww > 1 then v.wk else 0,
          if ww > 2 then v.wj else 0, if ww > 3 then v.wh else 0)
  }

  lemma ApplyOne(op: WydeOp, was: Wydes)
    requires op.Valid()
    ensures Apply([op], was) == WydeEffect(op.kind, was, op.ww, op.imm)
  {
    assert [op][1..] == [];
  }

  lemma {:induction false} AbsUpToApplies(v: Wydes, upto: nat, was: Wydes)
    requires v.Valid() && upto <= 4
    ensures var ops := AbsUpTo(v, upto, SetZw, OrW);
            if ops == [] then Below(v, upto) == Wydes(0, 0, 0, 0) else Apply(ops, was) == Below(v, upto)
  {
    hide Or, Apply;
    if upto > 0 {
      AbsUpToApplies(v, upto - 1, was);
      var ops := AbsUpTo(v, upto - 1, SetZw, OrW);
      var w := v.At(upto - 1);
      if w != 0 {
        var op := WydeOp(if ops == [] then SetZw else OrW, upto - 1, w);
        WydeBits(w);
        ApplyOne(op, if ops == [] then was else Below(v, upto - 1));
        ApplyConcat(ops, [op], was);
        if ops == [] { assert [] + [op] == [op]; }
      }
    }
  }

  lemma AbsPlanComputes(v: Wydes, was: Wydes)
    requires v.Valid()
    ensures Apply(AbsPlan(v, SetZw, OrW), was) == v
  {
    AbsUpToApplies(v, 4, was);
    ApplyOne(WydeOp(SetZw, 0, 0), was);
  }

  lemma {:induction false} AbsUpToShape(v: Wydes, upto: nat, setKind: WydeKind, patchKind: WydeKind)
    requires v.Valid() && upto <= 4
    ensures var ops := AbsUpTo(v, upto, setKind, patchKind);
            && |ops| == CountAll(Below(v, upto), 0)
            && forall i :: 0 <= i < |ops| ==> ops[i].kind == if i == 0 then setKind else patchKind
  {
    if upto > 0 {
      AbsUpToShape(v, upto - 1, setKind, patchKind);
      BelowCount(v, upto);
      hide Below, CountAll;
    }
  }

  /** One operation for each of some wydes below upto, in ascending order. */
  predicate Ascends(ops: seq<WydeOp>, upto: nat) {
    && (forall i :: 0 <= i < |ops| ==> ops[i].ww < upto)
    && (forall i, j :: 0 <= i < j < |ops| ==> ops[i].ww < ops[j].ww)
  }

  lemma AscendsMore(ops: seq<WydeOp>, op: WydeOp)
    requires Ascends(ops, op.ww)
    ensures Ascends(ops, op.ww + 1) && Ascends(ops + [op], op.ww + 1)
  {
  }

  lemma {:induction false} AbsUpToAscends(v: Wydes, upto: nat, setKind: WydeKind, patchKind: WydeKind)
    requires v.Valid() && upto <= 4
    ensures Ascends(AbsUpTo(v, upto, setKind, patchKind), upto)
  {
    hide Ascends;
    if upto == 0 {
      AscendsNone();
    } else {
      AbsUpToAscends(v, upto - 1, setKind, patchKind);
      var prior := AbsUpTo(v, upto - 1, setKind, patchKind);
      AscendsMore(prior, WydeOp(if prior == [] then setKind else patchKind, upto - 1, v.At(upto - 1)));
    }
  }

  lemma AscendsNone()
    ensures Ascends([], 0)
  {
  }

  lemma BelowCount(v: Wydes, upto: nat)
    requires 0 < upto <= 4
    ensures CountAll(Below(v, upto), 0) == CountAll(Below(v, upto - 1), 0) + AsNat(v.At(upto - 1) != 0)
  {
  }

  /** max(1, nonzero wydes) operations. */
  lemma AbsPlanShape(v: Wydes, setKind: WydeKind, patchKind: WydeKind)
    requires v.Valid()
    ensures var ops := AbsPlan(v, setKind, patchKind);
            && |ops| == Cost(v, 0) && 1 <= |ops| <= 4
            && (forall i, j :: 0 <= i < j < |ops| ==> ops[i].ww < ops[j].ww)
            && forall i :: 0 <= i < |ops| ==> ops[i].kind == if i == 0 then setKind else patchKind
  {
    hide AbsUpTo;
    AbsUpToShape(v, 4, setKind, patchKind);
    AbsUpToAscends(v, 4, setKind, patchKind);
  }

  // -------------------------------------------------------- dd_fill_abs

  /** The opcodes dd_fill_abs has a follow-up instruction for. */
  predicate Known(opcode: nat) { opcode == SETZW_RD || opcode == SETZW_RB || opcode == SETOW_RD }

  function BankFor(opcode: nat): Bank { if opcode == SETZW_RB then RB else RD }

  function SetKindFor(opcode: nat): WydeKind { if opcode == SETOW_RD then SetOw else SetZw }

  function PatchKindFor(opcode: nat): WydeKind { if opcode == SETOW_RD then AndNW else OrW }

  function CodeUpTo(opcode: nat, reg: nat, v: Wydes, upto: nat): seq<nat>
    requires upto <= 4 && v.Valid()
  {
    EncodeAll(BankFor(opcode), reg, AbsUpTo(v, upto, SetKindFor(opcode), PatchKindFor(opcode)))
  }

  /** The words dd_fill_abs writes. */
  function AbsCode(opcode: nat, reg: nat, addr: Octa): seq<nat> {
    SplitValue(addr);
    EncodeAll(BankFor(opcode), reg, AbsPlan(Split(addr), SetKindFor(opcode), PatchKindFor(opcode)))
  }

  lemma CodeEnds(opcode: nat, reg: nat, addr: Octa)
    requires Known(opcode) && Split(addr).Valid()
    ensures CodeUpTo(opcode, reg, Split(addr), 0) == []
    ensures var ws := CodeUpTo(opcode, reg, Split(addr), 4);
            AbsCode(opcode, reg, addr) == if ws == [] then [WydeWord(opcode, reg, 0, 0)] else ws
    ensures |AbsCode(opcode, reg, addr)| <= 4
  {
    hide Or, WydeWord, Split;
    var v := Split(addr);
    AbsPlanShape(v, SetKindFor(opcode), PatchKindFor(opcode));
    assert AbsUpTo(v, 0, SetKindFor(opcode), PatchKindFor(opcode)) == [];
    hide AbsUpTo;
  }

  /** dd_fill_abs. */
  method DdFillAbs(opcode: nat, reg: Reg, addr: Octa, data: array<Byte>, at: nat) returns (tmp: nat)
    requires Known(opcode) && at + 16 <= data.Length
    modifies data
    ensures tmp == 4 * |AbsCode(opcode, reg, addr)| <= 16
    ensures data[..] == Overwrite(old(data[..]), at, AbsCode(opcode, reg, addr))
  {
    hide Or, WydeWord, Overwrite, AbsUpTo, OverwrittenByte, CodeUpTo, AbsCode;
    SplitValue(addr);
    ghost var v := Split(addr);
    CodeEnds(opcode, reg, addr);
    var insnType :=
      if opcode == SETZW_RB then ORW_RB else if opcode == SETZW_RD then ORW_RD else ANDNW_RD;
    tmp := 0;
    OverwriteNone(data[..], at);
    tmp := FillWyde(opcode, insnType, reg, v, 0, addr % TWO16, data, at, tmp, old(data[..]));
    tmp := FillWyde(opcode, insnType, reg, v, 1, addr / 0x1_0000 % TWO16, data, at, tmp, old(data[..]));
    tmp := FillWyde(opcode, insnType, reg, v, 2, addr / 0x1_0000_0000 % TWO16, data, at, tmp, old(data[..]));
    tmp := FillWyde(opcode, insnType, reg, v, 3, addr / 0x1_0000_0000_0000 % TWO16, data, at, tmp, old(data[..]));
    if tmp == 0 {
      Put32(data, at, WydeWord(opcode, reg, 0, 0));
      tmp := 4;
    }
  }

  /** One of the four conditional stores. */
  method FillWyde(opcode: nat, insnType: nat, reg: Reg, ghost v: Wydes, ww: nat, imm: nat,
                  data: array<Byte>, at: nat, tmp: nat, ghost was: seq<Byte>)
    returns (tmp': nat)
    requires Known(opcode) && insnType == OpcodeOf(BankFor(opcode), PatchKindFor(opcode)) * 0x100_0000
    requires v.Valid() && ww < 4 && imm == v.At(ww)
    requires at + 4 * ww + 4 <= data.Length == |was|
    requires |CodeUpTo(opcode, reg, v, ww)| <= ww && tmp == 4 * |CodeUpTo(opcode, reg, v, ww)|
    requires data[..] == Overwrite(was, at, CodeUpTo(opcode, reg, v, ww))
    modifies data
    ensures |CodeUpTo(opcode, reg, v, ww + 1)| <= ww + 1 && tmp' == 4 * |CodeUpTo(opcode, reg, v, ww + 1)|
    ensures data[..] == Overwrite(was, at, CodeUpTo(opcode, reg, v, ww + 1))
  {
    hide Or, WydeWord, Overwrite, OverwrittenByte;
    ghost var done := CodeUpTo(opcode, reg, v, ww);
    if imm != 0 {
      var w := WydeWord(if tmp == 0 then opcode else insnType, reg, ww, imm);
      assert CodeUpTo(opcode, reg, v, ww + 1) == done + [w];
      Put32(data, at + tmp, w);
      OverwriteMore(was, at, done, w);
      tmp' := tmp + 4;
    } else {
      tmp' := tmp;
    }
  }

  // -------------------------------------------------- what the slot does

  const SWYM: nat := 0x1000_0000

  /** dd_fill_nops */
  function Nops(n: nat): (ws: seq<nat>)
    ensures |ws| == n && forall i :: 0 <= i < n ==> ws[i] == SWYM
  {
    seq(n, _ => SWYM)
  }

  lemma DecodeNop()
    ensures Decode(SWYM) == Nop
  {
    assert SWYM == Word(0x10, 0, 0, 0, 0);
    FieldsOfWord(0x10, 0, 0, 0, 0);
    hide Op, FA, FB, FC, FD, DecodeWyde, DecodeMem;
  }

  lemma StepNop(s: State)
    requires s.Valid()
    ensures Step(SWYM, s) == Some(Next(s))
  {
    DecodeNop();
    hide Decode;
  }

  lemma {:induction false} RunNops(n: nat, s: State)
    requires s.Valid()
    ensures Run(Nops(n), s) == Some(s.(pc := Wrap(s.pc + 4 * n)))
  {
    var nops := Nops(n);
    if n > 0 {
      StepNop(s);
      assert nops[0] == SWYM;
      hide Decode, Exec, Step, Wrap;
      WrapAdd(s.pc + 4, 4 * (n - 1));
      assert nops[1..] == Nops(n - 1);
      RunNops(n - 1, Next(s));
    }
  }

  lemma AfterNops(s: State, bank: Bank, reg: Reg, v: Octa, k: nat, n: nat)
    requires s.Valid()
    ensures Run(Nops(n), After(s, bank, reg, v, k)) == Some(After(s, bank, reg, v, k + n))
  {
    hide Run, Wrap, State.Put;
    RunNops(n, After(s, bank, reg, v, k));
    WrapAdd(s.pc + 4 * k, 4 * n);
  }

  lemma EncodedFits(bank: Bank, reg: Reg, op: WydeOp)
    requires op.Valid()
    ensures Encode(bank, reg, op) < TWO32
  {
    hide Or;
    WydeWordSum(OpcodeOf(bank, op.kind), reg, op.ww, op.imm);
  }

  /** A four-word slot whose last three words are the filler. */
  predicate Slot(bs: seq<Byte>, at: nat) {
    at + 16 <= |bs| && forall k :: 1 <= k < 4 ==> ReadWord(bs, at + 4 * k) == SWYM
  }

  /** The slot after dd_fill_abs: the code, then the untouched filler. */
  lemma SlotWords(bs: seq<Byte>, at: nat, ws: seq<nat>)
    requires Slot(bs, at) && 1 <= |ws| <= 4 && forall k :: 0 <= k < |ws| ==> ws[k] < TWO32
    ensures ReadWords(Overwrite(bs, at, ws), at, 4) == ws + Nops(4 - |ws|)
  {
    hide ReadWord, Overwrite;
    forall k: nat | k < 4
      ensures ReadWord(Overwrite(bs, at, ws), at + 4 * k) == (ws + Nops(4 - |ws|))[k]
    {
      ReadOverwritten(bs, at, ws, k);
    }
  }

  predicate Setzw(opcode: nat) { opcode == SETZW_RD || opcode == SETZW_RB }

  lemma AbsCodeRuns(opcode: nat, reg: Reg, addr: Octa, s: State)
    requires Setzw(opcode) && s.Valid() && !ReadOnly(BankFor(opcode), reg)
    ensures var ws := AbsCode(opcode, reg, addr);
            && 1 <= |ws| <= 4 && |ws| == Cost(Split(addr), 0)
            && (forall k :: 0 <= k < |ws| ==> ws[k] < TWO32)
            && Run(ws, s) == Some(After(s, BankFor(opcode), reg, addr, |ws|))
  {
    var bank, v := BankFor(opcode), Split(addr);
    SplitValue(addr);
    SplitValue(s.Get(bank, reg));
    AbsPlanComputes(v, Split(s.Get(bank, reg)));
    AbsPlanShape(v, SetZw, OrW);
    hide Or, WydeWord, Split, Run, Apply, AbsPlan, Wydes.Value, Cost;
    var ops := AbsPlan(v, SetZw, OrW);
    assert InBank(bank, ops);
    forall k | 0 <= k < |ops| ensures Encode(bank, reg, ops[k]) < TWO32 {
      EncodedFits(bank, reg, ops[k]);
    }
    RunEncoded(bank, reg, ops, s);
  }

  /** With a setzw opcode, dd_fill_abs turns the slot into code that, run as a
      whole, leaves exactly the address in the register. */
  lemma FillAbsCorrect(opcode: nat, reg: Reg, addr: Octa, bs: seq<Byte>, at: nat, s: State)
    requires (opcode == SETZW_RD || opcode == SETZW_RB) && reg != 0 && s.Valid() && Slot(bs, at)
    ensures |AbsCode(opcode, reg, addr)| == Cost(Split(addr), 0) <= 4
    ensures SlotRun(bs, at, AbsCode(opcode, reg, addr), s) == Some(After(s, BankFor(opcode), reg, addr, 4))
  {
    hide AbsCode, Run, ReadWords, Overwrite, Slot, Cost;
    var ws := AbsCode(opcode, reg, addr);
    AbsCodeRuns(opcode, reg, addr, s);
    SlotWords(bs, at, ws);
    RunAppend(ws, Nops(4 - |ws|), s);
    AfterNops(s, BankFor(opcode), reg, addr, |ws|, 4 - |ws|);
  }

  /** No program over setzw and orw that produces the address is shorter. */
  lemma {:induction false} FillAbsShortest(ops: seq<WydeOp>, v: Wydes)
    requires v.Valid() && RdProgram(ops) && Produces(ops, v)
    requires forall i :: 0 <= i < |ops| ==> ops[i].kind == SetZw || ops[i].kind == OrW
    ensures |ops| >= |AbsPlan(v, SetZw, OrW)|
  {
    hide AbsPlan;
    AbsPlanShape(v, SetZw, OrW);
    var a := Wydes(0, 0, 0, 0);
    assert Apply(ops, a) == v;
    if !HasSet(ops) {
      NoSetBound(ops, v);
    } else if HasSet(ops[1..]) {
      forall was: Wydes | was.Valid() ensures Apply(ops[1..], was) == v {
        SetForgets(ops[1..], was, WydeEffect(ops[0].kind, a, ops[0].ww, ops[0].imm));
      }
      FillAbsShortest(ops[1..], v);
    } else {
      var post := ops[1..];
      forall i | 0 < i < |ops| ensures !IsSet(ops[i]) {
        assert ops[i] == post[i - 1];
      }
      SetFirstBound(ops[0], post, v, WydeEffect(ops[0].kind, v, ops[0].ww, ops[0].imm), 0);
    }
  }

  // ------------------------------------------------- the setow opcode

  /** The wydes after the setow/andnw operations below `upto`, with `first`
      the one that was set: all others hold complements or ones. */
  predicate OnesFrom(v: Wydes, upto: nat, first: nat, r: Wydes)
    requires upto <= 4
  {
    && first < upto && v.At(first) != 0
    && forall i: nat :: i < 4 && i != first ==> r.At(i) == if i < upto then 0xFFFF - v.At(i) else 0xFFFF
  }

  predicate OnesSide(v: Wydes, upto: nat, r: Wydes)
    requires upto <= 4
  {
    exists first: nat :: first < upto && OnesFrom(v, upto, first, r)
  }

  lemma {:induction false} SetowUpTo(v: Wydes, upto: nat, was: Wydes)
    requires v.Valid() && upto <= 4
    ensures var ops := AbsUpTo(v, upto, SetOw, AndNW);
            if ops == [] then Below(v, upto) == Wydes(0, 0, 0, 0) else OnesSide(v, upto, Apply(ops, was))
  {
    hide AndNot, Apply;
    if upto > 0 {
      SetowUpTo(v, upto - 1, was);
      var ops := AbsUpTo(v, upto - 1, SetOw, AndNW);
      var w := v.At(upto - 1);
      if ops == [] {
        if w != 0 {
          var op := WydeOp(SetOw, upto - 1, w);
          ApplyOne(op, was);
          assert [] + [op] == [op];
          assert OnesFrom(v, upto, upto - 1, Apply([op], was));
        }
      } else {
        SetowStep(v, upto, Apply(ops, was));
        if w != 0 {
          ApplyOne(WydeOp(AndNW, upto - 1, w), Apply(ops, was));
          ApplyConcat(ops, [WydeOp(AndNW, upto - 1, w)], was);
        }
      }
    }
  }

  lemma AndNWAt(r: Wydes, ww: nat, w: nat, i: nat)
    requires ww < 4 && i < 4
    ensures WydeEffect(AndNW, r, ww, w).At(i) == if i == ww then AndNot(r.At(ww), w) else r.At(i)
  {
    hide AndNot;
  }

  lemma SetowStep(v: Wydes, upto: nat, r: Wydes)
    requires v.Valid() && 0 < upto <= 4 && OnesSide(v, upto - 1, r)
    ensures var w := v.At(upto - 1);
            OnesSide(v, upto, if w == 0 then r else WydeEffect(AndNW, r, upto - 1, w))
  {
    var w := v.At(upto - 1);
    var first: nat :| first < upto - 1 && OnesFrom(v, upto - 1, first, r);
    assert r.At(upto - 1) == 0xFFFF;
    WydeBits(0xFFFF - w);
    hide AndNot, WydeEffect;
    var r' := if w == 0 then r else WydeEffect(AndNW, r, upto - 1, w);
    forall i: nat | i < 4 ensures r'.At(i) == if i == upto - 1 then 0xFFFF - w else r.At(i) {
      AndNWAt(r, upto - 1, w, i);
    }
    hide Wydes.At;
    assert OnesFrom(v, upto, first, r');
  }

  /** With the setow opcode, which the relaxation pass also hands to it, the
      sequence of dd_fill_abs never produces the address. */
  lemma SetowNever(v: Wydes, was: Wydes)
    requires v.Valid()
    ensures Apply(AbsPlan(v, SetOw, AndNW), was) != v
  {
    hide Apply;
    var ops := AbsUpTo(v, 4, SetOw, AndNW);
    SetowUpTo(v, 4, was);
    if ops == [] {
      ApplyOne(WydeOp(SetOw, 0, 0), was);
    } else {
      var first: nat :| first < 4 && OnesFrom(v, 4, first, Apply(ops, was));
      var i := if first == 0 then 1 else 0;
      assert Apply(ops, was).At(i) == 0xFFFF - v.At(i);
      assert 0xFFFF - v.At(i) != v.At(i);
    }
  }

  // --------------------------------------------- the R_DADAO_ABS relocation

  /** bfd_check_overflow for a 16-bit field that may be signed or unsigned:
      the bits above the field must be all zero or all one. */
  predicate FitsBitfield16(addr: Octa) { addr < TWO16 || addr >= TWO64 - TWO16 }

  /** What the relocation stores from the slot's start on. */
  function RelocCode(insn: nat, addr: Octa): seq<nat> {
    if FitsBitfield16(addr) then [Or(insn, addr) % TWO32]
    else AbsCode(Op(insn) * 0x100_0000, FA(insn), addr)
  }

  /** The R_DADAO_ABS case of dadao_elf_perform_relocation. */
  method PerformAbs(data: array<Byte>, at: nat, addr: Octa)
    requires at + 16 <= data.Length
    requires FitsBitfield16(addr) || Known(Op(ReadWord(data[..], at)) * 0x100_0000)
    modifies data
    ensures |RelocCode(old(ReadWord(data[..], at)), addr)| <= 4
    ensures data[..] == Overwrite(old(data[..]), at, RelocCode(old(ReadWord(data[..], at)), addr))
  {
    var insn := WordOf(data[at], data[at + 1], data[at + 2], data[at + 3]);
    assert insn == ReadWord(data[..], at);
    if FitsBitfield16(addr) {
      Put32(data, at, Or(insn, addr) % TWO32);
    } else {
      var tmp := DdFillAbs(Op(insn) * 0x100_0000, FA(insn), addr, data, at);
    }
  }

  lemma ShortAbs(opcode: nat, reg: Reg, addr: Octa)
    requires Setzw(opcode) && addr < TWO16
    ensures Or(opcode + reg * 0x4_0000, addr) % TWO32 == WydeWord(opcode, reg, 0, addr) < TWO32
  {
    hide Or;
    var op := opcode / 0x100_0000;
    WydeWordSum(op, reg, 0, addr);
    Pow2Values();
    OrField(op * 0x100 + reg * 4, addr, 16);
  }

  lemma OpcodeOnes(op: nat)
    requires op == 0x16 || op == 0x4E
    ensures Or(op, 0xFF) == 0xFF
  {
    hide Or;
    Pow2Values();
    OrOnes(op, 8);
  }

  lemma LowOnes(op: nat, field: nat, lo: nat)
    requires (op == 0x16 || op == 0x4E) && field < 0x100_0000 && lo < 0x100_0000
    ensures var r := Or(op * 0x100_0000 + field, 0xFF * 0x100_0000 + lo);
            0xFF * 0x100_0000 <= r < TWO32
  {
    OpcodeOnes(op);
    hide Or;
    Pow2Values();
    OrBound(field, lo, 24);
    OrSplit(op, field, 0xFF, lo, 24);
  }

  /** Sign-extended addresses overwrite the opcode byte. */
  lemma NegativeAbs(opcode: nat, reg: Reg, addr: Octa)
    requires Setzw(opcode) && addr >= TWO64 - TWO16
    ensures Op(Or(opcode + reg * 0x4_0000, addr) % TWO32) == 0xFF
  {
    hide Or;
    var insn, lo := opcode + reg * 0x4_0000, addr - 0xFFFF_FFFF_FF00_0000;
    var low := Or(insn, 0xFF * 0x100_0000 + lo);
    LowOnes(opcode / 0x100_0000, reg * 0x4_0000, lo);
    Pow64();
    OrSplit(0, insn, 0xFFFF_FFFF, 0xFF * 0x100_0000 + lo, 32);
    OrZero(0xFFFF_FFFF);
    DivMod(0xFFFF_FFFF, low, TWO32);
    DivMod(0xFF, low - 0xFF * 0x100_0000, 0x100_0000);
  }

  /** What running the four words of the slot does after `ws` were stored. */
  function SlotRun(bs: seq<Byte>, at: nat, ws: seq<nat>, s: State): Option<State>
    requires at + 16 <= |bs| && |ws| <= 4 && s.Valid()
  {
    Run(ReadWords(Overwrite(bs, at, ws), at, 4), s)
  }

  lemma SetzwFields(opcode: nat, reg: Reg)
    requires Setzw(opcode)
    ensures Op(opcode + reg * 0x4_0000) * 0x100_0000 == opcode && FA(opcode + reg * 0x4_0000) == reg
  {
    HighFields(if opcode == SETZW_RD then 0x16 else 0x4E, reg, 0);
  }

  lemma AbsRelocShort(opcode: nat, reg: Reg, addr: Octa, s: State)
    requires Setzw(opcode) && s.Valid() && addr < TWO16
    ensures Or(opcode + reg * 0x4_0000, addr) % TWO32 < TWO32
    ensures Run([Or(opcode + reg * 0x4_0000, addr) % TWO32] + Nops(3), s) == Some(After(s, BankFor(opcode), reg, addr, 4))
  {
    hide Or, Run, After, WydeWord, Step;
    var w := Or(opcode + reg * 0x4_0000, addr) % TWO32;
    ShortAbs(opcode, reg, addr);
    StepSetzw(opcode, reg, addr, s);
    RunOne(w, s);
    RunAppend([w], Nops(3), s);
    AfterNops(s, BankFor(opcode), reg, addr, 1, 3);
  }

  lemma AbsRelocNegative(opcode: nat, reg: Reg, addr: Octa, s: State)
    requires Setzw(opcode) && s.Valid() && addr >= TWO64 - TWO16
    ensures Or(opcode + reg * 0x4_0000, addr) % TWO32 < TWO32
    ensures Run([Or(opcode + reg * 0x4_0000, addr) % TWO32] + Nops(3), s) == None
  {
    hide Or, Run, Step;
    var w := Or(opcode + reg * 0x4_0000, addr) % TWO32;
    NegativeAbs(opcode, reg, addr);
    StepIllegal(w, s);
    RunOne(w, s);
    RunAppend([w], Nops(3), s);
  }

  lemma AbsRelocOneWord(opcode: nat, reg: Reg, addr: Octa, bs: seq<Byte>, at: nat, s: State)
    requires Setzw(opcode) && s.Valid() && Slot(bs, at) && FitsBitfield16(addr)
    ensures SlotRun(bs, at, [Or(opcode + reg * 0x4_0000, addr) % TWO32], s)
         == if addr < TWO16 then Some(After(s, BankFor(opcode), reg, addr, 4)) else None
  {
    hide Or, Run, ReadWords, Overwrite, After;
    SlotWords(bs, at, [Or(opcode + reg * 0x4_0000, addr) % TWO32]);
    if addr < TWO16 {
      AbsRelocShort(opcode, reg, addr, s);
    } else {
      AbsRelocNegative(opcode, reg, addr, s);
    }
  }

  /** The relocated slot loads the address exactly when the address is below
      2^64 - 2^16; above, the word that replaces the setzw is no instruction. */
  lemma AbsRelocExact(opcode: nat, reg: Reg, addr: Octa, bs: seq<Byte>, at: nat, s: State)
    requires (opcode == SETZW_RD || opcode == SETZW_RB) && reg != 0 && s.Valid() && Slot(bs, at)
    requires ReadWord(bs, at) == opcode + reg * 0x4_0000
    ensures var ws := RelocCode(ReadWord(bs, at), addr);
            |ws| <= 4
            && (SlotRun(bs, at, ws, s) == Some(After(s, BankFor(opcode), reg, addr, 4)) <==> addr < TWO64 - TWO16)
  {
    hide Or, Op, FA, ReadWord, SlotRun, Slot, AbsCode, ReadOnly, After, Cost, Split;
    SetzwFields(opcode, reg);
    if FitsBitfield16(addr) {
      AbsRelocOneWord(opcode, reg, addr, bs, at, s);
    } else {
      FillAbsCorrect(opcode, reg, addr, bs, at, s);
    }
  }

  lemma StepIllegal(w: nat, s: State)
    requires s.Valid() && Op(w) == 0xFF
    ensures Step(w, s) == None
  {
  }

  lemma StepSetzw(opcode: nat, reg: Reg, addr: Octa, s: State)
    requires Setzw(opcode) && s.Valid() && addr < TWO16
    ensures Step(WydeWord(opcode, reg, 0, addr), s) == Some(After(s, BankFor(opcode), reg, addr, 1))
  {
    hide Step, Split, WydeWord;
    var op := WydeOp(SetZw, 0, addr);
    assert Encode(BankFor(opcode), reg, op) == WydeWord(opcode, reg, 0, addr);
    StepEncoded(BankFor(opcode), reg, op, s);
    assert WydeEffect(SetZw, Split(s.Get(BankFor(opcode), reg)), 0, addr) == Wydes(addr, 0, 0, 0);
  }
}

/** Conditional branches in the assembler: writing a displacement into an
    instruction word, and the long form that inverts the condition and jumps. */
module Branch {
  import opened Bits
  import opened Machine
  import opened Bytes

  const MATCH_JUMPI: nat := 0x6400_0000

  // ---------------------------------------------------- displacement field

  predicate FieldWidth(bits: nat) { bits == 12 || bits == 18 || bits == 24 }

  /** The values dd_set_addr_offset does not reject. */
  predicate Accepted(value: int, bits: nat, isInsn: bool) {
    && FieldWidth(bits)
    && (isInsn ==> value % 4 == 0)
    && var v := if isInsn then value / 4 else value;
       -(Pow2(bits) as int) <= v < Pow2(bits)
  }

  /** The same in numbers: fields of 12, 18 and 24 bits, in bytes for an
      instruction address. */
  lemma AcceptedExactly(value: int, bits: nat, isInsn: bool)
    ensures Accepted(value, bits, isInsn) <==>
              if isInsn then value % 4 == 0 && ((bits == 12 && -0x4000 <= value < 0x4000)
                                                || (bits == 18 && -0x10_0000 <= value < 0x10_0000)
                                                || (bits == 24 && -0x400_0000 <= value < 0x400_0000))
              else (bits == 12 && -0x1000 <= value < 0x1000)
                   || (bits == 18 && -0x4_0000 <= value < 0x4_0000)
                   || (bits == 24 && -0x100_0000 <= value < 0x100_0000)
  {
    Pow2Values();
    hide Pow2;
  }

  /** The value as the field's bits. */
  function FieldBits(value: int, bits: nat, isInsn: bool): nat {
    (if isInsn then value / 4 else value) % Pow2(bits)
  }

  /** The bytes of a word whose low field is zero. */
  predicate ZeroLow(b0: Byte, b1: Byte, b2: Byte, bits: nat) {
    && b0 == 0 && b1 % 16 == 0
    && (bits == 18 ==> b1 == 0 && b2 % 4 == 0)
    && (bits == 24 ==> b1 == 0 && b2 == 0)
  }

  /** The four bytes of a word whose low field was filled with v. */
  function Filled(b1: Byte, b2: Byte, v: int, bits: nat): (Byte, Byte, Byte)
    requires FieldWidth(bits) && ZeroLow(0, b1, b2, bits)
  {
    var fa, fb, fc, fd := v / 0x4_0000 % 64, v / 0x1000 % 64, v / 64 % 64, v % 64;
    (fc % 4 * 64 + fd,
     (if bits >= 18 then fb % 16 * 16 else b1) + fc / 4,
     if bits == 24 then fa * 4 + fb / 16 else if bits == 18 then b2 + fb / 16 else b2)
  }

  lemma FilledWord(b1: Byte, b2: Byte, b3: Byte, v: int, bits: nat)
    requires FieldWidth(bits) && ZeroLow(0, b1, b2, bits)
    ensures var f := Filled(b1, b2, v, bits);
            WordOf(f.0, f.1, f.2, b3) == WordOf(0, b1, b2, b3) + v % Pow2(bits)
  {
    Pow2Values();
    ModParts(v, 64, 64);
    ModParts(v, 64, 0x1000);
    ModParts(v, 64, 0x4_0000);
  }

  lemma ZeroField(b0: Byte, b1: Byte, b2: Byte, b3: Byte, bits: nat)
    requires FieldWidth(bits) && WordOf(b0, b1, b2, b3) % Pow2(bits) == 0
    ensures ZeroLow(b0, b1, b2, bits)
  {
    Pow2Values();
    if bits == 12 {
      DivMod(b1 / 16 + b2 * 16 + b3 * 0x1000, b0 + b1 % 16 * 0x100, 0x1000);
    } else if bits == 18 {
      DivMod(b2 / 4 + b3 * 64, b0 + b1 * 0x100 + b2 % 4 * 0x1_0000, 0x4_0000);
    } else {
      DivMod(b3, b0 + b1 * 0x100 + b2 * 0x1_0000, 0x100_0000);
    }
  }

  /** dd_set_addr_offset: the DDOP_SET macros OR the value's bits into a field
      that is still zero; ok is false where the assembler stops. */
  method DdSetAddrOffset(data: array<Byte>, at: nat, value: int, bits: nat, isInsn: bool) returns (ok: bool)
    requires at + 4 <= data.Length
    requires FieldWidth(bits) ==> ReadWord(data[..], at) % Pow2(bits) == 0
    modifies data
    ensures ok <==> (if isInsn then value % 4 == 0 && ((bits == 12 && -0x4000 <= value < 0x4000)
                                                       || (bits == 18 && -0x10_0000 <= value < 0x10_0000)
                                                       || (bits == 24 && -0x400_0000 <= value < 0x400_0000))
                     else (bits == 12 && -0x1000 <= value < 0x1000)
                          || (bits == 18 && -0x4_0000 <= value < 0x4_0000)
                          || (bits == 24 && -0x100_0000 <= value < 0x100_0000))
    ensures ok == Accepted(value, bits, isInsn)
    ensures data[..] == if ok then Overwrite(old(data[..]), at, [old(ReadWord(data[..], at)) + FieldBits(value, bits, isInsn)])
                        else old(data[..])
  {
    hide Or, WordOf, Overwrite, OverwrittenByte, Filled, Pow2, ZeroLow;
    AcceptedExactly(value, bits, isInsn);
    var v := value;
    if isInsn {
      if v % 4 != 0 { return false; }
      v := v / 4;
    }
    if bits != 12 && bits != 18 && bits != 24 { return false; }
    if v > 0 && v >= Pow2(bits) { return false; }
    if v < 0 && -v > Pow2(bits) { return false; }
    ghost var b1, b2, b3 := data[at + 1], data[at + 2], data[at + 3];
    ZeroField(data[at], b1, b2, b3, bits);
    OrFields(data, at, v, bits);
    ghost var f := Filled(b1, b2, v, bits);
    FilledWord(b1, b2, b3, v, bits);
    OverwriteBytes(old(data[..]), at, f.0, f.1, f.2, b3);
    ok := true;
  }

  /** The fall-through switch over the field widths. */
  method OrFields(data: array<Byte>, at: nat, v: int, bits: nat)
    requires at + 4 <= data.Length && FieldWidth(bits) && ZeroLow(data[at], data[at + 1], data[at + 2], bits)
    modifies data
    ensures var f := Filled(old(data[at + 1]), old(data[at + 2]), v, bits);
            data[..] == old(data[..])[at := f.0][at + 1 := f.1][at + 2 := f.2][at + 3 := old(data[at + 3])]
  {
    Pow2Values();
    hide Pow2;
    if bits == 24 {
      OrByte(data, at + 2, v / 0x4_0000 % 64 * 4, 8);
    }
    if bits >= 18 {
      OrByte(data, at + 2, v / 0x1000 % 64 / 16, 2);
      OrByte(data, at + 1, v / 0x1000 % 64 % 16 * 16, 8);
    }
    OrByte(data, at + 1, v / 64 % 64 / 4, 4);
    OrByte(data, at, v / 64 % 64 % 4 * 64, 8);
    OrByte(data, at, v % 64, 6);
  }

  /** p |= x on one byte, into `low` bits that are zero. */
  method OrByte(data: array<Byte>, i: nat, x: nat, low: nat)
    requires i < data.Length && low <= 8 && x < Pow2(low) && data[i] % Pow2(low) == 0
    requires data[i] + x < 256
    modifies data
    ensures data[..] == old(data[..])[i := old(data[i]) + x]
  {
    var hi := data[i] / Pow2(low);
    assert data[i] == hi * Pow2(low);
    OrField(hi, x, low);
    data[i] := Or(data[i], x);
  }

  /** An accepted value reads back from its field exactly when it lies in the
      signed range; the other half of the accepted range, which the assembler
      does not reject, reads back off by the field's size. */
  lemma OffsetExact(value: int, bits: nat, isInsn: bool)
    requires Accepted(value, bits, isInsn)
    ensures var v := if isInsn then value / 4 else value;
            && (SignExtend(FieldBits(value, bits, isInsn), bits) == v <==>
                  -(Pow2(bits - 1) as int) <= v < Pow2(bits - 1))
            && (v < -(Pow2(bits - 1) as int) ==> SignExtend(FieldBits(value, bits, isInsn), bits) == v + Pow2(bits))
            && (v >= Pow2(bits - 1) ==> SignExtend(FieldBits(value, bits, isInsn), bits) == v - Pow2(bits))
  {
    var v := if isInsn then value / 4 else value;
    var p := Pow2(bits);
    assert p == 2 * Pow2(bits - 1);
    hide Pow2;
    if v < 0 {
      DivMod(-1, v + p, p);
    } else {
      DivMod(0, v, p);
    }
  }

  // ------------------------------------------------------- the long form

  predicate IsBranch(w: nat) { 0x28 <= Op(w) <= 0x2F }

  function BranchBits(w: nat): nat { if Op(w) <= 0x2D then 18 else 12 }

  /** A conditional branch as first assembled: the displacement field is zero. */
  predicate FreshBranch(w: nat) {
    w < TWO32 && IsBranch(w) && w % Pow2(BranchBits(w)) == 0
  }

  /** The eight branch opcodes with a zero displacement: 18 bits of it for the six
      that look at one register, 12 for the two that compare. */
  lemma FreshBranches(op: nat, a: Reg, b: Reg)
    requires 0x28 <= op <= 0x2F && (op <= 0x2D ==> b == 0)
    ensures var w := Word(op, a, b, 0, 0);
            FreshBranch(w) && Op(w) == op && FA(w) == a && FB(w) == b && BranchBits(w) == if op <= 0x2D then 18 else 12
  {
    Pow2Values();
    FieldsOfWord(op, a, b, 0, 0);
    hide Pow2, Op, FA, FB;
    if op <= 0x2D {
      DivMod(op * 64 + a, 0, 0x4_0000);
    } else {
      DivMod((op * 64 + a) * 64 + b, 0, 0x1000);
    }
  }

  /** The condition bit of the opcode is its lowest bit. */
  function Inverted(w: nat): nat
    requires IsBranch(w)
  {
    if Op(w) % 2 == 0 then w + 0x100_0000 else w - 0x100_0000
  }

  /** md_convert_frag_branch. */
  method ConvertFragBranch(data: array<Byte>, at: nat)
    requires at + 8 <= data.Length && IsBranch(ReadWord(data[..], at))
    modifies data
    ensures data[..] == Overwrite(old(data[..]), at, [Inverted(old(ReadWord(data[..], at))), MATCH_JUMPI])
  {
    hide Overwrite, WordOf, OverwrittenByte;
    ghost var was := data[..];
    var insn := WordOf(data[at], data[at + 1], data[at + 2], data[at + 3]);
    assert insn == ReadWord(data[..], at);
    if insn / 0x100_0000 % 2 == 0 {
      insn := insn + 0x100_0000;
    } else {
      insn := insn - 0x100_0000;
    }
    Put32(data, at, insn);
    OverwriteMore(was, at, [insn], MATCH_JUMPI);
    assert [insn] + [MATCH_JUMPI] == [insn, MATCH_JUMPI];
    Put32(data, at + 4, MATCH_JUMPI);
  }

  /** The words of a converted branch frag, displacement `disp` from the branch. */
  function LongCode(w: nat, disp: int): seq<nat>
    requires IsBranch(w)
  {
    [Inverted(w) + FieldBits(8, BranchBits(w), true), MATCH_JUMPI + FieldBits(disp - 4, 24, true)]
  }

  function ShortCode(w: nat, disp: int): seq<nat> {
    [w + FieldBits(disp, BranchBits(w), true)]
  }

  /** Whether md_convert_frag takes the long form. */
  predicate TakesLong(frVar: nat, frFix: nat) { frVar == 4 && frFix == 4 }

  function BranchCode(w: nat, disp: int, frVar: nat, frFix: nat): seq<nat>
    requires IsBranch(w)
  {
    if TakesLong(frVar, frFix) then LongCode(w, disp) else ShortCode(w, disp)
  }

  /** The displacements with which md_convert_frag does not stop, in bytes: those
      that pass the check on the jump or on the branch's own field. */
  predicate Convertible(w: nat, disp: int, frVar: nat, frFix: nat) {
    && disp % 4 == 0
    && if frVar == 4 && frFix == 4 then -0x400_0000 <= disp - 4 < 0x400_0000
       else if Op(w) <= 0x2D then -0x10_0000 <= disp < 0x10_0000 else -0x4000 <= disp < 0x4000
  }

  lemma ConvertibleExactly(w: nat, disp: int, frVar: nat, frFix: nat)
    ensures Convertible(w, disp, frVar, frFix) <==>
              if TakesLong(frVar, frFix) then Accepted(disp - 4, 24, true) else Accepted(disp, BranchBits(w), true)
  {
    AcceptedExactly(disp - 4, 24, true);
    AcceptedExactly(disp, BranchBits(w), true);
    hide Accepted;
  }

  /** The BRCC and BRCC12 cases of md_convert_frag on the frag's last fixed
      word; varPart is what is added to fr_fix. */
  method ConvertBranch(data: array<Byte>, at: nat, disp: int, frVar: nat, frFix: nat)
    returns (ok: bool, varPart: nat)
    requires at + 8 <= data.Length && FreshBranch(ReadWord(data[..], at))
    modifies data
    ensures var w := old(ReadWord(data[..], at));
            && ok == Convertible(w, disp, frVar, frFix)
            && (ok ==> data[..] == Overwrite(old(data[..]), at, BranchCode(w, disp, frVar, frFix))
                       && varPart + 4 == 4 * |BranchCode(w, disp, frVar, frFix)|)
  {
    hide Overwrite, OverwrittenByte, WordOf, Pow2, Accepted, Convertible;
    var bits := if data[at + 3] <= 0x2D then 18 else 12;
    TopByte(data[at], data[at + 1], data[at + 2], data[at + 3]);
    ConvertibleExactly(ReadWord(data[..], at), disp, frVar, frFix);
    if frVar == 4 && frFix == 4 {
      ok := ConvertLong(data, at, disp, bits);
      varPart := 4;
    } else {
      ok := DdSetAddrOffset(data, at, disp, bits, true);
      varPart := 0;
    }
  }

  /** The long form with both displacements filled in. */
  method ConvertLong(data: array<Byte>, at: nat, disp: int, bits: nat) returns (ok: bool)
    requires at + 8 <= data.Length && FreshBranch(ReadWord(data[..], at)) && bits == BranchBits(ReadWord(data[..], at))
    modifies data
    ensures ok == Accepted(disp - 4, 24, true)
    ensures ok ==> data[..] == Overwrite(old(data[..]), at, LongCode(old(ReadWord(data[..], at)), disp))
  {
    hide Overwrite, OverwrittenByte, ReadWord, Pow2, FieldBits, Op, Inverted, FreshBranch;
    ghost var was, w := data[..], ReadWord(data[..], at);
    FreshField(w);
    ghost var inv, jump := Inverted(w), MATCH_JUMPI;
    ConvertFragBranch(data, at);
    InvertedFresh(w);
    ReadOverwritten(was, at, [inv, jump], 0);
    FreshField(inv);
    ok := DdSetAddrOffset(data, at, 8, bits, true);
    SmallAccepted(bits);
    OverwriteAgain(was, at, [inv, jump], 0, inv + FieldBits(8, bits, true));
    ghost var first := inv + FieldBits(8, bits, true);
    assert [inv, jump][0 := first] == [first, jump];
    JumpField();
    ReadOverwritten(was, at, [first, jump], 1);
    ok := DdSetAddrOffset(data, at + 4, disp - 4, 24, true);
    ghost var second := jump + FieldBits(disp - 4, 24, true);
    OverwriteAgain(was, at, [first, jump], 1, second);
    assert [first, jump][1 := second] == [first, second];
  }

  lemma FreshField(w: nat)
    requires FreshBranch(w)
    ensures IsBranch(w) && FieldWidth(BranchBits(w)) && w % Pow2(BranchBits(w)) == 0
  {
  }

  lemma JumpField()
    ensures MATCH_JUMPI % Pow2(24) == 0
  {
    Pow2Values();
  }

  lemma TopByte(b0: Byte, b1: Byte, b2: Byte, b3: Byte)
    ensures Op(WordOf(b0, b1, b2, b3)) == b3
  {
    DivMod(b3, b0 + b1 * 0x100 + b2 * 0x1_0000, 0x100_0000);
  }

  lemma SmallAccepted(bits: nat)
    requires FieldWidth(bits)
    ensures Accepted(8, bits, true) && FieldBits(8, bits, true) == 2
  {
    Pow2Values();
  }

  lemma InvertedParts(w: nat)
    requires IsBranch(w)
    ensures Op(Inverted(w)) == if Op(w) % 2 == 0 then Op(w) + 1 else Op(w) - 1
    ensures Inverted(w) % 0x100_0000 == w % 0x100_0000
  {
    var op, low := Op(w), w % 0x100_0000;
    assert w == op * 0x100_0000 + low;
    DivMod(if op % 2 == 0 then op + 1 else op - 1, low, 0x100_0000);
  }

  lemma InvertedFresh(w: nat)
    requires FreshBranch(w)
    ensures Inverted(w) < TWO32 && FreshBranch(Inverted(w)) && BranchBits(Inverted(w)) == BranchBits(w)
    ensures FA(Inverted(w)) == FA(w) && FB(Inverted(w)) == FB(w)
  {
    var v := Inverted(w);
    InvertedParts(w);
    assert v < 0x3000_0000;
    WordParts(w);
    WordParts(v);
    hide Inverted, Pow2, FA, FB;
    SameLow(FA(w), FB(w), w % 0x1000, FA(v), FB(v), v % 0x1000);
    Pow2Values();
  }

  lemma SameLow(a: Reg, b: Reg, c: nat, a': Reg, b': Reg, c': nat)
    requires c < 0x1000 && c' < 0x1000
    requires a * 0x4_0000 + b * 0x1000 + c == a' * 0x4_0000 + b' * 0x1000 + c'
    ensures a == a' && b == b' && c == c'
  {
  }

  // ------------------------------------------------------------ execution

  /** Run the words placed at `base` while the pc points at one of them. */
  function RunFrom(code: seq<nat>, base: Octa, s: State, fuel: nat): Option<State>
    requires s.Valid()
    decreases fuel
  {
    var off := Wrap(s.pc - base);
    if fuel == 0 || off % 4 != 0 || off / 4 >= |code| then Some(s)
    else
      var o := Step(code[off / 4], s);
      if o.None? then None else RunFrom(code, base, o.value, fuel - 1)
  }

  function OtherReg(w: nat): Reg { if Op(w) <= 0x2D then 0 else FB(w) }

  predicate Taken(w: nat, s: State)
    requires IsBranch(w) && s.Valid()
  {
    CondHolds(CondOf(Op(w)), s.Get(RD, FA(w)), s.Get(RD, OtherReg(w)))
  }

  lemma FilledDecodes(w: nat, v: nat)
    requires FreshBranch(w) && v < Pow2(BranchBits(w))
    ensures Decode(w + v) == Branch(CondOf(Op(w)), FA(w), OtherReg(w), SignExtend(v, BranchBits(w)))
  {
    var bits, x := BranchBits(w), w + v;
    Pow2Values();
    WordParts(w);
    hide Pow2;
    var op, a, b := Op(w), FA(w), FB(w);
    if bits == 18 {
      HighFields(op, a, v);
    } else {
      HighFields(op, a, b * 0x1000 + v);
      MiddleField(op * 64 + a, b, v);
    }
    hide Op, FA, FB, SignExtend;
  }

  lemma JumpDecodes(v: nat)
    requires v < 0x100_0000
    ensures Decode(MATCH_JUMPI + v) == Jump(SignExtend(v, 24))
  {
    DivMod(0x64, v, 0x100_0000);
    hide SignExtend, DecodeWyde, DecodeMem, DecodeMove;
  }

  lemma InvertedTaken(w: nat, s: State)
    requires FreshBranch(w) && s.Valid()
    ensures IsBranch(Inverted(w)) && (Taken(Inverted(w), s) <==> !Taken(w, s))
  {
    InvertedFresh(w);
    hide Inverted, FA, FB, Op, State.Get, Pow2;
  }

  lemma StepBranch(w: nat, v: nat, s: State)
    requires FreshBranch(w) && v < Pow2(BranchBits(w)) && s.Valid()
    ensures Step(w + v, s)
         == Some(s.(pc := if Taken(w, s) then Wrap(s.pc + 4 * SignExtend(v, BranchBits(w))) else Wrap(s.pc + 4)))
  {
    hide Decode, SignExtend, Op, FA, FB, Pow2, State.Get, CondHolds;
    FilledDecodes(w, v);
  }

  lemma StepJump(v: nat, s: State)
    requires v < 0x100_0000 && s.Valid()
    ensures Step(MATCH_JUMPI + v, s) == Some(s.(pc := Wrap(s.pc + 4 * SignExtend(v, 24))))
  {
    hide Decode, SignExtend, Wrap;
    JumpDecodes(v);
  }

  /** The displacements whose long form reaches them: the jump stands one word
      behind the branch, and its field is signed. */
  predicate JumpReach(disp: int) { disp % 4 == 0 && -0x80_0000 <= disp / 4 - 1 < 0x80_0000 }

  /** The jump at s.pc reaches an accepted target exactly when its field holds the displacement. */
  lemma JumpLands(disp: int, s: State)
    requires Accepted(disp - 4, 24, true) && s.Valid()
    ensures var o := Step(MATCH_JUMPI + FieldBits(disp - 4, 24, true), s);
            && o.Some? && o.value == s.(pc := o.value.pc)
            && (o.value.pc == Wrap(s.pc + (disp - 4)) <==> JumpReach(disp))
  {
    hide Pow2, SignExtend, FieldBits, Step, Accepted, Wrap;
    JumpRange(disp);
    FieldBound(disp - 4, 24, true);
    OffsetExact(disp - 4, 24, true);
    StepJump(FieldBits(disp - 4, 24, true), s);
    FarTarget(s.pc, disp - 4, 24);
  }

  lemma JumpRange(disp: int)
    requires Accepted(disp - 4, 24, true)
    ensures Pow2(24) == 0x100_0000 && Pow2(23) == 0x80_0000
    ensures JumpReach(disp) <==> -0x80_0000 <= (disp - 4) / 4 < 0x80_0000
  {
    Pow2Values();
    hide Pow2;
  }

  /** The accepted displacements that the jump does not reach: the other half of
      the accepted range, from 32 MiB on. */
  lemma AcceptedOutOfReach(disp: int)
    ensures Accepted(disp - 4, 24, true) && !JumpReach(disp)
       <==> disp % 4 == 0 && (0x200_0000 <= disp - 4 < 0x400_0000 || -0x400_0000 <= disp - 4 < -0x200_0000)
  {
    Pow2Values();
    hide Pow2;
  }

  lemma FieldBound(value: int, bits: nat, isInsn: bool)
    ensures FieldBits(value, bits, isInsn) < Pow2(bits)
  {
    hide Pow2;
  }

  lemma SkipField(bits: nat)
    requires FieldWidth(bits)
    ensures FieldBits(8, bits, true) < Pow2(bits) && SignExtend(FieldBits(8, bits, true), bits) == 2
  {
    Pow2Values();
    SmallAccepted(bits);
    hide FieldBits;
    assert Pow2(bits) == 2 * Pow2(bits - 1);
  }

  lemma RunInside(code: seq<nat>, base: Octa, s: State, k: nat, fuel: nat)
    requires s.Valid() && k < |code| <= 20 && s.pc == Wrap(base + 4 * k) && fuel > 0
    ensures RunFrom(code, base, s, fuel)
         == if Step(code[k], s).None? then None else RunFrom(code, base, Step(code[k], s).value, fuel - 1)
  {
    hide Step;
    PcOffset(base, 4 * k);
  }

  lemma RunOutside(code: seq<nat>, base: Octa, s: State, k: nat, fuel: nat)
    requires s.Valid() && |code| <= k <= 20 && s.pc == Wrap(base + 4 * k)
    ensures RunFrom(code, base, s, fuel) == Some(s)
  {
    hide Step;
    PcOffset(base, 4 * k);
  }

  lemma PcOffset(a: Octa, k: nat)
    requires k < 100
    ensures Wrap(Wrap(a + k) - a) == k
  {
    WrapAdd(a + k, 0 - a);
  }

  /** From every state, the long form goes to the instruction after it when the
      original condition fails; when it holds, an accepted target is reached
      exactly when it is in the jump's signed reach. */
  lemma LongForm(w: nat, disp: int, s: State)
    requires FreshBranch(w) && s.Valid() && Accepted(disp - 4, 24, true)
    ensures var o := RunFrom(LongCode(w, disp), s.pc, s, 2);
            && o.Some? && o.value == s.(pc := o.value.pc)
            && (!Taken(w, s) ==> o.value.pc == Wrap(s.pc + 8))
            && (Taken(w, s) ==> (o.value.pc == Wrap(s.pc + disp) <==> JumpReach(disp)))
  {
    hide Inverted, FreshBranch, Taken, Pow2, SignExtend, FieldBits, Step, BranchBits, JumpReach, RunFrom, Wrap, Accepted;
    FreshField(w);
    var bits, inv := BranchBits(w), Inverted(w);
    var code, a := LongCode(w, disp), s.pc;
    InvertedFresh(w);
    InvertedTaken(w, s);
    SkipField(bits);
    StepBranch(inv, FieldBits(8, bits, true), s);
    WrapAdd(s.pc, 0);
    RunInside(code, a, s, 0, 2);
    var s1 := Step(code[0], s).value;
    if Taken(w, s) {
      RunInside(code, a, s1, 1, 1);
      JumpLands(disp, s1);
      WrapAdd(s.pc + 4, disp - 4);
      RunNone(code, a, Step(code[1], s1).value);
    } else {
      RunOutside(code, a, s1, 2, 1);
    }
  }

  lemma RunNone(code: seq<nat>, base: Octa, s: State)
    requires s.Valid()
    ensures RunFrom(code, base, s, 0) == Some(s)
  {
    hide Step;
  }

  /** From every state, the short form falls through when the condition fails;
      when it holds, an accepted displacement is reached exactly when it fits
      the signed field. */
  lemma ShortForm(w: nat, disp: int, s: State)
    requires FreshBranch(w) && s.Valid() && Accepted(disp, BranchBits(w), true)
    ensures var half: int := Pow2(BranchBits(w) - 1);
            var o := RunFrom(ShortCode(w, disp), s.pc, s, 1);
            && o.Some?
            && (!Taken(w, s) ==> o.value == s.(pc := Wrap(s.pc + 4)))
            && (Taken(w, s) ==> o.value == s.(pc := o.value.pc)
                                && (o.value.pc == Wrap(s.pc + disp) <==> -half <= disp / 4 < half))
  {
    hide FreshBranch, Taken, Pow2, SignExtend, FieldBits, Step, BranchBits, Wrap, RunFrom, Accepted;
    FreshField(w);
    var bits := BranchBits(w);
    var v := FieldBits(disp, bits, true);
    FieldBound(disp, bits, true);
    OffsetExact(disp, bits, true);
    StepBranch(w, v, s);
    FarTarget(s.pc, disp, bits);
    WrapAdd(s.pc, 0);
    var code := ShortCode(w, disp);
    RunInside(code, s.pc, s, 0, 1);
    RunNone(code, s.pc, Step(code[0], s).value);
  }

  /** A target missed by the size of the field is another address. */
  lemma FarTarget(a: Octa, disp: int, bits: nat)
    requires FieldWidth(bits) && Accepted(disp, bits, true)
    ensures Wrap(a + 4 * (disp / 4)) == Wrap(a + disp)
    ensures Wrap(a + 4 * (disp / 4 + Pow2(bits))) != Wrap(a + disp)
    ensures Wrap(a + 4 * (disp / 4 - Pow2(bits))) != Wrap(a + disp)
  {
    Pow2Values();
  }
}

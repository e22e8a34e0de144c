/** The disassembler: a big-endian read, a reshuffle of the fields, a scan of the
    opcode table and the printing of the operands.  It is the inverse of the
    encoder. */
module Disassemble {
  import opened Bits
  import opened Machine
  import opened Bytes
  import opened OpcodeTable
  import opened Encode

  datatype Arg = ArgReg(c: Class, r: nat) | ArgHex(v: nat) | ArgDec(i: int) | ArgWyde(w: nat) | ArgTarget(a: Octa)

  datatype Output =
    | Text(name: string, args: seq<Arg>)
    | MemoryError(memaddr: Octa)

  // ------------------------------------------------------ reading the word

  /** bfd_getb32 */
  function BigEndian(b: seq<Byte>): nat
    requires |b| == 4
  {
    WordOf(b[3], b[2], b[1], b[0])
  }

  function LittleEndian(w: nat): (b: seq<Byte>)
    ensures |b| == 4
  {
    [ByteOf(w, 0), ByteOf(w, 1), ByteOf(w, 2), ByteOf(w, 3)]
  }

  /** The fields of an instruction that was read in the wrong byte order, put
      where they belong. */
  function Reshuffle(x: nat): nat {
    var ha := x / 0x400 % 64;
    var hb := x / 0x100 % 4 * 16 + x / 0x10_0000 % 16;
    var hc := x / 0x1_0000 % 16 * 4 + x / 0x4000_0000;
    var hd := x / 0x100_0000 % 64;
    x % 256 * 0x100_0000 + ha * 0x4_0000 + hb * 0x1000 + hc * 0x40 + hd
  }

  lemma ReadA(b0: Byte, b1: Byte, b2: Byte, b3: Byte)
    ensures WordOf(b3, b2, b1, b0) % 256 == b3 && WordOf(b3, b2, b1, b0) / 0x400 % 64 == b2 / 4
  {
    DivMod(b2 + b1 * 0x100 + b0 * 0x1_0000, b3, 0x100);
    assert b2 == b2 / 4 * 4 + b2 % 4;
    DivMod(b2 / 4 + b1 * 0x40 + b0 * 0x4000, b2 % 4 * 0x100 + b3, 0x400);
    DivMod(b1 + b0 * 0x100, b2 / 4, 64);
  }

  lemma ReadB(b0: Byte, b1: Byte, b2: Byte, b3: Byte)
    ensures WordOf(b3, b2, b1, b0) / 0x100 % 4 == b2 % 4 && WordOf(b3, b2, b1, b0) / 0x10_0000 % 16 == b1 / 16
  {
    DivMod(b2 + b1 * 0x100 + b0 * 0x1_0000, b3, 0x100);
    assert b2 == b2 / 4 * 4 + b2 % 4;
    DivMod(b2 / 4 + b1 * 0x40 + b0 * 0x4000, b2 % 4, 4);
    assert b1 == b1 / 16 * 16 + b1 % 16;
    DivMod(b1 / 16 + b0 * 0x10, b1 % 16 * 0x1_0000 + b2 * 0x100 + b3, 0x10_0000);
    DivMod(b0, b1 / 16, 16);
  }

  lemma ReadC(b0: Byte, b1: Byte, b2: Byte, b3: Byte)
    ensures WordOf(b3, b2, b1, b0) / 0x1_0000 % 16 == b1 % 16 && WordOf(b3, b2, b1, b0) / 0x4000_0000 == b0 / 64
  {
    DivMod(b1 + b0 * 0x100, b2 * 0x100 + b3, 0x1_0000);
    assert b1 == b1 / 16 * 16 + b1 % 16;
    DivMod(b1 / 16 + b0 * 0x10, b1 % 16, 16);
    assert b0 == b0 / 64 * 64 + b0 % 64;
    DivMod(b0 / 64, b0 % 64 * 0x100_0000 + b1 * 0x1_0000 + b2 * 0x100 + b3, 0x4000_0000);
  }

  lemma ReadD(b0: Byte, b1: Byte, b2: Byte, b3: Byte)
    ensures WordOf(b3, b2, b1, b0) / 0x100_0000 % 64 == b0 % 64
  {
    DivMod(b0, b1 * 0x1_0000 + b2 * 0x100 + b3, 0x100_0000);
  }

  lemma ReshuffleBytes(b0: Byte, b1: Byte, b2: Byte, b3: Byte)
    ensures Reshuffle(WordOf(b3, b2, b1, b0)) == WordOf(b0, b1, b2, b3)
  {
    ReadA(b0, b1, b2, b3);
    ReadB(b0, b1, b2, b3);
    ReadC(b0, b1, b2, b3);
    ReadD(b0, b1, b2, b3);
    assert b2 == b2 / 4 * 4 + b2 % 4 && b1 == b1 / 16 * 16 + b1 % 16 && b0 == b0 / 64 * 64 + b0 % 64;
  }

  /** The big-endian read and the reshuffle undo a little-endian store. */
  lemma ReshuffleReads(w: nat)
    requires w < TWO32
    ensures Reshuffle(BigEndian(LittleEndian(w))) == w
  {
    hide Reshuffle, WordOf, ByteOf;
    ReshuffleBytes(ByteOf(w, 0), ByteOf(w, 1), ByteOf(w, 2), ByteOf(w, 3));
    WordOfBytes(w);
  }

  // ------------------------------------------------------------ the operands

  /** What one operand field yields: an unsigned 32-bit value, and the width of
      the displacement if it is one. */
  function Analyze(op: DisOperand, w: nat): nat {
    match op
    case DisNone => 0
    case DisOffset(_) => 0
    case DisHa => FA(w)
    case DisHb => FB(w)
    case DisHc => FC(w)
    case DisHd => FD(w)
    case DisWyde => w / 0x1_0000 % 4
    case DisImm(bits, signed) =>
      var data := w % Pow2(bits);
      if signed && bits > 0 && data >= Pow2(bits - 1) && bits <= 32
      then assert Pow2(bits) <= TWO32 by { PowLe(bits, 32); Pow64(); } TWO32 - Pow2(bits) + data
      else data
  }

  lemma {:induction false} PowLe(a: nat, b: nat)
    requires a <= b
    ensures Pow2(a) <= Pow2(b)
  {
    if a < b { PowLe(a, b - 1); }
  }

  function WidthAfter(op: DisOperand, width: nat): nat { if op.DisOffset? then op.bits else width }

  function OffsetWidth(e: DisEntry): nat {
    WidthAfter(e.op4, WidthAfter(e.op3, WidthAfter(e.op2, WidthAfter(e.op1, 0))))
  }

  /** The displacement in bytes of a field of 12, 18 or 24 bits. */
  function ByteOffset(w: nat, width: nat): int {
    var offset := w % Pow2(width) * 4;
    if width > 0 && offset / Pow2(width + 1) % 2 == 1 then offset - Pow2(width + 2) else offset
  }

  function Render(c: Conv, data: nat): Arg {
    match c
    case ConvReg(k) => ArgReg(k, data)
    case ConvHex => ArgHex(data)
    case ConvDec => ArgDec(if data >= 0x8000_0000 then data - TWO32 else data)
    case ConvWyde => ArgWyde(data)
  }

  /** As many conversions as the format has, over the operands handed to it. */
  function RenderAll(format: seq<Conv>, data: seq<nat>): seq<Arg> {
    if format == [] || data == [] then [] else [Render(format[0], data[0])] + RenderAll(format[1..], data[1..])
  }

  /** One matching entry printed. */
  function PrintEntry(e: DisEntry, w: nat, memaddr: Octa): Output {
    var d := [Analyze(e.op1, w), Analyze(e.op2, w), Analyze(e.op3, w), Analyze(e.op4, w)];
    var width := OffsetWidth(e);
    if width == 12 then Text(e.name, RenderAll(e.format, d[..2]) + [ArgTarget(Wrap(memaddr + ByteOffset(w, 12)))])
    else if width == 18 then Text(e.name, RenderAll(e.format, d[..1]) + [ArgTarget(Wrap(memaddr + ByteOffset(w, 18)))])
    else if width == 24 then Text(e.name, RenderAll(e.format, []) + [ArgTarget(Wrap(memaddr + ByteOffset(w, 24)))])
    else Text(e.name, RenderAll(e.format, if e.operands <= 4 then d[..e.operands] else d))
  }

  /** The first entry that matches, if any. */
  function FirstMatch(table: seq<DisEntry>, w: nat): (o: Option<nat>)
    ensures o.Some? ==> o.value < |table| && Matches(table[o.value], w)
    ensures o.Some? ==> forall i :: 0 <= i < o.value ==> !Matches(table[i], w)
    ensures o.None? ==> forall i :: 0 <= i < |table| ==> !Matches(table[i], w)
  {
    if table == [] then None
    else if Matches(table[0], w) then Some(0)
    else
      var o := FirstMatch(table[1..], w);
      assert forall i :: 0 < i < |table| ==> table[i] == table[1..][i - 1];
      if o.None? then None else Some(o.value + 1)
  }

  lemma FirstMatchAt(table: seq<DisEntry>, w: nat, i: nat)
    requires i < |table| && Matches(table[i], w) && forall k :: 0 <= k < i ==> !Matches(table[k], w)
    ensures FirstMatch(table, w) == Some(i)
  {
    hide Matches, FirstMatch;
  }

  lemma FirstMatchNone(table: seq<DisEntry>, w: nat)
    requires forall k :: 0 <= k < |table| ==> !Matches(table[k], w)
    ensures FirstMatch(table, w) == None
  {
    hide Matches, FirstMatch;
  }

  function Disassembly(table: seq<DisEntry>, w: nat, memaddr: Octa): seq<Output> {
    var o := FirstMatch(table, w);
    if o.None? then [] else [PrintEntry(table[o.value], w, memaddr)]
  }

  /** The branch target that is left for the caller, 0 where there is none. */
  function TargetOf(e: DisEntry, w: nat, memaddr: Octa): Octa {
    var width := OffsetWidth(e);
    if width == 12 || width == 18 || width == 24 then Wrap(memaddr + ByteOffset(w, width)) else 0
  }

  function BranchTarget(table: seq<DisEntry>, w: nat, memaddr: Octa): Octa {
    var o := FirstMatch(table, w);
    if o.None? then 0 else TargetOf(table[o.value], w, memaddr)
  }

  class DisassembleInfo {
    var target: Octa
    var stream: seq<Output>

    constructor ()
      ensures target == 0 && stream == []
    {
      target := 0;
      stream := [];
    }

    /** A word that no entry matches prints nothing. */
    method PrintInsn(table: seq<DisEntry>, memaddr: Octa, memory: Option<seq<Byte>>) returns (ret: int)
      requires memory.Some? ==> |memory.value| == 4
      modifies this
      ensures memory.None? ==> ret == -1 && stream == old(stream) + [MemoryError(memaddr)] && target == old(target)
      ensures memory.Some? ==> ret == 4
      ensures memory.Some? ==>
                stream == old(stream) + Disassembly(table, Reshuffle(BigEndian(memory.value)), memaddr)
      ensures memory.Some? ==> target == BranchTarget(table, Reshuffle(BigEndian(memory.value)), memaddr)
    {
      hide Disassembly, BranchTarget, Reshuffle, BigEndian;
      if memory.None? {
        stream := stream + [MemoryError(memaddr)];
        return -1;
      }
      target := 0;
      var insn := ReadInsn(memory.value);
      Scan(table, insn, memaddr);
      return 4;
    }

    method ReadInsn(buffer: seq<Byte>) returns (insn: nat)
      requires |buffer| == 4
      ensures insn == Reshuffle(BigEndian(buffer))
    {
      hide BigEndian;
      insn := BigEndian(buffer);
      var ha := insn / 0x400 % 64;
      var hb := insn / 0x100 % 4 * 16 + insn / 0x10_0000 % 16;
      var hc := insn / 0x1_0000 % 16 * 4 + insn / 0x4000_0000;
      var hd := insn / 0x100_0000 % 64;
      insn := insn % 256 * 0x100_0000 + ha * 0x4_0000 + hb * 0x1000 + hc * 0x40 + hd;
    }

    /** The loop over the table. */
    method Scan(table: seq<DisEntry>, insn: nat, memaddr: Octa)
      requires target == 0
      modifies this
      ensures stream == old(stream) + Disassembly(table, insn, memaddr)
      ensures target == BranchTarget(table, insn, memaddr)
    {
      hide Matches, PrintEntry, TargetOf, FirstMatch;
      var i := 0;
      while i < |table|
        invariant 0 <= i <= |table| && stream == old(stream) && target == 0
        invariant forall k :: 0 <= k < i ==> !Matches(table[k], insn)
      {
        if Matches(table[i], insn) {
          FirstMatchAt(table, insn, i);
          PrintMatch(table[i], insn, memaddr);
          return;
        }
        i := i + 1;
      }
      FirstMatchNone(table, insn);
    }

    method PrintMatch(e: DisEntry, insn: nat, memaddr: Octa)
      requires target == 0
      modifies this
      ensures stream == old(stream) + [PrintEntry(e, insn, memaddr)]
      ensures target == TargetOf(e, insn, memaddr)
    {
      hide Pow2, ByteOffset, RenderAll;
      var calOffset := 0;
      var op1, op2, op3, op4: nat;
      op1, calOffset := Analyze(e.op1, insn), WidthAfter(e.op1, calOffset);
      op2, calOffset := Analyze(e.op2, insn), WidthAfter(e.op2, calOffset);
      op3, calOffset := Analyze(e.op3, insn), WidthAfter(e.op3, calOffset);
      op4, calOffset := Analyze(e.op4, insn), WidthAfter(e.op4, calOffset);
      hide Analyze;
      var d := [op1, op2, op3, op4];
      if calOffset == 12 {
        target := Wrap(memaddr + ByteOffset(insn, 12));
        stream := stream + [Text(e.name, RenderAll(e.format, d[..2]) + [ArgTarget(target)])];
      } else if calOffset == 18 {
        target := Wrap(memaddr + ByteOffset(insn, 18));
        stream := stream + [Text(e.name, RenderAll(e.format, d[..1]) + [ArgTarget(target)])];
      } else if calOffset == 24 {
        target := Wrap(memaddr + ByteOffset(insn, 24));
        stream := stream + [Text(e.name, RenderAll(e.format, []) + [ArgTarget(target)])];
      } else {
        stream := stream + [Text(e.name, RenderAll(e.format, if e.operands <= 4 then d[..e.operands] else d))];
      }
    }
  }

  // --------------------------------------------------------- the round trip

  /** What the source text of a plain operand says. */
  function ArgOf(l: Line, f: Operand, e: Expr, memaddr: Octa): Arg
    requires Plain(f, e)
  {
    match f
    case OpReg(c) => ArgReg(c, e.n - Base(c))
    case OpImm(_, signed) =>
      if l.Offset(f) then ArgTarget(Wrap(memaddr + 4 * e.v)) else if signed then ArgDec(e.v) else ArgHex(e.v)
    case OpWyde => ArgWyde(e.ww)
  }

  function Args(l: Line, exp: seq<Expr>, memaddr: Octa): (args: seq<Arg>)
    requires AllPlain(l.Fields(), exp)
    ensures |args| == |exp|
  {
    seq(|exp|, i requires 0 <= i < |exp| => assert Plain(l.Fields()[i], exp[i]); ArgOf(l, l.Fields()[i], exp[i], memaddr))
  }

  /** What the arguments say, operand by operand: a register by its class and
      number, a jump's or conditional branch's displacement as the address four
      times as far from the instruction, other immediates in decimal where the
      format is signed and in hexadecimal elsewhere. */
  lemma ArgsSay(l: Line, exp: seq<Expr>, memaddr: Octa, i: nat)
    requires l.Valid() && AllPlain(l.Fields(), exp) && i < |exp|
    ensures var arg := Args(l, exp, memaddr)[i];
            match exp[i]
            case Register(n) => arg.ArgReg? && arg.r < 64 && n == RegisterSymbol(arg.c, arg.r)
            case Constant(v) =>
              arg == if l.format == IIII || l.bpd then ArgTarget(Wrap(memaddr + 4 * v))
                     else if (l.format == RRII || l.format == RIII) && l.signed then ArgDec(v) else ArgHex(v)
            case Wyde(ww) => arg == ArgWyde(ww)
            case _ => false
  {
    hide Pow2, Wrap;
    assert Plain(l.Fields()[i], exp[i]);
  }

  predicate FieldWidth(bits: nat) { bits == 6 || bits == 12 || bits == 16 || bits == 18 || bits == 24 }

  lemma Widths()
    ensures Pow2(5) == 0x20 && Pow2(6) == 0x40 && Pow2(11) == 0x800 && Pow2(12) == 0x1000
    ensures Pow2(13) == 0x2000 && Pow2(14) == 0x4000 && Pow2(15) == 0x8000 && Pow2(16) == 0x1_0000
    ensures Pow2(17) == 0x2_0000 && Pow2(18) == 0x4_0000 && Pow2(19) == 0x8_0000 && Pow2(20) == 0x10_0000
    ensures Pow2(23) == 0x80_0000 && Pow2(24) == 0x100_0000 && Pow2(25) == 0x200_0000 && Pow2(26) == 0x400_0000
  {
    Pow2Values();
    assert Pow2(6) == 2 * Pow2(5);
    assert Pow2(14) == 2 * Pow2(13) && Pow2(13) == 2 * Pow2(12);
    assert Pow2(16) == 2 * Pow2(15);
    assert Pow2(20) == 2 * Pow2(19) && Pow2(19) == 2 * Pow2(18);
    assert Pow2(26) == 2 * Pow2(25) && Pow2(25) == 2 * Pow2(24);
  }

  lemma ImmPrinted(f: Operand, e: Expr, w: nat)
    requires f.OpImm? && FieldWidth(f.bits) && Plain(f, e) && w % Pow2(f.bits) == e.v % Pow2(f.bits)
    ensures Render(ConvOf(f), Analyze(DisImm(f.bits, f.signed), w)) == if f.signed then ArgDec(e.v) else ArgHex(e.v)
  {
    Widths();
    hide Pow2, FA, FB, FC, FD;
  }

  /** A register, an immediate or a wyde number prints as it was written. */
  lemma OperandPrinted(l: Line, i: nat, exp: seq<Expr>, w: nat, memaddr: Octa)
    requires AllPlain(l.Fields(), exp) && Encodes(l, exp, w)
    requires i < |l.Fields()| && !l.Offset(l.Fields()[i])
    requires l.Fields()[i].OpImm? ==> FieldWidth(l.Fields()[i].bits)
    ensures Plain(l.Fields()[i], exp[i])
    ensures Render(ConvOf(l.Fields()[i]), Analyze(DisOp(l, i), w)) == ArgOf(l, l.Fields()[i], exp[i], memaddr)
  {
    ArgsAt(l, exp, w, memaddr, i);
    hide Pow2, Line.Fields, FA, FB, FC, FD, Position, AllPlain, Encodes, Args;
    if l.Fields()[i].OpImm? {
      ImmPrinted(l.Fields()[i], exp[i], w);
      hide Analyze, Plain, Line.Offset, ConvOf, Render;
    } else {
      PositionIsRegister(l, i);
    }
  }

  lemma PositionIsRegister(l: Line, i: nat)
    requires i < |l.Fields()|
    ensures var p := Position(l.Wide(), i); p.DisHa? || p.DisHb? || p.DisHc? || p.DisHd?
  {
  }

  /** A displacement prints as the address it leads to. */
  lemma OffsetPrinted(w: nat, bits: nat, v: int, memaddr: Octa)
    requires bits == 12 || bits == 18 || bits == 24
    requires 0 - Pow2(bits - 1) <= v < Pow2(bits - 1) && w % Pow2(bits) == v % Pow2(bits)
    ensures ByteOffset(w, bits) == 4 * v
  {
    Widths();
    hide Pow2;
  }

  lemma {:induction false} RenderEach(format: seq<Conv>, data: seq<nat>)
    requires |format| <= |data|
    ensures |RenderAll(format, data)| == |format|
    ensures forall k :: 0 <= k < |format| ==> RenderAll(format, data)[k] == Render(format[k], data[k])
  {
    hide Render;
    if format != [] { RenderEach(format[1..], data[1..]); }
  }

  lemma {:induction false} ConvsEach(l: Line, fs: seq<Operand>)
    requires forall k :: 0 <= k < |fs| - 1 ==> !l.Offset(fs[k])
    ensures |Convs(l, fs)| == if fs != [] && l.Offset(fs[|fs| - 1]) then |fs| - 1 else |fs|
    ensures forall k :: 0 <= k < |Convs(l, fs)| ==> Convs(l, fs)[k] == ConvOf(fs[k])
  {
    hide ConvOf, Line.Offset;
    if |fs| > 1 {
      ConvsEach(l, fs[1..]);
    } else if |fs| == 1 {
      assert fs[1..] == [];
    }
  }

  /** Only a last operand is a displacement, of 12, 18 or 24 bits. */
  lemma OnlyLastIsOffset(l: Line)
    requires l.Valid()
    ensures forall k :: 0 <= k < |l.Fields()| - 1 ==> !l.Offset(l.Fields()[k])
    ensures forall k :: 0 <= k < |l.Fields()| && l.Fields()[k].OpImm? ==> FieldWidth(l.Fields()[k].bits)
    ensures var n := |l.Fields()|;
            var f := l.Last();
            && (!l.Offset(f) ==> OffsetWidth(DisEntryOf(l)) == 0)
            && (l.Offset(f) ==> f.OpImm? && f.signed && OffsetWidth(DisEntryOf(l)) == f.bits)
            && (l.Offset(f) ==> (f.bits == 12 && n == 3) || (f.bits == 18 && n == 2) || (f.bits == 24 && n == 1))
  {
  }

  function Data(l: Line, w: nat): seq<nat> {
    [Analyze(DisOp(l, 0), w), Analyze(DisOp(l, 1), w), Analyze(DisOp(l, 2), w), Analyze(DisOp(l, 3), w)]
  }

  function Rendered(l: Line, w: nat, n: nat): seq<Arg>
    requires n <= 4
  {
    RenderAll(Convs(l, l.Fields()), Data(l, w)[..n])
  }

  lemma RenderedAt(l: Line, w: nat, n: nat, i: nat)
    requires l.Valid() && n == |Convs(l, l.Fields())| && i < n
    ensures n <= |l.Fields()| && |Rendered(l, w, n)| == n
    ensures Rendered(l, w, n)[i] == Render(ConvOf(l.Fields()[i]), Analyze(DisOp(l, i), w))
    ensures !l.Offset(l.Fields()[i]) && (l.Fields()[i].OpImm? ==> FieldWidth(l.Fields()[i].bits))
  {
    hide RenderAll, Convs, Render, ConvOf, Analyze, DisOp, Line.Fields, Line.Offset, Line.Valid, OffsetWidth, DisEntryOf,
      FieldWidth;
    OnlyLastIsOffset(l);
    ConvsEach(l, l.Fields());
    RenderEach(Convs(l, l.Fields()), Data(l, w)[..n]);
    assert Data(l, w)[i] == Analyze(DisOp(l, i), w);
  }

  lemma RenderedCount(l: Line, w: nat, n: nat)
    requires l.Valid() && n == |Convs(l, l.Fields())|
    ensures n <= |l.Fields()| && |Rendered(l, w, n)| == n
  {
    OnlyLastIsOffset(l);
    hide Line.Fields, Line.Offset, OffsetWidth, DisEntryOf;
    ConvsEach(l, l.Fields());
    RenderEach(Convs(l, l.Fields()), Data(l, w)[..n]);
  }

  lemma RenderedArgs(l: Line, exp: seq<Expr>, w: nat, memaddr: Octa, n: nat)
    requires l.Valid() && AllPlain(l.Fields(), exp) && Encodes(l, exp, w)
    requires n == |Convs(l, l.Fields())|
    ensures n <= |exp| == |l.Fields()|
    ensures Rendered(l, w, n) == Args(l, exp, memaddr)[..n]
  {
    hide Rendered, Convs, Encodes, Render, ArgOf, Analyze, DisOp, ConvOf, Line.Fields, Line.Offset, Plain, Args;
    RenderedCount(l, w, n);
    assert |exp| == |l.Fields()|;
    hide AllPlain;
    var r, a := Rendered(l, w, n), Args(l, exp, memaddr);
    forall i | 0 <= i < n ensures r[i] == a[i] {
      RenderedAt(l, w, n, i);
      OperandPrinted(l, i, exp, w, memaddr);
      ArgsAt(l, exp, w, memaddr, i);
    }
  }

  lemma EntryParts(l: Line)
    ensures var e := DisEntryOf(l);
            && e.name == l.name && e.format == Convs(l, l.Fields()) && e.operands == |l.Fields()|
            && e.op1 == DisOp(l, 0) && e.op2 == DisOp(l, 1) && e.op3 == DisOp(l, 2) && e.op4 == DisOp(l, 3)
  {
  }

  lemma LastDisOp(l: Line)
    requires l.Valid() && l.Offset(l.Last())
    ensures l.Last().OpImm? && DisOp(l, |l.Fields()| - 1) == DisOffset(l.Last().bits)
  {
  }

  /** The printing of an entry with a displacement behind n other operands. */
  lemma PrintsTarget(e: DisEntry, w: nat, memaddr: Octa, d: seq<nat>, n: nat, bits: nat)
    requires d == [Analyze(e.op1, w), Analyze(e.op2, w), Analyze(e.op3, w), Analyze(e.op4, w)] && OffsetWidth(e) == bits
    requires (bits == 12 && n == 2) || (bits == 18 && n == 1) || (bits == 24 && n == 0)
    ensures PrintEntry(e, w, memaddr)
         == Text(e.name, RenderAll(e.format, d[..n]) + [ArgTarget(Wrap(memaddr + ByteOffset(w, bits)))])
  {
    hide RenderAll, Analyze, ByteOffset, OffsetWidth, Wrap;
    assert d[..0] == [];
  }

  lemma PrintsOffset(l: Line, w: nat, memaddr: Octa)
    requires l.Valid() && l.Offset(l.Last())
    ensures l.Last().OpImm? && l.Last().signed
    ensures l.Last().bits == 12 || l.Last().bits == 18 || l.Last().bits == 24
    ensures DisOp(l, |l.Fields()| - 1) == DisOffset(l.Last().bits)
    ensures PrintEntry(DisEntryOf(l), w, memaddr)
         == Text(l.name, Rendered(l, w, |l.Fields()| - 1) + [ArgTarget(Wrap(memaddr + ByteOffset(w, l.Last().bits)))])
  {
    hide RenderAll, Analyze, Convs, ByteOffset, OffsetWidth, DisOp, DisEntryOf, Line.Valid, Line.Last, Line.Fields,
      Line.Offset, Wrap, PrintEntry, FieldWidth;
    OnlyLastIsOffset(l);
    LastDisOp(l);
    EntryParts(l);
    PrintsTarget(DisEntryOf(l), w, memaddr, Data(l, w), |l.Fields()| - 1, l.Last().bits);
  }

  lemma PrintsPlain(l: Line, w: nat, memaddr: Octa)
    requires l.Valid() && !l.Offset(l.Last())
    ensures PrintEntry(DisEntryOf(l), w, memaddr) == Text(l.name, Rendered(l, w, |l.Fields()|))
  {
    OnlyLastIsOffset(l);
    EntryParts(l);
    hide RenderAll, Analyze, Convs, ByteOffset, OffsetWidth, DisOp, DisEntryOf, Line.Valid, Line.Last, Line.Fields,
      Line.Offset, Wrap;
  }

  lemma TargetArg(l: Line, f: Operand, e: Expr, w: nat, memaddr: Octa)
    requires f.OpImm? && f.signed && (f.bits == 12 || f.bits == 18 || f.bits == 24)
    requires l.Offset(f) && Plain(f, e) && Extract(DisOffset(f.bits), w) == OperandBits(f, e)
    ensures ArgOf(l, f, e, memaddr) == ArgTarget(Wrap(memaddr + ByteOffset(w, f.bits)))
  {
    hide Pow2, ByteOffset, Wrap;
    OffsetPrinted(w, f.bits, e.v, memaddr);
  }

  lemma ArgsAt(l: Line, exp: seq<Expr>, w: nat, memaddr: Octa, i: nat)
    requires AllPlain(l.Fields(), exp) && Encodes(l, exp, w) && i < |l.Fields()|
    ensures |exp| == |l.Fields()| && Plain(l.Fields()[i], exp[i])
    ensures Args(l, exp, memaddr)[i] == ArgOf(l, l.Fields()[i], exp[i], memaddr)
    ensures Extract(DisOp(l, i), w) == OperandBits(l.Fields()[i], exp[i])
  {
    hide Plain, Line.Fields, DisOp, Extract, ArgOf, OperandBits;
  }

  /** The matching entry prints the operands of any word that encodes them. */
  lemma EntryPrints(l: Line, exp: seq<Expr>, w: nat, memaddr: Octa)
    requires l.Valid() && AllPlain(l.Fields(), exp) && Encodes(l, exp, w)
    ensures PrintEntry(DisEntryOf(l), w, memaddr) == Text(l.name, Args(l, exp, memaddr))
  {
    hide Rendered, Convs, Line.Valid, Line.Fields, Line.Offset, PrintEntry, DisEntryOf, Encodes, Args, ByteOffset, DisOp,
      ArgOf, Plain, Extract, OperandBits, AllPlain;
    var n := |l.Fields()|;
    ConvsCount(l);
    RenderedArgs(l, exp, w, memaddr, |Convs(l, l.Fields())|);
    var args := Args(l, exp, memaddr);
    ArgsAt(l, exp, w, memaddr, n - 1);
    if l.Offset(l.Last()) {
      PrintsOffset(l, w, memaddr);
      TargetArg(l, l.Last(), exp[n - 1], w, memaddr);
      assert args == args[..n - 1] + [args[n - 1]];
    } else {
      PrintsPlain(l, w, memaddr);
      assert args[..n] == args;
    }
  }

  lemma ConvsCount(l: Line)
    requires l.Valid()
    ensures var n := |l.Fields()|;
            |Convs(l, l.Fields())| == if l.Offset(l.Last()) then n - 1 else n
  {
    OnlyLastIsOffset(l);
    ConvsEach(l, l.Fields());
  }

  function DisTable(ls: seq<Line>): (t: seq<DisEntry>)
    ensures |t| == |ls| && forall i :: 0 <= i < |ls| ==> t[i] == DisEntryOf(ls[i])
  {
    seq(|ls|, i requires 0 <= i < |ls| => DisEntryOf(ls[i]))
  }

  /** In a table without ambiguity a word of a line matches that line only. */
  lemma TableFinds(ls: seq<Line>, i: nat, w: nat)
    requires Unambiguous(ls) && i < |ls| && w < TWO32 && OfLine(ls[i], w)
    ensures FirstMatch(DisTable(ls), w) == Some(i)
  {
    hide FirstMatch, Matches, OfLine, DisEntryOf;
    forall j | 0 <= j < |ls| ensures Matches(DisTable(ls)[j], w) <==> j == i {
      MatchesOfLine(ls[j], w);
      if j < i { ApartWords(ls[j], ls[i], w); }
      if j > i { ApartWords(ls[i], ls[j], w); }
    }
  }

  /** Every accepted instruction, stored little-endian and read back, prints its
      own mnemonic and the operand list it was taken for: registers, signed and
      unsigned immediates, wyde numbers, and for branches the target. */
  lemma RoundTrip(ls: seq<Line>, i: nat, exp: seq<Expr>, memaddr: Octa)
    requires Unambiguous(ls) && i < |ls|
    requires Accepted(ls[i], exp) && !NegativeWyde(ls[i], exp)
    ensures |exp| == |ls[i].Fields()| && AllPlain(ls[i].Fields(), Seen(ls[i], exp))
    ensures var w := InsnCode(AsmEntry(ls[i]), exp).code;
            w < TWO32 && Disassembly(DisTable(ls), Reshuffle(BigEndian(LittleEndian(w))), memaddr)
                      == [Text(ls[i].name, Args(ls[i], Seen(ls[i], exp), memaddr))]
  {
    hide FirstMatch, InsnCode, AsmEntry, AllPlain, Line.Fields, PlainWord, Seen, NegativeWyde, Accepted, OfLine,
      Reshuffle, BigEndian, LittleEndian, PrintEntry, Args, DisTable, DisEntryOf;
    var l := ls[i];
    AcceptedEncodesSeen(l, exp);
    var w := InsnCode(AsmEntry(l), exp).code;
    ReshuffleReads(w);
    TableFinds(ls, i, w);
    EntryPrints(l, Seen(l, exp), w, memaddr);
  }

  /** The target recorded for an encoded branch is the address printed for it;
      for other instructions none is. */
  lemma TargetIsPrinted(ls: seq<Line>, i: nat, exp: seq<Expr>, w: nat, memaddr: Octa)
    requires Unambiguous(ls) && i < |ls| && AllPlain(ls[i].Fields(), exp) && Encodes(ls[i], exp, w)
    ensures var last := Args(ls[i], exp, memaddr)[|exp| - 1];
            if ls[i].Offset(ls[i].Last()) then last == ArgTarget(BranchTarget(DisTable(ls), w, memaddr))
            else BranchTarget(DisTable(ls), w, memaddr) == 0
  {
    hide FirstMatch, OfLine, Args, DisEntryOf, AllPlain, Line.Fields, Line.Offset, Line.Last, Line.Valid, ArgOf, Plain, Extract,
      OperandBits, DisOp, TargetOf, ByteOffset, PrintEntry, Rendered, Wrap, Encodes, Unambiguous;
    var l := ls[i];
    EncodedLine(ls, i, exp, w);
    TableFinds(ls, i, w);
    RecordedTarget(l, w, memaddr);
    if l.Offset(l.Last()) { LastArg(l, exp, w, memaddr); }
  }

  lemma EncodedLine(ls: seq<Line>, i: nat, exp: seq<Expr>, w: nat)
    requires Unambiguous(ls) && i < |ls| && AllPlain(ls[i].Fields(), exp) && Encodes(ls[i], exp, w)
    ensures ls[i].Valid() && OfLine(ls[i], w) && w < TWO32 && |exp| == |ls[i].Fields()|
  {
    hide Line.Valid, OfLine, Line.Fields, Extract, DisOp, OperandBits, Plain, Apart;
  }

  /** The last argument of a branch is its target. */
  lemma LastArg(l: Line, exp: seq<Expr>, w: nat, memaddr: Octa)
    requires l.Valid() && AllPlain(l.Fields(), exp) && Encodes(l, exp, w) && l.Offset(l.Last())
    ensures l.Last().OpImm? && |exp| == |l.Fields()|
    ensures Args(l, exp, memaddr)[|exp| - 1] == ArgTarget(Wrap(memaddr + ByteOffset(w, l.Last().bits)))
  {
    hide Args, DisEntryOf, AllPlain, Line.Fields, Line.Offset, Line.Valid, ArgOf, Plain, Extract, OperandBits, DisOp,
      ByteOffset, PrintEntry, Rendered, Encodes;
    var n := |l.Fields()|;
    ArgsAt(l, exp, w, memaddr, n - 1);
    PrintsOffset(l, w, memaddr);
    TargetArg(l, l.Last(), exp[n - 1], w, memaddr);
  }

  lemma RecordedTarget(l: Line, w: nat, memaddr: Octa)
    requires l.Valid()
    ensures l.Offset(l.Last()) ==> l.Last().OpImm?
    ensures TargetOf(DisEntryOf(l), w, memaddr)
         == if l.Offset(l.Last()) then Wrap(memaddr + ByteOffset(w, l.Last().bits)) else 0
  {
    hide DisEntryOf, OffsetWidth, ByteOffset, Line.Fields, Line.Last, Line.Offset, Line.Valid, Wrap, FieldWidth;
    OnlyLastIsOffset(l);
  }

  /** Operands in plain form come back as they were written. */
  lemma PlainRoundTrip(ls: seq<Line>, i: nat, exp: seq<Expr>, memaddr: Octa)
    requires Unambiguous(ls) && i < |ls| && AllPlain(ls[i].Fields(), exp) && !NullCall(ls[i], exp)
    ensures var p := InsnCode(AsmEntry(ls[i]), exp);
            && p.Stop? && p.ret == 0 && p.code < TWO32
            && Disassembly(DisTable(ls), Reshuffle(BigEndian(LittleEndian(p.code))), memaddr)
               == [Text(ls[i].name, Args(ls[i], exp, memaddr))]
  {
    hide FirstMatch, InsnCode, AsmEntry, Line.Fields, PlainWord, Seen, NullCall, OfLine,
      Reshuffle, BigEndian, LittleEndian, PrintEntry, Args, DisTable, DisEntryOf;
    PlainEncodes(ls[i], exp);
    NotNegative(ls[i], exp);
    RoundTrip(ls, i, exp, memaddr);
    PlainIsSeen(ls[i], exp);
  }

  lemma NotNegative(l: Line, exp: seq<Expr>)
    requires AllPlain(l.Fields(), exp)
    ensures !NegativeWyde(l, exp)
  {
    hide Pow2;
    if l.format == RWII { assert Plain(l.Fields()[1], exp[1]); }
  }
}

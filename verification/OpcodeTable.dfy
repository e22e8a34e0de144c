/** Lines of the opcode table, and the two table entries that are generated from
    each: the assembler's and the disassembler's. */
module OpcodeTable {
  import opened Bits
  import opened Machine

  /** Register files, coprocessor ids and coprocessor registers. */
  datatype Class = ClassRd | ClassRb | ClassRf | ClassRa | ClassCp | ClassCr

  /** The number of a class's register 0 in an operand expression. */
  function Base(c: Class): nat {
    match c
    case ClassRd => 0
    case ClassRb => 0x40
    case ClassRf => 0x80
    case ClassRa => 0xC0
    case ClassCp => 0x100
    case ClassCr => 0x140
  }

  /** The value of the symbol that register i of a class is entered under. */
  function RegisterSymbol(c: Class, i: Reg): nat {
    match c
    case ClassRd => i
    case ClassRb => i + 64
    case ClassRf => i + 128
    case ClassRa => i + 192
    case ClassCp => i + 256
    case ClassCr => i + 320
  }

  datatype Operand = OpNone | OpMinor | OpReg(c: Class) | OpImm(bits: nat, signed: bool) | OpWyde

  datatype Format = RRII | RRRI | ORRI | ORRR | RRRR | RWII | RIII | OIII | IIII

  /** One instruction: its format, opcodes, the class of each register field, the
      kind of its 12- or 18-bit immediate, and whether it is a conditional branch. */
  datatype Line = Line(name: string, format: Format, major: nat, minor: nat,
                       a: Class, b: Class, c: Class, d: Class, signed: bool, bpd: bool, kind: nat)
  {
    /** Opcodes in range, every class in a field that takes it, and displacements
        in the signed formats that print them. */
    predicate Valid() {
      && major < 256 && minor < 64
      && a != ClassCr && b != ClassCp && c != ClassCp && d != ClassCp
      && (bpd ==> signed && (format == RRII || format == RIII))
    }

    /** A 14-bit opcode: the minor one takes the place of field a. */
    predicate Wide() { format == ORRI || format == ORRR || format == OIII }

    /** The operands, in the order in which they are written. */
    function Fields(): (fs: seq<Operand>)
      ensures 1 <= |fs| <= 4 && (Wide() ==> |fs| <= 3)
    {
      match format
      case RRII => [OpReg(a), OpReg(b), OpImm(12, signed)]
      case RRRI => [OpReg(a), OpReg(b), OpReg(c), OpImm(6, false)]
      case ORRI => [OpReg(b), OpReg(c), OpImm(6, false)]
      case ORRR => [OpReg(b), OpReg(c), OpReg(d)]
      case RRRR => [OpReg(a), OpReg(b), OpReg(c), OpReg(d)]
      case RWII => [OpReg(a), OpWyde, OpImm(16, false)]
      case RIII => [OpReg(a), OpImm(18, signed)]
      case OIII => [OpImm(18, false)]
      case IIII => [OpImm(24, true)]
    }

    function Last(): Operand { Fields()[|Fields()| - 1] }

    /** Branch displacements: printed as the address they lead to. */
    predicate Offset(f: Operand) { f == OpImm(24, true) || (bpd && f.OpImm?) }
  }

  // --------------------------------------------------- the assembler's entry

  /** Kinds of entry; a kind is what encoding returns for an operand to be
      relocated, and the kind of ordinary instructions is 0. */
  const NORMAL: nat := 0

  datatype Opcode = Opcode(name: string, operands: nat, major: nat, minor: nat,
                           fa: Operand, fb: Operand, fc: Operand, fd: Operand, kind: nat)

  function FieldOr(fs: seq<Operand>, i: nat): Operand { if i < |fs| then fs[i] else OpNone }

  function AsmEntry(l: Line): Opcode {
    var fs := (if l.Wide() then [OpMinor] else []) + l.Fields();
    Opcode(l.name, |l.Fields()|, l.major, if l.Wide() then l.minor else 0,
           FieldOr(fs, 0), FieldOr(fs, 1), FieldOr(fs, 2), FieldOr(fs, 3), l.kind)
  }

  // ------------------------------------------------ the disassembler's entry

  datatype DisOperand = DisNone | DisHa | DisHb | DisHc | DisHd | DisImm(bits: nat, signed: bool) | DisWyde | DisOffset(bits: nat)

  /** The conversions of a print format. */
  datatype Conv = ConvReg(c: Class) | ConvHex | ConvDec | ConvWyde

  datatype DisEntry = DisEntry(name: string, mask: nat, pattern: nat,
                               op1: DisOperand, op2: DisOperand, op3: DisOperand, op4: DisOperand,
                               operands: nat, format: seq<Conv>)

  /** The place in the word of the i-th operand, when it is a register. */
  function Position(wide: bool, i: nat): DisOperand {
    if wide then if i == 0 then DisHb else if i == 1 then DisHc else if i == 2 then DisHd else DisNone
    else if i == 0 then DisHa else if i == 1 then DisHb else if i == 2 then DisHc else DisHd
  }

  function DisOp(l: Line, i: nat): DisOperand {
    if i >= |l.Fields()| then DisNone
    else
      var f := l.Fields()[i];
      if l.Offset(f) then DisOffset(f.bits)
      else if f.OpImm? then DisImm(f.bits, f.signed)
      else if f.OpWyde? then DisWyde
      else Position(l.Wide(), i)
  }

  function ConvOf(f: Operand): Conv {
    match f
    case OpReg(c) => ConvReg(c)
    case OpImm(_, signed) => if signed then ConvDec else ConvHex
    case _ => ConvWyde
  }

  /** Offsets print nothing of their own. */
  function Convs(l: Line, fs: seq<Operand>): seq<Conv> {
    if fs == [] then []
    else (if l.Offset(fs[0]) then [] else [ConvOf(fs[0])]) + Convs(l, fs[1..])
  }

  function DisEntryOf(l: Line): DisEntry {
    DisEntry(l.name,
             if l.Wide() then 0xFFFC_0000 else 0xFF00_0000,
             if l.Wide() then (l.major * 64 + l.minor) * 0x4_0000 else l.major * 0x100_0000,
             DisOp(l, 0), DisOp(l, 1), DisOp(l, 2), DisOp(l, 3), |l.Fields()|, Convs(l, l.Fields()))
  }

  /** The bits that `& mask` keeps, for the two masks of the table. */
  function Masked(w: nat, mask: nat): nat {
    if mask == 0xFFFC_0000 then w / 0x4_0000 * 0x4_0000 else w / 0x100_0000 * 0x100_0000
  }

  predicate Matches(e: DisEntry, w: nat) { Masked(w, e.mask) == e.pattern }

  /** No word is of two lines: their opcodes differ, or one's major opcode does. */
  predicate Apart(l: Line, k: Line) { l.major != k.major || (l.Wide() && k.Wide() && l.minor != k.minor) }

  ghost predicate Unambiguous(ls: seq<Line>) {
    && (forall i :: 0 <= i < |ls| ==> ls[i].Valid())
    && (forall i, j :: 0 <= i < j < |ls| ==> Apart(ls[i], ls[j]))
  }

  /** A word whose opcode is that of the line. */
  predicate OfLine(l: Line, w: nat) { Op(w) == l.major && (l.Wide() ==> FA(w) == l.minor) }

  lemma MatchesOfLine(l: Line, w: nat)
    requires l.Valid() && w < TWO32
    ensures Matches(DisEntryOf(l), w) <==> OfLine(l, w)
  {
    WordParts(w);
    if l.Wide() {
      var q := w / 0x4_0000;
      assert q == Op(w) * 64 + FA(w) by {
        ModParts(w, 64, 0x4_0000);
        assert w == q * 0x4_0000 + w % 0x4_0000;
      }
      assert Matches(DisEntryOf(l), w) <==> q == l.major * 64 + l.minor;
    }
  }

  lemma ApartWords(l: Line, k: Line, w: nat)
    requires Apart(l, k)
    ensures !(OfLine(l, w) && OfLine(k, w))
  {
  }
}

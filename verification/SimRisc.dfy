/** The instruction table of SimRISC, in ascending order of opcodes: no two of its
    lines match the same word. */
module SimRisc {
  import opened OpcodeTable

  const CONDBRANCH: nat := 1
  const CONDBRANCH12: nat := 2
  const BRANCH: nat := 3
  const DREF: nat := 5
  const JSR: nat := 6

  // ------------------------------------------------------ lines by format

  /** The 14-bit opcodes of a line, from First to below End. */
  function First(l: Line): nat { l.major * 64 + if l.Wide() then l.minor else 0 }

  function End(l: Line): nat { First(l) + if l.Wide() then 1 else 64 }

  function Rrii(name: string, major: nat, a: Class, b: Class, signed: bool, kind: nat): (l: Line)
    requires major < 256 && a != ClassCr && b != ClassCp
    ensures l.Valid() && First(l) == major * 64 && End(l) == major * 64 + 64
  {
    Line(name, RRII, major, 0, a, b, ClassRd, ClassRd, signed, false, kind)
  }

  /** The multi-register loads and stores. */
  function MultiName(op: nat): string {
    match op
    case 0x34 => "ldmbs" case 0x35 => "ldmws" case 0x36 => "ldmts" case 0x37 => "ldmo"
    case 0x3C => "stmb" case 0x3D => "stmw" case 0x3E => "stmt" case 0x3F => "stmo"
    case 0x44 => "ldmbu" case 0x45 => "ldmwu" case 0x46 => "ldmtu" case 0x47 => "ldmo"
    case 0x4F => "stmo"
    case 0x56 => "ldmt" case 0x57 => "ldmo"
    case 0x5E => "stmt" case 0x5F => "stmo"
    case 0x67 => "ldmo"
    case 0x6F => "stmo"
    case _ => ""
  }

  function MultiClass(op: nat): Class {
    match op
    case 0x47 => ClassRb case 0x4F => ClassRb
    case 0x56 => ClassRf case 0x57 => ClassRf case 0x5E => ClassRf case 0x5F => ClassRf
    case 0x67 => ClassRa case 0x6F => ClassRa
    case _ => ClassRd
  }

  function Multi(op: nat): (l: Line)
    requires op < 256
    ensures l.Valid() && First(l) == op * 64 && End(l) == op * 64 + 64
  {
    Line(MultiName(op), RRRI, op, 0, MultiClass(op), ClassRb, ClassRd, ClassRd, false, false, DREF)
  }

  function Orri(name: string, major: nat, minor: nat, b: Class, c: Class): (l: Line)
    requires major < 256 && minor < 64 && b != ClassCp && c != ClassCp
    ensures l.Valid() && First(l) == major * 64 + minor && End(l) == First(l) + 1
  {
    Line(name, ORRI, major, minor, ClassRd, b, c, ClassRd, false, false, NORMAL)
  }

  function Orrr(name: string, major: nat, minor: nat, b: Class, c: Class, d: Class): (l: Line)
    requires major < 256 && minor < 64 && b != ClassCp && c != ClassCp && d != ClassCp
    ensures l.Valid() && First(l) == major * 64 + minor && End(l) == First(l) + 1
  {
    Line(name, ORRR, major, minor, ClassRd, b, c, d, false, false, NORMAL)
  }

  function Rrrr(name: string, major: nat, a: Class, b: Class, c: Class, d: Class): (l: Line)
    requires major < 256 && a != ClassCr && b != ClassCp && c != ClassCp && d != ClassCp
    ensures l.Valid() && First(l) == major * 64 && End(l) == major * 64 + 64
  {
    Line(name, RRRR, major, 0, a, b, c, d, false, false, NORMAL)
  }

  /** The wyde instructions. */
  function WydeName(op: nat): string {
    match op
    case 0x14 => "orw" case 0x15 => "andnw" case 0x16 => "setzw" case 0x17 => "setow"
    case 0x4C => "orw" case 0x4D => "andnw" case 0x4E => "setzw"
    case 0x54 => "setw"
    case _ => ""
  }

  function WydeClass(op: nat): Class { if op <= 0x17 then ClassRd else if op <= 0x4E then ClassRb else ClassRf }

  function Wydes(op: nat): (l: Line)
    requires op < 256
    ensures l.Valid() && First(l) == op * 64 && End(l) == op * 64 + 64
  {
    Line(WydeName(op), RWII, op, 0, WydeClass(op), ClassRd, ClassRd, ClassRd, false, false, NORMAL)
  }

  function Riii(name: string, major: nat, a: Class, signed: bool, kind: nat): (l: Line)
    requires major < 256 && a != ClassCr
    ensures l.Valid() && First(l) == major * 64 && End(l) == major * 64 + 64
  {
    Line(name, RIII, major, 0, a, ClassRd, ClassRd, ClassRd, signed, false, kind)
  }

  /** The conditional branches, on one register and on two. */
  function BranchName(op: nat): string {
    match op
    case 0x28 => "brn" case 0x29 => "brnn" case 0x2A => "brz" case 0x2B => "brnz" case 0x2C => "brp" case 0x2D => "brnp"
    case 0x2E => "breq" case 0x2F => "brne"
    case _ => ""
  }

  function Branch(op: nat): (l: Line)
    requires op < 256
    ensures l.Valid() && First(l) == op * 64 && End(l) == op * 64 + 64
  {
    if op <= 0x2D then Line(BranchName(op), RIII, op, 0, ClassRd, ClassRd, ClassRd, ClassRd, true, true, CONDBRANCH)
    else Line(BranchName(op), RRII, op, 0, ClassRd, ClassRd, ClassRd, ClassRd, true, true, CONDBRANCH12)
  }

  function Oiii(name: string, major: nat, minor: nat): (l: Line)
    requires major < 256 && minor < 64
    ensures l.Valid() && First(l) == major * 64 + minor && End(l) == First(l) + 1
  {
    Line(name, OIII, major, minor, ClassRd, ClassRd, ClassRd, ClassRd, false, false, NORMAL)
  }

  function Iiii(name: string, major: nat, kind: nat): (l: Line)
    requires major < 256
    ensures l.Valid() && First(l) == major * 64 && End(l) == major * 64 + 64
  {
    Line(name, IIII, major, 0, ClassRd, ClassRd, ClassRd, ClassRd, true, false, kind)
  }

  // ------------------------------------------------------ ascending tables

  /** Lines in ascending order of opcodes, all below top. */
  datatype Table = Table(lines: seq<Line>, top: nat) {
    ghost predicate Valid() {
      && (forall i :: 0 <= i < |lines| ==> lines[i].Valid() && End(lines[i]) <= top)
      && (forall i, j :: 0 <= i < j < |lines| ==> End(lines[i]) <= First(lines[j]))
    }

    /** One more line, whose opcodes are not below top. */
    function Plus(l: Line): (t: Table)
      requires Valid() && l.Valid() && top <= First(l)
      ensures t.Valid() && |t.lines| == |lines| + 1 && t.top == End(l)
    {
      Table(lines + [l], End(l))
    }
  }

  function Logic(t: Table): (r: Table)
    requires t.Valid() && t.top <= 0x10 * 64
    ensures r.Valid() && r.top == 0x10 * 64 + 30 && |r.lines| == |t.lines| + 15
  {
    hide *;
    t.Plus(Oiii("swym", 0x10, 0))
     .Plus(Orrr("and", 0x10, 8, ClassRd, ClassRd, ClassRd))
     .Plus(Orrr("orr", 0x10, 9, ClassRd, ClassRd, ClassRd))
     .Plus(Orrr("xor", 0x10, 10, ClassRd, ClassRd, ClassRd))
     .Plus(Orrr("xnor", 0x10, 11, ClassRd, ClassRd, ClassRd))
     .Plus(Orrr("shlu", 0x10, 17, ClassRd, ClassRd, ClassRd))
     .Plus(Orrr("shrs", 0x10, 18, ClassRd, ClassRd, ClassRd))
     .Plus(Orrr("shru", 0x10, 19, ClassRd, ClassRd, ClassRd))
     .Plus(Orrr("exts", 0x10, 20, ClassRd, ClassRd, ClassRd))
     .Plus(Orrr("extz", 0x10, 21, ClassRd, ClassRd, ClassRd))
     .Plus(Orri("shlu", 0x10, 25, ClassRd, ClassRd))
     .Plus(Orri("shrs", 0x10, 26, ClassRd, ClassRd))
     .Plus(Orri("shru", 0x10, 27, ClassRd, ClassRd))
     .Plus(Orri("exts", 0x10, 28, ClassRd, ClassRd))
     .Plus(Orri("extz", 0x10, 29, ClassRd, ClassRd))
  }

  function RegisterForms(t: Table): (r: Table)
    requires t.Valid() && t.top <= 0x10 * 64 + 36
    ensures r.Valid() && r.top == 0x11 * 64 && |r.lines| == |t.lines| + 17
  {
    hide *;
    t.Plus(Orrr("cmps", 0x10, 36, ClassRd, ClassRd, ClassRd))
     .Plus(Orrr("cmpu", 0x10, 37, ClassRd, ClassRd, ClassRd))
     .Plus(Orri("rd2rd", 0x10, 40, ClassRd, ClassRd))
     .Plus(Orri("rd2rb", 0x10, 41, ClassRb, ClassRd))
     .Plus(Orri("rb2rd", 0x10, 42, ClassRd, ClassRb))
     .Plus(Orri("rb2rb", 0x10, 43, ClassRb, ClassRb))
     .Plus(Orrr("cmp", 0x10, 45, ClassRd, ClassRb, ClassRb))
     .Plus(Orrr("add", 0x10, 46, ClassRb, ClassRb, ClassRd))
     .Plus(Orrr("sub", 0x10, 47, ClassRb, ClassRb, ClassRd))
     .Plus(Orri("rd2rf", 0x10, 49, ClassRf, ClassRd))
     .Plus(Orri("rf2rd", 0x10, 50, ClassRd, ClassRf))
     .Plus(Orri("rf2rf", 0x10, 51, ClassRf, ClassRf))
     .Plus(Orrr("csp1", 0x10, 54, ClassRd, ClassRf, ClassRf))
     .Plus(Orrr("csnp1", 0x10, 55, ClassRd, ClassRf, ClassRf))
     .Plus(Orri("rd2ra", 0x10, 57, ClassRa, ClassRd))
     .Plus(Orri("ra2rd", 0x10, 58, ClassRd, ClassRa))
     .Plus(Oiii("unimp", 0x10, 63))
  }

  function Arithmetic(t: Table): (r: Table)
    requires t.Valid() && t.top <= 0x12 * 64
    ensures r.Valid() && r.top == 0x20 * 64 && |r.lines| == |t.lines| + 14
  {
    hide *;
    t.Plus(Rrii("cmps", 0x12, ClassRd, ClassRd, true, NORMAL))
     .Plus(Rrii("cmpu", 0x13, ClassRd, ClassRd, false, NORMAL))
     .Plus(Wydes(0x14))
     .Plus(Wydes(0x15))
     .Plus(Wydes(0x16))
     .Plus(Wydes(0x17))
     .Plus(Rrii("andi", 0x18, ClassRd, ClassRd, false, NORMAL))
     .Plus(Rrii("addi", 0x19, ClassRd, ClassRd, true, NORMAL))
     .Plus(Rrrr("add", 0x1A, ClassRd, ClassRd, ClassRd, ClassRd))
     .Plus(Rrrr("sub", 0x1B, ClassRd, ClassRd, ClassRd, ClassRd))
     .Plus(Rrrr("muls", 0x1C, ClassRd, ClassRd, ClassRd, ClassRd))
     .Plus(Rrrr("mulu", 0x1D, ClassRd, ClassRd, ClassRd, ClassRd))
     .Plus(Rrrr("divs", 0x1E, ClassRd, ClassRd, ClassRd, ClassRd))
     .Plus(Rrrr("divu", 0x1F, ClassRd, ClassRd, ClassRd, ClassRd))
  }

  function Branches(t: Table): (r: Table)
    requires t.Valid() && t.top <= 0x20 * 64
    ensures r.Valid() && r.top == 0x30 * 64 && |r.lines| == |t.lines| + 16
  {
    hide *;
    t.Plus(Rrrr("csn", 0x20, ClassRd, ClassRd, ClassRd, ClassRd))
     .Plus(Rrrr("csn", 0x21, ClassRd, ClassRf, ClassRf, ClassRf))
     .Plus(Rrrr("csz", 0x22, ClassRd, ClassRd, ClassRd, ClassRd))
     .Plus(Rrrr("csz", 0x23, ClassRd, ClassRf, ClassRf, ClassRf))
     .Plus(Rrrr("csp", 0x24, ClassRd, ClassRd, ClassRd, ClassRd))
     .Plus(Rrrr("csp", 0x25, ClassRd, ClassRf, ClassRf, ClassRf))
     .Plus(Rrrr("cseq", 0x26, ClassRd, ClassRd, ClassRd, ClassRd))
     .Plus(Rrrr("csne", 0x27, ClassRd, ClassRd, ClassRd, ClassRd))
     .Plus(Branch(0x28))
     .Plus(Branch(0x29))
     .Plus(Branch(0x2A))
     .Plus(Branch(0x2B))
     .Plus(Branch(0x2C))
     .Plus(Branch(0x2D))
     .Plus(Branch(0x2E))
     .Plus(Branch(0x2F))
  }

  function RdAccesses(t: Table): (r: Table)
    requires t.Valid() && t.top <= 0x30 * 64
    ensures r.Valid() && r.top == 0x40 * 64 && |r.lines| == |t.lines| + 16
  {
    hide *;
    t.Plus(Rrii("ldbs", 0x30, ClassRd, ClassRb, true, DREF))
     .Plus(Rrii("ldws", 0x31, ClassRd, ClassRb, true, DREF))
     .Plus(Rrii("ldts", 0x32, ClassRd, ClassRb, true, DREF))
     .Plus(Rrii("ldo", 0x33, ClassRd, ClassRb, true, DREF))
     .Plus(Multi(0x34))
     .Plus(Multi(0x35))
     .Plus(Multi(0x36))
     .Plus(Multi(0x37))
     .Plus(Rrii("stb", 0x38, ClassRd, ClassRb, true, DREF))
     .Plus(Rrii("stw", 0x39, ClassRd, ClassRb, true, DREF))
     .Plus(Rrii("stt", 0x3A, ClassRd, ClassRb, true, DREF))
     .Plus(Rrii("sto", 0x3B, ClassRd, ClassRb, true, DREF))
     .Plus(Multi(0x3C))
     .Plus(Multi(0x3D))
     .Plus(Multi(0x3E))
     .Plus(Multi(0x3F))
  }

  function RbAccesses(t: Table): (r: Table)
    requires t.Valid() && t.top <= 0x40 * 64
    ensures r.Valid() && r.top == 0x50 * 64 && |r.lines| == |t.lines| + 15
  {
    hide *;
    t.Plus(Rrii("ldbu", 0x40, ClassRd, ClassRb, true, DREF))
     .Plus(Rrii("ldwu", 0x41, ClassRd, ClassRb, true, DREF))
     .Plus(Rrii("ldtu", 0x42, ClassRd, ClassRb, true, DREF))
     .Plus(Rrii("ldo", 0x43, ClassRb, ClassRb, true, DREF))
     .Plus(Multi(0x44))
     .Plus(Multi(0x45))
     .Plus(Multi(0x46))
     .Plus(Multi(0x47))
     .Plus(Riii("adrp", 0x48, ClassRb, true, NORMAL))
     .Plus(Rrii("addi", 0x49, ClassRb, ClassRb, true, NORMAL))
     .Plus(Rrii("sto", 0x4B, ClassRb, ClassRb, true, DREF))
     .Plus(Wydes(0x4C))
     .Plus(Wydes(0x4D))
     .Plus(Wydes(0x4E))
     .Plus(Multi(0x4F))
  }

  function FloatUnary(t: Table): (r: Table)
    requires t.Valid() && t.top <= 0x50 * 64
    ensures r.Valid() && r.top == 0x50 * 64 + 16 && |r.lines| == |t.lines| + 8
  {
    hide *;
    t.Plus(Orri("ftcls", 0x50, 0, ClassRd, ClassRf))
     .Plus(Orri("ft2fo", 0x50, 1, ClassRf, ClassRf))
     .Plus(Orri("ftroot", 0x50, 6, ClassRf, ClassRf))
     .Plus(Orri("ftlog", 0x50, 7, ClassRf, ClassRf))
     .Plus(Orri("focls", 0x50, 8, ClassRd, ClassRf))
     .Plus(Orri("fo2ft", 0x50, 9, ClassRf, ClassRf))
     .Plus(Orri("foroot", 0x50, 14, ClassRf, ClassRf))
     .Plus(Orri("folog", 0x50, 15, ClassRf, ClassRf))
  }

  function FloatBinary(t: Table): (r: Table)
    requires t.Valid() && t.top <= 0x50 * 64 + 16
    ensures r.Valid() && r.top == 0x50 * 64 + 32 && |r.lines| == |t.lines| + 14
  {
    hide *;
    t.Plus(Orrr("ftadd", 0x50, 16, ClassRf, ClassRf, ClassRf))
     .Plus(Orrr("ftsub", 0x50, 17, ClassRf, ClassRf, ClassRf))
     .Plus(Orrr("ftmul", 0x50, 18, ClassRf, ClassRf, ClassRf))
     .Plus(Orrr("ftdiv", 0x50, 19, ClassRf, ClassRf, ClassRf))
     .Plus(Orrr("ftrem", 0x50, 20, ClassRf, ClassRf, ClassRf))
     .Plus(Orrr("ftsgnn", 0x50, 22, ClassRf, ClassRf, ClassRf))
     .Plus(Orrr("ftsgnj", 0x50, 23, ClassRf, ClassRf, ClassRf))
     .Plus(Orrr("foadd", 0x50, 24, ClassRf, ClassRf, ClassRf))
     .Plus(Orrr("fosub", 0x50, 25, ClassRf, ClassRf, ClassRf))
     .Plus(Orrr("fomul", 0x50, 26, ClassRf, ClassRf, ClassRf))
     .Plus(Orrr("fodiv", 0x50, 27, ClassRf, ClassRf, ClassRf))
     .Plus(Orrr("forem", 0x50, 28, ClassRf, ClassRf, ClassRf))
     .Plus(Orrr("fosgnn", 0x50, 30, ClassRf, ClassRf, ClassRf))
     .Plus(Orrr("fosgnj", 0x50, 31, ClassRf, ClassRf, ClassRf))
  }

  function FloatCompare(t: Table): (r: Table)
    requires t.Valid() && t.top <= 0x50 * 64 + 32
    ensures r.Valid() && r.top == 0x50 * 64 + 42 && |r.lines| == |t.lines| + 4
  {
    hide *;
    t.Plus(Orrr("ftqcmp", 0x50, 32, ClassRd, ClassRf, ClassRf))
     .Plus(Orrr("ftscmp", 0x50, 33, ClassRd, ClassRf, ClassRf))
     .Plus(Orrr("foqcmp", 0x50, 40, ClassRd, ClassRf, ClassRf))
     .Plus(Orrr("foscmp", 0x50, 41, ClassRd, ClassRf, ClassRf))
  }

  function FloatConvert(t: Table): (r: Table)
    requires t.Valid() && t.top <= 0x50 * 64 + 48
    ensures r.Valid() && r.top == 0x51 * 64 && |r.lines| == |t.lines| + 16
  {
    hide *;
    t.Plus(Orri("ft2it", 0x50, 48, ClassRd, ClassRf))
     .Plus(Orri("ft2io", 0x50, 49, ClassRd, ClassRf))
     .Plus(Orri("ft2ut", 0x50, 50, ClassRd, ClassRf))
     .Plus(Orri("ft2uo", 0x50, 51, ClassRd, ClassRf))
     .Plus(Orri("it2ft", 0x50, 52, ClassRf, ClassRd))
     .Plus(Orri("io2ft", 0x50, 53, ClassRf, ClassRd))
     .Plus(Orri("ut2ft", 0x50, 54, ClassRf, ClassRd))
     .Plus(Orri("uo2ft", 0x50, 55, ClassRf, ClassRd))
     .Plus(Orri("fo2it", 0x50, 56, ClassRd, ClassRf))
     .Plus(Orri("fo2io", 0x50, 57, ClassRd, ClassRf))
     .Plus(Orri("fo2ut", 0x50, 58, ClassRd, ClassRf))
     .Plus(Orri("fo2uo", 0x50, 59, ClassRd, ClassRf))
     .Plus(Orri("it2fo", 0x50, 60, ClassRf, ClassRd))
     .Plus(Orri("io2fo", 0x50, 61, ClassRf, ClassRd))
     .Plus(Orri("ut2fo", 0x50, 62, ClassRf, ClassRd))
     .Plus(Orri("uo2fo", 0x50, 63, ClassRf, ClassRd))
  }

  function RfAccesses(t: Table): (r: Table)
    requires t.Valid() && t.top <= 0x52 * 64
    ensures r.Valid() && r.top == 0x60 * 64 && |r.lines| == |t.lines| + 11
  {
    hide *;
    t.Plus(Rrii("ldt", 0x52, ClassRf, ClassRb, true, DREF))
     .Plus(Rrii("ldo", 0x53, ClassRf, ClassRb, true, DREF))
     .Plus(Wydes(0x54))
     .Plus(Multi(0x56))
     .Plus(Multi(0x57))
     .Plus(Rrrr("ftmadd", 0x58, ClassRf, ClassRf, ClassRf, ClassRf))
     .Plus(Rrrr("fomadd", 0x59, ClassRf, ClassRf, ClassRf, ClassRf))
     .Plus(Rrii("stt", 0x5A, ClassRf, ClassRb, true, DREF))
     .Plus(Rrii("sto", 0x5B, ClassRf, ClassRb, true, DREF))
     .Plus(Multi(0x5E))
     .Plus(Multi(0x5F))
  }

  function Jumps(t: Table): (r: Table)
    requires t.Valid() && t.top <= 0x64 * 64
    ensures r.Valid() && r.top == 0x70 * 64 && |r.lines| == |t.lines| + 7
  {
    hide *;
    t.Plus(Iiii("jump", 0x64, BRANCH))
     .Plus(Rrii("jump", 0x65, ClassRb, ClassRd, true, BRANCH))
     .Plus(Multi(0x67))
     .Plus(Iiii("call", 0x6C, JSR))
     .Plus(Rrii("call", 0x6D, ClassRb, ClassRd, true, JSR))
     .Plus(Riii("ret", 0x6E, ClassRd, true, JSR))
     .Plus(Multi(0x6F))
  }

  function System(t: Table): (r: Table)
    requires t.Valid() && t.top <= 0x70 * 64
    ensures r.Valid() && r.top == 0x78 * 64 && |r.lines| == |t.lines| + 16
  {
    hide *;
    t.Plus(Oiii("fence", 0x70, 0))
     .Plus(Orrr("lro_nn", 0x70, 32, ClassRd, ClassRd, ClassRb))
     .Plus(Orrr("lro_nr", 0x70, 33, ClassRd, ClassRd, ClassRb))
     .Plus(Orrr("lro_an", 0x70, 34, ClassRd, ClassRd, ClassRb))
     .Plus(Orrr("lro_ar", 0x70, 35, ClassRd, ClassRd, ClassRb))
     .Plus(Orrr("sco_nn", 0x70, 40, ClassRd, ClassRd, ClassRb))
     .Plus(Orrr("sco_nr", 0x70, 41, ClassRd, ClassRd, ClassRb))
     .Plus(Orrr("sco_an", 0x70, 42, ClassRd, ClassRd, ClassRb))
     .Plus(Orrr("sco_ar", 0x70, 43, ClassRd, ClassRd, ClassRb))
     .Plus(Riii("cpco", 0x71, ClassCp, false, NORMAL))
     .Plus(Rrrr("cprd", 0x72, ClassCp, ClassCr, ClassCr, ClassRd))
     .Plus(Rrrr("cpwr", 0x73, ClassCp, ClassCr, ClassCr, ClassRd))
     .Plus(Rrii("cpld", 0x74, ClassCp, ClassRb, false, DREF))
     .Plus(Rrii("cpst", 0x75, ClassCp, ClassRb, false, DREF))
     .Plus(Riii("trap", 0x76, ClassCp, false, BRANCH))
     .Plus(Riii("escape", 0x77, ClassCp, false, BRANCH))
  }

  function Empty(): (t: Table)
    ensures t.Valid() && t.top == 0 && t.lines == []
  {
    Table([], 0)
  }

  /** The whole table; no two lines share an opcode. */
  function Lines(): (ls: seq<Line>)
    ensures |ls| == 169 && Unambiguous(ls)
  {
    hide *;
    var low := RbAccesses(RdAccesses(Branches(Arithmetic(RegisterForms(Logic(Empty()))))));
    var high := System(Jumps(RfAccesses(FloatConvert(FloatCompare(FloatBinary(FloatUnary(low)))))));
    AscendingApart(high);
    high.lines
  }

  lemma AscendingApart(t: Table)
    requires t.Valid()
    ensures Unambiguous(t.lines)
  {
    forall i, j | 0 <= i < j < |t.lines| ensures Apart(t.lines[i], t.lines[j]) {
      KeysApart(t.lines[i], t.lines[j]);
    }
  }

  lemma KeysApart(l: Line, k: Line)
    requires l.Valid() && k.Valid() && End(l) <= First(k)
    ensures Apart(l, k)
  {
  }

  // ---------------------------------------------------------- any order

  lemma TwiceCounted(ls: seq<Line>, i: nat, j: nat)
    requires i < j < |ls| && ls[i] == ls[j]
    ensures multiset(ls)[ls[i]] >= 2
  {
    assert ls == ls[..j] + ls[j..];
    assert ls[i] in ls[..j] && ls[i] in ls[j..] by {
      assert ls[..j][i] == ls[i] && ls[j..][0] == ls[i];
    }
  }

  lemma {:induction false} OnceCounted(ls: seq<Line>, l: Line)
    requires Unambiguous(ls)
    ensures multiset(ls)[l] <= 1
  {
    if ls != [] {
      var n := |ls| - 1;
      OnceCounted(ls[..n], l);
      assert ls == ls[..n] + [ls[n]];
      forall i | 0 <= i < n ensures ls[..n][i] != ls[n] {
        assert Apart(ls[i], ls[n]);
      }
    }
  }

  /** The order of the lines does not matter. */
  lemma ReorderedUnambiguous(ls: seq<Line>, ks: seq<Line>)
    requires Unambiguous(ks) && multiset(ls) == multiset(ks)
    ensures Unambiguous(ls)
  {
    hide Line.Valid, Apart;
    forall i | 0 <= i < |ls| ensures ls[i].Valid() {
      assert ls[i] in multiset(ks);
    }
    forall i, j | 0 <= i < j < |ls| ensures Apart(ls[i], ls[j]) {
      if ls[i] == ls[j] {
        TwiceCounted(ls, i, j);
        OnceCounted(ks, ls[i]);
      } else {
        assert ls[i] in multiset(ks) && ls[j] in multiset(ks);
        BothApart(ks, ls[i], ls[j]);
      }
    }
  }

  lemma BothApart(ks: seq<Line>, l: Line, k: Line)
    requires Unambiguous(ks) && l in ks && k in ks && l != k
    ensures Apart(l, k)
  {
    var p :| 0 <= p < |ks| && ks[p] == l;
    var q :| 0 <= q < |ks| && ks[q] == k;
    assert Apart(ks[if p < q then p else q], ks[if p < q then q else p]);
  }

  /** The instruction set's lines, whatever order a file lists them in. */
  lemma AnyOrder(ls: seq<Line>)
    requires multiset(ls) == multiset(Lines())
    ensures Unambiguous(ls)
  {
    hide *;
    ReorderedUnambiguous(ls, Lines());
  }
}

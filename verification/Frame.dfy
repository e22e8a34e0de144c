/** The compiler's prologue and epilogue: two loops over the callee-saved
    registers, in opposite orders, that have to undo each other. */
module Frame {
  import opened Bits
  import opened Machine
  import opened Cells

  const SP: nat := 65
  const FP: nat := 66

  type Regno = r: nat | r < 256

  // ------------------------------------------------- the emitted RTL

  datatype Mode = DI | DF

  datatype Rtl =
    | Save(mode: Mode, off: int, reg: Regno)
    | Restore(mode: Mode, reg: Regno, off: int)
    | AddSp(n: int)
    | SpToFp

  /** All 256 hard registers and the memory. */
  datatype Context = Context(regs: seq<Octa>, mem: Memory) {
    predicate Valid() { |regs| == 256 }

    function Sp(): Octa
      requires Valid()
    {
      regs[SP]
    }
  }

  function ModeOf(r: Regno): Mode { if 128 <= r < 192 then DF else DI }

  /** One insn; a move in the other bank's mode is not recognised. */
  function Perform(i: Rtl, c: Context): (o: Option<Context>)
    requires c.Valid()
    ensures o.Some? ==> o.value.Valid()
  {
    match i
    case Save(mode, off, r) =>
      if mode == ModeOf(r) then Some(c.(mem := StoreLE(c.mem, c.Sp() + off, 8, c.regs[r]))) else None
    case Restore(mode, r, off) =>
      if mode == ModeOf(r) then Some(c.(regs := c.regs[r := LoadElem(c.mem, c.Sp() + off, 8, false)])) else None
    case AddSp(n) => Some(c.(regs := c.regs[SP := Wrap(c.Sp() + n)]))
    case SpToFp => Some(c.(regs := c.regs[FP := c.Sp()]))
  }

  function PerformAll(code: seq<Rtl>, c: Context): (o: Option<Context>)
    requires c.Valid()
    ensures o.Some? ==> o.value.Valid()
  {
    if code == [] then Some(c)
    else
      var o1 := Perform(code[0], c);
      if o1.None? then None else PerformAll(code[1..], o1.value)
  }

  lemma {:induction false} PerformAppend(a: seq<Rtl>, b: seq<Rtl>, c: Context)
    requires c.Valid()
    ensures PerformAll(a + b, c) == if PerformAll(a, c).None? then None else PerformAll(b, PerformAll(a, c).value)
  {
    hide Perform, Context.Valid;
    if a == [] {
      assert a + b == b;
    } else {
      assert (a + b)[1..] == a[1..] + b;
      var o1 := Perform(a[0], c);
      if o1.Some? { PerformAppend(a[1..], b, o1.value); }
    }
  }

  lemma PerformOne(i: Rtl, c: Context)
    requires c.Valid()
    ensures PerformAll([i], c) == Perform(i, c)
  {
    hide Perform, Context.Valid;
    if Perform(i, c).Some? { assert [i][1..] == []; }
  }

  lemma PerformSnoc(code: seq<Rtl>, i: Rtl, c: Context, d: Context)
    requires c.Valid() && d.Valid() && PerformAll(code, c) == Some(d)
    ensures PerformAll(code + [i], c) == Perform(i, d)
  {
    hide Perform, PerformAll, Context.Valid;
    PerformAppend(code, [i], c);
    PerformOne(i, d);
  }

  // ---------------------------------------------- which registers are saved

  /** The registers that calls clobber or that have a fixed use. */
  predicate CallUsedOrFixed(r: Regno) { r >= 192 || r % 64 < 32 }

  predicate CallSaved(live: set<nat>, r: Regno) { !CallUsedOrFixed(r) && r in live }

  /** The k-th register that the loops look at: 32..63 of three banks. */
  function Candidate(k: nat): Regno
    requires k < 96
  {
    64 * (k / 32) + 32 + k % 32
  }

  lemma CandidateOf(bank: nat, r: nat)
    requires bank < 3 && 32 + 64 * bank <= r < 64 + 64 * bank
    ensures Candidate(r - 32 - 32 * bank) == r
  {
  }

  /** The saved registers among the first k candidates, in ascending order. */
  function SavedBelow(live: set<nat>, k: nat): (rs: seq<Regno>)
    requires k <= 96
    ensures |rs| <= k
  {
    if k == 0 then []
    else if CallSaved(live, Candidate(k - 1)) then SavedBelow(live, k - 1) + [Candidate(k - 1)]
    else SavedBelow(live, k - 1)
  }

  function Saved(live: set<nat>): seq<Regno> { SavedBelow(live, 96) }

  lemma {:induction false} SavedMember(live: set<nat>, k: nat, r: Regno)
    requires k <= 96
    ensures r in SavedBelow(live, k) <==> exists j :: 0 <= j < k && Candidate(j) == r && CallSaved(live, r)
  {
    if k > 0 { SavedMember(live, k - 1, r); }
  }

  /** Exactly the live registers 32..63 of the rd, rb and rf banks are saved. */
  lemma SavedExactly(live: set<nat>, r: Regno)
    ensures r in Saved(live) <==> r in live && (32 <= r < 64 || 96 <= r < 128 || 160 <= r < 192)
  {
    SavedMember(live, 96, r);
    if CallSaved(live, r) { CandidateOf(r / 64, r); }
  }

  /** Register numbers in ascending order, all below top. */
  predicate Rising(rs: seq<Regno>, top: nat) {
    && (forall i :: 0 <= i < |rs| ==> rs[i] < top)
    && (forall i, j :: 0 <= i < j < |rs| ==> rs[i] < rs[j])
  }

  lemma RisingMore(rs: seq<Regno>, top: nat, r: Regno)
    requires Rising(rs, top) && top <= r
    ensures Rising(rs, r + 1) && Rising(rs + [r], r + 1)
  {
  }

  /** The saved registers are listed in ascending order, so none twice. */
  lemma {:induction false} SavedAscending(live: set<nat>, k: nat)
    requires k <= 96
    ensures Rising(SavedBelow(live, k), if k == 0 then 0 else Candidate(k - 1) + 1)
  {
    hide Rising, Candidate, CallSaved;
    if k == 0 {
      RisingNone();
    } else {
      SavedAscending(live, k - 1);
      if k > 1 { CandidateUp(k - 1); }
      RisingMore(SavedBelow(live, k - 1), if k == 1 then 0 else Candidate(k - 2) + 1, Candidate(k - 1));
    }
  }

  lemma RisingNone()
    ensures Rising([], 0)
  {
  }

  lemma CandidateUp(k: nat)
    requires 0 < k < 96
    ensures Candidate(k - 1) < Candidate(k)
  {
  }

  /** One turn of either inner loop: candidate r is saved, or it is not. */
  lemma OneCandidate(live: set<nat>, bank: nat, r: nat)
    requires bank < 3 && 32 + 64 * bank <= r < 64 + 64 * bank
    ensures ModeOf(r) == if bank > 1 then DF else DI
    ensures var before := SavedBelow(live, r - 32 - 32 * bank);
            SavedBelow(live, r - 31 - 32 * bank) == if CallSaved(live, r) then before + [r] else before
  {
    hide CallSaved, Candidate;
    CandidateOf(bank, r);
  }

  lemma {:induction false} SavedPrefix(live: set<nat>, k: nat, m: nat)
    requires k <= m <= 96
    ensures |SavedBelow(live, k)| <= |SavedBelow(live, m)|
    ensures SavedBelow(live, m)[..|SavedBelow(live, k)|] == SavedBelow(live, k)
    decreases m
  {
    if k < m { SavedPrefix(live, k, m - 1); }
  }

  // ------------------------------------------------ the two code sequences

  /** Saves of rs at consecutive slots below `off`, the first one on top. */
  function SaveCode(off: int, rs: seq<Regno>): seq<Rtl> {
    if rs == [] then []
    else
      var n := |rs|;
      SaveCode(off, rs[..n - 1]) + [Save(ModeOf(rs[n - 1]), off - 8 * n, rs[n - 1])]
  }

  /** Restores of the last m of rs from consecutive slots above SP, the last one lowest. */
  function RestoreCode(rs: seq<Regno>, m: nat): seq<Rtl>
    requires m <= |rs|
  {
    if m == 0 then []
    else RestoreCode(rs, m - 1) + [Restore(ModeOf(rs[|rs| - m]), rs[|rs| - m], 8 * (m - 1))]
  }

  function AddSpCode(n: int): seq<Rtl> { if n != 0 then [AddSp(n)] else [] }

  /** A C int holding the low 32 bits. */
  function Int32(x: int): int { if x % TWO32 >= 0x8000_0000 then x % TWO32 - TWO32 else x % TWO32 }

  /** What a function's body decides before its prologue is expanded. */
  datatype Shape = Shape(live: set<nat>, fpNeeded: bool, frameSize: nat, pretend: nat) {
    /** pretend_args_size and the prologue's running offset are C ints,
        get_frame_size is 64 bits wide. */
    predicate Valid() { pretend + 8 * 97 <= 0x8000_0000 && frameSize + pretend < TWO63 }

    function SlotCount(): nat { |Saved(live)| + FpSlot() }

    function FpSlot(): nat { if fpNeeded then 1 else 0 }

    function Prologue(): seq<Rtl> {
      (if fpNeeded then [Save(DI, -8, FP)] else [])
      + SaveCode(-8 * FpSlot(), Saved(live))
      + AddSpCode(-8 * SlotCount() - pretend)
      + (if fpNeeded then [SpToFp] else [])
      + AddSpCode(0 - frameSize)
    }

    function FreeLocals(): seq<Rtl> {
      if frameSize + pretend != 0 then [AddSp(Int32(frameSize + pretend))] else []
    }

    function PopFp(): seq<Rtl> { if fpNeeded then [Restore(DI, FP, 0), AddSp(8)] else [] }

    function Epilogue(): seq<Rtl> {
      FreeLocals() + RestoreCode(Saved(live), |Saved(live)|) + AddSpCode(8 * |Saved(live)|) + PopFp()
    }
  }

  /** The function being compiled: the facts the expanders read, and the insn
      stream they append to. */
  class Function {
    var shape: Shape
    var insns: seq<Rtl>

    constructor (shape: Shape)
      ensures this.shape == shape && insns == []
    {
      this.shape := shape;
      insns := [];
    }

    method EmitInsn(i: Rtl)
      modifies this`insns
      ensures insns == old(insns) + [i]
    {
      insns := insns + [i];
    }

    /** The prologue's inner loop: one bank, upwards. */
    method SaveBank(rtype: nat, offset: int, already: nat, ghost start: seq<Rtl>) returns (calleeSaved: nat)
      requires rtype < 3 && already == |SavedBelow(shape.live, 32 * rtype)|
      requires insns == start + SaveCode(offset, SavedBelow(shape.live, 32 * rtype))
      modifies this`insns
      ensures calleeSaved == |SavedBelow(shape.live, 32 * (rtype + 1))|
      ensures insns == start + SaveCode(offset, SavedBelow(shape.live, 32 * (rtype + 1)))
    {
      hide SavedBelow, CallSaved, ModeOf, SaveCode;
      calleeSaved := already;
      var regno := 32 + rtype * 64;
      while regno < 64 + rtype * 64
        invariant 32 + 64 * rtype <= regno <= 64 + 64 * rtype
        invariant calleeSaved == |SavedBelow(shape.live, regno - 32 - 32 * rtype)|
        invariant insns == start + SaveCode(offset, SavedBelow(shape.live, regno - 32 - 32 * rtype))
      {
        OneCandidate(shape.live, rtype, regno);
        if CallSaved(shape.live, regno) {
          var mode := if rtype > 1 then DF else DI;
          calleeSaved := calleeSaved + 1;
          SaveCodeSnoc(offset, SavedBelow(shape.live, regno - 32 - 32 * rtype), regno);
          EmitInsn(Save(mode, offset + -8 * calleeSaved, regno));
        }
        regno := regno + 1;
      }
    }

    /** Every SP adjustment is left out when it would add nothing. */
    method EmitAddSp(n: int)
      modifies this`insns
      ensures insns == old(insns) + AddSpCode(n)
    {
      if n != 0 { EmitInsn(AddSp(n)); }
    }

    method ExpandPrologue()
      requires shape.Valid()
      modifies this`insns
      ensures insns == old(insns) + shape.Prologue()
    {
      hide SavedBelow, SaveCode, AddSpCode;
      var calleeSaved, offset := 0, 0;
      if shape.fpNeeded {
        offset := offset - 8;
        EmitInsn(Save(DI, offset, FP));
      }
      ghost var start := insns;
      Empty(shape.live, offset);
      var rtype := 0;
      while rtype < 3
        invariant 0 <= rtype <= 3
        invariant calleeSaved == |SavedBelow(shape.live, 32 * rtype)|
        invariant insns == start + SaveCode(offset, SavedBelow(shape.live, 32 * rtype))
      {
        calleeSaved := SaveBank(rtype, offset, calleeSaved, start);
        rtype := rtype + 1;
      }
      if calleeSaved != 0 { offset := offset - calleeSaved * 8; }
      if shape.pretend != 0 { offset := offset - shape.pretend; }
      EmitAddSp(offset);
      if shape.fpNeeded { EmitInsn(SpToFp); }
      EmitAddSp(0 - shape.frameSize);
    }

    /** The epilogue's inner loop: one bank, downwards. */
    method RestoreBank(rtype: nat, already: nat, ghost start: seq<Rtl>) returns (calleeSaved: nat)
      requires rtype < 3 && |SavedBelow(shape.live, 32 * (rtype + 1))| + already == |Saved(shape.live)|
      requires insns == start + RestoreCode(Saved(shape.live), already)
      modifies this`insns
      ensures |SavedBelow(shape.live, 32 * rtype)| + calleeSaved == |Saved(shape.live)|
      ensures insns == start + RestoreCode(Saved(shape.live), calleeSaved)
    {
      hide SavedBelow, Saved, CallSaved, ModeOf, RestoreCode;
      calleeSaved := already;
      ghost var rs := Saved(shape.live);
      var regno := 63 + rtype * 64;
      while regno > 31 + rtype * 64
        invariant 31 + 64 * rtype <= regno <= 63 + 64 * rtype
        invariant |SavedBelow(shape.live, regno - 31 - 32 * rtype)| + calleeSaved == |rs|
        invariant insns == start + RestoreCode(rs, calleeSaved)
      {
        OneCandidate(shape.live, rtype, regno);
        if CallSaved(shape.live, regno) {
          SavedAt(shape.live, rtype, regno);
          RestoreCodeSnoc(rs, calleeSaved);
          var mode := if rtype > 1 then DF else DI;
          EmitInsn(Restore(mode, regno, 8 * calleeSaved));
          calleeSaved := calleeSaved + 1;
        }
        regno := regno - 1;
      }
    }

    method ExpandEpilogue()
      requires shape.Valid()
      modifies this`insns
      ensures insns == old(insns) + shape.Epilogue()
    {
      hide SavedBelow, RestoreCode, Int32, AddSpCode;
      var calleeSaved, offset := 0, 0;
      if shape.frameSize + shape.pretend != 0 {
        offset := Int32(offset + (shape.frameSize + shape.pretend));
        EmitInsn(AddSp(offset));
      }
      ghost var start := insns;
      Empty(shape.live, 0);
      NoRestore(Saved(shape.live));
      var rtype := 2;
      while rtype >= 0
        invariant -1 <= rtype <= 2
        invariant |SavedBelow(shape.live, 32 * (rtype + 1))| + calleeSaved == |Saved(shape.live)|
        invariant insns == start + RestoreCode(Saved(shape.live), calleeSaved)
      {
        calleeSaved := RestoreBank(rtype, calleeSaved, start);
        rtype := rtype - 1;
      }
      EmitAddSp(calleeSaved * 8);
      if shape.fpNeeded {
        EmitInsn(Restore(DI, FP, 0));
        EmitInsn(AddSp(8));
      }
    }
  }

  lemma SaveCodeSnoc(off: int, rs: seq<Regno>, r: Regno)
    ensures SaveCode(off, rs + [r]) == SaveCode(off, rs) + [Save(ModeOf(r), off - 8 * (|rs| + 1), r)]
  {
    assert (rs + [r])[..|rs|] == rs;
  }

  lemma Empty(live: set<nat>, off: int)
    ensures SavedBelow(live, 0) == [] && SaveCode(off, []) == []
  {
  }

  lemma NoRestore(rs: seq<Regno>)
    ensures RestoreCode(rs, 0) == []
  {
  }

  lemma RestoreCodeSnoc(rs: seq<Regno>, m: nat)
    requires m < |rs|
    ensures var r := rs[|rs| - 1 - m];
            RestoreCode(rs, m + 1) == RestoreCode(rs, m) + [Restore(ModeOf(r), r, 8 * m)]
  {
  }

  lemma SavedAt(live: set<nat>, bank: nat, r: nat)
    requires bank < 3 && 32 + 64 * bank <= r < 64 + 64 * bank && CallSaved(live, r)
    ensures |SavedBelow(live, r - 31 - 32 * bank)| == |SavedBelow(live, r - 32 - 32 * bank)| + 1
    ensures |SavedBelow(live, r - 31 - 32 * bank)| <= |Saved(live)|
    ensures Saved(live)[|SavedBelow(live, r - 32 - 32 * bank)|] == r
  {
    hide CallSaved, ModeOf, SavedBelow;
    OneCandidate(live, bank, r);
    SavedPrefix(live, r - 31 - 32 * bank, 96);
    var n := |SavedBelow(live, r - 32 - 32 * bank)|;
    assert Saved(live)[n] == Saved(live)[..n + 1][n];
  }

  // ---------------------------------------------------- insn by insn

  lemma {:induction false} SavesAt(off: int, rs: seq<Regno>, i: nat)
    requires i < |rs|
    ensures |SaveCode(off, rs)| == |rs|
    ensures SaveCode(off, rs)[i] == Save(if 128 <= rs[i] < 192 then DF else DI, off - 8 * (i + 1), rs[i])
  {
    var n := |rs| - 1;
    if n > 0 { SavesAt(off, rs[..n], if i < n then i else n - 1); }
  }

  lemma {:induction false} RestoresAt(rs: seq<Regno>, m: nat, i: nat)
    requires i < m <= |rs|
    ensures |RestoreCode(rs, m)| == m
    ensures var r := rs[|rs| - 1 - i];
            RestoreCode(rs, m)[i] == Restore(if 128 <= r < 192 then DF else DI, r, 8 * i)
  {
    if m > 1 { RestoresAt(rs, m - 1, if i < m - 1 then i else m - 2); }
  }

  /** The i-th saved register is stored in its bank's mode below the ones before
      it, and is the i-th from the last to be reloaded. */
  lemma SavedAndReloaded(sh: Shape, i: nat)
    requires i < |Saved(sh.live)|
    ensures var r := Saved(sh.live)[i];
            var mode := if 128 <= r < 192 then DF else DI;
            var fp := if sh.fpNeeded then 1 else 0;
            var at := (if sh.frameSize + sh.pretend != 0 then 1 else 0) + |Saved(sh.live)| - 1 - i;
            && fp + i < |sh.Prologue()| && sh.Prologue()[fp + i] == Save(mode, -8 * (fp + i + 1), r)
            && at < |sh.Epilogue()| && sh.Epilogue()[at] == Restore(mode, r, 8 * (|Saved(sh.live)| - 1 - i))
  {
    hide SaveCode, RestoreCode, AddSpCode, Saved, Int32;
    var rs := Saved(sh.live);
    SavesAt(-8 * sh.FpSlot(), rs, i);
    RestoresAt(rs, |rs|, |rs| - 1 - i);
  }

  // ------------------------------------------------------- what saving does

  /** The registers rs stored at consecutive slots below `top`. */
  function SavedMemory(m: Memory, top: int, rs: seq<Regno>, regs: seq<Octa>): Memory
    requires |regs| == 256
  {
    if rs == [] then m
    else
      var n := |rs|;
      StoreLE(SavedMemory(m, top, rs[..n - 1], regs), top - 8 * n, 8, regs[rs[n - 1]])
  }

  /** Slot i below `top` holds the value that register rs[i] has in regs. */
  ghost predicate Holds(m: Memory, top: int, rs: seq<Regno>, regs: seq<Octa>)
    requires |regs| == 256
  {
    forall i :: 0 <= i < |rs| ==> LoadLE(m, top - 8 * (i + 1), 8) == regs[rs[i]]
  }

  lemma {:induction false} SavesRun(off: int, rs: seq<Regno>, c: Context)
    requires c.Valid()
    ensures PerformAll(SaveCode(off, rs), c) == Some(c.(mem := SavedMemory(c.mem, c.Sp() + off, rs, c.regs)))
  {
    hide StoreLE;
    if rs != [] {
      var n := |rs|;
      SavesRun(off, rs[..n - 1], c);
      var d := c.(mem := SavedMemory(c.mem, c.Sp() + off, rs[..n - 1], c.regs));
      hide PerformAll, ModeOf;
      PerformSnoc(SaveCode(off, rs[..n - 1]), Save(ModeOf(rs[n - 1]), off - 8 * n, rs[n - 1]), c, d);
    }
  }

  lemma {:induction false} SavedOutside(m: Memory, top: int, rs: seq<Regno>, regs: seq<Octa>, x: int)
    requires |regs| == 256 && |rs| < 100 && !Inside(x, top - 8 * |rs|, 8 * |rs|)
    ensures ByteAt(SavedMemory(m, top, rs, regs), x) == ByteAt(m, x)
  {
    hide ByteAt, StoreLE;
    if rs != [] {
      var n := |rs|;
      WrapLess(x - (top - 8 * n), 8);
      assert x - (top - 8 * n) - 8 == x - (top - 8 * (n - 1));
      hide Wrap;
      SavedOutside(m, top, rs[..n - 1], regs, x);
      StoreFrame(SavedMemory(m, top, rs[..n - 1], regs), top - 8 * n, 8, regs[rs[n - 1]], x);
    }
  }

  lemma {:induction false} SavedHolds(m: Memory, top: int, rs: seq<Regno>, regs: seq<Octa>)
    requires |regs| == 256 && |rs| < 100
    ensures Holds(SavedMemory(m, top, rs, regs), top, rs, regs)
  {
    hide StoreLE, LoadLE, Pow2;
    if rs != [] {
      var n := |rs|;
      var before := SavedMemory(m, top, rs[..n - 1], regs);
      SavedHolds(m, top, rs[..n - 1], regs);
      Pow64();
      LoadStore(before, top - 8 * n, 8, regs[rs[n - 1]]);
      var after := StoreLE(before, top - 8 * n, 8, regs[rs[n - 1]]);
      assert after == SavedMemory(m, top, rs, regs);
      forall i | 0 <= i < n ensures LoadLE(after, top - 8 * (i + 1), 8) == regs[rs[i]] {
        if i < n - 1 {
          CellFrame(before, top - 8 * (i + 1), top - 8 * n, regs[rs[n - 1]]);
          assert rs[..n - 1][i] == rs[i];
        }
      }
    }
  }

  // ---------------------------------------------------- what restoring does

  function RestoredRegs(regs: seq<Octa>, m: Memory, rs: seq<Regno>, k: nat): (r: seq<Octa>)
    requires |regs| == 256 && k <= |rs|
    ensures |r| == 256
  {
    if k == 0 then regs
    else RestoredRegs(regs, m, rs, k - 1)[rs[|rs| - k] := LoadElem(m, regs[SP] + 8 * (k - 1), 8, false)]
  }

  predicate NoSp(rs: seq<Regno>) { forall i :: 0 <= i < |rs| ==> rs[i] != SP }

  lemma {:induction false} RestoresKeepSp(regs: seq<Octa>, m: Memory, rs: seq<Regno>, k: nat)
    requires |regs| == 256 && k <= |rs| && NoSp(rs)
    ensures RestoredRegs(regs, m, rs, k)[SP] == regs[SP]
  {
    hide LoadElem;
    if k > 0 { RestoresKeepSp(regs, m, rs, k - 1); }
  }

  lemma {:induction false} RestoresRun(rs: seq<Regno>, k: nat, c: Context)
    requires c.Valid() && k <= |rs| && NoSp(rs)
    ensures PerformAll(RestoreCode(rs, k), c) == Some(c.(regs := RestoredRegs(c.regs, c.mem, rs, k)))
  {
    hide LoadElem;
    if k > 0 {
      RestoresRun(rs, k - 1, c);
      RestoresKeepSp(c.regs, c.mem, rs, k - 1);
      var d := c.(regs := RestoredRegs(c.regs, c.mem, rs, k - 1));
      hide PerformAll, ModeOf;
      PerformSnoc(RestoreCode(rs, k - 1), Restore(ModeOf(rs[|rs| - k]), rs[|rs| - k], 8 * (k - 1)), c, d);
    }
  }

  lemma LoadOcta(m: Memory, a: int)
    ensures LoadElem(m, a, 8, false) == LoadLE(m, a, 8)
  {
    hide LoadLE, Pow2;
    Pow64();
    WrapAdd(LoadLE(m, a, 8), 0);
  }

  /** Restoring from slots that hold the values `was` brings exactly those registers back. */
  lemma {:induction false} RestoresValue(regs: seq<Octa>, m: Memory, top: int, rs: seq<Regno>, k: nat, was: seq<Octa>, r: Regno)
    requires |regs| == 256 && |was| == 256 && k <= |rs|
    requires Holds(m, top, rs, was) && regs[SP] == Wrap(top - 8 * |rs|)
    ensures RestoredRegs(regs, m, rs, k)[r] == if r in rs[|rs| - k..] then was[r] else regs[r]
  {
    hide LoadElem, LoadLE;
    if k > 0 {
      var i := |rs| - k;
      RestoresValue(regs, m, top, rs, k - 1, was, r);
      LoadOcta(m, regs[SP] + 8 * (k - 1));
      WrapAdd(top - 8 * |rs|, 8 * (k - 1));
      LoadWraps(m, regs[SP] + 8 * (k - 1), top - 8 * (i + 1), 8);
      assert rs[i..] == [rs[i]] + rs[i + 1..];
    }
  }

  // ------------------------------------------------------- the prologue

  lemma AddSpRun(n: int, c: Context)
    requires c.Valid()
    ensures PerformAll(AddSpCode(n), c) == Some(c.(regs := c.regs[SP := Wrap(c.Sp() + n)]))
  {
    if n != 0 {
      PerformOne(AddSp(n), c);
    } else {
      WrapAdd(c.Sp(), 0);
      assert c.regs[SP := c.regs[SP]] == c.regs;
    }
  }

  function FpSaved(sh: Shape, c: Context): Memory
    requires c.Valid()
  {
    if sh.fpNeeded then StoreLE(c.mem, c.Sp() - 8, 8, c.regs[FP]) else c.mem
  }

  function Stored(sh: Shape, c: Context): Memory
    requires c.Valid()
  {
    SavedMemory(FpSaved(sh, c), c.Sp() - 8 * sh.FpSlot(), Saved(sh.live), c.regs)
  }

  /** The stack pointer that addresses the lowest byte of the pretend area. */
  function BelowSlots(sh: Shape, c: Context): Octa
    requires c.Valid()
  {
    Wrap(c.Sp() - 8 * sh.SlotCount() - sh.pretend)
  }

  function Lowered(sh: Shape, c: Context): seq<Octa>
    requires c.Valid()
  {
    var sp := BelowSlots(sh, c);
    var regs := c.regs[SP := sp];
    (if sh.fpNeeded then regs[FP := sp] else regs)[SP := Wrap(sp - sh.frameSize)]
  }

  lemma FpSaveRuns(sh: Shape, c: Context)
    requires c.Valid()
    ensures PerformAll(if sh.fpNeeded then [Save(DI, -8, FP)] else [], c) == Some(c.(mem := FpSaved(sh, c)))
  {
    hide StoreLE;
    if sh.fpNeeded { PerformOne(Save(DI, -8, FP), c); }
  }

  lemma FpCopyRuns(sh: Shape, c: Context)
    requires c.Valid()
    ensures PerformAll(if sh.fpNeeded then [SpToFp] else [], c)
         == Some(if sh.fpNeeded then c.(regs := c.regs[FP := c.Sp()]) else c)
  {
    if sh.fpNeeded { PerformOne(SpToFp, c); }
  }

  lemma SavesRunFrom(sh: Shape, c: Context)
    requires c.Valid()
    ensures PerformAll(SaveCode(-8 * sh.FpSlot(), Saved(sh.live)), c.(mem := FpSaved(sh, c)))
         == Some(c.(mem := Stored(sh, c)))
  {
    hide PerformAll, SaveCode, SavedMemory, Saved, FpSaved;
    SavesRun(-8 * sh.FpSlot(), Saved(sh.live), c.(mem := FpSaved(sh, c)));
  }

  lemma SavingRuns(sh: Shape, c: Context)
    requires c.Valid()
    ensures PerformAll((if sh.fpNeeded then [Save(DI, -8, FP)] else [])
                       + SaveCode(-8 * sh.FpSlot(), Saved(sh.live)), c)
         == Some(c.(mem := Stored(sh, c)))
  {
    hide PerformAll, SaveCode, Stored, Saved, FpSaved, Shape.FpSlot;
    FpSaveRuns(sh, c);
    SavesRunFrom(sh, c);
    PerformAppend(if sh.fpNeeded then [Save(DI, -8, FP)] else [], SaveCode(-8 * sh.FpSlot(), Saved(sh.live)), c);
  }

  lemma LoweringRuns(sh: Shape, c: Context)
    requires c.Valid()
    ensures PerformAll(AddSpCode(-8 * sh.SlotCount() - sh.pretend) + (if sh.fpNeeded then [SpToFp] else [])
                       + AddSpCode(0 - sh.frameSize), c)
         == Some(c.(regs := Lowered(sh, c)))
  {
    hide PerformAll, AddSpCode, Shape.SlotCount;
    var a, n := -8 * sh.SlotCount() - sh.pretend, 0 - sh.frameSize;
    var copy := if sh.fpNeeded then [SpToFp] else [];
    AddSpRun(a, c);
    var d := c.(regs := c.regs[SP := Wrap(c.Sp() + a)]);
    PerformAppend(AddSpCode(a), copy, c);
    FpCopyRuns(sh, d);
    PerformAppend(AddSpCode(a) + copy, AddSpCode(n), c);
    AddSpRun(n, if sh.fpNeeded then d.(regs := d.regs[FP := d.Sp()]) else d);
  }

  lemma PrologueRuns(sh: Shape, c: Context)
    requires c.Valid()
    ensures PerformAll(sh.Prologue(), c) == Some(c.(mem := Stored(sh, c), regs := Lowered(sh, c)))
  {
    hide PerformAll, AddSpCode, SaveCode, Saved, Stored, Lowered, Shape.FpSlot, Shape.SlotCount;
    var save := (if sh.fpNeeded then [Save(DI, -8, FP)] else []) + SaveCode(-8 * sh.FpSlot(), Saved(sh.live));
    var a, n := AddSpCode(-8 * sh.SlotCount() - sh.pretend), AddSpCode(0 - sh.frameSize);
    var copy := if sh.fpNeeded then [SpToFp] else [];
    assert sh.Prologue() == save + (a + copy + n);
    SavingRuns(sh, c);
    var d := c.(mem := Stored(sh, c));
    PerformAppend(save, a + copy + n, c);
    LoweringRuns(sh, d);
    assert Lowered(sh, d) == Lowered(sh, c) by { LoweredSame(sh, c, d); }
  }

  lemma LoweredSame(sh: Shape, c: Context, d: Context)
    requires c.Valid() && d.Valid() && c.regs == d.regs
    ensures Lowered(sh, d) == Lowered(sh, c)
  {
  }

  /** The prologue's stores: offsets from the entry stack pointer. */
  function Slots(code: seq<Rtl>): seq<int> {
    if code == [] then [] else SlotOf(code[0]) + Slots(code[1..])
  }

  function SlotOf(i: Rtl): seq<int> { if i.Save? then [i.off] else [] }

  lemma {:induction false} SlotsAppend(a: seq<Rtl>, b: seq<Rtl>)
    ensures Slots(a + b) == Slots(a) + Slots(b)
  {
    hide SlotOf;
    if a == [] {
      assert a + b == b;
    } else {
      assert (a + b)[0] == a[0] && (a + b)[1..] == a[1..] + b;
      SlotsAppend(a[1..], b);
      calc {
        Slots(a + b);
        SlotOf(a[0]) + (Slots(a[1..]) + Slots(b));
        Slots(a) + Slots(b);
      }
    }
  }

  predicate Descending(offs: seq<int>, off: int) { forall k :: 0 <= k < |offs| ==> offs[k] == off - 8 * (k + 1) }

  lemma {:induction false} SaveSlots(off: int, rs: seq<Regno>)
    ensures |Slots(SaveCode(off, rs))| == |rs| && Descending(Slots(SaveCode(off, rs)), off)
  {
    if rs != [] {
      var n := |rs|;
      SaveSlots(off, rs[..n - 1]);
      SlotsAppend(SaveCode(off, rs[..n - 1]), [Save(ModeOf(rs[n - 1]), off - 8 * n, rs[n - 1])]);
    }
  }

  lemma FpSlots(sh: Shape)
    ensures Slots(if sh.fpNeeded then [Save(DI, -8, FP)] else []) == if sh.fpNeeded then [-8] else []
    ensures Slots(if sh.fpNeeded then [SpToFp] else []) == []
  {
  }

  lemma NoSlots(n: int)
    ensures Slots(AddSpCode(n)) == []
  {
  }

  /** The saves, the one of FP included, use each of the 8-byte cells just below
      the entry stack pointer exactly once and nothing else. */
  lemma SlotsTile(sh: Shape)
    ensures |Slots(sh.Prologue())| == sh.SlotCount() && Descending(Slots(sh.Prologue()), 0)
  {
    hide SaveCode, AddSpCode, Slots, Saved;
    var off := -8 * sh.FpSlot();
    var first := if sh.fpNeeded then [Save(DI, -8, FP)] else [];
    var saves := SaveCode(off, Saved(sh.live));
    var down, last := AddSpCode(-8 * sh.SlotCount() - sh.pretend), AddSpCode(0 - sh.frameSize);
    var copy := if sh.fpNeeded then [SpToFp] else [];
    assert sh.Prologue() == first + saves + down + copy + last;
    hide Shape.Prologue;
    FpSlots(sh);
    SaveSlots(off, Saved(sh.live));
    NoSlots(-8 * sh.SlotCount() - sh.pretend);
    NoSlots(0 - sh.frameSize);
    SlotsAppend(first, saves);
    SlotsAppend(first + saves, down);
    SlotsAppend(first + saves + down, copy);
    SlotsAppend(first + saves + down + copy, last);
  }

  lemma FpSlotKept(m: Memory, sp: int, rs: seq<Regno>, regs: seq<Octa>)
    requires |regs| == 256 && |rs| < 100
    ensures LoadLE(SavedMemory(m, sp - 8, rs, regs), sp - 8, 8) == LoadLE(m, sp - 8, 8)
  {
    hide ByteAt, SavedMemory;
    var m' := SavedMemory(m, sp - 8, rs, regs);
    forall x: int | sp - 8 <= x < sp ensures ByteAt(m', x) == ByteAt(m, x) {
      WrapAdd(x - (sp - 8 - 8 * |rs|), 0);
      SavedOutside(m, sp - 8, rs, regs, x);
    }
    LoadSame(m', m, sp - 8, 8);
  }

  lemma SavedCount(live: set<nat>)
    ensures |Saved(live)| <= 96 && NoSp(Saved(live))
  {
    forall i | 0 <= i < |Saved(live)| ensures Saved(live)[i] != SP {
      SavedExactly(live, Saved(live)[i]);
    }
  }

  /** What the save area holds after the prologue. */
  lemma PrologueSaves(sh: Shape, c: Context)
    requires c.Valid()
    ensures Holds(Stored(sh, c), c.Sp() - 8 * sh.FpSlot(), Saved(sh.live), c.regs)
    ensures sh.fpNeeded ==> LoadLE(Stored(sh, c), c.Sp() - 8, 8) == c.regs[FP]
  {
    hide StoreLE, LoadLE, Pow2, Saved, SavedMemory, Holds;
    SavedCount(sh.live);
    SavedHolds(FpSaved(sh, c), c.Sp() - 8 * sh.FpSlot(), Saved(sh.live), c.regs);
    if sh.fpNeeded {
      Pow64();
      LoadStore(c.mem, c.Sp() - 8, 8, c.regs[FP]);
      FpSlotKept(FpSaved(sh, c), c.Sp(), Saved(sh.live), c.regs);
    }
  }

  /** The prologue changes no byte outside the save area. */
  lemma PrologueFrame(sh: Shape, c: Context, x: int)
    requires c.Valid() && !Inside(x, c.Sp() - 8 * sh.SlotCount(), 8 * sh.SlotCount())
    ensures ByteAt(Stored(sh, c), x) == ByteAt(c.mem, x)
  {
    hide ByteAt, StoreLE, Saved, SavedMemory;
    SavedCount(sh.live);
    var n, f := |Saved(sh.live)|, sh.FpSlot();
    var lo := c.Sp() - 8 * (n + f);
    SavedOutside(FpSaved(sh, c), c.Sp() - 8 * f, Saved(sh.live), c.regs, x);
    if sh.fpNeeded {
      WrapLess(x - lo, 8 * n);
      assert x - lo - 8 * n == x - (c.Sp() - 8);
      StoreFrame(c.mem, c.Sp() - 8, 8, c.regs[FP], x);
    }
  }

  /** The prologue from any machine state: the stack pointer drops by the save
      area, the pretend area and the frame; the frame pointer, when one is
      needed, stops at the bottom of the first two; memory changes in the save
      area only, which then holds the registers to be saved. */
  lemma PrologueCorrect(sh: Shape, c: Context)
    requires sh.Valid() && c.Valid()
    ensures PerformAll(sh.Prologue(), c).Some?
    ensures var d := PerformAll(sh.Prologue(), c).value;
            && d.Sp() == Wrap(c.Sp() - 8 * sh.SlotCount() - sh.pretend - sh.frameSize)
            && d.regs[FP] == (if sh.fpNeeded then Wrap(c.Sp() - 8 * sh.SlotCount() - sh.pretend) else c.regs[FP])
            && (forall r: Regno :: r != SP && r != FP ==> d.regs[r] == c.regs[r])
            && SameOutside(c.mem, d.mem, c.Sp() - 8 * sh.SlotCount(), 8 * sh.SlotCount())
            && Holds(d.mem, c.Sp() - 8 * sh.FpSlot(), Saved(sh.live), c.regs)
            && (sh.fpNeeded ==> LoadLE(d.mem, c.Sp() - 8, 8) == c.regs[FP])
  {
    hide PerformAll, Stored, Holds, Saved, ByteAt, LoadLE, Inside, Shape.Prologue, Shape.SlotCount;
    PrologueRuns(sh, c);
    PrologueSaves(sh, c);
    forall x: int | !Inside(x, c.Sp() - 8 * sh.SlotCount(), 8 * sh.SlotCount())
      ensures ByteAt(c.mem, x) == ByteAt(Stored(sh, c), x)
    {
      PrologueFrame(sh, c, x);
    }
    WrapAdd(c.Sp() - 8 * sh.SlotCount() - sh.pretend, 0 - sh.frameSize);
  }

  /** The state in which the function's body starts. */
  function Entered(sh: Shape, c: Context): (d: Context)
    requires sh.Valid() && c.Valid()
    ensures d.Valid()
  {
    PrologueCorrect(sh, c);
    PerformAll(sh.Prologue(), c).value
  }

  // -------------------------------------------------------- the epilogue

  function Raised(sh: Shape, c: Context): (d: Context)
    requires c.Valid()
    ensures d.Valid()
  {
    c.(regs := c.regs[SP := Wrap(c.Sp() + Int32(sh.frameSize + sh.pretend))])
  }

  function Reloaded(sh: Shape, c: Context): (d: Context)
    requires c.Valid()
    ensures d.Valid()
  {
    c.(regs := RestoredRegs(c.regs, c.mem, Saved(sh.live), |Saved(sh.live)|))
  }

  function Dropped(sh: Shape, c: Context): (d: Context)
    requires c.Valid()
    ensures d.Valid()
  {
    c.(regs := c.regs[SP := Wrap(c.Sp() + 8 * |Saved(sh.live)|)])
  }

  function FpPopped(sh: Shape, c: Context): (d: Context)
    requires c.Valid()
    ensures d.Valid()
  {
    if sh.fpNeeded
    then c.(regs := c.regs[FP := LoadElem(c.mem, c.Sp(), 8, false)][SP := Wrap(c.Sp() + 8)])
    else c
  }

  lemma Int32Value(x: nat)
    requires x < TWO63
    ensures x < 0x8000_0000 ==> Int32(x) == x
    ensures x >= 0x8000_0000 ==> Int32(x) < x && x - Int32(x) < TWO64
  {
  }

  lemma NothingRuns(c: Context)
    requires c.Valid()
    ensures PerformAll([], c) == Some(c) && AddSpCode(0) == []
  {
  }

  lemma RaiseRuns(sh: Shape, c: Context)
    requires c.Valid()
    ensures PerformAll(sh.FreeLocals(), c) == Some(Raised(sh, c))
  {
    hide PerformAll, AddSpCode;
    var n := Int32(sh.frameSize + sh.pretend);
    hide Wrap, Int32;
    AddSpRun(n, c);
    PerformOne(AddSp(n), c);
    if sh.frameSize + sh.pretend == 0 {
      assert n == 0 by { Int32Value(0); }
      NothingRuns(c);
    }
  }

  lemma PopRuns(sh: Shape, c: Context)
    requires c.Valid()
    ensures PerformAll(sh.PopFp(), c) == Some(FpPopped(sh, c))
  {
    hide LoadElem, PerformAll, Wrap;
    if sh.fpNeeded {
      var d := c.(regs := c.regs[FP := LoadElem(c.mem, c.Sp(), 8, false)]);
      assert c.Sp() + 0 == c.Sp();
      assert Perform(Restore(DI, FP, 0), c) == Some(d);
      assert Perform(AddSp(8), d) == Some(FpPopped(sh, c));
      hide Perform, FpPopped;
      PerformOne(Restore(DI, FP, 0), c);
      PerformSnoc([Restore(DI, FP, 0)], AddSp(8), c, d);
      assert [Restore(DI, FP, 0)] + [AddSp(8)] == [Restore(DI, FP, 0), AddSp(8)];
    } else {
      NothingRuns(c);
    }
  }

  lemma ReloadRuns(sh: Shape, c: Context)
    requires c.Valid()
    ensures PerformAll(RestoreCode(Saved(sh.live), |Saved(sh.live)|), c) == Some(Reloaded(sh, c))
  {
    hide PerformAll, RestoreCode, RestoredRegs, Saved, NoSp;
    SavedCount(sh.live);
    RestoresRun(Saved(sh.live), |Saved(sh.live)|, c);
  }

  lemma DropRuns(sh: Shape, c: Context)
    requires c.Valid()
    ensures PerformAll(AddSpCode(8 * |Saved(sh.live)|), c) == Some(Dropped(sh, c))
  {
    hide PerformAll, AddSpCode, Saved, Wrap;
    AddSpRun(8 * |Saved(sh.live)|, c);
  }

  lemma Regroup(a: seq<Rtl>, b: seq<Rtl>, c: seq<Rtl>, d: seq<Rtl>)
    ensures a + b + c + d == a + (b + (c + d))
  {
  }

  lemma PerformThrough(a: seq<Rtl>, b: seq<Rtl>, c: Context, d: Context)
    requires c.Valid() && d.Valid() && PerformAll(a, c) == Some(d)
    ensures PerformAll(a + b, c) == PerformAll(b, d)
  {
    hide PerformAll;
    PerformAppend(a, b, c);
  }

  lemma EpilogueRuns(sh: Shape, c: Context)
    requires c.Valid()
    ensures PerformAll(sh.Epilogue(), c) == Some(FpPopped(sh, Dropped(sh, Reloaded(sh, Raised(sh, c)))))
  {
    hide PerformAll, AddSpCode, RestoreCode, Saved, FpPopped, Raised, Reloaded, Dropped, Shape.FreeLocals, Shape.PopFp;
    var up := sh.FreeLocals();
    var loads := RestoreCode(Saved(sh.live), |Saved(sh.live)|);
    var drop := AddSpCode(8 * |Saved(sh.live)|);
    var pop := sh.PopFp();
    var c1 := Raised(sh, c);
    var c2 := Reloaded(sh, c1);
    var c3 := Dropped(sh, c2);
    RaiseRuns(sh, c);
    ReloadRuns(sh, c1);
    DropRuns(sh, c2);
    PopRuns(sh, c3);
    assert sh.Epilogue() == up + loads + drop + pop;
    hide Shape.Epilogue;
    Regroup(up, loads, drop, pop);
    PerformThrough(up, loads + (drop + pop), c, c1);
    PerformThrough(loads, drop + pop, c1, c2);
    PerformThrough(drop, pop, c2, c3);
  }

  // ------------------------------------------------------ the round trip

  /** A body that may do anything to registers and memory, except that it brings
      the stack pointer back and leaves the save area of the frame alone. */
  ghost predicate BodyKeeps(sh: Shape, entry: Context, before: Context, after: Context)
    requires entry.Valid() && before.Valid() && after.Valid()
  {
    && after.Sp() == before.Sp()
    && SameInside(before.mem, after.mem, entry.Sp() - 8 * sh.SlotCount(), 8 * sh.SlotCount())
  }

  /** The registers that a caller relies on. */
  predicate Preserved(sh: Shape, r: Regno) { r == SP || CallSaved(sh.live, r) || (r == FP && sh.fpNeeded) }

  lemma PreservedAre(sh: Shape, r: Regno)
    ensures Preserved(sh, r) <==>
              (r == 65 || (r == 66 && sh.fpNeeded) || (r in sh.live && (32 <= r < 64 || 96 <= r < 128 || 160 <= r < 192)))
  {
  }

  lemma EpilogueSp(sh: Shape, c: Context)
    requires c.Valid()
    ensures FpPopped(sh, Dropped(sh, Reloaded(sh, Raised(sh, c)))).Sp()
         == Wrap(c.Sp() + Int32(sh.frameSize + sh.pretend) + 8 * sh.SlotCount())
  {
    hide RestoredRegs, Saved, Int32, LoadElem;
    var t, n := Int32(sh.frameSize + sh.pretend), |Saved(sh.live)|;
    SavedCount(sh.live);
    RestoresKeepSp(Raised(sh, c).regs, c.mem, Saved(sh.live), n);
    WrapAdd(c.Sp() + t, 8 * n);
    WrapAdd(c.Sp() + t + 8 * n, 8);
    hide Wrap;
  }

  /** The stack pointer comes back exactly when the frame and the pretend area
      together stay below 2 GiB: the epilogue adds them up in a C int, the
      prologue does not. */
  lemma SpRestoredExactly(sh: Shape, entry: Context, after: Context)
    requires sh.Valid() && entry.Valid() && after.Valid()
    requires BodyKeeps(sh, entry, Entered(sh, entry), after)
    ensures PerformAll(sh.Epilogue(), after).Some?
    ensures PerformAll(sh.Epilogue(), after).value.Sp() == entry.Sp() <==> sh.frameSize + sh.pretend < 0x8000_0000
  {
    hide PerformAll, Saved, FpPopped, Dropped, Reloaded, Raised, SameInside, Shape.Prologue, Shape.Epilogue, Int32, Holds,
      SameOutside, LoadLE, Shape.SlotCount;
    var t := sh.frameSize + sh.pretend;
    PrologueCorrect(sh, entry);
    EpilogueRuns(sh, after);
    EpilogueSp(sh, after);
    Int32Value(t);
    WrapAdd(entry.Sp() - 8 * sh.SlotCount() - sh.pretend - sh.frameSize, Int32(t) + 8 * sh.SlotCount());
    WrapBack(entry.Sp(), t - Int32(t));
  }

  lemma WrapBack(x: Octa, k: int)
    requires 0 <= k < TWO64
    ensures Wrap(x - k) == x <==> k == 0
  {
  }

  lemma HoldsStill(m: Memory, m': Memory, sh: Shape, sp: Octa, was: seq<Octa>)
    requires |was| == 256
    requires Holds(m, sp - 8 * sh.FpSlot(), Saved(sh.live), was)
    requires SameInside(m, m', sp - 8 * sh.SlotCount(), 8 * sh.SlotCount())
    ensures Holds(m', sp - 8 * sh.FpSlot(), Saved(sh.live), was)
    ensures sh.fpNeeded ==> LoadLE(m', sp - 8, 8) == LoadLE(m, sp - 8, 8)
  {
    hide LoadLE, Saved, SameInside;
    SavedCount(sh.live);
    var top, rs := sp - 8 * sh.FpSlot(), Saved(sh.live);
    var lo, size := sp - 8 * sh.SlotCount(), 8 * sh.SlotCount();
    forall i | 0 <= i < |rs| ensures LoadLE(m', top - 8 * (i + 1), 8) == was[rs[i]] {
      CellSame(m, m', lo, size, top - 8 * (i + 1));
    }
    if sh.fpNeeded { CellSame(m, m', lo, size, sp - 8); }
  }

  lemma EpilogueValue(sh: Shape, sp: Octa, was: seq<Octa>, c: Context, r: Regno)
    requires c.Valid() && |was| == 256 && was[SP] == sp
    requires Raised(sh, c).Sp() == Wrap(sp - 8 * sh.SlotCount())
    requires Holds(c.mem, sp - 8 * sh.FpSlot(), Saved(sh.live), was)
    requires sh.fpNeeded ==> LoadLE(c.mem, sp - 8, 8) == was[FP]
    ensures FpPopped(sh, Dropped(sh, Reloaded(sh, Raised(sh, c)))).regs[r]
         == if Preserved(sh, r) then was[r] else c.regs[r]
  {
    hide RestoredRegs, Saved, Int32, LoadElem, LoadLE, Pow2, Holds, Preserved;
    var top, rs, c1 := sp - 8 * sh.FpSlot(), Saved(sh.live), Raised(sh, c);
    SavedCount(sh.live);
    SavedExactly(sh.live, r);
    PreservedAre(sh, r);
    RestoresValue(c1.regs, c.mem, top, rs, |rs|, was, r);
    assert rs[0..] == rs;
    RestoresKeepSp(c1.regs, c.mem, rs, |rs|);
    WrapAdd(sp - 8 * sh.SlotCount(), 8 * |rs|);
    var low := Dropped(sh, Reloaded(sh, c1)).Sp();
    assert low == Wrap(top);
    WrapAdd(sp, 0);
    if sh.fpNeeded {
      LoadOcta(c.mem, low);
      WrapAdd(top, 0);
      LoadWraps(c.mem, low, top, 8);
      WrapAdd(top, 8);
    }
  }

  /** Prologue, any body that keeps the stack pointer and the save area, then
      epilogue: the stack pointer, the frame pointer and every saved register
      are back, everything else is as the body left it. */
  lemma EpilogueUndoesPrologue(sh: Shape, entry: Context, after: Context)
    requires sh.Valid() && entry.Valid() && after.Valid()
    requires sh.frameSize + sh.pretend < 0x8000_0000
    requires BodyKeeps(sh, entry, Entered(sh, entry), after)
    ensures PerformAll(sh.Epilogue(), after).Some?
    ensures PerformAll(sh.Epilogue(), after).value.mem == after.mem
    ensures forall r: Regno ::
              PerformAll(sh.Epilogue(), after).value.regs[r] ==
                if r == 65 || (r == 66 && sh.fpNeeded)
                   || (r in sh.live && (32 <= r < 64 || 96 <= r < 128 || 160 <= r < 192))
                then entry.regs[r] else after.regs[r]
  {
    hide PerformAll, Saved, SameInside, Shape.Prologue, Shape.Epilogue, Int32, Holds, SameOutside, LoadLE, Preserved,
      Shape.SlotCount, Shape.FpSlot, RestoredRegs, LoadElem;
    var t := sh.frameSize + sh.pretend;
    PrologueCorrect(sh, entry);
    HoldsStill(Entered(sh, entry).mem, after.mem, sh, entry.Sp(), entry.regs);
    EpilogueRuns(sh, after);
    Int32Value(t);
    WrapAdd(entry.Sp() - 8 * sh.SlotCount() - sh.pretend - sh.frameSize, t);
    assert Raised(sh, after).Sp() == Wrap(entry.Sp() - 8 * sh.SlotCount());
    forall r: Regno
      ensures FpPopped(sh, Dropped(sh, Reloaded(sh, Raised(sh, after)))).regs[r]
           == if r == 65 || (r == 66 && sh.fpNeeded)
                 || (r in sh.live && (32 <= r < 64 || 96 <= r < 128 || 160 <= r < 192))
              then entry.regs[r] else after.regs[r]
    {
      EpilogueValue(sh, entry.Sp(), entry.regs, after, r);
      PreservedAre(sh, r);
    }
  }
}

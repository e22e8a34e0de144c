/** Block register moves: the one instruction is a parallel move, and the
    assembler's expansion into ascending single moves is that only when the
    ranges do not overlap the wrong way. */
module RegMove {
  import opened Bits
  import opened Machine
  import opened Frags
  import OpcodeTable

  /** The minor opcode of a register move, 0 where there is none. */
  function Minor(db: Bank, sb: Bank): nat {
    match (db, sb)
    case (RD, RD) => 0x28
    case (RB, RD) => 0x29
    case (RD, RB) => 0x2A
    case (RB, RB) => 0x2B
    case (RF, RD) => 0x31
    case (RD, RF) => 0x32
    case (RF, RF) => 0x33
    case (RA, RD) => 0x39
    case (RD, RA) => 0x3A
    case _ => 0
  }

  /** A register that an instruction reads the same at any pc. */
  predicate Steady(b: Bank, r: Reg) { b != RB || r != 0 }

  predicate InRange(db: Bank, dst: nat, n: nat, b: Bank, r: Reg) {
    b == db && dst <= r < dst + n && !ReadOnly(db, r)
  }

  predicate ValidMove(dst: nat, src: nat, n: nat) { 1 <= n && dst + n <= 64 && src + n <= 64 }

  /** The value of register r of bank b after moving n registers all at once. */
  function MovedValue(s: State, db: Bank, sb: Bank, dst: nat, src: nat, n: nat, b: Bank, r: Reg): Octa
    requires s.Valid() && ValidMove(dst, src, n)
  {
    if InRange(db, dst, n, b, r) then s.Get(sb, src + (r - dst)) else s.Get(b, r)
  }

  /** t is s after moving n registers all at once. */
  ghost predicate MovedAtOnce(s: State, t: State, db: Bank, sb: Bank, dst: nat, src: nat, n: nat)
    requires s.Valid() && t.Valid() && ValidMove(dst, src, n)
  {
    && t.mem == s.mem
    && forall b: Bank, r: Reg :: Steady(b, r) ==> t.Get(b, r) == MovedValue(s, db, sb, dst, src, n, b, r)
  }

  // --------------------------------------------------- the one instruction

  lemma {:induction false} MoveDown(s: State, db: Bank, sb: Bank, hb: int, hc: int, n: nat, b: Bank, r: Reg)
    requires s.Valid() && Steady(b, r) && hb > hc && (n > 0 ==> hb < 64 && hc - n + 1 >= 0)
    ensures MoveLoop(s, db, sb, hb, hc, n).Get(b, r)
         == if b == db && hb - n < r <= hb && !ReadOnly(db, r) then s.Get(sb, r - hb + hc) else s.Get(b, r)
    decreases n
  {
    if n > 0 {
      var v := s.Get(sb, hc);
      MoveDown(s.Put(db, hb, v), db, sb, hb - 1, hc - 1, n - 1, b, r);
      PutGet(s, db, hb, v, b, r);
      if b == db && hb - n < r < hb { PutGet(s, db, hb, v, sb, r - hb + hc); }
    }
  }

  lemma {:induction false} MoveUp(s: State, db: Bank, sb: Bank, hb: int, hc: int, n: nat, b: Bank, r: Reg)
    requires s.Valid() && Steady(b, r) && hb <= hc && (n > 0 ==> 0 <= hb && hc + n <= 64)
    ensures MoveLoop(s, db, sb, hb, hc, n).Get(b, r)
         == if b == db && hb <= r < hb + n && !ReadOnly(db, r) then s.Get(sb, r - hb + hc) else s.Get(b, r)
    decreases n
  {
    if n > 0 {
      var v := s.Get(sb, hc);
      MoveUp(s.Put(db, hb, v), db, sb, hb + 1, hc + 1, n - 1, b, r);
      PutGet(s, db, hb, v, b, r);
      if b == db && hb < r < hb + n { PutGet(s, db, hb, v, sb, r - hb + hc); }
    }
  }

  /** The emulator's loop, which picks its direction, moves all at once. */
  lemma BlockIsParallel(s: State, db: Bank, sb: Bank, dst: nat, src: nat, n: nat)
    requires s.Valid() && ValidMove(dst, src, n)
    ensures var o := Exec(Move(db, sb, dst, src, n), s);
            o.Some? && MovedAtOnce(s, o.value, db, sb, dst, src, n)
  {
    var ml := if dst > src then MoveLoop(s, db, sb, dst + n - 1, src + n - 1, n) else MoveLoop(s, db, sb, dst, src, n);
    var t := Exec(Move(db, sb, dst, src, n), s).value;
    assert t == Next(ml);
    hide MoveLoop, Exec;
    forall b: Bank, r: Reg | Steady(b, r)
      ensures t.Get(b, r) == MovedValue(s, db, sb, dst, src, n, b, r)
    {
      if dst > src {
        MoveDown(s, db, sb, dst + n - 1, src + n - 1, n, b, r);
      } else {
        MoveUp(s, db, sb, dst, src, n, b, r);
      }
    }
  }

  // ------------------------------------------------------- the expansion

  /** One single move, as executed. */
  function MoveOne(t: State, db: Bank, sb: Bank, dst: Reg, src: Reg): State
    requires t.Valid()
  {
    Next(t.Put(db, dst, t.Get(sb, src)))
  }

  lemma ExecMoveOne(t: State, db: Bank, sb: Bank, dst: Reg, src: Reg)
    requires t.Valid()
    ensures Exec(Move(db, sb, dst, src, 1), t) == Some(MoveOne(t, db, sb, dst, src))
  {
    hide State.Put, State.Get;
  }

  /** n single moves in ascending order. */
  function Ascending(s: State, db: Bank, sb: Bank, dst: nat, src: nat, n: nat): (t: State)
    requires s.Valid() && dst + n <= 64 && src + n <= 64
    ensures t.Valid() && t.mem == s.mem
  {
    if n == 0 then s else MoveOne(Ascending(s, db, sb, dst, src, n - 1), db, sb, dst + n - 1, src + n - 1)
  }

  /** The source of the i-th register moved in ascending order: when the
      destination starts inside the source range, the registers before it
      repeat. */
  function SourceOf(db: Bank, sb: Bank, dst: nat, src: nat, i: nat): (k: nat)
    ensures k <= src + i
  {
    if db == sb && src < dst then
      SourceBound(i, dst - src);
      src + i % (dst - src)
    else src + i
  }

  lemma SourceBound(i: nat, d: nat)
    requires d > 0
    ensures i % d <= i
  {
    if i >= d {
      assert i % d < d;
    } else {
      DivMod(0, i, d);
    }
  }

  lemma Repeats(i: nat, d: nat)
    requires i >= d > 0
    ensures (i - d) % d == i % d
  {
    DivMod(i / d - 1, i % d, d);
    assert i == (i / d) * d + i % d;
    assert (i / d - 1) * d == (i / d) * d - d;
  }

  /** What n ascending single moves leave in register r of bank b. */
  function RepeatedValue(s: State, db: Bank, sb: Bank, dst: nat, src: nat, n: nat, b: Bank, r: Reg): Octa
    requires s.Valid() && dst + n <= 64 && src + n <= 64
  {
    if InRange(db, dst, n, b, r) then s.Get(sb, SourceOf(db, sb, dst, src, r - dst)) else s.Get(b, r)
  }

  /** The last of n > 1 ascending moves reads the repeated source. */
  lemma LastRead(s: State, db: Bank, sb: Bank, dst: nat, src: nat, n: nat)
    requires s.Valid() && n > 1 && dst + n <= 64 && src + n <= 64
    ensures RepeatedValue(s, db, sb, dst, src, n - 1, sb, src + n - 1) == s.Get(sb, SourceOf(db, sb, dst, src, n - 1))
  {
    hide State.Get, State.Valid;
    if db == sb && src < dst {
      if n - 1 >= dst - src {
        Repeats(n - 1, dst - src);
      } else {
        DivMod(0, n - 1, dst - src);
      }
    }
  }

  lemma {:induction false} AscendingValues(s: State, db: Bank, sb: Bank, dst: nat, src: nat, n: nat, b: Bank, r: Reg)
    requires s.Valid() && dst + n <= 64 && src + n <= 64 && Steady(b, r)
    ensures Ascending(s, db, sb, dst, src, n).Get(b, r) == RepeatedValue(s, db, sb, dst, src, n, b, r)
  {
    hide State.Get, State.Put, SourceOf, State.Valid;
    if n > 0 {
      var t := Ascending(s, db, sb, dst, src, n - 1);
      var x, y := dst + n - 1, src + n - 1;
      AscendingValues(s, db, sb, dst, src, n - 1, b, r);
      NextGet(t, db, x, t.Get(sb, y), b, r);
      if b == db && r == x {
        if n == 1 {
          FirstSource(db, sb, dst, src);
        } else {
          AscendingValues(s, db, sb, dst, src, n - 1, sb, y);
          LastRead(s, db, sb, dst, src, n);
        }
      }
    }
  }

  lemma FirstSource(db: Bank, sb: Bank, dst: nat, src: nat)
    ensures SourceOf(db, sb, dst, src, 0) == src
  {
  }

  lemma NextGet(t: State, b: Bank, r: Reg, v: Octa, b': Bank, r': Reg)
    requires t.Valid() && Steady(b', r')
    ensures Next(t.Put(b, r, v)).Get(b', r') == if b == b' && r == r' && !ReadOnly(b, r) then v else t.Get(b', r')
  {
  }

  /** The ranges do not overlap with the destination inside the source. */
  predicate Ascendable(db: Bank, sb: Bank, dst: nat, src: nat, n: nat) {
    db != sb || dst <= src || dst >= src + n
  }

  lemma AscendingIsParallel(s: State, db: Bank, sb: Bank, dst: nat, src: nat, n: nat)
    requires s.Valid() && ValidMove(dst, src, n) && Ascendable(db, sb, dst, src, n)
    ensures MovedAtOnce(s, Ascending(s, db, sb, dst, src, n), db, sb, dst, src, n)
  {
    hide State.Get, Ascending;
    var t := Ascending(s, db, sb, dst, src, n);
    forall b: Bank, r: Reg | Steady(b, r) ensures t.Get(b, r) == MovedValue(s, db, sb, dst, src, n, b, r) {
      AscendingValues(s, db, sb, dst, src, n, b, r);
      if InRange(db, dst, n, b, r) && db == sb && src < dst { DivMod(0, r - dst, dst - src); }
    }
  }

  /** A state in which every register holds its own number. */
  function Numbered(): (s: State)
    ensures s.Valid() && forall b: Bank, r: Reg :: s.Get(b, r) == r
  {
    var v := seq(64, i requires 0 <= i < 64 => NumberOf(i));
    State(v, v, v, v, map[], 0)
  }

  function NumberOf(i: nat): Octa
    requires i < 64
  {
    i
  }

  lemma OverlapRepeats(db: Bank, dst: nat, src: nat, n: nat)
    requires ValidMove(dst, src, n) && !Ascendable(db, db, dst, src, n)
    ensures !MovedAtOnce(Numbered(), Ascending(Numbered(), db, db, dst, src, n), db, db, dst, src, n)
  {
    var s, d := Numbered(), dst - src;
    hide Numbered, State.Get, Ascending;
    AscendingValues(s, db, db, dst, src, n, db, dst + d);
    DivMod(1, 0, d);
    assert SourceOf(db, db, dst, src, d) == src;
    assert Ascending(s, db, db, dst, src, n).Get(db, dst + d) == src;
    assert MovedValue(s, db, db, dst, src, n, db, dst + d) == src + d;
    assert Steady(db, dst + d);
  }

  /** The ascending single moves are the parallel move from every state exactly
      when the banks differ or the destination does not start inside the
      source range; in every case register dst + i gets the source that
      repeats with period dst - src (AscendingValues). */
  lemma ExpansionExact(db: Bank, sb: Bank, dst: nat, src: nat, n: nat)
    requires ValidMove(dst, src, n)
    ensures (forall s: State | s.Valid() :: MovedAtOnce(s, Ascending(s, db, sb, dst, src, n), db, sb, dst, src, n))
       <==> Ascendable(db, sb, dst, src, n)
  {
    hide MovedAtOnce, Ascending, State.Valid, Ascendable;
    if Ascendable(db, sb, dst, src, n) {
      forall s: State | s.Valid()
        ensures MovedAtOnce(s, Ascending(s, db, sb, dst, src, n), db, sb, dst, src, n)
      {
        AscendingIsParallel(s, db, sb, dst, src, n);
      }
    } else {
      NotAscendable(db, sb, dst, src, n);
      OverlapRepeats(db, dst, src, n);
      assert Numbered().Valid();
    }
  }

  lemma NotAscendable(db: Bank, sb: Bank, dst: nat, src: nat, n: nat)
    requires !Ascendable(db, sb, dst, src, n)
    ensures db == sb && !Ascendable(db, db, dst, src, n)
  {
  }

  // ------------------------------------------------------ emitted words

  /** major << 24 | minor << 18 | dst << 12 | src << 6 | 1 */
  function MoveWord(minor: nat, dst: nat, src: nat): nat {
    Or(Or(Or(Or(0x1000_0000, minor * 0x4_0000), dst * 0x1000), src * 64), 1)
  }

  lemma MoveWordDecodes(db: Bank, sb: Bank, dst: Reg, src: Reg)
    requires Minor(db, sb) != 0
    ensures Decode(MoveWord(Minor(db, sb), dst, src)) == Move(db, sb, dst, src, 1)
  {
    hide MoveWord, Op, FA, FB, FC, FD, Word;
    MinorFits(db, sb);
    MoveWordSum(Minor(db, sb), dst, src);
    FieldsOfWord(0x10, Minor(db, sb), dst, src, 1);
  }

  lemma MinorFits(db: Bank, sb: Bank)
    ensures Minor(db, sb) < 64
  {
  }

  lemma MoveWordSum(m: Reg, dst: Reg, src: Reg)
    ensures MoveWord(m, dst, src) == Word(0x10, m, dst, src, 1)
  {
    hide Or;
    Pow2Values();
    OrField(0x10, m * 0x4_0000, 24);
    OrField(0x10 * 64 + m, dst * 0x1000, 18);
    OrField(0x10 * 0x1000 + m * 64 + dst, src * 64, 12);
    OrField(0x10 * 0x4_0000 + m * 0x1000 + dst * 64 + src, 1, 6);
  }

  function BankBase(b: Bank): nat { match b case RD => 0 case RB => 64 case RF => 128 case RA => 192 }

  /** The bank's registers, as the symbol table numbers them, come back as 0..63. */
  lemma OperandNumber(b: Bank, r: Reg)
    ensures var c := match b
                     case RD => OpcodeTable.ClassRd
                     case RB => OpcodeTable.ClassRb
                     case RF => OpcodeTable.ClassRf
                     case RA => OpcodeTable.ClassRa;
            OpcodeTable.RegisterSymbol(c, r) - BankBase(b) == r
  {
  }

  function MoveCode(minor: nat, dst: nat, src: nat, n: nat): seq<nat> {
    if n == 0 then [] else MoveCode(minor, dst, src, n - 1) + [MoveWord(minor, dst + n - 1, src + n - 1)]
  }

  /** The rd2rd part of the multiple-to-single assembly: register numbers carry
      their bank and are brought back to 0..63 first.  The first word is
      emitted whatever the count is. */
  method MoveToSingle(frag: CodeFrag, db: Bank, sb: Bank, exp0: nat, exp1: nat, n: nat)
    requires Minor(db, sb) != 0 && exp0 >= BankBase(db) && exp1 >= BankBase(sb)
    modifies frag
    ensures frag.code == old(frag.code)
              + MoveCode(Minor(db, sb), exp0 - BankBase(db), exp1 - BankBase(sb), if n == 0 then 1 else n)
  {
    hide Or, MoveWord;
    var dst, src := exp0, exp1;
    if db == RB { dst := dst - 64; }
    if db == RF { dst := dst - 128; }
    if db == RA { dst := dst - 192; }
    if sb == RB { src := src - 64; }
    if sb == RF { src := src - 128; }
    if sb == RA { src := src - 192; }
    var minor := Minor(db, sb);
    frag.Emit(MoveWord(minor, dst, src));
    assert MoveCode(minor, dst, src, 1) == [MoveWord(minor, dst, src)];
    var i := 1;
    while i < n
      invariant 1 <= i && (n > 0 ==> i <= n) && (n == 0 ==> i == 1)
      invariant frag.code == old(frag.code) + MoveCode(minor, dst, src, i)
    {
      frag.Emit(MoveWord(minor, dst + i, src + i));
      i := i + 1;
    }
  }

  /** The emitted words are the ascending single moves. */
  lemma {:induction false} MoveCodeRuns(s: State, db: Bank, sb: Bank, dst: nat, src: nat, n: nat)
    requires s.Valid() && dst + n <= 64 && src + n <= 64 && Minor(db, sb) != 0
    ensures Run(MoveCode(Minor(db, sb), dst, src, n), s) == Some(Ascending(s, db, sb, dst, src, n))
  {
    hide Decode, Exec, MoveWord, MoveOne;
    if n > 0 {
      var w := MoveWord(Minor(db, sb), dst + n - 1, src + n - 1);
      MoveCodeRuns(s, db, sb, dst, src, n - 1);
      var t := Ascending(s, db, sb, dst, src, n - 1);
      MoveWordDecodes(db, sb, dst + n - 1, src + n - 1);
      ExecMoveOne(t, db, sb, dst + n - 1, src + n - 1);
      RunOne(w, t);
      RunAppend(MoveCode(Minor(db, sb), dst, src, n - 1), [w], s);
    }
  }

  /** Running the emitted words on s moves n registers all at once. */
  ghost predicate CodeMoves(s: State, db: Bank, sb: Bank, dst: nat, src: nat, n: nat)
    requires s.Valid() && ValidMove(dst, src, n)
  {
    var o := Run(MoveCode(Minor(db, sb), dst, src, n), s);
    o.Some? && o.value.Valid() && MovedAtOnce(s, o.value, db, sb, dst, src, n)
  }

  /** The emitted words do what the one instruction does from every state
      exactly when the banks differ or the destination does not start inside
      the source range. */
  lemma MoveCodeExactly(db: Bank, sb: Bank, dst: nat, src: nat, n: nat)
    requires ValidMove(dst, src, n) && Minor(db, sb) != 0
    ensures (forall s: State | s.Valid() :: CodeMoves(s, db, sb, dst, src, n)) <==> Ascendable(db, sb, dst, src, n)
  {
    hide MovedAtOnce, Ascending, State.Valid, Ascendable, Run, MoveCode, Minor;
    forall s: State | s.Valid()
      ensures CodeMoves(s, db, sb, dst, src, n)
         <==> MovedAtOnce(s, Ascending(s, db, sb, dst, src, n), db, sb, dst, src, n)
    {
      MoveCodeRuns(s, db, sb, dst, src, n);
    }
    ExpansionExact(db, sb, dst, src, n);
  }
}

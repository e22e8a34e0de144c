/** Branch relaxation in the assembler: frags grow until the layout settles,
    and what the settled layout means for the branches. */
module Relax {
  import opened Bits
  import opened Machine
  import opened Branch

  datatype Kind = Brcc | Brcc12 | Abs | Plain

  /** One frag: its fixed bytes, and for a branch the symbol it refers to, as a
      frag number and a position among that frag's fixed bytes. */
  datatype Frag = Frag(kind: Kind, fix: nat, target: nat, symOff: nat)

  predicate IsBrcc(f: Frag) { f.kind == Brcc || f.kind == Brcc12 }

  /** The frags of one section with symbols of the same section. */
  predicate WellFormed(frags: seq<Frag>) {
    forall i :: 0 <= i < |frags| ==>
      && frags[i].target < |frags|
      && frags[i].symOff <= frags[frags[i].target].fix
  }

  /** fr_var of every frag. */
  predicate Fits(frags: seq<Frag>, vars: seq<nat>) { |vars| == |frags| }

  /** The size of the frags lo, ..., hi - 1. */
  function Size(frags: seq<Frag>, vars: seq<nat>, lo: nat, hi: nat): nat
    requires Fits(frags, vars) && lo <= hi <= |frags|
    decreases hi - lo
  {
    if lo == hi then 0 else frags[lo].fix + vars[lo] + Size(frags, vars, lo + 1, hi)
  }

  function Address(frags: seq<Frag>, vars: seq<nat>, i: nat): nat
    requires Fits(frags, vars) && i <= |frags|
  {
    Size(frags, vars, 0, i)
  }

  /** The address of the symbol minus fr_address. */
  function Distance(frags: seq<Frag>, vars: seq<nat>, i: nat): int
    requires WellFormed(frags) && Fits(frags, vars) && i < |frags|
  {
    Address(frags, vars, frags[i].target) + frags[i].symOff - Address(frags, vars, i)
  }

  /** Division of the C language. */
  function TruncDiv4(x: int): int { if x >= 0 then x / 4 else -(-x / 4) }

  /** relaxed_branch_length on a displacement. */
  function LengthFor(kind: Kind, val: int): nat {
    if kind != Brcc && kind != Brcc12 then 0
    else
      var range := if kind == Brcc then 0x4_0000 else 0x1000;
      if TruncDiv4(val) + range / 2 >= range && val > 0 then 4
      else if -TruncDiv4(val) + range / 2 > range && val < 0 then 4
      else 0
  }

  function BranchLength(frags: seq<Frag>, vars: seq<nat>, i: nat): nat
    requires WellFormed(frags) && Fits(frags, vars) && i < |frags|
  {
    LengthFor(frags[i].kind, Distance(frags, vars, i))
  }

  /** What dadao_relax_frag makes fr_var: only the 12-bit branches are measured
      again, and an address load takes its three further words. */
  function NewVar(frags: seq<Frag>, vars: seq<nat>, i: nat): nat
    requires WellFormed(frags) && Fits(frags, vars) && i < |frags|
  {
    match frags[i].kind
    case Brcc12 => BranchLength(frags, vars, i)
    case Abs => 12
    case _ => vars[i]
  }

  predicate Stable(frags: seq<Frag>, vars: seq<nat>) {
    WellFormed(frags) && Fits(frags, vars) && forall i :: 0 <= i < |frags| ==> NewVar(frags, vars, i) == vars[i]
  }

  predicate Below(a: seq<nat>, b: seq<nat>) {
    |a| == |b| && forall i :: 0 <= i < |a| ==> a[i] <= b[i]
  }

  /** Layouts from which relaxing never has to take anything back. */
  predicate Growing(frags: seq<Frag>, vars: seq<nat>) {
    WellFormed(frags) && Fits(frags, vars) && forall i :: 0 <= i < |frags| ==> vars[i] <= NewVar(frags, vars, i)
  }

  /** Layouts that already have room for everything they need. */
  predicate Roomy(frags: seq<Frag>, vars: seq<nat>) {
    WellFormed(frags) && Fits(frags, vars) && forall i :: 0 <= i < |frags| ==> NewVar(frags, vars, i) <= vars[i]
  }

  /** Before relaxing: zero, except for the initial estimates of the 18-bit
      branches, which stay as they are. */
  predicate Start(frags: seq<Frag>, vars: seq<nat>) {
    Fits(frags, vars) && forall i :: 0 <= i < |frags| && frags[i].kind != Brcc ==> vars[i] == 0
  }

  // --------------------------------------------------------- monotonicity

  lemma {:induction false} SizeGrows(frags: seq<Frag>, a: seq<nat>, b: seq<nat>, lo: nat, hi: nat)
    requires Fits(frags, a) && Below(a, b) && lo <= hi <= |frags|
    ensures Size(frags, a, lo, hi) <= Size(frags, b, lo, hi)
    decreases hi - lo
  {
    if lo < hi { SizeGrows(frags, a, b, lo + 1, hi); }
  }

  lemma {:induction false} SizeSplit(frags: seq<Frag>, vars: seq<nat>, lo: nat, mid: nat, hi: nat)
    requires Fits(frags, vars) && lo <= mid <= hi <= |frags|
    ensures Size(frags, vars, lo, hi) == Size(frags, vars, lo, mid) + Size(frags, vars, mid, hi)
    decreases mid - lo
  {
    if lo < mid { SizeSplit(frags, vars, lo + 1, mid, hi); }
  }

  /** A distance is the size of what lies between, forward or backward. */
  lemma DistanceBetween(frags: seq<Frag>, vars: seq<nat>, i: nat)
    requires WellFormed(frags) && Fits(frags, vars) && i < |frags|
    ensures var t := frags[i].target;
            if i <= t then Distance(frags, vars, i) == Size(frags, vars, i, t) + frags[i].symOff
            else Distance(frags, vars, i) == frags[i].symOff - Size(frags, vars, t, i) <= 0
  {
    var t := frags[i].target;
    if i <= t {
      SizeSplit(frags, vars, 0, i, t);
    } else {
      SizeSplit(frags, vars, 0, t, i);
    }
  }

  /** A larger layout needs at least as long branches. */
  lemma NewVarGrows(frags: seq<Frag>, a: seq<nat>, b: seq<nat>, i: nat)
    requires WellFormed(frags) && Fits(frags, a) && Below(a, b) && i < |frags|
    ensures NewVar(frags, a, i) <= NewVar(frags, b, i)
  {
    var t := frags[i].target;
    DistanceBetween(frags, a, i);
    DistanceBetween(frags, b, i);
    if i <= t { SizeGrows(frags, a, b, i, t); } else { SizeGrows(frags, a, b, t, i); }
    hide Distance, Size;
  }

  // ----------------------------------------------------------- relaxation

  function RelaxOne(frags: seq<Frag>, vars: seq<nat>, i: nat): (r: seq<nat>)
    requires WellFormed(frags) && Fits(frags, vars) && i < |frags|
    ensures Fits(frags, r)
  {
    vars[i := NewVar(frags, vars, i)]
  }

  predicate ValidOrder(frags: seq<Frag>, order: seq<nat>) {
    forall k :: 0 <= k < |order| ==> order[k] < |frags|
  }

  /** dadao_relax_frag applied to the frags of `order`, one after the other. */
  function RelaxAll(frags: seq<Frag>, vars: seq<nat>, order: seq<nat>): (r: seq<nat>)
    requires WellFormed(frags) && Fits(frags, vars) && ValidOrder(frags, order)
    ensures Fits(frags, r)
    decreases |order|
  {
    if order == [] then vars else RelaxAll(frags, RelaxOne(frags, vars, order[0]), order[1..])
  }

  lemma OneGrows(frags: seq<Frag>, vars: seq<nat>, i: nat)
    requires Growing(frags, vars) && i < |frags|
    ensures Below(vars, RelaxOne(frags, vars, i)) && Growing(frags, RelaxOne(frags, vars, i))
  {
    var r := RelaxOne(frags, vars, i);
    assert Below(vars, r);
    forall j | 0 <= j < |frags| ensures r[j] <= NewVar(frags, r, j) {
      NewVarGrows(frags, vars, r, j);
    }
  }

  lemma OneBelow(frags: seq<Frag>, vars: seq<nat>, i: nat, roomy: seq<nat>)
    requires Roomy(frags, roomy) && Fits(frags, vars) && Below(vars, roomy) && i < |frags|
    ensures Below(RelaxOne(frags, vars, i), roomy)
  {
    NewVarGrows(frags, vars, roomy, i);
    hide NewVar;
  }

  /** The only values fr_var takes when it starts at zero. */
  predicate Sizes(frags: seq<Frag>, start: seq<nat>, vars: seq<nat>) {
    && Fits(frags, start) && Fits(frags, vars)
    && forall i :: 0 <= i < |frags| ==>
         match frags[i].kind
         case Brcc12 => vars[i] == 0 || vars[i] == 4
         case Abs => vars[i] == 0 || vars[i] == 12
         case _ => vars[i] == start[i]
  }

  /** Any order of relaxing: nothing shrinks, and everything stays within every
      layout that has room. */
  lemma {:induction false} AllGrow(frags: seq<Frag>, vars: seq<nat>, order: seq<nat>)
    requires Growing(frags, vars) && ValidOrder(frags, order)
    ensures Below(vars, RelaxAll(frags, vars, order)) && Growing(frags, RelaxAll(frags, vars, order))
    decreases |order|
  {
    if order != [] {
      OneGrows(frags, vars, order[0]);
      hide NewVar, Growing;
      AllGrow(frags, RelaxOne(frags, vars, order[0]), order[1..]);
    }
  }

  lemma {:induction false} AllBelow(frags: seq<Frag>, vars: seq<nat>, order: seq<nat>, roomy: seq<nat>)
    requires Roomy(frags, roomy) && Fits(frags, vars) && Below(vars, roomy) && ValidOrder(frags, order)
    ensures Below(RelaxAll(frags, vars, order), roomy)
    decreases |order|
  {
    if order != [] {
      OneBelow(frags, vars, order[0], roomy);
      hide NewVar;
      AllBelow(frags, RelaxOne(frags, vars, order[0]), order[1..], roomy);
    }
  }

  lemma StartGrows(frags: seq<Frag>, vars: seq<nat>)
    requires WellFormed(frags) && Start(frags, vars)
    ensures Growing(frags, vars)
  {
  }

  lemma {:induction false} AllSizes(frags: seq<Frag>, start: seq<nat>, vars: seq<nat>, order: seq<nat>)
    requires WellFormed(frags) && Sizes(frags, start, vars) && ValidOrder(frags, order)
    ensures Sizes(frags, start, RelaxAll(frags, vars, order))
    decreases |order|
  {
    hide Distance;
    if order != [] { AllSizes(frags, start, RelaxOne(frags, vars, order[0]), order[1..]); }
  }

  lemma {:induction false} AllConcat(frags: seq<Frag>, vars: seq<nat>, a: seq<nat>, b: seq<nat>)
    requires WellFormed(frags) && Fits(frags, vars) && ValidOrder(frags, a) && ValidOrder(frags, b)
    ensures ValidOrder(frags, a + b)
    ensures RelaxAll(frags, vars, a + b) == RelaxAll(frags, RelaxAll(frags, vars, a), b)
    decreases |a|
  {
    hide NewVar;
    if a == [] {
      assert a + b == b;
    } else {
      assert (a + b)[1..] == a[1..] + b;
      AllConcat(frags, RelaxOne(frags, vars, a[0]), a[1..], b);
    }
  }

  lemma RelaxNone(frags: seq<Frag>, vars: seq<nat>)
    requires WellFormed(frags) && Fits(frags, vars)
    ensures RelaxAll(frags, vars, []) == vars
  {
  }

  lemma RelaxSingle(frags: seq<Frag>, vars: seq<nat>, i: nat)
    requires WellFormed(frags) && Fits(frags, vars) && i < |frags|
    ensures RelaxAll(frags, vars, [i]) == RelaxOne(frags, vars, i)
  {
    assert [i][1..] == [];
  }

  /** Along any run no frag shrinks, and a frag that has grown keeps its size. */
  lemma GrowsAtMostOnce(frags: seq<Frag>, start: seq<nat>, before: seq<nat>, after: seq<nat>, i: nat)
    requires WellFormed(frags) && Start(frags, start) && i < |frags|
    requires ValidOrder(frags, before) && ValidOrder(frags, after)
    ensures ValidOrder(frags, before + after)
    ensures start[i] <= RelaxAll(frags, start, before)[i] <= RelaxAll(frags, start, before + after)[i]
    ensures RelaxAll(frags, start, before)[i] != start[i] ==>
              RelaxAll(frags, start, before + after)[i] == RelaxAll(frags, start, before)[i]
  {
    hide RelaxAll, NewVar;
    StartGrows(frags, start);
    assert Sizes(frags, start, start);
    AllConcat(frags, start, before, after);
    AllGrow(frags, start, before);
    AllGrow(frags, RelaxAll(frags, start, before), after);
    AllSizes(frags, start, start, before);
    AllSizes(frags, start, RelaxAll(frags, start, before), after);
  }

  /** A stable outcome is the least layout with room for everything. */
  lemma RelaxedIsLeast(frags: seq<Frag>, start: seq<nat>, order: seq<nat>)
    requires WellFormed(frags) && Start(frags, start) && ValidOrder(frags, order)
    requires Stable(frags, RelaxAll(frags, start, order))
    ensures Roomy(frags, RelaxAll(frags, start, order)) && Below(start, RelaxAll(frags, start, order))
    ensures forall roomy :: Roomy(frags, roomy) && Below(start, roomy) ==> Below(RelaxAll(frags, start, order), roomy)
  {
    StartGrows(frags, start);
    AllGrow(frags, start, order);
    hide NewVar, RelaxAll;
    forall roomy | Roomy(frags, roomy) && Below(start, roomy)
      ensures Below(RelaxAll(frags, start, order), roomy)
    {
      AllBelow(frags, start, order, roomy);
    }
  }

  /** The order of relaxing does not matter: all stable outcomes are equal. */
  lemma OrderIrrelevant(frags: seq<Frag>, start: seq<nat>, order: seq<nat>, order': seq<nat>)
    requires WellFormed(frags) && Start(frags, start) && ValidOrder(frags, order) && ValidOrder(frags, order')
    requires Stable(frags, RelaxAll(frags, start, order)) && Stable(frags, RelaxAll(frags, start, order'))
    ensures RelaxAll(frags, start, order) == RelaxAll(frags, start, order')
  {
    RelaxedIsLeast(frags, start, order);
    RelaxedIsLeast(frags, start, order');
    hide RelaxAll, Roomy, Stable;
  }

  // --------------------------------------------------- the assembler's loop

  /** How much the frags can still grow. */
  function Slack(frags: seq<Frag>, vars: seq<nat>, i: nat): nat
    requires Fits(frags, vars) && i <= |frags|
    decreases |frags| - i
  {
    if i == |frags| then 0
    else (if frags[i].kind == Brcc12 && vars[i] < 4 then 1
          else if frags[i].kind == Abs && vars[i] < 12 then 1 else 0) + Slack(frags, vars, i + 1)
  }

  lemma {:induction false} SlackShrinks(frags: seq<Frag>, a: seq<nat>, b: seq<nat>, i: nat, lo: nat)
    requires Fits(frags, a) && Fits(frags, b) && lo <= |frags| && i < |frags|
    requires b == a[i := b[i]]
    requires (frags[i].kind == Brcc12 && a[i] < 4 && b[i] == 4) || (frags[i].kind == Abs && a[i] < 12 && b[i] == 12)
    ensures Slack(frags, b, lo) == Slack(frags, a, lo) - (if lo <= i then 1 else 0)
    decreases |frags| - lo
  {
    if lo < |frags| { SlackShrinks(frags, a, b, i, lo + 1); }
  }

  lemma OneSlack(frags: seq<Frag>, vars: seq<nat>, i: nat)
    requires Growing(frags, vars) && i < |frags| && NewVar(frags, vars, i) != vars[i]
    ensures Slack(frags, RelaxOne(frags, vars, i), 0) < Slack(frags, vars, 0)
  {
    hide Distance, Slack;
    SlackShrinks(frags, vars, RelaxOne(frags, vars, i), i, 0);
  }

  class Section {
    const frags: seq<Frag>
    var frVar: seq<nat>

    ghost predicate Valid()
      reads this
    {
      |frVar| == |frags| && WellFormed(frags) && Growing(frags, frVar)
    }

    constructor (frags: seq<Frag>, start: seq<nat>)
      requires WellFormed(frags) && Start(frags, start)
      ensures Valid() && this.frags == frags && frVar == start
    {
      this.frags := frags;
      frVar := start;
      new;
      StartGrows(frags, start);
    }

    /** dadao_relax_frag; the result is the growth. */
    method RelaxFrag(i: nat) returns (growth: int)
      requires Valid() && i < |frags|
      modifies this`frVar
      ensures Valid() && frVar == RelaxOne(frags, old(frVar), i)
      ensures growth == frVar[i] - old(frVar[i])
    {
      OneGrows(frags, frVar, i);
      growth := 0;
      if frags[i].kind == Brcc12 {
        var was := frVar[i];
        frVar := frVar[i := BranchLength(frags, frVar, i)];
        growth := frVar[i] - was;
      } else if frags[i].kind == Abs {
        var was := frVar[i];
        frVar := frVar[i := 12];
        growth := frVar[i] - was;
      }
    }

    /** The driver: passes over all frags until a pass grows nothing. */
    method Relax() returns (ghost order: seq<nat>)
      requires Valid()
      modifies this`frVar
      ensures Valid() && ValidOrder(frags, order)
      ensures frVar == RelaxAll(frags, old(frVar), order) && Stable(frags, frVar)
    {
      hide Distance, RelaxAll, LengthFor, Slack, Growing, NewVar;
      order := [];
      ghost var start := frVar;
      RelaxNone(frags, start);
      var grown := true;
      while grown
        invariant Valid() && ValidOrder(frags, order) && Fits(frags, start)
        invariant frVar == RelaxAll(frags, start, order)
        invariant !grown ==> Stable(frags, frVar)
        decreases Slack(frags, frVar, 0), if grown then 1 else 0
      {
        ghost var pass := frVar;
        grown := false;
        for i := 0 to |frags|
          invariant Valid() && ValidOrder(frags, order)
          invariant frVar == RelaxAll(frags, start, order)
          invariant if grown then Slack(frags, frVar, 0) < Slack(frags, pass, 0) else frVar == pass
          invariant !grown ==> forall j :: 0 <= j < i ==> NewVar(frags, frVar, j) == frVar[j]
        {
          ghost var was := frVar;
          var growth := RelaxFrag(i);
          AllConcat(frags, start, order, [i]);
          RelaxSingle(frags, was, i);
          order := order + [i];
          if growth != 0 {
            OneSlack(frags, was, i);
            grown := true;
          } else {
            assert frVar == was;
          }
        }
      }
    }
  }

  // ------------------------------------------------- what the layout means

  /** The displacement md_convert_frag writes: from the frag's last fixed word. */
  function OpcodeDistance(frags: seq<Frag>, vars: seq<nat>, i: nat): int
    requires WellFormed(frags) && Fits(frags, vars) && i < |frags|
  {
    Distance(frags, vars, i) - (frags[i].fix - 4)
  }

  predicate InField(kind: Kind, disp: int) {
    if kind == Brcc then -0x2_0000 <= disp / 4 < 0x2_0000 else -0x800 <= disp / 4 < 0x800
  }

  /** The measure in numbers, for every distance; on aligned ones it is the
      field test. */
  lemma LengthIsRange(kind: Kind, val: int)
    requires kind == Brcc || kind == Brcc12
    ensures LengthFor(kind, val) ==
              if kind == Brcc then (if -0x8_0004 < val < 0x8_0000 then 0 else 4)
              else if -0x2004 < val < 0x2000 then 0 else 4
    ensures val % 4 == 0 ==> LengthFor(kind, val) == if InField(kind, val) then 0 else 4
  {
  }

  /** What a settled layout gives each frag, in numbers: 12-bit branches by their
      distance, address loads three words more, everything else as estimated. */
  lemma {:induction false} SettledSizes(frags: seq<Frag>, start: seq<nat>, order: seq<nat>, i: nat)
    requires WellFormed(frags) && Start(frags, start) && ValidOrder(frags, order) && i < |frags|
    requires Stable(frags, RelaxAll(frags, start, order))
    ensures var vars := RelaxAll(frags, start, order);
            vars[i] == match frags[i].kind
                       case Brcc12 => if -0x2004 < Distance(frags, vars, i) < 0x2000 then 0 else 4
                       case Abs => 12
                       case _ => start[i]
  {
    var vars := RelaxAll(frags, start, order);
    assert NewVar(frags, vars, i) == vars[i];
    hide RelaxAll, Distance;
    assert Sizes(frags, start, start);
    AllSizes(frags, start, start, order);
    if frags[i].kind == Brcc12 { LengthIsRange(Brcc12, Distance(frags, vars, i)); }
  }

  predicate Aligned(frags: seq<Frag>) {
    forall i :: 0 <= i < |frags| ==> frags[i].fix % 4 == 0 && frags[i].symOff % 4 == 0
  }

  lemma {:induction false} SizeAligned(frags: seq<Frag>, vars: seq<nat>, lo: nat, hi: nat)
    requires Fits(frags, vars) && Aligned(frags) && lo <= hi <= |frags|
    requires forall i :: 0 <= i < |vars| ==> vars[i] % 4 == 0
    ensures Size(frags, vars, lo, hi) % 4 == 0
    decreases hi - lo
  {
    if lo < hi {
      SizeAligned(frags, vars, lo + 1, hi);
      assert frags[lo].fix % 4 == 0 && vars[lo] % 4 == 0;
    }
  }

  lemma DistanceAligned(frags: seq<Frag>, vars: seq<nat>, i: nat)
    requires WellFormed(frags) && Fits(frags, vars) && Aligned(frags) && i < |frags|
    requires forall i :: 0 <= i < |vars| ==> vars[i] % 4 == 0
    ensures Distance(frags, vars, i) % 4 == 0
  {
    hide Size;
    SizeAligned(frags, vars, 0, i);
    SizeAligned(frags, vars, 0, frags[i].target);
    SumAligned(Address(frags, vars, frags[i].target), frags[i].symOff, Address(frags, vars, i));
  }

  lemma SumAligned(a: int, b: int, c: int)
    requires a % 4 == 0 && b % 4 == 0 && c % 4 == 0
    ensures (a + b - c) % 4 == 0
  {
  }

  /** In a stable layout every 12-bit branch left short fits its field. */
  lemma ShortBranchesFit(frags: seq<Frag>, vars: seq<nat>, i: nat)
    requires Stable(frags, vars) && Aligned(frags) && i < |frags| && frags[i].kind == Brcc12
    requires forall i :: 0 <= i < |vars| ==> vars[i] % 4 == 0
    ensures vars[i] == (if InField(Brcc12, Distance(frags, vars, i)) then 0 else 4)
  {
    assert NewVar(frags, vars, i) == vars[i];
    DistanceAligned(frags, vars, i);
    LengthIsRange(Brcc12, Distance(frags, vars, i));
    hide Distance, Aligned;
  }

  /** Where the branch of frag i goes when it is taken, and else. */
  function Wanted(frags: seq<Frag>, vars: seq<nat>, i: nat, base: Octa, taken: bool): Octa
    requires WellFormed(frags) && Fits(frags, vars) && i < |frags|
  {
    if taken then Wrap(base + Address(frags, vars, frags[i].target) + frags[i].symOff)
    else Wrap(base + Address(frags, vars, i + 1))
  }

  /** The branch of frag i, placed at the end of its fixed part. */
  predicate Placed(frags: seq<Frag>, vars: seq<nat>, i: nat, base: Octa, w: nat, s: State) {
    && WellFormed(frags) && Fits(frags, vars) && i < |frags| && IsBrcc(frags[i]) && frags[i].fix >= 4
    && FreshBranch(w) && BranchBits(w) == (if frags[i].kind == Brcc then 18 else 12)
    && s.Valid() && s.pc == Wrap(base + Address(frags, vars, i) + frags[i].fix - 4)
  }

  lemma {:induction false} AddressNext(frags: seq<Frag>, vars: seq<nat>, i: nat)
    requires Fits(frags, vars) && i < |frags|
    ensures Address(frags, vars, i + 1) == Address(frags, vars, i) + frags[i].fix + vars[i]
  {
    SizeSplit(frags, vars, 0, i, i + 1);
  }

  lemma WrapApart(x: int)
    ensures Wrap(x) != Wrap(x + 4)
  {
  }

  /** Running a branch frag's code. */
  function Outcome(w: nat, disp: int, frVar: nat, frFix: nat, s: State): Option<State>
    requires IsBranch(w) && s.Valid()
  {
    var code := BranchCode(w, disp, frVar, frFix);
    RunFrom(code, s.pc, s, |code|)
  }

  lemma OutcomeOfCode(w: nat, disp: int, frVar: nat, frFix: nat, s: State)
    requires FreshBranch(w) && s.Valid() && Convertible(w, disp, frVar, frFix)
    ensures var o := Outcome(w, disp, frVar, frFix, s);
            && o.Some? && o.value == s.(pc := o.value.pc)
            && (TakesLong(frVar, frFix) ==>
                  if Taken(w, s) then o.value.pc == Wrap(s.pc + disp) <==> JumpReach(disp)
                  else o.value.pc == Wrap(s.pc + 8))
            && (!TakesLong(frVar, frFix) ==>
                  if Taken(w, s) then o.value.pc == Wrap(s.pc + disp) <==> InField(if BranchBits(w) == 18 then Brcc else Brcc12, disp)
                  else o.value.pc == Wrap(s.pc + 4))
  {
    Pow2Values();
    ConvertibleExactly(w, disp, frVar, frFix);
    hide FreshBranch, Taken, RunFrom, Pow2, JumpReach, Wrap, Accepted, Convertible;
    if TakesLong(frVar, frFix) {
      LongForm(w, disp, s);
    } else {
      ShortForm(w, disp, s);
    }
  }

  /** Exactly when the code of a branch frag does what the branch means.  Taken:
      the displacement fits the jump (long form) or the field (short form).
      Not taken: the form has the length that the layout gave the frag. */
  lemma FinalBranch(frags: seq<Frag>, vars: seq<nat>, i: nat, base: Octa, w: nat, s: State)
    requires Placed(frags, vars, i, base, w, s) && (vars[i] == 0 || vars[i] == 4)
    requires IsBranch(w) && Convertible(w, OpcodeDistance(frags, vars, i), vars[i], frags[i].fix)
    ensures var disp := OpcodeDistance(frags, vars, i);
            var o := Outcome(w, disp, vars[i], frags[i].fix, s);
            && o.Some? && o.value == s.(pc := o.value.pc)
            && (o.value.pc == Wanted(frags, vars, i, base, Taken(w, s)) <==>
                  if vars[i] == 4 && frags[i].fix == 4 then !Taken(w, s) || JumpReach(disp)
                  else if Taken(w, s) then InField(frags[i].kind, disp)
                  else vars[i] == 0)
  {
    hide FreshBranch, Taken, RunFrom, Pow2, JumpReach, Wrap, Outcome, Size, InField, BranchBits, Convertible;
    var disp := OpcodeDistance(frags, vars, i);
    var here := base + Address(frags, vars, i) + frags[i].fix - 4;
    AddressNext(frags, vars, i);
    OutcomeOfCode(w, disp, vars[i], frags[i].fix, s);
    WrapAdd(here, disp);
    WrapAdd(here, 8);
    WrapAdd(here, 4);
    WrapApart(here + 4);
    hide Address;
  }

  /** A displacement that fits the field, or that the jump reaches, converts. */
  lemma FittingConverts(w: nat, kind: Kind, disp: int, frVar: nat, frFix: nat)
    requires FreshBranch(w) && BranchBits(w) == (if kind == Brcc then 18 else 12) && disp % 4 == 0
    requires if frVar == 4 && frFix == 4 then JumpReach(disp) else InField(kind, disp)
    ensures Convertible(w, disp, frVar, frFix)
  {
    hide Pow2;
  }

  /** In a stable layout of aligned frags, every 12-bit branch that is alone in
      its fixed part converts if its target is within 64 MiB, and then does what
      it means from every state, short or long, except for a taken one whose
      target the jump does not reach. */
  lemma RelaxedBranchWorks(frags: seq<Frag>, vars: seq<nat>, i: nat, base: Octa, w: nat, s: State)
    requires Stable(frags, vars) && Aligned(frags) && Placed(frags, vars, i, base, w, s)
    requires frags[i].kind == Brcc12 && frags[i].fix == 4
    requires forall i :: 0 <= i < |vars| ==> vars[i] % 4 == 0
    requires -0x400_0000 <= Distance(frags, vars, i) - 4 < 0x400_0000
    ensures IsBranch(w) && Convertible(w, Distance(frags, vars, i), vars[i], 4)
    ensures var disp := Distance(frags, vars, i);
            Outcome(w, disp, vars[i], 4, s) == Some(s.(pc := Wanted(frags, vars, i, base, Taken(w, s))))
            <==> !Taken(w, s) || JumpReach(disp)
  {
    hide Distance, Outcome, Wanted, Taken, Stable, Aligned, Pow2, InField, Accepted, FreshBranch, JumpReach, Convertible;
    ShortBranchesFit(frags, vars, i);
    StableShape(frags, vars, i);
    FreshField(w);
    var disp := Distance(frags, vars, i);
    if InField(Brcc12, disp) {
      FieldInReach(disp);
      FittingConverts(w, Brcc12, disp, vars[i], 4);
    } else {
      LongConverts(w, disp);
    }
    FinalBranch(frags, vars, i, base, w, s);
  }

  lemma LongConverts(w: nat, disp: int)
    requires disp % 4 == 0 && -0x400_0000 <= disp - 4 < 0x400_0000
    ensures Convertible(w, disp, 4, 4)
  {
  }

  lemma StableShape(frags: seq<Frag>, vars: seq<nat>, i: nat)
    requires Stable(frags, vars) && Aligned(frags) && i < |frags|
    requires forall i :: 0 <= i < |vars| ==> vars[i] % 4 == 0
    ensures Fits(frags, vars) && Distance(frags, vars, i) % 4 == 0
  {
    DistanceAligned(frags, vars, i);
  }

  lemma FieldInReach(disp: int)
    requires InField(Brcc12, disp) && disp % 4 == 0
    ensures JumpReach(disp)
  {
  }

  // -------------------------------------------- where the layout falls short

  /** The 18-bit branches keep their initial estimate, so a stable layout can
      leave one short that is out of reach: here an address load grows between
      the branch and its target, and the assembler accepts the displacement
      although it does not fit the field. */
  lemma StaleEstimate(frags: seq<Frag>)
    requires frags == [Frag(Brcc, 4, 2, 0), Frag(Abs, 4 * 0x1_FFFE, 0, 0), Frag(Plain, 4, 0, 0)]
    ensures WellFormed(frags) && Start(frags, [0, 0, 0]) && BranchLength(frags, [0, 0, 0], 0) == 0
    ensures RelaxAll(frags, [0, 0, 0], [1]) == [0, 12, 0] && Stable(frags, [0, 12, 0])
    ensures var disp := OpcodeDistance(frags, [0, 12, 0], 0);
            Accepted(disp, 18, true) && !InField(Brcc, disp) && BranchLength(frags, [0, 12, 0], 0) == 4
  {
    hide Distance;
    StaleDistances(frags, 0);
    StaleDistances(frags, 12);
    FarValues();
    RelaxSingle(frags, [0, 0, 0], 1);
    assert [0, 0, 0][1 := 12] == [0, 12, 0];
    hide RelaxAll, Accepted, InField, LengthFor;
  }

  lemma StaleDistances(frags: seq<Frag>, v: nat)
    requires frags == [Frag(Brcc, 4, 2, 0), Frag(Abs, 4 * 0x1_FFFE, 0, 0), Frag(Plain, 4, 0, 0)]
    ensures WellFormed(frags) && Distance(frags, [0, v, 0], 0) == 4 * 0x1_FFFF + v
  {
    assert WellFormed(frags);
    Sizes3(frags, v);
    hide Size;
  }

  lemma FarValues()
    ensures Accepted(4 * 0x2_0002, 18, true) && !InField(Brcc, 4 * 0x2_0002)
    ensures LengthFor(Brcc, 4 * 0x1_FFFF) == 0 && LengthFor(Brcc, 4 * 0x2_0002) == 4
    ensures Accepted(-0x2004, 12, true) && !InField(Brcc12, -0x2004) && LengthFor(Brcc12, -0x2000) == 0
  {
    Pow2Values();
    hide Pow2;
  }

  lemma Sizes3(frags: seq<Frag>, v: nat)
    requires |frags| == 3
    ensures Size(frags, [0, v, 0], 0, 0) == 0
    ensures Size(frags, [0, v, 0], 0, 1) == frags[0].fix
    ensures Size(frags, [0, v, 0], 0, 2) == frags[0].fix + frags[1].fix + v
  {
    assert Size(frags, [0, v, 0], 2, 2) == 0 && Size(frags, [0, v, 0], 1, 1) == 0;
    assert Size(frags, [0, v, 0], 1, 2) == frags[1].fix + v;
  }

  /** With another instruction before it in its frag, a backward branch is
      measured from the frag's start: the stable layout leaves it short while
      its own displacement, still accepted, does not fit the field. */
  lemma MeasuredFromFrag(frags: seq<Frag>)
    requires frags == [Frag(Plain, 0x2000, 0, 0), Frag(Brcc12, 8, 0, 0), Frag(Plain, 0, 0, 0)]
    ensures WellFormed(frags) && Start(frags, [0, 0, 0]) && Stable(frags, [0, 0, 0])
    ensures var disp := OpcodeDistance(frags, [0, 0, 0], 1);
            Accepted(disp, 12, true) && !InField(Brcc12, disp)
  {
    assert WellFormed(frags);
    assert Distance(frags, [0, 0, 0], 1) == -0x2000 by { Sizes3(frags, 0); }
    hide Distance;
    FarValues();
    hide Accepted, InField, LengthFor;
  }
}

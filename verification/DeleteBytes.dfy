/** The linker's byte deletion: contents, relocations and symbols of a section
    are adjusted in place. */
module DeleteBytes {
  import opened Bits
  import opened Machine

  /** A relocation: its place in the section, and what it refers to. */
  datatype Rela = Rela(offset: Octa, info: nat)

  /** A local symbol: the section it is in and its place there. */
  datatype LocalSym = LocalSym(shndx: nat, value: Octa)

  /** A global symbol: one object, which several hash entries may point to. */
  class GlobalSym {
    var defined: bool
    var section: nat
    var value: Octa

    constructor (defined: bool, section: nat, value: Octa)
      ensures this.defined == defined && this.section == section && this.value == value
    {
      this.defined := defined;
      this.section := section;
      this.value := value;
    }
  }

  // ------------------------------------------------------- specification

  predicate ValidCut(size: nat, addr: nat, count: nat) { addr + count <= size < TWO64 }

  function Cut<T>(s: seq<T>, addr: nat, count: nat): seq<T>
    requires addr + count <= |s|
  {
    s[..addr] + s[addr + count..]
  }

  /** Where a place moves when `count` bytes go at addr; bfd_vma is unsigned. */
  function Shift(v: Octa, addr: nat, count: nat): Octa { if v > addr then Wrap(v - count) else v }

  function ShiftRela(r: Rela, addr: nat, count: nat): Rela { r.(offset := Shift(r.offset, addr, count)) }

  function ShiftLocal(s: LocalSym, shndx: nat, addr: nat, count: nat): LocalSym {
    if s.shndx == shndx then s.(value := Shift(s.value, addr, count)) else s
  }

  /** A place after k rounds of the same adjustment. */
  function ShiftTimes(v: Octa, addr: nat, count: nat, k: nat): Octa {
    if k == 0 then v else Shift(ShiftTimes(v, addr, count, k - 1), addr, count)
  }

  ghost function Occurrences(gs: seq<GlobalSym>, g: GlobalSym): nat {
    if gs == [] then 0 else Occurrences(gs[..|gs| - 1], g) + if gs[|gs| - 1] == g then 1 else 0
  }

  // -------------------------------------------------------- the section

  class Section {
    const shndx: nat
    const contents: array<Byte>
    var size: nat
    var relocs: seq<Rela>
    var locals: seq<LocalSym>
    var hashes: seq<GlobalSym>

    constructor (shndx: nat, data: array<Byte>, relocs: seq<Rela>, locals: seq<LocalSym>, hashes: seq<GlobalSym>)
      requires data.Length < TWO64
      ensures Valid() && contents == data && size == data.Length && this.shndx == shndx
      ensures this.relocs == relocs && this.locals == locals && this.hashes == hashes
    {
      this.shndx := shndx;
      contents := data;
      size := data.Length;
      this.relocs := relocs;
      this.locals := locals;
      this.hashes := hashes;
    }

    ghost predicate Valid()
      reads this
    {
      size <= contents.Length < TWO64
    }

    ghost function Data(): seq<Byte>
      reads this, contents
      requires Valid()
    {
      contents[..size]
    }

    /** memmove towards lower addresses. */
    method MoveDown(dst: nat, src: nat, n: nat)
      requires dst <= src && src + n <= contents.Length
      modifies contents
      ensures forall k :: 0 <= k < dst || dst + n <= k < contents.Length ==> contents[k] == old(contents[k])
      ensures forall k :: dst <= k < dst + n ==> contents[k] == old(contents[k + (src - dst)])
    {
      var i := 0;
      while i < n
        invariant 0 <= i <= n
        invariant forall k :: 0 <= k < dst || dst + i <= k < contents.Length ==> contents[k] == old(contents[k])
        invariant forall k :: dst <= k < dst + i ==> contents[k] == old(contents[k + (src - dst)])
      {
        contents[dst + i] := contents[src + i];
        i := i + 1;
      }
    }

    /** The bytes, the relocations and the symbols of this section after `count`
        bytes at addr are gone; every hash entry adjusts its symbol once. */
    method DeleteBytes(addr: nat, count: nat)
      requires Valid() && ValidCut(size, addr, count)
      modifies this`size, this`relocs, this`locals, contents, hashes
      ensures Valid() && size == old(size) - count
      ensures Data() == Cut(old(Data()), addr, count)
      ensures forall k :: size <= k < contents.Length ==> contents[k] == old(contents[k])
      ensures |relocs| == |old(relocs)|
      ensures forall i :: 0 <= i < |relocs| ==> relocs[i] == ShiftRela(old(relocs)[i], addr, count)
      ensures |locals| == |old(locals)|
      ensures forall i :: 0 <= i < |locals| ==> locals[i] == ShiftLocal(old(locals)[i], shndx, addr, count)
      ensures forall g :: g in hashes ==> g.defined == old(g.defined) && g.section == old(g.section)
      ensures forall g :: g in hashes && g.defined && g.section == shndx ==>
                g.value == ShiftTimes(old(g.value), addr, count, Occurrences(hashes, g))
      ensures forall g :: g in hashes && !(g.defined && g.section == shndx) ==> g.value == old(g.value)
    {
      hide ShiftTimes, Occurrences, ShiftRela, ShiftLocal;
      MoveDown(addr, addr + count, size - addr - count);
      size := size - count;
      AdjustRelocs(addr, count);
      AdjustLocals(addr, count);
      AdjustGlobals(addr, count);
    }

    method AdjustRelocs(addr: nat, count: nat)
      modifies this`relocs
      ensures |relocs| == |old(relocs)|
      ensures forall i :: 0 <= i < |relocs| ==> relocs[i] == ShiftRela(old(relocs)[i], addr, count)
    {
      var i := 0;
      while i < |relocs|
        invariant 0 <= i <= |relocs| == |old(relocs)|
        invariant forall k :: 0 <= k < i ==> relocs[k] == ShiftRela(old(relocs)[k], addr, count)
        invariant forall k :: i <= k < |relocs| ==> relocs[k] == old(relocs)[k]
      {
        if relocs[i].offset > addr {
          relocs := relocs[i := relocs[i].(offset := Wrap(relocs[i].offset - count))];
        }
        i := i + 1;
      }
    }

    method AdjustLocals(addr: nat, count: nat)
      modifies this`locals
      ensures |locals| == |old(locals)|
      ensures forall i :: 0 <= i < |locals| ==> locals[i] == ShiftLocal(old(locals)[i], shndx, addr, count)
    {
      var i := 0;
      while i < |locals|
        invariant 0 <= i <= |locals| == |old(locals)|
        invariant forall k :: 0 <= k < i ==> locals[k] == ShiftLocal(old(locals)[k], shndx, addr, count)
        invariant forall k :: i <= k < |locals| ==> locals[k] == old(locals)[k]
      {
        if locals[i].shndx == shndx && locals[i].value > addr {
          locals := locals[i := locals[i].(value := Wrap(locals[i].value - count))];
        }
        i := i + 1;
      }
    }

    method AdjustGlobals(addr: nat, count: nat)
      modifies hashes
      ensures forall g :: g in hashes ==> g.defined == old(g.defined) && g.section == old(g.section)
      ensures forall g :: g in hashes && g.defined && g.section == shndx ==>
                g.value == ShiftTimes(old(g.value), addr, count, Occurrences(hashes, g))
      ensures forall g :: g in hashes && !(g.defined && g.section == shndx) ==> g.value == old(g.value)
    {
      var i := 0;
      while i < |hashes|
        invariant 0 <= i <= |hashes|
        invariant forall g :: g in hashes ==> g.defined == old(g.defined) && g.section == old(g.section)
        invariant forall g :: g in hashes && g.defined && g.section == shndx ==>
                    g.value == ShiftTimes(old(g.value), addr, count, Occurrences(hashes[..i], g))
        invariant forall g :: g in hashes && !(g.defined && g.section == shndx) ==> g.value == old(g.value)
      {
        var g := hashes[i];
        if g.defined && g.section == shndx {
          var value := g.value;
          if value > addr { g.value := Wrap(g.value - count); }
        }
        assert hashes[..i + 1][..i] == hashes[..i];
        i := i + 1;
      }
      assert hashes[..i] == hashes;
    }
  }

  /** One hash entry per symbol: every global moves exactly as a local does. */
  lemma {:induction false} OneEntryOnce(gs: seq<GlobalSym>, g: GlobalSym)
    requires g in gs && forall i, j :: 0 <= i < j < |gs| ==> gs[i] != gs[j]
    ensures Occurrences(gs, g) == 1
  {
    var last := |gs| - 1;
    if gs[last] == g {
      assert g !in gs[..last];
      NoEntry(gs[..last], g);
    } else {
      OneEntryOnce(gs[..last], g);
    }
  }

  /** A symbol with two hash entries is adjusted twice, which is harmless exactly
      when the first adjustment already took it down to the deleted place. */
  lemma TwoEntries(v: Octa, addr: nat, count: nat)
    requires 0 < count < TWO64
    ensures ShiftTimes(v, addr, count, 2) == ShiftTimes(v, addr, count, 1) <==> Shift(v, addr, count) <= addr
  {
    ShiftTwice(v, addr, count);
    hide ShiftTimes;
    WrapMoves(Shift(v, addr, count), count);
    hide Wrap;
  }

  lemma ShiftTwice(v: Octa, addr: nat, count: nat)
    ensures ShiftTimes(v, addr, count, 1) == Shift(v, addr, count)
    ensures ShiftTimes(v, addr, count, 2) == Shift(Shift(v, addr, count), addr, count)
  {
    hide Shift;
  }

  lemma WrapMoves(w: Octa, count: nat)
    requires 0 < count < TWO64
    ensures Wrap(w - count) != w
  {
  }

  lemma {:induction false} NoEntry(gs: seq<GlobalSym>, g: GlobalSym)
    requires g !in gs
    ensures Occurrences(gs, g) == 0
  {
    if gs != [] { NoEntry(gs[..|gs| - 1], g); }
  }

  // --------------------------------------------- any sequence of deletions

  datatype Deletion = Deletion(addr: nat, count: nat)

  predicate ValidCuts(size: nat, cuts: seq<Deletion>)
    decreases |cuts|
  {
    cuts != [] ==>
      && ValidCut(size, cuts[0].addr, cuts[0].count)
      && ValidCuts(size - cuts[0].count, cuts[1..])
  }

  function CutAll<T>(s: seq<T>, cuts: seq<Deletion>): seq<T>
    requires ValidCuts(|s|, cuts)
    decreases |cuts|
  {
    if cuts == [] then s else CutAll(Cut(s, cuts[0].addr, cuts[0].count), cuts[1..])
  }

  function ShiftAll(v: Octa, cuts: seq<Deletion>): Octa
    decreases |cuts|
  {
    if cuts == [] then v else ShiftAll(Shift(v, cuts[0].addr, cuts[0].count), cuts[1..])
  }

  function Places(size: nat): (ps: seq<nat>)
    ensures |ps| == size && forall i :: 0 <= i < size ==> ps[i] == i
  {
    seq(size, (i: nat) => i)
  }

  /** The bytes that are still there, each named by its original place. */
  function Survivors(size: nat, cuts: seq<Deletion>): seq<nat>
    requires ValidCuts(size, cuts)
  {
    CutPlaces(Places(size), cuts)
  }

  function CutPlaces(places: seq<nat>, cuts: seq<Deletion>): seq<nat>
    requires ValidCuts(|places|, cuts)
  {
    CutAll<nat>(places, cuts)
  }

  function Taken(places: seq<nat>, a: nat, c: nat): set<nat>
    requires a + c <= |places|
  {
    set i | a <= i < a + c :: places[i]
  }

  /** The original places of the bytes that some deletion takes from `places`. */
  function Removed(places: seq<nat>, cuts: seq<Deletion>): set<nat>
    requires ValidCuts(|places|, cuts)
    decreases |cuts|
  {
    if cuts == [] then {}
    else
      Taken(places, cuts[0].addr, cuts[0].count) + Removed(Cut<nat>(places, cuts[0].addr, cuts[0].count), cuts[1..])
  }

  predicate Increasing(ps: seq<nat>) { forall i, j :: 0 <= i < j < |ps| ==> ps[i] < ps[j] }

  lemma {:induction false} CutsKeepOrder(places: seq<nat>, cuts: seq<Deletion>)
    requires ValidCuts(|places|, cuts) && Increasing(places)
    ensures Increasing(CutPlaces(places, cuts))
    ensures forall p: nat :: p in CutPlaces(places, cuts) <==> p in places && p !in Removed(places, cuts)
    decreases |cuts|
  {
    if cuts != [] {
      var a, c := cuts[0].addr, cuts[0].count;
      var kept := Cut<nat>(places, a, c);
      assert Increasing(kept);
      CutMember(places, a, c);
      CutsKeepOrder(kept, cuts[1..]);
    }
  }

  lemma CutMember(places: seq<nat>, a: nat, c: nat)
    requires a + c <= |places| && Increasing(places)
    ensures forall p: nat :: p in Cut<nat>(places, a, c) <==> p in places && p !in Taken(places, a, c)
  {
    forall p: nat | p in places ensures p in Cut<nat>(places, a, c) || p in Taken(places, a, c) {
      var i :| 0 <= i < |places| && places[i] == p;
      if i < a {
        assert Cut<nat>(places, a, c)[i] == p;
      } else if i >= a + c {
        assert Cut<nat>(places, a, c)[i - c] == p;
      }
    }
  }

  lemma {:induction false} CutsPick(s: seq<Byte>, places: seq<nat>, cuts: seq<Deletion>, whole: seq<Byte>)
    requires ValidCuts(|s|, cuts) && |places| == |s|
    requires forall i :: 0 <= i < |s| ==> places[i] < |whole| && s[i] == whole[places[i]]
    ensures |CutPlaces(places, cuts)| == |CutAll(s, cuts)|
    ensures forall i :: 0 <= i < |CutAll(s, cuts)| ==>
              CutPlaces(places, cuts)[i] < |whole| && CutAll(s, cuts)[i] == whole[CutPlaces(places, cuts)[i]]
    decreases |cuts|
  {
    if cuts != [] {
      var a, c := cuts[0].addr, cuts[0].count;
      CutsPick(Cut(s, a, c), Cut<nat>(places, a, c), cuts[1..], whole);
    }
  }

  lemma {:induction false} OneMoreDeletion(s: seq<Byte>, v: Octa, cuts: seq<Deletion>, d: Deletion)
    requires ValidCuts(|s|, cuts) && ValidCut(|CutAll(s, cuts)|, d.addr, d.count)
    ensures ValidCuts(|s|, cuts + [d])
    ensures CutAll(s, cuts + [d]) == Cut(CutAll(s, cuts), d.addr, d.count)
    ensures ShiftAll(v, cuts + [d]) == Shift(ShiftAll(v, cuts), d.addr, d.count)
    decreases |cuts|
  {
    if cuts == [] {
      assert [d][1..] == [];
    } else {
      var a, c := cuts[0].addr, cuts[0].count;
      assert (cuts + [d])[1..] == cuts[1..] + [d];
      OneMoreDeletion(Cut(s, a, c), Shift(v, a, c), cuts[1..], d);
    }
  }

  /** After any sequence of deletions the section is the original bytes without
      the deleted ranges, in the original order. */
  lemma BytesAfterDeletions(data: seq<Byte>, cuts: seq<Deletion>)
    requires ValidCuts(|data|, cuts)
    ensures var live := Survivors(|data|, cuts);
            && |CutAll(data, cuts)| == |live| && Increasing(live)
            && (forall p: nat :: p in live <==>
                  p < |data| && p !in Removed(Places(|data|), cuts))
            && (forall i :: 0 <= i < |live| ==> live[i] < |data| && CutAll(data, cuts)[i] == data[live[i]])
  {
    var places := Places(|data|);
    forall p: nat ensures p in places <==> p < |data| {
      if p < |data| { assert places[p] == p; }
    }
    CutsKeepOrder(places, cuts);
    CutsPick(data, places, cuts, data);
  }

  // ------------------------------------------- symbols and relocations

  /** v is the place before which exactly the bytes originally below p lie. */
  predicate Marks(places: seq<nat>, p: nat, v: nat) {
    && v <= |places|
    && (forall i :: 0 <= i < v ==> places[i] < p)
    && (forall i :: v <= i < |places| ==> places[i] >= p)
  }

  predicate StrictlyInside(v: nat, addr: nat, count: nat) { addr < v < addr + count }

  /** One deletion moves a mark correctly exactly when the mark is not strictly
      inside the deleted bytes. */
  lemma ShiftExactly(places: seq<nat>, p: nat, v: Octa, addr: nat, count: nat)
    requires ValidCut(|places|, addr, count) && Marks(places, p, v)
    ensures Marks(Cut<nat>(places, addr, count), p, Shift(v, addr, count)) <==> !StrictlyInside(v, addr, count)
  {
    var kept, w := Cut<nat>(places, addr, count), Shift(v, addr, count);
    WrapAdd(v - count, 0);
    if v <= addr {
      assert Marks(kept, p, w);
    } else if v >= addr + count {
      assert w == v - count;
      forall i | 0 <= i < |kept| ensures if i < w then kept[i] < p else kept[i] >= p {
        assert kept[i] == places[if i < addr then i else i + count];
      }
      assert Marks(kept, p, w);
    } else if v >= count {
      assert w == v - count < addr;
      assert kept[w] == places[w] && places[w] < p;
    } else {
      assert w == TWO64 + v - count;
    }
  }

  /** No deletion has the mark strictly inside at its turn. */
  predicate NeverInside(v: Octa, cuts: seq<Deletion>)
    decreases |cuts|
  {
    cuts != [] ==>
      && !StrictlyInside(v, cuts[0].addr, cuts[0].count)
      && NeverInside(Shift(v, cuts[0].addr, cuts[0].count), cuts[1..])
  }

  lemma {:induction false} MarksAfterCuts(places: seq<nat>, p: nat, v: Octa, cuts: seq<Deletion>)
    requires ValidCuts(|places|, cuts) && Marks(places, p, v) && NeverInside(v, cuts)
    ensures Marks(CutPlaces(places, cuts), p, ShiftAll(v, cuts))
    decreases |cuts|
  {
    if cuts != [] {
      var a, c := cuts[0].addr, cuts[0].count;
      ShiftExactly(places, p, v, a, c);
      MarksAfterCuts(Cut<nat>(places, a, c), p, Shift(v, a, c), cuts[1..]);
    }
  }

  /** Any place that no deletion ever has strictly inside still stands between
      the same surviving bytes. */
  lemma SymbolsAfterDeletions(size: nat, p: Octa, cuts: seq<Deletion>)
    requires ValidCuts(size, cuts) && p <= size && NeverInside(p, cuts)
    ensures Marks(Survivors(size, cuts), p, ShiftAll(p, cuts))
  {
    MarksAfterCuts(Places(size), p, p, cuts);
  }

  lemma TakenAt(places: seq<nat>, v: nat, a: nat, c: nat)
    requires a + c <= |places|
    ensures a <= v < a + c ==> places[v] in Taken(places, a, c)
  {
  }

  lemma {:induction false} SurvivorKept(places: seq<nat>, v: Octa, cuts: seq<Deletion>)
    requires ValidCuts(|places|, cuts) && Increasing(places) && v < |places|
    requires places[v] in CutPlaces(places, cuts)
    ensures ShiftAll(v, cuts) < |CutPlaces(places, cuts)|
    ensures CutPlaces(places, cuts)[ShiftAll(v, cuts)] == places[v]
    decreases |cuts|
  {
    if cuts != [] {
      var a, c := cuts[0].addr, cuts[0].count;
      var kept := Cut<nat>(places, a, c);
      assert Increasing(kept);
      CutsKeepOrder(places, cuts);
      TakenAt(places, v, a, c);
      WrapAdd(v - c, 0);
      assert kept[Shift(v, a, c)] == places[v];
      SurvivorKept(kept, Shift(v, a, c), cuts[1..]);
    }
  }

  /** A symbol or relocation whose byte is never deleted still marks that byte. */
  lemma SurvivorsKeepMarks(data: seq<Byte>, p: Octa, cuts: seq<Deletion>)
    requires ValidCuts(|data|, cuts) && p in Survivors(|data|, cuts)
    ensures ShiftAll(p, cuts) < |Survivors(|data|, cuts)| == |CutAll(data, cuts)| && p < |data|
    ensures Survivors(|data|, cuts)[ShiftAll(p, cuts)] == p
    ensures CutAll(data, cuts)[ShiftAll(p, cuts)] == data[p]
  {
    BytesAfterDeletions(data, cuts);
    SurvivorKept(Places(|data|), p, cuts);
  }

  // ------------------------------------------------------ sorted relocations

  function Aligned(v: nat): nat { v - v % 4 }

  /** The comparison that the relocations are sorted with. */
  function CompareRelocs(a: Rela, b: Rela): int {
    if Aligned(a.offset) > Aligned(b.offset) then 1
    else if Aligned(a.offset) < Aligned(b.offset) then -1
    else if a.offset > b.offset then 1
    else if a.offset < b.offset then -1
    else 0
  }

  /** Masking first makes no difference: it is the order of the offsets. */
  lemma CompareIsOffsetOrder(a: Rela, b: Rela)
    ensures CompareRelocs(a, b) == if a.offset > b.offset then 1 else if a.offset < b.offset then -1 else 0
  {
    assert a.offset == Aligned(a.offset) + a.offset % 4 && Aligned(a.offset) == a.offset / 4 * 4;
    assert b.offset == Aligned(b.offset) + b.offset % 4 && Aligned(b.offset) == b.offset / 4 * 4;
  }

  predicate SortedRelocs(rs: seq<Rela>) { forall i, j :: 0 <= i < j < |rs| ==> CompareRelocs(rs[i], rs[j]) <= 0 }

  function ShiftRelocs(rs: seq<Rela>, addr: nat, count: nat): seq<Rela> {
    seq(|rs|, i requires 0 <= i < |rs| => ShiftRela(rs[i], addr, count))
  }

  /** Two offsets a <= b that one deletion brings out of order: b is close behind
      bytes that are deleted after a, or both are behind them and only a wraps. */
  predicate Crosses(a: nat, b: nat, addr: nat, count: nat) {
    (a <= addr < b && count <= b < a + count) || (addr < a < count <= b)
  }

  lemma ShiftOrderExactly(a: Octa, b: Octa, addr: nat, count: nat)
    requires a <= b && addr + count < TWO64
    ensures Shift(a, addr, count) <= Shift(b, addr, count) <==> !Crosses(a, b, addr, count)
  {
    WrapDown(a, count);
    WrapDown(b, count);
    hide Wrap;
  }

  lemma WrapDown(v: Octa, count: nat)
    requires count < TWO64
    ensures Wrap(v - count) == if v >= count then v - count else TWO64 + v - count
  {
    WrapMultiple(v - count, 1);
    WrapAdd(v - count, 0);
    WrapAdd(v - count + TWO64, 0);
  }

  /** One deletion keeps a sorted list sorted exactly when no pair crosses. */
  lemma SortedExactly(rs: seq<Rela>, addr: nat, count: nat)
    requires SortedRelocs(rs) && addr + count < TWO64
    ensures SortedRelocs(ShiftRelocs(rs, addr, count))
       <==> forall i, j :: 0 <= i < j < |rs| ==> !Crosses(rs[i].offset, rs[j].offset, addr, count)
  {
    var ts := ShiftRelocs(rs, addr, count);
    forall i, j | 0 <= i < j < |rs|
      ensures CompareRelocs(ts[i], ts[j]) <= 0 <==> !Crosses(rs[i].offset, rs[j].offset, addr, count)
    {
      CompareIsOffsetOrder(rs[i], rs[j]);
      ShiftOrderExactly(rs[i].offset, rs[j].offset, addr, count);
      CompareIsOffsetOrder(ts[i], ts[j]);
    }
  }

  lemma InsideCrosses(a: Octa, b: Octa, addr: nat, count: nat)
    requires a <= b && !StrictlyInside(a, addr, count) && !StrictlyInside(b, addr, count)
    ensures !Crosses(a, b, addr, count)
  {
  }

  /** The list after all deletions. */
  function ShiftRelocsAll(rs: seq<Rela>, cuts: seq<Deletion>): (ts: seq<Rela>)
    ensures |ts| == |rs| && forall i :: 0 <= i < |rs| ==> ts[i] == rs[i].(offset := ShiftAll(rs[i].offset, cuts))
    decreases |cuts|
  {
    if cuts == [] then rs else ShiftRelocsAll(ShiftRelocs(rs, cuts[0].addr, cuts[0].count), cuts[1..])
  }

  /** A sorted list stays sorted through any sequence of deletions that never
      has a relocation strictly inside. */
  lemma {:induction false} RelocsStaySorted(size: nat, rs: seq<Rela>, cuts: seq<Deletion>)
    requires SortedRelocs(rs) && ValidCuts(size, cuts)
    requires forall i :: 0 <= i < |rs| ==> NeverInside(rs[i].offset, cuts)
    ensures SortedRelocs(ShiftRelocsAll(rs, cuts))
    decreases |cuts|
  {
    if cuts != [] {
      var a, c := cuts[0].addr, cuts[0].count;
      SortedExactly(rs, a, c);
      forall i, j | 0 <= i < j < |rs| ensures !Crosses(rs[i].offset, rs[j].offset, a, c) {
        CompareIsOffsetOrder(rs[i], rs[j]);
        InsideCrosses(rs[i].offset, rs[j].offset, a, c);
      }
      RelocsStaySorted(size - c, ShiftRelocs(rs, a, c), cuts[1..]);
    }
  }

  /** Every offset strictly inside crosses one of the two ends. */
  lemma InsideBreaksOrder(r: Rela, info: nat, addr: nat, count: nat)
    requires addr + count < TWO64 && StrictlyInside(r.offset, addr, count)
    ensures var rs := if r.offset >= count then [Rela(addr, info), r] else [r, Rela(addr + count, info)];
            SortedRelocs(rs) && !SortedRelocs(ShiftRelocs(rs, addr, count))
  {
    var rs := if r.offset >= count then [Rela(addr, info), r] else [r, Rela(addr + count, info)];
    CompareIsOffsetOrder(rs[0], rs[1]);
    SortedExactly(rs, addr, count);
    assert Crosses(rs[0].offset, rs[1].offset, addr, count);
  }

  // ------------------------------------------------ a sequence of deletions

  function ShiftLocals(ls: seq<LocalSym>, shndx: nat, addr: nat, count: nat): seq<LocalSym> {
    seq(|ls|, i requires 0 <= i < |ls| => ShiftLocal(ls[i], shndx, addr, count))
  }

  /** The local symbols after all deletions. */
  function ShiftLocalsAll(ls: seq<LocalSym>, shndx: nat, cuts: seq<Deletion>): (ts: seq<LocalSym>)
    ensures |ts| == |ls|
    ensures forall i :: 0 <= i < |ls| ==>
              ts[i] == if ls[i].shndx == shndx then ls[i].(value := ShiftAll(ls[i].value, cuts)) else ls[i]
    decreases |cuts|
  {
    if cuts == [] then ls else ShiftLocalsAll(ShiftLocals(ls, shndx, cuts[0].addr, cuts[0].count), shndx, cuts[1..])
  }

  /** A global symbol with k hash entries after all deletions. */
  function ShiftGlobalAll(v: Octa, k: nat, cuts: seq<Deletion>): Octa
    decreases |cuts|
  {
    if cuts == [] then v
    else
      var last := |cuts| - 1;
      ShiftTimes(ShiftGlobalAll(v, k, cuts[..last]), cuts[last].addr, cuts[last].count, k)
  }

  lemma {:induction false} ShiftAllLast(v: Octa, cuts: seq<Deletion>, d: Deletion)
    ensures ShiftAll(v, cuts + [d]) == Shift(ShiftAll(v, cuts), d.addr, d.count)
    decreases |cuts|
  {
    hide Shift;
    if cuts == [] {
      assert [d][1..] == [];
    } else {
      assert (cuts + [d])[1..] == cuts[1..] + [d];
      ShiftAllLast(Shift(v, cuts[0].addr, cuts[0].count), cuts[1..], d);
    }
  }

  /** With one hash entry a global symbol moves as a local one does. */
  lemma {:induction false} GlobalsMoveAlike(v: Octa, cuts: seq<Deletion>)
    ensures ShiftGlobalAll(v, 1, cuts) == ShiftAll(v, cuts)
    decreases |cuts|
  {
    if cuts != [] {
      var prior, d := cuts[..|cuts| - 1], cuts[|cuts| - 1];
      GlobalsMoveAlike(v, prior);
      assert cuts == prior + [d];
      hide Shift, ShiftTimes;
      ShiftTwice(ShiftAll(v, prior), d.addr, d.count);
      ShiftAllLast(v, prior, d);
    }
  }

  lemma {:induction false} PrefixValid(s: seq<Byte>, cuts: seq<Deletion>, k: nat)
    requires ValidCuts(|s|, cuts) && k < |cuts|
    ensures ValidCuts(|s|, cuts[..k]) && ValidCut(|CutAll(s, cuts[..k])|, cuts[k].addr, cuts[k].count)
    decreases k
  {
    if k > 0 {
      PrefixValid(Cut(s, cuts[0].addr, cuts[0].count), cuts[1..], k - 1);
      assert cuts[..k][1..] == cuts[1..][..k - 1];
    }
  }

  /** What deletion k does to the values that the ones before it left. */
  lemma NextCut(s: seq<Byte>, cuts: seq<Deletion>, k: nat)
    requires ValidCuts(|s|, cuts) && k < |cuts|
    ensures ValidCuts(|s|, cuts[..k]) && ValidCuts(|s|, cuts[..k + 1])
    ensures ValidCut(|CutAll(s, cuts[..k])|, cuts[k].addr, cuts[k].count)
    ensures CutAll(s, cuts[..k + 1]) == Cut(CutAll(s, cuts[..k]), cuts[k].addr, cuts[k].count)
  {
    hide CutAll, Cut, ValidCuts, ValidCut;
    PrefixValid(s, cuts, k);
    assert cuts[..k + 1] == cuts[..k] + [cuts[k]];
    OneMoreDeletion(s, 0, cuts[..k], cuts[k]);
  }

  lemma NextShifts(rs: seq<Rela>, ls: seq<LocalSym>, shndx: nat, cuts: seq<Deletion>, k: nat)
    requires k < |cuts|
    ensures var d := cuts[k];
            && ShiftRelocsAll(rs, cuts[..k + 1]) == ShiftRelocs(ShiftRelocsAll(rs, cuts[..k]), d.addr, d.count)
            && ShiftLocalsAll(ls, shndx, cuts[..k + 1]) == ShiftLocals(ShiftLocalsAll(ls, shndx, cuts[..k]), shndx, d.addr, d.count)
  {
    hide Shift, ShiftAll, ShiftRelocsAll, ShiftLocalsAll;
    assert cuts[..k + 1] == cuts[..k] + [cuts[k]];
    forall i | 0 <= i < |rs|
      ensures ShiftRelocsAll(rs, cuts[..k + 1])[i]
           == ShiftRelocs(ShiftRelocsAll(rs, cuts[..k]), cuts[k].addr, cuts[k].count)[i]
    {
      ShiftAllLast(rs[i].offset, cuts[..k], cuts[k]);
    }
    forall i | 0 <= i < |ls|
      ensures ShiftLocalsAll(ls, shndx, cuts[..k + 1])[i]
           == ShiftLocals(ShiftLocalsAll(ls, shndx, cuts[..k]), shndx, cuts[k].addr, cuts[k].count)[i]
    {
      ShiftAllLast(ls[i].value, cuts[..k], cuts[k]);
    }
  }

  lemma NextGlobal(v: Octa, n: nat, cuts: seq<Deletion>, k: nat)
    requires k < |cuts|
    ensures ShiftGlobalAll(v, n, cuts[..k + 1])
         == ShiftTimes(ShiftGlobalAll(v, n, cuts[..k]), cuts[k].addr, cuts[k].count, n)
  {
    hide ShiftTimes;
    assert cuts[..k + 1][..k] == cuts[..k];
  }

  /** Every defined global of the section is where the deletions put it. */
  twostate predicate GlobalsMoved(hashes: seq<GlobalSym>, shndx: nat, cuts: seq<Deletion>)
    reads hashes
  {
    forall g :: g in hashes ==>
      && g.defined == old(g.defined) && g.section == old(g.section)
      && g.value == if g.defined && g.section == shndx
                    then ShiftGlobalAll(old(g.value), Occurrences(hashes, g), cuts) else old(g.value)
  }

  /** One deletion after the other, each at its place in what is left: the
      section's bytes, relocations and symbols. */
  method DeleteEach(sec: Section, cuts: seq<Deletion>)
    requires sec.Valid() && ValidCuts(sec.size, cuts)
    modifies sec`size, sec`relocs, sec`locals, sec.contents, sec.hashes
    ensures sec.Valid() && ValidCuts(|old(sec.Data())|, cuts) && sec.Data() == CutAll(old(sec.Data()), cuts)
    ensures sec.relocs == ShiftRelocsAll(old(sec.relocs), cuts)
    ensures sec.locals == ShiftLocalsAll(old(sec.locals), sec.shndx, cuts)
    ensures GlobalsMoved(sec.hashes, sec.shndx, cuts)
  {
    hide Cut, CutAll, ValidCuts, ValidCut, ShiftAll, Shift, Occurrences, ShiftTimes, ShiftRelocsAll, ShiftLocalsAll, ShiftGlobalAll;
    ghost var was, relocs, locals := sec.Data(), sec.relocs, sec.locals;
    NoCuts(was, relocs, locals, sec.shndx);
    assert cuts[..0] == [];
    var k := 0;
    while k < |cuts|
      invariant 0 <= k <= |cuts| && sec.Valid() && ValidCuts(|was|, cuts[..k]) && sec.Data() == CutAll(was, cuts[..k])
      invariant sec.relocs == ShiftRelocsAll(relocs, cuts[..k])
      invariant sec.locals == ShiftLocalsAll(locals, sec.shndx, cuts[..k])
      invariant GlobalsMoved(sec.hashes, sec.shndx, cuts[..k])
    {
      NextCut(was, cuts, k);
      NextShifts(relocs, locals, sec.shndx, cuts, k);
      forall g: GlobalSym | g in sec.hashes
        ensures ShiftGlobalAll(old(g.value), Occurrences(sec.hashes, g), cuts[..k + 1])
             == ShiftTimes(ShiftGlobalAll(old(g.value), Occurrences(sec.hashes, g), cuts[..k]),
                           cuts[k].addr, cuts[k].count, Occurrences(sec.hashes, g))
      {
        NextGlobal(old(g.value), Occurrences(sec.hashes, g), cuts, k);
      }
      sec.DeleteBytes(cuts[k].addr, cuts[k].count);
      k := k + 1;
    }
    assert cuts[..k] == cuts;
  }

  lemma NoCuts(s: seq<Byte>, rs: seq<Rela>, ls: seq<LocalSym>, shndx: nat)
    ensures ValidCuts(|s|, []) && CutAll(s, []) == s
    ensures ShiftRelocsAll(rs, []) == rs && ShiftLocalsAll(ls, shndx, []) == ls
    ensures forall v: Octa, k: nat :: ShiftGlobalAll(v, k, []) == v
  {
  }
}

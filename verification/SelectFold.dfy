/** The select-folding DAG combines: an operation on a value that is
    conditionally the operation's identity becomes a select between the other
    operand and the operation on what the value is otherwise. */
module SelectFold {

  datatype Maybe<+T> = Nothing | Just(value: T)

  datatype Op = Add | Sub | And | Or | Xor

  /** Nodes of 64-bit values; a condition is an i1 node.  Nodes of any other
      opcode, and comparisons, are left uninterpreted. */
  datatype Node =
    | Const(v: bv64)
    | Leaf(id: nat)
    | Bin(op: Op, left: Node, right: Node)
    | Select(cc: Cond, whenTrue: Node, whenFalse: Node)
    | ZeroExtend(from: Source)
    | SignExtend(from: Source)
    | Opaque(opcode: nat, a: Node, b: Node)

  datatype Cond = CondLeaf(id: nat) | Compare(code: nat, x: Node, y: Node)

  /** What an extension extends: an i1 value, or a wider one. */
  datatype Source = Bit(cc: Cond) | Narrow(bits: nat, n: Node)

  // -------------------------------------------------------------- meaning

  /** Values for the leaves and meanings for what is uninterpreted. */
  datatype Env = Env(value: nat -> bv64, cond: nat -> bool, compare: (nat, bv64, bv64) -> bool,
                     zext: (nat, bv64) -> bv64, sext: (nat, bv64) -> bv64, opaqueOp: (nat, bv64, bv64) -> bv64)

  const ONES: bv64 := 0xFFFF_FFFF_FFFF_FFFF

  function Apply(op: Op, x: bv64, y: bv64): bv64 {
    match op
    case Add => x + y
    case Sub => x - y
    case And => x & y
    case Or => x | y
    case Xor => x ^ y
  }

  function Eval(n: Node, e: Env): bv64 {
    match n
    case Const(v) => v
    case Leaf(id) => e.value(id)
    case Bin(op, l, r) => Apply(op, Eval(l, e), Eval(r, e))
    case Select(cc, t, f) => if Holds(cc, e) then Eval(t, e) else Eval(f, e)
    case ZeroExtend(Bit(cc)) => if Holds(cc, e) then 1 else 0
    case ZeroExtend(Narrow(bits, m)) => e.zext(bits, Eval(m, e))
    case SignExtend(Bit(cc)) => if Holds(cc, e) then ONES else 0
    case SignExtend(Narrow(bits, m)) => e.sext(bits, Eval(m, e))
    case Opaque(k, a, b) => e.opaqueOp(k, Eval(a, e), Eval(b, e))
  }

  function Holds(c: Cond, e: Env): bool {
    match c
    case CondLeaf(id) => e.cond(id)
    case Compare(k, x, y) => e.compare(k, Eval(x, e), Eval(y, e))
  }

  // ---------------------------------------------------------- the combines

  predicate IsZeroOrAllOnes(n: Node, allOnes: bool) { n == Const(if allOnes then ONES else 0) }

  /** When `cc` does not hold (or holds, if inverted) the value is `other`;
      otherwise it is zero, or all ones. */
  datatype Found = Found(cc: Cond, invert: bool, other: Node)

  function IsConditionalZeroOrAllOnes(n: Node, allOnes: bool): Maybe<Found> {
    match n
    case Select(cc, n1, n2) =>
      if IsZeroOrAllOnes(n1, allOnes) then Just(Found(cc, false, n2))
      else if IsZeroOrAllOnes(n2, allOnes) then Just(Found(cc, true, n1))
      else Nothing
    case ZeroExtend(from) =>
      if allOnes || !from.Bit? then Nothing else Just(Found(from.cc, true, Const(1)))
    case SignExtend(from) =>
      if !from.Bit? then Nothing
      else Just(Found(from.cc, !allOnes, if allOnes then Const(0) else Const(ONES)))
    case _ => Nothing
  }

  function CombineSelectAndUse(op: Op, slct: Node, otherOp: Node, allOnes: bool): Maybe<Node> {
    var found := IsConditionalZeroOrAllOnes(slct, allOnes);
    if found.Nothing? then Nothing
    else
      var trueVal, falseVal := otherOp, Bin(op, otherOp, found.value.other);
      if found.value.invert then Just(Select(found.value.cc, falseVal, trueVal))
      else Just(Select(found.value.cc, trueVal, falseVal))
  }

  /** u0 and u1 say which operands have this node as their only use. */
  function CombineCommutative(op: Op, n0: Node, n1: Node, u0: bool, u1: bool, allOnes: bool): Maybe<Node> {
    var first := if u0 then CombineSelectAndUse(op, n0, n1, allOnes) else Nothing;
    if first.Just? then first
    else if u1 then CombineSelectAndUse(op, n1, n0, allOnes) else Nothing
  }

  function PerformSubCombine(n0: Node, n1: Node, u1: bool): Maybe<Node> {
    if u1 then CombineSelectAndUse(Sub, n1, n0, false) else Nothing
  }

  function PerformDagCombine(n: Node, u0: bool, u1: bool): Maybe<Node> {
    if !n.Bin? then Nothing
    else
      match n.op
      case Add => CombineCommutative(Add, n.left, n.right, u0, u1, false)
      case Or => CombineCommutative(Or, n.left, n.right, u0, u1, false)
      case Xor => CombineCommutative(Xor, n.left, n.right, u0, u1, false)
      case And => CombineCommutative(And, n.left, n.right, u0, u1, true)
      case Sub => PerformSubCombine(n.left, n.right, u1)
  }

  // ------------------------------------------------- when a combine is done

  /** The constant that leaves the other operand as it is. */
  function Identity(op: Op): Node { if op == And then Const(0xFFFF_FFFF_FFFF_FFFF) else Const(0) }

  /** An operand that is the identity on one side of a condition. */
  predicate Foldable(op: Op, n: Node) {
    match n
    case Select(_, t, f) => t == Identity(op) || f == Identity(op)
    case ZeroExtend(Bit(_)) => op != And
    case SignExtend(Bit(_)) => true
    case _ => false
  }

  /** Operand x of the operation, when its other operand is n. */
  function FoldInto(op: Op, n: Node, x: Node): Node
    requires Foldable(op, n)
  {
    match n
    case Select(cc, t, f) =>
      if t == Identity(op) then Select(cc, x, Bin(op, x, f)) else Select(cc, Bin(op, x, t), x)
    case ZeroExtend(Bit(cc)) => Select(cc, Bin(op, x, Const(1)), x)
    case SignExtend(Bit(cc)) =>
      if op == And then Select(cc, x, Bin(And, x, Const(0)))
      else Select(cc, Bin(op, x, Const(0xFFFF_FFFF_FFFF_FFFF)), x)
  }

  /** For every node: a foldable left operand used only here is folded, of a
      difference never; else such a right operand; else nothing is done. */
  lemma CombineExactly(op: Op, l: Node, r: Node, u0: bool, u1: bool)
    ensures PerformDagCombine(Bin(op, l, r), u0, u1) ==
              if op != Sub && u0 && Foldable(op, l) then Just(FoldInto(op, l, r))
              else if u1 && Foldable(op, r) then Just(FoldInto(op, r, l))
              else Nothing
  {
    UseExactly(op, l, r);
    UseExactly(op, r, l);
    hide CombineSelectAndUse, Foldable, FoldInto;
  }

  lemma UseExactly(op: Op, n: Node, x: Node)
    ensures CombineSelectAndUse(op, n, x, op == And) == if Foldable(op, n) then Just(FoldInto(op, n, x)) else Nothing
  {
  }

  // --------------------------------------------------- one combine is right

  lemma BitNeutral(x: bv64)
    ensures x & 0xFFFF_FFFF_FFFF_FFFF == x
    ensures x | 0 == x && x ^ 0 == x
  {
  }

  lemma SumNeutral(x: bv64)
    ensures x + 0 == x && x - 0 == x
  {
  }

  /** Zero is neutral on the right of +, -, | and ^, all ones on the right of &. */
  lemma Neutral(op: Op, x: bv64, allOnes: bool)
    requires allOnes == (op == And)
    ensures Apply(op, x, if allOnes then ONES else 0) == x
  {
    BitNeutral(x);
    SumNeutral(x);
    match op
    case Add => assert Apply(Add, x, 0) == x + 0;
    case Sub => assert Apply(Sub, x, 0) == x - 0;
    case And => assert Apply(And, x, ONES) == x & 0xFFFF_FFFF_FFFF_FFFF;
    case Or => assert Apply(Or, x, 0) == x | 0;
    case Xor => assert Apply(Xor, x, 0) == x ^ 0;
  }

  lemma Commutes(op: Op, x: bv64, y: bv64)
    requires op != Sub
    ensures Apply(op, x, y) == Apply(op, y, x)
  {
  }

  /** What is found describes the node: its identity value on one side of the
      condition, `other` on the other side. */
  lemma FoundIsMeaning(n: Node, allOnes: bool, e: Env)
    requires IsConditionalZeroOrAllOnes(n, allOnes).Just?
    ensures var f := IsConditionalZeroOrAllOnes(n, allOnes).value;
            Eval(n, e) == if Holds(f.cc, e) != f.invert then (if allOnes then ONES else 0) else Eval(f.other, e)
  {
  }

  /** The select that a combine builds. */
  function Folded(op: Op, f: Found, otherOp: Node): Node {
    var falseVal := Bin(op, otherOp, f.other);
    if f.invert then Select(f.cc, falseVal, otherOp) else Select(f.cc, otherOp, falseVal)
  }

  lemma FoldedMeaning(op: Op, f: Found, otherOp: Node, e: Env)
    ensures Eval(Folded(op, f, otherOp), e)
         == if Holds(f.cc, e) != f.invert then Eval(otherOp, e) else Apply(op, Eval(otherOp, e), Eval(f.other, e))
  {
    hide Apply;
    assert Eval(Bin(op, otherOp, f.other), e) == Apply(op, Eval(otherOp, e), Eval(f.other, e));
  }

  lemma UseIsFolded(op: Op, slct: Node, otherOp: Node, allOnes: bool)
    requires IsConditionalZeroOrAllOnes(slct, allOnes).Just?
    ensures CombineSelectAndUse(op, slct, otherOp, allOnes)
         == Just(Folded(op, IsConditionalZeroOrAllOnes(slct, allOnes).value, otherOp))
  {
    hide IsConditionalZeroOrAllOnes;
  }

  lemma UseIsSelected(op: Op, slct: Node, otherOp: Node, allOnes: bool, e: Env)
    requires allOnes == (op == And)
    requires CombineSelectAndUse(op, slct, otherOp, allOnes).Just?
    ensures Eval(CombineSelectAndUse(op, slct, otherOp, allOnes).value, e) == Apply(op, Eval(otherOp, e), Eval(slct, e))
  {
    hide Apply, IsConditionalZeroOrAllOnes, Folded, Eval, Holds;
    UseIsFolded(op, slct, otherOp, allOnes);
    FoldedMeaning(op, IsConditionalZeroOrAllOnes(slct, allOnes).value, otherOp, e);
    FoundIsMeaning(slct, allOnes, e);
    Neutral(op, Eval(otherOp, e), allOnes);
  }

  /** One combine, whatever the use counts, keeps the value under every environment. */
  lemma CombineKeepsValue(n: Node, u0: bool, u1: bool, e: Env)
    requires PerformDagCombine(n, u0, u1).Just?
    ensures Eval(PerformDagCombine(n, u0, u1).value, e) == Eval(n, e)
  {
    hide Apply, CombineSelectAndUse;
    var x, y := Eval(n.left, e), Eval(n.right, e);
    var allOnes := n.op == And;
    if n.op != Sub { Commutes(n.op, x, y); }
    if CombineSelectAndUse(n.op, n.left, n.right, allOnes).Just? && n.op != Sub {
      UseIsSelected(n.op, n.left, n.right, allOnes, e);
    }
    if CombineSelectAndUse(n.op, n.right, n.left, allOnes).Just? {
      UseIsSelected(n.op, n.right, n.left, allOnes, e);
    }
  }

  // ---------------------------------------- combines anywhere, any number

  /** m is n with combines done at the root or at any nodes below. */
  ghost predicate Rewrites(n: Node, m: Node)
    decreases n
  {
    || n == m
    || (exists u0: bool, u1: bool :: PerformDagCombine(n, u0, u1) == Just(m))
    || (match n
        case Bin(op, l, r) => m.Bin? && m.op == op && Rewrites(l, m.left) && Rewrites(r, m.right)
        case Select(cc, t, f) =>
          m.Select? && RewritesCond(cc, m.cc) && Rewrites(t, m.whenTrue) && Rewrites(f, m.whenFalse)
        case ZeroExtend(s) => m.ZeroExtend? && RewritesSource(s, m.from)
        case SignExtend(s) => m.SignExtend? && RewritesSource(s, m.from)
        case Opaque(k, a, b) => m.Opaque? && m.opcode == k && Rewrites(a, m.a) && Rewrites(b, m.b)
        case _ => false)
  }

  ghost predicate RewritesCond(c: Cond, d: Cond)
    decreases c
  {
    || c == d
    || (match c
        case Compare(k, x, y) => d.Compare? && d.code == k && Rewrites(x, d.x) && Rewrites(y, d.y)
        case _ => false)
  }

  ghost predicate RewritesSource(s: Source, t: Source)
    decreases s
  {
    match s
    case Bit(cc) => t.Bit? && RewritesCond(cc, t.cc)
    case Narrow(bits, n) => t.Narrow? && t.bits == bits && Rewrites(n, t.n)
  }

  lemma {:induction false} RewritesKeepValue(n: Node, m: Node, e: Env)
    requires Rewrites(n, m)
    ensures Eval(m, e) == Eval(n, e)
    decreases n
  {
    hide Apply, PerformDagCombine;
    if n == m {
    } else if u0: bool, u1: bool :| PerformDagCombine(n, u0, u1) == Just(m) {
      CombineKeepsValue(n, u0, u1, e);
    } else {
      match n
      case Bin(_, l, r) =>
        RewritesKeepValue(l, m.left, e);
        RewritesKeepValue(r, m.right, e);
      case Select(cc, t, f) =>
        RewritesKeepCond(cc, m.cc, e);
        RewritesKeepValue(t, m.whenTrue, e);
        RewritesKeepValue(f, m.whenFalse, e);
      case ZeroExtend(s) => RewritesKeepSource(s, m.from, e);
      case SignExtend(s) => RewritesKeepSource(s, m.from, e);
      case Opaque(_, a, b) =>
        RewritesKeepValue(a, m.a, e);
        RewritesKeepValue(b, m.b, e);
    }
  }

  lemma {:induction false} RewritesKeepCond(c: Cond, d: Cond, e: Env)
    requires RewritesCond(c, d)
    ensures Holds(d, e) == Holds(c, e)
    decreases c
  {
    if c != d {
      RewritesKeepValue(c.x, d.x, e);
      RewritesKeepValue(c.y, d.y, e);
    }
  }

  lemma {:induction false} RewritesKeepSource(s: Source, t: Source, e: Env)
    requires RewritesSource(s, t)
    ensures Eval(ZeroExtend(t), e) == Eval(ZeroExtend(s), e)
    ensures Eval(SignExtend(t), e) == Eval(SignExtend(s), e)
    decreases s
  {
    match s
    case Bit(cc) => RewritesKeepCond(cc, t.cc, e);
    case Narrow(_, n) => RewritesKeepValue(n, t.n, e);
  }

  /** A run: every tree after the first comes from the one before by combines. */
  ghost predicate Combined(run: seq<Node>) { forall i :: 0 < i < |run| ==> Rewrites(run[i - 1], run[i]) }

  /** Any number of combines at any nodes of any tree leaves the tree's value
      unchanged under every environment. */
  lemma {:induction false} RunKeepsValue(run: seq<Node>, e: Env)
    requires |run| > 0 && Combined(run)
    ensures Eval(run[|run| - 1], e) == Eval(run[0], e)
  {
    hide Rewrites;
    if |run| > 1 {
      var last := |run| - 1;
      RewritesKeepValue(run[last - 1], run[last], e);
      RunKeepsValue(run[..last], e);
    }
  }

  // ------------------------------------------------------------ termination

  function Weight(n: Node): (w: nat)
    ensures w >= 1
  {
    match n
    case Const(_) => 1
    case Leaf(_) => 1
    case Bin(_, l, r) => Times(Weight(l) + 1, Weight(r) + 1)
    case Select(cc, t, f) => CondWeight(cc) + Weight(t) + Weight(f) + 1
    case ZeroExtend(s) => SourceWeight(s) + 3
    case SignExtend(s) => SourceWeight(s) + 3
    case Opaque(_, a, b) => Weight(a) + Weight(b)
  }

  function CondWeight(c: Cond): nat {
    match c
    case CondLeaf(_) => 0
    case Compare(_, x, y) => Weight(x) + Weight(y)
  }

  function SourceWeight(s: Source): nat {
    match s
    case Bit(cc) => CondWeight(cc)
    case Narrow(_, n) => Weight(n)
  }

  function Times(x: nat, y: nat): (p: nat)
    ensures x >= 1 && y >= 1 ==> p >= 1
  {
    x * y
  }

  lemma TimesSwaps(x: nat, y: nat)
    ensures Times(x, y) == Times(y, x)
  {
  }

  lemma TimesStep(x: nat, y: nat, y': nat)
    requires y <= y'
    ensures Times(x, y) <= Times(x, y') && (1 <= x && y < y' ==> Times(x, y) < Times(x, y'))
  {
    var d := y' - y;
    assert x * y' == x * y + x * d;
    if 1 <= x && 1 <= d { assert x * d >= 1; }
  }

  lemma TimesGrows(x: nat, y: nat, x': nat, y': nat)
    requires x <= x' && y <= y'
    ensures Times(x, y) <= Times(x', y')
    ensures 1 <= x && 1 <= y && (x < x' || y < y') ==> Times(x, y) < Times(x', y')
  {
    hide Times;
    TimesStep(x, y, y');
    TimesStep(y', x, x');
    TimesSwaps(x, y');
    TimesSwaps(x', y');
  }

  /** (other + 1)(extra + y + 1) exceeds (other + 1)(y + 1) + other + extra. */
  lemma FoldArithmetic(other: nat, y: nat, extra: nat)
    requires extra >= 2 && other >= 1
    ensures Times(other + 1, extra + y + 1) > Times(other + 1, y + 1) + other + extra
  {
    assert (other + 1) * (extra + y + 1) == (other + 1) * (y + 1) + other * extra + extra;
    assert other * extra >= other * 2;
  }

  /** Every combine makes the node lighter. */
  lemma FoldIsLighter(op: Op, slct: Node, otherOp: Node, allOnes: bool)
    requires CombineSelectAndUse(op, slct, otherOp, allOnes).Just?
    ensures Weight(CombineSelectAndUse(op, slct, otherOp, allOnes).value) < Times(Weight(otherOp) + 1, Weight(slct) + 1)
  {
    var f := IsConditionalZeroOrAllOnes(slct, allOnes).value;
    FoundWeight(slct, allOnes);
    hide IsConditionalZeroOrAllOnes, Times;
    var extra := Weight(slct) - Weight(f.other);
    FoldArithmetic(Weight(otherOp), Weight(f.other), extra);
  }

  lemma FoundWeight(n: Node, allOnes: bool)
    requires IsConditionalZeroOrAllOnes(n, allOnes).Just?
    ensures var f := IsConditionalZeroOrAllOnes(n, allOnes).value;
            Weight(n) >= CondWeight(f.cc) + Weight(f.other) + 2
  {
  }

  lemma CombineIsLighter(n: Node, u0: bool, u1: bool)
    requires PerformDagCombine(n, u0, u1).Just?
    ensures Weight(PerformDagCombine(n, u0, u1).value) < Weight(n)
  {
    hide CombineSelectAndUse, Times;
    var allOnes := n.op == And;
    TimesSwaps(Weight(n.left) + 1, Weight(n.right) + 1);
    if CombineSelectAndUse(n.op, n.left, n.right, allOnes).Just? { FoldIsLighter(n.op, n.left, n.right, allOnes); }
    if CombineSelectAndUse(n.op, n.right, n.left, allOnes).Just? { FoldIsLighter(n.op, n.right, n.left, allOnes); }
  }

  lemma {:induction false} RewritesAreLighter(n: Node, m: Node)
    requires Rewrites(n, m)
    ensures Weight(m) < Weight(n) || m == n
    decreases n
  {
    hide PerformDagCombine, Times;
    if n == m {
    } else if u0: bool, u1: bool :| PerformDagCombine(n, u0, u1) == Just(m) {
      CombineIsLighter(n, u0, u1);
    } else {
      match n
      case Bin(_, l, r) =>
        RewritesAreLighter(l, m.left);
        RewritesAreLighter(r, m.right);
        TimesGrows(Weight(m.left) + 1, Weight(m.right) + 1, Weight(l) + 1, Weight(r) + 1);
      case Select(cc, t, f) =>
        CondsAreLighter(cc, m.cc);
        RewritesAreLighter(t, m.whenTrue);
        RewritesAreLighter(f, m.whenFalse);
      case ZeroExtend(s) => SourcesAreLighter(s, m.from);
      case SignExtend(s) => SourcesAreLighter(s, m.from);
      case Opaque(_, a, b) =>
        RewritesAreLighter(a, m.a);
        RewritesAreLighter(b, m.b);
    }
  }

  lemma {:induction false} CondsAreLighter(c: Cond, d: Cond)
    requires RewritesCond(c, d)
    ensures CondWeight(d) < CondWeight(c) || d == c
    decreases c
  {
    if c != d {
      RewritesAreLighter(c.x, d.x);
      RewritesAreLighter(c.y, d.y);
    }
  }

  lemma {:induction false} SourcesAreLighter(s: Source, t: Source)
    requires RewritesSource(s, t)
    ensures SourceWeight(t) < SourceWeight(s) || t == s
    decreases s
  {
    match s
    case Bit(cc) => CondsAreLighter(cc, t.cc);
    case Narrow(_, n) => RewritesAreLighter(n, t.n);
  }

  /** A run in which every step changes the tree is shorter than the tree's weight. */
  lemma {:induction false} RunsAreBounded(run: seq<Node>)
    requires |run| > 0 && Combined(run)
    requires forall i :: 0 < i < |run| ==> run[i - 1] != run[i]
    ensures Weight(run[|run| - 1]) + |run| - 1 <= Weight(run[0])
  {
    hide Rewrites, Weight;
    if |run| > 1 {
      var last := |run| - 1;
      RewritesAreLighter(run[last - 1], run[last]);
      RunsAreBounded(run[..last]);
    }
  }
}

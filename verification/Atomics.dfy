/** The kernel's 64-bit atomics: load-linked/store-conditional retry loops of
    any number of CPUs, interleaved one instruction at a time on one counter. */
module Atomics {
  import opened Bits
  import opened Machine

  // --------------------------------------------------- sequential meaning

  datatype AluOp = Add | Sub | And | Orr | Xor

  function Alu(op: AluOp, x: Octa, y: Octa): Octa {
    match op
    case Add => Wrap(x + y)
    case Sub => Wrap(x - y)
    case And => AndNotBound(x, y); x - AndNot(x, y)
    case Orr => Or64(x, y)
    case Xor => AndNotBound(x, y); AndNotBound(y, x); Or64(AndNot(x, y), AndNot(y, x))
  }

  function Or64(x: Octa, y: Octa): Octa {
    Pow64();
    OrBound(x, y, 64);
    Or(x, y)
  }

  /** Addition and subtraction of 64-bit numbers; the difference is the one
      number that y brings back to x. */
  lemma AluArithmetic(x: Octa, y: Octa, r: Octa)
    ensures Alu(Add, x, y) == if x + y < TWO64 then x + y else x + y - TWO64
    ensures Alu(Sub, x, y) == if x >= y then x - y else x - y + TWO64
    ensures (r + y) % TWO64 == x <==> r == Alu(Sub, x, y)
  {
    WrapWithin(x + y);
    WrapWithin(x - y);
    WrapWithin(r + y);
    assert Wrap(r + y) == (r + y) % TWO64;
    hide Wrap;
  }

  lemma WrapWithin(v: int)
    requires 0 - TWO64 <= v < 2 * TWO64
    ensures Wrap(v) == if v < 0 then v + TWO64 else if v < TWO64 then v else v - TWO64
  {
    WrapAdd(v, 0);
    WrapAdd(v + TWO64, 0);
    WrapAdd(v - TWO64, 0);
    WrapMultiple(v, 1);
    WrapMultiple(v, -1);
  }

  /** The three bitwise operations, at every bit. */
  lemma AluBitwise(x: Octa, y: Octa, k: nat)
    ensures Alu(And, x, y) / Pow2(k) % 2 == 1 <==> x / Pow2(k) % 2 == 1 && y / Pow2(k) % 2 == 1
    ensures Alu(Orr, x, y) / Pow2(k) % 2 == 1 <==> x / Pow2(k) % 2 == 1 || y / Pow2(k) % 2 == 1
    ensures Alu(Xor, x, y) / Pow2(k) % 2 == 1 <==> x / Pow2(k) % 2 != y / Pow2(k) % 2
  {
    AndBit(x, y, k);
    OrBit(x, y, k);
    AndNotBit(x, y, k);
    AndNotBit(y, x, k);
    OrBit(AndNot(x, y), AndNot(y, x), k);
    BitTwo(x, k);
    BitTwo(y, k);
    BitTwo(Alu(And, x, y), k);
    BitTwo(Alu(Orr, x, y), k);
    BitTwo(Alu(Xor, x, y), k);
    hide Or, AndNot, Pow2, Bit;
  }

  lemma BitTwo(x: nat, k: nat)
    ensures Bit(x, k) <==> x / Pow2(k) % 2 == 1
    ensures !Bit(x, k) <==> x / Pow2(k) % 2 == 0
  {
  }

  datatype Call =
    | Plain(op: AluOp, a: Octa)
    | OpReturn(op: AluOp, a: Octa)
    | FetchOp(op: AluOp, a: Octa)
    | Xchg(a: Octa)
    | CmpXchg(expected: Octa, a: Octa)
    | DecIfPositive
    | FetchAddUnless(a: Octa, u: Octa)
    | SetTo(a: Octa)
    | ReadIt

  /** The calls that leave the counter alone on some values. */
  predicate Declines(call: Call, v: Octa) {
    match call
    case CmpXchg(expected, _) => v != expected
    case DecIfPositive => v == 0 || v >= TWO63
    case FetchAddUnless(_, u) => v == u
    case _ => false
  }

  /** The counter after the call, run alone on counter value v. */
  function NewValue(call: Call, v: Octa): Octa {
    if Declines(call, v) then v
    else match call
      case Plain(op, a) => Alu(op, v, a)
      case OpReturn(op, a) => Alu(op, v, a)
      case FetchOp(op, a) => Alu(op, v, a)
      case Xchg(a) => a
      case CmpXchg(_, a) => a
      case DecIfPositive => Wrap(v - 1)
      case FetchAddUnless(a, _) => Alu(Add, v, a)
      case SetTo(a) => a
      case ReadIt => v
  }

  /** What the call returns, run alone on counter value v. */
  function Result(call: Call, v: Octa): Octa {
    match call
    case Plain(_, _) => 0
    case OpReturn(op, a) => Alu(op, v, a)
    case DecIfPositive => Wrap(v - 1)
    case SetTo(_) => 0
    case _ => v
  }

  // ------------------------------------------------------------- programs

  datatype Name = Res | Val | Tmp | A | B

  datatype Regs = Regs(res: Octa, val: Octa, tmp: Octa, a: Octa, b: Octa) {
    function Get(n: Name): Octa {
      match n case Res => res case Val => val case Tmp => tmp case A => a case B => b
    }
    function Put(n: Name, v: Octa): Regs {
      match n
      case Res => this.(res := v)
      case Val => this.(val := v)
      case Tmp => this.(tmp := v)
      case A => this.(a := v)
      case B => this.(b := v)
    }
  }

  datatype Ins =
    | Lro(dst: Name)
    | Op3(op: AluOp, dst: Name, x: Name, y: Name)
    | Dec(dst: Name, x: Name)
    | Sco(flag: Name, src: Name)
    | Brnz(x: Name, target: nat)
    | Brnp(x: Name, target: nat)
    | Breq(x: Name, y: Name, target: nat)
    | Brne(x: Name, y: Name, target: nat)
    | Fence
    | Store(src: Name)
    | Load(dst: Name)

  /** The instruction sequences of the inline assembly. */
  function Program(call: Call): seq<Ins> {
    match call
    case Plain(op, _) => [Lro(Res), Op3(op, Res, Res, A), Sco(Tmp, Res), Brnz(Tmp, 0)]
    case OpReturn(op, _) => [Lro(Res), Op3(op, Res, Res, A), Sco(Tmp, Res), Brnz(Tmp, 0)]
    case FetchOp(op, _) => [Lro(Res), Op3(op, Val, Res, A), Sco(Tmp, Val), Brnz(Tmp, 0)]
    case Xchg(_) => [Lro(Res), Sco(Tmp, A), Brnz(Tmp, 0)]
    case CmpXchg(_, _) => [Lro(Res), Brne(Res, B, 4), Sco(Tmp, A), Brnz(Tmp, 0)]
    case DecIfPositive => [Lro(Res), Brnp(Res, 6), Dec(Tmp, Res), Sco(Tmp, Tmp), Brnz(Tmp, 0), Fence]
    case FetchAddUnless(_, _) => [Lro(Res), Breq(Res, B, 6), Op3(Add, Tmp, Res, A), Sco(Tmp, Tmp), Brnz(Tmp, 0), Fence]
    case SetTo(_) => [Store(A)]
    case ReadIt => [Load(Res)]
  }

  function ArgA(call: Call): Octa {
    match call case DecIfPositive => 0 case ReadIt => 0 case _ => call.a
  }

  function ArgB(call: Call): Octa {
    match call case CmpXchg(e, _) => e case FetchAddUnless(_, u) => u case _ => 0
  }

  function Returned(call: Call, r: Regs): Octa {
    match call
    case Plain(_, _) => 0
    case SetTo(_) => 0
    case DecIfPositive => Wrap(r.res - 1)
    case _ => r.res
  }

  // --------------------------------------------------------------- system

  /** How sco decides: a reservation that another store destroys (it may also
      fail for no reason), or the emulator's comparison with the loaded value. */
  datatype Monitor = Reservation | CompareValue

  datatype Task = Task(call: Call, pc: nat, regs: Regs, ticket: nat, start: nat, lin: Option<nat>)

  datatype Cpu = Cpu(task: Option<Task>, link: Option<Octa>, intact: bool)

  /** A point where a call took effect. */
  datatype Entry = Entry(ticket: nat, cpu: nat, call: Call, before: Octa, time: nat)

  datatype Outcome = Outcome(call: Call, ret: Octa, start: nat, end: nat, index: nat)

  datatype System = System(counter: Octa, cpus: seq<Cpu>, clock: nat, tickets: nat,
                           log: seq<Entry>, finished: map<nat, Outcome>)

  datatype Event = Begin(c: nat, call: Call) | Execute(c: nat, willing: bool) | End(c: nat)

  function Tick(s: System): System { s.(clock := s.clock + 1) }

  function SetCpu(s: System, c: nat, p: Cpu): System
    requires c < |s.cpus|
  {
    s.(cpus := s.cpus[c := p])
  }

  /** A store by any CPU ends every CPU's reservation. */
  function StoreCounter(s: System, v: Octa): System {
    s.(counter := v,
       cpus := seq(|s.cpus|, i requires 0 <= i < |s.cpus| => s.cpus[i].(intact := false)))
  }

  function Took(s: System, c: nat, t: Task): System {
    s.(log := s.log + [Entry(t.ticket, c, t.call, s.counter, s.clock)])
  }

  function ScoSucceeds(m: Monitor, s: System, p: Cpu, willing: bool): bool {
    match m
    case Reservation => willing && p.link.Some? && p.intact
    case CompareValue => p.link.Some? && p.link.value == s.counter
  }

  function Jumped(t: Task, taken: bool, target: nat): Task {
    t.(pc := if taken then target else t.pc + 1)
  }

  /** An instruction that touches nothing shared. */
  function LocalTask(t: Task, i: Ins): Task {
    var r := t.regs;
    match i
    case Op3(op, dst, x, y) => t.(regs := r.Put(dst, Alu(op, r.Get(x), r.Get(y))), pc := t.pc + 1)
    case Dec(dst, x) => t.(regs := r.Put(dst, Wrap(r.Get(x) - 1)), pc := t.pc + 1)
    case Brnz(x, target) => Jumped(t, r.Get(x) != 0, target)
    case Brnp(x, target) => Jumped(t, r.Get(x) == 0 || r.Get(x) >= TWO63, target)
    case Breq(x, y, target) => Jumped(t, r.Get(x) == r.Get(y), target)
    case Brne(x, y, target) => Jumped(t, r.Get(x) != r.Get(y), target)
    case _ => t.(pc := t.pc + 1)
  }

  /** Execute instruction i of task t on CPU c.  The call is entered in the log
      by the instruction at which it takes effect: its successful sco, or the
      lro whose value makes it decline. */
  function ExecuteIns(m: Monitor, s: System, c: nat, t: Task, i: Ins, willing: bool): System
    requires c < |s.cpus|
  {
    var p := s.cpus[c];
    match i
    case Lro(dst) =>
      var t1 := t.(regs := t.regs.Put(dst, s.counter), pc := t.pc + 1);
      if Declines(t.call, s.counter) then
        SetCpu(Took(s, c, t), c, Cpu(Some(t1.(lin := Some(|s.log|))), Some(s.counter), true))
      else SetCpu(s, c, Cpu(Some(t1), Some(s.counter), true))
    case Sco(flag, src) =>
      if ScoSucceeds(m, s, p, willing) then
        var t1 := t.(regs := t.regs.Put(flag, 0), pc := t.pc + 1, lin := Some(|s.log|));
        SetCpu(StoreCounter(Took(s, c, t), t.regs.Get(src)), c, Cpu(Some(t1), None, false))
      else
        SetCpu(s, c, Cpu(Some(t.(regs := t.regs.Put(flag, 1), pc := t.pc + 1)), None, false))
    case Store(src) =>
      SetCpu(StoreCounter(Took(s, c, t), t.regs.Get(src)), c,
             p.(task := Some(t.(pc := t.pc + 1, lin := Some(|s.log|))), intact := false))
    case Load(dst) =>
      SetCpu(Took(s, c, t), c,
             p.(task := Some(t.(regs := t.regs.Put(dst, s.counter), pc := t.pc + 1, lin := Some(|s.log|)))))
    case _ => SetCpu(s, c, p.(task := Some(LocalTask(t, i))))
  }

  function BeginCall(s: System, c: nat, call: Call): System
    requires c < |s.cpus|
  {
    var t := Task(call, 0, Regs(0, 0, 0, ArgA(call), ArgB(call)), s.tickets, s.clock, None);
    SetCpu(s, c, s.cpus[c].(task := Some(t))).(tickets := s.tickets + 1)
  }

  function EndCall(s: System, c: nat, t: Task): System
    requires c < |s.cpus| && t.lin.Some?
  {
    var o := Outcome(t.call, Returned(t.call, t.regs), t.start, s.clock, t.lin.value);
    SetCpu(s, c, s.cpus[c].(task := None)).(finished := s.finished[t.ticket := o])
  }

  /** One event; None when it is not enabled. */
  function Step(m: Monitor, s: System, e: Event): Option<System> {
    if e.c >= |s.cpus| then None
    else
      var p := s.cpus[e.c];
      match e
      case Begin(c, call) =>
        if p.task.Some? then None
        else
          Some(Tick(BeginCall(s, c, call)))
      case Execute(c, willing) =>
        if p.task.None? || p.task.value.pc >= |Program(p.task.value.call)| then None
        else
          var t := p.task.value;
          Some(Tick(ExecuteIns(m, s, c, t, Program(t.call)[t.pc], willing)))
      case End(c) =>
        if p.task.None? || p.task.value.pc < |Program(p.task.value.call)| || p.task.value.lin.None? then None
        else
          Some(Tick(EndCall(s, c, p.task.value)))
  }

  function Run(m: Monitor, s: System, es: seq<Event>): Option<System>
    decreases |es|
  {
    if es == [] then Some(s)
    else
      var o := Step(m, s, es[0]);
      if o.None? then None else Run(m, o.value, es[1..])
  }

  function Initial(v: Octa, n: nat): System {
    System(v, seq(n, _ => Cpu(None, None, false)), 0, 0, [], map[])
  }

  // ------------------------------------------------------------ invariant

  /** The counter after the logged calls, run one after the other. */
  function ValueAfter(init: Octa, log: seq<Entry>): Octa {
    if log == [] then init
    else NewValue(log[|log| - 1].call, ValueAfter(init, log[..|log| - 1]))
  }

  /** Each entry saw the value its predecessors left, and so does the counter. */
  predicate Replays(init: Octa, log: seq<Entry>, counter: Octa) {
    && counter == ValueAfter(init, log)
    && forall i :: 0 <= i < |log| ==> log[i].before == ValueAfter(init, log[..i])
  }

  predicate LogOk(init: Octa, s: System) {
    && Replays(init, s.log, s.counter)
    && (forall i :: 0 <= i < |s.log| ==> s.log[i].time < s.clock && s.log[i].ticket < s.tickets)
    && (forall i, j :: 0 <= i < j < |s.log| ==> s.log[i].time < s.log[j].time)
    && (forall i, j :: 0 <= i < j < |s.log| ==> s.log[i].ticket != s.log[j].ticket)
  }

  /** Every logged effect belongs to a finished call or to the running one of its CPU. */
  predicate OwnersOk(s: System) {
    forall i :: 0 <= i < |s.log| ==> Owned(s, i)
  }

  predicate Owned(s: System, i: nat)
    requires i < |s.log|
  {
    var e := s.log[i];
    || (e.ticket in s.finished && s.finished[e.ticket].index == i)
    || Running(s, e.cpu, i)
  }

  /** Entry i is the effect of the call that CPU c is running. */
  predicate Running(s: System, c: nat, i: nat)
    requires i < |s.log|
  {
    && c < |s.cpus| && s.cpus[c].task.Some? && s.log[i].cpu == c
    && var t := s.cpus[c].task.value;
       t.ticket == s.log[i].ticket && t.lin == Some(i) && t.call == s.log[i].call && t.start <= s.log[i].time
  }

  predicate OutcomeOk(s: System, ticket: nat)
    requires ticket in s.finished
  {
    var o := s.finished[ticket];
    && ticket < s.tickets && o.index < |s.log|
    && s.log[o.index].ticket == ticket && s.log[o.index].call == o.call
    && o.ret == Result(o.call, s.log[o.index].before)
    && o.start <= s.log[o.index].time < o.end < s.clock
  }

  predicate FinishedOk(s: System) {
    forall k :: k in s.finished ==> OutcomeOk(s, k)
  }

  predicate LinkOk(s: System, p: Cpu) {
    p.link.Some? && p.intact ==> s.counter == p.link.value
  }

  /** The entry of a call that has taken effect. */
  predicate InLog(s: System, c: nat, t: Task) {
    && t.lin.Some? && t.lin.value < |s.log|
    && var e := s.log[t.lin.value];
       e.ticket == t.ticket && e.cpu == c && e.call == t.call && t.start <= e.time
  }

  predicate NotInLog(s: System, t: Task) {
    t.lin.None? && forall i :: 0 <= i < |s.log| ==> s.log[i].ticket != t.ticket
  }

  predicate TookEffect(s: System, c: nat, t: Task) {
    InLog(s, c, t) && Returned(t.call, t.regs) == Result(t.call, s.log[t.lin.value].before)
  }

  function ScoAt(call: Call): nat {
    match call
    case Xchg(_) => 1
    case DecIfPositive => 3
    case FetchAddUnless(_, _) => 3
    case _ => 2
  }

  predicate Loops(call: Call) { !call.SetTo? && !call.ReadIt? }

  /** Registers between a successful lro of v and the sco. */
  predicate Loaded(t: Task, v: Octa) {
    && t.regs.res == (if (t.call.Plain? || t.call.OpReturn?) && t.pc == 2 then NewValue(t.call, v) else v)
    && (t.pc == ScoAt(t.call) ==>
          (match t.call
           case Plain(_, _) => t.regs.res
           case OpReturn(_, _) => t.regs.res
           case FetchOp(_, _) => t.regs.val
           case Xchg(_) => t.regs.a
           case CmpXchg(_, _) => t.regs.a
           case _ => t.regs.tmp) == NewValue(t.call, v))
  }

  predicate PhaseOk(s: System, c: nat, t: Task)
    requires c < |s.cpus|
  {
    var p, k := s.cpus[c], ScoAt(t.call);
    if !Loops(t.call) then (if t.pc == 0 then NotInLog(s, t) else TookEffect(s, c, t))
    else if t.pc == 0 then NotInLog(s, t)
    else if t.pc <= k then
      && p.link.Some? && Loaded(t, p.link.value)
      && (if Declines(t.call, p.link.value)
          then t.pc == 1 && InLog(s, c, t) && s.log[t.lin.value].before == p.link.value
          else NotInLog(s, t))
    else if t.pc == k + 1 && t.regs.tmp != 0 then NotInLog(s, t)
    else TookEffect(s, c, t)
  }

  predicate TaskOk(s: System, c: nat, t: Task)
    requires c < |s.cpus|
  {
    && t.regs.a == ArgA(t.call) && t.regs.b == ArgB(t.call)
    && t.pc <= |Program(t.call)| && t.ticket < s.tickets && t.start < s.clock
    && t.ticket !in s.finished
    && PhaseOk(s, c, t)
  }

  predicate CpuOk(s: System, c: nat)
    requires c < |s.cpus|
  {
    LinkOk(s, s.cpus[c]) && (s.cpus[c].task.Some? ==> TaskOk(s, c, s.cpus[c].task.value))
  }

  predicate CpusOk(s: System) {
    && (forall c :: 0 <= c < |s.cpus| ==> CpuOk(s, c))
    && (forall c, d :: 0 <= c < d < |s.cpus| && s.cpus[c].task.Some? && s.cpus[d].task.Some? ==>
          s.cpus[c].task.value.ticket != s.cpus[d].task.value.ticket)
  }

  predicate Inv(init: Octa, s: System) {
    LogOk(init, s) && OwnersOk(s) && FinishedOk(s) && CpusOk(s)
  }

  // -------------------------------------------------- what a step changes

  predicate LogExtends(s: System, s': System) {
    |s.log| <= |s'.log| && s'.log[..|s.log|] == s.log
  }

  /** A step of CPU c on behalf of call `tk`, as the other CPUs see it. */
  predicate Evolves(s: System, s': System, c: nat, tk: nat) {
    && |s'.cpus| == |s.cpus| && s.tickets <= s'.tickets && s.clock < s'.clock
    && LogExtends(s, s')
    && (forall i :: |s.log| <= i < |s'.log| ==> s'.log[i].ticket == tk)
    && (forall k :: k in s'.finished ==> k in s.finished || k == tk)
    && (forall k :: k in s.finished ==> k in s'.finished && s'.finished[k] == s.finished[k])
    && (forall d :: 0 <= d < |s.cpus| && d != c ==>
          && s'.cpus[d].task == s.cpus[d].task && s'.cpus[d].link == s.cpus[d].link
          && (s'.cpus[d].intact ==> s.cpus[d].intact && s'.counter == s.counter))
  }

  lemma OtherKeeps(s: System, s': System, c: nat, tk: nat, d: nat)
    requires Evolves(s, s', c, tk) && d < |s.cpus| && d != c && CpuOk(s, d)
    requires s.cpus[d].task.Some? ==> s.cpus[d].task.value.ticket != tk
    ensures CpuOk(s', d)
  {
    if s.cpus[d].task.Some? {
      var t := s.cpus[d].task.value;
      assert forall i :: 0 <= i < |s.log| ==> s'.log[i] == s'.log[..|s.log|][i];
      assert NotInLog(s, t) ==> NotInLog(s', t);
      assert InLog(s, d, t) ==> InLog(s', d, t) && s'.log[t.lin.value] == s.log[t.lin.value];
      hide Program, NewValue, Declines, Returned, Result, Loaded;
    }
  }

  lemma CpusKeep(s: System, s': System, c: nat, tk: nat)
    requires CpusOk(s) && c < |s.cpus| && Evolves(s, s', c, tk) && CpuOk(s', c)
    requires s.cpus[c].task.Some? ==> s.cpus[c].task.value.ticket == tk
    requires s.cpus[c].task.None? ==> tk >= s.tickets
    requires s'.cpus[c].task.Some? ==> s'.cpus[c].task.value.ticket == tk
    ensures CpusOk(s')
  {
    forall d | 0 <= d < |s.cpus| && d != c
      ensures CpuOk(s', d)
      ensures s.cpus[d].task.Some? ==> s.cpus[d].task.value.ticket != tk
    {
      assert CpuOk(s, d);
      hide PhaseOk;
      OtherKeeps(s, s', c, tk, d);
    }
    hide CpuOk;
  }

  lemma FinishedKeep(s: System, s': System, c: nat, tk: nat)
    requires FinishedOk(s) && Evolves(s, s', c, tk)
    requires tk in s'.finished ==> OutcomeOk(s', tk)
    ensures FinishedOk(s')
  {
    forall k | k in s'.finished ensures OutcomeOk(s', k) {
      if k != tk {
        assert OutcomeOk(s, k);
        assert s'.log[s.finished[k].index] == s'.log[..|s.log|][s.finished[k].index];
      }
    }
  }

  /** Owners stay owners, and a new entry is owned by the stepping CPU. */
  lemma OwnersKeep(s: System, s': System, c: nat, tk: nat)
    requires OwnersOk(s) && c < |s.cpus| && Evolves(s, s', c, tk)
    requires s.cpus[c].task.Some? && InLog(s, c, s.cpus[c].task.value) ==> Owned(s', s.cpus[c].task.value.lin.value)
    requires forall i :: |s.log| <= i < |s'.log| ==> Owned(s', i)
    ensures OwnersOk(s')
  {
    forall i | 0 <= i < |s'.log| ensures Owned(s', i) {
      if i < |s.log| {
        assert s'.log[i] == s'.log[..|s.log|][i];
        assert Owned(s, i);
        if Running(s, c, i) { assert InLog(s, c, s.cpus[c].task.value); }
      }
    }
  }

  lemma {:induction false} LogSame(init: Octa, s: System, s': System)
    requires LogOk(init, s) && s'.log == s.log && s'.counter == s.counter && s.clock <= s'.clock && s.tickets <= s'.tickets
    ensures LogOk(init, s')
  {
    hide ValueAfter;
  }

  /** Appending the effect of one call on the current counter. */
  lemma ReplayGrows(init: Octa, log: seq<Entry>, counter: Octa, e: Entry)
    requires Replays(init, log, counter) && e.before == counter
    ensures Replays(init, log + [e], NewValue(e.call, counter))
  {
    hide NewValue;
    var log' := log + [e];
    assert log'[..|log'| - 1] == log;
    assert ValueAfter(init, log') == NewValue(e.call, counter);
    hide ValueAfter;
    forall i | 0 <= i < |log'| ensures log'[i].before == ValueAfter(init, log'[..i]) {
      if i < |log| { assert log'[..i] == log[..i]; }
    }
  }

  lemma LogGrows(init: Octa, s: System, s': System, e: Entry)
    requires LogOk(init, s) && s'.log == s.log + [e] && e.before == s.counter
    requires s'.counter == NewValue(e.call, s.counter)
    requires e.time == s.clock < s'.clock && e.ticket < s.tickets <= s'.tickets
    requires forall i :: 0 <= i < |s.log| ==> s.log[i].ticket != e.ticket
    ensures LogOk(init, s') && LogExtends(s, s')
  {
    hide Replays, NewValue;
    ReplayGrows(init, s.log, s.counter, e);
  }

  // --------------------------------------------------------------- events

  /** The preconditions shared by the instruction lemmas. */
  predicate Executing(init: Octa, s: System, c: nat, t: Task) {
    Inv(init, s) && c < |s.cpus| && s.cpus[c].task == Some(t) && t.pc < |Program(t.call)|
  }

  predicate IsLocal(i: Ins) { !i.Lro? && !i.Sco? && !i.Store? && !i.Load? }

  lemma LocalPhase(s: System, c: nat, t: Task, s': System)
    requires c < |s.cpus| && c < |s'.cpus| && TaskOk(s, c, t) && t.pc < |Program(t.call)|
    requires IsLocal(Program(t.call)[t.pc])
    requires s'.log == s.log && s'.cpus[c].link == s.cpus[c].link
    ensures var t' := LocalTask(t, Program(t.call)[t.pc]);
            && PhaseOk(s', c, t') && t'.pc <= |Program(t.call)|
            && t' == t.(pc := t'.pc, regs := t'.regs) && t'.regs.a == t.regs.a && t'.regs.b == t.regs.b
  {
    hide Alu;
    match t.call
    case Plain(op, _) =>
    case OpReturn(op, _) =>
    case FetchOp(op, _) =>
    case Xchg(_) =>
    case CmpXchg(_, _) =>
    case DecIfPositive =>
    case FetchAddUnless(_, _) =>
    case SetTo(_) =>
    case ReadIt =>
  }

  /** The invariant after a step, from what the step did to its own CPU. */
  lemma StepKeeps(init: Octa, s: System, s': System, c: nat, tk: nat)
    requires Inv(init, s) && c < |s.cpus| && Evolves(s, s', c, tk) && CpuOk(s', c) && LogOk(init, s')
    requires s.cpus[c].task.Some? ==> s.cpus[c].task.value.ticket == tk
    requires s.cpus[c].task.None? ==> tk >= s.tickets
    requires s'.cpus[c].task.Some? ==> s'.cpus[c].task.value.ticket == tk
    requires tk in s'.finished ==> OutcomeOk(s', tk)
    requires s.cpus[c].task.Some? && InLog(s, c, s.cpus[c].task.value) ==> Owned(s', s.cpus[c].task.value.lin.value)
    requires forall i :: |s.log| <= i < |s'.log| ==> Owned(s', i)
    ensures Inv(init, s')
  {
    hide CpuOk, LogOk, Owned, InLog, Evolves, OutcomeOk;
    CpusKeep(s, s', c, tk);
    FinishedKeep(s, s', c, tk);
    OwnersKeep(s, s', c, tk);
  }

  lemma QuietEvolves(s: System, c: nat, p: Cpu, tk: nat)
    requires c < |s.cpus|
    ensures Evolves(s, Tick(SetCpu(s, c, p)), c, tk)
  {
  }

  lemma LogEvolves(s: System, c: nat, p: Cpu, t: Task)
    requires c < |s.cpus|
    ensures Evolves(s, Tick(SetCpu(Took(s, c, t), c, p)), c, t.ticket)
  {
  }

  lemma StoreEvolves(s: System, c: nat, p: Cpu, t: Task, v: Octa)
    requires c < |s.cpus|
    ensures Evolves(s, Tick(SetCpu(StoreCounter(Took(s, c, t), v), c, p)), c, t.ticket)
  {
  }

  lemma EndEvolves(s: System, c: nat, t: Task)
    requires c < |s.cpus| && t.lin.Some? && t.ticket !in s.finished
    ensures Evolves(s, Tick(EndCall(s, c, t)), c, t.ticket)
  {
    hide Returned;
  }

  lemma LocalKeeps(m: Monitor, init: Octa, s: System, c: nat, t: Task, willing: bool)
    requires Executing(init, s, c, t) && IsLocal(Program(t.call)[t.pc])
    ensures Inv(init, Tick(ExecuteIns(m, s, c, t, Program(t.call)[t.pc], willing)))
  {
    var i := Program(t.call)[t.pc];
    var s' := Tick(ExecuteIns(m, s, c, t, i, willing));
    assert CpuOk(s, c);
    assert s' == Tick(SetCpu(s, c, s.cpus[c].(task := Some(LocalTask(t, i)))));
    hide LogOk, OwnersOk, FinishedOk, CpusOk, Evolves, PhaseOk, LocalTask, ExecuteIns;
    LocalPhase(s, c, t, s');
    QuietEvolves(s, c, s.cpus[c].(task := Some(LocalTask(t, i))), t.ticket);
    hide Program;
    assert CpuOk(s', c);
    assert InLog(s, c, t) ==> Running(s', c, t.lin.value);
    hide CpuOk, InLog, SetCpu;
    LogSame(init, s, s');
    StepKeeps(init, s, s', c, t.ticket);
  }

  lemma BeginKeeps(init: Octa, s: System, c: nat, call: Call)
    requires Inv(init, s) && c < |s.cpus| && s.cpus[c].task.None?
    ensures Inv(init, Tick(BeginCall(s, c, call)))
  {
    var s' := Tick(BeginCall(s, c, call));
    assert CpuOk(s, c);
    assert s.tickets in s.finished ==> OutcomeOk(s, s.tickets);
    assert CpuOk(s', c);
    hide LogOk, OwnersOk, FinishedOk, CpusOk, CpuOk;
    LogSame(init, s, s');
    StepKeeps(init, s, s', c, s.tickets);
  }

  lemma EndPhase(s: System, c: nat, t: Task)
    requires c < |s.cpus| && TaskOk(s, c, t) && t.pc == |Program(t.call)|
    ensures TookEffect(s, c, t)
  {
  }

  lemma EndKeeps(init: Octa, s: System, c: nat, t: Task)
    requires Inv(init, s) && c < |s.cpus| && s.cpus[c].task == Some(t) && t.pc == |Program(t.call)|
    ensures t.lin.Some? && Inv(init, Tick(EndCall(s, c, t)))
  {
    assert CpuOk(s, c);
    EndPhase(s, c, t);
    hide Returned, Result, PhaseOk;
    assert s.log[t.lin.value].time < s.clock;
    var s' := Tick(EndCall(s, c, t));
    EndEvolves(s, c, t);
    hide LogOk, OwnersOk, FinishedOk, CpusOk, Evolves;
    assert CpuOk(s', c);
    assert Owned(s', t.lin.value);
    assert OutcomeOk(s', t.ticket);
    hide CpuOk, Owned, InLog, OutcomeOk, SetCpu;
    LogSame(init, s, s');
    StepKeeps(init, s, s', c, t.ticket);
  }

  /** lro: the value read is remembered; a call that declines it takes effect here. */
  lemma LroKeeps(m: Monitor, init: Octa, s: System, c: nat, t: Task, willing: bool)
    requires Executing(init, s, c, t) && Program(t.call)[t.pc].Lro?
    ensures Inv(init, Tick(ExecuteIns(m, s, c, t, Program(t.call)[t.pc], willing)))
  {
    assert CpuOk(s, c);
    LroFirst(s, c, t);
    LroPhase(m, s, c, t, willing);
    LroLog(m, init, s, c, t, willing);
    LroEvolves(m, s, c, t, willing);
    hide LogOk, OwnersOk, FinishedOk, CpusOk, CpuOk, Owned, InLog, Evolves, ExecuteIns, Program;
    StepKeeps(init, s, Tick(ExecuteIns(m, s, c, t, Lro(Res), willing)), c, t.ticket);
  }

  /** The log after an lro, and whose entry the new one is. */
  lemma LroLog(m: Monitor, init: Octa, s: System, c: nat, t: Task, willing: bool)
    requires LogOk(init, s) && c < |s.cpus| && s.cpus[c].task == Some(t) && NotInLog(s, t)
    requires t.ticket < s.tickets && t.start <= s.clock
    ensures var s' := Tick(ExecuteIns(m, s, c, t, Lro(Res), willing));
            && LogOk(init, s') && |s'.cpus| == |s.cpus| && s'.finished == s.finished
            && s'.cpus[c].task.Some? && s'.cpus[c].task.value.ticket == t.ticket
            && forall i :: |s.log| <= i < |s'.log| ==> Owned(s', i)
    ensures !InLog(s, c, t)
  {
    hide LogOk, NewValue, Owned, Declines;
    if Declines(t.call, s.counter) {
      LroTakes(m, init, s, c, t, willing);
    } else {
      LogSame(init, s, Tick(ExecuteIns(m, s, c, t, Lro(Res), willing)));
    }
  }

  lemma LroTakes(m: Monitor, init: Octa, s: System, c: nat, t: Task, willing: bool)
    requires LogOk(init, s) && c < |s.cpus| && s.cpus[c].task == Some(t) && NotInLog(s, t)
    requires t.ticket < s.tickets && t.start <= s.clock && Declines(t.call, s.counter)
    ensures var s' := Tick(ExecuteIns(m, s, c, t, Lro(Res), willing));
            LogOk(init, s') && |s'.log| == |s.log| + 1 && Owned(s', |s.log|)
  {
    hide LogOk, NewValue, Declines;
    var s' := Tick(ExecuteIns(m, s, c, t, Lro(Res), willing));
    DeclinedValue(t.call, s.counter);
    assert Running(s', c, |s.log|);
    hide Running, Owned, ExecuteIns;
    LogGrows(init, s, s', Entry(t.ticket, c, t.call, s.counter, s.clock));
  }

  lemma LroEvolves(m: Monitor, s: System, c: nat, t: Task, willing: bool)
    requires c < |s.cpus|
    ensures Evolves(s, Tick(ExecuteIns(m, s, c, t, Lro(Res), willing)), c, t.ticket)
  {
    hide Evolves, Declines;
    var t1 := t.(regs := t.regs.Put(Res, s.counter), pc := t.pc + 1);
    LogEvolves(s, c, Cpu(Some(t1.(lin := Some(|s.log|))), Some(s.counter), true), t);
    QuietEvolves(s, c, Cpu(Some(t1), Some(s.counter), true), t.ticket);
  }

  lemma DeclinedValue(call: Call, v: Octa)
    requires Declines(call, v)
    ensures NewValue(call, v) == v
  {
  }

  lemma LroFirst(s: System, c: nat, t: Task)
    requires c < |s.cpus| && TaskOk(s, c, t) && t.pc < |Program(t.call)| && Program(t.call)[t.pc].Lro?
    ensures t.pc == 0 && Program(t.call)[t.pc] == Lro(Res) && Loops(t.call) && NotInLog(s, t)
  {
  }

  lemma LroPhase(m: Monitor, s: System, c: nat, t: Task, willing: bool)
    requires c < |s.cpus| && TaskOk(s, c, t) && t.pc == 0 && Loops(t.call) && NotInLog(s, t)
    requires s.cpus[c].task == Some(t)
    ensures CpuOk(Tick(ExecuteIns(m, s, c, t, Lro(Res), willing)), c)
  {
    hide Alu;
  }

  /** Under either monitor, a successful sco finds the counter as it was loaded. */
  lemma ScoSees(m: Monitor, s: System, c: nat, willing: bool)
    requires c < |s.cpus| && CpuOk(s, c) && ScoSucceeds(m, s, s.cpus[c], willing)
    ensures s.cpus[c].link == Some(s.counter)
  {
  }

  lemma ScoPlace(s: System, c: nat, t: Task)
    requires c < |s.cpus| && TaskOk(s, c, t) && t.pc < |Program(t.call)| && Program(t.call)[t.pc].Sco?
    ensures Loops(t.call) && t.pc == ScoAt(t.call) && Program(t.call)[t.pc].flag == Tmp && NotInLog(s, t)
    ensures s.cpus[c].link.Some? && !Declines(t.call, s.cpus[c].link.value)
    ensures t.regs.Get(Program(t.call)[t.pc].src) == NewValue(t.call, s.cpus[c].link.value)
  {
    hide NewValue;
  }

  function ScoTask(s: System, t: Task, ok: bool): Task {
    if ok then t.(regs := t.regs.Put(Tmp, 0), pc := t.pc + 1, lin := Some(|s.log|))
    else t.(regs := t.regs.Put(Tmp, 1), pc := t.pc + 1)
  }

  /** The state after the sco of task t, storing v when it succeeds. */
  function ScoState(s: System, c: nat, t: Task, v: Octa, ok: bool): System
    requires c < |s.cpus|
  {
    var p := Cpu(Some(ScoTask(s, t, ok)), None, false);
    Tick(if ok then SetCpu(StoreCounter(Took(s, c, t), v), c, p) else SetCpu(s, c, p))
  }

  lemma ScoPhase(s: System, c: nat, t: Task, ok: bool)
    requires c < |s.cpus| && TaskOk(s, c, t) && Loops(t.call) && t.pc == ScoAt(t.call) && NotInLog(s, t)
    requires ok ==> s.cpus[c].link == Some(s.counter) && !Declines(t.call, s.counter)
    ensures CpuOk(ScoState(s, c, t, NewValue(t.call, s.counter), ok), c)
  {
    if ok {
      ScoReturns(t, s.cpus[c].link.value, ScoTask(s, t, true));
      hide NewValue, Loaded, Returned, Result;
    } else {
      hide NewValue, Loaded, Returned, Result;
    }
  }

  lemma ScoReturns(t: Task, v: Octa, t': Task)
    requires t'.call == t.call && t'.regs == t.regs.Put(Tmp, 0) && Loops(t.call) && t.pc == ScoAt(t.call)
    requires Loaded(t, v) && !Declines(t.call, v)
    ensures Returned(t.call, t'.regs) == Result(t.call, v)
  {
    hide Alu;
  }

  lemma ScoStateKeeps(init: Octa, s: System, c: nat, t: Task, ok: bool)
    requires Executing(init, s, c, t) && Loops(t.call) && t.pc == ScoAt(t.call) && NotInLog(s, t)
    requires ok ==> s.cpus[c].link == Some(s.counter) && !Declines(t.call, s.counter)
    ensures Inv(init, ScoState(s, c, t, NewValue(t.call, s.counter), ok))
  {
    assert CpuOk(s, c);
    hide NewValue, Program, LogOk, OwnersOk, FinishedOk, CpusOk, Evolves, PhaseOk, Declines;
    var s' := ScoState(s, c, t, NewValue(t.call, s.counter), ok);
    ScoPhase(s, c, t, ok);
    var p := Cpu(Some(ScoTask(s, t, ok)), None, false);
    if ok {
      StoreEvolves(s, c, p, t, NewValue(t.call, s.counter));
      LogGrows(init, s, s', Entry(t.ticket, c, t.call, s.counter, s.clock));
      assert Running(s', c, |s.log|);
    } else {
      QuietEvolves(s, c, p, t.ticket);
      LogSame(init, s, s');
    }
    hide ScoState, ScoTask, CpuOk;
    StepKeeps(init, s, s', c, t.ticket);
  }

  /** sco: on success the call takes effect on the current counter value. */
  lemma ScoKeeps(m: Monitor, init: Octa, s: System, c: nat, t: Task, willing: bool)
    requires Executing(init, s, c, t) && Program(t.call)[t.pc].Sco?
    ensures Inv(init, Tick(ExecuteIns(m, s, c, t, Program(t.call)[t.pc], willing)))
  {
    assert CpuOk(s, c);
    hide LogOk, OwnersOk, FinishedOk, CpusOk, PhaseOk, Declines, NewValue, StoreCounter, SetCpu, Took;
    ScoPlace(s, c, t);
    var ok := ScoSucceeds(m, s, s.cpus[c], willing);
    if ok { ScoSees(m, s, c, willing); }
    hide ScoSucceeds, CpuOk, TaskOk, Program, Loops, ScoAt;
    ScoStateKeeps(init, s, c, t, ok);
  }

  lemma PlainPhase(s: System, c: nat, t: Task)
    requires c < |s.cpus| && TaskOk(s, c, t) && t.pc < |Program(t.call)|
    requires Program(t.call)[t.pc].Store? || Program(t.call)[t.pc].Load?
    ensures !Loops(t.call) && t.pc == 0 && NotInLog(s, t) && !Declines(t.call, s.counter)
    ensures if t.call.SetTo? then Program(t.call)[t.pc] == Store(A) && t.regs.a == NewValue(t.call, s.counter)
            else t.call.ReadIt? && Program(t.call)[t.pc] == Load(Res) && NewValue(t.call, s.counter) == s.counter
  {
  }

  function StoredCpu(s: System, c: nat, t: Task): Cpu
    requires c < |s.cpus|
  {
    s.cpus[c].(task := Some(t.(pc := t.pc + 1, lin := Some(|s.log|))), intact := false)
  }

  function LoadedCpu(s: System, c: nat, t: Task): Cpu
    requires c < |s.cpus|
  {
    s.cpus[c].(task := Some(t.(regs := t.regs.Put(Res, s.counter), pc := t.pc + 1, lin := Some(|s.log|))))
  }

  lemma StorePhase(s: System, c: nat, t: Task)
    requires c < |s.cpus| && CpuOk(s, c) && s.cpus[c].task == Some(t) && t.call.SetTo? && t.pc == 0
    ensures CpuOk(Tick(SetCpu(StoreCounter(Took(s, c, t), t.regs.a), c, StoredCpu(s, c, t))), c)
  {
  }

  lemma LoadPhase(s: System, c: nat, t: Task)
    requires c < |s.cpus| && CpuOk(s, c) && s.cpus[c].task == Some(t) && t.call.ReadIt? && t.pc == 0
    ensures CpuOk(Tick(SetCpu(Took(s, c, t), c, LoadedCpu(s, c, t))), c)
  {
  }

  lemma StoreStateKeeps(init: Octa, s: System, c: nat, t: Task)
    requires Executing(init, s, c, t) && t.call.SetTo? && t.pc == 0 && NotInLog(s, t)
    requires t.regs.a == NewValue(t.call, s.counter) && t.ticket < s.tickets && t.start <= s.clock
    ensures Inv(init, Tick(SetCpu(StoreCounter(Took(s, c, t), t.regs.a), c, StoredCpu(s, c, t))))
  {
    hide LogOk, OwnersOk, FinishedOk, Evolves, NewValue, CpuOk, PhaseOk, TaskOk, Program;
    var s' := Tick(SetCpu(StoreCounter(Took(s, c, t), t.regs.a), c, StoredCpu(s, c, t)));
    StoreEvolves(s, c, StoredCpu(s, c, t), t, t.regs.a);
    StorePhase(s, c, t);
    LogGrows(init, s, s', Entry(t.ticket, c, t.call, s.counter, s.clock));
    assert Running(s', c, |s.log|);
    OutcomeLess(s, c, t);
    hide StoreCounter, StoredCpu, CpusOk;
    StepKeeps(init, s, s', c, t.ticket);
  }

  lemma LoadStateKeeps(init: Octa, s: System, c: nat, t: Task)
    requires Executing(init, s, c, t) && t.call.ReadIt? && t.pc == 0 && NotInLog(s, t)
    requires NewValue(t.call, s.counter) == s.counter && t.ticket < s.tickets && t.start <= s.clock
    ensures Inv(init, Tick(SetCpu(Took(s, c, t), c, LoadedCpu(s, c, t))))
  {
    hide LogOk, OwnersOk, FinishedOk, Evolves, NewValue, CpuOk, PhaseOk, TaskOk, Program;
    var s' := Tick(SetCpu(Took(s, c, t), c, LoadedCpu(s, c, t)));
    LogEvolves(s, c, LoadedCpu(s, c, t), t);
    LoadPhase(s, c, t);
    LogGrows(init, s, s', Entry(t.ticket, c, t.call, s.counter, s.clock));
    assert Running(s', c, |s.log|);
    OutcomeLess(s, c, t);
    hide LoadedCpu, CpusOk;
    StepKeeps(init, s, s', c, t.ticket);
  }

  lemma OutcomeLess(s: System, c: nat, t: Task)
    requires c < |s.cpus| && CpuOk(s, c) && s.cpus[c].task == Some(t)
    ensures t.ticket !in s.finished
  {
  }

  lemma ExecStore(m: Monitor, s: System, c: nat, t: Task, willing: bool)
    requires c < |s.cpus|
    ensures ExecuteIns(m, s, c, t, Store(A), willing)
         == SetCpu(StoreCounter(Took(s, c, t), t.regs.a), c, StoredCpu(s, c, t))
    ensures ExecuteIns(m, s, c, t, Load(Res), willing) == SetCpu(Took(s, c, t), c, LoadedCpu(s, c, t))
  {
    hide StoreCounter, Took, SetCpu;
  }

  /** atomic64_set and atomic64_read: one store or load. */
  lemma PlainKeeps(m: Monitor, init: Octa, s: System, c: nat, t: Task, willing: bool)
    requires Executing(init, s, c, t)
    requires Program(t.call)[t.pc].Store? || Program(t.call)[t.pc].Load?
    ensures Inv(init, Tick(ExecuteIns(m, s, c, t, Program(t.call)[t.pc], willing)))
  {
    assert CpuOk(s, c);
    hide LogOk, OwnersOk, FinishedOk, CpusOk, PhaseOk, NewValue, StoreCounter, SetCpu, Took, ExecuteIns;
    PlainPhase(s, c, t);
    ExecStore(m, s, c, t, willing);
    hide Inv;
    if t.call.SetTo? {
      StoreStateKeeps(init, s, c, t);
    } else {
      LoadStateKeeps(init, s, c, t);
    }
  }

  /** Every event keeps the invariant. */
  lemma EventKeeps(m: Monitor, init: Octa, s: System, e: Event)
    requires Inv(init, s)
    ensures Step(m, s, e).Some? ==> Inv(init, Step(m, s, e).value)
  {
    hide Inv, ExecuteIns, BeginCall, EndCall, Program;
    if e.c < |s.cpus| {
      var p := s.cpus[e.c];
      match e
      case Begin(c, call) =>
        if p.task.None? { BeginKeeps(init, s, c, call); }
      case End(c) =>
        if p.task.Some? && p.task.value.pc >= |Program(p.task.value.call)| {
          PcBound(init, s, c, p.task.value);
          EndKeeps(init, s, c, p.task.value);
        }
      case Execute(c, willing) =>
        if p.task.Some? && p.task.value.pc < |Program(p.task.value.call)| {
          var t := p.task.value;
          match Program(t.call)[t.pc]
          case Lro(_) => LroKeeps(m, init, s, c, t, willing);
          case Sco(_, _) => ScoKeeps(m, init, s, c, t, willing);
          case Store(_) => PlainKeeps(m, init, s, c, t, willing);
          case Load(_) => PlainKeeps(m, init, s, c, t, willing);
          case _ => LocalKeeps(m, init, s, c, t, willing);
        }
    }
  }

  lemma PcBound(init: Octa, s: System, c: nat, t: Task)
    requires Inv(init, s) && c < |s.cpus| && s.cpus[c].task == Some(t)
    ensures t.pc <= |Program(t.call)|
  {
    assert CpuOk(s, c);
    hide Program, PhaseOk;
  }

  lemma {:induction false} RunKeeps(m: Monitor, init: Octa, s: System, es: seq<Event>)
    requires Inv(init, s)
    ensures Run(m, s, es).Some? ==> Inv(init, Run(m, s, es).value)
    decreases |es|
  {
    hide Inv, Step;
    if es != [] {
      EventKeeps(m, init, s, es[0]);
      if Step(m, s, es[0]).Some? { RunKeeps(m, init, Step(m, s, es[0]).value, es[1..]); }
    }
  }

  // ------------------------------------------------------------- theorems

  lemma Reached(m: Monitor, init: Octa, n: nat, es: seq<Event>, s: System)
    requires Run(m, Initial(init, n), es) == Some(s)
    ensures Inv(init, s)
  {
    InitialOk(init, n);
    hide Inv, Run;
    RunKeeps(m, init, Initial(init, n), es);
  }

  lemma OutcomeAt(init: Octa, s: System, k: nat)
    requires Inv(init, s) && k in s.finished
    ensures var o := s.finished[k];
            && o.index < |s.log| && s.log[o.index].ticket == k && s.log[o.index].call == o.call
            && s.log[o.index].before == ValueAfter(init, s.log[..o.index])
            && o.ret == Result(o.call, ValueAfter(init, s.log[..o.index]))
            && o.start <= s.log[o.index].time < o.end
  {
    hide ValueAfter, Result, CpusOk, OwnersOk;
    assert OutcomeOk(s, k);
  }

  lemma RealTime(init: Octa, s: System, j: nat, k: nat)
    requires Inv(init, s) && j in s.finished && k in s.finished && s.finished[j].end <= s.finished[k].start
    ensures s.finished[j].index < s.finished[k].index
  {
    hide ValueAfter, Result, CpusOk, OwnersOk, Replays;
    assert OutcomeOk(s, j) && OutcomeOk(s, k);
  }

  /** In every interleaving of any calls on any number of CPUs, under either
      monitor: the counter is the result of running the effective calls one
      after the other in log order; every finished call appears there exactly
      once, between its invocation and its response, and returned what it
      returns when run alone at that place; calls that do not overlap in time
      appear in their real-time order. */
  lemma Linearizable(m: Monitor, init: Octa, n: nat, es: seq<Event>, s: System)
    requires Run(m, Initial(init, n), es) == Some(s)
    ensures s.counter == ValueAfter(init, s.log)
    ensures forall i, j :: 0 <= i < j < |s.log| ==> s.log[i].ticket != s.log[j].ticket
    ensures forall i :: 0 <= i < |s.log| ==> Owned(s, i)
    ensures forall k :: k in s.finished ==>
              var o := s.finished[k];
              && o.index < |s.log| && s.log[o.index].ticket == k && s.log[o.index].call == o.call
              && o.ret == Result(o.call, ValueAfter(init, s.log[..o.index]))
              && o.start <= s.log[o.index].time < o.end
    ensures forall j, k :: j in s.finished && k in s.finished && s.finished[j].end <= s.finished[k].start ==>
              s.finished[j].index < s.finished[k].index
  {
    hide Run;
    Reached(m, init, n, es, s);
    hide ValueAfter, Result, CpusOk, Owned, FinishedOk, Initial;
    forall k | k in s.finished
      ensures var o := s.finished[k];
              && o.index < |s.log| && s.log[o.index].ticket == k && s.log[o.index].call == o.call
              && o.ret == Result(o.call, ValueAfter(init, s.log[..o.index]))
              && o.start <= s.log[o.index].time < o.end
    {
      OutcomeAt(init, s, k);
    }
    forall j, k | j in s.finished && k in s.finished && s.finished[j].end <= s.finished[k].start
      ensures s.finished[j].index < s.finished[k].index
    {
      RealTime(init, s, j, k);
    }
  }

  lemma InitialOk(init: Octa, n: nat)
    ensures Inv(init, Initial(init, n))
  {
  }

  /** No call gets stuck: at the end of its program it can always respond. */
  lemma EndEnabled(m: Monitor, init: Octa, n: nat, es: seq<Event>, s: System, c: nat)
    requires Run(m, Initial(init, n), es) == Some(s)
    requires c < |s.cpus| && s.cpus[c].task.Some?
             && s.cpus[c].task.value.pc >= |Program(s.cpus[c].task.value.call)|
    ensures Step(m, s, End(c)).Some?
  {
    Reached(m, init, n, es, s);
    hide Run, Inv, Program;
    PcBound(init, s, c, s.cpus[c].task.value);
    EndKeeps(init, s, c, s.cpus[c].task.value);
  }

  // ------------------------------------------------- a CPU left undisturbed

  /** k instructions of CPU c, every sco willing to succeed. */
  function Undisturbed(c: nat, k: nat): seq<Event> { seq(k, _ => Execute(c, true)) }

  /** The instructions a call takes when no other CPU interferes: each of its
      program once, or the lro and the branch that declines. */
  function SoloSteps(call: Call, v: Octa): nat { if Declines(call, v) then 2 else |Program(call)| }

  /** CPU c is running task t, and v is the counter. */
  predicate Stands(s: System, c: nat, t: Task, v: Octa) {
    c < |s.cpus| && s.cpus[c].task == Some(t) && s.counter == v
  }

  predicate Linked(s: System, c: nat)
    requires c < |s.cpus|
  {
    s.cpus[c].link == Some(s.counter) && s.cpus[c].intact
  }

  /** The state after the next instruction of CPU c. */
  function Stepped(m: Monitor, s: System, c: nat, t: Task): System
    requires c < |s.cpus| && t.pc < |Program(t.call)|
  {
    Tick(ExecuteIns(m, s, c, t, Program(t.call)[t.pc], true))
  }

  /** End is reached from s by k instructions of CPU c and the call's response. */
  predicate Finishes(m: Monitor, s: System, c: nat, k: nat, e: System) {
    Run(m, s, Undisturbed(c, k) + [End(c)]) == Some(e)
  }

  lemma Advance(m: Monitor, s: System, c: nat, t: Task, v: Octa, k: nat, e: System)
    requires Stands(s, c, t, v) && t.pc < |Program(t.call)| && k > 0
    requires Finishes(m, Stepped(m, s, c, t), c, k - 1, e)
    ensures Finishes(m, s, c, k, e)
  {
    hide Program, ExecuteIns;
    var es := Undisturbed(c, k) + [End(c)];
    assert es[1..] == Undisturbed(c, k - 1) + [End(c)];
  }

  lemma SoloLro(m: Monitor, s: System, c: nat, t: Task, v: Octa)
    requires Stands(s, c, t, v) && t.pc < |Program(t.call)| && Program(t.call)[t.pc] == Lro(Res)
    ensures var s' := Stepped(m, s, c, t);
            Stands(s', c, t.(regs := t.regs.(res := v), pc := t.pc + 1,
                             lin := if Declines(t.call, v) then Some(|s.log|) else t.lin), v) && Linked(s', c)
  {
    hide Declines, Program;
  }

  lemma SoloLocal(m: Monitor, s: System, c: nat, t: Task, v: Octa)
    requires Stands(s, c, t, v) && t.pc < |Program(t.call)| && IsLocal(Program(t.call)[t.pc])
    ensures var s' := Stepped(m, s, c, t);
            Stands(s', c, LocalTask(t, Program(t.call)[t.pc]), v) && (Linked(s, c) ==> Linked(s', c))
  {
    hide Program, LocalTask;
  }

  /** Nothing came in between: the sco succeeds. */
  lemma SoloSco(m: Monitor, s: System, c: nat, t: Task, v: Octa)
    requires Stands(s, c, t, v) && t.pc < |Program(t.call)| && Program(t.call)[t.pc].Sco? && Linked(s, c)
    ensures var i := Program(t.call)[t.pc];
            Stands(Stepped(m, s, c, t), c,
                   t.(regs := t.regs.Put(i.flag, 0), pc := t.pc + 1, lin := Some(|s.log|)), t.regs.Get(i.src))
  {
    hide Program, Regs.Put, Regs.Get;
  }

  lemma SoloAccess(m: Monitor, s: System, c: nat, t: Task, v: Octa)
    requires Stands(s, c, t, v) && t.pc < |Program(t.call)| && (t.call.SetTo? || t.call.ReadIt?)
    ensures var s' := Stepped(m, s, c, t);
            Stands(s', c, t.(regs := if t.call.ReadIt? then t.regs.(res := v) else t.regs, pc := t.pc + 1,
                             lin := Some(|s.log|)), if t.call.ReadIt? then v else t.regs.a)
  {
  }

  /** The response to a call that has taken effect. */
  lemma SoloEnd(m: Monitor, s: System, c: nat, t: Task, v: Octa) returns (e: System)
    requires Stands(s, c, t, v) && t.pc == |Program(t.call)| && t.lin.Some?
    ensures Finishes(m, s, c, 0, e) && e.counter == v
    ensures t.ticket in e.finished && e.finished[t.ticket].call == t.call && e.finished[t.ticket].ret == Returned(t.call, t.regs)
  {
    hide Program, Returned;
    e := Tick(EndCall(s, c, t));
    assert Run(m, e, []) == Some(e);
    var es := Undisturbed(c, 0) + [End(c)];
    assert es == [End(c)] && es[1..] == [] && Step(m, s, es[0]) == Some(e);
    assert Run(m, s, es) == Some(e);
  }

  predicate EndsWith(e: System, t: Task, v: Octa) {
    && e.counter == NewValue(t.call, v)
    && t.ticket in e.finished && e.finished[t.ticket].call == t.call && e.finished[t.ticket].ret == Result(t.call, v)
  }

  /** From the sco on. */
  lemma SoloTail(m: Monitor, s: System, c: nat, t: Task, v: Octa) returns (e: System)
    requires Stands(s, c, t, v) && Linked(s, c) && Loops(t.call) && t.pc == ScoAt(t.call)
    requires !Declines(t.call, v) && t.regs.Get(Program(t.call)[t.pc].src) == NewValue(t.call, v)
    requires Returned(t.call, t.regs.Put(Tmp, 0)) == Result(t.call, v)
    ensures Finishes(m, s, c, |Program(t.call)| - t.pc, e) && EndsWith(e, t, v)
  {
    hide NewValue, Result, Returned, ExecuteIns, Declines, Run, Stands, Finishes, Stepped;
    StandsWithin(s, c, t, v);
    SoloSco(m, s, c, t, v);
    var s1, t1, v1 := Stepped(m, s, c, t), t.(regs := t.regs.Put(Tmp, 0), pc := t.pc + 1, lin := Some(|s.log|)), NewValue(t.call, v);
    StandsWithin(s1, c, t1, v1);
    SoloLocal(m, s1, c, t1, v1);
    var s2, t2 := Stepped(m, s1, c, t1), LocalTask(t1, Program(t.call)[t1.pc]);
    if t2.pc == |Program(t.call)| {
      e := SoloEnd(m, s2, c, t2, v1);
      Advance(m, s1, c, t1, v1, 1, e);
      Advance(m, s, c, t, v, 2, e);
    } else {
      StandsWithin(s2, c, t2, v1);
      SoloLocal(m, s2, c, t2, v1);
      e := SoloEnd(m, Stepped(m, s2, c, t2), c, LocalTask(t2, Program(t.call)[t2.pc]), v1);
      Advance(m, s2, c, t2, v1, 1, e);
      Advance(m, s1, c, t1, v1, 2, e);
      Advance(m, s, c, t, v, 3, e);
    }
  }

  /** The registers at the sco of a call that does not decline v. */
  lemma SoloLoaded(t: Task, v: Octa)
    requires Loops(t.call) && !Declines(t.call, v) && t.pc == ScoAt(t.call) && Loaded(t, v) && t.regs.a == ArgA(t.call)
    ensures t.regs.Get(Program(t.call)[t.pc].src) == NewValue(t.call, v)
    ensures Returned(t.call, t.regs.Put(Tmp, 0)) == Result(t.call, v)
  {
    hide Alu;
  }

  /** A local instruction between lro and sco. */
  lemma SoloLoads(t: Task, v: Octa)
    requires Loops(t.call) && 1 <= t.pc < ScoAt(t.call) && Loaded(t, v) && !Declines(t.call, v)
    requires t.regs.a == ArgA(t.call) && t.regs.b == ArgB(t.call)
    ensures IsLocal(Program(t.call)[t.pc])
    ensures var t' := LocalTask(t, Program(t.call)[t.pc]);
            t' == t.(pc := t.pc + 1, regs := t'.regs) && Loaded(t', v) && t'.regs.a == t.regs.a && t'.regs.b == t.regs.b
  {
    hide Alu;
  }

  /** Between the lro and the sco. */
  lemma {:induction false} SoloMiddle(m: Monitor, s: System, c: nat, t: Task, v: Octa) returns (e: System)
    requires Stands(s, c, t, v) && Linked(s, c) && Loops(t.call) && 1 <= t.pc <= ScoAt(t.call) && Loaded(t, v)
    requires t.regs.a == ArgA(t.call) && t.regs.b == ArgB(t.call) && !Declines(t.call, v)
    ensures Finishes(m, s, c, |Program(t.call)| - t.pc, e) && EndsWith(e, t, v)
    decreases ScoAt(t.call) - t.pc
  {
    SoloPlace(t.call);
    hide NewValue, Result, Returned, ExecuteIns, Declines, Run, Stands, Finishes, Stepped, Program, Loaded, ScoAt, LocalTask;
    if t.pc == ScoAt(t.call) {
      SoloLoaded(t, v);
      e := SoloTail(m, s, c, t, v);
    } else {
      SoloLoads(t, v);
      SoloLocal(m, s, c, t, v);
      var t1 := LocalTask(t, Program(t.call)[t.pc]);
      StandsWithin(s, c, t, v);
      StandsWithin(Stepped(m, s, c, t), c, t1, v);
      e := SoloMiddle(m, Stepped(m, s, c, t), c, t1, v);
      Advance(m, s, c, t, v, |Program(t.call)| - t.pc, e);
    }
  }

  lemma StandsWithin(s: System, c: nat, t: Task, v: Octa)
    requires Stands(s, c, t, v)
    ensures c < |s.cpus|
  {
  }

  lemma SoloPlace(call: Call)
    requires Loops(call)
    ensures 1 <= ScoAt(call) < |Program(call)|
    ensures Program(call)[0] == Lro(Res)
  {
  }

  /** A declined call: the branch behind the lro leads to the end. */
  lemma SoloDeclined(t: Task, v: Octa)
    requires Declines(t.call, v) && t.pc == 1 && t.regs == Regs(v, 0, 0, ArgA(t.call), ArgB(t.call))
    ensures |Program(t.call)| > 1 && IsLocal(Program(t.call)[1])
    ensures LocalTask(t, Program(t.call)[1]) == t.(pc := |Program(t.call)|)
    ensures Returned(t.call, t.regs) == Result(t.call, v) && NewValue(t.call, v) == v
  {
  }

  lemma SoloReads(t: Task, v: Octa)
    requires Loops(t.call) && t.pc == 1 && !Declines(t.call, v) && t.regs == Regs(v, 0, 0, ArgA(t.call), ArgB(t.call))
    ensures Loaded(t, v)
  {
  }

  lemma SoloCall(m: Monitor, s: System, c: nat, t: Task, v: Octa) returns (e: System)
    requires Stands(s, c, t, v) && t.pc == 0 && t.regs == Regs(0, 0, 0, ArgA(t.call), ArgB(t.call)) && t.lin.None?
    ensures Finishes(m, s, c, SoloSteps(t.call, v), e) && EndsWith(e, t, v)
  {
    StandsWithin(s, c, t, v);
    if !Loops(t.call) {
      SoloAccess(m, s, c, t, v);
      hide ExecuteIns, Run, Stands, Finishes, Stepped;
      var t1 := t.(regs := if t.call.ReadIt? then t.regs.(res := v) else t.regs, pc := t.pc + 1, lin := Some(|s.log|));
      e := SoloEnd(m, Stepped(m, s, c, t), c, t1, if t.call.ReadIt? then v else t.regs.a);
      Advance(m, s, c, t, v, 1, e);
    } else {
      SoloPlace(t.call);
      SoloLro(m, s, c, t, v);
      hide NewValue, Result, Returned, ExecuteIns, Declines, Run, Stands, Finishes, Stepped, Program, Loaded, ScoAt, LocalTask, ArgA, ArgB;
      var s1 := Stepped(m, s, c, t);
      var t1 := t.(regs := t.regs.(res := v), pc := t.pc + 1, lin := if Declines(t.call, v) then Some(|s.log|) else t.lin);
      StandsWithin(s1, c, t1, v);
      if Declines(t.call, v) {
        SoloDeclined(t1, v);
        SoloLocal(m, s1, c, t1, v);
        e := SoloEnd(m, Stepped(m, s1, c, t1), c, t1.(pc := |Program(t.call)|), v);
        Advance(m, s1, c, t1, v, 1, e);
        Advance(m, s, c, t, v, 2, e);
      } else {
        SoloReads(t1, v);
        e := SoloMiddle(m, s1, c, t1, v);
        Advance(m, s, c, t, v, |Program(t.call)|, e);
      }
    }
  }

  /** Under either monitor, a call that a CPU starts and runs without another
      CPU's instruction in between is over after one turn of its program, has
      changed the counter as it does alone and returns what it returns alone. */
  lemma LoneCallCompletes(m: Monitor, s: System, c: nat, call: Call)
    requires c < |s.cpus| && s.cpus[c].task.None?
    ensures var o := Run(m, s, [Begin(c, call)] + Undisturbed(c, SoloSteps(call, s.counter)) + [End(c)]);
            && o.Some? && o.value.counter == NewValue(call, s.counter) && s.tickets in o.value.finished
            && o.value.finished[s.tickets].call == call && o.value.finished[s.tickets].ret == Result(call, s.counter)
  {
    var t := Task(call, 0, Regs(0, 0, 0, ArgA(call), ArgB(call)), s.tickets, s.clock, None);
    var s1 := Tick(BeginCall(s, c, call));
    assert Stands(s1, c, t, s.counter);
    hide NewValue, Result, Declines, Program, ArgA, ArgB, BeginCall, SoloSteps;
    var e := SoloCall(m, s1, c, t, s.counter);
    var rest := Undisturbed(c, SoloSteps(call, s.counter)) + [End(c)];
    var es := [Begin(c, call)] + Undisturbed(c, SoloSteps(call, s.counter)) + [End(c)];
    assert es[1..] == rest && es[0] == Begin(c, call);
  }

  // --------------------------------------------------- decrement if positive

  /** atomic64_dec_if_positive and the additions of a nonnegative amount. */
  predicate Counting(call: Call) {
    match call
    case DecIfPositive => true
    case Plain(op, a) => op == Add && a < TWO63
    case OpReturn(op, a) => op == Add && a < TWO63
    case FetchOp(op, a) => op == Add && a < TWO63
    case _ => false
  }

  /** The total of the logged additions. */
  function Added(log: seq<Entry>): nat {
    if log == [] then 0
    else Added(log[..|log| - 1]) + (if log[|log| - 1].call.DecIfPositive? then 0 else ArgA(log[|log| - 1].call))
  }

  /** The number of logged decrements that took one away. */
  function Taken(log: seq<Entry>): nat {
    if log == [] then 0
    else
      var e := log[|log| - 1];
      Taken(log[..|log| - 1]) + (if e.call.DecIfPositive? && !Declines(e.call, e.before) then 1 else 0)
  }

  lemma CountStep(e: Entry, v: Octa, added: nat, taken: nat, init: Octa)
    requires Counting(e.call) && e.before == v && v + taken == init + added
    requires init + added + (if e.call.DecIfPositive? then 0 else ArgA(e.call)) < TWO63
    ensures NewValue(e.call, v) + taken + (if e.call.DecIfPositive? && !Declines(e.call, v) then 1 else 0)
         == init + added + (if e.call.DecIfPositive? then 0 else ArgA(e.call))
  {
  }

  lemma {:induction false} CountLog(init: Octa, log: seq<Entry>)
    requires Replays(init, log, ValueAfter(init, log))
    requires (forall i :: 0 <= i < |log| ==> Counting(log[i].call)) && init + Added(log) < TWO63
    ensures ValueAfter(init, log) + Taken(log) == init + Added(log)
    ensures forall i :: 0 <= i < |log| ==> log[i].before < TWO63
  {
    hide Counting, NewValue, Declines;
    if log != [] {
      var prior := log[..|log| - 1];
      var e := log[|log| - 1];
      assert e.before == ValueAfter(init, prior);
      assert forall i :: 0 <= i < |prior| ==> log[..i] == prior[..i] && log[i] == prior[i];
      hide ValueAfter;
      CountLog(init, prior);
      CountStep(e, e.before, Added(prior), Taken(prior), init);
      LastValue(init, log);
    }
  }

  lemma LastValue(init: Octa, log: seq<Entry>)
    requires log != []
    ensures ValueAfter(init, log) == NewValue(log[|log| - 1].call, ValueAfter(init, log[..|log| - 1]))
  {
  }

  /** With only decrements-if-positive and nonnegative additions that do not
      overflow, in every interleaving: the counter stays nonnegative,
      successful decrements plus the counter are the initial value plus the
      additions, and a decrement returns a nonnegative number exactly when it
      took one away. */
  lemma NeverNegative(m: Monitor, init: Octa, n: nat, es: seq<Event>, s: System)
    requires Run(m, Initial(init, n), es) == Some(s)
    requires (forall i :: 0 <= i < |s.log| ==> Counting(s.log[i].call)) && init + Added(s.log) < TWO63
    ensures s.counter < TWO63
    ensures s.counter + Taken(s.log) == init + Added(s.log)
    ensures forall k :: k in s.finished && s.finished[k].call.DecIfPositive? ==>
              && s.finished[k].index < |s.log|
              && (s.finished[k].ret < TWO63 <==> !Declines(DecIfPositive, s.log[s.finished[k].index].before))
  {
    hide Run, Initial;
    Reached(m, init, n, es, s);
    assert LogOk(init, s);
    hide Inv;
    CountLog(init, s.log);
    hide ValueAfter, Replays, Added, Taken, Counting;
    forall k | k in s.finished && s.finished[k].call.DecIfPositive?
      ensures && s.finished[k].index < |s.log|
              && (s.finished[k].ret < TWO63 <==> !Declines(DecIfPositive, s.log[s.finished[k].index].before))
    {
      OutcomeAt(init, s, k);
      DecResult(s.log[s.finished[k].index].before);
    }
  }

  lemma DecResult(v: Octa)
    requires v < TWO63
    ensures Result(DecIfPositive, v) < TWO63 <==> !Declines(DecIfPositive, v)
  {
  }
}

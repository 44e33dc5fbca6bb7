/** mips/atomic.h: the LL/SC retry loops as instruction sequences executed by
    any number of CPUs over one shared word. The hardware assumption is that a
    store conditional succeeds exactly while the link set by the CPU's last LL
    stands, and that a store by another CPU breaks it. */
module Atomics {
  import opened Words

  // ---------------------------------------------------------------- machine arithmetic

  datatype Alu = OR | AND | ADDU | SUBU

  function Compute(fn: Alu, x: word, y: word): word {
    match fn
    case OR => OrBits(x, y)
    case AND => AndBits(x, y)
    case ADDU => ToWord(x + y)
    case SUBU => ToWord(x - y)
  }

  function Complement(x: word): word { 0xffff_ffff - x }

  // ---------------------------------------------------------------- what the operations mean

  datatype Op =
    | SetBits(v: word)
    | ClearBits(v: word)
    | Add(v: word)
    | Subtract(v: word)
    | ReadAndClear
    | ReadAndSet(v: word)
    | CmpSet(cmpval: word, newval: word)
    | FetchAdd(v: word)

  /** The word an operation leaves when it runs alone on `m`. */
  function After(op: Op, m: word): word {
    match op
    case SetBits(v) => Compute(OR, v, m)
    case ClearBits(v) => Compute(AND, Complement(v), m)
    case Add(v) => Compute(ADDU, v, m)
    case Subtract(v) => Compute(SUBU, m, v)
    case ReadAndClear => 0
    case ReadAndSet(v) => v
    case CmpSet(c, n) => if m == c then n else m
    case FetchAdd(v) => Compute(ADDU, v, m)
  }

  predicate Returns(op: Op) { op.ReadAndClear? || op.ReadAndSet? || op.CmpSet? || op.FetchAdd? }

  /** The value it returns, 0 for the operations that return nothing. */
  function Answer(op: Op, m: word): word {
    if op.CmpSet? then (if m == op.cmpval then 1 else 0)
    else if Returns(op) then m else 0
  }

  // ---------------------------------------------------------------- the code

  datatype Reg = Zero | Ra | Rb | V0 | V1

  datatype Instr =
    | LL(rd: Reg)
    | ALU(fn: Alu, rd: Reg, rs: Reg, rt: Reg)
    | LI(rd: Reg, imm: word)
    | MOVE(rd: Reg, rs: Reg)
    | BNE(rs: Reg, rt: Reg, target: nat)
    | SC(rd: Reg)
    | BEQZ(rs: Reg, target: nat)
    | J(target: nat)

  /** The second instruction of the seven loops that differ only there. */
  function Middle(op: Op): Instr {
    match op
    case SetBits(_) => ALU(OR, Ra, V0, Ra)
    case ClearBits(_) => ALU(AND, Ra, V0, Ra)
    case Add(_) => ALU(ADDU, Ra, V0, Ra)
    case Subtract(_) => ALU(SUBU, Ra, Ra, V0)
    case ReadAndClear => LI(Rb, 0)
    case ReadAndSet(_) => ALU(OR, Rb, Zero, V0)
    case CmpSet(_, _) => BNE(Ra, V0, 6)
    case FetchAdd(_) => ALU(ADDU, Rb, V0, Ra)
  }

  /** The register that SC stores from and reports success in. */
  function Flag(op: Op): Reg {
    if op.ReadAndClear? || op.ReadAndSet? || op.FetchAdd? then Rb else Ra
  }

  function CodeLen(op: Op): nat { if op.CmpSet? then 7 else 4 }

  /** The instruction at `pc`; running past the last one returns. */
  function Code(op: Op, pc: nat): Instr
    requires pc < CodeLen(op)
  {
    if pc == 0 then LL(Ra)
    else if pc == 1 then Middle(op)
    else if op.CmpSet? then
      if pc == 2 then MOVE(Ra, V1)
      else if pc == 3 then SC(Ra)
      else if pc == 4 then BEQZ(Ra, 0)
      else if pc == 5 then J(7)
      else LI(Ra, 0)
    else if pc == 2 then SC(Flag(op))
    else BEQZ(Flag(op), 0)
  }

  /** The input operands; atomic_clear_32 complements its argument first. */
  function Input0(op: Op): word {
    match op
    case SetBits(v) => v
    case ClearBits(v) => Complement(v)
    case Add(v) => v
    case Subtract(v) => v
    case ReadAndClear => 0
    case ReadAndSet(v) => v
    case CmpSet(c, _) => c
    case FetchAdd(v) => v
  }

  function Input1(op: Op): word { if op.CmpSet? then op.newval else 0 }

  // ---------------------------------------------------------------- one CPU

  /** `seen` is an auxiliary variable: the number of stores that had committed
      at the last LL. */
  datatype Cpu = Idle | Busy(op: Op, pc: nat, ra: word, rb: word, link: bool, seen: nat)

  function Get(u: Cpu, r: Reg): word
    requires u.Busy?
  {
    match r
    case Zero => 0
    case Ra => u.ra
    case Rb => u.rb
    case V0 => Input0(u.op)
    case V1 => Input1(u.op)
  }

  function Put(u: Cpu, r: Reg, x: word): Cpu
    requires u.Busy?
  {
    match r case Ra => u.(ra := x) case Rb => u.(rb := x) case _ => u
  }

  /** What one instruction does: to the CPU, to the word, and whether the
      operation takes effect in this step (with the given answer). */
  datatype Effect = Effect(cpu: Cpu, mem: word, commit: bool, lin: bool, answer: word)

  function Next(u: Cpu): Cpu
    requires u.Busy?
  {
    u.(pc := u.pc + 1)
  }

  function Local(u: Cpu, mem: word): Effect { Effect(u, mem, false, false, 0) }

  function Execute(u: Cpu, mem: word, commits: nat): Effect
    requires u.Busy? && u.pc < CodeLen(u.op)
  {
    match Code(u.op, u.pc)
    case LL(rd) =>
      var u' := Next(Put(u, rd, mem)).(link := true, seen := commits);
      // a compare that is going to fail takes effect here
      if u.op.CmpSet? && mem != u.op.cmpval then Effect(u', mem, false, true, 0) else Local(u', mem)
    case ALU(fn, rd, rs, rt) => Local(Next(Put(u, rd, Compute(fn, Get(u, rs), Get(u, rt)))), mem)
    case MOVE(rd, rs) => Local(Next(Put(u, rd, Get(u, rs))), mem)
    case LI(rd, imm) => Local(Next(Put(u, rd, imm)), mem)
    case BNE(rs, rt, target) => Local(if Get(u, rs) != Get(u, rt) then u.(pc := target) else Next(u), mem)
    case SC(rd) =>
      if u.link
      then Effect(Next(Put(u, rd, 1)).(link := false), Get(u, rd), true, true, Answer(u.op, mem))
      else Local(Next(Put(u, rd, 0)), mem)
    case BEQZ(rs, target) => Local(if Get(u, rs) == 0 then u.(pc := target) else Next(u), mem)
    case J(target) => Local(u.(pc := target), mem)
  }

  // ---------------------------------------------------------------- the system

  datatype Event = Inv(cpu: nat, op: Op) | Lin(cpu: nat, op: Op, answer: word) | Res(cpu: nat, answer: word)

  /** All calls, effects and returns so far, latest last. */
  datatype History = Begin | Then(past: History, e: Event)

  datatype System = System(mem: word, commits: nat, cpus: seq<Cpu>, hist: History)

  datatype Step = Call(c: nat, op: Op) | Exec(c: nat)

  predicate Enabled(s: System, t: Step) {
    t.c < |s.cpus| && (t.Call? <==> s.cpus[t.c].Idle?)
  }

  function Unlink(u: Cpu): Cpu { if u.Busy? then u.(link := false) else u }

  function Finish(u: Cpu): word
    requires u.Busy?
  {
    if Returns(u.op) then u.ra else 0
  }

  function Do(s: System, t: Step): (s': System)
    requires Enabled(s, t)
    ensures |s'.cpus| == |s.cpus|
  {
    var u := s.cpus[t.c];
    if t.Call? then
      s.(cpus := s.cpus[t.c := Busy(t.op, 0, 0, 0, false, 0)], hist := Then(s.hist, Inv(t.c, t.op)))
    else if u.pc >= CodeLen(u.op) then
      s.(cpus := s.cpus[t.c := Idle], hist := Then(s.hist, Res(t.c, Finish(u))))
    else
      var f := Execute(u, s.mem, s.commits);
      var others := if f.commit then seq(|s.cpus|, i requires 0 <= i < |s.cpus| => Unlink(s.cpus[i])) else s.cpus;
      System(f.mem, if f.commit then s.commits + 1 else s.commits, others[t.c := f.cpu],
             if f.lin then Then(s.hist, Lin(t.c, u.op, f.answer)) else s.hist)
  }

  predicate Runs(s: System, ts: seq<Step>, s': System)
    decreases |ts|
  {
    if ts == [] then s' == s else Enabled(s, ts[0]) && Runs(Do(s, ts[0]), ts[1..], s')
  }

  function Boot(n: nat, m0: word): System { System(m0, 0, seq(n, _ => Idle), Begin) }

  // ---------------------------------------------------------------- linearizability

  datatype Phase = Quiet | Called(op: Op) | Done(op: Op, answer: word)

  /** Where the calls of CPU `c` stand after a history. */
  function PhaseOf(h: History, c: nat): Phase {
    if h.Begin? then Quiet
    else if h.e.cpu != c then PhaseOf(h.past, c)
    else match h.e
      case Inv(_, op) => Called(op)
      case Lin(_, op, a) => Done(op, a)
      case Res(_, _) => Quiet
  }

  /** Every call takes effect exactly once, between its invocation and its
      return, and returns the answer of that effect. */
  predicate Paired(h: History) {
    h.Begin? ||
    (Paired(h.past) &&
     match h.e
     case Inv(c, _) => PhaseOf(h.past, c) == Quiet
     case Lin(c, op, _) => PhaseOf(h.past, c) == Called(op)
     case Res(c, a) => PhaseOf(h.past, c).Done? && PhaseOf(h.past, c).answer == a)
  }

  /** The word after the effects of a history are applied one after another. */
  function Serial(m0: word, h: History): word {
    if h.Begin? then m0
    else if h.e.Lin? then After(h.e.op, Serial(m0, h.past)) else Serial(m0, h.past)
  }

  /** Every effect answers what the operation answers in that serial order. */
  predicate Legal(m0: word, h: History) {
    h.Begin? || (Legal(m0, h.past) && (h.e.Lin? ==> h.e.answer == Answer(h.e.op, Serial(m0, h.past))))
  }

  predicate Linearizable(m0: word, s: System) {
    Paired(s.hist) && Legal(m0, s.hist) && Serial(m0, s.hist) == s.mem
  }

  // ---------------------------------------------------------------- the invariant

  /** Between LL and SC: the link stands exactly while no store has committed
      since, and then the word is still the one that was loaded. */
  predicate Linked(u: Cpu, commits: nat)
    requires u.Busy?
  {
    u.seen <= commits && (u.link <==> u.seen == commits)
  }

  predicate CpuOk(p: Phase, mem: word, commits: nat, u: Cpu) {
    match u
    case Idle => p == Quiet
    case Busy(CmpSet(c, n), pc, ra, _, link, _) =>
      && pc <= 7
      && (pc == 0 ==> p == Called(u.op))
      && (1 <= pc <= 3 ==> Linked(u, commits))
      && (pc == 1 ==> (link ==> ra == mem) && (ra == c ==> p == Called(u.op)) && (ra != c ==> p == Done(u.op, 0)))
      && (pc == 2 ==> p == Called(u.op) && (link ==> mem == c))
      && (pc == 3 ==> p == Called(u.op) && (link ==> mem == c) && ra == n)
      && (pc == 4 ==> (ra == 0 && p == Called(u.op)) || (ra == 1 && p == Done(u.op, 1)))
      && (pc == 5 ==> ra == 1 && p == Done(u.op, 1))
      && (pc == 6 ==> p == Done(u.op, 0))
      && (pc == 7 ==> p == Done(u.op, ra))
    case Busy(op, pc, ra, rb, link, _) =>
      && pc <= 4
      && (pc == 0 ==> p == Called(op))
      && (1 <= pc <= 2 ==> Linked(u, commits) && p == Called(op))
      && (pc == 1 ==> (link ==> ra == mem))
      && (pc == 2 ==> (link ==> Get(u, Flag(op)) == After(op, mem) && (Returns(op) ==> ra == mem)))
      && (pc == 3 ==> (Get(u, Flag(op)) == 0 && p == Called(op)) || (Get(u, Flag(op)) == 1 && p == Done(op, Finish(u))))
      && (pc == 4 ==> p == Done(op, Finish(u)))
  }

  ghost predicate Valid(m0: word, s: System) {
    Linearizable(m0, s) && forall c | 0 <= c < |s.cpus| :: CpuOk(PhaseOf(s.hist, c), s.mem, s.commits, s.cpus[c])
  }

  function PhaseAfter(p: Phase, op: Op, f: Effect): Phase {
    if f.lin then Done(op, f.answer) else p
  }

  /** One instruction, seen from the CPU that executes it. */
  lemma ExecuteOk(p: Phase, mem: word, commits: nat, u: Cpu)
    requires u.Busy? && u.pc < CodeLen(u.op) && CpuOk(p, mem, commits, u)
    ensures var f := Execute(u, mem, commits);
            && CpuOk(PhaseAfter(p, u.op, f), f.mem, if f.commit then commits + 1 else commits, f.cpu)
            && (f.lin ==> p == Called(u.op) && f.answer == Answer(u.op, mem) && f.mem == After(u.op, mem))
            && (!f.lin ==> f.mem == mem)
            && (!f.commit ==> f.mem == mem)
  {
    if u.op.CmpSet? {
      ExecuteCmpSet(p, mem, commits, u);
    } else if u.pc == 1 {
      ExecuteArithmetic(p, mem, commits, u);
    }
  }

  lemma ExecuteCmpSet(p: Phase, mem: word, commits: nat, u: Cpu)
    requires u.Busy? && u.op.CmpSet? && u.pc < 7 && CpuOk(p, mem, commits, u)
    ensures var f := Execute(u, mem, commits);
            && CpuOk(PhaseAfter(p, u.op, f), f.mem, if f.commit then commits + 1 else commits, f.cpu)
            && (f.lin ==> p == Called(u.op) && f.answer == Answer(u.op, mem) && f.mem == After(u.op, mem))
            && (!f.lin ==> f.mem == mem)
  {
  }

  lemma ExecuteArithmetic(p: Phase, mem: word, commits: nat, u: Cpu)
    requires u.Busy? && !u.op.CmpSet? && u.pc == 1 && CpuOk(p, mem, commits, u)
    ensures var f := Execute(u, mem, commits);
            && CpuOk(p, mem, commits, f.cpu) && !f.lin && !f.commit && f.mem == mem
  {
    match u.op
    case SetBits(v) => case ClearBits(v) => case Add(v) => case Subtract(v) =>
    case ReadAndClear => case ReadAndSet(v) => OrZero(v); case FetchAdd(v) =>
  }

  /** A commit seen from any other CPU: its link breaks, its phase stands. */
  lemma UnlinkOk(p: Phase, mem: word, mem': word, commits: nat, u: Cpu)
    requires CpuOk(p, mem, commits, u)
    ensures CpuOk(p, mem', commits + 1, Unlink(u))
  {
  }

  lemma StepValid(m0: word, s: System, t: Step)
    requires Valid(m0, s) && Enabled(s, t)
    ensures Valid(m0, Do(s, t))
  {
    var u := s.cpus[t.c];
    var s' := Do(s, t);
    assert CpuOk(PhaseOf(s.hist, t.c), s.mem, s.commits, u);
    if t.Exec? && u.pc < CodeLen(u.op) {
      ExecuteOk(PhaseOf(s.hist, t.c), s.mem, s.commits, u);
      forall c | 0 <= c < |s.cpus|
        ensures CpuOk(PhaseOf(s'.hist, c), s'.mem, s'.commits, s'.cpus[c])
      {
        if c != t.c && s'.commits > s.commits {
          UnlinkOk(PhaseOf(s.hist, c), s.mem, s'.mem, s.commits, s.cpus[c]);
        }
      }
    }
  }

  /** Every run, of any number of CPUs and any operations, interleaved in any
      way at instruction level, is linearizable: the word is the fold of the
      effects in commit order, each call takes effect once between its
      invocation and its return, and returns the answer of the serial run. */
  lemma {:induction false} EveryRunLinearizable(n: nat, m0: word, ts: seq<Step>, s': System)
    requires Runs(Boot(n, m0), ts, s')
    ensures Linearizable(m0, s') && Valid(m0, s')
  {
    RunValid(m0, Boot(n, m0), ts, s');
  }

  lemma {:induction false} RunValid(m0: word, s: System, ts: seq<Step>, s': System)
    requires Valid(m0, s) && Runs(s, ts, s')
    ensures Valid(m0, s')
    decreases |ts|
  {
    if ts != [] {
      StepValid(m0, s, ts[0]);
      RunValid(m0, Do(s, ts[0]), ts[1..], s');
    }
  }

  /** In any reachable state, a store conditional fails exactly when another
      store has committed since this CPU's LL. */
  lemma FailureMeansInterference(m0: word, s: System, c: nat)
    requires Valid(m0, s) && c < |s.cpus| && s.cpus[c].Busy?
    requires s.cpus[c].pc < CodeLen(s.cpus[c].op) && Code(s.cpus[c].op, s.cpus[c].pc).SC?
    ensures var u := s.cpus[c];
            && u.seen <= s.commits
            && (!Execute(u, s.mem, s.commits).commit <==> s.commits > u.seen)
  {
    assert CpuOk(PhaseOf(s.hist, c), s.mem, s.commits, s.cpus[c]);
  }

  // ---------------------------------------------------------------- progress

  /** Upper bound on the instructions a CPU can still execute if no store
      commits: a doomed pass, then one more up to its SC. */
  function Rank(u: Cpu): nat {
    if u.Idle? then 0
    else if u.pc > 8 then 0
    else if Doomed(u) then 18 - u.pc
    else 9 - u.pc
  }

  predicate Doomed(u: Cpu)
    requires u.Busy?
  {
    if u.op.CmpSet? then (1 <= u.pc <= 3 && !u.link) || (u.pc == 4 && u.ra == 0)
    else (1 <= u.pc <= 2 && !u.link) || (u.pc == 3 && Get(u, Flag(u.op)) == 0)
  }

  function Total(cpus: seq<Cpu>): nat
    decreases |cpus|
  {
    if cpus == [] then 0 else Rank(cpus[0]) + Total(cpus[1..])
  }

  lemma {:induction false} TotalUpdate(cpus: seq<Cpu>, c: nat, u: Cpu)
    requires c < |cpus|
    ensures Total(cpus[c := u]) + Rank(cpus[c]) == Total(cpus) + Rank(u)
    decreases |cpus|
  {
    if c == 0 {
      assert cpus[c := u][1..] == cpus[1..];
    } else {
      assert cpus[c := u][1..] == cpus[1..][c - 1 := u];
      TotalUpdate(cpus[1..], c - 1, u);
    }
  }

  lemma {:induction false} TotalBound(cpus: seq<Cpu>)
    ensures Total(cpus) <= 18 * |cpus|
    decreases |cpus|
  {
    if cpus != [] { TotalBound(cpus[1..]); }
  }

  lemma RankFalls(p: Phase, mem: word, commits: nat, u: Cpu)
    requires u.Busy? && CpuOk(p, mem, commits, u)
    ensures u.pc < CodeLen(u.op) && !Execute(u, mem, commits).commit ==> Rank(Execute(u, mem, commits).cpu) < Rank(u)
    ensures Rank(Idle) < Rank(u)
  {
    if u.op.CmpSet? { } else { }
  }

  /** Lock freedom: however the CPUs are scheduled, fewer than 18 n + 1
      instructions can pass without a store committing, whatever state the
      system has reached. */
  lemma {:induction false} LockFree(m0: word, s: System, ts: seq<Step>, s': System)
    requires Valid(m0, s) && Runs(s, ts, s') && s'.commits == s.commits
    requires forall t | t in ts :: t.Exec?
    ensures |ts| <= Total(s.cpus) <= 18 * |s.cpus|
    decreases |ts|
  {
    TotalBound(s.cpus);
    if ts != [] {
      var s1, c := Do(s, ts[0]), ts[0].c;
      assert ts[0] in ts;
      StepValid(m0, s, ts[0]);
      CommitsGrow(s1, ts[1..], s');
      assert CpuOk(PhaseOf(s.hist, c), s.mem, s.commits, s.cpus[c]);
      RankFalls(PhaseOf(s.hist, c), s.mem, s.commits, s.cpus[c]);
      TotalUpdate(s.cpus, c, s1.cpus[c]);
      assert s1.cpus == s.cpus[c := s1.cpus[c]];
      LockFree(m0, s1, ts[1..], s');
    }
  }

  lemma {:induction false} CommitsGrow(s: System, ts: seq<Step>, s': System)
    requires Runs(s, ts, s')
    ensures s'.commits >= s.commits
    decreases |ts|
  {
    if ts != [] { CommitsGrow(Do(s, ts[0]), ts[1..], s'); }
  }

  // ---------------------------------------------------------------- the effects in plain arithmetic

  /** What each operation leaves in memory and returns, without the machine's
      arithmetic. */
  lemma EffectsAre(m: word, v: word, w: word)
    ensures After(Add(v), m) == (m + v) % 0x1_0000_0000 && After(FetchAdd(v), m) == (m + v) % 0x1_0000_0000
    ensures After(Subtract(v), m) == (m - v) % 0x1_0000_0000
    ensures After(ReadAndClear, m) == 0 && After(ReadAndSet(v), m) == v
    ensures After(CmpSet(v, w), m) == if m == v then w else m
    ensures Answer(FetchAdd(v), m) == m && Answer(ReadAndClear, m) == m && Answer(ReadAndSet(v), m) == m
    ensures Answer(CmpSet(v, w), m) == if m == v then 1 else 0
  {
  }

  /** Setting and clearing, bit by bit. */
  lemma BitEffects(m: word, v: word, k: nat)
    requires k < WIDTH
    ensures Bit(After(SetBits(v), m), k) == (Bit(m, k) || Bit(v, k))
    ensures Bit(After(ClearBits(v), m), k) == (Bit(m, k) && !Bit(v, k))
  {
    Pow2Of32();
    BitOrBits(WIDTH, v, m, k);
    BitZipBits((a, b) => a && b, WIDTH, Complement(v), m, k);
    BitComplement(WIDTH, v, k);
  }

  /** Adding and then subtracting leaves the word as it was. */
  lemma AddUndone(m: word, v: word)
    ensures After(Subtract(v), After(Add(v), m)) == m
  {
  }

  /** The effects of a history. */
  function Effects(h: History): nat {
    match h case Begin => 0 case Then(past, e) => Effects(past) + (if e.Lin? then 1 else 0)
  }

  predicate OnlyAdds(h: History, v: word) {
    h.Then? ==> OnlyAdds(h.past, v) && (h.e.Lin? ==> h.e.op == Add(v) || h.e.op == FetchAdd(v))
  }

  lemma {:induction false} CountedSerially(m0: word, h: History, v: word)
    requires OnlyAdds(h, v)
    ensures Serial(m0, h) == (m0 + Effects(h) * v) % 0x1_0000_0000
  {
    if h.Then? {
      CountedSerially(m0, h.past, v);
      if h.e.Lin? { OneMore(m0 + Effects(h.past) * v, v, Effects(h.past)); }
    }
  }

  lemma OneMore(x: int, v: word, n: nat)
    ensures (x % 0x1_0000_0000 + v) % 0x1_0000_0000 == (x + v) % 0x1_0000_0000
    ensures (n + 1) * v == n * v + v
  {
  }

  /** No update is lost: when any number of CPUs only add `v`, memory has grown
      by `v` once for every addition that took effect. */
  lemma CounterExact(n: nat, m0: word, ts: seq<Step>, s': System, v: word)
    requires Runs(Boot(n, m0), ts, s') && OnlyAdds(s'.hist, v)
    ensures s'.mem == (m0 + Effects(s'.hist) * v) % 0x1_0000_0000
  {
    EveryRunLinearizable(n, m0, ts, s');
    CountedSerially(m0, s'.hist, v);
  }
}

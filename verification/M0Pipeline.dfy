/** The instruction pipeline of the Cortex-M0 (three stages) and M0+ (two stages): a queue of fetched
    halfwords with bubbles, against a machine that executes one instruction at a time. */
module M0Pipeline {
  import opened Bits
  import opened M0Stack
  import opened M0Exception

  const NOP: half := 0x46C0

  /** What executing an instruction does: the new core and whether it set `takenBranch`, or that it ended
      the simulation */
  datatype Outcome = Outcome(core: Core, taken: bool) | Ended

  /** `code(a)` is the word at the word-aligned address `a` of code memory, which does not change;
      `exec` decodes and executes an instruction, given the second half of a 32-bit one. */
  datatype Machine = Machine(stages: nat, code: word -> word, exec: (half, half, Core) -> Outcome) {
    /** The halfword at address `a` */
    function Half(a: word): half {
      if a % 4 < 2 then code(a - a % 4) % 0x1_0000 else code(a - a % 4) / 0x1_0000
    }
  }

  /** BL, MRS, MSR, DSB and ISB: opcode groups 60 and 61 have a second half. */
  predicate Is32(insn: half) {
    insn / 0x400 == 60 || insn / 0x400 == 61
  }

  /** What the pipeline relies on: the execute functions change the PC only when they report a taken
      branch, every 32-bit instruction reports one, and the bubble instruction does nothing. */
  ghost predicate MachineOk(m: Machine) {
    && (m.stages == 2 || m.stages == 3)
    && (forall i: half, j: half, c: Core {:trigger m.exec(i, j, c)} | |c.gpr| == 16 ::
          KeepsToPipe(i, c, m.exec(i, j, c)) && (i == NOP ==> m.exec(i, j, c) == Outcome(c, false)))
  }

  ghost predicate KeepsToPipe(insn: half, c: Core, o: Outcome)
    requires |c.gpr| == 16
  {
    o.Outcome? ==> |o.core.gpr| == 16 && (!o.taken ==> o.core.gpr[PC] == c.gpr[PC]) && (Is32(insn) ==> o.taken)
  }

  // ---------------------------------------------------------------------------------------------
  // The machine that executes one instruction at a time

  /** `next` is the address of the next instruction with its thumb bit; the PC of `core` is unused. */
  datatype Sequential = Sequential(core: Core, next: word)
  datatype SeqResult = SeqStopped | SeqRunning(s: Sequential)

  function NoPc(c: Core): (r: Core)
    requires |c.gpr| == 16
    ensures |r.gpr| == 16
  {
    c.(gpr := c.gpr[PC := 0])
  }

  /** Executes the instruction at `next`, which sees its own address plus four as the PC. */
  function SeqStep(m: Machine, s: Sequential): SeqResult
    requires |s.core.gpr| == 16
  {
    if s.next % 2 == 0 then SeqStopped
    else
      var insn := m.Half(s.next - 1);
      var second := if Is32(insn) then m.Half(Sub32(Add32(s.next, 2), 1)) else 0;
      var o := m.exec(insn, second, s.core.(gpr := s.core.gpr[PC := Add32(s.next, 4)]));
      if o.Ended? || |o.core.gpr| != 16 then SeqStopped
      else SeqRunning(Sequential(NoPc(o.core), if o.taken then o.core.gpr[PC] else Add32(s.next, 2)))
  }

  // ---------------------------------------------------------------------------------------------
  // The pipeline

  /** The word fetched last */
  datatype Buffer = Buffer(valid: bool, address: word, data: word)

  datatype Pipe = Pipe(core: Core, queue: seq<half>, bubbles: nat, buffer: Buffer)
  datatype PipeResult = Stopped | Running(p: Pipe)

  /** `fetch`: the halfword at `address`, from the buffer if it holds the word around it */
  function Fetch(m: Machine, b: Buffer, address: word): (r: (half, Buffer))
  {
    var aligned := address - address % 4;
    var b' := if !b.valid || b.address != aligned then Buffer(true, aligned, m.code(aligned)) else b;
    (if address % 4 < 2 then b'.data % 0x1_0000 else b'.data / 0x1_0000, b')
  }

  function Bubbles(n: nat): (q: seq<half>)
    ensures |q| == n
    ensures forall i | 0 <= i < n :: q[i] == NOP
  {
    seq(n, _ => NOP)
  }

  function Flush(m: Machine, p: Pipe): Pipe
    requires m.stages >= 1
  {
    p.(queue := Bubbles(m.stages - 1), bubbles := m.stages - 1, buffer := p.buffer.(valid := false))
  }

  function AddPc(c: Core, n: word): (r: Core)
    requires |c.gpr| == 16
    ensures |r.gpr| == 16
  {
    c.(gpr := c.gpr[PC := Add32(c.gpr[PC], n)])
  }

  /** One pass of the processing loop, without exceptions, sleep and breakpoints */
  function Cycle(m: Machine, p: Pipe): (r: PipeResult)
    requires |p.core.gpr| == 16 && m.stages >= 1
    ensures r.Running? ==> |r.p.core.gpr| == 16
  {
    var pc := p.core.gpr[PC];
    if pc % 2 == 0 then Stopped
    else
      var f := Fetch(m, p.buffer, pc - 1);
      Issue(m, p.core, p.queue + [f.0], p.bubbles, f.1)
  }

  /** What executing the front of the queue gives */
  function Executed(m: Machine, core: Core, queue: seq<half>): Outcome
    requires |core.gpr| == 16 && |queue| > 0 && (Is32(queue[0]) ==> |queue| >= 2)
  {
    m.exec(queue[0], if Is32(queue[0]) then queue[1] else 0, if m.stages == 2 then AddPc(core, 2) else core)
  }

  /** The queue of a cycle, with the halfword it fetches */
  function QueueOf(m: Machine, p: Pipe): (queue: seq<half>)
    requires |p.core.gpr| == 16 && p.core.gpr[PC] % 2 == 1
    ensures |queue| == |p.queue| + 1
  {
    p.queue + [Fetch(m, p.buffer, p.core.gpr[PC] - 1).0]
  }

  /** Executes the front of the queue. A 32-bit instruction takes its second half from the queue too. */
  function Issue(m: Machine, core: Core, queue: seq<half>, bubbles: nat, buffer: Buffer): (r: PipeResult)
    requires |core.gpr| == 16 && m.stages >= 1 && |queue| > 0
    ensures r.Running? ==> |r.p.core.gpr| == 16
  {
    var insn := queue[0];
    if Is32(insn) && |queue| < 2 then Stopped
    else
      var halves := if Is32(insn) then 2 else 1;
      var o := Executed(m, core, queue);
      if o.Ended? || |o.core.gpr| != 16 then Stopped
      else Running(Retire(m, o, queue[halves..], if bubbles > 0 then bubbles - 1 else 0, buffer))
  }

  /** After execution: a taken branch flushes the pipeline, else the PC of three stages moves on. */
  function Retire(m: Machine, o: Outcome, queue: seq<half>, bubbles: nat, buffer: Buffer): (p: Pipe)
    requires o.Outcome? && |o.core.gpr| == 16 && m.stages >= 1
    ensures |p.core.gpr| == 16
  {
    if o.taken then Flush(m, Pipe(o.core, queue, bubbles, buffer))
    else Pipe(if m.stages == 3 then AddPc(o.core, 2) else o.core, queue, bubbles, buffer)
  }

  /** `getNextExecutionPc`: the fetch address less the halfwords in the queue, bubbles not counted */
  function NextExecutionPc(p: Pipe): word
    requires |p.core.gpr| == 16 && p.bubbles <= |p.queue|
  {
    var pc := p.core.gpr[PC];
    (pc - pc % 2 - 2 * (|p.queue| - p.bubbles)) % TWO32
  }

  // ---------------------------------------------------------------------------------------------
  // The invariant

  /** The i-th halfword after `next`, modulo the address space */
  function Ahead(next: word, i: int): word {
    (next + 2 * i) % TWO32
  }

  /** The queue holds the bubbles and then the halfwords in memory from `next` on. */
  ghost predicate QueueInv(m: Machine, queue: seq<half>, bubbles: nat, next: word) {
    forall i | 0 <= i < |queue| :: queue[i] == if i < bubbles then NOP else HalfAt(m, Ahead(next, i - bubbles))
  }

  /** The buffer agrees with memory. */
  ghost predicate BufferInv(m: Machine, b: Buffer) {
    b.valid ==> b.address % 4 == 0 && b.data == m.code(b.address)
  }

  /** The PC is where the next halfword is fetched from. */
  ghost predicate PipeInv(m: Machine, p: Pipe, next: word) {
    && |p.core.gpr| == 16
    && |p.queue| == m.stages - 1 && p.bubbles <= m.stages - 1
    && p.core.gpr[PC] == Ahead(next, m.stages - 1 - p.bubbles)
    && QueueInv(m, p.queue, p.bubbles, next)
    && BufferInv(m, p.buffer)
  }

  /** The halfword an address with thumb bit stands for */
  function HalfAt(m: Machine, pc: word): half {
    m.Half(pc - pc % 2)
  }

  lemma FetchReadsCode(m: Machine, b: Buffer, pc: word)
    requires pc % 2 == 1 && BufferInv(m, b)
    ensures var f := Fetch(m, b, pc - 1);
            f.0 == HalfAt(m, pc) && f.1.valid && BufferInv(m, f.1)
  {
    var a := pc - 1;
    assert (a - a % 4) % 4 == 0;
  }

  lemma FlushInv(m: Machine, p: Pipe)
    requires MachineOk(m) && |p.core.gpr| == 16
    ensures PipeInv(m, Flush(m, p), p.core.gpr[PC])
  {
  }

  lemma AheadStep(next: word, i: int)
    ensures Add32(Ahead(next, i), 2) == Ahead(next, i + 1)
    ensures Ahead(Add32(next, 2), i) == Ahead(next, i + 1)
    ensures Ahead(next, i) % 2 == next % 2
    ensures Ahead(next, 0) == next
  {
    WrapAdd(next + 2 * i, 2);
    WrapAdd(next + 2, 2 * i);
    AheadParity(next, i);
  }

  lemma AheadParity(next: word, i: int)
    ensures Ahead(next, i) % 2 == next % 2
  {
    var q := (next + 2 * i) / TWO32;
    SameParity(next, i - q * 0x8000_0000, Ahead(next, i));
  }

  lemma SameParity(a: int, b: int, c: int)
    requires c == a + 2 * b
    ensures c % 2 == a % 2
  {
  }

  lemma NextIsOdd(m: Machine, p: Pipe, next: word)
    requires PipeInv(m, p, next) && p.core.gpr[PC] % 2 == 1
    ensures next % 2 == 1
  {
    AheadParity(next, m.stages - 1 - p.bubbles);
  }

  lemma WrapAdd(a: int, b: int)
    ensures (a % TWO32 + b) % TWO32 == (a + b) % TWO32
  {
    var q := a / TWO32;
    assert a + b == (a % TWO32 + b) + q * TWO32;
  }

  /** The address the pipeline reports is that of the next real instruction. */
  lemma NextExecutionPcExact(m: Machine, p: Pipe, next: word)
    requires MachineOk(m) && PipeInv(m, p, next)
    ensures NextExecutionPc(p) == next - next % 2
  {
    var n := m.stages - 1 - p.bubbles;
    AheadStep(next, n);
    var pc := Ahead(next, n);
    assert pc == p.core.gpr[PC];
    var base, back: word := next + 2 * n, next - next % 2;
    WrapAdd(base, back - base);
    NoTruncation(back);
  }

  // ---------------------------------------------------------------------------------------------
  // One cycle

  /** What is in the queue once the next halfword has been fetched */
  lemma Fetched(m: Machine, p: Pipe, next: word)
    requires MachineOk(m) && PipeInv(m, p, next) && next % 2 == 1
    ensures var pc := p.core.gpr[PC];
            && pc % 2 == 1
            && var f := Fetch(m, p.buffer, pc - 1);
               && BufferInv(m, f.1)
               && QueueInv(m, p.queue + [f.0], p.bubbles, next)
               && Cycle(m, p) == Issue(m, p.core, p.queue + [f.0], p.bubbles, f.1)
  {
    AheadStep(next, m.stages - 1 - p.bubbles);
    FetchReadsCode(m, p.buffer, p.core.gpr[PC]);
  }

  lemma QueueMovesOn(m: Machine, queue: seq<half>, bubbles: nat, next: word)
    requires |queue| > 0 && QueueInv(m, queue, bubbles, next)
    ensures bubbles > 0 ==> QueueInv(m, queue[1..], bubbles - 1, next)
    ensures bubbles == 0 ==> QueueInv(m, queue[1..], 0, Add32(next, 2))
  {
    var rest := queue[1..];
    forall i | 0 <= i < |rest|
      ensures rest[i] == queue[i + 1]
      ensures bubbles == 0 ==> rest[i] == HalfAt(m, Ahead(Add32(next, 2), i))
    {
      AheadStep(next, i);
    }
  }

  /** A bubble does nothing but move the pipeline on. */
  lemma BubbleCycle(m: Machine, p: Pipe, next: word)
    requires MachineOk(m) && PipeInv(m, p, next) && p.bubbles > 0 && next % 2 == 1
    ensures var r := Cycle(m, p);
            && r.Running? && PipeInv(m, r.p, next) && r.p.bubbles == p.bubbles - 1
            && NoPc(r.p.core) == NoPc(p.core)
  {
    Fetched(m, p, next);
    var f := Fetch(m, p.buffer, p.core.gpr[PC] - 1);
    BubbleIssue(m, p.core, p.queue + [f.0], p.bubbles, f.1, next);
  }

  lemma BubbleIssue(m: Machine, core: Core, queue: seq<half>, bubbles: nat, buffer: Buffer, next: word)
    requires MachineOk(m) && |core.gpr| == 16 && |queue| == m.stages && 0 < bubbles <= m.stages - 1
    requires core.gpr[PC] == Ahead(next, m.stages - 1 - bubbles)
    requires QueueInv(m, queue, bubbles, next) && BufferInv(m, buffer)
    ensures var r := Issue(m, core, queue, bubbles, buffer);
            && r.Running? && PipeInv(m, r.p, next) && r.p.bubbles == bubbles - 1
            && NoPc(r.p.core) == NoPc(core)
  {
    AheadStep(next, m.stages - 1 - bubbles);
    QueueMovesOn(m, queue, bubbles, next);
    assert queue[0] == NOP && !Is32(NOP);
    var r := Issue(m, core, queue, bubbles, buffer);
    assert r == Running(Pipe(AddPc(core, 2), queue[1..], bubbles - 1, buffer));
  }

  /** The core an instruction at `next` executes on: its PC reads as the instruction address plus four. */
  function AtInstruction(core: Core, next: word): (c: Core)
    requires |core.gpr| == 16
    ensures |c.gpr| == 16
  {
    core.(gpr := core.gpr[PC := Add32(next, 4)])
  }

  /** With no bubbles, a cycle executes the next instruction as the sequential machine does, and ends the
      simulation where that does. */
  lemma RealCycle(m: Machine, p: Pipe, next: word)
    requires MachineOk(m) && PipeInv(m, p, next) && p.bubbles == 0 && next % 2 == 1
    ensures var r, s := Cycle(m, p), SeqStep(m, Sequential(NoPc(p.core), next));
            && (r.Running? <==> s.SeqRunning?)
            && (r.Running? ==> PipeInv(m, r.p, s.s.next) && NoPc(r.p.core) == s.s.core)
  {
    Fetched(m, p, next);
    var f := Fetch(m, p.buffer, p.core.gpr[PC] - 1);
    var queue := p.queue + [f.0];
    FrontOfQueue(m, queue, next);
    PcReads(m, p.core, next);
    var insn, second := queue[0], if Is32(queue[0]) then queue[1] else 0;
    var o := m.exec(insn, second, AtInstruction(p.core, next));
    SeqStepIs(m, p.core, next, insn, second, o);
    var rest := queue[if Is32(insn) then 2 else 1..];
    assert o == Executed(m, p.core, queue);
    if o.Outcome? {
      assert Cycle(m, p) == Running(Retire(m, o, rest, 0, f.1));
      if o.taken {
        FlushInv(m, Pipe(o.core, rest, 0, f.1));
      } else {
        QueueMovesOn(m, queue, 0, next);
        RetireNotTaken(m, o, rest, f.1, next);
      }
    }
  }

  lemma FrontOfQueue(m: Machine, queue: seq<half>, next: word)
    requires |queue| >= 2 && QueueInv(m, queue, 0, next)
    ensures queue[0] == HalfAt(m, next) && queue[1] == HalfAt(m, Add32(next, 2))
  {
    AheadStep(next, 0);
  }

  /** During execution the PC reads as the address of the instruction plus four. */
  lemma PcReads(m: Machine, core: Core, next: word)
    requires MachineOk(m) && |core.gpr| == 16 && core.gpr[PC] == Ahead(next, m.stages - 1)
    ensures (if m.stages == 2 then AddPc(core, 2) else core) == AtInstruction(core, next)
  {
    AheadStep(next, 1);
    assert Ahead(next, 2) == Add32(next, 4);
  }

  lemma SeqStepIs(m: Machine, core: Core, next: word, insn: half, second: half, o: Outcome)
    requires MachineOk(m) && |core.gpr| == 16 && next % 2 == 1
    requires insn == HalfAt(m, next)
    requires second == if Is32(insn) then HalfAt(m, Add32(next, 2)) else 0
    requires o == m.exec(insn, second, AtInstruction(core, next))
    ensures o.Outcome? ==> |o.core.gpr| == 16
    ensures SeqStep(m, Sequential(NoPc(core), next)) ==
            if o.Ended? then SeqStopped
            else SeqRunning(Sequential(NoPc(o.core), if o.taken then o.core.gpr[PC] else Add32(next, 2)))
  {
    OddNext(next);
    SameAtInstruction(core, next);
  }

  lemma OddNext(next: word)
    requires next % 2 == 1
    ensures Add32(next, 2) % 2 == 1 && Sub32(Add32(next, 2), 1) == Add32(next, 2) - 1
  {
    assert Add32(next, 2) == next + 2 || Add32(next, 2) == next + 2 - TWO32;
  }

  lemma SameAtInstruction(core: Core, next: word)
    requires |core.gpr| == 16
    ensures AtInstruction(NoPc(core), next) == AtInstruction(core, next)
  {
    assert AtInstruction(NoPc(core), next).gpr == AtInstruction(core, next).gpr;
  }

  lemma RetireNotTaken(m: Machine, o: Outcome, queue: seq<half>, buffer: Buffer, next: word)
    requires m.stages == 2 || m.stages == 3
    requires o.Outcome? && !o.taken && |o.core.gpr| == 16 && o.core.gpr[PC] == Add32(next, 4)
    requires |queue| == m.stages - 1 && QueueInv(m, queue, 0, Add32(next, 2)) && BufferInv(m, buffer)
    ensures var p := Retire(m, o, queue, 0, buffer);
            PipeInv(m, p, Add32(next, 2)) && NoPc(p.core) == NoPc(o.core)
  {
    AheadStep(next, 1);
    AheadStep(next, 2);
    assert Ahead(next, 2) == Add32(next, 4);
  }

  // ---------------------------------------------------------------------------------------------
  // Whole runs

  function Iterate<S>(step: S -> S, s: S, n: nat): S {
    if n == 0 then s else step(Iterate(step, s, n - 1))
  }

  /** Number of the first `n` states of an iteration that satisfy `p` */
  function Count<S>(step: S -> S, p: S -> bool, s: S, n: nat): (c: nat)
    ensures c <= n
  {
    if n == 0 then 0 else Count(step, p, s, n - 1) + (if p(Iterate(step, s, n - 1)) then 1 else 0)
  }

  /** A step of `f` in a real state goes with a step of `g`, any other step with none. */
  lemma {:induction false} Simulation<A(!new), B(!new)>(f: A -> A, counts: A -> bool, g: B -> B, related: (A, B) -> bool,
                                                        a: A, b: B, n: nat)
    requires related(a, b)
    requires forall x, y | related(x, y) :: related(f(x), if counts(x) then g(y) else y)
    ensures related(Iterate(f, a, n), Iterate(g, b, Count(f, counts, a, n)))
  {
    if n > 0 {
      Simulation(f, counts, g, related, a, b, n - 1);
    }
  }

  /** A stopped pipeline stays stopped. */
  function PipeStep(m: Machine): PipeResult -> PipeResult {
    (r: PipeResult) => if r.Running? && m.stages >= 1 && |r.p.core.gpr| == 16 then Cycle(m, r.p) else Stopped
  }

  function SeqStepper(m: Machine): SeqResult -> SeqResult {
    (s: SeqResult) => if s.SeqRunning? && |s.s.core.gpr| == 16 then SeqStep(m, s.s) else SeqStopped
  }

  /** The next cycle executes something other than a bubble. */
  function Real(): PipeResult -> bool {
    (r: PipeResult) => r.Running? && r.p.bubbles == 0
  }

  function RunPipe(m: Machine, p: Pipe, cycles: nat): PipeResult {
    Iterate(PipeStep(m), Running(p), cycles)
  }

  function RunSeq(m: Machine, s: Sequential, steps: nat): SeqResult {
    Iterate(SeqStepper(m), SeqRunning(s), steps)
  }

  /** Number of cycles, out of the first `cycles`, that executed something other than a bubble */
  function RealSteps(m: Machine, p: Pipe, cycles: nat): (n: nat)
    ensures n <= cycles
  {
    Count(PipeStep(m), Real(), Running(p), cycles)
  }

  /** The pipeline is where the sequential machine is: the queue and the PC name its next instruction
      and the cores agree. The pipeline stops only where the sequential machine stops: on an address
      without thumb bit, or at an instruction that ends the simulation. */
  ghost predicate Matches(m: Machine, r: PipeResult, s: SeqResult) {
    match r
    case Running(p) => s.SeqRunning? && PipeInv(m, p, s.s.next) && NoPc(p.core) == s.s.core
    case Stopped => s.SeqStopped? || s.s.next % 2 == 0
  }

  ghost function Matching(m: Machine): (PipeResult, SeqResult) -> bool {
    (r: PipeResult, s: SeqResult) => Matches(m, r, s)
  }

  lemma MatchesStep(m: Machine, r: PipeResult, s: SeqResult)
    requires MachineOk(m) && Matches(m, r, s)
    ensures Matches(m, PipeStep(m)(r), if Real()(r) then SeqStepper(m)(s) else s)
  {
    if r.Running? {
      assert |s.s.core.gpr| == 16;
      OneCycle(m, r.p, s.s.next);
    }
  }

  /** Matching states stay matching over any number of cycles. */
  lemma StaysMatched(m: Machine, r: PipeResult, s: SeqResult, cycles: nat)
    requires MachineOk(m) && Matches(m, r, s)
    ensures Matches(m, Iterate(PipeStep(m), r, cycles), Iterate(SeqStepper(m), s, Count(PipeStep(m), Real(), r, cycles)))
  {
    var related := Matching(m);
    forall x, y | related(x, y)
      ensures related(PipeStep(m)(x), if Real()(x) then SeqStepper(m)(y) else y)
    {
      MatchesStep(m, x, y);
    }
    Simulation(PipeStep(m), Real(), SeqStepper(m), related, r, s, cycles);
  }

  /** In every reachable state of the two- and three-stage pipelines the non-bubble cycles so far are
      exactly the steps of the sequential machine. */
  lemma PipelineRefines(m: Machine, p: Pipe, next: word, cycles: nat)
    requires MachineOk(m) && PipeInv(m, p, next)
    ensures Matches(m, RunPipe(m, p, cycles), RunSeq(m, Sequential(NoPc(p.core), next), RealSteps(m, p, cycles)))
  {
    StaysMatched(m, Running(p), SeqRunning(Sequential(NoPc(p.core), next)), cycles);
  }

  /** One cycle of the pipeline is one step of the sequential machine, or none. */
  lemma OneCycle(m: Machine, p: Pipe, next: word)
    requires MachineOk(m) && PipeInv(m, p, next)
    ensures next % 2 == 0 ==> Cycle(m, p).Stopped?
    ensures next % 2 == 1 && p.bubbles > 0 ==>
              var r := Cycle(m, p); r.Running? && PipeInv(m, r.p, next) && NoPc(r.p.core) == NoPc(p.core)
    ensures next % 2 == 1 && p.bubbles == 0 ==>
              var r, s := Cycle(m, p), SeqStep(m, Sequential(NoPc(p.core), next));
              && (r.Running? <==> s.SeqRunning?)
              && (r.Running? ==> PipeInv(m, r.p, s.s.next) && NoPc(r.p.core) == s.s.core)
  {
    AheadStep(next, m.stages - 1 - p.bubbles);
    if next % 2 == 1 {
      if p.bubbles > 0 {
        BubbleCycle(m, p, next);
      } else {
        RealCycle(m, p, next);
      }
    }
  }
}

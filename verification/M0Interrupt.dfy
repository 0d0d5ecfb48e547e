/** Exceptions on the pipelined core, and the core as the object that the simulation process updates. */
module M0Interrupt {
  import opened Bits
  import opened M0Stack
  import opened SingleBits
  import X = M0Exception
  import P = M0Pipeline

  // ---------------------------------------------------------------------------------------------
  // Entry and return, on the pipeline

  /** `a | 1` */
  function WithThumb(a: word): word {
    a - a % 2 + 1
  }

  lemma ThumbMask(a: word)
    ensures Or(a, 1) == WithThumb(a)
  {
    BitOperations(a, 0, 1);
  }

  /** `getNextExecutionPc` asserts that there is at most one bubble. */
  predicate EntryAllowed(p: P.Pipe) {
    p.bubbles <= 1 && p.bubbles <= |p.queue|
  }

  /** `exceptionEnter`: the address to come back to is the next one to execute. */
  function EnterPipe(m: P.Machine, p: P.Pipe, id: nat, handler: word): (e: P.Pipe)
    requires m.stages >= 1 && |p.core.gpr| == 16 && X.FrameFits(p.core) && EntryAllowed(p)
    ensures |e.core.gpr| == 16
  {
    P.Flush(m, p.(core := X.Enter(p.core, id, WithThumb(P.NextExecutionPc(p)), handler)))
  }

  /** The instruction that returns sets the core by `exceptionReturn` and reports a taken branch. */
  function ReturnPipe(m: P.Machine, h: P.Pipe, excReturn: word): (r: P.Pipe)
    requires m.stages >= 1 && |h.core.gpr| == 16 && X.ReturnOk(excReturn) && X.UnstackFits(h.core)
    ensures |r.core.gpr| == 16
  {
    P.Flush(m, h.(core := X.Return(h.core, excReturn)))
  }

  /** The core the interrupted program continues on: its own, but for the APSR bits below the flags and
      whatever the handler wrote to memory. */
  function Resumed(c: X.Core, mem: seq<word>): (r: X.Core)
    requires |c.gpr| == 16
    ensures |r.gpr| == 16
  {
    P.NoPc(c).(apsr := X.UnstackedApsr(c.apsr), mem := mem)
  }

  /** Wherever the assertion of `getNextExecutionPc` holds, which on two stages is between any two cycles:
      the address saved is that of the next instruction, and the handler starts at its own. */
  lemma InterruptEntry(m: P.Machine, p: P.Pipe, next: word, id: nat, handler: word)
    requires P.MachineOk(m) && P.PipeInv(m, p, next) && next % 2 == 1
    requires (m.stages == 2 || EntryAllowed(p)) && X.FrameFits(p.core)
    ensures EntryAllowed(p) && P.NextExecutionPc(p) == next - 1
    ensures var e := EnterPipe(m, p, id, handler);
            e.core == X.Enter(p.core, id, next, handler) && P.PipeInv(m, e, handler)
  {
    SavedPc(m, p, next);
    var core := X.Enter(p.core, id, next, handler);
    assert EnterPipe(m, p, id, handler) == P.Flush(m, p.(core := core));
    P.FlushInv(m, p.(core := core));
  }

  lemma SavedPc(m: P.Machine, p: P.Pipe, next: word)
    requires P.MachineOk(m) && P.PipeInv(m, p, next) && next % 2 == 1 && (m.stages == 2 || EntryAllowed(p))
    ensures EntryAllowed(p) && P.NextExecutionPc(p) == next - 1 && WithThumb(P.NextExecutionPc(p)) == next
  {
    P.NextExecutionPcExact(m, p, next);
  }

  lemma InterruptReturn(m: P.Machine, c: X.Core, next: word, h: P.Pipe, excReturn: word)
    requires P.MachineOk(m) && next % 2 == 1 && |c.gpr| == |h.core.gpr| == 16
    requires X.ReturnOk(excReturn) && X.UnstackFits(h.core)
    requires var r := X.Return(h.core, excReturn);
             && r.gpr == c.gpr[PC := next] && r.apsr == X.UnstackedApsr(c.apsr) && r.ipsr == c.ipsr
             && r.mode == c.mode && r.control == c.control && r.mem == h.core.mem
    ensures var r := ReturnPipe(m, h, excReturn);
            && P.PipeInv(m, r, next) && P.NextExecutionPc(r) == next - 1
            && P.NoPc(r.core) == Resumed(c, h.core.mem)
  {
    var back := X.Return(h.core, excReturn);
    P.FlushInv(m, h.(core := back));
    P.NextExecutionPcExact(m, ReturnPipe(m, h, excReturn), next);
    assert P.NoPc(back).gpr == P.NoPc(c).gpr;
  }

  /** When the handler returns, the pipeline is again about to execute the interrupted program's next
      instruction, on the core it had. */
  lemma InterruptTransparent(m: P.Machine, p: P.Pipe, next: word, id: nat, handler: word, h: P.Pipe)
    requires P.MachineOk(m) && P.PipeInv(m, p, next) && next % 2 == 1
    requires X.CoreOk(p.core) && X.FrameFits(p.core) && p.core.mode == X.THREAD && p.core.ipsr == 0
    requires EntryAllowed(p) && X.Behaves(EnterPipe(m, p, id, handler).core, h.core)
    ensures var excReturn := EnterPipe(m, p, id, handler).core.gpr[LR];
            && X.ReturnOk(excReturn) && X.UnstackFits(h.core)
            && var r := ReturnPipe(m, h, excReturn);
               && P.PipeInv(m, r, next) && P.NextExecutionPc(r) == P.NextExecutionPc(p)
               && P.NoPc(r.core) == Resumed(p.core, h.core.mem)
  {
    InterruptEntry(m, p, next, id, handler);
    X.ExceptionTransparent(p.core, id, next, handler, h.core);
    InterruptReturn(m, p.core, next, h, X.Enter(p.core, id, next, handler).gpr[LR]);
  }

  // ---------------------------------------------------------------------------------------------
  // The instruction that returns

  /** How a handler ends: with BX, or with a POP that loads the PC */
  datatype Ending = ByBx(rM: reg) | ByPop(insn: listbits)

  predicate EndingFits(c: X.Core, ending: Ending) {
    |c.gpr| == 16 && (ending.ByPop? ==> ending.insn >= 0x100 && PopFits(X.StateOf(c), ending.insn))
  }

  /** The core that `exceptionReturn` is called on, and the value it is called with */
  function Handed(c: X.Core, ending: Ending): (h: X.Core)
    requires EndingFits(c, ending)
    ensures |h.gpr| == 16
  {
    match ending
    case ByBx(_) => c
    case ByPop(insn) => X.WithState(c, PopWords(X.StateOf(c), insn))
  }

  function Asked(c: X.Core, ending: Ending): word
    requires EndingFits(c, ending)
  {
    match ending
    case ByBx(rM) => c.gpr[rM]
    case ByPop(_) => Handed(c, ending).gpr[PC]
  }

  /** The core the front of the queue executes on */
  function ExecutionCore(m: P.Machine, p: P.Pipe): (c: X.Core)
    requires |p.core.gpr| == 16
    ensures |c.gpr| == 16
  {
    if m.stages == 2 then P.AddPc(p.core, 2) else p.core
  }

  /** The next cycle executes an instruction that returns from an exception. */
  ghost predicate Leaves(m: P.Machine, p: P.Pipe, ending: Ending) {
    && m.stages >= 1 && |p.core.gpr| == 16 && p.core.gpr[PC] % 2 == 1 && p.bubbles == 0
    && var c, insn := ExecutionCore(m, p), P.QueueOf(m, p)[0];
       && !P.Is32(insn) && EndingFits(c, ending)
       && X.ReturnOk(Asked(c, ending)) && X.UnstackFits(Handed(c, ending))
       && m.exec(insn, 0, c) == P.Outcome(X.Return(Handed(c, ending), Asked(c, ending)), true)
  }

  /** The usual handler, from PUSH {L, lr} to POP {L, pc}: POP hands over a core that behaved, and the value
      entry put in LR. */
  lemma BodyEnds(e: X.Core, c: X.Core, insn: listbits)
    requires X.CoreOk(e) && insn >= 0x100 && PushFits(X.StateOf(e), insn) && X.BodyBehaves(e, c, insn)
    requires IsExceptionReturn(e.gpr[LR])
    ensures EndingFits(c, ByPop(insn))
    ensures X.Behaves(e, Handed(c, ByPop(insn))) && Asked(c, ByPop(insn)) == e.gpr[LR]
  {
    X.PoppedBehaves(e, c, insn);
  }

  /** That cycle is the return. */
  lemma ReturnCycle(m: P.Machine, p: P.Pipe, ending: Ending)
    requires Leaves(m, p, ending)
    ensures var c, f := ExecutionCore(m, p), P.Fetch(m, p.buffer, p.core.gpr[PC] - 1);
            P.Cycle(m, p) == P.Running(ReturnPipe(m, P.Pipe(Handed(c, ending), P.QueueOf(m, p)[1..], 0, f.1), Asked(c, ending)))
  {
    var queue, f := P.QueueOf(m, p), P.Fetch(m, p.buffer, p.core.gpr[PC] - 1);
    var o := P.Executed(m, p.core, queue);
    assert P.Cycle(m, p) == P.Running(P.Retire(m, o, queue[1..], 0, f.1));
  }

  // ---------------------------------------------------------------------------------------------
  // Runs with any number of exceptions

  /** Cycles of the program, and then an exception: cycles of its handler, and the one that returns */
  datatype Segment = Segment(cycles: nat, id: nat, handler: word, handlerCycles: nat, ending: Ending)

  /** An exception can be taken in `r`. */
  ghost predicate CanEnter(m: P.Machine, r: P.PipeResult) {
    && m.stages >= 1 && r.Running? && X.CoreOk(r.p.core) && EntryAllowed(r.p)
    && r.p.core.gpr[PC] % 2 == 1 && X.FrameFits(r.p.core) && r.p.core.mode == X.THREAD && r.p.core.ipsr == 0
  }

  /** While a handler runs no other exception can be taken: IPSR holds its number. */
  lemma NoNesting(m: P.Machine, p: P.Pipe, id: nat, handler: word)
    requires m.stages >= 1 && |p.core.gpr| == 16 && X.FrameFits(p.core) && EntryAllowed(p) && 0 < id < 64
    ensures EnterPipe(m, p, id, handler).core.ipsr == id
    ensures !CanEnter(m, P.Running(EnterPipe(m, p, id, handler)))
  {
    X.EntryState(p.core, id, WithThumb(P.NextExecutionPc(p)), handler);
  }

  /** The pipeline after `n` cycles from the entry */
  ghost function InHandler(m: P.Machine, r: P.PipeResult, seg: Segment, n: nat): P.PipeResult
    requires CanEnter(m, r)
  {
    P.Iterate(P.PipeStep(m), P.Running(EnterPipe(m, r.p, seg.id, seg.handler)), n)
  }

  /** What the handler does to the core behaves, up to the return by the EXC_RETURN value it was given. */
  ghost predicate HandlerBehaves(m: P.Machine, r: P.PipeResult, seg: Segment)
    requires CanEnter(m, r)
  {
    var e, h := EnterPipe(m, r.p, seg.id, seg.handler).core, InHandler(m, r, seg, seg.handlerCycles);
    && h.Running? && Leaves(m, h.p, seg.ending)
    && var c := ExecutionCore(m, h.p);
       X.Behaves(e, Handed(c, seg.ending)) && Asked(c, seg.ending) == e.gpr[LR]
  }

  ghost predicate Takes(m: P.Machine, r: P.PipeResult, seg: Segment) {
    CanEnter(m, r) && HandlerBehaves(m, r, seg)
  }

  /** Entry, the cycles of the handler, and the cycle that returns. An exception that cannot be taken ends
      the simulation in this model. */
  ghost function Handled(m: P.Machine, r: P.PipeResult, seg: Segment): P.PipeResult {
    if CanEnter(m, r) then InHandler(m, r, seg, seg.handlerCycles + 1) else P.Stopped
  }

  /** What handlers do to the sequential machine: they write memory, and returning clears APSR below the
      flags. */
  function Affected(s: P.SeqResult, r: P.PipeResult): P.SeqResult {
    if s.SeqStopped? || r.Stopped? then P.SeqStopped
    else P.SeqRunning(s.s.(core := s.s.core.(apsr := X.UnstackedApsr(s.s.core.apsr), mem := r.p.core.mem)))
  }

  /** The pipeline after the exceptions of `segs` */
  ghost function After(m: P.Machine, p: P.Pipe, segs: seq<Segment>): P.PipeResult {
    if segs == [] then P.Running(p)
    else
      var n := |segs| - 1;
      Handled(m, P.Iterate(P.PipeStep(m), After(m, p, segs[..n]), segs[n].cycles), segs[n])
  }

  /** Every exception of the run can be taken where it comes, and its handler behaves. */
  ghost predicate AllTaken(m: P.Machine, p: P.Pipe, segs: seq<Segment>) {
    segs == [] ||
    var n := |segs| - 1;
    AllTaken(m, p, segs[..n]) && Takes(m, P.Iterate(P.PipeStep(m), After(m, p, segs[..n]), segs[n].cycles), segs[n])
  }

  /** The sequential machine, run for the non-bubble cycles of the program alone */
  ghost function Shadow(m: P.Machine, p: P.Pipe, s: P.SeqResult, segs: seq<Segment>): P.SeqResult {
    if segs == [] then s
    else
      var n := |segs| - 1;
      var steps := P.Count(P.PipeStep(m), P.Real(), After(m, p, segs[..n]), segs[n].cycles);
      Affected(P.Iterate(P.SeqStepper(m), Shadow(m, p, s, segs[..n]), steps), After(m, p, segs))
  }

  /** The cycles of the handler refine the sequential machine too, from its first instruction. */
  lemma HandlerRefines(m: P.Machine, r: P.PipeResult, next: word, seg: Segment)
    requires P.MachineOk(m) && CanEnter(m, r) && P.PipeInv(m, r.p, next)
    ensures var e, n := EnterPipe(m, r.p, seg.id, seg.handler), seg.handlerCycles;
            P.Matches(m, InHandler(m, r, seg, n),
                      P.RunSeq(m, P.Sequential(P.NoPc(e.core), seg.handler), P.RealSteps(m, e, n)))
  {
    P.NextIsOdd(m, r.p, next);
    InterruptEntry(m, r.p, next, seg.id, seg.handler);
    P.PipelineRefines(m, EnterPipe(m, r.p, seg.id, seg.handler), seg.handler, seg.handlerCycles);
  }

  lemma HandledPipe(m: P.Machine, r: P.PipeResult, next: word, seg: Segment)
    requires P.MachineOk(m) && Takes(m, r, seg) && P.PipeInv(m, r.p, next) && next % 2 == 1
    ensures var t := Handled(m, r, seg);
            t.Running? && P.PipeInv(m, t.p, next) && P.NoPc(t.p.core) == Resumed(r.p.core, t.p.core.mem)
  {
    var h := InHandler(m, r, seg, seg.handlerCycles).p;
    ReturnCycle(m, h, seg.ending);
    var c, f := ExecutionCore(m, h), P.Fetch(m, h.buffer, h.core.gpr[PC] - 1);
    var last := P.Pipe(Handed(c, seg.ending), P.QueueOf(m, h)[1..], 0, f.1);
    InterruptTransparent(m, r.p, next, seg.id, seg.handler, last);
    assert Handled(m, r, seg) == P.PipeStep(m)(P.Running(h));
    assert Handled(m, r, seg) == P.Running(ReturnPipe(m, last, Asked(c, seg.ending)));
  }

  lemma AffectedIsResumed(s: P.SeqResult, core: X.Core, t: P.PipeResult)
    requires s.SeqRunning? && t.Running? && |core.gpr| == 16 && s.s.core == P.NoPc(core)
    ensures Affected(s, t).SeqRunning? && Affected(s, t).s.next == s.s.next
    ensures Affected(s, t).s.core == Resumed(core, t.p.core.mem)
  {
  }

  lemma HandledMatches(m: P.Machine, r: P.PipeResult, s: P.SeqResult, seg: Segment)
    requires P.MachineOk(m) && P.Matches(m, r, s) && Takes(m, r, seg)
    ensures P.Matches(m, Handled(m, r, seg), Affected(s, Handled(m, r, seg)))
  {
    var t := Handled(m, r, seg);
    P.NextIsOdd(m, r.p, s.s.next);
    HandledPipe(m, r, s.s.next, seg);
    AffectedIsResumed(s, r.p.core, t);
    var u := Affected(s, t);
    assert P.PipeInv(m, t.p, u.s.next) && P.NoPc(t.p.core) == u.s.core;
  }

  /** On either pipeline a program that is interrupted any number of times, where the assertion allows it,
      by handlers that run on the same pipeline, behave, and return by BX or POP, still executes exactly
      the steps of the sequential machine, up to what the handlers write to memory. */
  lemma {:induction false} InterruptedRunRefines(m: P.Machine, p: P.Pipe, next: word, segs: seq<Segment>, cycles: nat)
    requires P.MachineOk(m) && P.PipeInv(m, p, next) && AllTaken(m, p, segs)
    ensures var s := P.SeqRunning(P.Sequential(P.NoPc(p.core), next));
            var r := After(m, p, segs);
            P.Matches(m, P.Iterate(P.PipeStep(m), r, cycles),
                      P.Iterate(P.SeqStepper(m), Shadow(m, p, s, segs), P.Count(P.PipeStep(m), P.Real(), r, cycles)))
    decreases |segs|
  {
    var s := P.SeqRunning(P.Sequential(P.NoPc(p.core), next));
    if segs != [] {
      var n := |segs| - 1;
      var steps := P.Count(P.PipeStep(m), P.Real(), After(m, p, segs[..n]), segs[n].cycles);
      InterruptedRunRefines(m, p, next, segs[..n], segs[n].cycles);
      HandledMatches(m, P.Iterate(P.PipeStep(m), After(m, p, segs[..n]), segs[n].cycles),
                     P.Iterate(P.SeqStepper(m), Shadow(m, p, s, segs[..n]), steps), segs[n]);
    }
    P.StaysMatched(m, After(m, p, segs), Shadow(m, p, s, segs), cycles);
  }

  /** On three stages the assertion fails exactly right after a cycle whose instruction reported a taken
      branch, which flushes the pipeline. */
  lemma ThreeStageEntry(m: P.Machine, p: P.Pipe, next: word)
    requires P.MachineOk(m) && m.stages == 3 && P.PipeInv(m, p, next) && next % 2 == 1
    ensures p.core.gpr[PC] % 2 == 1
    ensures var r := P.Cycle(m, p);
            var o := P.Executed(m, p.core, P.QueueOf(m, p));
            && (r.Running? <==> o.Outcome?)
            && (r.Running? ==> (EntryAllowed(r.p) <==> !o.taken))
  {
    P.Fetched(m, p, next);
    if p.bubbles > 0 {
      P.BubbleCycle(m, p, next);
      assert P.QueueOf(m, p)[0] == P.NOP && !P.Is32(P.NOP);
    } else {
      P.RealCycle(m, p, next);
    }
  }

  // ---------------------------------------------------------------------------------------------
  // The core as an object

  lemma WordAligned(a: word)
    ensures And(a, 0xFFFF_FFFC) == a - a % 4
  {
    var k, w := 2, 32;
    Pow2Constants();
    AndHighMask(a, k, w);
    ShrLowAreDivMod(a, k);
  }

  class CortexM0 {
    const m: P.Machine
    var core: X.Core
    var queue: seq<half>
    var bubbles: nat
    var buffer: P.Buffer

    ghost function View(): P.Pipe
      reads this
    {
      P.Pipe(core, queue, bubbles, buffer)
    }

    ghost predicate Valid()
      reads this
    {
      |core.gpr| == 16 && m.stages >= 1
    }

    method Fetch(address: word) returns (insn: half)
      requires address % 2 == 0 && P.BufferInv(m, buffer)
      modifies this`buffer
      ensures (insn, buffer) == P.Fetch(m, old(buffer), address)
    {
      WordAligned(address);
      var aligned := And(address, 0xFFFF_FFFC);
      if !buffer.valid || aligned != buffer.address {
        buffer := P.Buffer(true, aligned, m.code(aligned));
      }
      if address == buffer.address {
        insn := buffer.data % 0x1_0000;
      } else {
        insn := buffer.data / 0x1_0000;
      }
    }

    method FlushPipeline()
      requires Valid()
      modifies this`queue, this`bubbles, this`buffer
      ensures View() == P.Flush(m, old(View()))
    {
      queue := [];
      buffer := buffer.(valid := false);
      var i := 0;
      while i < m.stages - 1
        invariant 0 <= i <= m.stages - 1 && queue == P.Bubbles(i)
        invariant buffer == old(buffer).(valid := false)
      {
        queue := queue + [P.NOP];
        i := i + 1;
      }
      bubbles := m.stages - 1;
    }

    method IncrementPc()
      requires Valid()
      modifies this`core
      ensures core == P.AddPc(old(core), 2)
    {
      core := core.(gpr := core.gpr[PC := Add32(core.gpr[PC], 2)]);
    }

    /** Decodes and executes the front of the queue; decoding a 32-bit instruction takes its second
        half from the queue. `ok` is false if the instruction ends the simulation, or if the queue runs
        out, which the source does not check. */
    method Execute() returns (ok: bool, takenBranch: bool)
      requires Valid() && |queue| > 0
      modifies this`core, this`queue
      ensures var insn := old(queue)[0];
              var halves := if P.Is32(insn) then 2 else 1;
              var complete := |old(queue)| >= halves;
              && (ok ==> complete && queue == old(queue)[halves..])
              && (complete ==> var o := m.exec(insn, if P.Is32(insn) then old(queue)[1] else 0, old(core));
                               if ok then o == P.Outcome(core, takenBranch) else o.Ended?)
    {
      var insn := queue[0];
      queue := queue[1..];
      var second: half := 0;
      if P.Is32(insn) {
        if queue == [] {
          return false, false;
        }
        second := queue[0];
        queue := queue[1..];
      }
      match m.exec(insn, second, core)
      case Ended =>
        return false, false;
      case Outcome(next, taken) =>
        core := next;
        return true, taken;
    }

    /** The part of a pass after the fetch */
    method Issue() returns (ok: bool)
      requires Valid() && P.MachineOk(m) && |queue| > 0
      modifies this
      ensures var r := P.Issue(m, old(core), old(queue), old(bubbles), old(buffer));
              (ok <==> r.Running?) && (ok ==> r == P.Running(View()) && Valid())
    {
      if m.stages == 2 {
        IncrementPc();
      }
      var takenBranch;
      ok, takenBranch := Execute();
      if !ok {
        return false;
      }
      if bubbles > 0 {
        bubbles := bubbles - 1;
      }
      if takenBranch {
        FlushPipeline();
      }
      if !takenBranch && m.stages == 3 {
        IncrementPc();
      }
    }

    /** One pass of the loop of `process`. The result is false where the simulation ends. */
    method Cycle() returns (ok: bool)
      requires Valid() && P.MachineOk(m) && P.BufferInv(m, buffer)
      modifies this
      ensures var r := P.Cycle(m, old(View()));
              (ok <==> r.Running?) && (ok ==> r == P.Running(View()) && Valid())
    {
      if core.gpr[PC] % 2 == 0 {
        return false;
      }
      var insn := Fetch(core.gpr[PC] - 1);
      queue := queue + [insn];
      ok := Issue();
    }

    /** `ok` is false where the assertion of the source fails. */
    method GetNextExecutionPc() returns (ok: bool, pc: word)
      requires Valid() && bubbles <= |queue|
      ensures ok == EntryAllowed(View())
      ensures ok ==> pc == P.NextExecutionPc(View())
    {
      ok, pc := bubbles <= 1, 0;
      if ok {
        pc := Sub32(core.gpr[PC] - core.gpr[PC] % 2, (2 * (|queue| - bubbles)) % TWO32);
      }
    }

    /** `exceptionEnter`; the stacking is that of `M0Cpu.Cpu.ExceptionEnter`. `ok` is false where the
        assertion of the source fails. */
    method EnterException(id: nat, handler: word) returns (ok: bool)
      requires Valid() && X.FrameFits(core) && bubbles <= |queue|
      modifies this
      ensures ok == EntryAllowed(old(View()))
      ensures ok ==> View() == EnterPipe(m, old(View()), id, handler)
    {
      var pc;
      ok, pc := GetNextExecutionPc();
      if ok {
        ThumbMask(pc);
        core := X.Enter(core, id, Or(pc, 1), handler);
        FlushPipeline();
      }
    }
  }
}

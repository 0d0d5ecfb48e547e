/** The modelled instructions of the Cortex-M0 as one execution function for the pipeline: decoding by the
    opcode groups, and what each instruction does to the core. Instructions that are not modelled are left
    to an arbitrary function. */
module M0Execute {
  import opened Bits
  import opened M0Stack
  import opened Options
  import A = M0Arith
  import B = M0Branch
  import C = M0Cpu
  import I = M0Interrupt
  import P = M0Pipeline
  import X = M0Exception

  type Executor = (half, half, X.Core) -> P.Outcome

  // ---------------------------------------------------------------------------------------------
  // Decoding and execution. Fields are quotients and remainders; see `FieldMask`.

  /** `(pInsn >> k) & mask` for a mask of `n` ones */
  lemma FieldMask(insn: half, k: nat, n: nat)
    ensures And(Shr(insn, k), Pow2(n) - 1) == insn / Pow2(k) % Pow2(n)
  {
    AndMask(Shr(insn, k), n);
    ShrLowAreDivMod(Shr(insn, k), n);
    ShrLowAreDivMod(insn, k);
  }

  function ArithOf(c: X.Core): A.Regs {
    A.Regs(c.gpr, C.FlagsIn(c.apsr))
  }

  function WithArith(c: X.Core, r: A.Regs): P.Outcome {
    C.JoinedFlags(r.flags, c.apsr % C.V_MASK);
    P.Outcome(c.(gpr := r.gpr, apsr := C.Joined(r.flags, c.apsr % C.V_MASK)), false)
  }

  /** ADDS, SUBS, CMP, ADCS, SBCS and RSBS on low registers and immediates: groups 6, 7, 10 to 15, and part
      of 16 */
  function Arithmetic(insn: half, c: X.Core): (r: Option<A.Regs>)
    requires |c.gpr| == 16
    ensures r.Some? ==> |r.value.gpr| == 16 && r.value.gpr[PC] == c.gpr[PC]
  {
    var r, group, sub := ArithOf(c), insn / 0x400, insn / 0x200 % 2 == 1;
    var lo, mid, hi, top, imm8 := insn % 8, insn / 8 % 8, insn / 0x40 % 8, insn / 0x100 % 8, insn % 0x100;
    if group == 6 then Some(if sub then A.Subs(r, lo, mid, hi) else A.Adds(r, lo, mid, hi))
    else if group == 7 then Some(A.Add(r, lo, c.gpr[mid], if sub then Not32(hi) else hi, sub))
    else if 10 <= group <= 11 then Some(A.Cmp(r, c.gpr[top], imm8))
    else if 12 <= group <= 13 then Some(A.Add(r, top, c.gpr[top], imm8, false))
    else if 14 <= group <= 15 then Some(A.Add(r, top, c.gpr[top], Not32(imm8), true))
    else if group == 16 then
      match insn / 0x40 % 16
      case 5 => Some(A.Adcs(r, lo, mid))
      case 6 => Some(A.Sbcs(r, lo, mid))
      case 9 => Some(A.Add(r, lo, 0, Not32(c.gpr[mid]), true))
      case 10 => Some(A.Cmp(r, c.gpr[lo], c.gpr[mid]))
      case _ => None
    else None
  }

  /** MOV between any two registers: part of group 17. Moving to the PC is a branch. */
  function Moved(c: X.Core, rD: reg, value: word): P.Outcome
    requires |c.gpr| == 16
  {
    if rD == PC then P.Outcome(c.(gpr := c.gpr[PC := I.WithThumb(value)]), true)
    else P.Outcome(c.(gpr := c.gpr[rD := value]), false)
  }

  function Jump(c: X.Core, offset: int): P.Outcome
    requires |c.gpr| == 16
  {
    P.Outcome(c.(gpr := c.gpr[PC := (offset + c.gpr[PC]) % TWO32]), true)
  }

  function Exchanged(c: X.Core, r: B.Exchange): P.Outcome
    requires |c.gpr| == 16
  {
    match r
    case NotThumb => P.Ended
    case Jumped(gpr) => P.Outcome(c.(gpr := gpr), true)
    case Returning(excReturn) =>
      if X.ReturnOk(excReturn) && X.UnstackFits(c) then P.Outcome(X.Return(c, excReturn), true) else P.Ended
  }

  /** MOV, BX, BLX, B, conditional B and BL: part of group 17, groups 52 to 57, 60 and 61 */
  function Branch(insn: half, second: half, c: X.Core): Option<P.Outcome>
    requires |c.gpr| == 16
  {
    var group, cond, h := insn / 0x400, insn / 0x100 % 16, B.Halves(insn, second);
    if insn / 0x100 == 0x46 then Some(Moved(c, insn / 0x80 % 2 * 8 + insn % 8, c.gpr[insn / 8 % 16]))
    else if insn / 0x80 == 0x8E then Some(Exchanged(c, B.Bx(c.gpr, insn / 8 % 16)))
    else if insn / 0x80 == 0x8F then Some(Exchanged(c, B.Blx(c.gpr, insn / 8 % 16)))
    else if 52 <= group <= 55 then
      if cond >= 14 then Some(P.Ended)
      else if A.Taken(cond, C.FlagsIn(c.apsr)) then Some(Jump(c, B.SignExtended(2 * (insn % 0x100), 0x200)))
      else Some(P.Outcome(c, false))
    else if 56 <= group <= 57 then Some(Jump(c, B.SignExtended(2 * (insn % 0x800), 0x1000)))
    else if B.IsBl(h) then Some(P.Outcome(c.(gpr := B.Bl(c.gpr, B.BlImmediate(h))), true))
    else None
  }

  /** A transfer that leaves memory ends the simulation, as does a malformed STM. */
  function Stored(c: X.Core, s: Option<State>): P.Outcome {
    match s
    case Some(t) => P.Outcome(X.WithState(c, t), false)
    case None => P.Ended
  }

  function Popped(c: X.Core, insn: listbits): P.Outcome
    requires |c.gpr| == 16
  {
    if !PopFits(X.StateOf(c), insn) then P.Ended
    else
      match X.PopCore(c, insn)
      case Continues(d) => P.Outcome(d, insn >= 0x100)
      case Fatal => P.Ended
  }

  /** PUSH, POP, STM and LDM: parts of groups 45 and 47, groups 48 to 51 */
  function Transfer(insn: half, c: X.Core): Option<P.Outcome>
    requires |c.gpr| == 16
  {
    var s, rN, list := X.StateOf(c), insn / 0x100 % 8, insn % 0x100;
    if insn / 0x200 == 0x5A then
      Some(if PushFits(s, insn % 0x200) then Stored(c, Some(Push(s, insn % 0x200))) else P.Ended)
    else if insn / 0x200 == 0x5E then Some(Popped(c, insn % 0x200))
    else if insn / 0x800 == 0x18 then
      Some(if StmMalformed(list, rN) || BlockFits(s, list, rN) then Stored(c, Stm(s, list, rN)) else P.Ended)
    else if insn / 0x800 == 0x19 then
      Some(if BlockFits(s, list, rN) then Stored(c, Some(Ldm(s, list, rN))) else P.Ended)
    else None
  }

  function Execute(rest: Executor, insn: half, second: half, c: X.Core): P.Outcome {
    if |c.gpr| != 16 then P.Ended
    else
      match Arithmetic(insn, c)
      case Some(r) => WithArith(c, r)
      case None =>
        match Branch(insn, second, c)
        case Some(o) => o
        case None =>
          match Transfer(insn, c)
          case Some(o) => o
          case None => rest(insn, second, c)
  }

  // ---------------------------------------------------------------------------------------------
  // What the pipeline relies on

  lemma PopKeepsPc(s: State, insn: listbits)
    requires |s.gpr| == 16 && PopFits(s, insn) && insn < 0x100
    ensures PopWords(s, insn).gpr[PC] == s.gpr[PC]
  {
    var regs, at := PopRegs(insn), s.gpr[SP] / 4;
    ListedMembers(insn, 0, 8);
    SetRegsAt(s.gpr, regs, s.mem[at..at + |regs|], PC);
  }

  lemma LdmKeepsPc(s: State, list: lowlist, rN: nat)
    requires |s.gpr| == 16 && rN < 8 && BlockFits(s, list, rN)
    ensures Ldm(s, list, rN).gpr[PC] == s.gpr[PC]
  {
    var regs, at := Listed(list, 0, 8), s.gpr[rN] / 4;
    ListedMembers(list, 0, 8);
    SetRegsAt(s.gpr, regs, s.mem[at..at + |regs|], PC);
  }

  lemma BranchKeepsToPipe(insn: half, second: half, c: X.Core)
    requires |c.gpr| == 16
    ensures Branch(insn, second, c).Some? ==> P.KeepsToPipe(insn, c, Branch(insn, second, c).value)
    ensures P.Is32(insn) ==> Arithmetic(insn, c).None? && Transfer(insn, c).None?
  {
  }

  lemma TransferKeepsToPipe(insn: half, c: X.Core)
    requires |c.gpr| == 16
    ensures Transfer(insn, c).Some? ==> P.KeepsToPipe(insn, c, Transfer(insn, c).value)
  {
    var s, rN, list := X.StateOf(c), insn / 0x100 % 8, insn % 0x100;
    if insn / 0x200 == 0x5E {
      if PopFits(s, insn % 0x200) && insn % 0x200 < 0x100 {
        PopKeepsPc(s, insn % 0x200);
      }
    } else if insn / 0x800 == 0x19 && BlockFits(s, list, rN) {
      LdmKeepsPc(s, list, rN);
    }
  }

  /** The core with this execution function, over any code memory and any way to execute what is left */
  function Modelled(stages: nat, code: word -> word, rest: Executor): P.Machine {
    P.Machine(stages, code, (insn: half, second: half, c: X.Core) => Execute(rest, insn, second, c))
  }

  ghost predicate RestOk(rest: Executor) {
    forall i: half, j: half, c: X.Core {:trigger rest(i, j, c)} | |c.gpr| == 16 :: P.KeepsToPipe(i, c, rest(i, j, c))
  }

  lemma ExecuteKeepsToPipe(rest: Executor, insn: half, second: half, c: X.Core)
    requires RestOk(rest) && |c.gpr| == 16
    ensures P.KeepsToPipe(insn, c, Execute(rest, insn, second, c))
    ensures insn == P.NOP ==> Execute(rest, insn, second, c) == P.Outcome(c, false)
  {
    assert c.gpr[8 := c.gpr[8]] == c.gpr;
    BranchKeepsToPipe(insn, second, c);
    TransferKeepsToPipe(insn, c);
    assert P.KeepsToPipe(insn, c, rest(insn, second, c));
  }

  /** Every modelled instruction meets what the pipeline relies on. */
  lemma ModelledOk(stages: nat, code: word -> word, rest: Executor)
    requires (stages == 2 || stages == 3) && RestOk(rest)
    ensures P.MachineOk(Modelled(stages, code, rest))
  {
    var m := Modelled(stages, code, rest);
    forall i: half, j: half, c: X.Core {:trigger m.exec(i, j, c)} | |c.gpr| == 16
      ensures P.KeepsToPipe(i, c, m.exec(i, j, c)) && (i == P.NOP ==> m.exec(i, j, c) == P.Outcome(c, false))
    {
      ExecuteKeepsToPipe(rest, i, j, c);
    }
  }

  /** Nothing but the modelled instructions: any other ends the simulation. */
  function NoOthers(): Executor {
    (insn: half, second: half, c: X.Core) => P.Ended
  }

  lemma NoOthersOk()
    ensures RestOk(NoOthers())
  {
  }

  // ---------------------------------------------------------------------------------------------
  // Handlers end with BX or POP

  /** The next cycle executes a 16-bit instruction, `insn`. */
  ghost predicate AtFront(m: P.Machine, p: P.Pipe, insn: half) {
    && m.stages >= 1 && |p.core.gpr| == 16 && p.core.gpr[PC] % 2 == 1 && p.bubbles == 0
    && P.QueueOf(m, p)[0] == insn && !P.Is32(insn)
  }

  /** What returns from an exception: BX of a register that holds an accepted EXC_RETURN value, or POP of
      one into the PC, over a frame in memory */
  ghost predicate Returns(insn: half, c: X.Core, ending: I.Ending) {
    && I.EndingFits(c, ending)
    && X.ReturnOk(I.Asked(c, ending)) && X.UnstackFits(I.Handed(c, ending))
    && match ending
       case ByBx(rM) => insn / 0x80 == 0x8E && insn / 8 % 16 == rM
       case ByPop(list) => insn / 0x200 == 0x5E && insn % 0x200 == list
  }

  lemma BxExecutes(rest: Executor, insn: half, c: X.Core, rM: reg)
    requires Returns(insn, c, I.ByBx(rM))
    ensures Execute(rest, insn, 0, c) == P.Outcome(X.Return(c, c.gpr[rM]), true)
  {
    assert Arithmetic(insn, c).None?;
    assert Execute(rest, insn, 0, c) == Exchanged(c, B.Bx(c.gpr, rM));
  }

  lemma PopExecutes(rest: Executor, insn: half, c: X.Core, list: listbits)
    requires Returns(insn, c, I.ByPop(list))
    ensures var h := I.Handed(c, I.ByPop(list)); Execute(rest, insn, 0, c) == P.Outcome(X.Return(h, h.gpr[PC]), true)
  {
    assert Arithmetic(insn, c).None? && Branch(insn, 0, c).None?;
    assert Execute(rest, insn, 0, c) == Popped(c, list);
    PopReturns(c, list);
  }

  lemma PopReturns(c: X.Core, list: listbits)
    requires I.EndingFits(c, I.ByPop(list))
    requires var h := I.Handed(c, I.ByPop(list)); X.ReturnOk(h.gpr[PC]) && X.UnstackFits(h)
    ensures var h := I.Handed(c, I.ByPop(list)); Popped(c, list) == P.Outcome(X.Return(h, h.gpr[PC]), true)
  {
  }

  /** On the modelled core a cycle with such an instruction at the front is the return of a handler. */
  lemma ReturnLeaves(stages: nat, code: word -> word, rest: Executor, p: P.Pipe, insn: half, ending: I.Ending)
    requires AtFront(Modelled(stages, code, rest), p, insn)
    requires Returns(insn, I.ExecutionCore(Modelled(stages, code, rest), p), ending)
    ensures I.Leaves(Modelled(stages, code, rest), p, ending)
  {
    var m := Modelled(stages, code, rest);
    var c := I.ExecutionCore(m, p);
    assert m.exec(insn, 0, c) == Execute(rest, insn, 0, c);
    match ending
    case ByBx(rM) => BxExecutes(rest, insn, c, rM);
    case ByPop(list) => PopExecutes(rest, insn, c, list);
  }

  /** So the modelled core, interrupted any number of times, executes the steps of the sequential machine. */
  lemma ModelledRunRefines(stages: nat, code: word -> word, rest: Executor, p: P.Pipe, next: word,
                           segs: seq<I.Segment>, cycles: nat)
    requires (stages == 2 || stages == 3) && RestOk(rest)
    requires P.PipeInv(Modelled(stages, code, rest), p, next) && I.AllTaken(Modelled(stages, code, rest), p, segs)
    ensures var m, s := Modelled(stages, code, rest), P.SeqRunning(P.Sequential(P.NoPc(p.core), next));
            var r := I.After(m, p, segs);
            P.Matches(m, P.Iterate(P.PipeStep(m), r, cycles),
                      P.Iterate(P.SeqStepper(m), I.Shadow(m, p, s, segs), P.Count(P.PipeStep(m), P.Real(), r, cycles)))
  {
    ModelledOk(stages, code, rest);
    I.InterruptedRunRefines(Modelled(stages, code, rest), p, next, segs, cycles);
  }
}

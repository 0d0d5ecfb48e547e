/** Exception entry and return on the Cortex-M0: what goes into the stack frame and what comes back. */
module M0Exception {
  import opened Bits
  import opened M0Stack
  import opened SingleBits

  const THREAD: word := 1
  const HANDLER: word := 0

  const RETURN_HANDLER: word := 0xFFFF_FFF1
  const RETURN_MAIN: word := 0xFFFF_FFF9
  const RETURN_PROCESS: word := 0xFFFF_FFFD

  datatype Core = Core(gpr: seq<word>, apsr: word, ipsr: word, control: word, mode: word, mem: seq<word>)

  ghost predicate CoreOk(c: Core) {
    |c.gpr| == 16 && 4 * |c.mem| <= TWO32
  }

  // ---------------------------------------------------------------------------------------------
  // The stack frame, arithmetically; the lemmas `...Mask` tie each to the operators of the source

  /** Bit 1 of CONTROL selects the process stack. */
  predicate OnProcessStack(control: word) {
    control / 2 % 2 == 1
  }

  function UseMain(control: word): word {
    if OnProcessStack(control) then control - 2 else control
  }

  function UseProcess(control: word): (r: nat)
    ensures r < TWO32
  {
    if OnProcessStack(control) then control else control + 2
  }

  lemma StackMask(control: word)
    ensures And(control, 2) != 0 <==> OnProcessStack(control)
    ensures And(control, Not32(2)) == UseMain(control)
    ensures Or(control, 2) == UseProcess(control)
  {
    BitOperations(control, 1, 2);
  }

  /** SP is a multiple of four; an odd multiple moves the frame down by four bytes. */
  predicate Moved(sp: word) {
    sp % 8 == 4
  }

  /** Eight words below SP, aligned to eight bytes */
  function FramePtr(sp: word): (fp: word)
    requires sp % 4 == 0 && sp >= 0x24
    ensures fp % 8 == 0
  {
    sp - 0x20 - sp % 8
  }

  /** SP after return */
  function UnstackedSp(fp: word, moved: bool): (sp: word)
    requires fp % 8 == 0 && fp + 0x20 < TWO32
  {
    fp + 0x20 + (if moved then 4 else 0)
  }

  lemma BitTwo(x: word)
    requires x % 4 == 0
    ensures And(x, 4) == x % 8
    ensures And(x, Not32(4)) == x - x % 8
    ensures Or(x, 4) == x - x % 8 + 4
  {
    BitOperations(x, 2, 4);
    QuotientBit(x);
  }

  lemma QuotientBit(x: nat)
    requires x % 4 == 0
    ensures (if x / 4 % 2 == 1 then 4 else 0) == x % 8
  {
  }

  lemma MovedMask(sp: word)
    requires sp % 4 == 0
    ensures And(sp, 4) != 0 <==> Moved(sp)
  {
    BitTwo(sp);
    EightOrFour(sp);
  }

  lemma EightOrFour(x: nat)
    requires x % 4 == 0
    ensures x % 8 == 0 || x % 8 == 4
  {
    var q := x / 4;
    assert x == 4 * q && q == 2 * (q / 2) + q % 2;
    DivModUnique(x, 8, q / 2, 4 * (q % 2));
  }

  lemma FramePtrMask(sp: word)
    requires sp % 4 == 0 && sp >= 0x24
    ensures And(sp - 0x20, Not32(4)) == FramePtr(sp)
  {
    var x := sp - 0x20;
    assert x % 8 == sp % 8 && x % 4 == 0 by { SameRemainder(sp); }
    BitTwo(x);
  }

  lemma SameRemainder(sp: word)
    requires sp >= 0x24
    ensures (sp - 0x20) % 8 == sp % 8 && (sp - 0x20) % 4 == sp % 4
  {
  }

  lemma UnstackedSpMask(fp: word)
    requires fp % 8 == 0 && fp + 0x20 < TWO32
    ensures Or(fp + 0x20, 4) == UnstackedSp(fp, true)
  {
    var x := fp + 0x20;
    assert x % 8 == 0 && x % 4 == 0;
    BitTwo(x);
  }

  /** The stacked xPSR: bit 9 records whether the frame was moved, the other bits up to 8 and from 10
      are those of APSR. */
  function StackedPsr(apsr: word, moved: bool): (r: nat)
    ensures r < TWO32
  {
    (apsr / 0x400) * 0x400 + BoolBit(moved) * 0x200 + apsr % 0x200
  }

  /** Bit 9 */
  predicate WasMoved(stored: word) {
    stored / 0x200 % 2 == 1
  }

  /** The four flags; all other bits are cleared on return */
  function UnstackedApsr(stored: word): word {
    (stored / 0x1000_0000) * 0x1000_0000
  }

  lemma StackedPsrMask(apsr: word, moved: bool)
    ensures Or(Or(And(apsr, 0xFFFF_FC00), BoolBit(moved) * 0x200), And(apsr, 0x1FF)) == StackedPsr(apsr, moved)
  {
    PsrMasks(apsr);
    PsrFields(apsr / 0x400, BoolBit(moved), apsr % 0x200);
  }

  lemma PsrFields(high: nat, moved: nat, low: nat)
    requires moved <= 1 && low < 0x200
    ensures Or(Or(high * 0x400, moved * 0x200), low) == high * 0x400 + moved * 0x200 + low
  {
    var mid := 2 * high + moved;
    assert Or(high * 0x400, moved * 0x200) == mid * 0x200 by { OrAt(high, moved * 0x200, 10, 0x400); }
    OrAt(mid, low, 9, 0x200);
  }

  lemma PsrMasks(apsr: word)
    ensures And(apsr, 0xFFFF_FC00) == (apsr / 0x400) * 0x400
    ensures And(apsr, 0x1FF) == apsr % 0x200
  {
    var nine, ten, w := 9, 10, 32;
    Pow2Constants();
    AndHighMask(apsr, ten, w);
    ShrLowAreDivMod(apsr, ten);
    AndMask(apsr, nine);
    ShrLowAreDivMod(apsr, nine);
  }

  lemma OrAt(high: nat, low: nat, k: nat, p: nat)
    requires p == Pow2(k) && low < p
    ensures Or(high * p, low) == high * p + low
  {
    ShlIsProduct(high, k);
    OrDisjoint(high, low, k);
  }

  lemma WasMovedMask(stored: word)
    ensures And(stored, 0x200) != 0 <==> WasMoved(stored)
  {
    BitOperations(stored, 9, 0x200);
  }

  lemma UnstackedApsrMask(stored: word)
    ensures And(stored, 0xF000_0000) == UnstackedApsr(stored)
  {
    var k, w := 28, 32;
    Pow2Constants();
    AndHighMask(stored, k, w);
    ShrLowAreDivMod(stored, k);
  }

  lemma PsrRoundTrip(apsr: word, moved: bool)
    ensures WasMoved(StackedPsr(apsr, moved)) == moved
    ensures UnstackedApsr(StackedPsr(apsr, moved)) == UnstackedApsr(apsr)
  {
    var q, stored := apsr / 0x400, StackedPsr(apsr, moved);
    assert stored / 0x200 == 2 * q + BoolBit(moved);
    assert stored / 0x400 == q;
    assert stored / 0x1000_0000 == (stored / 0x400) / 0x4_0000;
    assert apsr / 0x1000_0000 == (apsr / 0x400) / 0x4_0000;
  }

  // ---------------------------------------------------------------------------------------------
  // Entry and return

  /** The words of the frame, upwards */
  function Frame(c: Core, nextPc: word): (f: seq<word>)
    requires |c.gpr| == 16
    ensures |f| == 8
  {
    [c.gpr[0], c.gpr[1], c.gpr[2], c.gpr[3], c.gpr[12], c.gpr[LR], nextPc,
     StackedPsr(c.apsr, Moved(c.gpr[SP]))]
  }

  /** There is room for the frame on an aligned stack. */
  predicate FrameFits(c: Core)
    requires |c.gpr| == 16
  {
    c.gpr[SP] % 4 == 0 && c.gpr[SP] >= 0x24 && c.gpr[SP] <= 4 * |c.mem|
  }

  function ExcReturn(c: Core): word {
    if c.mode == HANDLER then RETURN_HANDLER
    else if OnProcessStack(c.control) then RETURN_PROCESS
    else RETURN_MAIN
  }

  /** `nextPc` is the address to come back to; the handler's own address comes from the vector table. */
  function Enter(c: Core, id: nat, nextPc: word, handler: word): (e: Core)
    requires |c.gpr| == 16 && FrameFits(c)
    ensures |e.gpr| == 16
  {
    var fp := FramePtr(c.gpr[SP]);
    Core(c.gpr[SP := fp][LR := ExcReturn(c)][PC := handler], c.apsr, id % 0x40, UseMain(c.control), HANDLER,
         StoreWords(c.mem, fp / 4, Frame(c, nextPc)))
  }

  /** Only the three EXC_RETURN values are accepted. */
  predicate ReturnOk(excReturn: word) {
    excReturn == RETURN_HANDLER || excReturn == RETURN_MAIN || excReturn == RETURN_PROCESS
  }

  predicate UnstackFits(h: Core)
    requires |h.gpr| == 16
  {
    h.gpr[SP] % 8 == 0 && h.gpr[SP] + 0x20 < TWO32 && h.gpr[SP] / 4 + 8 <= |h.mem|
  }

  /** R0-R3, R12, LR and PC from the frame at `at` */
  function Unstacked(gpr: seq<word>, mem: seq<word>, at: nat): (g: seq<word>)
    requires |gpr| == 16 && at + 8 <= |mem|
    ensures |g| == 16
  {
    gpr[0 := mem[at]][1 := mem[at + 1]][2 := mem[at + 2]][3 := mem[at + 3]][12 := mem[at + 4]]
       [LR := mem[at + 5]][PC := mem[at + 6]]
  }

  /** The registers of the frame, and the SP from before it was stacked */
  function Restored(h: Core): (gpr: seq<word>)
    requires |h.gpr| == 16 && UnstackFits(h)
    ensures |gpr| == 16
  {
    var at := h.gpr[SP] / 4;
    Unstacked(h.gpr, h.mem, at)[SP := UnstackedSp(h.gpr[SP], WasMoved(h.mem[at + 7]))]
  }

  function Return(h: Core, excReturn: word): (r: Core)
    requires |h.gpr| == 16 && ReturnOk(excReturn) && UnstackFits(h)
    ensures |r.gpr| == 16
  {
    var stored := h.mem[h.gpr[SP] / 4 + 7];
    Core(Restored(h),
         UnstackedApsr(stored), 0,
         if excReturn == RETURN_PROCESS then UseProcess(h.control) else UseMain(h.control),
         if excReturn == RETURN_HANDLER then HANDLER else THREAD,
         h.mem)
  }

  /** A handler that behaves: it keeps R4-R11, SP, the frame and the rest of CONTROL; it may change
      anything else. */
  ghost predicate Behaves(e: Core, h: Core) {
    && CoreOk(e) && CoreOk(h) && |h.mem| == |e.mem|
    && (forall r | 4 <= r < 12 :: h.gpr[r] == e.gpr[r])
    && h.gpr[SP] == e.gpr[SP]
    && h.control == e.control
    && e.gpr[SP] / 4 + 8 <= |e.mem|
    && h.mem[e.gpr[SP] / 4..e.gpr[SP] / 4 + 8] == e.mem[e.gpr[SP] / 4..e.gpr[SP] / 4 + 8]
  }

  lemma EnterFrame(c: Core, id: nat, nextPc: word, handler: word)
    requires CoreOk(c) && FrameFits(c)
    ensures var e, fp := Enter(c, id, nextPc, handler), FramePtr(c.gpr[SP]);
            && fp / 4 + 8 <= |c.mem| == |e.mem|
            && e.mem[fp / 4..fp / 4 + 8] == Frame(c, nextPc)
            && fp % 8 == 0 && fp + 0x20 <= c.gpr[SP]
    ensures forall i | 0 <= i < |c.mem| && !(FramePtr(c.gpr[SP]) / 4 <= i < FramePtr(c.gpr[SP]) / 4 + 8) ::
              Enter(c, id, nextPc, handler).mem[i] == c.mem[i]
  {
  }

  /** What a handler finds: its exception number in IPSR, handler mode, the main stack with the rest of
      CONTROL kept, its address in the PC, and in LR where the exception came from. */
  lemma EntryState(c: Core, id: nat, nextPc: word, handler: word)
    requires |c.gpr| == 16 && FrameFits(c) && id < 64
    ensures var e := Enter(c, id, nextPc, handler);
            && e.ipsr == id && e.mode == 0
            && e.control / 2 % 2 == 0 && e.control % 2 == c.control % 2 && e.control / 4 == c.control / 4
            && e.apsr == c.apsr && (forall r | 0 <= r < 13 :: e.gpr[r] == c.gpr[r])
            && e.gpr[15] == handler
            && e.gpr[14] == (if c.mode == 0 then 0xFFFF_FFF1
                             else if c.control / 2 % 2 == 1 then 0xFFFF_FFFD else 0xFFFF_FFF9)
            && e.gpr[13] == c.gpr[13] - (if c.gpr[13] % 8 == 4 then 0x24 else 0x20)
  {
    EightOrFour(c.gpr[SP]);
  }

  /** The words of its stack, from the new SP up; bit 9 of the last says whether SP was moved to align it. */
  lemma EntryStack(c: Core, id: nat, nextPc: word, handler: word)
    requires CoreOk(c) && FrameFits(c)
    ensures var e := Enter(c, id, nextPc, handler);
            var at := e.gpr[13] / 4;
            && at + 8 <= |e.mem| == |c.mem|
            && e.mem[at] == c.gpr[0] && e.mem[at + 1] == c.gpr[1] && e.mem[at + 2] == c.gpr[2] && e.mem[at + 3] == c.gpr[3]
            && e.mem[at + 4] == c.gpr[12] && e.mem[at + 5] == c.gpr[14] && e.mem[at + 6] == nextPc
            && e.mem[at + 7] / 0x400 == c.apsr / 0x400 && e.mem[at + 7] % 0x200 == c.apsr % 0x200
            && (e.mem[at + 7] / 0x200 % 2 == 1 <==> c.gpr[13] % 8 == 4)
            && forall i | 0 <= i < |c.mem| && !(at <= i < at + 8) :: e.mem[i] == c.mem[i]
  {
    var e := Enter(c, id, nextPc, handler);
    EnterFrame(c, id, nextPc, handler);
    FrameWords(e.mem, Frame(c, nextPc), e.gpr[SP] / 4);
    StackedFields(c.apsr, Moved(c.gpr[SP]));
  }

  lemma StackedFields(apsr: word, moved: bool)
    ensures var stored := StackedPsr(apsr, moved);
            stored / 0x400 == apsr / 0x400 && stored % 0x200 == apsr % 0x200 && (stored / 0x200 % 2 == 1 <==> moved)
  {
    var q, stored := apsr / 0x400, StackedPsr(apsr, moved);
    DivModUnique(stored, 0x200, 2 * q + BoolBit(moved), apsr % 0x200);
    DivModUnique(stored, 0x400, q, 0x200 * BoolBit(moved) + apsr % 0x200);
  }

  /** What a return leaves, for any frame: eight words from SP up, the mode and the stack by the EXC_RETURN
      value, IPSR 0 and no APSR bits but the flags. */
  lemma ReturnState(h: Core, excReturn: word)
    requires |h.gpr| == 16 && ReturnOk(excReturn) && UnstackFits(h)
    ensures var r, at := Return(h, excReturn), h.gpr[13] / 4;
            && r.ipsr == 0 && r.mode == (if excReturn == 0xFFFF_FFF1 then 0 else 1)
            && (r.control / 2 % 2 == 1 <==> excReturn == 0xFFFF_FFFD)
            && r.control % 2 == h.control % 2 && r.control / 4 == h.control / 4
            && r.apsr / 0x1000_0000 == h.mem[at + 7] / 0x1000_0000 && r.apsr % 0x1000_0000 == 0
            && r.gpr[0] == h.mem[at] && r.gpr[1] == h.mem[at + 1] && r.gpr[2] == h.mem[at + 2] && r.gpr[3] == h.mem[at + 3]
            && (forall i | 4 <= i < 12 :: r.gpr[i] == h.gpr[i])
            && r.gpr[12] == h.mem[at + 4] && r.gpr[14] == h.mem[at + 5] && r.gpr[15] == h.mem[at + 6]
            && r.gpr[13] == h.gpr[13] + (if h.mem[at + 7] / 0x200 % 2 == 1 then 0x24 else 0x20)
            && r.mem == h.mem
  {
    assert h.control == 2 * (h.control / 2) + h.control % 2 && h.control / 2 == 2 * (h.control / 4) + h.control / 2 % 2;
  }

  /** An exception is invisible to the interrupted program: entry from thread mode, then any handler
      that behaves, then return through the EXC_RETURN value entry put in LR. R0-R12, SP for both
      alignments, LR, the flags, mode and stack selection are as before, and execution continues at
      the saved address. */
  lemma ExceptionTransparent(c: Core, id: nat, nextPc: word, handler: word, h: Core)
    requires CoreOk(c) && FrameFits(c) && c.mode == THREAD && c.ipsr == 0
    requires Behaves(Enter(c, id, nextPc, handler), h)
    ensures var exc := Enter(c, id, nextPc, handler).gpr[LR];
            && ReturnOk(exc) && UnstackFits(h)
            && var r := Return(h, exc);
               && r.gpr == c.gpr[PC := nextPc]
               && r.apsr == UnstackedApsr(c.apsr)
               && r.ipsr == c.ipsr && r.mode == c.mode && r.control == c.control
               && r.mem == h.mem
  {
    EnterFrame(c, id, nextPc, handler);
    ReturnFromFrame(c, nextPc, h);
    PsrRoundTrip(c.apsr, Moved(c.gpr[SP]));
    ControlRestored(c.control);
  }

  /** Return with the frame of `c` at SP takes the registers from it. */
  lemma ReturnFromFrame(c: Core, nextPc: word, h: Core)
    requires CoreOk(c) && FrameFits(c) && CoreOk(h) && |h.mem| == |c.mem|
    requires var fp := FramePtr(c.gpr[SP]);
             h.gpr[SP] == fp && h.mem[fp / 4..fp / 4 + 8] == Frame(c, nextPc)
    requires forall r | 4 <= r < 12 :: h.gpr[r] == c.gpr[r]
    ensures UnstackFits(h)
    ensures h.mem[h.gpr[SP] / 4 + 7] == StackedPsr(c.apsr, Moved(c.gpr[SP]))
    ensures Restored(h) == c.gpr[PC := nextPc]
  {
    FrameWords(h.mem, Frame(c, nextPc), FramePtr(c.gpr[SP]) / 4);
    PsrRoundTrip(c.apsr, Moved(c.gpr[SP]));
    SpRestored(c.gpr[SP]);
    var r := Restored(h);
    assert forall x | 0 <= x < 16 :: r[x] == c.gpr[PC := nextPc][x];
  }

  /** Both alignments of SP come back. */
  lemma SpRestored(sp: word)
    requires sp % 4 == 0 && sp >= 0x24
    ensures FramePtr(sp) + 0x20 < TWO32 && UnstackedSp(FramePtr(sp), Moved(sp)) == sp
  {
  }

  lemma ControlRestored(control: word)
    ensures (if OnProcessStack(control) then UseProcess(UseMain(control)) else UseMain(UseMain(control))) == control
  {
  }

  lemma FrameWords(mem: seq<word>, f: seq<word>, at: nat)
    requires |f| == 8 && at + 8 <= |mem| && mem[at..at + 8] == f
    ensures mem[at] == f[0] && mem[at + 1] == f[1] && mem[at + 2] == f[2] && mem[at + 3] == f[3]
    ensures mem[at + 4] == f[4] && mem[at + 5] == f[5] && mem[at + 6] == f[6] && mem[at + 7] == f[7]
  {
    var w := mem[at..at + 8];
    assert mem[at] == w[0] && mem[at + 1] == w[1] && mem[at + 2] == w[2] && mem[at + 3] == w[3];
    assert mem[at + 4] == w[4] && mem[at + 5] == w[5] && mem[at + 6] == w[6] && mem[at + 7] == w[7];
  }

  // ---------------------------------------------------------------------------------------------
  // Returning by POP

  datatype Retired = Continues(core: Core) | Fatal

  function WithState(c: Core, s: State): Core {
    c.(gpr := s.gpr, mem := s.mem)
  }

  function StateOf(c: Core): State {
    State(c.gpr, c.mem)
  }

  /** `pop` on the whole core: the loads, and the exception return if it asks for one. An EXC_RETURN value
      other than the three accepted ends the simulation, as does a frame outside memory. */
  function PopCore(c: Core, insn: listbits): (r: Retired)
    requires |c.gpr| == 16 && PopFits(StateOf(c), insn)
    ensures r.Continues? ==> |r.core.gpr| == 16
  {
    match Pop(StateOf(c), insn)
    case Done(s) => Continues(WithState(c, s))
    case ExceptionReturn(s, excReturn) =>
      var u := WithState(c, s);
      if ReturnOk(excReturn) && UnstackFits(u) then Continues(Return(u, excReturn)) else Fatal
  }

  /** A handler body, between PUSH {L, lr} and POP {L, pc}: it keeps SP, the pushed words, the frame above
      them, the part of R4-R11 that is not pushed, and CONTROL. */
  ghost predicate BodyBehaves(e: Core, h: Core, insn: listbits)
    requires CoreOk(e) && PushFits(StateOf(e), insn)
  {
    && CoreOk(h) && KeepsPushed(StateOf(e), StateOf(h), insn)
    && (forall r | 4 <= r < 12 && !(r < 8 && Bit(insn, r)) :: h.gpr[r] == e.gpr[r])
    && h.control == e.control
    && e.gpr[SP] / 4 + 8 <= |e.mem|
    && h.mem[e.gpr[SP] / 4..e.gpr[SP] / 4 + 8] == e.mem[e.gpr[SP] / 4..e.gpr[SP] / 4 + 8]
  }

  /** POP undoes PUSH, so what it hands to `exceptionReturn` behaved. */
  lemma PoppedBehaves(e: Core, h: Core, insn: listbits)
    requires CoreOk(e) && insn >= 0x100 && PushFits(StateOf(e), insn) && BodyBehaves(e, h, insn)
    requires IsExceptionReturn(e.gpr[LR])
    ensures PopFits(StateOf(h), insn)
    ensures var o := Pop(StateOf(h), insn);
            o.ExceptionReturn? && o.excReturn == e.gpr[LR] && Behaves(e, WithState(h, o.s))
  {
    PushPop(StateOf(e), StateOf(h), insn, SP);
    forall r | 4 <= r < 12
      ensures Pop(StateOf(h), insn).s.gpr[r] == e.gpr[r]
    {
      PushPop(StateOf(e), StateOf(h), insn, r);
    }
  }

  /** The usual handler, from its PUSH {L, lr} to its POP {L, pc}, is invisible to the interrupted
      program: POP returns from the exception and restores everything but APSR below the flags. */
  lemma HandlerTransparent(c: Core, id: nat, nextPc: word, handler: word, insn: listbits, h: Core)
    requires CoreOk(c) && FrameFits(c) && c.mode == THREAD && c.ipsr == 0 && insn >= 0x100
    requires var e := Enter(c, id, nextPc, handler);
             CoreOk(e) && PushFits(StateOf(e), insn) && BodyBehaves(e, h, insn)
    ensures PopFits(StateOf(h), insn)
    ensures var r := PopCore(h, insn);
            && r.Continues?
            && r.core == c.(gpr := c.gpr[PC := nextPc], apsr := UnstackedApsr(c.apsr), mem := h.mem)
  {
    var e := Enter(c, id, nextPc, handler);
    PoppedBehaves(e, h, insn);
    PushPop(StateOf(e), StateOf(h), insn, SP);
    var o := Pop(StateOf(h), insn);
    ExceptionTransparent(c, id, nextPc, handler, WithState(h, o.s));
  }
}

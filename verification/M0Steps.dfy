/** Single steps of the modelled Cortex-M0, from code memory: which halfwords make an instruction, and where
    the next one is. The laws name no decoding predicate. */
module M0Steps {
  import opened Bits
  import opened M0Execute
  import B = M0Branch
  import L = M0Encodings
  import P = M0Pipeline
  import X = M0Exception

  /** Code memory is little endian: the halfword at a word's address is its low half. */
  lemma HalvesOfWord(m: P.Machine, a: word)
    requires a % 4 == 0
    ensures m.code(a) == m.Half(a) + 0x1_0000 * m.Half(a + 2)
  {
    assert (a + 2) % 4 == 2;
  }

  /** The core an instruction at `next` runs on: the PC reads as its address plus four, with the thumb bit. */
  function Seen(s: P.Sequential): (c: X.Core)
    requires |s.core.gpr| == 16
    ensures |c.gpr| == 16
  {
    s.core.(gpr := s.core.gpr[15 := (s.next + 4) % 0x1_0000_0000])
  }

  /** A step executes the halfword at `next`, and with it the following one if it is from 0xF000 up to
      0xF7FF. Where no branch is taken the next instruction is two bytes on. */
  lemma StepReads(m: P.Machine, s: P.Sequential)
    requires |s.core.gpr| == 16 && s.next % 2 == 1
    ensures var insn := m.Half(s.next - 1);
            var o := m.exec(insn, if 0xF000 <= insn < 0xF800 then m.Half((s.next + 1) % 0x1_0000_0000) else 0, Seen(s));
            && (o.Ended? ==> P.SeqStep(m, s) == P.SeqStopped)
            && (o.Outcome? && |o.core.gpr| == 16 ==>
                  P.SeqStep(m, s) ==
                  P.SeqRunning(P.Sequential(o.core.(gpr := o.core.gpr[15 := 0]),
                                            if o.taken then o.core.gpr[15] else (s.next + 2) % 0x1_0000_0000)))
  {
    assert (s.next + 1) % 0x1_0000_0000 == Sub32(Add32(s.next, 2), 1);
    assert P.Is32(m.Half(s.next - 1)) <==> 0xF000 <= m.Half(s.next - 1) < 0xF800;
  }

  /** The two halves of BL by `offset` are in code memory at `next`. */
  ghost predicate CallAt(m: P.Machine, next: word, offset: int)
    requires -0x100_0000 <= offset < 0x100_0000 && offset % 2 == 0 && next % 2 == 1
  {
    && m.Half(next - 1) == B.EncodeBl(offset).first
    && m.Half((next + 1) % 0x1_0000_0000) == B.EncodeBl(offset).second
  }

  /** LR and PC after the call */
  function Called(c: X.Core, next: word, offset: int): (d: X.Core)
    requires |c.gpr| == 16
    ensures |d.gpr| == 16
  {
    c.(gpr := c.gpr[14 := (next + 4) % 0x1_0000_0000][15 := (next + 4 + offset) % 0x1_0000_0000])
  }

  lemma CallExecutes(rest: Executor, c: X.Core, next: word, offset: int)
    requires |c.gpr| == 16 && c.gpr[15] == (next + 4) % 0x1_0000_0000
    requires -0x100_0000 <= offset < 0x100_0000 && offset % 2 == 0
    ensures var h := B.EncodeBl(offset);
            && 0xF000 <= h.first < 0xF800
            && Execute(rest, h.first, h.second, c) == P.Outcome(Called(c, next, offset), true)
  {
    var h := B.EncodeBl(offset);
    B.Encoded(offset);
    L.LinkBranch(rest, h, c);
    B.BlGoes(c.gpr, B.BlImmediate(h), next, offset);
  }

  lemma StepFrom(m: P.Machine, s: P.Sequential, h: B.Halves, d: X.Core, core: X.Core, next: word)
    requires |s.core.gpr| == |d.gpr| == 16 && s.next % 2 == 1 && 0xF000 <= h.first < 0xF800
    requires h.first == m.Half(s.next - 1) && h.second == m.Half((s.next + 1) % 0x1_0000_0000)
    requires m.exec(h.first, h.second, Seen(s)) == P.Outcome(d, true)
    requires core == d.(gpr := d.gpr[15 := 0]) && next == d.gpr[15]
    ensures P.SeqStep(m, s) == P.SeqRunning(P.Sequential(core, next))
  {
    StepReads(m, s);
  }

  /** BL is one step, for every even offset of 25 bits, backwards and forwards: it goes to the offset from
      four bytes past its own address, with that address in LR. */
  lemma CallStep(stages: nat, code: word -> word, rest: Executor, s: P.Sequential, offset: int)
    requires |s.core.gpr| == 16 && s.next % 2 == 1
    requires -0x100_0000 <= offset < 0x100_0000 && offset % 2 == 0
    requires CallAt(Modelled(stages, code, rest), s.next, offset)
    ensures P.SeqStep(Modelled(stages, code, rest), s) ==
            P.SeqRunning(P.Sequential(s.core.(gpr := s.core.gpr[14 := (s.next + 4) % 0x1_0000_0000][15 := 0]),
                                      (s.next + 4 + offset) % 0x1_0000_0000))
  {
    var m, h, c := Modelled(stages, code, rest), B.EncodeBl(offset), Seen(s);
    CallExecutes(rest, c, s.next, offset);
    assert m.exec(h.first, h.second, c) == Execute(rest, h.first, h.second, c);
    assert Called(c, s.next, offset).gpr[15 := 0] == s.core.gpr[14 := (s.next + 4) % 0x1_0000_0000][15 := 0];
    StepFrom(m, s, h, Called(c, s.next, offset),
             s.core.(gpr := s.core.gpr[14 := (s.next + 4) % 0x1_0000_0000][15 := 0]), (s.next + 4 + offset) % 0x1_0000_0000);
  }

  /** So is it one cycle of either pipeline, which then holds nothing but bubbles before the target. */
  lemma CallCycle(stages: nat, code: word -> word, rest: Executor, p: P.Pipe, next: word, offset: int)
    requires (stages == 2 || stages == 3) && RestOk(rest)
    requires P.PipeInv(Modelled(stages, code, rest), p, next) && p.bubbles == 0 && next % 2 == 1
    requires -0x100_0000 <= offset < 0x100_0000 && offset % 2 == 0
    requires CallAt(Modelled(stages, code, rest), next, offset)
    ensures var m := Modelled(stages, code, rest);
            var r := P.Cycle(m, p);
            && r.Running? && P.PipeInv(m, r.p, (next + 4 + offset) % 0x1_0000_0000)
            && r.p.core.gpr[14] == (next + 4) % 0x1_0000_0000
  {
    var m, s := Modelled(stages, code, rest), P.Sequential(P.NoPc(p.core), next);
    ModelledOk(stages, code, rest);
    CallStep(stages, code, rest, s, offset);
    CycleFrom(m, p, next, P.SeqStep(m, s), (next + 4 + offset) % 0x1_0000_0000, (next + 4) % 0x1_0000_0000);
  }

  lemma CycleFrom(m: P.Machine, p: P.Pipe, next: word, t: P.SeqResult, target: word, lr: word)
    requires P.MachineOk(m) && P.PipeInv(m, p, next) && p.bubbles == 0 && next % 2 == 1
    requires t == P.SeqStep(m, P.Sequential(P.NoPc(p.core), next))
    requires t.SeqRunning? && t.s.next == target && |t.s.core.gpr| == 16 && t.s.core.gpr[14] == lr
    ensures var r := P.Cycle(m, p); r.Running? && P.PipeInv(m, r.p, target) && r.p.core.gpr[14] == lr
  {
    P.RealCycle(m, p, next);
    var r := P.Cycle(m, p).p;
    assert P.NoPc(r.core).gpr[14] == r.core.gpr[14];
  }

  /** The shortest backward calls, and the longest */
  lemma BackwardEncodings()
    ensures B.EncodeBl(-4) == B.Halves(0xF7FF, 0xFFFE)
    ensures B.EncodeBl(-8) == B.Halves(0xF7FF, 0xFFFC)
    ensures B.EncodeBl(-0x100_0000) == B.Halves(0xF400, 0xD000)
  {
    assert B.EncodeImmediate(0xFF_FFFE) == B.Halves(0xF7FF, 0xFFFE);
  }

  /** No offset at all, and those with I2 or I1 alone set */
  lemma ForwardEncodings()
    ensures B.EncodeBl(0) == B.Halves(0xF000, 0xF800)
    ensures B.EncodeBl(0x40_0000) == B.Halves(0xF000, 0xF000)
    ensures B.EncodeBl(0x80_0000) == B.Halves(0xF000, 0xD800)
  {
  }
}

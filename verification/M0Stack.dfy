/** Loads and stores of several registers on the Cortex-M0. Memory is a sequence of words; an aligned
    byte address `a` selects word `a / 4`. */
module M0Stack {
  import opened Bits
  import opened Options

  // ---------------------------------------------------------------------------------------------
  // Register lists

  type reg = x: nat | x < 16

  /** The registers `lo..hi` whose bit is set, in ascending order */
  function Listed(list: nat, lo: nat, hi: nat): (r: seq<reg>)
    requires lo <= hi <= 16
    ensures |r| <= hi - lo
    decreases hi - lo, list
  {
    if lo == hi then [] else Listed(list, lo, hi - 1) + (if Bit(list, hi - 1) then [hi - 1] else [])
  }

  ghost predicate Distinct(regs: seq<reg>) {
    forall i, j | 0 <= i < j < |regs| :: regs[i] != regs[j]
  }

  lemma {:induction false} ListedMembers(list: nat, lo: nat, hi: nat)
    requires lo <= hi <= 16
    ensures forall i | 0 <= i < |Listed(list, lo, hi)| :: lo <= Listed(list, lo, hi)[i] < hi && Bit(list, Listed(list, lo, hi)[i])
    ensures Distinct(Listed(list, lo, hi))
    decreases hi - lo
  {
    if lo < hi {
      ListedMembers(list, lo, hi - 1);
    }
  }

  lemma {:induction false} ListedIndex(list: nat, lo: nat, hi: nat, x: nat) returns (i: nat)
    requires lo <= x < hi <= 16 && Bit(list, x)
    ensures i < |Listed(list, lo, hi)| && Listed(list, lo, hi)[i] == x
    decreases hi - lo
  {
    if x == hi - 1 {
      i := |Listed(list, lo, hi - 1)|;
    } else {
      i := ListedIndex(list, lo, hi - 1, x);
    }
  }

  /** Scanning downwards finds the same list from its other end. */
  lemma {:induction false} ListedFromBelow(list: nat, lo: nat, hi: nat)
    requires lo < hi <= 16
    ensures Listed(list, lo, hi) == (if Bit(list, lo) then [lo] else []) + Listed(list, lo + 1, hi)
    decreases hi - lo
  {
    if lo + 1 < hi {
      ListedFromBelow(list, lo, hi - 1);
    } else {
      assert Listed(list, lo, lo) == [];
    }
  }

  /** The nine list bits of PUSH and POP: R0-R7, and bit 8 for LR when pushing or PC when popping */
  type listbits = x: nat | x < 0x200

  /** Bit 8 moved to bit `n`, the low eight bits kept */
  function DecodedList(insn: listbits, n: nat): nat {
    Shl(insn / 0x100, n) + insn % 0x100
  }

  lemma ListMasks(insn: listbits)
    ensures And(insn, 0xFF) == insn % 0x100
    ensures And(insn, 0x100) == (insn / 0x100) * 0x100
  {
    var k, w := 8, 9;
    Pow2Constants();
    AndMask(insn, k);
    ShrLowAreDivMod(insn, k);
    AndHighMask(insn, k, w);
  }

  /** Bits of `hi << n | lo` */
  lemma {:induction false} BitsOfJoin(hi: nat, lo: nat, n: nat, i: nat)
    requires lo < Pow2(n)
    ensures Bit(Shl(hi, n) + lo, i) == if i < n then Bit(lo, i) else Bit(hi, i - n)
  {
    if n > 0 && i > 0 {
      assert (Shl(hi, n) + lo) / 2 == Shl(hi, n - 1) + lo / 2;
      BitsOfJoin(hi, lo / 2, n - 1, i - 1);
    }
  }

  /** The decoded list selects R0-R7 by the low bits of the instruction, and register `n` by bit 8. */
  lemma MovedBits(insn: listbits, n: nat, i: nat)
    requires 8 <= n && i < 8
    ensures Bit(DecodedList(insn, n), i) == Bit(insn, i)
    ensures Bit(DecodedList(insn, n), n) <==> insn >= 0x100
  {
    LowBits(insn, n, i);
    LowBits(insn, 8, i);
    assert DecodedList(insn, 8) == insn by { ShlIsProduct(insn / 0x100, 8); }
  }

  lemma LowBits(insn: listbits, n: nat, i: nat)
    requires 8 <= n && i < 8
    ensures Bit(DecodedList(insn, n), i) == Bit(insn % 0x100, i)
    ensures Bit(DecodedList(insn, n), n) <==> insn >= 0x100
  {
    Pow2From8(n);
    BitsOfJoin(insn / 0x100, insn % 0x100, n, i);
    BitsOfJoin(insn / 0x100, insn % 0x100, n, n);
  }

  lemma {:induction false} Pow2From8(n: nat)
    requires n >= 8
    ensures 0x100 <= Pow2(n)
    ensures n == 8 ==> Pow2(n) == 0x100
  {
    if n == 8 {
      Pow2Constants();
    } else {
      Pow2From8(n - 1);
    }
  }

  /** `(insn & 0x100) << d`, a shift of bit 8 by `d` places */
  lemma ShiftedBit(insn: listbits, d: nat)
    ensures Shl(And(insn, 0x100), d) == Shl(insn / 0x100, 8 + d)
  {
    var k := 8;
    ListMasks(insn);
    assert (insn / 0x100) * 0x100 == Shl(insn / 0x100, k) by {
      ShlIsProduct(insn / 0x100, k);
      Pow2Constants();
    }
    ShlShl(insn / 0x100, d, k);
  }

  /** `decode_pop` moves bit 8 by seven places, to PC, and `decode_cps_push` by six, to LR. */
  lemma DecodeMasks(insn: listbits, d: nat)
    ensures Or(Shl(And(insn, 0x100), d), And(insn, 0xFF)) == DecodedList(insn, 8 + d)
    ensures Or(And(insn, 0xFF), Shl(And(insn, 0x100), d)) == DecodedList(insn, 8 + d)
  {
    ShiftedBit(insn, d);
    ListMasks(insn);
    assert insn % 0x100 < Pow2(8 + d) by { Pow2From8(8 + d); }
    OrDisjoint(insn / 0x100, insn % 0x100, 8 + d);
    OrSymmetric(Shl(insn / 0x100, 8 + d), insn % 0x100);
  }

  // ---------------------------------------------------------------------------------------------
  // Blocks of words and of registers

  function StoreWords(mem: seq<word>, at: nat, ws: seq<word>): (m: seq<word>)
    requires at + |ws| <= |mem|
    ensures |m| == |mem|
  {
    mem[..at] + ws + mem[at + |ws|..]
  }

  function Values(gpr: seq<word>, regs: seq<reg>): (v: seq<word>)
    requires |gpr| == 16
    ensures |v| == |regs|
    ensures forall i | 0 <= i < |regs| :: v[i] == gpr[regs[i]]
  {
    seq(|regs|, i requires 0 <= i < |regs| => gpr[regs[i]])
  }

  /** Sets the first `n` registers of the list. */
  function SetFirst(gpr: seq<word>, regs: seq<reg>, values: seq<word>, n: nat): (g: seq<word>)
    requires n <= |regs| == |values| && |gpr| == 16
    ensures |g| == 16
  {
    if n == 0 then gpr else SetFirst(gpr, regs, values, n - 1)[regs[n - 1] := values[n - 1]]
  }

  function SetRegs(gpr: seq<word>, regs: seq<reg>, values: seq<word>): (g: seq<word>)
    requires |regs| == |values| && |gpr| == 16
    ensures |g| == 16
  {
    SetFirst(gpr, regs, values, |regs|)
  }

  lemma {:induction false} SetFirstAt(gpr: seq<word>, regs: seq<reg>, values: seq<word>, n: nat, r: reg)
    requires n <= |regs| == |values| && |gpr| == 16 && Distinct(regs)
    ensures (forall i | 0 <= i < n :: regs[i] != r) ==> SetFirst(gpr, regs, values, n)[r] == gpr[r]
    ensures forall i | 0 <= i < n && regs[i] == r :: SetFirst(gpr, regs, values, n)[r] == values[i]
  {
    if n > 0 {
      SetFirstAt(gpr, regs, values, n - 1, r);
    }
  }

  lemma SetRegsAt(gpr: seq<word>, regs: seq<reg>, values: seq<word>, r: reg)
    requires |regs| == |values| && |gpr| == 16 && Distinct(regs)
    ensures (forall i | 0 <= i < |regs| :: regs[i] != r) ==> SetRegs(gpr, regs, values)[r] == gpr[r]
    ensures forall i | 0 <= i < |regs| && regs[i] == r :: SetRegs(gpr, regs, values)[r] == values[i]
  {
    SetFirstAt(gpr, regs, values, |regs|, r);
  }

  // ---------------------------------------------------------------------------------------------
  // PUSH and POP

  const SP := 13
  const LR := 14
  const PC := 15

  datatype State = State(gpr: seq<word>, mem: seq<word>)

  ghost predicate StateOk(s: State) {
    |s.gpr| == 16 && 4 * |s.mem| <= TWO32
  }

  function PushRegs(insn: listbits): (r: seq<reg>)
    ensures |r| <= 9
  {
    Listed(insn, 0, 8) + (if insn >= 0x100 then [LR] else [])
  }

  function PopRegs(insn: listbits): (r: seq<reg>)
    ensures |r| <= 9
  {
    Listed(insn, 0, 8) + (if insn >= 0x100 then [PC] else [])
  }

  /** The stack pointer is word aligned and the words pushed lie inside memory. */
  predicate PushFits(s: State, insn: listbits)
    requires |s.gpr| == 16
  {
    s.gpr[SP] % 4 == 0 && |PushRegs(insn)| <= s.gpr[SP] / 4 <= |s.mem|
  }

  function Push(s: State, insn: listbits): (s': State)
    requires |s.gpr| == 16 && PushFits(s, insn)
    ensures |s'.gpr| == 16 && |s'.mem| == |s.mem|
  {
    var regs := PushRegs(insn);
    State(s.gpr[SP := s.gpr[SP] - 4 * |regs|],
          StoreWords(s.mem, s.gpr[SP] / 4 - |regs|, Values(s.gpr, regs)))
  }

  /** The words popped lie inside memory, and the new SP is a word. */
  predicate PopFits(s: State, insn: listbits)
    requires |s.gpr| == 16
  {
    && s.gpr[SP] % 4 == 0 && s.gpr[SP] / 4 + |PopRegs(insn)| <= |s.mem|
    && s.gpr[SP] + 4 * |PopRegs(insn)| < TWO32
  }

  /** The loads of POP and the new SP, before an exception return */
  function PopWords(s: State, insn: listbits): (s': State)
    requires |s.gpr| == 16 && PopFits(s, insn)
    ensures |s'.gpr| == 16
  {
    var regs, at := PopRegs(insn), s.gpr[SP] / 4;
    State(SetRegs(s.gpr, regs, s.mem[at..at + |regs|])[SP := s.gpr[SP] + 4 * |regs|], s.mem)
  }

  /** A value with its four high bits set is an EXC_RETURN value when it reaches the PC. */
  predicate IsExceptionReturn(pc: word) {
    pc >= 0xF000_0000
  }

  lemma ExceptionReturnMask(pc: word)
    ensures And(pc, 0xF000_0000) == 0xF000_0000 <==> IsExceptionReturn(pc)
    ensures pc / 0x1000_0000 == 0xF <==> IsExceptionReturn(pc)
  {
    var k, w := 28, 32;
    Pow2Constants();
    AndHighMask(pc, k, w);
    ShrLowAreDivMod(pc, k);
  }

  /** An instruction is done with the state, or hands it and an EXC_RETURN value to `exceptionReturn`. */
  datatype Outcome = Done(s: State) | ExceptionReturn(s: State, excReturn: word)

  function Pop(s: State, insn: listbits): (o: Outcome)
    requires |s.gpr| == 16 && PopFits(s, insn)
    ensures |o.s.gpr| == 16
  {
    var s' := PopWords(s, insn);
    if insn >= 0x100 && IsExceptionReturn(s'.gpr[PC]) then ExceptionReturn(s', s'.gpr[PC]) else Done(s')
  }

  /** Setting the popped registers to the pushed values */
  lemma PushPopReg(pushed: seq<word>, gpr: seq<word>, insn: listbits, x: reg)
    requires |pushed| == |gpr| == 16 && x != SP
    ensures |PushRegs(insn)| == |PopRegs(insn)|
    ensures SetRegs(gpr, PopRegs(insn), Values(pushed, PushRegs(insn)))[x] ==
            if x < 8 && Bit(insn, x) then pushed[x]
            else if x == PC && insn >= 0x100 then pushed[LR]
            else gpr[x]
  {
    var low, pops := Listed(insn, 0, 8), PopRegs(insn);
    ListedMembers(insn, 0, 8);
    SetRegsAt(gpr, pops, Values(pushed, PushRegs(insn)), x);
    if x < 8 && Bit(insn, x) {
      var i := ListedIndex(insn, 0, 8, x);
      assert pops[i] == x && PushRegs(insn)[i] == x;
    } else if x == PC && insn >= 0x100 {
      assert pops[|low|] == PC && PushRegs(insn)[|low|] == LR;
    }
  }

  /** `t` is a later state that has the SP and the words PUSH leaves: the values of the list, upwards
      from the new SP. */
  ghost predicate KeepsPushed(s: State, t: State, insn: listbits)
    requires StateOk(s) && PushFits(s, insn)
  {
    var n, top := |PushRegs(insn)|, s.gpr[SP] / 4;
    && StateOk(t) && |t.mem| == |s.mem| && t.gpr[SP] == s.gpr[SP] - 4 * n
    && t.mem[top - n..top] == Values(s.gpr, PushRegs(insn))
  }

  /** PUSH itself leaves such a state. */
  lemma PushLeaves(s: State, insn: listbits)
    requires StateOk(s) && PushFits(s, insn)
    ensures KeepsPushed(s, Push(s, insn), insn)
  {
    StoredWords(s.mem, s.gpr[SP] / 4 - |PushRegs(insn)|, Values(s.gpr, PushRegs(insn)));
  }

  lemma PoppedIsPushed(s: State, t: State, insn: listbits)
    requires StateOk(s) && PushFits(s, insn) && KeepsPushed(s, t, insn)
    ensures PopFits(t, insn)
    ensures var at := t.gpr[SP] / 4;
            t.mem[at..at + |PopRegs(insn)|] == Values(s.gpr, PushRegs(insn))
    ensures t.gpr[SP] + 4 * |PopRegs(insn)| == s.gpr[SP]
  {
    SameLength(insn);
    Quarter(s.gpr[SP], |PushRegs(insn)|);
  }

  lemma SameLength(insn: listbits)
    ensures |PopRegs(insn)| == |PushRegs(insn)|
  {
  }

  lemma Quarter(sp: nat, n: nat)
    requires sp % 4 == 0 && n <= sp / 4
    ensures sp >= 4 * n && (sp - 4 * n) % 4 == 0 && (sp - 4 * n) / 4 == sp / 4 - n
  {
  }

  lemma StoredWords(mem: seq<word>, at: nat, ws: seq<word>)
    requires at + |ws| <= |mem|
    ensures StoreWords(mem, at, ws)[at..at + |ws|] == ws
  {
  }

  /** PUSH {L, lr}, then any code that leaves SP and the pushed words alone, then POP {L, pc}: SP and
      every register of L come back, the old LR goes to the PC, and nothing else changes. That is the end
      of it if and only if the old LR is no EXC_RETURN value; else it is handed to `exceptionReturn`. */
  lemma PushPop(s: State, t: State, insn: listbits, x: reg)
    requires StateOk(s) && PushFits(s, insn) && KeepsPushed(s, t, insn)
    ensures PopFits(t, insn)
    ensures var o := Pop(t, insn);
            && o.s.mem == t.mem
            && o.s.gpr[x] == (if x == SP || (x < 8 && Bit(insn, x)) then s.gpr[x]
                              else if x == PC && insn >= 0x100 then s.gpr[LR]
                              else t.gpr[x])
            && (o.Done? <==> insn < 0x100 || !IsExceptionReturn(s.gpr[LR]))
            && (o.ExceptionReturn? ==> o.excReturn == s.gpr[LR])
  {
    PopRestores(s, t, insn, x);
    PopRestores(s, t, insn, PC);
  }

  lemma PopRestores(s: State, t: State, insn: listbits, x: reg)
    requires StateOk(s) && PushFits(s, insn) && KeepsPushed(s, t, insn)
    ensures PopFits(t, insn)
    ensures PopWords(t, insn).mem == t.mem
    ensures PopWords(t, insn).gpr[x] ==
            if x == SP || (x < 8 && Bit(insn, x)) then s.gpr[x]
            else if x == PC && insn >= 0x100 then s.gpr[LR]
            else t.gpr[x]
  {
    PoppedIsPushed(s, t, insn);
    PopSets(t, insn, Values(s.gpr, PushRegs(insn)), x);
    if x != SP {
      PushPopReg(s.gpr, t.gpr, insn, x);
    }
  }

  lemma PopSets(t: State, insn: listbits, values: seq<word>, x: reg)
    requires StateOk(t) && PopFits(t, insn) && |values| == |PopRegs(insn)|
    requires t.mem[t.gpr[SP] / 4..t.gpr[SP] / 4 + |values|] == values
    ensures PopWords(t, insn).mem == t.mem
    ensures PopWords(t, insn).gpr[x] ==
            if x == SP then t.gpr[SP] + 4 * |values| else SetRegs(t.gpr, PopRegs(insn), values)[x]
  {
  }

  /** PUSH writes no memory but the words between the new and the old SP. */
  lemma PushFrame(s: State, insn: listbits, i: nat)
    requires StateOk(s) && PushFits(s, insn) && i < |s.mem|
    requires i < s.gpr[SP] / 4 - |PushRegs(insn)| || s.gpr[SP] / 4 <= i
    ensures Push(s, insn).mem[i] == s.mem[i]
  {
  }

  // ---------------------------------------------------------------------------------------------
  // STM and LDM

  type lowlist = x: nat | x < 0x100

  /** `stm` gives up if the base register is the lowest of the list. */
  predicate StmMalformed(list: lowlist, rN: nat) {
    var regs := Listed(list, 0, 8);
    regs != [] && regs[0] == rN
  }

  predicate BlockFits(s: State, list: lowlist, rN: nat)
    requires |s.gpr| == 16 && rN < 8
  {
    && s.gpr[rN] % 4 == 0 && s.gpr[rN] / 4 + |Listed(list, 0, 8)| <= |s.mem|
    && s.gpr[rN] + 4 * |Listed(list, 0, 8)| < TWO32
  }

  /** None where the simulation ends, before anything is stored */
  function Stm(s: State, list: lowlist, rN: nat): (r: Option<State>)
    requires |s.gpr| == 16 && rN < 8 && (StmMalformed(list, rN) || BlockFits(s, list, rN))
    ensures r.Some? ==> |r.value.gpr| == 16
  {
    if StmMalformed(list, rN) then None
    else
      var regs := Listed(list, 0, 8);
      Some(State(s.gpr[rN := s.gpr[rN] + 4 * |regs|], StoreWords(s.mem, s.gpr[rN] / 4, Values(s.gpr, regs))))
  }

  /** The base is written back only if it is not itself loaded. */
  function Ldm(s: State, list: lowlist, rN: nat): (s': State)
    requires |s.gpr| == 16 && rN < 8 && BlockFits(s, list, rN)
    ensures |s'.gpr| == 16
  {
    var regs, at := Listed(list, 0, 8), s.gpr[rN] / 4;
    var gpr := SetRegs(s.gpr, regs, s.mem[at..at + |regs|]);
    State(if Bit(list, rN) then gpr else gpr[rN := s.gpr[rN] + 4 * |regs|], s.mem)
  }

  lemma BlockReg(stored: seq<word>, gpr: seq<word>, list: lowlist, x: reg)
    requires |stored| == |gpr| == 16
    ensures SetRegs(gpr, Listed(list, 0, 8), Values(stored, Listed(list, 0, 8)))[x] ==
            if x < 8 && Bit(list, x) then stored[x] else gpr[x]
  {
    var regs := Listed(list, 0, 8);
    ListedMembers(list, 0, 8);
    SetRegsAt(gpr, regs, Values(stored, regs), x);
    if x < 8 && Bit(list, x) {
      var i := ListedIndex(list, 0, 8, x);
    }
  }

  lemma {:induction false} NoneListed(list: nat, hi: nat)
    requires hi <= 16
    ensures Listed(list, 0, hi) == [] <==> forall i | 0 <= i < hi :: !Bit(list, i)
    decreases hi
  {
    if hi > 0 {
      var top := hi - 1;
      NoneListed(list, top);
      assert Listed(list, 0, hi) == Listed(list, 0, top) + (if Bit(list, top) then [top] else []);
      forall i | 0 <= i < hi && Listed(list, 0, hi) == []
        ensures !Bit(list, i)
      {
        if i == top {
          assert !Bit(list, top);
        }
      }
    }
  }

  lemma {:induction false} LowestListed(list: nat, hi: nat, x: nat)
    requires x < hi <= 16
    ensures (Listed(list, 0, hi) != [] && Listed(list, 0, hi)[0] == x)
            <==> Bit(list, x) && forall i | 0 <= i < x :: !Bit(list, i)
    decreases hi
  {
    NoneListed(list, hi - 1);
    ListedMembers(list, 0, hi - 1);
    if x < hi - 1 {
      LowestListed(list, hi - 1, x);
    }
  }

  /** `stm` ends the simulation if and only if the base is in the list and no lower register is. */
  lemma StmRefuses(s: State, list: lowlist, rN: nat)
    requires |s.gpr| == 16 && rN < 8 && (StmMalformed(list, rN) || BlockFits(s, list, rN))
    ensures Stm(s, list, rN).None? <==> Bit(list, rN) && forall i | 0 <= i < rN :: !Bit(list, i)
  {
    LowestListed(list, 8, rN);
  }

  /** `t` is a later state that has the words STM stores in memory, and the base in rN. */
  ghost predicate KeepsStored(s: State, t: State, list: lowlist, rN: nat)
    requires StateOk(s) && rN < 8 && BlockFits(s, list, rN)
  {
    var b, regs := s.gpr[rN] / 4, Listed(list, 0, 8);
    && StateOk(t) && |t.mem| == |s.mem| && t.gpr[rN] == s.gpr[rN]
    && t.mem[b..b + |regs|] == Values(s.gpr, regs)
  }

  /** STM itself leaves such a state, but for the base, which it moves past the block. */
  lemma StmLeaves(s: State, list: lowlist, rN: nat)
    requires StateOk(s) && rN < 8 && BlockFits(s, list, rN) && Stm(s, list, rN).Some?
    ensures var u := Stm(s, list, rN).value;
            && u.gpr[rN] == s.gpr[rN] + 4 * |Listed(list, 0, 8)|
            && KeepsStored(s, u.(gpr := u.gpr[rN := s.gpr[rN]]), list, rN)
  {
    StoredWords(s.mem, s.gpr[rN] / 4, Values(s.gpr, Listed(list, 0, 8)));
  }

  /** Where STM does not end the simulation: STM, then any code that leaves the stored words alone, then
      LDM from the old base. Every register of the list is as it was when stored, and the base ends where
      STM left it unless it is itself in the list. */
  lemma StmLdm(s: State, t: State, list: lowlist, rN: nat, x: reg)
    requires StateOk(s) && rN < 8 && BlockFits(s, list, rN) && KeepsStored(s, t, list, rN)
    requires Stm(s, list, rN).Some?
    ensures BlockFits(t, list, rN)
    ensures Ldm(t, list, rN).mem == t.mem
    ensures Ldm(t, list, rN).gpr[x] ==
            if x < 8 && Bit(list, x) then s.gpr[x]
            else if x == rN then Stm(s, list, rN).value.gpr[rN]
            else t.gpr[x]
  {
    LdmSets(t, list, rN, Values(s.gpr, Listed(list, 0, 8)), x);
    BlockReg(s.gpr, t.gpr, list, x);
  }

  lemma LdmSets(t: State, list: lowlist, rN: nat, values: seq<word>, x: reg)
    requires StateOk(t) && rN < 8 && BlockFits(t, list, rN) && |values| == |Listed(list, 0, 8)|
    requires t.mem[t.gpr[rN] / 4..t.gpr[rN] / 4 + |values|] == values
    ensures Ldm(t, list, rN).mem == t.mem
    ensures Ldm(t, list, rN).gpr[x] ==
            if x == rN && !Bit(list, rN) then t.gpr[rN] + 4 * |values|
            else SetRegs(t.gpr, Listed(list, 0, 8), values)[x]
  {
  }

  lemma StmFrame(s: State, list: lowlist, rN: nat, i: nat)
    requires StateOk(s) && rN < 8 && BlockFits(s, list, rN) && i < |s.mem|
    requires i < s.gpr[rN] / 4 || s.gpr[rN] / 4 + |Listed(list, 0, 8)| <= i
    ensures var r := Stm(s, list, rN); r.Some? ==> r.value.mem[i] == s.mem[i]
  {
  }
}

/** The global CPU state of the Cortex-M0 and the instructions that update it in place. Every method is
    proved to take the register, flag and memory values to those of the functions in M0Arith, M0Stack
    and M0Exception. */
module M0Cpu {
  import opened Bits
  import opened M0Arith
  import opened M0Stack
  import opened SingleBits
  import B = M0Branch
  import X = M0Exception

  const N_MASK: word := 0x8000_0000
  const Z_MASK: word := 0x4000_0000
  const C_MASK: word := 0x2000_0000
  const V_MASK: word := 0x1000_0000

  /** The flags in the four high bits of APSR */
  function FlagsIn(apsr: word): Flags {
    Flags(apsr / N_MASK % 2 == 1, apsr / Z_MASK % 2 == 1, apsr / C_MASK % 2 == 1, apsr / V_MASK % 2 == 1)
  }

  /** Setting one flag changes that flag and nothing else. */
  lemma WithN(apsr: word, x: bool)
    ensures var a := WithBit(apsr, N_MASK, x); 0 <= a < TWO32 && FlagsIn(a) == FlagsIn(apsr).(n := x)
  {
    FlagsSplit(apsr);
    JoinedFlags(FlagsIn(apsr).(n := x), apsr % V_MASK);
  }

  lemma WithZ(apsr: word, x: bool)
    ensures var a := WithBit(apsr, Z_MASK, x); 0 <= a < TWO32 && FlagsIn(a) == FlagsIn(apsr).(z := x)
  {
    FlagsSplit(apsr);
    JoinedFlags(FlagsIn(apsr).(z := x), apsr % V_MASK);
  }

  lemma WithC(apsr: word, x: bool)
    ensures var a := WithBit(apsr, C_MASK, x); 0 <= a < TWO32 && FlagsIn(a) == FlagsIn(apsr).(c := x)
  {
    FlagsSplit(apsr);
    JoinedFlags(FlagsIn(apsr).(c := x), apsr % V_MASK);
  }

  lemma WithV(apsr: word, x: bool)
    ensures var a := WithBit(apsr, V_MASK, x); 0 <= a < TWO32 && FlagsIn(a) == FlagsIn(apsr).(v := x)
  {
    FlagsSplit(apsr);
    JoinedFlags(FlagsIn(apsr).(v := x), apsr % V_MASK);
  }

  /** APSR from its flags and the bits below them */
  function Joined(f: Flags, low: nat): nat {
    BoolBit(f.n) * N_MASK + BoolBit(f.z) * Z_MASK + BoolBit(f.c) * C_MASK + BoolBit(f.v) * V_MASK + low
  }

  lemma FlagsSplit(apsr: word)
    ensures apsr == Joined(FlagsIn(apsr), apsr % V_MASK)
  {
    var q := apsr / V_MASK;
    assert apsr == q * V_MASK + apsr % V_MASK && q < 16;
    assert apsr / N_MASK == q / 8 && apsr / Z_MASK == q / 4 && apsr / C_MASK == q / 2;
  }

  lemma JoinedFlags(f: Flags, low: nat)
    requires low < V_MASK
    ensures Joined(f, low) < TWO32
    ensures FlagsIn(Joined(f, low)) == f
  {
  }

  /** Whether register `i` is in a list decoded with bit 8 of the instruction standing for register `n` */
  predicate DecodedBit(insn: listbits, n: nat, i: nat) {
    if i < 8 then Bit(insn, i) else i == n && insn >= 0x100
  }

  lemma {:induction false} DecodedHighBit(hi: nat, j: nat)
    requires hi <= 1
    ensures Bit(hi, j) <==> hi == 1 && j == 0
  {
    if j > 0 {
      ZeroBit(j - 1);
    }
  }

  lemma DecodedBits(insn: listbits, n: nat, i: nat)
    requires n >= 8
    ensures Bit(DecodedList(insn, n), i) == DecodedBit(insn, n, i)
  {
    if i < 8 {
      MovedBits(insn, n, i);
    } else {
      Pow2From8(n);
      BitsOfJoin(insn / 0x100, insn % 0x100, n, i);
      if i < n {
        HighBitsClear(insn % 0x100, 8, i);
      } else {
        DecodedHighBit(insn / 0x100, i - n);
      }
    }
  }

  lemma {:induction false} HighBitsClear(a: nat, k: nat, i: nat)
    requires k <= i && a < Pow2(k)
    ensures !Bit(a, i)
  {
    if k > 0 {
      HighBitsClear(a / 2, k - 1, i - 1);
    } else {
      ZeroBit(i);
    }
  }

  /** `decode_cps_push`: R0-R7 by the low bits, LR by bit 8 */
  method DecodePush(insn: listbits) returns (list: nat)
    ensures forall i | 0 <= i < 16 :: Bit(list, i) == DecodedBit(insn, LR, i)
  {
    list := Or(Shl(And(insn, 0x100), 6), And(insn, 0xFF));
    DecodeMasks(insn, 6);
    forall i | 0 <= i < 16
      ensures Bit(list, i) == DecodedBit(insn, LR, i)
    {
      DecodedBits(insn, LR, i);
    }
  }

  /** `decode_pop`: R0-R7 by the low bits, PC by bit 8 */
  method DecodePop(insn: listbits) returns (list: nat)
    ensures forall i | 0 <= i < 16 :: Bit(list, i) == DecodedBit(insn, PC, i)
  {
    list := Or(Shl(And(insn, 0x100), 7), And(insn, 0xFF));
    DecodeMasks(insn, 7);
    forall i | 0 <= i < 16
      ensures Bit(list, i) == DecodedBit(insn, PC, i)
    {
      DecodedBits(insn, PC, i);
    }
  }

  class Cpu {
    /** `gpr` has 16 words; `mem` is the memory reached through aligned word accesses. */
    const gpr: array<word>
    const mem: array<word>
    var apsr: word
    var ipsr: word
    var control: word
    var mode: word
    var takenBranch: bool

    ghost predicate Valid()
      reads this, gpr, mem
    {
      gpr != mem && gpr.Length == 16 && 4 * mem.Length <= TWO32
    }

    ghost function View(): X.Core
      reads this, gpr, mem
    {
      X.Core(gpr[..], apsr, ipsr, control, mode, mem[..])
    }

    ghost function Arith(): Regs
      reads this, gpr
    {
      Regs(gpr[..], FlagsIn(apsr))
    }

    // -------------------------------------------------------------------------------------------
    // Flags

    method SetFlag(k: nat, p: word, x: bool)
      requires k < 32 && p == Pow2(k) && 0 <= WithBit(apsr, p, x) < TWO32
      modifies this`apsr
      ensures apsr == WithBit(old(apsr), p, x)
    {
      SetFlagMask(apsr, k, p, x);
      apsr := Or(if x then p else 0, And(apsr, Not32(p)));
    }

    method DoNFlag(r: word)
      modifies this`apsr
      ensures FlagsIn(apsr) == FlagsIn(old(apsr)).(n := SInt(r) < 0)
    {
      Pow2Constants();
      WithN(apsr, Top(r) == 1);
      SetFlag(31, N_MASK, Top(r) == 1);
    }

    method DoZFlag(r: word)
      modifies this`apsr
      ensures FlagsIn(apsr) == FlagsIn(old(apsr)).(z := r == 0)
    {
      Pow2Constants();
      WithZ(apsr, r == 0);
      SetFlag(30, Z_MASK, r == 0);
    }

    method DoCFlag(a: word, b: word, carry: bool)
      modifies this`apsr
      ensures FlagsIn(apsr) == FlagsIn(old(apsr)).(c := AddWithCarry(a, b, carry).carry)
    {
      Pow2Constants();
      CFlagExact(a, b, carry);
      var low := (a % 0x8000_0000 + b % 0x8000_0000 + BoolBit(carry)) % TWO32;
      var c := (Top(low) + Top(a) + Top(b)) / 2 == 1;
      WithC(apsr, c);
      SetFlag(29, C_MASK, c);
    }

    method DoVFlag(a: word, b: word, r: word, ghost carry: bool)
      requires r == AddWithCarry(a, b, carry).result
      modifies this`apsr
      ensures FlagsIn(apsr) == FlagsIn(old(apsr)).(v := AddWithCarry(a, b, carry).overflow)
    {
      Pow2Constants();
      VFlagExact(a, b, r, carry);
      var v := VFlag(a, b, r);
      WithV(apsr, v);
      SetFlag(28, V_MASK, v);
    }

    /** The four flag updates that end every addition and subtraction */
    method DoFlags(a: word, b: word, r: word, carry: bool)
      requires r == AddWithCarry(a, b, carry).result
      modifies this`apsr
      ensures FlagsIn(apsr) == FlagsOf(AddWithCarry(a, b, carry))
    {
      DoNFlag(r);
      DoZFlag(r);
      DoCFlag(a, b, carry);
      DoVFlag(a, b, r, carry);
    }

    // -------------------------------------------------------------------------------------------
    // Addition and subtraction

    method Adcs(rD: reg, rM: reg)
      requires Valid()
      modifies this`apsr, gpr
      ensures Arith() == M0Arith.Adcs(old(Arith()), rD, rM)
    {
      var opA, opB, c := gpr[rD], gpr[rM], FlagsIn(apsr).c;
      var result := Add32(Add32(opA, opB), BoolBit(c));
      SumWraps(opA, opB, c);
      gpr[rD] := result;
      DoFlags(opA, opB, result, c);
    }

    method Adds(rD: reg, rN: reg, rM: reg)
      requires Valid()
      modifies this`apsr, gpr
      ensures Arith() == M0Arith.Adds(old(Arith()), rD, rN, rM)
    {
      var opA, opB := gpr[rN], gpr[rM];
      gpr[rD] := Add32(opA, opB);
      DoFlags(opA, opB, gpr[rD], false);
    }

    method AddsImmediate(rD: reg, rN: reg, imm: word)
      requires Valid()
      modifies this`apsr, gpr
      ensures Arith() == Add(old(Arith()), rD, old(gpr[rN]), imm, false)
    {
      var opA := gpr[rN];
      gpr[rD] := Add32(opA, imm);
      DoFlags(opA, imm, gpr[rD], false);
    }

    method Subs(rD: reg, rN: reg, rM: reg)
      requires Valid()
      modifies this`apsr, gpr
      ensures Arith() == M0Arith.Subs(old(Arith()), rD, rN, rM)
    {
      var opA, opB := gpr[rN], Not32(gpr[rM]);
      SumWraps(opA, opB, true);
      gpr[rD] := Add32(Add32(opA, opB), 1);
      DoFlags(opA, opB, gpr[rD], true);
    }

    method SubsImmediate(rD: reg, rN: reg, imm: word)
      requires Valid()
      modifies this`apsr, gpr
      ensures Arith() == Add(old(Arith()), rD, old(gpr[rN]), Not32(imm), true)
    {
      var opA, opB := gpr[rN], Not32(imm);
      SumWraps(opA, opB, true);
      gpr[rD] := Add32(Add32(opA, opB), 1);
      DoFlags(opA, opB, gpr[rD], true);
    }

    method Sbcs(rD: reg, rM: reg)
      requires Valid()
      modifies this`apsr, gpr
      ensures Arith() == M0Arith.Sbcs(old(Arith()), rD, rM)
    {
      var opA, opB, c := gpr[rD], Not32(gpr[rM]), FlagsIn(apsr).c;
      SumWraps(opA, opB, c);
      gpr[rD] := Add32(Add32(opA, opB), BoolBit(c));
      DoFlags(opA, opB, gpr[rD], c);
    }

    method Rsbs(rD: reg, rN: reg)
      requires Valid()
      modifies this`apsr, gpr
      ensures Arith() == Add(old(Arith()), rD, 0, Not32(old(gpr[rN])), true)
    {
      var opB := Not32(gpr[rN]);
      gpr[rD] := Add32(opB, 1);
      DoFlags(0, opB, gpr[rD], true);
    }

    /** `cmp_r`; `cmp_i` differs only in where the second operand comes from. */
    method Cmp(rD: reg, y: word)
      requires Valid()
      modifies this`apsr
      ensures Arith() == M0Arith.Cmp(old(Arith()), gpr[rD], y)
    {
      var opA, opB := gpr[rD], Not32(y);
      SumWraps(opA, opB, true);
      DoFlags(opA, opB, Add32(Add32(opA, opB), 1), true);
    }

    /** `b_c` adds the signed offset to the PC if the condition holds. */
    method BranchConditional(cond: nat, offset: word)
      requires Valid() && cond < 14
      modifies this`takenBranch, gpr
      ensures gpr[..] == old(gpr[..])[PC := if Taken(cond, FlagsIn(apsr)) then Add32(offset, old(gpr[PC])) else old(gpr[PC])]
      ensures takenBranch == (old(takenBranch) || Taken(cond, FlagsIn(apsr)))
    {
      if Taken(cond, FlagsIn(apsr)) {
        gpr[PC] := Add32(offset, gpr[PC]);
        takenBranch := true;
      }
    }

    method BranchLink(imm: nat)
      requires Valid() && imm < 0x100_0000
      modifies this`takenBranch, gpr
      ensures gpr[..] == B.Bl(old(gpr[..]), imm) && takenBranch
    {
      B.BlOffset(imm);
      var result := Add32(B.SignExtend32(B.Double(imm), 25), gpr[PC]);
      gpr[LR] := gpr[PC];
      gpr[PC] := result;
      takenBranch := true;
    }

    /** The result is false where the source gives up, on an address without thumb bit. */
    method BranchLinkExchange(rM: reg) returns (ok: bool)
      requires Valid()
      modifies this`takenBranch, gpr
      ensures var r := B.Blx(old(gpr[..]), rM); ok == r.Jumped? && (ok ==> gpr[..] == r.gpr && takenBranch)
    {
      var address := gpr[rM];
      ok := address % 2 == 1;
      if ok {
        gpr[LR] := Sub32(gpr[PC], 2);
        gpr[PC] := address;
        takenBranch := true;
      }
    }

    /** As BLX without the link; an address with its four high bits set is for `exceptionReturn`, and 0
        stands for none. */
    method BranchExchange(rM: reg) returns (ok: bool, exceptionReturnAddress: word)
      requires Valid()
      modifies this`takenBranch, gpr
      ensures var r := B.Bx(old(gpr[..]), rM);
              && ok == !r.NotThumb? && (ok ==> takenBranch)
              && exceptionReturnAddress == (if r.Returning? then r.excReturn else 0)
              && gpr[..] == (if r.Jumped? then r.gpr else old(gpr[..]))
    {
      var address := gpr[rM];
      ok, exceptionReturnAddress := address % 2 == 1, 0;
      if ok {
        ExceptionReturnMask(address);
        if address / 0x1000_0000 == 0xF {
          exceptionReturnAddress := address;
        } else {
          gpr[PC] := address;
        }
        takenBranch := true;
      }
    }

    // -------------------------------------------------------------------------------------------
    // Several registers

    /** Stores register `i` at `address`, below the registers `done` stored so far. */
    method PushRegister(i: reg, address: nat, ghost mem0: seq<word>, ghost done: seq<reg>, ghost at: nat)
      requires Valid() && address == 4 * (at - 1) && |mem0| == mem.Length && at + |done| <= mem.Length
      requires mem[..] == StoreWords(mem0, at, Values(gpr[..], done))
      modifies mem
      ensures mem[..] == StoreWords(mem0, at - 1, Values(gpr[..], [i] + done))
    {
      StoreBelow(mem0, at, Values(gpr[..], done), gpr[i]);
      ValuesCons(gpr[..], i, done);
      mem[address / 4] := gpr[i];
    }

    /** The registers `done` are stored below word `top`, from `address` on. */
    ghost predicate StoredBelow(top: nat, address: nat, mem0: seq<word>, done: seq<reg>)
      reads this, gpr, mem
    {
      && Valid() && |mem0| == mem.Length && |done| <= top <= mem.Length
      && address == 4 * (top - |done|)
      && mem[..] == StoreWords(mem0, top - |done|, Values(gpr[..], done))
    }

    /** One pass of the loop of PUSH */
    method PushPass(list: nat, i: reg, address: nat, ghost top: nat, ghost mem0: seq<word>, ghost done: seq<reg>)
      returns (address': nat)
      requires StoredBelow(top, address, mem0, done) && (Bit(list, i) ==> |done| < top)
      modifies mem
      ensures StoredBelow(top, address', mem0, Cons(Bit(list, i), i, done))
    {
      address' := address;
      if Bit(list, i) {
        address' := address - 4;
        PushRegister(i, address', mem0, done, top - |done|);
      }
    }

    /** The loop of PUSH: LR first, then R7 down to R0 */
    method PushRegisters(list: nat, ghost insn: listbits) returns (address: nat)
      requires forall i | 0 <= i < 16 :: Bit(list, i) == DecodedBit(insn, LR, i)
      requires Valid() && PushFits(State(gpr[..], mem[..]), insn)
      modifies mem
      ensures StoredBelow(gpr[SP] / 4, address, old(mem[..]), PushRegs(insn))
    {
      ghost var top := gpr[SP] / 4;
      StoreNone(mem[..], top, gpr[..]);
      address := gpr[SP];
      var i: int := 14;
      while i >= 0
        invariant i == 14 || -1 <= i < 8
        invariant StoredBelow(top, address, old(mem[..]), Pushed(insn, i))
        decreases i
      {
        PushedStep(insn, i);
        address := PushPass(list, i, address, top, old(mem[..]), Pushed(insn, i));
        i := if i == 14 then 7 else i - 1;
      }
    }

    method Push(list: nat, ghost insn: listbits)
      requires forall i | 0 <= i < 16 :: Bit(list, i) == DecodedBit(insn, LR, i)
      requires Valid() && PushFits(State(gpr[..], mem[..]), insn)
      modifies gpr, mem
      ensures State(gpr[..], mem[..]) == M0Stack.Push(old(State(gpr[..], mem[..])), insn)
    {
      var address := PushRegisters(list, insn);
      PushIs(old(State(gpr[..], mem[..])), insn, address);
      gpr[SP] := address;
    }

    /** What one pass of the loops of POP and LDM does for register `i`: load it from `address` if it
        is in the list. It is then the `n`-th of the registers `regs` to be loaded with `values`. */
    method LoadRegister(list: nat, i: reg, address: nat, ghost gpr0: seq<word>,
                        ghost regs: seq<reg>, ghost values: seq<word>, ghost n: nat)
      returns (address': nat)
      requires Valid() && |gpr0| == 16 && n <= |regs| == |values|
      requires Bit(list, i) ==> n < |regs| && regs[n] == i && address / 4 < mem.Length && mem[address / 4] == values[n]
      requires gpr[..] == SetFirst(gpr0, regs, values, n)
      modifies gpr
      ensures address' == address + (if Bit(list, i) then 4 else 0)
      ensures gpr[..] == SetFirst(gpr0, regs, values, if Bit(list, i) then n + 1 else n)
    {
      TestBit(list, i);
      address' := address;
      if And(list, Pow2(i)) != 0 {
        gpr[i] := mem[address / 4];
        address' := address + 4;
      }
    }

    /** The loop of POP: R0 up to R7, then PC */
    method PopRegisters(list: nat, ghost insn: listbits, ghost values: seq<word>) returns (address: nat)
      requires forall i | 0 <= i < 16 :: Bit(list, i) == DecodedBit(insn, PC, i)
      requires Valid() && |values| == |PopRegs(insn)| && gpr[SP] % 4 == 0 && gpr[SP] / 4 + |values| <= mem.Length
      requires forall k | 0 <= k < |values| :: mem[gpr[SP] / 4 + k] == values[k]
      modifies gpr, this`takenBranch
      ensures gpr[..] == SetRegs(old(gpr[..]), PopRegs(insn), values)
      ensures address == old(gpr[SP]) + 4 * |values|
      ensures takenBranch == (old(takenBranch) || insn >= 0x100)
    {
      ghost var regs := PopRegs(insn);
      address := gpr[SP];
      var i: nat, numLoaded: nat := 0, 0;
      while i < 16
        invariant 0 <= i < 8 || i == 15 || i == 16
        invariant numLoaded == |Popped(insn, i)| && Popped(insn, i) <= regs && address == old(gpr[SP]) + 4 * numLoaded
        invariant gpr[..] == SetFirst(old(gpr[..]), regs, values, numLoaded)
        invariant takenBranch == (old(takenBranch) || (i == 16 && insn >= 0x100))
        decreases 16 - i
      {
        PoppedStep(insn, i);
        address := LoadRegister(list, i, address, old(gpr[..]), regs, values, numLoaded);
        if Bit(list, i) {
          numLoaded := numLoaded + 1;
          takenBranch := takenBranch || i == 15;
        }
        i := if i == 7 then 15 else i + 1;
      }
    }

    /** The result is the EXC_RETURN value for `exceptionReturn`, 0 if there is none. */
    method Pop(list: nat, ghost insn: listbits) returns (exceptionReturnAddress: word)
      requires forall i | 0 <= i < 16 :: Bit(list, i) == DecodedBit(insn, PC, i)
      requires Valid() && PopFits(State(gpr[..], mem[..]), insn)
      modifies gpr, this`takenBranch
      ensures var o := M0Stack.Pop(old(State(gpr[..], mem[..])), insn);
              && State(gpr[..], mem[..]) == o.s
              && exceptionReturnAddress == (if o.ExceptionReturn? then o.excReturn else 0)
      ensures takenBranch == (old(takenBranch) || insn >= 0x100)
    {
      var address := PopRegisters(list, insn, mem[gpr[SP] / 4..gpr[SP] / 4 + |PopRegs(insn)|]);
      gpr[SP] := address;
      exceptionReturnAddress := if Bit(list, PC) && IsExceptionReturn(gpr[PC]) then gpr[PC] else 0;
    }

    /** The loop of LDM */
    method LdmRegisters(list: lowlist, rN: nat, ghost values: seq<word>) returns (address: nat)
      requires Valid() && rN < 8 && |values| == |Listed(list, 0, 8)|
      requires gpr[rN] % 4 == 0 && gpr[rN] / 4 + |values| <= mem.Length
      requires forall k | 0 <= k < |values| :: mem[gpr[rN] / 4 + k] == values[k]
      modifies gpr
      ensures gpr[..] == SetRegs(old(gpr[..]), Listed(list, 0, 8), values)
      ensures address == old(gpr[rN]) + 4 * |values|
    {
      ghost var regs := Listed(list, 0, 8);
      address := gpr[rN];
      var i: nat, numLoaded: nat := 0, 0;
      while i < 8
        invariant 0 <= i <= 8
        invariant numLoaded == |Listed(list, 0, i)| && Listed(list, 0, i) <= regs
        invariant address == old(gpr[rN]) + 4 * numLoaded
        invariant gpr[..] == SetFirst(old(gpr[..]), regs, values, numLoaded)
      {
        ListedNext(list, i);
        address := LoadRegister(list, i, address, old(gpr[..]), regs, values, numLoaded);
        if Bit(list, i) {
          numLoaded := numLoaded + 1;
        }
        i := i + 1;
      }
    }

    method Ldm(list: lowlist, rN: nat)
      requires Valid() && rN < 8 && BlockFits(State(gpr[..], mem[..]), list, rN)
      modifies gpr
      ensures State(gpr[..], mem[..]) == M0Stack.Ldm(old(State(gpr[..], mem[..])), list, rN)
    {
      var address := LdmRegisters(list, rN, mem[gpr[rN] / 4..gpr[rN] / 4 + |Listed(list, 0, 8)|]);
      if !Bit(list, rN) {
        gpr[rN] := address;
      }
    }

    method StoreRegister(i: reg, address: nat, ghost mem0: seq<word>, ghost done: seq<reg>, ghost at: nat)
      requires Valid() && address == 4 * at + 4 * |done|
      requires |mem0| == mem.Length && at + |done| < mem.Length
      requires mem[..] == StoreWords(mem0, at, Values(gpr[..], done))
      modifies mem
      ensures mem[..] == StoreWords(mem0, at, Values(gpr[..], done + [i]))
    {
      StoreNext(mem0, at, Values(gpr[..], done), gpr[i]);
      ValuesSnoc(gpr[..], done, i);
      mem[address / 4] := gpr[i];
    }

    /** Gives up, before storing anything, if the base is the lowest register of the list. */
    method Stm(list: lowlist, rN: nat) returns (ok: bool)
      requires Valid() && rN < 8 && BlockFits(State(gpr[..], mem[..]), list, rN)
      modifies gpr, mem
      ensures var r := M0Stack.Stm(old(State(gpr[..], mem[..])), list, rN);
              ok == r.Some? && State(gpr[..], mem[..]) == if ok then r.value else old(State(gpr[..], mem[..]))
    {
      ghost var done: seq<reg>, all := [], Listed(list, 0, 8);
      StoreNone(mem[..], gpr[rN] / 4, gpr[..]);
      var numStored: nat, address: nat, i: nat := 0, gpr[rN], 0;
      ghost var at := gpr[rN] / 4;
      while i < 8
        invariant 0 <= i <= 8 && done == Listed(list, 0, i)
        invariant gpr[..] == old(gpr[..])
        invariant numStored == |done| && done <= all && address == 4 * at + 4 * numStored
        invariant mem[..] == StoreWords(old(mem[..]), at, Values(gpr[..], done))
        invariant done != [] ==> done[0] != rN
      {
        ListedNext(list, i);
        if Bit(list, i) {
          if i == rN && numStored == 0 {
            assert done == [];
            StmLowest(list, i);
            StoreNone(old(mem[..]), at, gpr[..]);
            assert mem[..] == old(mem[..]);
            return false;
          }
          StoreRegister(i, address, old(mem[..]), done, at);
          address := address + 4;
          numStored := numStored + 1;
        }
        done := Snoc(done, Bit(list, i), i);
        i := i + 1;
      }
      gpr[rN] := address;
      ok := true;
    }

    // -------------------------------------------------------------------------------------------
    // Exceptions

    method StackedPsr(frameAlign: bool) returns (w: word)
      ensures w == X.StackedPsr(apsr, frameAlign)
    {
      X.StackedPsrMask(apsr, frameAlign);
      w := Or(Or(And(apsr, 0xFFFF_FC00), BoolBit(frameAlign) * 0x200), And(apsr, 0x1FF));
    }

    method FramePointer() returns (frameAlign: bool, framePtr: word)
      requires Valid() && X.FrameFits(View())
      ensures frameAlign == X.Moved(gpr[SP]) && framePtr == X.FramePtr(gpr[SP])
    {
      X.MovedMask(gpr[SP]);
      X.FramePtrMask(gpr[SP]);
      frameAlign := And(gpr[SP], 4) != 0;
      framePtr := And(gpr[SP] - 0x20, Not32(4));
    }

    method OnProcessStack() returns (b: bool)
      ensures b == X.OnProcessStack(control)
    {
      X.StackMask(control);
      b := And(control, 2) != 0;
    }

    method StackUseMain()
      modifies this`control
      ensures control == X.UseMain(old(control))
    {
      X.StackMask(control);
      control := And(control, Not32(2));
    }

    method StackUseProcess()
      modifies this`control
      ensures control == X.UseProcess(old(control))
    {
      X.StackMask(control);
      control := Or(control, 2);
    }

    method SetIpsr(id: nat)
      modifies this`ipsr
      ensures ipsr == id % 0x40
    {
      IpsrMask(id);
      ipsr := And(id, 0x3F);
    }

    method StackFrame(fp: word, nextPc: word, frameAlign: bool)
      requires Valid() && fp % 4 == 0 && fp / 4 + 8 <= mem.Length
      modifies mem
      ensures mem[..] == StoreWords(old(mem[..]), fp / 4,
                                    [gpr[0], gpr[1], gpr[2], gpr[3], gpr[12], gpr[LR], nextPc, X.StackedPsr(apsr, frameAlign)])
    {
      var psr := StackedPsr(frameAlign);
      var at := fp / 4;
      mem[at] := gpr[0];
      mem[at + 1] := gpr[1];
      mem[at + 2] := gpr[2];
      mem[at + 3] := gpr[3];
      mem[at + 4] := gpr[12];
      mem[at + 5] := gpr[LR];
      mem[at + 6] := nextPc;
      mem[at + 7] := psr;
    }

    /** `nextPc` comes from the pipeline and `handler` from the vector table. */
    method ExceptionEnter(id: nat, nextPc: word, handler: word)
      requires Valid() && X.FrameFits(View())
      modifies this`ipsr, this`control, this`mode, gpr, mem
      ensures View() == X.Enter(old(View()), id, nextPc, handler)
    {
      var process := OnProcessStack();
      var frameAlign, framePtr := FramePointer();
      StackFrame(framePtr, nextPc, frameAlign);
      gpr[SP] := framePtr;
      if mode == X.HANDLER {
        gpr[LR] := X.RETURN_HANDLER;
      } else if !process {
        gpr[LR] := X.RETURN_MAIN;
      } else {
        gpr[LR] := X.RETURN_PROCESS;
      }
      mode := X.HANDLER;
      SetIpsr(id);
      StackUseMain();
      gpr[PC] := handler;
    }

    method UnstackRegisters(fp: word)
      requires Valid() && fp % 4 == 0 && fp / 4 + 8 <= mem.Length
      modifies gpr
      ensures gpr[..] == X.Unstacked(old(gpr[..]), mem[..], fp / 4)
    {
      var at := fp / 4;
      gpr[0] := mem[at];
      gpr[1] := mem[at + 1];
      gpr[2] := mem[at + 2];
      gpr[3] := mem[at + 3];
      gpr[12] := mem[at + 4];
      gpr[LR] := mem[at + 5];
      gpr[PC] := mem[at + 6];
    }

    /** Mode and stack selection by EXC_RETURN; any other value is fatal. */
    method SelectMode(excReturn: word) returns (ok: bool)
      modifies this`control, this`mode
      ensures ok == X.ReturnOk(excReturn)
      ensures ok ==> mode == if excReturn == X.RETURN_HANDLER then X.HANDLER else X.THREAD
      ensures ok ==> control == if excReturn == X.RETURN_PROCESS then X.UseProcess(old(control)) else X.UseMain(old(control))
    {
      ok := true;
      if excReturn == X.RETURN_HANDLER {
        mode := X.HANDLER;
        StackUseMain();
      } else if excReturn == X.RETURN_MAIN {
        mode := X.THREAD;
        StackUseMain();
      } else if excReturn == X.RETURN_PROCESS {
        mode := X.THREAD;
        StackUseProcess();
      } else {
        ok := false;
      }
    }

    method UnstackPsr(framePtr: word, stored: word)
      requires Valid() && framePtr % 8 == 0 && framePtr + 0x20 < TWO32
      modifies this`apsr, gpr
      ensures gpr[..] == old(gpr[..])[SP := X.UnstackedSp(framePtr, X.WasMoved(stored))]
      ensures apsr == X.UnstackedApsr(stored)
    {
      X.WasMovedMask(stored);
      X.UnstackedSpMask(framePtr);
      X.UnstackedApsrMask(stored);
      gpr[SP] := if And(stored, 0x200) != 0 then Or(framePtr + 0x20, 4) else framePtr + 0x20;
      apsr := And(stored, 0xF000_0000);
    }

    method Unstack()
      requires Valid() && X.UnstackFits(View())
      modifies this`apsr, gpr
      ensures gpr[..] == X.Restored(old(View()))
      ensures apsr == X.UnstackedApsr(mem[old(gpr[SP]) / 4 + 7])
    {
      var framePtr := gpr[SP];
      var stored := mem[framePtr / 4 + 7];
      assert stored == mem[..][framePtr / 4 + 7];
      UnstackRegisters(framePtr);
      UnstackPsr(framePtr, stored);
    }

    method ExceptionReturn(excReturn: word) returns (ok: bool)
      requires Valid() && X.UnstackFits(View())
      modifies this`apsr, this`ipsr, this`control, this`mode, this`takenBranch, gpr
      ensures ok == X.ReturnOk(excReturn)
      ensures ok ==> View() == X.Return(old(View()), excReturn) && takenBranch
    {
      ok := SelectMode(excReturn);
      if ok {
        Unstack();
        ipsr := 0;
        takenBranch := true;
      }
    }

    /** POP with the exception return it may ask for. The result is false where the simulation ends. */
    method PopAndReturn(list: nat, ghost insn: listbits) returns (ok: bool)
      requires forall i | 0 <= i < 16 :: Bit(list, i) == DecodedBit(insn, PC, i)
      requires Valid() && PopFits(State(gpr[..], mem[..]), insn)
      modifies this`apsr, this`ipsr, this`control, this`mode, this`takenBranch, gpr
      ensures var r := X.PopCore(old(View()), insn); ok == r.Continues? && (ok ==> View() == r.core)
    {
      var excReturn := Pop(list, insn);
      ok := true;
      if excReturn != 0 {
        ok := gpr[SP] % 8 == 0 && gpr[SP] + 0x20 < TWO32 && gpr[SP] / 4 + 8 <= mem.Length;
        if ok {
          ok := ExceptionReturn(excReturn);
        }
      }
    }
  }

  lemma IpsrMask(id: nat)
    ensures And(id, 0x3F) == id % 0x40
  {
    var k := 6;
    assert Pow2(k) == 0x40;
    AndMask(id, k);
    ShrLowAreDivMod(id, k);
  }

  ghost function Cons(present: bool, i: reg, done: seq<reg>): (r: seq<reg>)
    ensures |r| == |done| + BoolBit(present)
  {
    if present then [i] + done else done
  }

  function Snoc(done: seq<reg>, present: bool, i: reg): (r: seq<reg>)
    ensures |r| == |done| + BoolBit(present)
  {
    if present then done + [i] else done
  }

  /** Adding the carry after wrapping is adding it before. */
  lemma SumWraps(a: word, b: word, c: bool)
    ensures Add32(Add32(a, b), BoolBit(c)) == AddWithCarry(a, b, c).result
  {
  }

  // ---------------------------------------------------------------------------------------------
  // Register lists, while a loop goes through them

  lemma {:induction false} ListedPrefix(list: nat, lo: nat, mid: nat, hi: nat)
    requires lo <= mid <= hi <= 16
    ensures Listed(list, lo, mid) <= Listed(list, lo, hi)
    decreases hi
  {
    if mid < hi {
      ListedPrefix(list, lo, mid, hi - 1);
    }
  }

  lemma {:induction false} ListedSuffix(list: nat, lo: nat, mid: nat, hi: nat)
    requires lo <= mid <= hi <= 16
    ensures |Listed(list, mid, hi)| <= |Listed(list, lo, hi)|
    decreases hi
  {
    if mid < hi {
      ListedSuffix(list, lo, mid, hi - 1);
    } else {
      assert Listed(list, mid, hi) == [];
    }
  }

  /** What PUSH has stored when it comes to register `i` */
  ghost function Pushed(insn: listbits, i: int): seq<reg>
    requires i == 14 || -1 <= i < 8
  {
    if i == 14 then [] else Listed(insn, i + 1, 8) + (if insn >= 0x100 then [LR] else [])
  }

  lemma PushedStep(insn: listbits, i: nat)
    requires i == 14 || i < 8
    ensures var next := if i == 14 then 7 else i - 1;
            && Pushed(insn, next) == Cons(DecodedBit(insn, LR, i), i, Pushed(insn, i))
            && |Pushed(insn, next)| <= |PushRegs(insn)|
  {
    if i == 14 {
      assert Listed(insn, 8, 8) == [];
    } else {
      ListedFromBelow(insn, i, 8);
      ListedSuffix(insn, 0, i, 8);
    }
  }

  /** What POP has loaded when it comes to register `i` */
  ghost function Popped(insn: listbits, i: nat): seq<reg>
    requires i < 8 || i == 15 || i == 16
  {
    if i < 8 then Listed(insn, 0, i) else if i == 15 then Listed(insn, 0, 8) else PopRegs(insn)
  }

  lemma PoppedStep(insn: listbits, i: nat)
    requires i < 8 || i == 15
    ensures var next := if i == 7 then 15 else i + 1;
            && Popped(insn, next) == Snoc(Popped(insn, i), DecodedBit(insn, PC, i), i)
            && Popped(insn, next) <= PopRegs(insn)
  {
    if i < 8 {
      ListedPrefix(insn, 0, i + 1, 8);
    }
  }

  lemma ListedNext(list: nat, i: nat)
    requires i < 8
    ensures Listed(list, 0, i + 1) == Snoc(Listed(list, 0, i), Bit(list, i), i)
    ensures Listed(list, 0, i + 1) <= Listed(list, 0, 8)
  {
    ListedPrefix(list, 0, i + 1, 8);
  }

  /** The first register found is the lowest of the list. */
  lemma StmLowest(list: lowlist, i: nat)
    requires i < 8 && Bit(list, i) && Listed(list, 0, i) == []
    ensures StmMalformed(list, i)
  {
    ListedNext(list, i);
  }

  lemma StoreNone(mem: seq<word>, at: nat, gpr: seq<word>)
    requires at <= |mem| && |gpr| == 16
    ensures StoreWords(mem, at, Values(gpr, [])) == mem
  {
  }

  lemma PushIs(s: State, insn: listbits, address: nat)
    requires |s.gpr| == 16 && PushFits(s, insn) && address == s.gpr[SP] - 4 * |PushRegs(insn)|
    ensures address < TWO32
    ensures M0Stack.Push(s, insn) ==
            State(s.gpr[SP := address], StoreWords(s.mem, s.gpr[SP] / 4 - |PushRegs(insn)|, Values(s.gpr, PushRegs(insn))))
  {
  }

  lemma StoreBelow(mem: seq<word>, at: nat, ws: seq<word>, w: word)
    requires 1 <= at && at + |ws| <= |mem|
    ensures StoreWords(mem, at, ws)[at - 1 := w] == StoreWords(mem, at - 1, [w] + ws)
  {
  }

  lemma StoreNext(mem: seq<word>, at: nat, ws: seq<word>, w: word)
    requires at + |ws| < |mem|
    ensures StoreWords(mem, at, ws)[at + |ws| := w] == StoreWords(mem, at, ws + [w])
  {
  }

  lemma ValuesCons(gpr: seq<word>, r: reg, regs: seq<reg>)
    requires |gpr| == 16
    ensures Values(gpr, [r] + regs) == [gpr[r]] + Values(gpr, regs)
  {
  }

  lemma ValuesSnoc(gpr: seq<word>, regs: seq<reg>, r: reg)
    requires |gpr| == 16
    ensures Values(gpr, regs + [r]) == Values(gpr, regs) + [gpr[r]]
  {
  }
}

/** The MSP430 CPU as the object of the simulator, updated in place, against the functions of module
    Msp430. */
module Msp430Device {
  import opened Bits
  import opened SingleBits
  import opened Msp430
  import opened Options

  const C_BIT: word := 0x001
  const Z_BIT: word := 0x002
  const N_BIT: word := 0x004
  const V_BIT: word := 0x100

  /** The flags in the status register */
  function FlagsIn(sr: half): Flags {
    Flags(sr % 2 == 1, sr / Z_BIT % 2 == 1, sr / N_BIT % 2 == 1, sr / V_BIT % 2 == 1)
  }

  /** The status register from its flags, the five bits below V and those above */
  function Joined(f: Flags, mid: nat, high: nat): nat {
    high * 0x200 + BoolBit(f.v) * V_BIT + mid * 8 + BoolBit(f.n) * N_BIT + BoolBit(f.z) * Z_BIT + BoolBit(f.c)
  }

  lemma Split(sr: half)
    ensures sr == Joined(FlagsIn(sr), sr / 8 % 0x20, sr / 0x200)
  {
    assert sr / V_BIT == 2 * (sr / 0x200) + sr / V_BIT % 2;
    assert sr / 8 == 0x20 * (sr / V_BIT) + sr / 8 % 0x20;
    assert sr / N_BIT == 2 * (sr / 8) + sr / N_BIT % 2;
    assert sr / Z_BIT == 2 * (sr / N_BIT) + sr / Z_BIT % 2;
  }

  lemma Halves(x: nat, q: nat, r: nat)
    requires x == 2 * q + r && r < 2
    ensures x / 2 == q && x % 2 == r
  {
  }

  lemma JoinedFlags(f: Flags, mid: nat, high: nat)
    requires mid < 0x20 && high < 0x80
    ensures Joined(f, mid, high) < 0x1_0000
    ensures FlagsIn(Joined(f, mid, high)) == f
    ensures Joined(f, mid, high) / 8 % 0x20 == mid && Joined(f, mid, high) / 0x200 == high
  {
    var j := Joined(f, mid, high);
    var j4 := 2 * high + BoolBit(f.v);
    var j3 := 0x20 * j4 + mid;
    var j2 := 2 * j3 + BoolBit(f.n);
    var j1 := 2 * j2 + BoolBit(f.z);
    assert j == 2 * j1 + BoolBit(f.c);
    Halves(j, j1, BoolBit(f.c));
    Halves(j1, j2, BoolBit(f.z));
    Halves(j2, j3, BoolBit(f.n));
    DivModUnique(j3, 0x20, j4, mid);
    Halves(j4, high, BoolBit(f.v));
    assert j / N_BIT == j2 && j / 8 == j3;
    assert j / V_BIT == j4 && j / 0x200 == high;
  }

  /** The bits of the status register that are no flags */
  function OtherBits(sr: half): (nat, nat) {
    (sr / 8 % 0x20, sr / 0x200)
  }

  lemma WithC(sr: half, x: bool)
    ensures var r := WithBit(sr, C_BIT, x);
            0 <= r < 0x1_0000 && FlagsIn(r) == FlagsIn(sr).(c := x) && OtherBits(r) == OtherBits(sr)
  {
    Split(sr);
    JoinedFlags(FlagsIn(sr).(c := x), sr / 8 % 0x20, sr / 0x200);
  }

  lemma WithZ(sr: half, x: bool)
    ensures var r := WithBit(sr, Z_BIT, x);
            0 <= r < 0x1_0000 && FlagsIn(r) == FlagsIn(sr).(z := x) && OtherBits(r) == OtherBits(sr)
  {
    Split(sr);
    JoinedFlags(FlagsIn(sr).(z := x), sr / 8 % 0x20, sr / 0x200);
  }

  lemma WithN(sr: half, x: bool)
    ensures var r := WithBit(sr, N_BIT, x);
            0 <= r < 0x1_0000 && FlagsIn(r) == FlagsIn(sr).(n := x) && OtherBits(r) == OtherBits(sr)
  {
    Split(sr);
    JoinedFlags(FlagsIn(sr).(n := x), sr / 8 % 0x20, sr / 0x200);
  }

  lemma WithV(sr: half, x: bool)
    ensures var r := WithBit(sr, V_BIT, x);
            0 <= r < 0x1_0000 && FlagsIn(r) == FlagsIn(sr).(v := x) && OtherBits(r) == OtherBits(sr)
  {
    Split(sr);
    JoinedFlags(FlagsIn(sr).(v := x), sr / 8 % 0x20, sr / 0x200);
  }

  const PC := 0
  const SP := 1
  const SR := 2

  class CpuUnit {
    const regs: array<word>
    const mem: array<half>

    ghost predicate Valid()
      reads this, regs, mem
    {
      && regs.Length == 16 && mem.Length == 0x8000
      && regs[SP] < 0x1_0000 && regs[SR] < 0x1_0000
    }

    ghost function View(): Cpu
      requires Valid()
      reads this, regs, mem
    {
      Cpu(regs[PC], regs[SP], regs[SR], regs[3..], mem[..])
    }

    // -------------------------------------------------------------------------------------------
    // Flags

    method SetFlag(k: nat, p: word, x: bool)
      requires Valid() && k < 32 && p == Pow2(k) && 0 <= WithBit(regs[SR], p, x) < 0x1_0000
      modifies regs
      ensures Valid() && View() == old(View()).(sr := regs[SR]) && regs[SR] == WithBit(old(regs[SR]), p, x)
    {
      SetFlagMask(regs[SR], k, p, x);
      regs[SR] := Or(if x then p else 0, And(regs[SR], Not32(p)));
    }

    method SetCarryFlag(x: bool)
      requires Valid()
      modifies regs
      ensures Valid() && View() == old(View()).(sr := regs[SR])
      ensures FlagsIn(regs[SR]) == FlagsIn(old(regs[SR])).(c := x)
      ensures OtherBits(regs[SR]) == OtherBits(old(regs[SR]))
    {
      FlagBits();
      WithC(regs[SR], x);
      SetFlag(0, C_BIT, x);
    }

    method SetZeroFlag(x: bool)
      requires Valid()
      modifies regs
      ensures Valid() && View() == old(View()).(sr := regs[SR])
      ensures FlagsIn(regs[SR]) == FlagsIn(old(regs[SR])).(z := x)
      ensures OtherBits(regs[SR]) == OtherBits(old(regs[SR]))
    {
      FlagBits();
      WithZ(regs[SR], x);
      SetFlag(1, Z_BIT, x);
    }

    method SetNegativeFlag(x: bool)
      requires Valid()
      modifies regs
      ensures Valid() && View() == old(View()).(sr := regs[SR])
      ensures FlagsIn(regs[SR]) == FlagsIn(old(regs[SR])).(n := x)
      ensures OtherBits(regs[SR]) == OtherBits(old(regs[SR]))
    {
      FlagBits();
      WithN(regs[SR], x);
      SetFlag(2, N_BIT, x);
    }

    method SetOverflowFlag(x: bool)
      requires Valid()
      modifies regs
      ensures Valid() && View() == old(View()).(sr := regs[SR])
      ensures FlagsIn(regs[SR]) == FlagsIn(old(regs[SR])).(v := x)
      ensures OtherBits(regs[SR]) == OtherBits(old(regs[SR]))
    {
      FlagBits();
      WithV(regs[SR], x);
      SetFlag(8, V_BIT, x);
    }

    /** The flag updates of ADD, ADDC, SUB, SUBC and CMP, on the operands of a sum */
    method SetSumFlags(a: word, b: word, c: bool, isByte: bool)
      requires Valid()
      modifies regs
      ensures Valid() && View() == old(View()).(sr := regs[SR])
      ensures FlagsIn(regs[SR]) == SumFlags(a, b, c, isByte) && OtherBits(regs[SR]) == old(OtherBits(regs[SR]))
    {
      var result := (a + b + BoolBit(c)) % TWO32;
      SetZeroFlag(IsZero(result, isByte));
      SetNegativeFlag(IsNegative(result, isByte));
      SetOverflowFlag(IsOverflow(a, b, c, isByte));
      SetCarryFlag(IsCarry(a, b, c, isByte));
    }

    method Compare(src: word, dst: word, isByte: bool)
      requires Valid()
      modifies regs
      ensures Valid() && View() == old(View()).(sr := regs[SR])
      ensures FlagsIn(regs[SR]) == CmpFlags(src, dst, isByte) && OtherBits(regs[SR]) == old(OtherBits(regs[SR]))
    {
      SetSumFlags(dst, Not32(src), true, isByte);
    }

    method DecodeJump(opcode: half) returns (jumpOffset: int, condition: nat)
      ensures jumpOffset == JumpOffset(opcode) && condition == opcode / 0x400 % 8
    {
      OffsetField(opcode);
      ConditionField(opcode);
      jumpOffset := And(opcode, 0x3FF);
      if And(jumpOffset, 0x200) != 0 {
        jumpOffset := jumpOffset - 0x3FF - 1;
      }
      jumpOffset := jumpOffset * 2;
      condition := Shr(And(opcode, 0x1C00), 10);
    }

    /** The result is false where the assertion of `setPc` fails. */
    method ConditionalJump(opcode: half) returns (ok: bool)
      requires Valid()
      modifies regs
      ensures Valid()
      ensures var s, jumps := old(View()), Jumps(opcode / 0x400 % 8, FlagsIn(old(regs[SR])));
              && ok == (jumps ==> s.pc % 2 == 0)
              && View() == if jumps && ok then s.(pc := (s.pc + JumpOffset(opcode)) % TWO32) else s
    {
      var jumpOffset, condition := DecodeJump(opcode);
      ok := true;
      if Jumps(condition, FlagsIn(regs[SR])) {
        ok := SetPc((regs[PC] + jumpOffset) % TWO32);
      }
    }

    // -------------------------------------------------------------------------------------------
    // Context

    method PushWord(v: half)
      requires Valid() && regs[SP] >= 2
      modifies regs, mem
      ensures Valid() && View() == Push(old(View()), v)
    {
      regs[SP] := regs[SP] - 2;
      mem[regs[SP] / 2] := v;
    }

    /** The assertion of `setPc` */
    method SetPc(pc: word) returns (ok: bool)
      requires Valid()
      modifies regs
      ensures Valid()
      ensures var r := LoadPc(old(View()), pc); ok == r.Some? && View() == if ok then r.value else old(View())
    {
      ok := pc % 2 == 0;
      if ok {
        regs[PC] := pc;
      }
    }

    /** The results of CALL, RET and RETI are false where the assertion fails. */
    method Call(target: word) returns (ok: bool)
      requires Valid() && regs[SP] >= 2
      modifies regs, mem
      ensures Valid()
      ensures var r := Msp430.Call(old(View()), target); ok == r.Some? && (ok ==> View() == r.value)
    {
      PushWord(regs[PC] % 0x1_0000);
      ok := SetPc(target);
    }

    method Ret() returns (ok: bool)
      requires Valid() && regs[SP] <= 0xFFFD
      modifies regs
      ensures Valid()
      ensures var r := Msp430.Ret(old(View())); ok == r.Some? && (ok ==> View() == r.value)
    {
      var address := regs[SP];
      regs[SP] := regs[SP] + 2;
      ok := SetPc(mem[address / 2]);
    }

    method Reti() returns (ok: bool)
      requires Valid() && regs[SP] <= 0xFFFB
      modifies regs
      ensures Valid()
      ensures var r := Msp430.Reti(old(View())); ok == r.Some? && (ok ==> View() == r.value)
    {
      regs[SR] := mem[regs[SP] / 2];
      regs[SP] := regs[SP] + 2;
      ok := SetPc(mem[regs[SP] / 2]);
      if ok {
        regs[SP] := regs[SP] + 2;
      }
    }

    method EnterAt(address: half) returns (ok: bool)
      requires Valid()
      modifies regs
      ensures Valid()
      ensures var s := old(View());
              var r := LoadPc(s.(sr := EntrySr(s.sr)), Read16(s, address));
              ok == r.Some? && (ok ==> View() == r.value)
    {
      EntrySrMask(regs[SR]);
      regs[SR] := And(regs[SR], 0x40);
      ok := SetPc(mem[address / 2]);
    }

    /** The result is false where the source leaves the address space or its assertion fails. */
    method ProcessInterrupt(idx: nat) returns (ok: bool)
      requires Valid()
      modifies regs, mem
      ensures Valid()
      ensures var r := Interrupt(old(View()), idx); ok == r.Some? && (ok ==> View() == r.value)
    {
      if idx == 0 {
        ok := EnterAt(RESET_VECTOR);
      } else if regs[SR] / GIE % 2 == 1 || idx < 3 {
        ok := regs[SP] >= 4 && 2 * idx <= RESET_VECTOR;
        if ok {
          PushWord(regs[PC] % 0x1_0000);
          PushWord(regs[SR]);
          ok := EnterAt(RESET_VECTOR - 2 * idx);
        }
      } else {
        ok := true;
      }
    }
  }

  /** The fields of a jump instruction by masks and shifts */
  lemma OffsetField(opcode: half)
    ensures And(opcode, 0x3FF) == opcode % 0x400
    ensures And(opcode % 0x400, 0x200) != 0 <==> opcode % 0x400 >= 0x200
  {
    var ten, nine := 10, 9;
    Pow2Constants();
    AndMask(opcode, ten);
    ShrLowAreDivMod(opcode, ten);
    BitOperations(opcode % 0x400, nine, 0x200);
  }

  lemma ConditionField(opcode: half)
    ensures Shr(And(opcode, 0x1C00), 10) == opcode / 0x400 % 8
  {
    var ten, three := 10, 3;
    Pow2Constants();
    assert Shl(7, ten) == 0x1C00 by { ShlIsProduct(7, ten); }
    assert Shr(And(opcode, 0x1C00), ten) == Low(Shr(opcode, ten), three) by { AndField(opcode, ten, three); }
    ShrLowAreDivMod(opcode, ten);
    ShrLowAreDivMod(Shr(opcode, ten), three);
  }

  lemma FlagBits()
    ensures Pow2(0) == C_BIT && Pow2(1) == Z_BIT && Pow2(2) == N_BIT && Pow2(8) == V_BIT
  {
    Pow2Constants();
  }
}

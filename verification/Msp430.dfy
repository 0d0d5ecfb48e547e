/** The MSP430 CPU: the flags of additions and comparisons on bytes and words, conditional jumps, and
    the saving and restoring of context by interrupts and calls. */
module Msp430 {
  import opened Bits
  import opened SingleBits
  import opened Options

  // ---------------------------------------------------------------------------------------------
  // Flags

  datatype Flags = Flags(c: bool, z: bool, n: bool, v: bool)

  /** Number of values of an operand: the low byte or the low word of what is in a register */
  function Values(isByte: bool): nat {
    if isByte then 0x100 else 0x1_0000
  }

  function Signed(x: nat, isByte: bool): int {
    var w := Values(isByte);
    if x % w >= w / 2 then x % w - w else x % w
  }

  /** `isNegative` and `isZero` take the low word of a value. */
  predicate IsNegative(x: word, isByte: bool) {
    if isByte then x % 0x1_0000 / 0x80 % 2 == 1 else x % 0x1_0000 / 0x8000 % 2 == 1
  }

  predicate IsZero(x: word, isByte: bool) {
    if isByte then x % 0x1_0000 % 0x100 == 0 else x % 0x1_0000 == 0
  }

  predicate IsCarry(a: word, b: word, c: bool, isByte: bool) {
    if isByte then (a % 0x100 + b % 0x100 + BoolBit(c)) % TWO32 > 0xFF
    else (a % 0x1_0000 + b % 0x1_0000 + BoolBit(c)) % TWO32 > 0xFFFF
  }

  predicate IsOverflow(a: word, b: word, c: bool, isByte: bool) {
    var res := (a + b + BoolBit(c)) % TWO32;
    var aNeg, bNeg, resNeg := IsNegative(a, isByte), IsNegative(b, isByte), IsNegative(res, isByte);
    (resNeg && !aNeg && !bNeg) || (!resNeg && aNeg && bNeg)
  }

  /** The four flags of `a + b + c`, in 32 bits, as ADD, ADDC, SUB, SUBC and CMP set them */
  function SumFlags(a: word, b: word, c: bool, isByte: bool): Flags {
    var res := (a + b + BoolBit(c)) % TWO32;
    Flags(IsCarry(a, b, c, isByte), IsZero(res, isByte), IsNegative(res, isByte), IsOverflow(a, b, c, isByte))
  }

  lemma NegativeIsTopBit(x: word, isByte: bool)
    ensures IsNegative(x, isByte) <==> x % Values(isByte) >= Values(isByte) / 2
  {
    var low := x % 0x1_0000;
    if isByte {
      var h, q, r := x / 0x1_0000, low / 0x100, low % 0x100;
      DivModUnique(x, 0x100, h * 0x100 + q, r);
      DivModUnique(low, 0x80, if r >= 0x80 then 2 * q + 1 else 2 * q, if r >= 0x80 then r - 0x80 else r);
    } else {
      assert low / 0x8000 < 2;
    }
  }

  lemma ZeroIsTruncated(x: word, isByte: bool)
    ensures IsZero(x, isByte) <==> x % Values(isByte) == 0
  {
  }

  lemma CarryIsExcess(a: word, b: word, c: bool, isByte: bool)
    ensures IsCarry(a, b, c, isByte) <==> a % Values(isByte) + b % Values(isByte) + BoolBit(c) >= Values(isByte)
  {
  }

  lemma WordTruncates(x: nat)
    ensures x % TWO32 % 0x100 == x % 0x100 && x % TWO32 % 0x1_0000 == x % 0x1_0000
  {
    var q, r := x / TWO32, x % TWO32;
    assert x == q * TWO32 + r;
    DivModUnique(x, 0x100, q * 0x100_0000 + r / 0x100, r % 0x100);
    DivModUnique(x, 0x1_0000, q * 0x1_0000 + r / 0x1_0000, r % 0x1_0000);
  }

  lemma ByteSum(a: nat, b: nat, c: nat)
    ensures (a + b + c) % 0x100 == (a % 0x100 + b % 0x100 + c) % 0x100
  {
    var p, q := a / 0x100, b / 0x100;
    assert a + b + c == (p + q) * 0x100 + (a % 0x100 + b % 0x100 + c);
  }

  lemma WordSum(a: nat, b: nat, c: nat)
    ensures (a + b + c) % 0x1_0000 == (a % 0x1_0000 + b % 0x1_0000 + c) % 0x1_0000
  {
    var p, q := a / 0x1_0000, b / 0x1_0000;
    assert a + b + c == (p + q) * 0x1_0000 + (a % 0x1_0000 + b % 0x1_0000 + c);
  }

  /** Truncating a sum to 32 bits and then to the operand size */
  lemma SumTruncates(a: word, b: word, c: bool, isByte: bool)
    ensures var w := Values(isByte);
            (a + b + BoolBit(c)) % TWO32 % w == (a % w + b % w + BoolBit(c)) % w
  {
    WordTruncates(a + b + BoolBit(c));
    if isByte {
      ByteSum(a, b, BoolBit(c));
    } else {
      WordSum(a, b, BoolBit(c));
    }
  }

  /** The flags mean what they should on the operands' low bytes or words: C the carry out of the
      unsigned sum, V that the signed sum does not fit. */
  lemma SumFlagsExact(a: word, b: word, c: bool, isByte: bool)
    ensures Meaning(SumFlags(a, b, c, isByte), a % Values(isByte), b % Values(isByte), c, isByte)
  {
    var w, res := Values(isByte), (a + b + BoolBit(c)) % TWO32;
    var x, y := a % w, b % w;
    assert res % w == (x + y + BoolBit(c)) % w by { SumTruncates(a, b, c, isByte); }
    assert IsZero(res, isByte) <==> res % w == 0 by { ZeroIsTruncated(res, isByte); }
    assert IsNegative(res, isByte) <==> res % w >= w / 2 by { NegativeIsTopBit(res, isByte); }
    assert IsNegative(a, isByte) <==> x >= w / 2 by { NegativeIsTopBit(a, isByte); }
    assert IsNegative(b, isByte) <==> y >= w / 2 by { NegativeIsTopBit(b, isByte); }
    assert IsCarry(a, b, c, isByte) <==> x + y + BoolBit(c) >= w by { CarryIsExcess(a, b, c, isByte); }
    SignRule(x, y, c, isByte);
    assert Meaning(SumFlags(a, b, c, isByte), x, y, c, isByte);
  }

  /** The flags of the sum of two bytes or words */
  ghost predicate Meaning(f: Flags, x: nat, y: nat, c: bool, isByte: bool) {
    var w, sum := Values(isByte), x + y + BoolBit(c);
    && (f.c <==> sum >= w)
    && (f.z <==> sum % w == 0)
    && (f.n <==> sum % w >= w / 2)
    && (f.v <==> Signed(x, isByte) + Signed(y, isByte) + BoolBit(c) != Signed(sum, isByte))
  }

  lemma SignRule(x: nat, y: nat, c: bool, isByte: bool)
    requires x < Values(isByte) && y < Values(isByte)
    ensures var w, sum := Values(isByte), x + y + BoolBit(c);
            var aNeg, bNeg, resNeg := x >= w / 2, y >= w / 2, sum % w >= w / 2;
            (resNeg && !aNeg && !bNeg) || (!resNeg && aNeg && bNeg)
            <==> Signed(x, isByte) + Signed(y, isByte) + BoolBit(c) != Signed(sum, isByte)
  {
    var w, sum := Values(isByte), x + y + BoolBit(c);
    Truncated(x, w);
    Truncated(y, w);
    Truncated(sum, w);
    Overflows(x, y, BoolBit(c), w / 2);
  }

  lemma Truncated(x: nat, w: nat)
    requires x < 2 * w
    ensures x % w == if x < w then x else x - w
  {
    DivModUnique(x, w, if x < w then 0 else 1, if x < w then x else x - w);
  }

  function Value(x: nat, h: nat): int {
    if x >= h then x - 2 * h else x
  }

  lemma Overflows(x: nat, y: nat, c: nat, h: nat)
    requires x < 2 * h && y < 2 * h && c <= 1
    ensures var sum := x + y + c;
            var r := if sum < 2 * h then sum else sum - 2 * h;
            (r >= h && x < h && y < h) || (r < h && x >= h && y >= h) <==> Value(x, h) + Value(y, h) + c != Value(r, h)
  {
  }

  /** CMP: dst + ~src + 1 */
  function CmpFlags(src: word, dst: word, isByte: bool): Flags {
    SumFlags(dst, Not32(src), true, isByte)
  }

  /** The conditions of the jump instruction */
  function Jumps(condition: nat, f: Flags): bool
    requires condition < 8
  {
    match condition
    case 0 => !f.z
    case 1 => f.z
    case 2 => !f.c
    case 3 => f.c
    case 4 => f.n
    case 5 => f.n == f.v
    case 6 => f.n != f.v
    case 7 => true
  }

  const JNZ := 0
  const JZ := 1
  const JNC := 2
  const JC := 3
  const JGE := 5
  const JL := 6

  lemma NotTruncates(x: word, isByte: bool)
    ensures var w := Values(isByte);
            Not32(x) % w == w - 1 - x % w
  {
  }

  /** After CMP the conditions decide the order of the operands' low bytes or words, unsigned and
      signed, whatever the bits above: constants of the constant generator are wider than a byte. */
  lemma CompareDecides(src: word, dst: word, isByte: bool)
    ensures var f, w := CmpFlags(src, dst, isByte), Values(isByte);
            && (Jumps(JZ, f) <==> dst % w == src % w)
            && (Jumps(JNZ, f) <==> dst % w != src % w)
            && (Jumps(JC, f) <==> dst % w >= src % w)
            && (Jumps(JNC, f) <==> dst % w < src % w)
            && (Jumps(JGE, f) <==> Signed(dst, isByte) >= Signed(src, isByte))
            && (Jumps(JL, f) <==> Signed(dst, isByte) < Signed(src, isByte))
            && (Jumps(4, f) <==> (dst % w - src % w) % w >= w / 2)
            && Jumps(7, f)
  {
    var w, f := Values(isByte), CmpFlags(src, dst, isByte);
    var x, y := dst % w, src % w;
    assert Meaning(f, x, w - 1 - y, true, isByte) by {
      SumFlagsExact(dst, Not32(src), true, isByte);
      NotTruncates(src, isByte);
    }
    SignedTruncates(src, isByte);
    SignedTruncates(dst, isByte);
    FlagsDecide(f, x, y, isByte);
  }

  lemma SignedTruncates(x: nat, isByte: bool)
    ensures Signed(x % Values(isByte), isByte) == Signed(x, isByte)
  {
  }

  lemma WrapsOnce(v: int, w: nat)
    requires 0 < v + w && v < w
    ensures (v + w) % w == v % w
  {
    assert v >= 0 ==> v % w == v;
    if v >= 0 {
      DivModUnique(v + w, w, 1, v);
    } else {
      DivModUnique(v + w, w, 0, v + w);
    }
  }

  lemma FlagsDecide(f: Flags, x: nat, y: nat, isByte: bool)
    requires x < Values(isByte) && y < Values(isByte) && Meaning(f, x, Values(isByte) - 1 - y, true, isByte)
    ensures f.z <==> x == y
    ensures f.c <==> x >= y
    ensures f.n == f.v <==> Signed(x, isByte) >= Signed(y, isByte)
    ensures f.n <==> (x - y) % Values(isByte) >= Values(isByte) / 2
  {
    var w := Values(isByte);
    var d := x - y + w;
    assert (x - y) % w == d % w by { WrapsOnce(x - y, w); }
    assert x + (w - 1 - y) + 1 == d;
    assert Signed(w - 1 - y, isByte) == -1 - Signed(y, isByte) by { SignedComplement(y, isByte); }
    Difference(x, y, isByte);
    assert f.n <==> d % w >= w / 2;
    assert f.v <==> Signed(x, isByte) - Signed(y, isByte) != Signed(d, isByte);
  }

  lemma SignedComplement(y: nat, isByte: bool)
    requires y < Values(isByte)
    ensures Signed(Values(isByte) - 1 - y, isByte) == -1 - Signed(y, isByte)
  {
  }

  lemma Difference(x: nat, y: nat, isByte: bool)
    requires x < Values(isByte) && y < Values(isByte)
    ensures var w := Values(isByte);
            var d := x - y + w;
            && (d % w == 0 <==> x == y)
            && ((d % w >= w / 2) == (Signed(x, isByte) - Signed(y, isByte) != Signed(d, isByte))
                <==> Signed(x, isByte) >= Signed(y, isByte))
  {
    var w := Values(isByte);
    var d := x - y + w;
    var r := if d >= w then d - w else d;
    assert d % w == r by { DivModUnique(d, w, if d >= w then 1 else 0, r); }
    assert x % w == x by { DivModUnique(x, w, 0, x); }
    assert y % w == y by { DivModUnique(y, w, 0, y); }
    DifferenceOfSmall(x, y, w / 2, r);
  }

  function SignedSmall(x: nat, h: nat): int {
    if x >= h then x - 2 * h else x
  }

  lemma DifferenceOfSmall(x: nat, y: nat, h: nat, r: nat)
    requires x < 2 * h && y < 2 * h && r == if x >= y then x - y else x - y + 2 * h
    ensures r == 0 <==> x == y
    ensures (r >= h) == (SignedSmall(x, h) - SignedSmall(y, h) != SignedSmall(r, h))
            <==> SignedSmall(x, h) >= SignedSmall(y, h)
  {
  }

  /** The operand constants of the constant generator registers 2 and 3 */
  predicate IsSourceConstant(mode: nat, r: nat) {
    r == 3 || (r == 2 && mode >= 2)
  }

  function SourceConstant(mode: nat, r: nat): half
    requires mode < 4 && IsSourceConstant(mode, r)
  {
    if r == 3 then (if mode == 3 then 0xFFFF else mode) else if mode == 2 then 4 else 8
  }

  /** The six constants as signed numbers, for bytes and for words */
  lemma ConstantsSigned(mode: nat, r: nat, isByte: bool)
    requires mode < 4 && IsSourceConstant(mode, r)
    ensures Signed(SourceConstant(mode, r), isByte) ==
            if r == 2 then (if mode == 2 then 4 else 8) else if mode == 3 then -1 else mode
  {
  }

  /** The signed offset of a jump, in bytes */
  function JumpOffset(opcode: half): int {
    var field := opcode % 0x400;
    2 * (if field >= 0x200 then field - 0x400 else field)
  }

  /** Every even offset of eleven bits comes back from its ten-bit field, under any condition. */
  lemma JumpOffsetExact(condition: nat, offset: int)
    requires condition < 8 && -0x400 <= offset < 0x400 && offset % 2 == 0
    ensures JumpOffset(0x2000 + 0x400 * condition + offset / 2 % 0x400) == offset
  {
    var field := offset / 2 % 0x400;
    assert field == if offset < 0 then offset / 2 + 0x400 else offset / 2;
    assert (0x2000 + 0x400 * condition + field) % 0x400 == field;
  }

  // ---------------------------------------------------------------------------------------------
  // Context: PC, SP and SR, other registers and memory

  const GIE: nat := 8
  const SCG0: nat := 0x40
  const RESET_VECTOR: half := 0xFFFE

  /** `mem` holds the words of the address space, the word at address `a` at index `a / 2`. The register
      of PC has 32 bits, of which a jump may set the upper ones. */
  datatype Cpu = Cpu(pc: word, sp: half, sr: half, others: seq<word>, mem: seq<half>)

  ghost predicate CpuOk(s: Cpu) {
    |s.mem| == 0x8000 && s.pc < 0x1_0000 && s.pc % 2 == 0 && s.sp % 2 == 0
  }

  function Read16(s: Cpu, a: half): half
    requires |s.mem| == 0x8000
  {
    s.mem[a / 2]
  }

  /** `setSp(getSp() - 2)` and a write; no wrap-around of SP */
  function Push(s: Cpu, v: half): (t: Cpu)
    requires |s.mem| == 0x8000 && s.sp >= 2
    ensures |t.mem| == 0x8000
  {
    s.(sp := s.sp - 2, mem := s.mem[(s.sp - 2) / 2 := v])
  }

  function Popped(s: Cpu): (t: Cpu)
    requires |s.mem| == 0x8000 && s.sp <= 0xFFFD
    ensures |t.mem| == 0x8000
  {
    s.(sp := s.sp + 2)
  }

  /** `setPc` asserts that the address is even; None where the assertion fails. */
  function LoadPc(s: Cpu, pc: word): (t: Option<Cpu>)
    ensures t.Some? ==> t.value.mem == s.mem
  {
    if pc % 2 == 0 then Some(s.(pc := pc)) else None
  }

  /** CALL pushes the address of the next instruction. */
  function Call(s: Cpu, target: word): (t: Option<Cpu>)
    requires |s.mem| == 0x8000 && s.sp >= 2
    ensures t.Some? ==> |t.value.mem| == 0x8000
  {
    LoadPc(Push(s, s.pc % 0x1_0000), target)
  }

  /** RET is MOV @SP+, PC. */
  function Ret(s: Cpu): (t: Option<Cpu>)
    requires |s.mem| == 0x8000 && s.sp <= 0xFFFD
    ensures t.Some? ==> |t.value.mem| == 0x8000
  {
    LoadPc(Popped(s), Read16(s, s.sp))
  }

  /** RETI pops SR, then PC. */
  function Reti(s: Cpu): (t: Option<Cpu>)
    requires |s.mem| == 0x8000 && s.sp <= 0xFFFB
    ensures t.Some? ==> |t.value.mem| == 0x8000
  {
    var s1 := Popped(s).(sr := Read16(s, s.sp));
    LoadPc(Popped(s1), Read16(s1, s1.sp))
  }

  /** All bits of SR but SCG0 are cleared. */
  function EntrySr(sr: half): half {
    if sr / SCG0 % 2 == 1 then SCG0 else 0
  }

  predicate Taken(s: Cpu, idx: nat) {
    s.sr / GIE % 2 == 1 || idx < 3
  }

  /** `processInterrupt`: a reset, an interrupt that is taken, or one that is not. None where SP or the
      vector address would leave the address space or the vector is odd. */
  function Interrupt(s: Cpu, idx: nat): (t: Option<Cpu>)
    requires |s.mem| == 0x8000
    ensures t.Some? ==> |t.value.mem| == 0x8000
  {
    if idx == 0 then LoadPc(s.(sr := EntrySr(s.sr)), Read16(s, RESET_VECTOR))
    else if !Taken(s, idx) then Some(s)
    else if s.sp < 4 || 2 * idx > RESET_VECTOR then None
    else
      var t := Push(Push(s, s.pc % 0x1_0000), s.sr);
      LoadPc(t.(sr := EntrySr(t.sr)), Read16(t, RESET_VECTOR - 2 * idx))
  }

  /** CALL goes to its target, with the address of the next instruction on the stack; an odd target ends the
      simulation. Nothing but PC, SP and that word changes. */
  lemma CallExact(s: Cpu, target: word)
    requires |s.mem| == 0x8000 && s.sp >= 2
    ensures Call(s, target).None? <==> target % 2 == 1
    ensures Call(s, target).Some? ==>
              var t := Call(s, target).value;
              && t == s.(pc := target, sp := s.sp - 2, mem := t.mem) && |t.mem| == 0x8000
              && t.mem[s.sp / 2 - 1] == s.pc % 0x1_0000
              && forall i | 0 <= i < 0x8000 && i != s.sp / 2 - 1 :: t.mem[i] == s.mem[i]
  {
  }

  /** A reset goes to the address in the last word of memory and clears SR but for bit 6; it stacks nothing. */
  lemma ResetExact(s: Cpu)
    requires |s.mem| == 0x8000
    ensures var t := Interrupt(s, 0);
            if s.mem[0x7FFF] % 2 == 1 then t.None?
            else t == Some(s.(pc := s.mem[0x7FFF], sr := if s.sr / 0x40 % 2 == 1 then 0x40 else 0))
  {
  }

  /** Any other interrupt, when bit 3 of SR is set or its index is below three, stacks PC and below it SR, and
      goes to the address in its vector, as many words below the last as its index says. */
  lemma EntryExact(s: Cpu, idx: nat)
    requires |s.mem| == 0x8000 && idx > 0
    ensures var t, taken := Interrupt(s, idx), s.sr / 8 % 2 == 1 || idx < 3;
            if !taken then t == Some(s)
            else if s.sp < 4 || idx > 0x7FFF then t.None?
            else
              var mem := s.mem[s.sp / 2 - 1 := s.pc % 0x1_0000][s.sp / 2 - 2 := s.sr];
              if mem[0x7FFF - idx] % 2 == 1 then t.None?
              else t == Some(Cpu(mem[0x7FFF - idx], s.sp - 4, if s.sr / 0x40 % 2 == 1 then 0x40 else 0, s.others, mem))
  {
    assert (s.sp - 2) / 2 == s.sp / 2 - 1 && (s.sp - 4) / 2 == s.sp / 2 - 2;
    if idx <= 0x7FFF {
      assert (0xFFFE - 2 * idx) / 2 == 0x7FFF - idx;
    }
  }

  /** RET and RETI take off the stack what these put there. */
  lemma ReturnsExact(s: Cpu)
    requires |s.mem| == 0x8000 && s.sp <= 0xFFFB
    ensures Ret(s) == if s.mem[s.sp / 2] % 2 == 1 then None else Some(s.(pc := s.mem[s.sp / 2], sp := s.sp + 2))
    ensures Reti(s) == if s.mem[s.sp / 2 + 1] % 2 == 1 then None
                       else Some(s.(pc := s.mem[s.sp / 2 + 1], sp := s.sp + 4, sr := s.mem[s.sp / 2]))
  {
    assert (s.sp + 2) / 2 == s.sp / 2 + 1;
  }

  // ---------------------------------------------------------------------------------------------
  // Nested context

  /** A well-nested run: work that ends in some state, calls and interrupts with what happens until they
      return */
  datatype Item = Work(after: Cpu) | Called(target: half, body: Items) | Interrupted(idx: nat, body: Items)
  datatype Items = Nil | Cons(head: Item, tail: Items)

  /** Work leaves SP and the stack from SP up to `base` as they are; it may change anything else. */
  ghost predicate Works(s: Cpu, t: Cpu, base: nat) {
    CpuOk(t) && t.sp == s.sp && SameStack(s, t, s.sp, base)
  }

  ghost predicate SameStack(s: Cpu, t: Cpu, from: nat, base: nat) {
    && |s.mem| == |t.mem| == 0x8000
    && forall i | from / 2 <= i < base / 2 && i < 0x8000 :: t.mem[i] == s.mem[i]
  }

  /** The state after the run, if SP stays within the address space and every entry address is even */
  ghost function Exec(items: Items, s: Cpu, base: nat): (t: Option<Cpu>)
    requires CpuOk(s) && s.sp <= base < 0x1_0000
    ensures t.Some? ==> CpuOk(t.value) && t.value.sp == s.sp && SameStack(s, t.value, s.sp, base)
    decreases items
  {
    match items
    case Nil => Some(s)
    case Cons(item, tail) =>
      var r := ExecItem(item, s, base);
      if r.None? then None else Exec(tail, r.value, base)
  }

  ghost function ExecItem(item: Item, s: Cpu, base: nat): (t: Option<Cpu>)
    requires CpuOk(s) && s.sp <= base < 0x1_0000
    ensures t.Some? ==> CpuOk(t.value) && t.value.sp == s.sp && SameStack(s, t.value, s.sp, base)
    decreases item
  {
    match item
    case Work(after) => if Works(s, after, base) then Some(after) else None
    case Called(target, body) =>
      if s.sp < 2 then None
      else
        var e := Call(s, target);
        if e.None? then None
        else
          var r := Exec(body, e.value, base);
          if r.None? then None else Ret(r.value)
    case Interrupted(idx, body) =>
      if idx == 0 then None
      else
        var e := Interrupt(s, idx);
        if e.None? then None
        else if !Taken(s, idx) then Some(s)
        else
          var r := Exec(body, e.value, base);
          if r.None? then None else Reti(r.value)
  }

  /** CALL of an even address, whatever well-nested run, RET: PC and SP are back, and the rest is as the run
      left it. */
  lemma CallReturns(s: Cpu, target: half, body: Items, base: nat)
    requires CpuOk(s) && s.sp <= base < 0x1_0000 && s.sp >= 2 && Call(s, target).Some?
    ensures CpuOk(Call(s, target).value) && Call(s, target).value.sp <= base
    ensures var u := Exec(body, Call(s, target).value, base);
            ExecItem(Called(target, body), s, base) ==
            if u.None? then None else Some(u.value.(pc := s.pc, sp := s.sp))
  {
    var e := Call(s, target).value;
    assert e.mem[e.sp / 2] == s.pc;
    var u := Exec(body, e, base);
    if u.Some? {
      assert SameStack(e, u.value, e.sp, base);
      assert u.value.mem[e.sp / 2] == s.pc;
    }
  }

  /** An interrupt that is taken, whatever well-nested run, RETI: PC, SP and SR are back. */
  lemma InterruptReturns(s: Cpu, idx: nat, body: Items, base: nat)
    requires CpuOk(s) && s.sp <= base < 0x1_0000 && idx > 0 && Taken(s, idx) && Interrupt(s, idx).Some?
    ensures var e := Interrupt(s, idx).value; CpuOk(e) && e.sp <= base
    ensures var u := Exec(body, Interrupt(s, idx).value, base);
            ExecItem(Interrupted(idx, body), s, base) ==
            if u.None? then None else Some(u.value.(pc := s.pc, sp := s.sp, sr := s.sr))
  {
    var e := Interrupt(s, idx).value;
    assert e.sp == s.sp - 4 && e.mem[e.sp / 2] == s.sr && e.mem[e.sp / 2 + 1] == s.pc;
    var u := Exec(body, e, base);
    if u.Some? {
      assert SameStack(e, u.value, e.sp, base);
      assert u.value.mem[e.sp / 2] == s.sr && u.value.mem[e.sp / 2 + 1] == s.pc;
    }
  }

  /** Only calls and interrupts at the outermost level; anything may happen inside them. */
  predicate AllReturn(items: Items) {
    items.Nil? || (!items.head.Work? && AllReturn(items.tail))
  }

  predicate AllInterrupts(items: Items) {
    items.Nil? || (items.head.Interrupted? && AllInterrupts(items.tail))
  }

  /** Every well-nested run of calls and interrupts comes back to the same PC and SP, and a run of
      interrupts to the same SR, GIE and CPUOFF included. */
  lemma {:induction false} NestingRestores(items: Items, s: Cpu, base: nat)
    requires CpuOk(s) && s.sp <= base < 0x1_0000 && AllReturn(items) && Exec(items, s, base).Some?
    ensures var t := Exec(items, s, base).value;
            t.pc == s.pc && t.sp == s.sp && (AllInterrupts(items) ==> t.sr == s.sr)
    decreases items
  {
    match items
    case Nil =>
    case Cons(item, tail) =>
      match item {
        case Called(target, body) => CallReturns(s, target, body, base);
        case Interrupted(idx, body) =>
          if Taken(s, idx) {
            InterruptReturns(s, idx, body, base);
          }
      }
      NestingRestores(tail, ExecItem(item, s, base).value, base);
  }

  /** An interrupt is taken exactly if GIE is set or its index is below three, index 0 being a reset.
      Entry clears every SR bit but SCG0, so that in the handler only those below three are taken until
      it sets GIE itself. */
  lemma InterruptTaken(s: Cpu, idx: nat, inner: nat)
    requires |s.mem| == 0x8000 && idx > 0 && Interrupt(s, idx).Some?
    ensures Interrupt(s, idx).value == s <==> s.sr / GIE % 2 == 0 && idx >= 3
    ensures Taken(s, idx) ==>
              var h := Interrupt(s, idx).value;
              && h.pc == h.mem[(RESET_VECTOR - 2 * idx) / 2] && h.sp == s.sp - 4
              && h.sr / SCG0 % 2 == s.sr / SCG0 % 2 && h.sr % SCG0 == 0 && h.sr / 0x80 == 0
              && (Taken(h, inner) <==> inner < 3)
  {
  }

  /** `getSr() & (1u << 6)` */
  lemma EntrySrMask(sr: half)
    ensures And(sr, 0x40) == EntrySr(sr)
  {
    assert Pow2(6) == 0x40;
    BitOperations(sr, 6, 0x40);
  }
}

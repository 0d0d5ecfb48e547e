/** Addition, subtraction and comparison on the Cortex-M0: the flag formulas of the simulator are
    those of AddWithCarry in section A2.2.1 of the ARMv6-M Architecture Reference Manual, and they
    carry over to numbers of any number of words. */
module M0Arith {
  import opened Bits

  datatype Flags = Flags(n: bool, z: bool, c: bool, v: bool)

  /** A word as a two's complement number */
  function SInt(x: word): int {
    if x < 0x8000_0000 then x else x - TWO32
  }

  datatype Sum = Sum(result: word, carry: bool, overflow: bool)

  /** The manual's definition: compare the result with the unbounded sums */
  function AddWithCarry(x: word, y: word, c: bool): Sum {
    var result := (x + y + BoolBit(c)) % TWO32;
    Sum(result, result != x + y + BoolBit(c), SInt(result) != SInt(x) + SInt(y) + BoolBit(c))
  }

  function FlagsOf(s: Sum): Flags {
    Flags(SInt(s.result) < 0, s.result == 0, s.carry, s.overflow)
  }

  // ---------------------------------------------------------------------------------------------
  // The simulator's formulas

  /** `x >> 31` */
  function Top(x: word): nat {
    x / 0x8000_0000
  }

  /** `do_cflag`: add without the top bits, then the top bits */
  function CFlag(a: word, b: word, carry: bool): nat {
    var r := (a % 0x8000_0000 + b % 0x8000_0000 + BoolBit(carry)) % TWO32;
    (Top(r) + Top(a) + Top(b)) / 2
  }

  /** `do_vflag`: both operands have one sign, the result the other */
  function VFlag(a: word, b: word, r: word): bool {
    || Top(And(And(a, b), Not32(r))) != 0
    || Top(And(And(Not32(a), Not32(b)), r)) != 0
  }

  lemma TopAnd(x: word, y: word)
    ensures Top(And(x, y)) == if Top(x) == 1 && Top(y) == 1 then 1 else 0
  {
    var k := 31;
    Pow2Constants();
    ShrAnd(x, y, k);
    ShrLowAreDivMod(And(x, y), k);
    ShrLowAreDivMod(x, k);
    ShrLowAreDivMod(y, k);
    assert And(Top(x), Top(y)) == if Top(x) == 1 && Top(y) == 1 then 1 else 0;
  }

  lemma TopAndAnd(x: word, y: word, z: word)
    ensures Top(And(And(x, y), z)) != 0
            <==> x >= 0x8000_0000 && y >= 0x8000_0000 && z >= 0x8000_0000
  {
    TopAnd(x, y);
    TopAnd(And(x, y), z);
  }

  /** A sum overflows exactly if the operands have one sign and the result the other. */
  lemma SignRule(a: word, b: word, c: bool)
    ensures var s := AddWithCarry(a, b, c);
            s.overflow <==> (a < 0x8000_0000) == (b < 0x8000_0000) != (s.result < 0x8000_0000)
  {
  }

  /** The formulas give exactly the flags of the manual's AddWithCarry. */
  lemma FlagFormulasExact(a: word, b: word, c: bool)
    ensures var s := AddWithCarry(a, b, c);
            && CFlag(a, b, c) == BoolBit(s.carry)
            && VFlag(a, b, s.result) == s.overflow
            && Top(s.result) == BoolBit(SInt(s.result) < 0)
  {
    CFlagExact(a, b, c);
    VFlagExact(a, b, AddWithCarry(a, b, c).result, c);
  }

  lemma CFlagExact(a: word, b: word, c: bool)
    ensures CFlag(a, b, c) == BoolBit(AddWithCarry(a, b, c).carry)
  {
    assert AddWithCarry(a, b, c).carry <==> a + b + BoolBit(c) >= TWO32;
  }

  lemma VFlagExact(a: word, b: word, r: word, c: bool)
    requires r == AddWithCarry(a, b, c).result
    ensures VFlag(a, b, r) == AddWithCarry(a, b, c).overflow
  {
    TopAndAnd(a, b, Not32(r));
    TopAndAnd(Not32(a), Not32(b), r);
    SignRule(a, b, c);
  }

  // ---------------------------------------------------------------------------------------------
  // Registers and the instructions that add and subtract

  datatype Regs = Regs(gpr: seq<word>, flags: Flags)

  ghost predicate RegsOk(s: Regs) {
    |s.gpr| == 16
  }

  /** Puts x + y + c into rD and sets all four flags. */
  function Add(s: Regs, rD: nat, x: word, y: word, c: bool): (s': Regs)
    requires rD < |s.gpr|
    ensures |s'.gpr| == |s.gpr|
  {
    var sum := AddWithCarry(x, y, c);
    Regs(s.gpr[rD := sum.result], FlagsOf(sum))
  }

  function Adds(s: Regs, rD: nat, rN: nat, rM: nat): (s': Regs)
    requires rD < |s.gpr| && rN < |s.gpr| && rM < |s.gpr|
    ensures |s'.gpr| == |s.gpr|
  {
    Add(s, rD, s.gpr[rN], s.gpr[rM], false)
  }

  function Adcs(s: Regs, rD: nat, rM: nat): (s': Regs)
    requires rD < |s.gpr| && rM < |s.gpr|
    ensures |s'.gpr| == |s.gpr|
  {
    Add(s, rD, s.gpr[rD], s.gpr[rM], s.flags.c)
  }

  function Subs(s: Regs, rD: nat, rN: nat, rM: nat): (s': Regs)
    requires rD < |s.gpr| && rN < |s.gpr| && rM < |s.gpr|
    ensures |s'.gpr| == |s.gpr|
  {
    Add(s, rD, s.gpr[rN], Not32(s.gpr[rM]), true)
  }

  function Sbcs(s: Regs, rD: nat, rM: nat): (s': Regs)
    requires rD < |s.gpr| && rM < |s.gpr|
    ensures |s'.gpr| == |s.gpr|
  {
    Add(s, rD, s.gpr[rD], Not32(s.gpr[rM]), s.flags.c)
  }

  /** CMP sets the flags of a subtraction and keeps the registers. */
  function Cmp(s: Regs, x: word, y: word): Regs {
    s.(flags := FlagsOf(AddWithCarry(x, Not32(y), true)))
  }

  // ---------------------------------------------------------------------------------------------
  // Numbers of several words, least significant first

  function Base(n: nat): (b: nat)
    ensures b >= 1
  {
    if n == 0 then 1 else TWO32 * Base(n - 1)
  }

  function Value(ws: seq<word>): nat {
    if ws == [] then 0 else ws[0] + TWO32 * Value(ws[1..])
  }

  /** Two's complement value, with the sign in the last word */
  function SValue(ws: seq<word>): int
    requires ws != []
  {
    if |ws| == 1 then SInt(ws[0]) else ws[0] + TWO32 * SValue(ws[1..])
  }

  lemma {:induction false} SValueIsSigned(ws: seq<word>)
    requires ws != []
    ensures Value(ws) < Base(|ws|)
    ensures SValue(ws) == Value(ws) - (if ws[|ws| - 1] >= 0x8000_0000 then Base(|ws|) else 0)
  {
    if |ws| == 1 {
      assert Value(ws[1..]) == 0;
      assert Base(1) == TWO32 * Base(0);
    } else {
      SValueIsSigned(ws[1..]);
    }
  }

  function Complement(ws: seq<word>): (r: seq<word>)
    ensures |r| == |ws|
    ensures forall i | 0 <= i < |ws| :: r[i] == Not32(ws[i])
  {
    if ws == [] then [] else [Not32(ws[0])] + Complement(ws[1..])
  }

  lemma {:induction false} ComplementValue(ws: seq<word>)
    ensures Value(Complement(ws)) == Base(|ws|) - 1 - Value(ws)
    ensures ws != [] ==> SValue(Complement(ws)) == -1 - SValue(ws)
  {
    if ws != [] {
      ComplementValue(ws[1..]);
      assert Complement(ws)[1..] == Complement(ws[1..]);
    }
  }

  datatype Chain = Chain(words: seq<word>, regs: Regs)

  /** Word by word: load the two words into R0 and R1, which leaves the flags alone, and add with the
      carry of the word before. */
  function AdcsChain(s: Regs, xs: seq<word>, ys: seq<word>): (r: Chain)
    requires RegsOk(s) && |xs| == |ys|
    ensures |r.words| == |xs|
    decreases |xs|
  {
    if xs == [] then Chain([], s)
    else
      var s' := Adcs(s.(gpr := s.gpr[0 := xs[0]][1 := ys[0]]), 0, 1);
      var rest := AdcsChain(s', xs[1..], ys[1..]);
      Chain([s'.gpr[0]] + rest.words, rest.regs)
  }

  function SbcsChain(s: Regs, xs: seq<word>, ys: seq<word>): (r: Chain)
    requires RegsOk(s) && |xs| == |ys|
    ensures |r.words| == |xs|
    decreases |xs|
  {
    if xs == [] then Chain([], s)
    else
      var s' := Sbcs(s.(gpr := s.gpr[0 := xs[0]][1 := ys[0]]), 0, 1);
      var rest := SbcsChain(s', xs[1..], ys[1..]);
      Chain([s'.gpr[0]] + rest.words, rest.regs)
  }

  /** ADDS on the lowest words, then ADCS on the others */
  function AddWords(s: Regs, xs: seq<word>, ys: seq<word>): (r: Chain)
    requires RegsOk(s) && |xs| == |ys| && xs != []
    ensures |r.words| == |xs|
  {
    var s' := Adds(s.(gpr := s.gpr[0 := xs[0]][1 := ys[0]]), 0, 0, 1);
    var rest := AdcsChain(s', xs[1..], ys[1..]);
    Chain([s'.gpr[0]] + rest.words, rest.regs)
  }

  function SubWords(s: Regs, xs: seq<word>, ys: seq<word>): (r: Chain)
    requires RegsOk(s) && |xs| == |ys| && xs != []
    ensures |r.words| == |xs|
  {
    var s' := Subs(s.(gpr := s.gpr[0 := xs[0]][1 := ys[0]]), 0, 0, 1);
    var rest := SbcsChain(s', xs[1..], ys[1..]);
    Chain([s'.gpr[0]] + rest.words, rest.regs)
  }

  lemma OneWord(x: word, y: word, c: bool)
    ensures var s := AddWithCarry(x, y, c);
            s.result + TWO32 * BoolBit(s.carry) == x + y + BoolBit(c)
  {
  }

  /** What a chain has computed when it ends with carry and overflow flags `f` */
  ghost predicate AddsUp(f: Flags, words: seq<word>, xs: seq<word>, ys: seq<word>, c: bool) {
    && |words| == |xs| == |ys|
    && Value(words) + (if f.c then Base(|xs|) else 0) == Value(xs) + Value(ys) + BoolBit(c)
    && (xs != [] ==> (f.v <==> SValue(words) != SValue(xs) + SValue(ys) + BoolBit(c)))
  }

  lemma Prepend(f: Flags, words: seq<word>, xs: seq<word>, ys: seq<word>, c: bool)
    requires |words| == |xs| == |ys| >= 1
    requires var s := AddWithCarry(xs[0], ys[0], c);
             && words[0] == s.result
             && AddsUp(f, words[1..], xs[1..], ys[1..], s.carry)
             && (|xs| == 1 ==> f.v == s.overflow)
    ensures AddsUp(f, words, xs, ys, c)
  {
    OneWord(xs[0], ys[0], c);
    if |xs| == 1 {
      assert Base(1) == TWO32 * Base(0);
    }
  }

  lemma {:induction false} AdcsChainAdds(s: Regs, xs: seq<word>, ys: seq<word>)
    requires RegsOk(s) && |xs| == |ys|
    ensures var r := AdcsChain(s, xs, ys);
            AddsUp(r.regs.flags, r.words, xs, ys, s.flags.c) && (xs == [] ==> r.regs == s)
    decreases |xs|
  {
    if xs != [] {
      var s' := Adcs(s.(gpr := s.gpr[0 := xs[0]][1 := ys[0]]), 0, 1);
      AdcsChainAdds(s', xs[1..], ys[1..]);
      var r := AdcsChain(s, xs, ys);
      assert r.words[1..] == AdcsChain(s', xs[1..], ys[1..]).words;
      Prepend(r.regs.flags, r.words, xs, ys, s.flags.c);
    }
  }

  lemma {:induction false} SbcsIsAdcsOfComplement(s: Regs, xs: seq<word>, ys: seq<word>)
    requires RegsOk(s) && |xs| == |ys|
    ensures var r := SbcsChain(s, xs, ys);
            AddsUp(r.regs.flags, r.words, xs, Complement(ys), s.flags.c) && (xs == [] ==> r.regs == s)
    decreases |xs|
  {
    if xs != [] {
      var s' := Sbcs(s.(gpr := s.gpr[0 := xs[0]][1 := ys[0]]), 0, 1);
      SbcsIsAdcsOfComplement(s', xs[1..], ys[1..]);
      var r := SbcsChain(s, xs, ys);
      assert r.words[1..] == SbcsChain(s', xs[1..], ys[1..]).words;
      assert Complement(ys)[1..] == Complement(ys[1..]);
      Prepend(r.regs.flags, r.words, xs, Complement(ys), s.flags.c);
    }
  }

  /** ADDS then ADCS over numbers of any number of words: the sum, with C the carry out and V set
      exactly on signed overflow. */
  lemma AddWordsExact(s: Regs, xs: seq<word>, ys: seq<word>)
    requires RegsOk(s) && |xs| == |ys| && xs != []
    ensures var r := AddWords(s, xs, ys);
            && Value(r.words) + (if r.regs.flags.c then Base(|xs|) else 0) == Value(xs) + Value(ys)
            && (r.regs.flags.v <==> SValue(r.words) != SValue(xs) + SValue(ys))
  {
    var s' := Adds(s.(gpr := s.gpr[0 := xs[0]][1 := ys[0]]), 0, 0, 1);
    AdcsChainAdds(s', xs[1..], ys[1..]);
    var r := AddWords(s, xs, ys);
    assert r.words[1..] == AdcsChain(s', xs[1..], ys[1..]).words;
    Prepend(r.regs.flags, r.words, xs, ys, false);
  }

  /** SUBS then SBCS: the difference, with C clear exactly on a borrow and V on signed overflow */
  lemma SubWordsExact(s: Regs, xs: seq<word>, ys: seq<word>)
    requires RegsOk(s) && |xs| == |ys| && xs != []
    ensures var r := SubWords(s, xs, ys);
            && Value(r.words) == Value(xs) - Value(ys) + (if r.regs.flags.c then 0 else Base(|xs|))
            && (r.regs.flags.c <==> Value(xs) >= Value(ys))
            && (r.regs.flags.v <==> SValue(r.words) != SValue(xs) - SValue(ys))
  {
    var s' := Subs(s.(gpr := s.gpr[0 := xs[0]][1 := ys[0]]), 0, 0, 1);
    SbcsIsAdcsOfComplement(s', xs[1..], ys[1..]);
    var r := SubWords(s, xs, ys);
    assert r.words[1..] == SbcsChain(s', xs[1..], ys[1..]).words;
    assert Complement(ys)[1..] == Complement(ys[1..]);
    Prepend(r.regs.flags, r.words, xs, Complement(ys), true);
    ComplementValue(ys);
    SValueIsSigned(r.words);
    SValueIsSigned(xs);
    SValueIsSigned(ys);
  }

  // ---------------------------------------------------------------------------------------------
  // Conditional branches

  /** The condition codes as the branch instruction evaluates them; 14 and 15 are no conditions. */
  function Taken(cond: nat, f: Flags): bool
    requires cond < 14
  {
    match cond
    case 0 => f.z
    case 1 => !f.z
    case 2 => f.c
    case 3 => !f.c
    case 4 => f.n
    case 5 => !f.n
    case 6 => f.v
    case 7 => !f.v
    case 8 => f.c && !f.z
    case 9 => f.z || !f.c
    case 10 => f.n == f.v
    case 11 => f.n != f.v
    case 12 => !f.z && f.n == f.v
    case 13 => f.z || f.n != f.v
  }

  const EQ := 0
  const NE := 1
  const CS := 2
  const CC := 3
  const HI := 8
  const LS := 9
  const GE := 10
  const LT := 11
  const GT := 12
  const LE := 13

  /** After CMP the conditions decide the unsigned and the signed order of the operands. */
  lemma CompareDecides(s: Regs, x: word, y: word)
    ensures var f := Cmp(s, x, y).flags;
            && (Taken(EQ, f) <==> x == y)
            && (Taken(NE, f) <==> x != y)
            && (Taken(HI, f) <==> x > y)
            && (Taken(LS, f) <==> x <= y)
            && (Taken(CS, f) <==> x >= y)
            && (Taken(CC, f) <==> x < y)
            && (Taken(GE, f) <==> SInt(x) >= SInt(y))
            && (Taken(LT, f) <==> SInt(x) < SInt(y))
            && (Taken(GT, f) <==> SInt(x) > SInt(y))
            && (Taken(LE, f) <==> SInt(x) <= SInt(y))
  {
  }
}

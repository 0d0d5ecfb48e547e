/** What the modelled encodings do, instruction by instruction, in plain arithmetic: the laws name neither
    the decoding nor the functions that execute it. Register 13 is SP, 14 is LR and 15 is the PC. */
module M0Encodings {
  import opened Bits
  import opened M0Execute
  import opened M0Stack
  import opened Options
  import A = M0Arith
  import B = M0Branch
  import C = M0Cpu
  import P = M0Pipeline
  import X = M0Exception

  type low = x: nat | x < 8

  // ---------------------------------------------------------------------------------------------
  // Sums and differences

  /** A word as a signed number */
  function Signed(x: word): int {
    if x >= 0x8000_0000 then x - 0x1_0000_0000 else x
  }

  predicate FitsSigned(v: int) {
    -0x8000_0000 <= v < 0x8000_0000
  }

  /** The four high bits of APSR are these flags, the others as before. */
  ghost predicate FlagsAre(before: word, after: word, n: bool, z: bool, c: bool, v: bool) {
    && (after / 0x8000_0000 == 1 <==> n) && (after / 0x4000_0000 % 2 == 1 <==> z)
    && (after / 0x2000_0000 % 2 == 1 <==> c) && (after / 0x1000_0000 % 2 == 1 <==> v)
    && after % 0x1000_0000 == before % 0x1000_0000
  }

  function CarryIn(c: X.Core): nat {
    c.apsr / 0x2000_0000 % 2
  }

  /** The result goes to register `d`; nothing but that register and the flags changes, and the instruction
      is no branch. */
  ghost predicate Leaves(c: X.Core, o: P.Outcome, d: low, result: int, carry: bool, overflow: bool)
    requires |c.gpr| == 16
  {
    && 0 <= result < 0x1_0000_0000 && o.Outcome? && !o.taken
    && o.core == c.(gpr := c.gpr[d := result], apsr := o.core.apsr)
    && FlagsAre(c.apsr, o.core.apsr, result >= 0x8000_0000, result == 0, carry, overflow)
  }

  /** x + y + carry, with the carry out of the word and signed overflow */
  ghost predicate Sum(c: X.Core, o: P.Outcome, d: low, x: word, y: word, carry: nat)
    requires |c.gpr| == 16
  {
    Leaves(c, o, d, (x + y + carry) % 0x1_0000_0000, x + y + carry >= 0x1_0000_0000,
           !FitsSigned(Signed(x) + Signed(y) + carry))
  }

  /** x - y - borrow, with the carry meaning that there is no borrow */
  ghost predicate Difference(c: X.Core, o: P.Outcome, d: low, x: word, y: word, borrow: nat)
    requires |c.gpr| == 16
  {
    Leaves(c, o, d, (x - y - borrow) % 0x1_0000_0000, x >= y + borrow,
           !FitsSigned(Signed(x) - Signed(y) - borrow))
  }

  lemma JoinedExact(f: A.Flags, before: word)
    ensures var after := C.Joined(f, before % 0x1000_0000);
            after < 0x1_0000_0000 && FlagsAre(before, after, f.n, f.z, f.c, f.v)
  {
    var low := before % 0x1000_0000;
    C.JoinedFlags(f, low);
    assert C.Joined(f, low) == (8 * BoolBit(f.n) + 4 * BoolBit(f.z) + 2 * BoolBit(f.c) + BoolBit(f.v)) * 0x1000_0000 + low;
  }

  lemma AddIsSum(c: X.Core, d: low, x: word, y: word, carry: bool)
    requires |c.gpr| == 16
    ensures Sum(c, WithArith(c, A.Add(ArithOf(c), d, x, y, carry)), d, x, y, BoolBit(carry))
  {
    SumFlags(x, y, carry);
    JoinedExact(A.FlagsOf(A.AddWithCarry(x, y, carry)), c.apsr);
  }

  lemma SumFlags(x: word, y: word, carry: bool)
    ensures var s, total := A.AddWithCarry(x, y, carry), x + y + BoolBit(carry);
            && s.result == total % 0x1_0000_0000
            && A.FlagsOf(s) == A.Flags(s.result >= 0x8000_0000, s.result == 0, total >= 0x1_0000_0000,
                                       !FitsSigned(Signed(x) + Signed(y) + BoolBit(carry)))
  {
    OverflowExact(x, y, BoolBit(carry));
  }

  lemma OverflowExact(x: word, y: word, carry: nat)
    requires carry <= 1
    ensures Signed((x + y + carry) % 0x1_0000_0000) != Signed(x) + Signed(y) + carry
            <==> !FitsSigned(Signed(x) + Signed(y) + carry)
  {
    var total := x + y + carry;
    assert total % 0x1_0000_0000 == if total < 0x1_0000_0000 then total else total - 0x1_0000_0000;
  }

  /** Adding the complement and one less the borrow subtracts. */
  lemma SubtractIsDifference(c: X.Core, d: low, x: word, y: word, carry: bool)
    requires |c.gpr| == 16
    ensures Difference(c, WithArith(c, A.Add(ArithOf(c), d, x, Not32(y), carry)), d, x, y, 1 - BoolBit(carry))
  {
    AddIsSum(c, d, x, Not32(y), carry);
    Complemented(x, y, BoolBit(carry));
  }

  lemma Complemented(x: word, y: word, carry: nat)
    requires carry <= 1
    ensures (x + Not32(y) + carry) % 0x1_0000_0000 == (x - y - (1 - carry)) % 0x1_0000_0000
    ensures x + Not32(y) + carry >= 0x1_0000_0000 <==> x >= y + (1 - carry)
    ensures Signed(x) + Signed(Not32(y)) + carry == Signed(x) - Signed(y) - (1 - carry)
  {
    var v := x - y - (1 - carry);
    assert x + Not32(y) + carry == v + 0x1_0000_0000;
  }

  /** The three fields of a halfword with three low registers or a three-bit immediate */
  lemma ThreeFields(base: nat, d: nat, n: nat, m: nat)
    requires d < 8 && n < 8 && m < 8 && base % 0x200 == 0
    ensures var i := base + 0x40 * m + 8 * n + d;
            && i % 8 == d && i / 8 % 8 == n && i / 0x40 % 8 == m && i / 0x200 == base / 0x200 && i / 0x400 == base / 0x400
  {
    var i, q := base + 0x40 * m + 8 * n + d, base / 0x200;
    var low := 0x40 * m + 8 * n + d;
    DivModUnique(i, 8, 0x40 * q + 8 * m + n, d);
    DivModUnique(0x40 * q + 8 * m + n, 8, 8 * q + m, n);
    DivModUnique(i, 0x40, 8 * q + m, 8 * n + d);
    DivModUnique(8 * q + m, 8, q, m);
    DivModUnique(i, 0x200, q, low);
    DivModUnique(i, 0x400, q / 2, 0x200 * (q % 2) + low);
    DivModUnique(base, 0x400, q / 2, 0x200 * (q % 2));
  }

  lemma Executes(rest: Executor, insn: half, second: half, c: X.Core, r: A.Regs)
    requires |c.gpr| == 16 && Arithmetic(insn, c) == Some(r)
    ensures Execute(rest, insn, second, c) == WithArith(c, r)
  {
  }

  lemma AddsExecutes(rest: Executor, second: half, c: X.Core, d: low, n: low, m: low)
    requires |c.gpr| == 16
    ensures Execute(rest, 0x1800 + 0x40 * m + 8 * n + d, second, c) == WithArith(c, A.Adds(ArithOf(c), d, n, m))
  {
    ThreeFields(0x1800, d, n, m);
    Executes(rest, 0x1800 + 0x40 * m + 8 * n + d, second, c, A.Adds(ArithOf(c), d, n, m));
  }

  lemma SubsExecutes(rest: Executor, second: half, c: X.Core, d: low, n: low, m: low)
    requires |c.gpr| == 16
    ensures Execute(rest, 0x1A00 + 0x40 * m + 8 * n + d, second, c) == WithArith(c, A.Subs(ArithOf(c), d, n, m))
  {
    ThreeFields(0x1A00, d, n, m);
    Executes(rest, 0x1A00 + 0x40 * m + 8 * n + d, second, c, A.Subs(ArithOf(c), d, n, m));
  }

  lemma AddsRegister(rest: Executor, second: half, c: X.Core, d: low, n: low, m: low)
    requires |c.gpr| == 16
    ensures Sum(c, Execute(rest, 0x1800 + 0x40 * m + 8 * n + d, second, c), d, c.gpr[n], c.gpr[m], 0)
  {
    AddsExecutes(rest, second, c, d, n, m);
    AddIsSum(c, d, c.gpr[n], c.gpr[m], false);
  }

  lemma SubsRegister(rest: Executor, second: half, c: X.Core, d: low, n: low, m: low)
    requires |c.gpr| == 16
    ensures Difference(c, Execute(rest, 0x1A00 + 0x40 * m + 8 * n + d, second, c), d, c.gpr[n], c.gpr[m], 0)
  {
    SubsExecutes(rest, second, c, d, n, m);
    SubtractIsDifference(c, d, c.gpr[n], c.gpr[m], true);
  }

  lemma AddsSmall(rest: Executor, second: half, c: X.Core, d: low, n: low, imm: low)
    requires |c.gpr| == 16
    ensures Sum(c, Execute(rest, 0x1C00 + 0x40 * imm + 8 * n + d, second, c), d, c.gpr[n], imm, 0)
  {
    ThreeFields(0x1C00, d, n, imm);
    Executes(rest, 0x1C00 + 0x40 * imm + 8 * n + d, second, c, A.Add(ArithOf(c), d, c.gpr[n], imm, false));
    AddIsSum(c, d, c.gpr[n], imm, false);
  }

  lemma SubsSmall(rest: Executor, second: half, c: X.Core, d: low, n: low, imm: low)
    requires |c.gpr| == 16
    ensures Difference(c, Execute(rest, 0x1E00 + 0x40 * imm + 8 * n + d, second, c), d, c.gpr[n], imm, 0)
  {
    ThreeFields(0x1E00, d, n, imm);
    Executes(rest, 0x1E00 + 0x40 * imm + 8 * n + d, second, c, A.Add(ArithOf(c), d, c.gpr[n], Not32(imm), true));
    SubtractIsDifference(c, d, c.gpr[n], imm, true);
  }

  /** The fields of a halfword with a register and an eight-bit immediate */
  lemma WideFields(op: nat, d: nat, imm: nat)
    requires op % 2 == 0 && d < 8 && imm < 0x100
    ensures var i := 0x400 * op + 0x100 * d + imm;
            i % 0x100 == imm && i / 0x100 % 8 == d && i / 0x400 == op + d / 4 && i / 0x400 / 2 == op / 2
  {
    var i := 0x400 * op + 0x100 * d + imm;
    DivModUnique(i, 0x100, 8 * (op / 2) + d, imm);
    DivModUnique(i, 0x400, op + d / 4, 0x100 * (d % 4) + imm);
  }

  lemma AddsWide(rest: Executor, second: half, c: X.Core, d: low, imm: byte)
    requires |c.gpr| == 16
    ensures Sum(c, Execute(rest, 0x3000 + 0x100 * d + imm, second, c), d, c.gpr[d], imm, 0)
  {
    WideFields(12, d, imm);
    Executes(rest, 0x3000 + 0x100 * d + imm, second, c, A.Add(ArithOf(c), d, c.gpr[d], imm, false));
    AddIsSum(c, d, c.gpr[d], imm, false);
  }

  lemma SubsWide(rest: Executor, second: half, c: X.Core, d: low, imm: byte)
    requires |c.gpr| == 16
    ensures Difference(c, Execute(rest, 0x3800 + 0x100 * d + imm, second, c), d, c.gpr[d], imm, 0)
  {
    WideFields(14, d, imm);
    Executes(rest, 0x3800 + 0x100 * d + imm, second, c, A.Add(ArithOf(c), d, c.gpr[d], Not32(imm), true));
    SubtractIsDifference(c, d, c.gpr[d], imm, true);
  }

  /** The flags of x - y, and nothing else */
  ghost predicate Compares(c: X.Core, o: P.Outcome, x: word, y: word) {
    && o.Outcome? && !o.taken && o.core == c.(apsr := o.core.apsr)
    && FlagsAre(c.apsr, o.core.apsr, (x - y) % 0x1_0000_0000 >= 0x8000_0000, x == y, x >= y,
                !FitsSigned(Signed(x) - Signed(y)))
  }

  lemma CompareIsDifference(c: X.Core, x: word, y: word)
    requires |c.gpr| == 16
    ensures Compares(c, WithArith(c, A.Cmp(ArithOf(c), x, y)), x, y)
  {
    var sum := WithArith(c, A.Add(ArithOf(c), 0, x, Not32(y), true));
    SubtractIsDifference(c, 0, x, y, true);
    assert WithArith(c, A.Cmp(ArithOf(c), x, y)) == P.Outcome(c.(apsr := sum.core.apsr), false);
  }

  lemma CompareWide(rest: Executor, second: half, c: X.Core, n: low, imm: byte)
    requires |c.gpr| == 16
    ensures Compares(c, Execute(rest, 0x2800 + 0x100 * n + imm, second, c), c.gpr[n], imm)
  {
    WideFields(10, n, imm);
    Executes(rest, 0x2800 + 0x100 * n + imm, second, c, A.Cmp(ArithOf(c), c.gpr[n], imm));
    CompareIsDifference(c, c.gpr[n], imm);
  }

  /** The fields of a halfword of group 16 */
  lemma TwoFields(op: nat, d: nat, m: nat)
    requires op < 16 && d < 8 && m < 8
    ensures var i := 0x4000 + 0x40 * op + 8 * m + d;
            i % 8 == d && i / 8 % 8 == m && i / 0x40 % 16 == op && i / 0x400 == 16
  {
    var i := 0x4000 + 0x40 * op + 8 * m + d;
    assert i / 8 == 8 * (0x100 + op) + m;
    assert i / 0x40 == 0x100 + op;
  }

  lemma CompareRegister(rest: Executor, second: half, c: X.Core, n: low, m: low)
    requires |c.gpr| == 16
    ensures Compares(c, Execute(rest, 0x4280 + 8 * m + n, second, c), c.gpr[n], c.gpr[m])
  {
    TwoFields(10, n, m);
    Executes(rest, 0x4280 + 8 * m + n, second, c, A.Cmp(ArithOf(c), c.gpr[n], c.gpr[m]));
    CompareIsDifference(c, c.gpr[n], c.gpr[m]);
  }

  lemma AdcsExecutes(rest: Executor, second: half, c: X.Core, d: low, m: low)
    requires |c.gpr| == 16
    ensures Execute(rest, 0x4140 + 8 * m + d, second, c) == WithArith(c, A.Adcs(ArithOf(c), d, m))
  {
    TwoFields(5, d, m);
    Executes(rest, 0x4140 + 8 * m + d, second, c, A.Adcs(ArithOf(c), d, m));
  }

  lemma SbcsExecutes(rest: Executor, second: half, c: X.Core, d: low, m: low)
    requires |c.gpr| == 16
    ensures Execute(rest, 0x4180 + 8 * m + d, second, c) == WithArith(c, A.Sbcs(ArithOf(c), d, m))
  {
    TwoFields(6, d, m);
    Executes(rest, 0x4180 + 8 * m + d, second, c, A.Sbcs(ArithOf(c), d, m));
  }

  lemma AdcsRegister(rest: Executor, second: half, c: X.Core, d: low, m: low)
    requires |c.gpr| == 16
    ensures Sum(c, Execute(rest, 0x4140 + 8 * m + d, second, c), d, c.gpr[d], c.gpr[m], CarryIn(c))
  {
    AdcsExecutes(rest, second, c, d, m);
    AddIsSum(c, d, c.gpr[d], c.gpr[m], C.FlagsIn(c.apsr).c);
  }

  lemma SbcsRegister(rest: Executor, second: half, c: X.Core, d: low, m: low)
    requires |c.gpr| == 16
    ensures Difference(c, Execute(rest, 0x4180 + 8 * m + d, second, c), d, c.gpr[d], c.gpr[m], 1 - CarryIn(c))
  {
    SbcsExecutes(rest, second, c, d, m);
    SubtractIsDifference(c, d, c.gpr[d], c.gpr[m], C.FlagsIn(c.apsr).c);
  }

  lemma RsbsRegister(rest: Executor, second: half, c: X.Core, d: low, n: low)
    requires |c.gpr| == 16
    ensures Difference(c, Execute(rest, 0x4240 + 8 * n + d, second, c), d, 0, c.gpr[n], 0)
  {
    TwoFields(9, d, n);
    Executes(rest, 0x4240 + 8 * n + d, second, c, A.Add(ArithOf(c), d, 0, Not32(c.gpr[n]), true));
    SubtractIsDifference(c, d, 0, c.gpr[n], true);
  }

  // ---------------------------------------------------------------------------------------------
  // Numbers of several words

  datatype Ran = Ran(words: seq<word>, core: X.Core) | Lost

  /** Word by word: two words in R0 and R1, then the instruction `insn`, with the flags of the word before */
  function Chained(rest: Executor, insn: half, c: X.Core, xs: seq<word>, ys: seq<word>): (r: Ran)
    requires |c.gpr| == 16 && |xs| == |ys|
    decreases |xs|
  {
    if xs == [] then Ran([], c) else Prepended(rest, insn, insn, c, xs, ys)
  }

  /** `first` on the lowest words, `later` on the others */
  function Prepended(rest: Executor, first: half, later: half, c: X.Core, xs: seq<word>, ys: seq<word>): (r: Ran)
    requires |c.gpr| == 16 && |xs| == |ys| && xs != []
    decreases |xs|, 0
  {
    var o := Execute(rest, first, 0, c.(gpr := c.gpr[0 := xs[0]][1 := ys[0]]));
    if o.Ended? || |o.core.gpr| != 16 then Lost
    else
      match Chained(rest, later, o.core, xs[1..], ys[1..])
      case Ran(words, core) => Ran([o.core.gpr[0]] + words, core)
      case Lost => Lost
  }

  /** What such a run leaves: the words and flags of the chain of the same additions */
  ghost predicate RanAs(r: Ran, t: A.Chain) {
    && r.Ran? && |r.core.gpr| == 16 && r.words == t.words
    && C.FlagsIn(r.core.apsr) == t.regs.flags
  }

  lemma ArithBack(c: X.Core, r: A.Regs)
    requires |c.gpr| == |r.gpr| == 16
    ensures var o := WithArith(c, r); |o.core.gpr| == 16 && ArithOf(o.core) == r && !o.taken
  {
    JoinedExact(r.flags, c.apsr);
  }

  lemma {:induction false} ChainedAdds(rest: Executor, c: X.Core, xs: seq<word>, ys: seq<word>)
    requires |c.gpr| == 16 && |xs| == |ys|
    ensures RanAs(Chained(rest, 0x4148, c, xs, ys), A.AdcsChain(ArithOf(c), xs, ys))
    decreases |xs|
  {
    if xs != [] {
      var c' := c.(gpr := c.gpr[0 := xs[0]][1 := ys[0]]);
      AdcsExecutes(rest, 0, c', 0, 1);
      var r := A.Adcs(ArithOf(c'), 0, 1);
      ArithBack(c', r);
      ChainedAdds(rest, WithArith(c', r).core, xs[1..], ys[1..]);
    }
  }

  lemma {:induction false} ChainedSubtracts(rest: Executor, c: X.Core, xs: seq<word>, ys: seq<word>)
    requires |c.gpr| == 16 && |xs| == |ys|
    ensures RanAs(Chained(rest, 0x4188, c, xs, ys), A.SbcsChain(ArithOf(c), xs, ys))
    decreases |xs|
  {
    if xs != [] {
      var c' := c.(gpr := c.gpr[0 := xs[0]][1 := ys[0]]);
      SbcsExecutes(rest, 0, c', 0, 1);
      var r := A.Sbcs(ArithOf(c'), 0, 1);
      ArithBack(c', r);
      ChainedSubtracts(rest, WithArith(c', r).core, xs[1..], ys[1..]);
    }
  }

  lemma AddsThenAdcs(rest: Executor, c: X.Core, xs: seq<word>, ys: seq<word>)
    requires |c.gpr| == 16 && |xs| == |ys| && xs != []
    ensures RanAs(Prepended(rest, 0x1840, 0x4148, c, xs, ys), A.AddWords(ArithOf(c), xs, ys))
  {
    var c' := c.(gpr := c.gpr[0 := xs[0]][1 := ys[0]]);
    var s := A.Adds(ArithOf(c'), 0, 0, 1);
    assert ArithOf(c') == ArithOf(c).(gpr := c'.gpr);
    assert Execute(rest, 0x1840, 0, c') == WithArith(c', s) by { AddsExecutes(rest, 0, c', 0, 0, 1); }
    ArithBack(c', s);
    ChainedAdds(rest, WithArith(c', s).core, xs[1..], ys[1..]);
  }

  lemma SubsThenSbcs(rest: Executor, c: X.Core, xs: seq<word>, ys: seq<word>)
    requires |c.gpr| == 16 && |xs| == |ys| && xs != []
    ensures RanAs(Prepended(rest, 0x1A40, 0x4188, c, xs, ys), A.SubWords(ArithOf(c), xs, ys))
  {
    var c' := c.(gpr := c.gpr[0 := xs[0]][1 := ys[0]]);
    var s := A.Subs(ArithOf(c'), 0, 0, 1);
    assert ArithOf(c') == ArithOf(c).(gpr := c'.gpr);
    assert Execute(rest, 0x1A40, 0, c') == WithArith(c', s) by { SubsExecutes(rest, 0, c', 0, 0, 1); }
    ArithBack(c', s);
    ChainedSubtracts(rest, WithArith(c', s).core, xs[1..], ys[1..]);
  }

  /** The program ADDS R0, R0, R1 on the lowest words and ADCS R0, R1 on the others adds numbers of any
      length: the carry is the carry out of the sum, and V tells signed overflow. */
  lemma ProgramAdds(rest: Executor, c: X.Core, xs: seq<word>, ys: seq<word>)
    requires |c.gpr| == 16 && |xs| == |ys| && xs != []
    ensures var r := Prepended(rest, 0x1840, 0x4148, c, xs, ys);
            && r.Ran? && |r.words| == |xs|
            && A.Value(r.words) + (if CarryIn(r.core) == 1 then A.Base(|xs|) else 0) == A.Value(xs) + A.Value(ys)
            && (r.core.apsr / 0x1000_0000 % 2 == 1 <==> A.SValue(r.words) != A.SValue(xs) + A.SValue(ys))
  {
    AddsThenAdcs(rest, c, xs, ys);
    A.AddWordsExact(ArithOf(c), xs, ys);
  }

  /** SUBS R0, R0, R1 and then SBCS R0, R1 subtract; the carry is clear exactly on a borrow. */
  lemma ProgramSubtracts(rest: Executor, c: X.Core, xs: seq<word>, ys: seq<word>)
    requires |c.gpr| == 16 && |xs| == |ys| && xs != []
    ensures var r := Prepended(rest, 0x1A40, 0x4188, c, xs, ys);
            && r.Ran? && |r.words| == |xs|
            && A.Value(r.words) == A.Value(xs) - A.Value(ys) + (if CarryIn(r.core) == 1 then 0 else A.Base(|xs|))
            && (CarryIn(r.core) == 1 <==> A.Value(xs) >= A.Value(ys))
            && (r.core.apsr / 0x1000_0000 % 2 == 1 <==> A.SValue(r.words) != A.SValue(xs) - A.SValue(ys))
  {
    SubsThenSbcs(rest, c, xs, ys);
    A.SubWordsExact(ArithOf(c), xs, ys);
  }

  // ---------------------------------------------------------------------------------------------
  // Moves and branches

  /** The fields of a halfword with a four-bit register */
  lemma RegisterFields(op: nat, m: nat, low: nat)
    requires m < 16 && low < 8
    ensures var i := 0x80 * op + 8 * m + low;
            i % 8 == low && i / 8 % 16 == m && i / 0x80 == op && i / 0x100 == op / 2 && i / 0x400 == op / 8
  {
    var i, r := 0x80 * op + 8 * m + low, 8 * m + low;
    DivModUnique(i, 0x80, op, r);
    DivModUnique(i, 8, 0x10 * op + m, low);
    DivModUnique(0x10 * op + m, 0x10, op, m);
    DivModUnique(i, 0x100, op / 2, 0x80 * (op % 2) + r);
    DivModUnique(i, 0x400, op / 8, 0x80 * (op % 8) + r);
  }

  lemma NoArithmetic(insn: half, c: X.Core)
    requires |c.gpr| == 16 && insn >= 0x4400
    ensures Arithmetic(insn, c).None?
  {
  }

  /** MOV Rd, Rm for any two registers. Moving to the PC goes to the address, with the thumb bit set. */
  lemma MoveRegister(rest: Executor, second: half, c: X.Core, d: reg, m: reg)
    requires |c.gpr| == 16
    ensures Execute(rest, 0x4600 + 0x80 * (d / 8) + 8 * m + d % 8, second, c) ==
            if d < 15 then P.Outcome(c.(gpr := c.gpr[d := c.gpr[m]]), false)
            else P.Outcome(c.(gpr := c.gpr[15 := if c.gpr[m] % 2 == 1 then c.gpr[m] else c.gpr[m] + 1]), true)
  {
    var insn := 0x4600 + 0x80 * (d / 8) + 8 * m + d % 8;
    RegisterFields(0x8C + d / 8, m, d % 8);
    NoArithmetic(insn, c);
    assert Branch(insn, second, c) == Some(Moved(c, d, c.gpr[m]));
  }

  /** A branch by an even offset goes that far from the PC, which reads as the branch's own address + 4. */
  ghost predicate GoesBy(c: X.Core, o: P.Outcome, offset: int)
    requires |c.gpr| == 16
  {
    o == P.Outcome(c.(gpr := c.gpr[15 := (c.gpr[15] + offset) % 0x1_0000_0000]), true)
  }

  lemma BranchAlways(rest: Executor, second: half, c: X.Core, offset: int)
    requires |c.gpr| == 16 && -0x800 <= offset < 0x800 && offset % 2 == 0
    ensures GoesBy(c, Execute(rest, 0xE000 + offset / 2 % 0x800, second, c), offset)
  {
    var imm := offset / 2 % 0x800;
    var insn := 0xE000 + imm;
    assert imm == if offset < 0 then offset / 2 + 0x800 else offset / 2;
    NoArithmetic(insn, c);
    ShortBranch(insn, second, c, imm);
    Wraps(c.gpr[15], offset);
  }

  lemma ShortBranch(insn: half, second: half, c: X.Core, imm: nat)
    requires |c.gpr| == 16 && imm < 0x800 && insn == 0xE000 + imm
    ensures Branch(insn, second, c) == Some(Jump(c, B.SignExtended(2 * imm, 0x1000)))
  {
    assert insn / 0x400 == 56 + imm / 0x400 && insn % 0x800 == imm;
  }

  lemma Wraps(pc: word, offset: int)
    ensures (offset + 0x1_0000_0000 + pc) % 0x1_0000_0000 == (pc + offset) % 0x1_0000_0000
  {
  }

  lemma ConditionalBranch(insn: half, second: half, c: X.Core, cond: nat, imm: nat)
    requires |c.gpr| == 16 && cond < 14 && imm < 0x100
    requires insn / 0x100 == 0xD0 + cond && insn % 0x100 == imm && insn / 0x400 == 52 + cond / 4
    ensures Branch(insn, second, c) == Some(if A.Taken(cond, C.FlagsIn(c.apsr))
                                            then Jump(c, B.SignExtended(2 * imm, 0x200)) else P.Outcome(c, false))
  {
  }

  /** A conditional branch changes nothing at all when it is not taken. */
  lemma BranchIf(rest: Executor, second: half, c: X.Core, cond: nat, offset: int)
    requires |c.gpr| == 16 && cond < 14 && -0x100 <= offset < 0x100 && offset % 2 == 0
    ensures var o := Execute(rest, 0xD000 + 0x100 * cond + offset / 2 % 0x100, second, c);
            if A.Taken(cond, C.FlagsIn(c.apsr)) then GoesBy(c, o, offset) else o == P.Outcome(c, false)
  {
    var imm := offset / 2 % 0x100;
    var insn := 0xD000 + 0x100 * cond + imm;
    assert imm == if offset < 0 then offset / 2 + 0x100 else offset / 2;
    assert insn / 0x100 == 0xD0 + cond && insn % 0x100 == imm && insn / 0x400 == 52 + cond / 4;
    NoArithmetic(insn, c);
    ConditionalBranch(insn, second, c, cond, imm);
    Wraps(c.gpr[15], offset);
  }

  /** What each condition says after a comparison of x with y */
  predicate Ordered(cond: nat, x: word, y: word)
    requires cond < 14
  {
    match cond
    case 0 => x == y
    case 1 => x != y
    case 2 => x >= y
    case 3 => x < y
    case 4 => (x - y) % 0x1_0000_0000 >= 0x8000_0000
    case 5 => (x - y) % 0x1_0000_0000 < 0x8000_0000
    case 6 => !FitsSigned(Signed(x) - Signed(y))
    case 7 => FitsSigned(Signed(x) - Signed(y))
    case 8 => x > y
    case 9 => x <= y
    case 10 => Signed(x) >= Signed(y)
    case 11 => Signed(x) < Signed(y)
    case 12 => Signed(x) > Signed(y)
    case 13 => Signed(x) <= Signed(y)
  }

  lemma OrderedAfter(before: word, apsr: word, cond: nat, x: word, y: word)
    requires cond < 14
    requires FlagsAre(before, apsr, (x - y) % 0x1_0000_0000 >= 0x8000_0000, x == y, x >= y,
                      !FitsSigned(Signed(x) - Signed(y)))
    ensures A.Taken(cond, C.FlagsIn(apsr)) <==> Ordered(cond, x, y)
  {
    var v := x - y;
    assert v % 0x1_0000_0000 == if v >= 0 then v else v + 0x1_0000_0000;
    C.FlagsSplit(apsr);
  }

  /** CMP of two registers, then, on any core with the flags it left, a conditional branch: it is taken
      exactly if the operands are in the order the condition names, for all fourteen conditions. */
  lemma CompareAndBranch(rest: Executor, c: X.Core, n: low, m: low, b: X.Core, cond: nat, offset: int)
    requires |c.gpr| == |b.gpr| == 16 && cond < 14 && -0x100 <= offset < 0x100 && offset % 2 == 0
    requires var o := Execute(rest, 0x4280 + 8 * m + n, 0, c); o.Outcome? && o.core.apsr == b.apsr
    ensures var o := Execute(rest, 0xD000 + 0x100 * cond + offset / 2 % 0x100, 0, b);
            if Ordered(cond, c.gpr[n], c.gpr[m]) then GoesBy(b, o, offset) else o == P.Outcome(b, false)
  {
    CompareRegister(rest, 0, c, n, m);
    OrderedAfter(c.apsr, b.apsr, cond, c.gpr[n], c.gpr[m]);
    BranchIf(rest, 0, b, cond, offset);
  }

  lemma LinkBranch(rest: Executor, h: B.Halves, c: X.Core)
    requires |c.gpr| == 16 && B.IsBl(h)
    ensures Execute(rest, h.first, h.second, c) == P.Outcome(c.(gpr := B.Bl(c.gpr, B.BlImmediate(h))), true)
  {
    NoArithmetic(h.first, c);
    assert Branch(h.first, h.second, c) == Some(P.Outcome(c.(gpr := B.Bl(c.gpr, B.BlImmediate(h))), true));
  }

  /** BL: the offset is S:I1:I2:imm10:imm11:0 as a signed number, where J1 and J2 of the second half are I1
      and I2 when equal to S, inverted. LR is the PC the BL sees, its own address + 4. */
  lemma BranchWithLink(rest: Executor, c: X.Core, first: half, second: half, offset: int,
                       s: nat, i1: nat, i2: nat, imm10: nat, imm11: nat)
    requires |c.gpr| == 16 && s <= 1 && i1 <= 1 && i2 <= 1 && imm10 < 0x400 && imm11 < 0x800
    requires offset == -0x100_0000 * s + 0x80_0000 * i1 + 0x40_0000 * i2 + 0x1000 * imm10 + 2 * imm11
    requires first == 0xF000 + 0x400 * s + imm10
    requires second == 0xD000 + (if i1 == s then 0x2000 else 0) + (if i2 == s then 0x800 else 0) + imm11
    ensures Execute(rest, first, second, c) ==
            P.Outcome(c.(gpr := c.gpr[14 := c.gpr[15]][15 := (c.gpr[15] + offset) % 0x1_0000_0000]), true)
  {
    B.DecodesFields(s, i1, i2, imm10, imm11);
    assert B.EncodeFields(s, i1, i2, imm10, imm11) == B.Halves(first, second);
    LinkBranch(rest, B.Halves(first, second), c);
    Linked(c, s, i1 * 0x40_0000 + i2 * 0x20_0000 + imm10 * 0x800 + imm11, offset);
  }

  lemma Linked(c: X.Core, s: nat, tail: nat, offset: int)
    requires |c.gpr| == 16 && s <= 1 && tail < 0x80_0000 && offset == 2 * tail - 0x100_0000 * s
    ensures B.Bl(c.gpr, s * 0x80_0000 + tail) ==
            c.gpr[14 := c.gpr[15]][15 := (c.gpr[15] + offset) % 0x1_0000_0000]
  {
    Wraps(c.gpr[15], offset);
  }

  /** BX Rm: an even address ends the simulation. A value from 0xF0000000 up asks for an exception return,
      which ends it too unless the value is one of three and SP points to a frame in memory. */
  lemma BranchToRegister(rest: Executor, second: half, c: X.Core, m: reg)
    requires |c.gpr| == 16
    ensures var o, v, sp := Execute(rest, 0x4700 + 8 * m, second, c), c.gpr[m], c.gpr[13];
            && (v % 2 == 0 ==> o == P.Ended)
            && (v % 2 == 1 && v < 0xF000_0000 ==> o == P.Outcome(c.(gpr := c.gpr[15 := v]), true))
            && (v % 2 == 1 && v >= 0xF000_0000 ==>
                  if v in {0xFFFF_FFF1, 0xFFFF_FFF9, 0xFFFF_FFFD} && sp % 8 == 0 && sp < 0xFFFF_FFE0 && sp / 4 + 8 <= |c.mem|
                  then o == P.Outcome(X.Return(c, v), true) else o == P.Ended)
  {
    RegisterFields(0x8E, m, 0);
    NoArithmetic(0x4700 + 8 * m, c);
    assert Branch(0x4700 + 8 * m, second, c) == Some(Exchanged(c, B.Bx(c.gpr, m)));
  }

  /** BLX Rm: LR is the address of the next instruction, the PC less two. */
  lemma CallRegister(rest: Executor, second: half, c: X.Core, m: reg)
    requires |c.gpr| == 16
    ensures var o, v := Execute(rest, 0x4780 + 8 * m, second, c), c.gpr[m];
            o == if v % 2 == 0 then P.Ended
                 else P.Outcome(c.(gpr := c.gpr[14 := if c.gpr[15] >= 2 then c.gpr[15] - 2 else c.gpr[15] + 0xFFFF_FFFE]
                                               [15 := v]), true)
  {
    RegisterFields(0x8F, m, 0);
    NoArithmetic(0x4780 + 8 * m, c);
    assert Branch(0x4780 + 8 * m, second, c) == Some(Exchanged(c, B.Blx(c.gpr, m)));
  }

  // ---------------------------------------------------------------------------------------------
  // Loads and stores of several registers

  /** Number of registers of the list below register `k` */
  function Below(list: nat, k: nat): (n: nat)
    ensures n <= k
    decreases k, list
  {
    if k == 0 then 0 else Below(list, k - 1) + (if Bit(list, k - 1) then 1 else 0)
  }

  /** Number of words PUSH and POP move: bit 8 of the list is one more register. */
  function Moves(list: listbits): nat {
    Below(list, 8) + list / 0x100
  }

  lemma {:induction false} ListedAt(list: nat, k: nat, x: nat)
    requires x < k <= 16
    ensures |Listed(list, 0, k)| == Below(list, k)
    ensures Bit(list, x) ==> Below(list, x) < Below(list, k) && Listed(list, 0, k)[Below(list, x)] == x
    decreases k
  {
    if x < k - 1 {
      ListedAt(list, k - 1, x);
    } else if x > 0 {
      ListedAt(list, x, x - 1);
    }
  }

  /** `after` holds register `x` where the list has it: above the listed registers below it, from word `at` up. */
  predicate HoldsAt(after: seq<word>, at: nat, list: nat, gpr: seq<word>, x: low)
    requires |gpr| == 16
  {
    at + Below(list, x) < |after| && after[at + Below(list, x)] == gpr[x]
  }

  ghost predicate Holds(after: seq<word>, at: nat, list: nat, gpr: seq<word>)
    requires |gpr| == 16
  {
    forall x: low | Bit(list, x) :: HoldsAt(after, at, list, gpr, x)
  }

  ghost predicate SameOutside(before: seq<word>, after: seq<word>, at: nat, n: nat) {
    |after| == |before| && forall i | 0 <= i < |before| && !(at <= i < at + n) :: after[i] == before[i]
  }

  lemma StoredHolds(mem: seq<word>, at: nat, list: nat, more: seq<reg>, gpr: seq<word>)
    requires |gpr| == 16 && at + Below(list, 8) + |more| <= |mem|
    ensures |Listed(list, 0, 8)| == Below(list, 8)
    ensures var after := StoreWords(mem, at, Values(gpr, Listed(list, 0, 8) + more));
            Holds(after, at, list, gpr) && SameOutside(mem, after, at, Below(list, 8) + |more|)
  {
    ListedAt(list, 8, 0);
    var regs := Listed(list, 0, 8) + more;
    var after := StoreWords(mem, at, Values(gpr, regs));
    forall x: low | Bit(list, x)
      ensures HoldsAt(after, at, list, gpr, x)
    {
      ListedAt(list, 8, x);
      StoredAt(mem, at, regs, gpr, Below(list, x));
    }
  }

  lemma StoredAt(mem: seq<word>, at: nat, regs: seq<reg>, gpr: seq<word>, i: nat)
    requires |gpr| == 16 && at + |regs| <= |mem| && i < |regs|
    ensures StoreWords(mem, at, Values(gpr, regs))[at + i] == gpr[regs[i]]
  {
  }

  lemma NoBranch(insn: half, second: half, c: X.Core)
    requires |c.gpr| == 16 && 0xB400 <= insn < 0xD000
    ensures Arithmetic(insn, c).None? && Branch(insn, second, c).None?
  {
  }

  lemma TransferExecutes(rest: Executor, insn: half, second: half, c: X.Core, o: P.Outcome)
    requires |c.gpr| == 16 && 0xB400 <= insn < 0xD000 && Transfer(insn, c) == Some(o)
    ensures Execute(rest, insn, second, c) == o
  {
    NoBranch(insn, second, c);
  }

  /** Register `b` becomes `base`, the list is stored from word `at` up, and no word but those `n` changes. */
  ghost predicate Stores(c: X.Core, o: P.Outcome, b: reg, base: word, at: nat, n: nat, list: nat)
    requires |c.gpr| == 16
  {
    && o.Outcome? && !o.taken && o.core == c.(gpr := c.gpr[b := base], mem := o.core.mem)
    && Holds(o.core.mem, at, list, c.gpr) && SameOutside(c.mem, o.core.mem, at, n)
  }

  lemma PushExecutes(rest: Executor, insn: half, second: half, c: X.Core, list: listbits)
    requires |c.gpr| == 16 && insn == 0xB400 + list
    ensures var s := X.StateOf(c);
            Execute(rest, insn, second, c) == if PushFits(s, list) then Stored(c, Some(Push(s, list))) else P.Ended
  {
    var s := X.StateOf(c);
    DivModUnique(insn, 0x200, 0x5A, list);
    TransferExecutes(rest, insn, second, c, if PushFits(s, list) then Stored(c, Some(Push(s, list))) else P.Ended);
  }

  lemma PushIsBlock(c: X.Core, list: listbits)
    requires |c.gpr| == 16
    ensures var n, sp, s := Moves(list), c.gpr[13], X.StateOf(c);
            && (PushFits(s, list) <==> sp % 4 == 0 && n <= sp / 4 <= |c.mem|)
            && (PushFits(s, list) ==>
                  var o := Stored(c, Some(Push(s, list)));
                  && Stores(c, o, 13, sp - 4 * n, sp / 4 - n, n, list)
                  && (list >= 0x100 ==> o.core.mem[sp / 4 - 1] == c.gpr[14]))
  {
    var s, sp, n := X.StateOf(c), c.gpr[13], Moves(list);
    var more: seq<reg> := if list >= 0x100 then [14] else [];
    ListedAt(list, 8, 0);
    assert PushRegs(list) == Listed(list, 0, 8) + more && |PushRegs(list)| == n;
    if PushFits(s, list) {
      StoredHolds(c.mem, sp / 4 - n, list, more, c.gpr);
    }
  }

  /** PUSH: bit 8 of the list is LR, which goes above the others. */
  ghost predicate Pushes(c: X.Core, o: P.Outcome, list: listbits)
    requires |c.gpr| == 16
  {
    var n, sp := Moves(list), c.gpr[13];
    if sp % 4 != 0 || sp / 4 < n || sp / 4 > |c.mem| then o == P.Ended
    else
      && Stores(c, o, 13, sp - 4 * n, sp / 4 - n, n, list)
      && (list >= 0x100 ==> o.core.mem[sp / 4 - 1] == c.gpr[14])
  }

  lemma PushOutcome(c: X.Core, o: P.Outcome, list: listbits)
    requires |c.gpr| == 16
    requires var s := X.StateOf(c); o == if PushFits(s, list) then Stored(c, Some(Push(s, list))) else P.Ended
    ensures Pushes(c, o, list)
  {
    PushIsBlock(c, list);
  }

  lemma PushStores(rest: Executor, second: half, c: X.Core, list: listbits)
    requires |c.gpr| == 16
    ensures Pushes(c, Execute(rest, 0xB400 + list, second, c), list)
  {
    PushExecutes(rest, 0xB400 + list, second, c, list);
    PushOutcome(c, Execute(rest, 0xB400 + list, second, c), list);
  }

  lemma StmTransfer(insn: half, c: X.Core, list: lowlist, b: low)
    requires |c.gpr| == 16 && insn == 0xC000 + 0x100 * b + list
    ensures var s := X.StateOf(c);
            Transfer(insn, c) ==
            Some(if StmMalformed(list, b) || BlockFits(s, list, b) then Stored(c, Stm(s, list, b)) else P.Ended)
  {
    WideFields(48, b, list);
    DivModUnique(insn, 0x800, 0x18, 0x100 * b + list);
    assert insn / 0x200 >= 0x60;
  }

  lemma LdmTransfer(insn: half, c: X.Core, list: lowlist, b: low)
    requires |c.gpr| == 16 && insn == 0xC800 + 0x100 * b + list
    ensures var s := X.StateOf(c);
            Transfer(insn, c) == Some(if BlockFits(s, list, b) then Stored(c, Some(Ldm(s, list, b))) else P.Ended)
  {
    WideFields(50, b, list);
    DivModUnique(insn, 0x800, 0x19, 0x100 * b + list);
    assert insn / 0x200 >= 0x60;
  }

  lemma BlockFitsExact(c: X.Core, list: lowlist, b: low)
    requires |c.gpr| == 16
    ensures var n, at := Below(list, 8), c.gpr[b];
            BlockFits(X.StateOf(c), list, b) <==> at % 4 == 0 && at / 4 + n <= |c.mem| && at + 4 * n < 0x1_0000_0000
  {
    ListedAt(list, 8, 0);
  }

  lemma StmIsBlock(c: X.Core, list: lowlist, b: low)
    requires |c.gpr| == 16 && BlockFits(X.StateOf(c), list, b) && !StmMalformed(list, b)
    ensures Below(list, 8) == |Listed(list, 0, 8)|
    ensures Stores(c, Stored(c, Stm(X.StateOf(c), list, b)), b, c.gpr[b] + 4 * Below(list, 8), c.gpr[b] / 4, Below(list, 8), list)
  {
    ListedAt(list, 8, 0);
    assert Listed(list, 0, 8) + [] == Listed(list, 0, 8);
    StoredHolds(c.mem, c.gpr[b] / 4, list, [], c.gpr);
  }

  /** STM: refused when the base is the lowest of the list; the base ends past the block. */
  ghost predicate StoresMultiple(c: X.Core, o: P.Outcome, list: lowlist, b: low)
    requires |c.gpr| == 16
  {
    var n, at := Below(list, 8), c.gpr[b];
    if (Bit(list, b) && Below(list, b) == 0) || at % 4 != 0 || at / 4 + n > |c.mem| || at + 4 * n >= 0x1_0000_0000
    then o == P.Ended
    else Stores(c, o, b, at + 4 * n, at / 4, n, list)
  }

  lemma StmOutcome(c: X.Core, o: P.Outcome, list: lowlist, b: low)
    requires |c.gpr| == 16
    requires var s := X.StateOf(c);
             o == if StmMalformed(list, b) || BlockFits(s, list, b) then Stored(c, Stm(s, list, b)) else P.Ended
    ensures StoresMultiple(c, o, list, b)
  {
    BlockFitsExact(c, list, b);
    Refused(list, b);
    if BlockFits(X.StateOf(c), list, b) && !StmMalformed(list, b) {
      StmIsBlock(c, list, b);
    }
  }

  lemma StmStores(rest: Executor, second: half, c: X.Core, list: lowlist, b: low)
    requires |c.gpr| == 16
    ensures StoresMultiple(c, Execute(rest, 0xC000 + 0x100 * b + list, second, c), list, b)
  {
    var insn := 0xC000 + 0x100 * b + list;
    StmTransfer(insn, c, list, b);
    var o := Transfer(insn, c).value;
    TransferExecutes(rest, insn, second, c, o);
    StmOutcome(c, o, list, b);
  }

  lemma Refused(list: lowlist, b: low)
    ensures StmMalformed(list, b) <==> Bit(list, b) && Below(list, b) == 0
  {
    LowestListed(list, 8, b);
    NoneBelow(list, b);
  }

  lemma {:induction false} NoneBelow(list: nat, k: nat)
    ensures Below(list, k) == 0 <==> forall i | 0 <= i < k :: !Bit(list, i)
  {
    if k > 0 {
      var top := k - 1;
      NoneBelow(list, top);
      assert Below(list, k) == Below(list, top) + (if Bit(list, top) then 1 else 0);
      forall i | 0 <= i < k && Below(list, k) == 0
        ensures !Bit(list, i)
      {
        if i == top {
          assert !Bit(list, top);
        }
      }
    }
  }

  /** The registers of the list come from word `at` up, and the other low registers stay. */
  ghost predicate Loads(before: seq<word>, after: seq<word>, mem: seq<word>, at: nat, list: nat, x: low)
    requires |before| == |after| == 16
  {
    if Bit(list, x) then at + Below(list, x) < |mem| && after[x] == mem[at + Below(list, x)] else after[x] == before[x]
  }

  lemma SetLoads(gpr: seq<word>, mem: seq<word>, at: nat, list: nat, more: seq<reg>, r: reg)
    requires |gpr| == 16 && at + Below(list, 8) + |more| <= |mem| && (more == [] || more == [15])
    ensures |Listed(list, 0, 8)| == Below(list, 8)
    ensures var regs := Listed(list, 0, 8) + more;
            var after := SetRegs(gpr, regs, mem[at..at + |regs|]);
            && (r < 8 ==> Loads(gpr, after, mem, at, list, r))
            && (8 <= r < 15 ==> after[r] == gpr[r])
            && after[15] == if more == [] then gpr[15] else mem[at + Below(list, 8)]
  {
    var regs := Listed(list, 0, 8) + more;
    ListedAt(list, 8, if r < 8 then r else 0);
    ListedMembers(list, 0, 8);
    var values := mem[at..at + |regs|];
    assert Distinct(regs);
    SetRegsAt(gpr, regs, values, r);
    SetRegsAt(gpr, regs, values, 15);
    if r < 8 && Bit(list, r) {
      assert regs[Below(list, r)] == r;
    }
    if more == [15] {
      assert regs[Below(list, 8)] == 15;
    }
  }

  /** What LDM loads: the base ends past the block unless it is itself loaded. */
  ghost predicate LoadsBlock(c: X.Core, after: seq<word>, list: lowlist, b: low, r: reg)
    requires |c.gpr| == |after| == 16 && c.gpr[b] / 4 + Below(list, 8) <= |c.mem|
  {
    if r == b && !Bit(list, b) then after[r] == c.gpr[b] + 4 * Below(list, 8)
    else if r < 8 then Loads(c.gpr, after, c.mem, c.gpr[b] / 4, list, r)
    else after[r] == c.gpr[r]
  }

  lemma LdmIsBlock(c: X.Core, list: lowlist, b: low, r: reg)
    requires |c.gpr| == 16 && BlockFits(X.StateOf(c), list, b)
    ensures Below(list, 8) == |Listed(list, 0, 8)|
    ensures var t := Ldm(X.StateOf(c), list, b); t.mem == c.mem && LoadsBlock(c, t.gpr, list, b, r)
  {
    ListedAt(list, 8, 0);
    assert Listed(list, 0, 8) + [] == Listed(list, 0, 8);
    SetLoads(c.gpr, c.mem, c.gpr[b] / 4, list, [], r);
  }

  ghost predicate LoadsMultiple(c: X.Core, o: P.Outcome, list: lowlist, b: low, r: reg)
    requires |c.gpr| == 16
  {
    var n, at := Below(list, 8), c.gpr[b];
    if at % 4 != 0 || at / 4 + n > |c.mem| || at + 4 * n >= 0x1_0000_0000 then o == P.Ended
    else
      && o.Outcome? && !o.taken && o.core == c.(gpr := o.core.gpr) && |o.core.gpr| == 16
      && LoadsBlock(c, o.core.gpr, list, b, r)
  }

  lemma LdmOutcome(c: X.Core, o: P.Outcome, list: lowlist, b: low, r: reg)
    requires |c.gpr| == 16
    requires var s := X.StateOf(c); o == if BlockFits(s, list, b) then Stored(c, Some(Ldm(s, list, b))) else P.Ended
    ensures LoadsMultiple(c, o, list, b, r)
  {
    BlockFitsExact(c, list, b);
    if BlockFits(X.StateOf(c), list, b) {
      LdmIsBlock(c, list, b, r);
    }
  }

  lemma LdmLoads(rest: Executor, second: half, c: X.Core, list: lowlist, b: low, r: reg)
    requires |c.gpr| == 16
    ensures LoadsMultiple(c, Execute(rest, 0xC800 + 0x100 * b + list, second, c), list, b, r)
  {
    var insn := 0xC800 + 0x100 * b + list;
    LdmTransfer(insn, c, list, b);
    var o := Transfer(insn, c).value;
    TransferExecutes(rest, insn, second, c, o);
    LdmOutcome(c, o, list, b, r);
  }

  /** What POP loads: bit 8 of the list is the PC, from above the others, and SP moves past them. */
  ghost predicate Pops(c: X.Core, after: seq<word>, list: listbits, r: reg)
    requires |c.gpr| == |after| == 16
    requires c.gpr[13] / 4 + Moves(list) <= |c.mem|
  {
    var sp := c.gpr[13];
    if r < 8 then Loads(c.gpr, after, c.mem, sp / 4, list, r)
    else if r == 13 then after[r] == sp + 4 * Moves(list)
    else if r == 15 && list >= 0x100 then after[r] == c.mem[sp / 4 + Below(list, 8)]
    else after[r] == c.gpr[r]
  }

  lemma PopWordsLoads(c: X.Core, list: listbits, r: reg)
    requires |c.gpr| == 16
    ensures |PopRegs(list)| == Moves(list)
    ensures PopFits(X.StateOf(c), list) ==>
              var s := PopWords(X.StateOf(c), list); s.mem == c.mem && Pops(c, s.gpr, list, r)
  {
    var more: seq<reg> := if list >= 0x100 then [15] else [];
    ListedAt(list, 8, 0);
    assert PopRegs(list) == Listed(list, 0, 8) + more;
    if PopFits(X.StateOf(c), list) {
      SetLoads(c.gpr, c.mem, c.gpr[13] / 4, list, more, r);
    }
  }

  /** POP: a value from 0xF0000000 up that reaches the PC asks for an exception return, on the core with
      everything popped. */
  lemma PopLoads(rest: Executor, second: half, c: X.Core, list: listbits, r: reg)
    requires |c.gpr| == 16
    ensures var o, n, sp := Execute(rest, 0xBC00 + list, second, c), Moves(list), c.gpr[13];
            if sp % 4 != 0 || sp / 4 + n > |c.mem| || sp + 4 * n >= 0x1_0000_0000 then o == P.Ended
            else if list >= 0x100 && c.mem[sp / 4 + Below(list, 8)] >= 0xF000_0000 then
              exists p: X.Core :: |p.gpr| == 16 && p == c.(gpr := p.gpr) && Pops(c, p.gpr, list, r) && Leaving(p, o)
            else
              && o.Outcome? && (o.taken <==> list >= 0x100)
              && o.core == c.(gpr := o.core.gpr) && |o.core.gpr| == 16 && Pops(c, o.core.gpr, list, r)
  {
    var s, insn := X.StateOf(c), 0xBC00 + list;
    NoBranch(insn, second, c);
    assert insn / 0x200 == 0x5E && insn % 0x200 == list;
    assert Transfer(insn, c) == Some(Popped(c, list));
    PopWordsLoads(c, list, r);
    PopWordsLoads(c, list, 15);
    if PopFits(s, list) {
      var p := X.WithState(c, PopWords(s, list));
      assert p == c.(gpr := p.gpr);
      if list >= 0x100 && IsExceptionReturn(p.gpr[15]) {
        assert Leaving(p, Popped(c, list));
      }
    }
  }

  /** The exception return that the PC of `p` asks for */
  ghost predicate Leaving(p: X.Core, o: P.Outcome)
    requires |p.gpr| == 16
  {
    var v, sp := p.gpr[15], p.gpr[13];
    if v in {0xFFFF_FFF1, 0xFFFF_FFF9, 0xFFFF_FFFD} && sp % 8 == 0 && sp < 0xFFFF_FFE0 && sp / 4 + 8 <= |p.mem|
    then o == P.Outcome(X.Return(p, v), true) else o == P.Ended
  }
}

/** Branches with link on the Cortex-M0: decoding of the 32-bit BL, its target, and the return address. */
module M0Branch {
  import opened Bits
  import opened M0Stack

  // ---------------------------------------------------------------------------------------------
  // BL as two halfwords

  datatype Halves = Halves(first: half, second: half)

  /** `~(J ^ S) & 1` */
  function Inverted(j: nat, s: nat): (i: nat)
    requires j <= 1 && s <= 1
    ensures i <= 1
  {
    if j == s then 1 else 0
  }

  /** The decoder recognises BL by the five high bits of the first half and bits 15, 14 and 12 of the
      second. */
  predicate IsBl(h: Halves) {
    h.first / 0x800 == 30 && h.second / 0x4000 == 3 && h.second / 0x1000 % 2 == 1
  }

  /** S, I1, I2, imm10 and imm11 in one number of 24 bits */
  function BlImmediate(h: Halves): (imm: nat)
    ensures imm < 0x100_0000
  {
    var s, j1, j2 := h.first / 0x400 % 2, h.second / 0x2000 % 2, h.second / 0x800 % 2;
    s * 0x80_0000 + Inverted(j1, s) * 0x40_0000 + Inverted(j2, s) * 0x20_0000
    + h.first % 0x400 * 0x800 + h.second % 0x800
  }

  /** The bits from `n` up set, modulo the word, if the highest of the `n` bits of `x` is; `p` is the value
      of bit `n`. */
  function SignExtended(x: nat, p: nat): int
    requires 0 < p <= TWO32 && x < p
  {
    if x >= p / 2 then x + (TWO32 - p) else x
  }

  // ---------------------------------------------------------------------------------------------
  // The same by shifts and masks

  /** `wholeInsn & BLMASK` against `BLOP` */
  predicate MatchesBl(h: Halves) {
    And(Or(Shl(h.first, 16), h.second), 0xF800_D000) == 0xF000_D000
  }

  /** `decode_bl` */
  function DecodeBl(h: Halves): nat {
    var s, j1, j2 := And(Shr(h.first, 10), 1), And(Shr(h.second, 13), 1), And(Shr(h.second, 11), 1);
    var i1, i2 := And(Not32(Xor(j1, s)), 1), And(Not32(Xor(j2, s)), 1);
    var imm10, imm11 := And(h.first, 0x3FF), And(h.second, 0x7FF);
    Or(Or(Or(Or(Shl(s, 23), Shl(i1, 22)), Shl(i2, 21)), Shl(imm10, 11)), imm11)
  }

  /** `signExtend32` */
  function SignExtend32(x: word, n: nat): (r: nat)
    requires 1 <= n <= 32
  {
    if And(Shr(x, n - 1), 1) != 0 then Or(Shl(0xFFFF_FFFF, n) % TWO32, x) else x
  }

  /** `decoded.imm << 1` */
  function Double(imm: nat): (r: word)
    requires imm < 0x8000_0000
    ensures r == 2 * imm
  {
    assert Shl(imm, 1) == 2 * Shl(imm, 0);
    Shl(imm, 1)
  }

  lemma OneBit(x: nat, k: nat, p: nat)
    requires p == Pow2(k)
    ensures And(Shr(x, k), 1) == x / p % 2
  {
    var n := 1;
    Pow2Constants();
    AndMask(Shr(x, k), n);
    ShrLowAreDivMod(x, k);
  }

  lemma LowBits(x: nat, k: nat, p: nat)
    requires p == Pow2(k)
    ensures And(x, p - 1) == x % p
  {
    AndMask(x, k);
    ShrLowAreDivMod(x, k);
  }

  lemma InvertedMask(j: nat, s: nat)
    requires j <= 1 && s <= 1
    ensures Xor(j, s) <= 1 && And(Not32(Xor(j, s)), 1) == Inverted(j, s)
  {
    Pow2Constants();
    assert Xor(j, s) == if j == s then 0 else 1;
    LowBits(Not32(Xor(j, s)), 1, 2);
  }

  lemma TopBitsJoin(s: nat, i1: nat, i2: nat)
    requires s <= 1 && i1 <= 1 && i2 <= 1
    ensures Or(Or(Shl(s, 23), Shl(i1, 22)), Shl(i2, 21)) == Shl(4 * s + 2 * i1 + i2, 21)
  {
    var x := 2 * s + i1;
    assert Or(Shl(s, 23), Shl(i1, 22)) == Shl(x, 22) by { OneMoreBit(s, i1, 22); }
    OneMoreBit(x, i2, 21);
  }

  lemma OneMoreBit(hi: nat, d: nat, k: nat)
    requires d <= 1
    ensures Or(Shl(hi, k + 1), Shl(d, k)) == Shl(2 * hi + d, k)
  {
    var one := 1;
    Pow2Constants();
    ShlIsProduct(hi, one);
    OrNext(hi, d, k, one);
  }

  lemma LowFieldsJoin(y: nat, imm10: nat, imm11: nat)
    requires imm10 < 0x400 && imm11 < 0x800
    ensures Or(Or(Shl(y, 21), Shl(imm10, 11)), imm11) == (y * 0x400 + imm10) * 0x800 + imm11
  {
    var ten, eleven, z := 10, 11, y * 0x400 + imm10;
    assert Or(Shl(y, 21), Shl(imm10, 11)) == Shl(z, eleven) by {
      Pow2Constants();
      ShlIsProduct(y, ten);
      OrNext(y, imm10, eleven, ten);
    }
    assert Or(Shl(z, eleven), imm11) == z * 0x800 + imm11 by {
      Pow2Eleven();
      OrDisjoint(z, imm11, eleven);
      ShlIsProduct(z, eleven);
    }
  }

  /** Five fields put together, from the highest */
  lemma FieldsJoin(s: nat, i1: nat, i2: nat, imm10: nat, imm11: nat)
    requires s <= 1 && i1 <= 1 && i2 <= 1 && imm10 < 0x400 && imm11 < 0x800
    ensures Or(Or(Or(Or(Shl(s, 23), Shl(i1, 22)), Shl(i2, 21)), Shl(imm10, 11)), imm11)
            == s * 0x80_0000 + i1 * 0x40_0000 + i2 * 0x20_0000 + imm10 * 0x800 + imm11
  {
    var top, y := Or(Or(Shl(s, 23), Shl(i1, 22)), Shl(i2, 21)), 4 * s + 2 * i1 + i2;
    assert top == Shl(y, 21) by { TopBitsJoin(s, i1, i2); }
    assert Or(Or(Shl(y, 21), Shl(imm10, 11)), imm11) == (y * 0x400 + imm10) * 0x800 + imm11 by {
      LowFieldsJoin(y, imm10, imm11);
    }
  }

  lemma Pow2Eleven()
    ensures Pow2(11) == 0x800 && Pow2(12) == 0x1000 && Pow2(13) == 0x2000
  {
    Pow2Constants();
    assert Pow2(11) == 2 * Pow2(10);
    assert Pow2(12) == 2 * Pow2(11);
    assert Pow2(13) == 2 * Pow2(12);
  }

  /** The shifts and masks of the decoder give the immediate. */
  lemma DecodesBl(h: Halves)
    ensures DecodeBl(h) == BlImmediate(h)
  {
    Pow2Constants();
    Pow2Eleven();
    OneBit(h.first, 10, 0x400);
    OneBit(h.second, 13, 0x2000);
    OneBit(h.second, 11, 0x800);
    var s, j1, j2 := h.first / 0x400 % 2, h.second / 0x2000 % 2, h.second / 0x800 % 2;
    InvertedMask(j1, s);
    InvertedMask(j2, s);
    LowBits(h.first, 10, 0x400);
    LowBits(h.second, 11, 0x800);
    FieldsJoin(s, Inverted(j1, s), Inverted(j2, s), h.first % 0x400, h.second % 0x800);
  }

  lemma AndThirteen(q: nat)
    requires q < 16
    ensures And(q, 13) == 13 <==> q / 4 == 3 && q % 2 == 1
  {
    assert And(q / 8, 1) == if q / 8 == 1 then 1 else 0;
    assert And(q / 4, 3) == (if q / 4 % 2 == 1 then 1 else 0) + 2 * And(q / 8, 1);
    assert And(q / 2, 6) == 2 * And(q / 4, 3);
  }

  lemma FirstMask(first: half)
    ensures And(first, 0xF800) == first - first % 0x800
  {
    var k, w := 11, 16;
    Pow2Constants();
    Pow2Eleven();
    AndHighMask(first, k, w);
    ShrLowAreDivMod(first, k);
  }

  lemma SecondMask(second: half)
    ensures And(second, 0xD000) == And(second / 0x1000, 13) * 0x1000
  {
    var k := 12;
    Pow2Eleven();
    ShlIsProduct(13, k);
    AndShifted(second, 13, k);
    ShrLowAreDivMod(second, k);
    ShlIsProduct(And(Shr(second, k), 13), k);
  }

  lemma SecondBits(second: half)
    ensures And(second, 0xD000) == 0xD000 <==> second / 0x4000 == 3 && second / 0x1000 % 2 == 1
  {
    var q := second / 0x1000;
    SecondMask(second);
    AndThirteen(q);
    DivDiv(second);
  }

  lemma DivDiv(x: nat)
    ensures x / 0x1000 / 4 == x / 0x4000
  {
  }

  lemma FirstBits(first: half)
    ensures And(first, 0xF800) == 0xF000 <==> first / 0x800 == 30
  {
    FirstMask(first);
  }

  /** A mask on two fields together is a mask on each. */
  lemma MaskBoth(a: nat, b: nat, c: nat, d: nat, k: nat)
    requires b < Pow2(k) && d < Pow2(k)
    ensures And(Or(Shl(a, k), b), Shl(c, k) + d) == Shl(And(a, c), k) + And(b, d)
  {
    var x, y := Or(Shl(a, k), b), Shl(c, k) + d;
    assert Shr(x, k) == a && Low(x, k) == b by {
      OrDisjoint(a, b, k);
      SplitUnique(a, b, k);
    }
    assert Shr(y, k) == c && Low(y, k) == d by { SplitUnique(c, d, k); }
    AndConcat(x, y, k);
  }

  lemma WholeMask(first: half, second: half)
    ensures And(Or(Shl(first, 16), second), 0xF800_D000) == And(first, 0xF800) * 0x1_0000 + And(second, 0xD000)
  {
    var k, hi, lo: nat := 16, 0xF800, 0xD000;
    Pow2Constants();
    MaskBoth(first, second, hi, lo, k);
    assert Shl(hi, k) + lo == 0xF800_D000 by { ShlIsProduct(hi, k); }
    ShlIsProduct(And(first, hi), k);
  }

  /** The mask recognises exactly the halves with the bits of BL. */
  lemma MatchesBlExact(h: Halves)
    ensures MatchesBl(h) <==> IsBl(h)
  {
    var a, b := And(h.first, 0xF800), And(h.second, 0xD000);
    WholeMask(h.first, h.second);
    FirstBits(h.first);
    SecondBits(h.second);
    assert a * 0x1_0000 + b == 0xF000_D000 <==> a == 0xF000 && b == 0xD000;
  }

  /** `~0u << n`, in 32 bits */
  lemma OnesAbove(n: nat, p: nat)
    requires 1 <= n <= 32 && p == Pow2(n) <= TWO32
    ensures Shl(0xFFFF_FFFF, n) % TWO32 == TWO32 - p
  {
    var ones: nat := TWO32 - 1;
    ShlIsProduct(ones, n);
    assert ones * p == (p - 1) * TWO32 + (TWO32 - p);
    DivModUnique(ones * p, TWO32, p - 1, TWO32 - p);
  }

  /** The macro sets the bits above the sign bit if it is set. */
  lemma SignExtendExact(x: word, n: nat, p: nat)
    requires 1 <= n <= 32 && p == Pow2(n) <= TWO32 && x < p
    ensures SignExtend32(x, n) == SignExtended(x, p)
  {
    OneBit(x, n - 1, Pow2(n - 1));
    SignBit(x, Pow2(n - 1));
    OnesAbove(n, p);
    OnesJoin(x, n, p);
  }

  lemma SignBit(x: nat, p: nat)
    requires p >= 1 && x < 2 * p
    ensures x / p % 2 == if x >= p then 1 else 0
  {
    DivModUnique(x, p, if x >= p then 1 else 0, if x >= p then x - p else x);
  }

  lemma OnesJoin(x: nat, n: nat, p: nat)
    requires n <= 32 && p == Pow2(n) && x < p <= TWO32
    ensures Or(TWO32 - p, x) == TWO32 - p + x
  {
    var m := 32 - n;
    Pow2Constants();
    Pow2Add(n, m);
    ShlNext(Pow2(m) - 1, n);
    OrDisjoint(Pow2(m) - 1, x, n);
  }

  /** The encoding of a signed offset, section A6.7.13 of the ARMv6-M Architecture Reference Manual */
  function EncodeBl(offset: int): Halves
    requires -0x100_0000 <= offset < 0x100_0000 && offset % 2 == 0
  {
    EncodeImmediate(ImmediateOf(offset))
  }

  /** A signed offset of 25 bits, halved */
  function ImmediateOf(offset: int): (imm: nat)
    requires -0x100_0000 <= offset < 0x100_0000 && offset % 2 == 0
    ensures imm < 0x100_0000
  {
    (if offset < 0 then offset + 0x200_0000 else offset) / 2
  }

  /** What adding the offset to the PC adds */
  function OffsetWord(offset: int): int {
    if offset < 0 then offset + TWO32 else offset
  }

  lemma ImmediateIsOffset(offset: int)
    requires -0x100_0000 <= offset < 0x100_0000 && offset % 2 == 0
    ensures SignExtended(2 * ImmediateOf(offset), 0x200_0000) == OffsetWord(offset)
  {
  }

  function EncodeImmediate(imm: nat): Halves
    requires imm < 0x100_0000
  {
    EncodeFields(imm / 0x80_0000, imm / 0x40_0000 % 2, imm / 0x20_0000 % 2, imm / 0x800 % 0x400, imm % 0x800)
  }

  function EncodeFields(s: nat, i1: nat, i2: nat, imm10: nat, imm11: nat): Halves
    requires s <= 1 && i1 <= 1 && i2 <= 1 && imm10 < 0x400 && imm11 < 0x800
  {
    Halves(0xF000 + s * 0x400 + imm10, 0xD000 + Inverted(i1, s) * 0x2000 + Inverted(i2, s) * 0x800 + imm11)
  }

  lemma ImmediateFields(imm: nat)
    requires imm < 0x100_0000
    ensures imm == imm / 0x80_0000 * 0x80_0000 + imm / 0x40_0000 % 2 * 0x40_0000 + imm / 0x20_0000 % 2 * 0x20_0000
                   + imm / 0x800 % 0x400 * 0x800 + imm % 0x800
  {
    var q := imm / 0x800;
    assert imm == q * 0x800 + imm % 0x800;
    var r := imm / 0x20_0000;
    assert q == r * 0x400 + q % 0x400;
    var t := imm / 0x40_0000;
    assert r == 2 * t + r % 2;
    assert t == 2 * (imm / 0x80_0000) + t % 2;
  }

  lemma FirstHalf(s: nat, imm10: nat)
    requires s <= 1 && imm10 < 0x400
    ensures var h := 0xF000 + s * 0x400 + imm10;
            h / 0x800 == 30 && h / 0x400 % 2 == s && h % 0x400 == imm10
  {
  }

  lemma SecondHalf(j1: nat, j2: nat, imm11: nat)
    requires j1 <= 1 && j2 <= 1 && imm11 < 0x800
    ensures var h := 0xD000 + j1 * 0x2000 + j2 * 0x800 + imm11;
            && h / 0x4000 == 3 && h / 0x1000 % 2 == 1
            && h / 0x2000 % 2 == j1 && h / 0x800 % 2 == j2 && h % 0x800 == imm11
  {
  }

  lemma DecodesFields(s: nat, i1: nat, i2: nat, imm10: nat, imm11: nat)
    requires s <= 1 && i1 <= 1 && i2 <= 1 && imm10 < 0x400 && imm11 < 0x800
    ensures var h := EncodeFields(s, i1, i2, imm10, imm11);
            && IsBl(h)
            && BlImmediate(h) == s * 0x80_0000 + i1 * 0x40_0000 + i2 * 0x20_0000 + imm10 * 0x800 + imm11
  {
    FirstHalf(s, imm10);
    SecondHalf(Inverted(i1, s), Inverted(i2, s), imm11);
  }

  lemma DecodesImmediate(imm: nat)
    requires imm < 0x100_0000
    ensures IsBl(EncodeImmediate(imm)) && BlImmediate(EncodeImmediate(imm)) == imm
  {
    DecodesFields(imm / 0x80_0000, imm / 0x40_0000 % 2, imm / 0x20_0000 % 2, imm / 0x800 % 0x400, imm % 0x800);
    ImmediateFields(imm);
  }

  /** The decoder takes an encoded offset for a BL, and sign extending twice the immediate it decodes gives
      the offset, modulo the word, for every even offset of 25 bits. */
  lemma BlRoundTrip(offset: int)
    requires -0x100_0000 <= offset < 0x100_0000 && offset % 2 == 0
    ensures MatchesBl(EncodeBl(offset))
    ensures var imm := DecodeBl(EncodeBl(offset));
            imm < 0x100_0000 && SignExtend32(Double(imm), 25) == OffsetWord(offset)
  {
    Encoded(offset);
    MatchesBlExact(EncodeBl(offset));
    BlOffset(ImmediateOf(offset));
    ImmediateIsOffset(offset);
  }

  lemma Encoded(offset: int)
    requires -0x100_0000 <= offset < 0x100_0000 && offset % 2 == 0
    ensures IsBl(EncodeBl(offset))
    ensures BlImmediate(EncodeBl(offset)) == ImmediateOf(offset) == DecodeBl(EncodeBl(offset))
  {
    DecodesImmediate(ImmediateOf(offset));
    DecodesBl(EncodeBl(offset));
  }

  /** `signExtend32(decoded.imm << 1, 25)` */
  lemma BlOffset(imm: nat)
    requires imm < 0x100_0000
    ensures SignExtend32(Double(imm), 25) == SignExtended(2 * imm, 0x200_0000)
  {
    var n := 9;
    Pow2Constants();
    Pow2Add(n, 16);
    ShlIsProduct(Pow2(16), n);
    SignExtendExact(2 * imm, 25, 0x200_0000);
  }

  // ---------------------------------------------------------------------------------------------
  // Calls and returns. An instruction at `a` (with thumb bit) sees a + 4 as the PC.

  function SetPcLr(gpr: seq<word>, pc: word, lr: word): (g: seq<word>)
    requires |gpr| == 16
    ensures |g| == 16
  {
    gpr[LR := lr][PC := pc]
  }

  /** `bl`, on the decoded immediate */
  function Bl(gpr: seq<word>, imm: nat): (g: seq<word>)
    requires |gpr| == 16 && imm < 0x100_0000
    ensures |g| == 16
  {
    SetPcLr(gpr, (SignExtended(2 * imm, 0x200_0000) + gpr[PC]) % TWO32, gpr[PC])
  }

  /** What a branch to a register comes to: refused without thumb bit, a jump, or an exception return */
  datatype Exchange = NotThumb | Jumped(gpr: seq<word>) | Returning(excReturn: word)

  function Blx(gpr: seq<word>, rM: reg): (r: Exchange)
    requires |gpr| == 16
    ensures r.Jumped? ==> |r.gpr| == 16
  {
    if gpr[rM] % 2 == 0 then NotThumb else Jumped(SetPcLr(gpr, gpr[rM], Sub32(gpr[PC], 2)))
  }

  function Bx(gpr: seq<word>, rM: reg): (r: Exchange)
    requires |gpr| == 16
    ensures r.Jumped? ==> |r.gpr| == 16
  {
    if gpr[rM] % 2 == 0 then NotThumb
    else if IsExceptionReturn(gpr[rM]) then Returning(gpr[rM])
    else Jumped(gpr[PC := gpr[rM]])
  }

  /** BX to `address` goes there if and only if it is no EXC_RETURN value. */
  function Back(gpr: seq<word>, address: word): Exchange
    requires |gpr| == 16
  {
    if IsExceptionReturn(address) then Returning(address) else Jumped(gpr[PC := address])
  }

  /** BL at `a` goes to a + 4 + offset, and BX LR from wherever comes back to the instruction after the
      two halfwords of the BL, if and only if that is below the EXC_RETURN values; else it asks for an
      exception return. */
  lemma BlReturns(gpr: seq<word>, a: word, offset: int, later: seq<word>)
    requires |gpr| == |later| == 16 && a % 2 == 1 && gpr[PC] == Add32(a, 4)
    requires -0x100_0000 <= offset < 0x100_0000 && offset % 2 == 0
    requires later[LR] == Bl(gpr, BlImmediate(EncodeBl(offset)))[LR]
    ensures Bl(gpr, BlImmediate(EncodeBl(offset)))[PC] == (a + 4 + offset) % TWO32
    ensures Bx(later, LR) == Back(later, Add32(a, 4))
  {
    Encoded(offset);
    BlGoes(gpr, BlImmediate(EncodeBl(offset)), a, offset);
    ReturnAddress(a, 4);
  }

  lemma BlGoes(gpr: seq<word>, imm: nat, a: word, offset: int)
    requires |gpr| == 16 && gpr[PC] == Add32(a, 4)
    requires -0x100_0000 <= offset < 0x100_0000 && offset % 2 == 0 && imm == ImmediateOf(offset)
    ensures Bl(gpr, imm)[PC] == (a + 4 + offset) % TWO32 && Bl(gpr, imm)[LR] == gpr[PC]
  {
    ImmediateIsOffset(offset);
    BlTarget(a, offset);
  }

  lemma ReturnAddress(a: word, n: nat)
    requires a % 2 == 1 && n <= 4 && n % 2 == 0
    ensures Add32(a, n) % 2 == 1
  {
    assert Add32(a, n) == a + n || Add32(a, n) == a + n - TWO32;
  }

  lemma BlTarget(a: word, offset: int)
    requires -0x100_0000 <= offset < 0x100_0000
    ensures (OffsetWord(offset) + Add32(a, 4)) % TWO32 == (a + 4 + offset) % TWO32
  {
  }

  /** BLX has one halfword: its return address is a + 2, with the same exception. */
  lemma BlxReturns(gpr: seq<word>, a: word, rM: reg, later: seq<word>)
    requires |gpr| == |later| == 16 && a % 2 == 1 && gpr[PC] == Add32(a, 4) && gpr[rM] % 2 == 1
    requires Blx(gpr, rM).Jumped? ==> later[LR] == Blx(gpr, rM).gpr[LR]
    ensures Blx(gpr, rM).Jumped? && Blx(gpr, rM).gpr[PC] == gpr[rM]
    ensures Bx(later, LR) == Back(later, Add32(a, 2))
  {
    var pc := Add32(a, 4);
    assert pc == a + 4 || pc == a + 4 - TWO32;
    assert Sub32(pc, 2) == Add32(a, 2);
    assert Add32(a, 2) % 2 == 1;
  }

  /** The offset of a conditional branch: eight bits, doubled and sign extended */
  lemma ConditionalOffset(imm: nat)
    requires imm < 0x100
    ensures SignExtend32(Double(imm), 9) == SignExtended(2 * imm, 0x200)
    ensures SignExtended(2 * imm, 0x200) == if imm >= 0x80 then 2 * (imm - 0x100) + TWO32 else 2 * imm
  {
    Pow2Constants();
    SignExtendExact(2 * imm, 9, 0x200);
  }

  /** That of an unconditional one: eleven bits */
  lemma BranchOffset(imm: nat)
    requires imm < 0x800
    ensures SignExtend32(Double(imm), 12) == SignExtended(2 * imm, 0x1000)
    ensures SignExtended(2 * imm, 0x1000) == if imm >= 0x400 then 2 * (imm - 0x800) + TWO32 else 2 * imm
  {
    Pow2Eleven();
    SignExtendExact(2 * imm, 12, 0x1000);
  }
}

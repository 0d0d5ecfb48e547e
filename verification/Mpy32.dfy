/** The MSP430 hardware multiplier: writing an operand register selects the mode, writing the second
    operand starts the multiplication, and the results land in 16-bit registers. */
module Mpy32 {
  import opened Bits
  import opened SingleBits

  // ---------------------------------------------------------------------------------------------
  // Registers. The header with the bit values is not part of the repository's own sources; these are
  // those of the MSP430FR5994.

  const MPYC: bv16 := 0x0001
  const MPYFRAC: bv16 := 0x0004
  const MODE_MPY: bv16 := 0x0000
  const MODE_MPYS: bv16 := 0x0010
  const MODE_MAC: bv16 := 0x0020
  const MODE_MACS: bv16 := 0x0030
  const OP1_32: bv16 := 0x0040
  const OP2_32: bv16 := 0x0080

  datatype Mode = Mpy | Mpys | Mac | Macs

  /** `First16` and the `First32` halves are the operand registers of a mode. */
  datatype Reg =
    | First16(mode: Mode) | Second16
    | First32L(mode: Mode) | First32H(mode: Mode) | Second32L | Second32H
    | Res0 | Res1 | Res2 | Res3 | Sumext | ResLo | ResHi

  datatype Action = Load | Store(v: half)

  /** One operand register per mode */
  datatype Operands = Operands(mpy: half, mpys: half, mac: half, macs: half) {
    function At(m: Mode): half {
      match m
      case Mpy => mpy
      case Mpys => mpys
      case Mac => mac
      case Macs => macs
    }

    function With(m: Mode, v: half): Operands {
      match m
      case Mpy => this.(mpy := v)
      case Mpys => this.(mpys := v)
      case Mac => this.(mac := v)
      case Macs => this.(macs := v)
    }
  }

  /** The bits of the control register the multiplier uses */
  datatype Control = Control(mode: Mode, op1Is32: bool, op2Is32: bool, carry: bool, fractional: bool)

  /** First operands are kept per mode; the other registers are there once. */
  datatype Regs = Regs(
    first16: Operands, first32L: Operands, first32H: Operands,
    op2: half, op2L: half, op2H: half,
    res0: half, res1: half, res2: half, res3: half, sumext: half, resLo: half, resHi: half, ctl: Control)

  predicate Fractional(s: Regs) {
    s.ctl.fractional
  }

  /** Control register after an access to `r` */
  function Selected(ctl: Control, r: Reg): Control {
    match r
    case First16(m) => ctl.(mode := m, op1Is32 := false)
    case First32L(m) => ctl.(mode := m, op1Is32 := true)
    case Second16 => ctl.(op2Is32 := false)
    case Second32L => ctl.(op2Is32 := true)
    case _ => ctl
  }

  function ModeBits(m: Mode): bv16 {
    match m
    case Mpy => MODE_MPY
    case Mpys => MODE_MPYS
    case Mac => MODE_MAC
    case Macs => MODE_MACS
  }

  /** The bits `process` tests in the control register */
  function Decoded(w: bv16): Control {
    Control(if w & MODE_MAC != 0 then (if w & MODE_MPYS != 0 then Macs else Mac)
            else if w & MODE_MPYS != 0 then Mpys else Mpy,
            w & OP1_32 != 0, w & OP2_32 != 0, w & MPYC != 0, w & MPYFRAC != 0)
  }

  /** The masks of `b_transport` and `process` do to the word what the model does to the bits. */
  lemma SelectsMode16(w: bv16, m: Mode)
    ensures Decoded(((w & !MODE_MACS) | ModeBits(m)) & !OP1_32) == Selected(Decoded(w), First16(m))
  {
  }

  lemma SelectsMode32(w: bv16, m: Mode)
    ensures Decoded((w & !MODE_MACS) | ModeBits(m) | OP1_32) == Selected(Decoded(w), First32L(m))
  {
  }

  lemma SelectsSize(w: bv16)
    ensures Decoded(w & !OP2_32) == Selected(Decoded(w), Second16)
    ensures Decoded(w | OP2_32) == Selected(Decoded(w), Second32L)
  {
  }

  lemma SetsCarry(w: bv16)
    ensures Decoded(w | MPYC) == SetC(Decoded(w), true)
    ensures Decoded(w & !MPYC) == SetC(Decoded(w), false)
  {
  }

  function Stored(s: Regs, r: Reg, v: half): Regs {
    match r
    case First16(m) => s.(first16 := s.first16.With(m, v))
    case First32L(m) => s.(first32L := s.first32L.With(m, v))
    case First32H(m) => s.(first32H := s.first32H.With(m, v))
    case Second16 => s.(op2 := v)
    case Second32L => s.(op2L := v)
    case Second32H => s.(op2H := v)
    case Res0 => s.(res0 := v)
    case Res1 => s.(res1 := v)
    case Res2 => s.(res2 := v)
    case Res3 => s.(res3 := v)
    case Sumext => s.(sumext := v)
    case ResLo => s.(resLo := v)
    case ResHi => s.(resHi := v)
  }

  function Held(s: Regs, r: Reg): half {
    match r
    case First16(m) => s.first16.At(m)
    case First32L(m) => s.first32L.At(m)
    case First32H(m) => s.first32H.At(m)
    case Second16 => s.op2
    case Second32L => s.op2L
    case Second32H => s.op2H
    case Res0 => s.res0
    case Res1 => s.res1
    case Res2 => s.res2
    case Res3 => s.res3
    case Sumext => s.sumext
    case ResLo => s.resLo
    case ResHi => s.resHi
  }

  /** `b_transport`, followed by the multiplication it notifies: reading an operand register selects and
      starts as writing it does. In fractional mode the source stops the simulation. The second component
      is what a read returns. */
  function Access(s: Regs, r: Reg, a: Action): (t: (Regs, half))
    ensures Fractional(t.0) == Fractional(s)
  {
    if Fractional(s) then (s, 0)
    else
      var selected := s.(ctl := Selected(s.ctl, r));
      var (s', data) := if a.Load? then (selected, Held(selected, r)) else (Stored(selected, r, a.v), 0);
      (if r.Second16? || r.Second32H? then Processed(s') else s', data)
  }

  function Write(s: Regs, r: Reg, v: half): (t: Regs)
    ensures Fractional(t) == Fractional(s)
  {
    Access(s, r, Store(v)).0
  }

  // ---------------------------------------------------------------------------------------------
  // Multiplication

  const W16: nat := 0x1_0000
  const W32: nat := 0x1_0000_0000
  const W48: nat := 0x1_0000_0000_0000
  const W64: nat := 0x1_0000_0000_0000_0000
  const W80: nat := 0x1_0000_0000_0000_0000_0000

  /** `x | 0xffff...` above bit `w`, if the sign bit of the `w`-valued word is set */
  function SignExtended(x: nat, w: nat, m: nat): nat
    requires x < w <= m
  {
    if x >= w / 2 then x + (m - w) else x
  }

  function Digit(x: nat, w: nat): half
    requires w > 0
  {
    x / w % W16
  }

  function SetC(ctl: Control, c: bool): Control {
    ctl.(carry := c)
  }

  function First32(s: Regs, m: Mode): nat {
    s.first32H.At(m) * W16 + s.first32L.At(m)
  }

  function Second32(s: Regs): nat {
    s.op2H * W16 + s.op2L
  }

  /** SUMEXT:RES1:RES0 */
  function Result48(s: Regs): nat {
    s.sumext * W32 + s.res1 * W16 + s.res0
  }

  /** RES3:RES2:RES1:RES0 */
  function Result64(s: Regs): nat {
    s.res3 * W48 + s.res2 * W32 + s.res1 * W16 + s.res0
  }

  /** SUMEXT:RES3:RES2:RES1:RES0 */
  function Result80(s: Regs): nat {
    s.sumext * W64 + Result64(s)
  }

  function WithResult32(s: Regs, res: nat): Regs {
    s.(res1 := Digit(res, W16), res0 := Digit(res, 1))
  }

  function WithResult64(s: Regs, res: nat): Regs {
    s.(res3 := Digit(res, W48), res2 := Digit(res, W32), res1 := Digit(res, W16), res0 := Digit(res, 1))
  }

  function Sign(negative: bool): half {
    if negative then 0xFFFF else 0
  }

  function Accumulated32(s: Regs, res: nat): Regs {
    WithResult64(s, res).(sumext := Digit(res, W64), ctl := SetC(s.ctl, Digit(res, W64) != 0))
  }

  function Mac32(s: Regs): Regs {
    Accumulated32(s, First32(s, Mac) * Second32(s) % W64 + Result80(s))
  }

  function AccumulatedSigned32(s: Regs, res: nat): Regs {
    WithResult64(s, res).(sumext := Sign(Digit(res, W48) >= 0x8000), ctl := SetC(s.ctl, res % W64 < Result64(s)))
  }

  function Macs32(s: Regs): Regs {
    var op1 := SignExtended(First32(s, Macs), W32, W64);
    var op2 := SignExtended(Second32(s), W32, W64);
    AccumulatedSigned32(s, op1 * op2 % W64 + Result80(s))
  }

  function Mpys32(s: Regs): Regs {
    var op1 := SignExtended(First32(s, Mpys), W32, W64);
    var op2 := SignExtended(Second32(s), W32, W64);
    SignedWritten32(s, op1 * op2 % W64)
  }

  function SignedWritten32(s: Regs, res: nat): Regs {
    var negative := Digit(res, W48) >= 0x8000;
    WithResult64(s, res).(sumext := Sign(negative), ctl := SetC(s.ctl, negative))
  }

  function Mpy32(s: Regs): Regs {
    var res := First32(s, Mpy) * Second32(s) % W64;
    WithResult64(s, res).(sumext := 0, ctl := SetC(s.ctl, false))
  }

  function Accumulated16(s: Regs, res: nat): Regs {
    WithResult32(s, res).(sumext := Digit(res, W32), ctl := SetC(s.ctl, Digit(res, W32) != 0))
  }

  function Mac16(s: Regs): Regs {
    Accumulated16(s, (s.first16.At(Mac) * s.op2 + Result48(s)) % W64)
  }

  function Mpys16(s: Regs): Regs {
    var op1 := SignExtended(s.first16.At(Mpys), W16, W32);
    var op2 := SignExtended(s.op2, W16, W32);
    var res := op1 * op2 % W32;
    var negative := Digit(res, W16) >= 0x8000;
    WithResult32(s, res).(sumext := Sign(negative), ctl := SetC(s.ctl, negative))
  }

  function Mpy16(s: Regs): Regs {
    var res := s.first16.At(Mpy) * s.op2 % W32;
    WithResult32(s, res).(sumext := 0, ctl := SetC(s.ctl, false))
  }

  /** The branch for a mode and operand size. Signed 16-bit accumulation computes nothing. */
  function Compute(s: Regs, wide: bool, m: Mode): Regs {
    match m
    case Mpy => if wide then Mpy32(s) else Mpy16(s)
    case Mpys => if wide then Mpys32(s) else Mpys16(s)
    case Mac => if wide then Mac32(s) else Mac16(s)
    case Macs => if wide then Macs32(s) else s
  }

  /** `process`. RESLO and RESHI mirror the two low result registers. */
  function Processed(s: Regs): Regs {
    var r := Compute(s, s.ctl.op1Is32 || s.ctl.op2Is32, s.ctl.mode);
    r.(resLo := r.res0, resHi := r.res1)
  }

  // ---------------------------------------------------------------------------------------------
  // The digits of a result

  lemma TwoDigits(p: nat, s: nat, r: nat, a: nat, b: nat)
    requires r < a && s < b
    ensures (p * b + s) * a + r == p * (a * b) + (s * a + r)
    ensures s * a + r < a * b
  {
    ProductMonotone(s + 1, b, a);
    assert (s + 1) * a == s * a + a;
    assert p * b * a == p * (a * b);
  }

  /** Splitting off one more digit */
  lemma NextDigit(x: nat, w: nat)
    requires w > 0
    ensures x % (w * W16) == x % w + Digit(x, w) * w
  {
    var q, r := x / w, x % w;
    var p, d := q / W16, q % W16;
    TwoDigits(p, d, r, w, W16);
    DivModUnique(x, w * W16, p, d * w + r);
  }

  lemma Digits32(s: Regs, res: nat)
    ensures var r := WithResult32(s, res); r.res1 * W16 + r.res0 == res % W32
  {
    NextDigit(res, W16);
  }

  lemma Digits64(s: Regs, res: nat)
    ensures Result64(WithResult64(s, res)) == res % W64
  {
    NextDigit(res, W16);
    NextDigit(res, W32);
    NextDigit(res, W48);
  }

  lemma Digits48(s: Regs, res: nat)
    ensures Result48(WithResult32(s, res).(sumext := Digit(res, W32))) == res % W48
  {
    Digits32(s, res);
    NextDigit(res, W32);
  }

  lemma Digits80(s: Regs, res: nat)
    ensures Result80(WithResult64(s, res).(sumext := Digit(res, W64))) == res % W80
  {
    Digits64(s, res);
    NextDigit(res, W64);
  }

  // ---------------------------------------------------------------------------------------------
  // Signed numbers

  /** The two's complement value of a word with `w` values */
  function Signed(x: nat, w: nat): int {
    if x >= w / 2 then x - w else x
  }

  lemma SmallMod(p: nat, w: nat)
    requires p < w
    ensures p % w == p && p / w == 0
  {
    DivModUnique(p, w, 0, p);
  }

  lemma SignedOfMod(p: int, w: nat)
    requires w > 0 && w % 2 == 0 && 0 - w / 2 <= p < w / 2
    ensures Signed(p % w, w) == p && (p % w >= w / 2 <==> p < 0)
  {
    if p < 0 {
      ModShift(p, 1, w);
      SmallMod(p + w, w);
    } else {
      SmallMod(p, w);
    }
  }

  lemma NoMultipleBelow(d: int, w: nat)
    requires 0 - w < d * w < w
    ensures d == 0
  {
    ProductMonotone(1, if d > 0 then d else 0, w);
    ProductMonotone(1, if d < 0 then -d else 0, w);
  }

  lemma ModShift(p: int, k: int, w: nat)
    requires w > 0
    ensures (p + k * w) % w == p % w
  {
    var a: int := p + k * w;
    var d: int := a / w - p / w - k;
    assert a == (a / w) * w + a % w && p == (p / w) * w + p % w;
    assert d * w == (a / w) * w - (p / w) * w - k * w;
    NoMultipleBelow(d, w);
  }

  lemma ProductBound(a: int, b: int, n: nat)
    requires 0 - n <= a <= n && 0 - n <= b <= n
    ensures 0 - n * n <= a * b <= n * n
  {
    assert (n - a) * (n + b) >= 0 && (n + a) * (n - b) >= 0;
    assert (n - a) * (n - b) >= 0 && (n + a) * (n + b) >= 0;
  }

  /** Multiplying sign-extended operands and truncating gives the signed product, truncated. */
  lemma SignedProduct(x: nat, y: nat, w: nat, m: nat)
    requires x < w <= m && y < w
    ensures SignExtended(x, w, m) * SignExtended(y, w, m) % m == Signed(x, w) * Signed(y, w) % m
  {
    var a, b := Signed(x, w), Signed(y, w);
    var i: int, l: int := if x >= w / 2 then 1 else 0, if y >= w / 2 then 1 else 0;
    assert SignExtended(x, w, m) == a + i * m && SignExtended(y, w, m) == b + l * m;
    ProductShift(a, b, i, l, m);
    ModShift(a * b, i * b + a * l + i * l * m, m);
  }

  lemma ProductShift(a: int, b: int, i: int, l: int, m: nat)
    ensures (a + i * m) * (b + l * m) == a * b + (i * b + a * l + i * l * m) * m
  {
    assert (a + i * m) * (b + l * m) == a * b + a * (l * m) + (i * m) * b + (i * m) * (l * m);
    assert a * (l * m) == (a * l) * m && (i * m) * b == (i * b) * m && (i * m) * (l * m) == (i * l * m) * m;
  }

  // ---------------------------------------------------------------------------------------------
  // Shifts and masks

  /** `(uint16_t)((res >> k) & 0xffff)` */
  function Field(res: nat, k: nat): (d: half)
    ensures d == Low(Shr(res, k), 16)
  {
    var n := 16;
    Pow2Constants();
    AndMask(Shr(res, k), n);
    And(Shr(res, k), 0xFFFF)
  }

  lemma Powers()
    ensures Pow2(0) == 1 && Pow2(16) == W16 && Pow2(32) == W32 && Pow2(48) == W48 && Pow2(64) == W64
  {
    Pow2Constants();
    var n := 16;
    ShlIsProduct(Pow2(32), n);
    Pow2Add(n, 32);
    ShlIsProduct(Pow2(48), n);
    Pow2Add(n, 48);
  }

  lemma FieldAt(res: nat, k: nat)
    ensures Field(res, k) == Digit(res, Pow2(k))
  {
    var n := 16;
    Pow2Constants();
    ShrLowAreDivMod(res, k);
    ShrLowAreDivMod(Shr(res, k), n);
  }

  lemma FieldIsDigit(res: nat)
    ensures Field(res, 0) == Digit(res, 1) && Field(res, 16) == Digit(res, W16) && Field(res, 32) == Digit(res, W32)
    ensures Field(res, 48) == Digit(res, W48) && Field(res, 64) == Digit(res, W64)
  {
    Powers();
    FieldAt(res, 0);
    FieldAt(res, 16);
    FieldAt(res, 32);
    FieldAt(res, 48);
    FieldAt(res, 64);
  }

  /** Putting one more 16-bit digit under what has been put together */
  lemma OrNext(hi: nat, d: half, k: nat)
    ensures Or(Shl(hi, k + 16), Shl(d, k)) == Shl(hi * W16 + d, k)
  {
    var n := 16;
    Pow2Constants();
    ShlIsProduct(hi, n);
    Bits.OrNext(hi, d, k, n);
  }

  lemma OrLast(hi: nat, d: half)
    ensures Or(Shl(hi, 16), Shl(d, 0)) == hi * W16 + d
  {
    OrNext(hi, d, 0);
  }

  /** Two more, the lower at bit `k` */
  lemma JoinedDigits(hi: nat, b: half, c: half, k: nat)
    ensures Or(Or(Shl(hi, k + 32), Shl(b, k + 16)), Shl(c, k)) == Shl(hi * W32 + b * W16 + c, k)
  {
    OrNext(hi, b, k + 16);
    OrNext(hi * W16 + b, c, k);
  }

  lemma JoinedLow(hi: nat, b: half, c: half)
    ensures Or(Or(Shl(hi, 32), Shl(b, 16)), Shl(c, 0)) == hi * W32 + b * W16 + c
  {
    JoinedDigits(hi, b, c, 0);
  }

  lemma JoinedResults(s: Regs)
    ensures Or(Or(Or(Or(Shl(s.sumext, 64), Shl(s.res3, 48)), Shl(s.res2, 32)), Shl(s.res1, 16)), Shl(s.res0, 0))
            == Result80(s)
  {
    var top := s.sumext * W32 + s.res3 * W16 + s.res2;
    var x := Or(Or(Shl(s.sumext, 64), Shl(s.res3, 48)), Shl(s.res2, 32));
    assert x == Shl(top, 32) by { JoinedDigits(s.sumext, s.res3, s.res2, 32); }
    JoinedLow(top, s.res1, s.res0);
  }

  lemma JoinedLowResults(s: Regs)
    ensures Or(Or(Shl(s.sumext, 32), Shl(s.res1, 16)), Shl(s.res0, 0)) == Result48(s)
  {
    JoinedLow(s.sumext, s.res1, s.res0);
  }

  /** `x & p` for the highest bit of `x` */
  lemma SignTest(x: nat, k: nat, p: nat)
    requires p == Pow2(k) && x < 2 * p
    ensures And(x, p) != 0 <==> x >= p
  {
    TestBit(x, k);
    BitIsQuotient(x, k);
    if x >= p {
      DivModUnique(x, p, 1, x - p);
    } else {
      DivModUnique(x, p, 0, x);
    }
  }

  lemma SignTest16(x: half)
    ensures And(x, 0x8000) != 0 <==> x >= 0x8000
  {
    Pow2Constants();
    SignTest(x, 15, 0x8000);
  }

  lemma SignTest32(x: word)
    ensures And(x, 0x8000_0000) != 0 <==> x >= 0x8000_0000
  {
    Pow2Constants();
    SignTest(x, 31, 0x8000_0000);
  }

  /** `op | 0xffff0000` and `op | 0xffffffff00000000` */
  lemma SignExtensionMask(x: nat, hi: nat, k: nat, p: nat)
    requires p == Pow2(k) && x < p
    ensures Or(x, hi * p) == hi * p + x
  {
    ShlIsProduct(hi, k);
    OrDisjoint(hi, x, k);
    OrSymmetric(hi * p, x);
  }

  lemma Extended16(x: half)
    ensures Or(x, 0xFFFF_0000) == x + (W32 - W16)
  {
    Powers();
    SignExtensionMask(x, 0xFFFF, 16, W16);
  }

  lemma Extended32(x: word)
    ensures Or(x, 0xFFFF_FFFF_0000_0000) == x + (W64 - W32)
  {
    Powers();
    SignExtensionMask(x, 0xFFFF_FFFF, 32, W32);
  }

  /** `(uint64_t)prev_res` drops SUMEXT. */
  lemma LowResults(s: Regs)
    ensures Result80(s) % W64 == Result64(s)
  {
    DivModUnique(Result80(s), W64, s.sumext, Result64(s));
  }

  lemma TopBitCleared(x: half, i: nat)
    requires i < 16 && x < Pow2(i + 1)
    ensures Pow2(i) < TWO32 && And(x, Not32(Pow2(i))) < Pow2(i)
  {
    var p := Pow2(i);
    BitOperations(x, i, p);
    if x >= p {
      DivModUnique(x, p, 1, x - p);
    }
  }

  // ---------------------------------------------------------------------------------------------
  // What each branch computes

  lemma Mpy16Exact(s: Regs)
    ensures Result48(Mpy16(s)) == s.first16.At(Mpy) * s.op2
  {
    var x: nat, y: nat := s.first16.At(Mpy), s.op2;
    UnsignedBound(x, y, W16);
    var p: nat := x * y;
    SmallMod(p, W32);
    Digits32(s, p);
  }

  lemma UnsignedBound(x: nat, y: nat, w: nat)
    requires x < w && y < w
    ensures x * y < w * w
  {
    ProductMonotone(x, w - 1, y);
    ProductMonotone(y, w - 1, w - 1);
    assert (w - 1) * (w - 1) < w * w;
  }

  lemma Mpys16Exact(s: Regs)
    ensures Signed(Result48(Mpys16(s)), W48) == Signed(s.first16.At(Mpys), W16) * Signed(s.op2, W16)
  {
    var a, b := Signed(s.first16.At(Mpys), W16), Signed(s.op2, W16);
    SignedProduct(s.first16.At(Mpys), s.op2, W16, W32);
    ProductBound(a, b, 0x8000);
    SignedOfMod(a * b, W32);
    Digits32(s, a * b % W32);
  }

  lemma Mac16Adds(s: Regs)
    ensures Result48(Mac16(s)) == (Result48(s) + s.first16.At(Mac) * s.op2) % W48
  {
    var x: nat, y: nat := s.first16.At(Mac), s.op2;
    UnsignedBound(x, y, W16);
    var p: nat := x * y + Result48(s);
    SmallMod(p, W64);
    Digits48(s, p);
  }

  lemma Mpy32Exact(s: Regs)
    ensures Result80(Mpy32(s)) == First32(s, Mpy) * Second32(s)
  {
    UnsignedBound(First32(s, Mpy), Second32(s), W32);
    var p: nat := First32(s, Mpy) * Second32(s);
    SmallMod(p, W64);
    Digits64(s, p);
  }

  lemma Mpys32Exact(s: Regs)
    ensures Signed(Result80(Mpys32(s)), W80) == Signed(First32(s, Mpys), W32) * Signed(Second32(s), W32)
  {
    var a, b := Signed(First32(s, Mpys), W32), Signed(Second32(s), W32);
    SignedProduct(First32(s, Mpys), Second32(s), W32, W64);
    ProductBound(a, b, 0x8000_0000);
    SignedWrittenExact(s, a * b);
  }

  lemma SignedWrittenExact(s: Regs, p: int)
    requires 0 - W64 / 2 <= p < W64 / 2
    ensures Signed(Result80(SignedWritten32(s, p % W64)), W80) == p
  {
    SignedOfMod(p, W64);
    Digits64(s, p % W64);
    TopDigit(p % W64);
    SignedResult(SignedWritten32(s, p % W64));
  }

  lemma SignedResult(t: Regs)
    requires t.sumext == Sign(Result64(t) >= W64 / 2)
    ensures Signed(Result80(t), W80) == Signed(Result64(t), W64)
  {
  }

  lemma TopDigit(x: nat)
    requires x < W64
    ensures Digit(x, W48) >= 0x8000 <==> x >= W64 / 2
  {
  }

  lemma Mac32Adds(s: Regs)
    ensures Result80(Mac32(s)) == (Result80(s) + First32(s, Mac) * Second32(s)) % W80
  {
    UnsignedBound(First32(s, Mac), Second32(s), W32);
    var p: nat := First32(s, Mac) * Second32(s);
    SmallMod(p, W64);
    Digits80(s, p + Result80(s));
  }

  /** The 64 result bits accumulate; SUMEXT is their sign and does not accumulate. */
  lemma Macs32Adds(s: Regs)
    ensures Result64(Macs32(s)) == (Result64(s) + Signed(First32(s, Macs), W32) * Signed(Second32(s), W32)) % W64
    ensures Macs32(s).sumext == Sign(Signed(Result64(Macs32(s)), W64) < 0)
  {
    var p := Signed(First32(s, Macs), W32) * Signed(Second32(s), W32);
    SignedProduct(First32(s, Macs), Second32(s), W32, W64);
    var res := p % W64 + Result80(s);
    Digits64(s, res);
    var q := p / W64;
    assert p == q * W64 + p % W64;
    ModShift(p + Result64(s), s.sumext - q, W64);
    assert res == p + Result64(s) + (s.sumext - q) * W64;
    SameTopDigit(res);
    TopDigit(res % W64);
  }

  lemma SameTopDigit(x: nat)
    ensures Digit(x, W48) == Digit(x % W64, W48)
  {
  }

  /** The carry bit after a 16-bit multiplication: that the accumulated result has left 32 bits, or that
      the signed product is negative */
  lemma Carry16(s: Regs)
    ensures !Mpy16(s).ctl.carry
    ensures Mpys16(s).ctl.carry <==> Signed(s.first16.At(Mpys), W16) * Signed(s.op2, W16) < 0
    ensures Mac16(s).ctl.carry <==> Result48(Mac16(s)) >= W32
  {
    Mpys16Exact(s);
    SumextIsSign(Mpys16(s));
  }

  lemma SumextIsSign(t: Regs)
    requires t.sumext == Sign(t.ctl.carry)
    ensures Signed(Result48(t), W48) < 0 <==> t.ctl.carry
    ensures Signed(Result80(t), W80) < 0 <==> t.ctl.carry
  {
  }

  /** After a 32-bit one: that the unsigned accumulated result has left 64 bits, that the addition of the
      signed product wrapped around 64 bits, or that the signed product is negative */
  lemma Carry32(s: Regs)
    ensures !Mpy32(s).ctl.carry
    ensures Mpys32(s).ctl.carry <==> Signed(First32(s, Mpys), W32) * Signed(Second32(s), W32) < 0
    ensures Mac32(s).ctl.carry <==> Result80(Mac32(s)) >= W64
    ensures Macs32(s).ctl.carry <==>
            Result64(s) + Signed(First32(s, Macs), W32) * Signed(Second32(s), W32) % W64 >= W64
  {
    Mpys32Exact(s);
    SumextIsSign(Mpys32(s));
    SignedProduct(First32(s, Macs), Second32(s), W32, W64);
    WrapsBelow(Signed(First32(s, Macs), W32) * Signed(Second32(s), W32) % W64, Result64(s), s.sumext);
  }

  lemma WrapsBelow(a: nat, r: nat, high: nat)
    requires a < W64 && r < W64
    ensures (a + (high * W64 + r)) % W64 < r <==> r + a >= W64
  {
    ModShift(a + r, high, W64);
    if a + r >= W64 {
      ModShift(a + r - W64, 1, W64);
      SmallMod(a + r - W64, W64);
    } else {
      SmallMod(a + r, W64);
    }
  }

  // ---------------------------------------------------------------------------------------------
  // Writing operands

  function Multiply16(s: Regs, m: Mode, x: half, y: half): (t: Regs)
    ensures Fractional(t) == Fractional(s)
  {
    Write(Write(s, First16(m), x), Second16, y)
  }

  function Low16(x: nat): half {
    x % W16
  }

  function High16(x: word): half {
    x / W16
  }

  function Multiply32(s: Regs, m: Mode, x: word, y: word): (t: Regs)
    ensures Fractional(t) == Fractional(s)
  {
    Write(Write(Write(Write(s, First32L(m), Low16(x)), First32H(m), High16(x)), Second32L, Low16(y)), Second32H, High16(y))
  }

  /** The registers when the multiplication starts */
  function Loaded16(s: Regs, m: Mode, x: half, y: half): Regs {
    Stored(Stored(s, First16(m), x), Second16, y).(ctl := Selected(Selected(s.ctl, First16(m)), Second16))
  }

  function Loaded32(s: Regs, m: Mode, x: word, y: word): Regs {
    Stored(Stored(Stored(Stored(s, First32L(m), Low16(x)), First32H(m), High16(x)), Second32L, Low16(y)),
           Second32H, High16(y)).(ctl := Selected(Selected(s.ctl, First32L(m)), Second32L))
  }

  lemma Multiplies(s: Regs, m: Mode, x: half, y: half)
    requires !Fractional(s)
    ensures var t, r := Multiply16(s, m, x, y), Compute(Loaded16(s, m, x, y), false, m);
            t == r.(resLo := r.res0, resHi := r.res1)
  {
  }

  lemma Multiplies32(s: Regs, m: Mode, x: word, y: word)
    requires !Fractional(s)
    ensures var t, r := Multiply32(s, m, x, y), Compute(Loaded32(s, m, x, y), true, m);
            t == r.(resLo := r.res0, resHi := r.res1)
  {
  }

  /** What the result registers of `t` hold after a 16-bit multiplication of `x` and `y` in mode `m` */
  ghost predicate Result16(s: Regs, t: Regs, m: Mode, x: half, y: half) {
    && (m.Mpy? ==> Result48(t) == x * y)
    && (m.Mpys? ==> Signed(Result48(t), W48) == Signed(x, W16) * Signed(y, W16))
    && (m.Mac? ==> Result48(t) == (Result48(s) + x * y) % W48)
    && (m.Macs? ==> Result48(t) == Result48(s))
  }

  lemma Compute16(r: Regs, m: Mode)
    ensures Result16(r, Compute(r, false, m), m, r.first16.At(m), r.op2)
  {
    match m
    case Mpy => Mpy16Exact(r);
    case Mpys => Mpys16Exact(r);
    case Mac => Mac16Adds(r);
    case Macs =>
  }

  /** A mode register then OP2: MPY and MPYS give the exact product in SUMEXT:RES1:RES0, MAC adds it
      modulo 2^48, and MACS leaves the results alone. RESLO and RESHI follow RES0 and RES1. */
  lemma Multiply16Exact(s: Regs, m: Mode, x: half, y: half)
    requires !Fractional(s)
    ensures var t := Multiply16(s, m, x, y);
            Result16(s, t, m, x, y) && t.resLo == t.res0 && t.resHi == t.res1
  {
    Multiplies(s, m, x, y);
    Compute16(Loaded16(s, m, x, y), m);
  }

  ghost predicate Result32(s: Regs, t: Regs, m: Mode, x: word, y: word) {
    && (m.Mpy? ==> Result80(t) == x * y)
    && (m.Mpys? ==> Signed(Result80(t), W80) == Signed(x, W32) * Signed(y, W32))
    && (m.Mac? ==> Result80(t) == (Result80(s) + x * y) % W80)
    && (m.Macs? ==> Result64(t) == (Result64(s) + Signed(x, W32) * Signed(y, W32)) % W64
                    && t.sumext == Sign(Signed(Result64(t), W64) < 0))
  }

  lemma Compute32(r: Regs, m: Mode)
    ensures Result32(r, Compute(r, true, m), m, First32(r, m), Second32(r))
  {
    match m
    case Mpy => Mpy32Exact(r);
    case Mpys => Mpys32Exact(r);
    case Mac => Mac32Adds(r);
    case Macs => Macs32Adds(r);
  }

  lemma Multiply32Exact(s: Regs, m: Mode, x: word, y: word)
    requires !Fractional(s)
    ensures var t := Multiply32(s, m, x, y);
            Result32(s, t, m, x, y) && t.resLo == t.res0 && t.resHi == t.res1
  {
    Loaded32Holds(s, m, x, y);
    var r := Loaded32(s, m, x, y);
    Compute32(r, m);
    MirrorKeepsResult(s, r, Compute(r, true, m), m, x, y);
    Multiplies32(s, m, x, y);
  }

  /** A 16-bit first operand and a 32-bit second one: the multiplication is of 32 bits, and takes the first
      operand from the 32-bit registers of the mode, whatever they hold. */
  function Multiply16By32(s: Regs, m: Mode, x: half, y: word): (t: Regs)
    ensures Fractional(t) == Fractional(s)
  {
    Write(Write(Write(s, First16(m), x), Second32L, Low16(y)), Second32H, High16(y))
  }

  function Multiply32By16(s: Regs, m: Mode, x: word, y: half): (t: Regs)
    ensures Fractional(t) == Fractional(s)
  {
    Write(Write(Write(s, First32L(m), Low16(x)), First32H(m), High16(x)), Second16, y)
  }

  /** The registers when these multiplications start */
  function Loaded16By32(s: Regs, m: Mode, x: half, y: word): Regs {
    Stored(Stored(Stored(s, First16(m), x), Second32L, Low16(y)), Second32H, High16(y))
      .(ctl := Selected(Selected(s.ctl, First16(m)), Second32L))
  }

  function Loaded32By16(s: Regs, m: Mode, x: word, y: half): Regs {
    Stored(Stored(Stored(s, First32L(m), Low16(x)), First32H(m), High16(x)), Second16, y)
      .(ctl := Selected(Selected(s.ctl, First32L(m)), Second16))
  }

  lemma Loaded16By32Holds(s: Regs, m: Mode, x: half, y: word)
    ensures var r := Loaded16By32(s, m, x, y);
            First32(r, m) == First32(s, m) && Second32(r) == y && Result80(r) == Result80(s) && Result64(r) == Result64(s)
  {
  }

  lemma Loaded32By16Holds(s: Regs, m: Mode, x: word, y: half)
    ensures var r := Loaded32By16(s, m, x, y);
            First32(r, m) == x && Second32(r) == Second32(s) && Result80(r) == Result80(s) && Result64(r) == Result64(s)
  {
  }

  lemma Multiplies16By32(s: Regs, m: Mode, x: half, y: word)
    requires !Fractional(s)
    ensures var t, r := Multiply16By32(s, m, x, y), Compute(Loaded16By32(s, m, x, y), true, m);
            t == r.(resLo := r.res0, resHi := r.res1)
  {
  }

  lemma Multiplies32By16(s: Regs, m: Mode, x: word, y: half)
    requires !Fractional(s)
    ensures var t, r := Multiply32By16(s, m, x, y), Compute(Loaded32By16(s, m, x, y), true, m);
            t == r.(resLo := r.res0, resHi := r.res1)
  {
  }

  lemma MixedResults(s: Regs, m: Mode, x: half, y: word)
    requires !Fractional(s)
    ensures Result32(s, Multiply16By32(s, m, x, y), m, First32(s, m), y)
  {
    var r := Loaded16By32(s, m, x, y);
    Loaded16By32Holds(s, m, x, y);
    Compute32(r, m);
    MirrorKeepsResult(s, r, Compute(r, true, m), m, First32(s, m), y);
    Multiplies16By32(s, m, x, y);
  }

  lemma MixedResultsSwapped(s: Regs, m: Mode, x: word, y: half)
    requires !Fractional(s)
    ensures Result32(s, Multiply32By16(s, m, x, y), m, x, Second32(s))
  {
    var r := Loaded32By16(s, m, x, y);
    Loaded32By16Holds(s, m, x, y);
    Compute32(r, m);
    MirrorKeepsResult(s, r, Compute(r, true, m), m, x, Second32(s));
    Multiplies32By16(s, m, x, y);
  }

  /** So multiplications of mixed sizes, which the source means to support, are right exactly if the 32-bit
      register happens to hold the 16-bit operand, or the other operand is zero. */
  lemma MixedRight(s: Regs, x: half, y: word)
    requires !Fractional(s)
    ensures Result80(Multiply16By32(s, Mpy, x, y)) == x * y <==> y == 0 || First32(s, Mpy) == x
    ensures Result80(Multiply32By16(s, Mpy, y, x)) == y * x <==> y == 0 || Second32(s) == x
  {
    MixedResults(s, Mpy, x, y);
    MixedResultsSwapped(s, Mpy, y, x);
    SameProduct(First32(s, Mpy), x, y);
    SameProduct(Second32(s), x, y);
  }

  lemma SameProduct(a: nat, b: nat, y: nat)
    ensures a * y == b * y <==> y == 0 || a == b
  {
    if a < b {
      ProductMonotone(a + 1, b, y);
      assert (a + 1) * y == a * y + y;
    } else if b < a {
      ProductMonotone(b + 1, a, y);
      assert (b + 1) * y == b * y + y;
    }
  }

  /** With the registers as a reset may leave them, 3 times 5 is 0. */
  lemma MixedExample(s: Regs)
    requires !Fractional(s) && First32(s, Mpy) == 0
    ensures Result80(Multiply16By32(s, Mpy, 3, 5)) == 0
  {
    MixedResults(s, Mpy, 3, 5);
  }

  lemma Loaded32Holds(s: Regs, m: Mode, x: word, y: word)
    ensures var r := Loaded32(s, m, x, y);
            First32(r, m) == x && Second32(r) == y && Result64(r) == Result64(s) && Result80(r) == Result80(s)
  {
  }

  lemma MirrorKeepsResult(s: Regs, r: Regs, t: Regs, m: Mode, x: word, y: word)
    requires Result64(r) == Result64(s) && Result80(r) == Result80(s) && Result32(r, t, m, x, y)
    ensures Result32(s, t.(resLo := t.res0, resHi := t.res1), m, x, y)
  {
  }

  /** Reading a register does what writing back its value does, and returns that value: */
  lemma ReadIsRewrite(s: Regs, r: Reg)
    requires !Fractional(s)
    ensures Access(s, r, Load) == (Write(s, r, Held(s, r)), Held(s, r))
  {
  }

  /** A read that starts no multiplication leaves all registers alone if and only if it selects the mode and
      size that are selected already; one of a result register or of the high half of an operand always
      does. */
  lemma ReadSelects(s: Regs, r: Reg)
    requires !Fractional(s) && !r.Second16? && !r.Second32H?
    ensures Access(s, r, Load).0 == s <==>
            match r
            case First16(m) => s.ctl.mode == m && !s.ctl.op1Is32
            case First32L(m) => s.ctl.mode == m && s.ctl.op1Is32
            case Second32L => s.ctl.op2Is32
            case _ => true
  {
  }

  /** Whether reading `r`, OP2 or OP2H, multiplies 32-bit operands */
  predicate ReadsWide(s: Regs, r: Reg) {
    s.ctl.op1Is32 || (r.Second32H? && s.ctl.op2Is32)
  }

  /** Reading OP2 or OP2H multiplies once more by the operands in place, and accumulates again in the
      accumulating modes. */
  lemma ReadMultiplies(s: Regs, r: Reg)
    requires !Fractional(s) && (r.Second16? || r.Second32H?)
    ensures Access(s, r, Load).1 == Held(s, r)
    ensures var t, m := Access(s, r, Load).0, s.ctl.mode;
            if ReadsWide(s, r) then Result32(s, t, m, First32(s, m), Second32(s))
            else Result16(s, t, m, s.first16.At(m), s.op2)
  {
    var u, m := s.(ctl := Selected(s.ctl, r)), s.ctl.mode;
    if ReadsWide(s, r) {
      Compute32(u, m);
      MirrorKeepsResult(s, u, Compute(u, true, m), m, First32(s, m), Second32(s));
    } else {
      Compute16(u, m);
    }
  }

  /** When such a read leaves the results as they are: an operand is zero, or the result of a plain
      multiplication is there already. For 16 bits signed accumulation computes nothing; for 32 bits it
      also renews the sign in SUMEXT. */
  predicate Idle16(m: Mode, x: half, y: half, r: nat) {
    match m
    case Mpy => r == x * y
    case Mpys => Signed(r, W48) == Signed(x, W16) * Signed(y, W16)
    case Mac => x == 0 || y == 0
    case Macs => true
  }

  predicate Idle32(m: Mode, x: word, y: word, s: Regs) {
    match m
    case Mpy => Result80(s) == x * y
    case Mpys => Signed(Result80(s), W80) == Signed(x, W32) * Signed(y, W32)
    case Mac => x == 0 || y == 0
    case Macs => (x == 0 || y == 0) && s.sumext == Sign(Signed(Result64(s), W64) < 0)
  }

  lemma ResultIdle16(s: Regs, t: Regs, m: Mode, x: half, y: half)
    requires Result16(s, t, m, x, y)
    ensures Result48(t) == Result48(s) <==> Idle16(m, x, y, Result48(s))
  {
    var before, after := Result48(s), Result48(t);
    ResultBounds(s);
    ResultBounds(t);
    match m
    case Mpy =>
    case Mpys => SignedInjective(after, before, W48);
    case Mac => AddsNothing(before, x, y, W16, W48);
    case Macs =>
  }

  lemma ResultIdle32(s: Regs, t: Regs, m: Mode, x: word, y: word)
    requires Result32(s, t, m, x, y)
    ensures Result80(t) == Result80(s) <==> Idle32(m, x, y, s)
  {
    var before, after := Result80(s), Result80(t);
    ResultBounds(s);
    ResultBounds(t);
    match m
    case Mpy =>
    case Mpys => SignedInjective(after, before, W80);
    case Mac => AddsNothing(before, x, y, W32, W80);
    case Macs =>
      AddsNothingSigned(Result64(s), x, y);
      SameResult(s, t);
  }

  lemma AddsNothing(r: nat, x: nat, y: nat, v: nat, w: nat)
    requires x < v && y < v && v * v <= w && r < w
    ensures (r + x * y) % w == r <==> x == 0 || y == 0
  {
    UnsignedBound(x, y, v);
    ProductZero(x, y);
    SumWraps(r, x * y, w);
  }

  lemma AddsNothingSigned(r: nat, x: word, y: word)
    requires r < W64
    ensures (r + Signed(x, W32) * Signed(y, W32)) % W64 == r <==> x == 0 || y == 0
  {
    SignedZero(x, y, W32);
    SumWraps(r, Signed(x, W32) * Signed(y, W32), W64);
  }

  lemma ReadIdle16(s: Regs, r: Reg)
    requires !Fractional(s) && (r.Second16? || r.Second32H?) && !ReadsWide(s, r)
    ensures Result48(Access(s, r, Load).0) == Result48(s)
            <==> Idle16(s.ctl.mode, s.first16.At(s.ctl.mode), s.op2, Result48(s))
  {
    ReadMultiplies(s, r);
    ResultIdle16(s, Access(s, r, Load).0, s.ctl.mode, s.first16.At(s.ctl.mode), s.op2);
  }

  lemma ReadIdle32(s: Regs, r: Reg)
    requires !Fractional(s) && (r.Second16? || r.Second32H?) && ReadsWide(s, r)
    ensures Result80(Access(s, r, Load).0) == Result80(s)
            <==> Idle32(s.ctl.mode, First32(s, s.ctl.mode), Second32(s), s)
  {
    ReadMultiplies(s, r);
    ResultIdle32(s, Access(s, r, Load).0, s.ctl.mode, First32(s, s.ctl.mode), Second32(s));
  }

  lemma SameResult(s: Regs, t: Regs)
    ensures Result80(s) == Result80(t) <==> Result64(s) == Result64(t) && s.sumext == t.sumext
  {
  }

  lemma SignedInjective(x: nat, y: nat, w: nat)
    requires x < w && y < w
    ensures Signed(x, w) == Signed(y, w) <==> x == y
  {
  }

  lemma ProductZero(x: int, y: int)
    ensures x * y == 0 <==> x == 0 || y == 0
  {
  }

  /** So signed 16-bit accumulation is right exactly when an operand is zero. */
  lemma Macs16Idle(s: Regs, x: half, y: half)
    requires !Fractional(s)
    ensures Result48(Multiply16(s, Macs, x, y)) == (Result48(s) + Signed(x, W16) * Signed(y, W16)) % W48
            <==> x == 0 || y == 0
  {
    Multiply16Exact(s, Macs, x, y);
    SignedZero(x, y, W16);
    SumWraps(Result48(s), Signed(x, W16) * Signed(y, W16), W48);
  }

  lemma SignedZero(x: nat, y: nat, w: nat)
    requires x < w && y < w && w % 2 == 0
    ensures var p := Signed(x, w) * Signed(y, w); 0 - w * w < p < w * w && (p == 0 <==> x == 0 || y == 0)
  {
    var h := w / 2;
    ProductBound(Signed(x, w), Signed(y, w), h);
    UnsignedBound(h, h, w);
    ProductZero(Signed(x, w), Signed(y, w));
  }

  /** Adding something small changes a word unless it is zero. */
  lemma SumWraps(r: nat, p: int, w: nat)
    requires r < w && 0 - w < p < w
    ensures (r + p) % w == r <==> p == 0
  {
    if r + p >= w {
      ModShift(r + p - w, 1, w);
      SmallMod(r + p - w, w);
    } else if r + p < 0 {
      ModShift(r + p, 1, w);
      SmallMod(r + p + w, w);
    } else {
      SmallMod(r + p, w);
    }
  }

  // ---------------------------------------------------------------------------------------------
  // Dot products

  function Sum(terms: seq<int>): int {
    if terms == [] then 0 else Sum(terms[..|terms| - 1]) + terms[|terms| - 1]
  }

  lemma ModAdd(r: int, a: int, p: int, w: nat)
    requires w > 0 && r == a % w
    ensures (r + p) % w == (a + p) % w
  {
    var q := a / w;
    assert a == q * w + r;
    ModShift(r + p, q, w);
  }

  /** Results that add up one term after the other, modulo `w` */
  ghost predicate AddUp(rs: seq<nat>, terms: seq<int>, w: nat) {
    && w > 0 && |rs| == |terms| + 1 && rs[0] % w == rs[0]
    && forall i | 0 <= i < |terms| :: rs[i + 1] == (rs[i] + terms[i]) % w
  }

  lemma {:induction false} AddUpToSum(rs: seq<nat>, terms: seq<int>, w: nat)
    requires AddUp(rs, terms, w)
    ensures rs[|terms|] == (rs[0] + Sum(terms)) % w
  {
    if terms != [] {
      var n := |terms| - 1;
      AddUpToSum(rs[..n + 1], terms[..n], w);
      ModAdd(rs[n], rs[0] + Sum(terms[..n]), terms[n], w);
    }
  }

  /** A run of multiplications in one mode: `ts` are the registers before, between and after them. */
  ghost predicate Run16(ts: seq<Regs>, m: Mode, ps: seq<(half, half)>) {
    && |ts| == |ps| + 1 && !Fractional(ts[0])
    && forall i | 0 <= i < |ps| :: Step16(ts, m, ps, i)
  }

  ghost predicate Step16(ts: seq<Regs>, m: Mode, ps: seq<(half, half)>, i: nat)
    requires i < |ps| && |ts| == |ps| + 1
  {
    ts[i + 1] == Multiply16(ts[i], m, ps[i].0, ps[i].1)
  }

  ghost predicate Run32(ts: seq<Regs>, m: Mode, ps: seq<(word, word)>) {
    && |ts| == |ps| + 1 && !Fractional(ts[0])
    && forall i | 0 <= i < |ps| :: Step32(ts, m, ps, i)
  }

  ghost predicate Step32(ts: seq<Regs>, m: Mode, ps: seq<(word, word)>, i: nat)
    requires i < |ps| && |ts| == |ps| + 1
  {
    ts[i + 1] == Multiply32(ts[i], m, ps[i].0, ps[i].1)
  }

  lemma {:induction false} Run16Step(ts: seq<Regs>, m: Mode, ps: seq<(half, half)>, i: nat)
    requires Run16(ts, m, ps) && i <= |ps|
    ensures !Fractional(ts[i])
    ensures i > 0 ==> Result16(ts[i - 1], ts[i], m, ps[i - 1].0, ps[i - 1].1)
  {
    if i > 0 {
      Run16Step(ts, m, ps, i - 1);
      assert Step16(ts, m, ps, i - 1);
      Multiply16Exact(ts[i - 1], m, ps[i - 1].0, ps[i - 1].1);
    }
  }

  lemma {:induction false} Run32Step(ts: seq<Regs>, m: Mode, ps: seq<(word, word)>, i: nat)
    requires Run32(ts, m, ps) && i <= |ps|
    ensures !Fractional(ts[i])
    ensures i > 0 ==> Result32(ts[i - 1], ts[i], m, ps[i - 1].0, ps[i - 1].1)
  {
    if i > 0 {
      Run32Step(ts, m, ps, i - 1);
      assert Step32(ts, m, ps, i - 1);
      Multiply32Exact(ts[i - 1], m, ps[i - 1].0, ps[i - 1].1);
    }
  }

  lemma ResultBounds(s: Regs)
    ensures Result48(s) % W48 == Result48(s)
    ensures Result64(s) % W64 == Result64(s)
    ensures Result80(s) % W80 == Result80(s)
  {
  }

  function Product(x: nat, y: nat): int {
    x * y
  }

  function Products16(ps: seq<(half, half)>): (r: seq<int>)
    ensures |r| == |ps|
  {
    seq(|ps|, i requires 0 <= i < |ps| => Product(ps[i].0, ps[i].1))
  }

  function Products32(ps: seq<(word, word)>): (r: seq<int>)
    ensures |r| == |ps|
  {
    seq(|ps|, i requires 0 <= i < |ps| => Product(ps[i].0, ps[i].1))
  }

  function SignedProducts32(ps: seq<(word, word)>): (r: seq<int>)
    ensures |r| == |ps|
  {
    seq(|ps|, i requires 0 <= i < |ps| => Signed(ps[i].0, W32) * Signed(ps[i].1, W32))
  }

  /** One 16-bit MPY then MACs: SUMEXT:RES1:RES0 is the dot product modulo 2^48. */
  lemma DotProduct16(s: Regs, x: half, y: half, ts: seq<Regs>, ps: seq<(half, half)>)
    requires !Fractional(s) && Run16(ts, Mac, ps) && ts[0] == Multiply16(s, Mpy, x, y)
    ensures Result48(ts[|ps|]) == (Product(x, y) + Sum(Products16(ps))) % W48
  {
    Multiply16Exact(s, Mpy, x, y);
    ResultBounds(ts[0]);
    RunAccumulates16(ts, ps);
  }

  lemma RunAccumulates16(ts: seq<Regs>, ps: seq<(half, half)>)
    requires Run16(ts, Mac, ps)
    ensures Result48(ts[|ps|]) == (Result48(ts[0]) + Sum(Products16(ps))) % W48
  {
    var rs: seq<nat> := seq(|ts|, i requires 0 <= i < |ts| => Result48(ts[i]));
    var terms := Products16(ps);
    ResultBounds(ts[0]);
    forall i | 0 <= i < |terms|
      ensures rs[i + 1] == (rs[i] + terms[i]) % W48
    {
      Run16Step(ts, Mac, ps, i + 1);
    }
    AddUpToSum(rs, terms, W48);
  }

  /** Unsigned 32-bit MACs accumulate modulo 2^80 in SUMEXT:RES3..RES0. */
  lemma DotProduct32(ts: seq<Regs>, ps: seq<(word, word)>)
    requires Run32(ts, Mac, ps)
    ensures Result80(ts[|ps|]) == (Result80(ts[0]) + Sum(Products32(ps))) % W80
  {
    var rs: seq<nat> := seq(|ts|, i requires 0 <= i < |ts| => Result80(ts[i]));
    var terms := Products32(ps);
    ResultBounds(ts[0]);
    forall i | 0 <= i < |terms|
      ensures rs[i + 1] == (rs[i] + terms[i]) % W80
    {
      Run32Step(ts, Mac, ps, i + 1);
    }
    AddUpToSum(rs, terms, W80);
  }

  /** Signed 32-bit MACSs accumulate modulo 2^64 in RES3..RES0. */
  lemma SignedDotProduct32(ts: seq<Regs>, ps: seq<(word, word)>)
    requires Run32(ts, Macs, ps)
    ensures Result64(ts[|ps|]) == (Result64(ts[0]) + Sum(SignedProducts32(ps))) % W64
  {
    var rs: seq<nat> := seq(|ts|, i requires 0 <= i < |ts| => Result64(ts[i]));
    var terms := SignedProducts32(ps);
    ResultBounds(ts[0]);
    forall i | 0 <= i < |terms|
      ensures rs[i + 1] == (rs[i] + terms[i]) % W64
    {
      Run32Step(ts, Macs, ps, i + 1);
    }
    AddUpToSum(rs, terms, W64);
  }

  /** SUMEXT is the sign of what has accumulated. */
  lemma SignedDotProductSign(ts: seq<Regs>, ps: seq<(word, word)>)
    requires Run32(ts, Macs, ps) && ps != []
    ensures ts[|ps|].sumext == Sign(Signed(Result64(ts[|ps|]), W64) < 0)
  {
    Run32Step(ts, Macs, ps, |ps|);
  }

  // ---------------------------------------------------------------------------------------------
  // The device

  class Multiplier {
    var regs: Regs

    /** Clears a register bit by bit, from the top. */
    method ClearBits(value: half) returns (x: half)
      ensures x == 0
    {
      x := value;
      Pow2Constants();
      var i := 15;
      while i >= 0
        invariant -1 <= i <= 15 && x < Pow2(i + 1)
        decreases i
      {
        TopBitCleared(x, i);
        x := And(x, Not32(Pow2(i)));
        i := i - 1;
      }
    }

    method WriteLow(res: nat)
      modifies this
      ensures regs == WithResult32(old(regs), res)
    {
      FieldIsDigit(res);
      regs := regs.(res1 := Field(res, 16));
      regs := regs.(res0 := Field(res, 0));
    }

    method WriteAll(res: nat)
      modifies this
      ensures regs == WithResult64(old(regs), res)
    {
      FieldIsDigit(res);
      regs := regs.(res3 := Field(res, 48));
      regs := regs.(res2 := Field(res, 32));
      WriteLow(res);
    }

    method WriteSumext(v: half)
      modifies this
      ensures regs == old(regs).(sumext := v)
    {
      regs := regs.(sumext := v);
    }

    method WriteCarry(c: bool)
      modifies this
      ensures regs == old(regs).(ctl := SetC(old(regs).ctl, c))
    {
      regs := regs.(ctl := regs.ctl.(carry := c));
    }

    /** The sign of the result, `res3` or `res1`, goes to SUMEXT; some branches send it to the carry too. */
    method WriteSign(top: half, carry: bool)
      modifies this
      ensures var negative := top >= 0x8000;
              regs == old(regs).(sumext := Sign(negative),
                                 ctl := if carry then SetC(old(regs).ctl, negative) else old(regs).ctl)
    {
      SignTest16(top);
      if And(top, 0x8000) != 0 {
        WriteSumext(0xFFFF);
      } else {
        WriteSumext(0);
      }
      if carry {
        WriteCarry(And(top, 0x8000) != 0);
      }
    }

    /** The results before an accumulation, put together by shifts */
    method Previous80() returns (prev: nat)
      ensures prev == Result80(regs)
    {
      JoinedResults(regs);
      prev := Or(Or(Or(Or(Shl(regs.sumext, 64), Shl(regs.res3, 48)), Shl(regs.res2, 32)), Shl(regs.res1, 16)),
                 Shl(regs.res0, 0));
    }

    method Previous48() returns (prev: nat)
      ensures prev == Result48(regs)
    {
      JoinedLowResults(regs);
      prev := Or(Or(Shl(regs.sumext, 32), Shl(regs.res1, 16)), Shl(regs.res0, 0));
    }

    method Operands32(m: Mode) returns (op1: word, op2: word)
      ensures op1 == First32(regs, m) && op2 == Second32(regs)
    {
      OrLast(regs.first32H.At(m), regs.first32L.At(m));
      OrLast(regs.op2H, regs.op2L);
      op1 := Or(Shl(regs.first32H.At(m), 16), regs.first32L.At(m));
      op2 := Or(Shl(regs.op2H, 16), regs.op2L);
    }

    method Extend32(op: word) returns (x: nat)
      ensures x == SignExtended(op, W32, W64)
    {
      SignTest32(op);
      Extended32(op);
      x := if And(op, 0x8000_0000) != 0 then Or(op, 0xFFFF_FFFF_0000_0000) else op;
    }

    method Extend16(op: half) returns (x: nat)
      ensures x == SignExtended(op, W16, W32)
    {
      SignTest16(op);
      Extended16(op);
      x := if And(op, 0x8000) != 0 then Or(op, 0xFFFF_0000) else op;
    }

    method WriteAccumulated32(res: nat)
      modifies this
      ensures regs == Accumulated32(old(regs), res)
    {
      FieldIsDigit(res);
      WriteAll(res);
      var resC := Field(res, 64);
      WriteSumext(resC);
      WriteCarry(resC != 0);
    }

    method Accumulate32()
      modifies this
      ensures regs == Mac32(old(regs))
    {
      var prev := Previous80();
      var op1, op2 := Operands32(Mac);
      WriteAccumulated32(op1 * op2 % W64 + prev);
    }

    method WriteAccumulatedSigned32(res: nat, prev: nat)
      requires prev == Result80(regs)
      modifies this
      ensures regs == AccumulatedSigned32(old(regs), res)
    {
      FieldIsDigit(res);
      LowResults(regs);
      WriteAll(res);
      WriteSign(Field(res, 48), false);
      WriteCarry(res % W64 < prev % W64);
    }

    method AccumulateSigned32()
      modifies this
      ensures regs == Macs32(old(regs))
    {
      var prev := Previous80();
      var op1, op2 := Operands32(Macs);
      var x := Extend32(op1);
      var y := Extend32(op2);
      WriteAccumulatedSigned32(x * y % W64 + prev, prev);
    }

    method MultiplySigned32()
      modifies this
      ensures regs == Mpys32(old(regs))
    {
      var op1, op2 := Operands32(Mpys);
      var x := Extend32(op1);
      var y := Extend32(op2);
      var res := x * y % W64;
      FieldIsDigit(res);
      WriteAll(res);
      WriteSign(Field(res, 48), true);
    }

    method MultiplyUnsigned32()
      modifies this
      ensures regs == Mpy32(old(regs))
    {
      var op1, op2 := Operands32(Mpy);
      var res := op1 * op2 % W64;
      WriteAll(res);
      WriteCarry(false);
      WriteSumext(0);
    }

    method WriteAccumulated16(res: nat)
      modifies this
      ensures regs == Accumulated16(old(regs), res)
    {
      FieldIsDigit(res);
      WriteLow(res);
      var resC := Field(res, 32);
      WriteSumext(resC);
      WriteCarry(resC != 0);
    }

    method Accumulate16()
      modifies this
      ensures regs == Mac16(old(regs))
    {
      var prev := Previous48();
      WriteAccumulated16((regs.first16.At(Mac) * regs.op2 + prev) % W64);
    }

    method MultiplySigned16()
      modifies this
      ensures regs == Mpys16(old(regs))
    {
      var x := Extend16(regs.first16.At(Mpys));
      var y := Extend16(regs.op2);
      var res := x * y % W32;
      FieldIsDigit(res);
      WriteLow(res);
      WriteSign(Field(res, 16), true);
    }

    method MultiplyUnsigned16()
      modifies this
      ensures regs == Mpy16(old(regs))
    {
      var res := regs.first16.At(Mpy) * regs.op2 % W32;
      WriteLow(res);
      WriteCarry(false);
      WriteSumext(0);
    }

    method ClearResults()
      modifies this
      ensures regs == old(regs).(res3 := 0, res2 := 0, res1 := 0, res0 := 0)
    {
      var r3 := ClearBits(regs.res3);
      var r2 := ClearBits(regs.res2);
      var r1 := ClearBits(regs.res1);
      var r0 := ClearBits(regs.res0);
      regs := regs.(res3 := r3, res2 := r2, res1 := r1, res0 := r0);
    }

    method ClearLowResults()
      modifies this
      ensures regs == old(regs).(res1 := 0, res0 := 0)
    {
      var r1 := ClearBits(regs.res1);
      var r0 := ClearBits(regs.res0);
      regs := regs.(res1 := r1, res0 := r0);
    }

    method Wide()
      modifies this
      ensures regs == Compute(old(regs), true, old(regs).ctl.mode)
    {
      match regs.ctl.mode
      case Macs => AccumulateSigned32();
      case Mac => Accumulate32();
      case Mpys => ClearResults(); MultiplySigned32();
      case Mpy => ClearResults(); MultiplyUnsigned32();
    }

    method Narrow()
      modifies this
      ensures regs == Compute(old(regs), false, old(regs).ctl.mode)
    {
      match regs.ctl.mode
      case Macs =>
      case Mac => Accumulate16();
      case Mpys => ClearLowResults(); MultiplySigned16();
      case Mpy => ClearLowResults(); MultiplyUnsigned16();
    }

    method Process()
      modifies this
      ensures regs == Processed(old(regs))
    {
      if regs.ctl.op1Is32 || regs.ctl.op2Is32 {
        Wide();
      } else {
        Narrow();
      }
      regs := regs.(resLo := regs.res0);
      regs := regs.(resHi := regs.res1);
    }

    /** A read or a write on the bus. `ok` is false where the simulation stops, in fractional mode. */
    method Transport(r: Reg, a: Action) returns (ok: bool, data: half)
      modifies this
      ensures ok == !Fractional(old(regs))
      ensures (regs, data) == Access(old(regs), r, a)
    {
      ok, data := !regs.ctl.fractional, 0;
      if ok {
        regs := regs.(ctl := Selected(regs.ctl, r));
        match a {
          case Load => data := Held(regs, r);
          case Store(v) => regs := Stored(regs, r, v);
        }
        if r.Second16? || r.Second32H? {
          Process();
        }
      }
    }
  }
}

/** Unsigned machine words as natural numbers, with C's bit operators.
    The operators are defined bit by bit, and shifts by repeated halving and doubling, so that
    masks and shifts of any width can be reasoned about by induction. */
module Bits {

  type byte = x: nat | x < 0x100
  type half = x: nat | x < 0x1_0000
  type word = x: nat | x < 0x1_0000_0000

  const TWO32: nat := 0x1_0000_0000

  function Pow2(k: nat): (p: nat)
    ensures p >= 1
  {
    if k == 0 then 1 else 2 * Pow2(k - 1)
  }

  /** `a >> k` */
  function Shr(a: nat, k: nat): (r: nat)
    ensures r <= a
  {
    if k == 0 then a else Shr(a / 2, k - 1)
  }

  /** `a << k`, before any truncation to the width of the word */
  function Shl(a: nat, k: nat): nat {
    if k == 0 then a else 2 * Shl(a, k - 1)
  }

  /** The low `k` bits of `a` */
  function Low(a: nat, k: nat): (r: nat)
    ensures r <= a
  {
    if k == 0 then 0 else a % 2 + 2 * Low(a / 2, k - 1)
  }

  predicate Bit(a: nat, k: nat) {
    if k == 0 then a % 2 == 1 else Bit(a / 2, k - 1)
  }

  function And(a: nat, b: nat): (r: nat)
    ensures r <= a && r <= b
  {
    if a == 0 then 0
    else (if a % 2 == 1 && b % 2 == 1 then 1 else 0) + 2 * And(a / 2, b / 2)
  }

  function Or(a: nat, b: nat): (r: nat)
    ensures r >= a && r >= b && r <= a + b
  {
    if a == 0 then b
    else (if a % 2 == 1 || b % 2 == 1 then 1 else 0) + 2 * Or(a / 2, b / 2)
  }

  function Xor(a: nat, b: nat): (r: nat)
    ensures r <= a + b
  {
    if a == 0 then b
    else (if a % 2 != b % 2 then 1 else 0) + 2 * Xor(a / 2, b / 2)
  }

  /** `~a` in a 32-bit word */
  function Not32(a: word): word {
    0xFFFF_FFFF - a
  }

  function Add32(a: word, b: word): word {
    (a + b) % TWO32
  }

  function Sub32(a: word, b: word): word {
    (a - b) % TWO32
  }

  function BoolBit(b: bool): (r: nat)
    ensures r <= 1 && (r == 1 <==> b)
  {
    if b then 1 else 0
  }

  // ---------------------------------------------------------------------------------------------
  // Splitting and joining at a bit position

  lemma {:induction false} SplitJoin(a: nat, k: nat)
    ensures Shl(Shr(a, k), k) + Low(a, k) == a
    ensures Low(a, k) < Pow2(k)
  {
    if k > 0 {
      SplitJoin(a / 2, k - 1);
    }
  }

  lemma {:induction false} SplitUnique(hi: nat, lo: nat, k: nat)
    requires lo < Pow2(k)
    ensures Shr(Shl(hi, k) + lo, k) == hi
    ensures Low(Shl(hi, k) + lo, k) == lo
  {
    if k > 0 {
      var a := Shl(hi, k) + lo;
      assert a / 2 == Shl(hi, k - 1) + lo / 2;
      assert a % 2 == lo % 2;
      SplitUnique(hi, lo / 2, k - 1);
    }
  }

  lemma {:induction false} ShlIsProduct(a: nat, k: nat)
    ensures Shl(a, k) == a * Pow2(k)
  {
    if k > 0 {
      ShlIsProduct(a, k - 1);
      var p := Pow2(k - 1);
      assert Shl(a, k) == 2 * (a * p);
      assert 2 * (a * p) == a * (2 * p);
    }
  }

  lemma {:induction false} ShlNext(a: nat, k: nat)
    ensures Shl(a + 1, k) == Shl(a, k) + Pow2(k)
  {
    if k > 0 {
      ShlNext(a, k - 1);
    }
  }

  lemma {:induction false} ShlMonotone(a: nat, b: nat, k: nat)
    ensures a <= b <==> Shl(a, k) <= Shl(b, k)
    ensures a < b <==> Shl(a, k) + Pow2(k) <= Shl(b, k)
  {
    if k > 0 {
      ShlMonotone(a, b, k - 1);
    }
  }

  lemma {:induction false} ShrShr(a: nat, k: nat, m: nat)
    ensures Shr(Shr(a, k), m) == Shr(a, k + m)
  {
    if k > 0 {
      ShrShr(a / 2, k - 1, m);
    }
  }

  lemma {:induction false} ShlShl(a: nat, k: nat, m: nat)
    ensures Shl(Shl(a, m), k) == Shl(a, k + m)
  {
    if k > 0 {
      ShlShl(a, k - 1, m);
    }
  }

  lemma {:induction false} ShlAdd(a: nat, b: nat, k: nat)
    ensures Shl(a + b, k) == Shl(a, k) + Shl(b, k)
  {
    if k > 0 {
      ShlAdd(a, b, k - 1);
    }
  }

  lemma {:induction false} Pow2Add(k: nat, m: nat)
    ensures Pow2(k + m) == Shl(Pow2(m), k)
  {
    if k > 0 {
      Pow2Add(k - 1, m);
    }
  }

  /** Shifting and masking agree with division and remainder. */
  lemma {:induction false} ShrLowAreDivMod(a: nat, k: nat)
    ensures Shr(a, k) == a / Pow2(k)
    ensures Low(a, k) == a % Pow2(k)
  {
    SplitJoin(a, k);
    ShlIsProduct(Shr(a, k), k);
    DivModUnique(a, Pow2(k), Shr(a, k), Low(a, k));
  }

  lemma DivModUnique(a: nat, d: nat, q: nat, r: nat)
    requires r < d
    requires a == q * d + r
    ensures a / d == q && a % d == r
  {
    var q', r' := a / d, a % d;
    assert q' * d + r' == a;
    ProductMonotone(q' + 1, q, d);
    ProductMonotone(q + 1, q', d);
  }

  lemma ProductMonotone(a: nat, b: nat, d: nat)
    ensures a <= b ==> a * d <= b * d
  {
  }

  // ---------------------------------------------------------------------------------------------
  // Masks

  lemma {:induction false} AndMask(a: nat, k: nat)
    ensures And(a, Pow2(k) - 1) == Low(a, k)
  {
    if k == 0 {
      AndZero(a);
    } else {
      if a > 0 {
        assert (Pow2(k) - 1) / 2 == Pow2(k - 1) - 1;
        AndMask(a / 2, k - 1);
      } else {
        LowZero(k);
      }
    }
  }

  lemma {:induction false} AndZero(a: nat)
    ensures And(a, 0) == 0
  {
    if a > 0 {
      AndZero(a / 2);
    }
  }

  lemma {:induction false} LowZero(k: nat)
    ensures Low(0, k) == 0
  {
    if k > 0 {
      LowZero(k - 1);
    }
  }

  lemma {:induction false} ShrAnd(a: nat, b: nat, k: nat)
    ensures Shr(And(a, b), k) == And(Shr(a, k), Shr(b, k))
  {
    if k > 0 {
      if a > 0 {
        assert And(a, b) / 2 == And(a / 2, b / 2);
      }
      ShrAnd(a / 2, b / 2, k - 1);
    }
  }

  /** A field of `m` bits starting at bit `k`, extracted by mask and shift. */
  lemma {:induction false} AndField(a: nat, k: nat, m: nat)
    ensures Shr(And(a, Shl(Pow2(m) - 1, k)), k) == Low(Shr(a, k), m)
  {
    ShrAnd(a, Shl(Pow2(m) - 1, k), k);
    SplitUnique(Pow2(m) - 1, 0, k);
    AndMask(Shr(a, k), m);
  }

  /** Clearing the low `k` bits of a `w`-bit value. */
  lemma {:induction false} AndHighMask(a: nat, k: nat, w: nat)
    requires k <= w
    requires a < Pow2(w)
    ensures Pow2(k) <= Pow2(w)
    ensures And(a, Pow2(w) - Pow2(k)) == a - Low(a, k)
  {
    if k == 0 {
      AndMask(a, w);
      LowAll(a, w);
    } else {
      AndHighMask(a / 2, k - 1, w - 1);
      assert (Pow2(w) - Pow2(k)) / 2 == Pow2(w - 1) - Pow2(k - 1);
      if a == 0 {
        LowZero(k);
      }
    }
  }

  lemma {:induction false} LowAll(a: nat, k: nat)
    requires a < Pow2(k)
    ensures Low(a, k) == a
    ensures Shr(a, k) == 0
  {
    if k > 0 {
      LowAll(a / 2, k - 1);
    }
  }

  lemma {:induction false} OrDisjoint(hi: nat, lo: nat, k: nat)
    requires lo < Pow2(k)
    ensures Or(Shl(hi, k), lo) == Shl(hi, k) + lo
  {
    if k == 0 {
      OrZero(hi);
    } else if Shl(hi, k) > 0 {
      assert Shl(hi, k) / 2 == Shl(hi, k - 1);
      OrDisjoint(hi, lo / 2, k - 1);
    }
  }

  /** Putting `n` more bits below those that have been put together */
  lemma OrNext(hi: nat, d: nat, k: nat, n: nat)
    requires d < Pow2(n)
    ensures Or(Shl(hi, k + n), Shl(d, k)) == Shl(Shl(hi, n) + d, k)
  {
    ShlShl(hi, k, n);
    ShlMonotone(d, Pow2(n), k);
    Pow2Add(k, n);
    OrDisjoint(hi, Shl(d, k), k + n);
    ShlAdd(Shl(hi, n), d, k);
  }

  /** The bits from `k` up and those below are masked side by side. */
  lemma {:induction false} AndConcat(x: nat, y: nat, k: nat)
    ensures And(x, y) == Shl(And(Shr(x, k), Shr(y, k)), k) + And(Low(x, k), Low(y, k))
  {
    if k > 0 {
      AndConcat(x / 2, y / 2, k - 1);
      AndHalves(x, y);
      LowHalves(x, k);
      LowHalves(y, k);
      AndHalves(Low(x, k), Low(y, k));
    }
  }

  lemma AndHalves(a: nat, b: nat)
    ensures And(a, b) == (if a % 2 == 1 && b % 2 == 1 then 1 else 0) + 2 * And(a / 2, b / 2)
  {
  }

  lemma LowHalves(x: nat, k: nat)
    requires k > 0
    ensures Low(x, k) / 2 == Low(x / 2, k - 1) && Low(x, k) % 2 == x % 2
  {
  }

  /** A mask `c` shifted to bit `k` */
  lemma AndShifted(a: nat, c: nat, k: nat)
    ensures And(a, Shl(c, k)) == Shl(And(Shr(a, k), c), k)
  {
    SplitUnique(c, 0, k);
    AndConcat(a, Shl(c, k), k);
    AndZero(Low(a, k));
  }

  lemma {:induction false} OrZero(a: nat)
    ensures Or(a, 0) == a
  {
    if a > 0 {
      OrZero(a / 2);
    }
  }

  lemma {:induction false} OrSymmetric(a: nat, b: nat)
    ensures Or(a, b) == Or(b, a)
  {
    if a == 0 {
      OrZero(b);
    } else if b == 0 {
      OrZero(a);
    } else {
      OrSymmetric(a / 2, b / 2);
    }
  }

  // ---------------------------------------------------------------------------------------------
  // Single bits

  lemma {:induction false} ZeroBit(k: nat)
    ensures !Bit(0, k)
  {
    if k > 0 {
      ZeroBit(k - 1);
    }
  }

  // ---------------------------------------------------------------------------------------------
  // Powers of two and words

  lemma {:induction false} Pow2Grows(k: nat, n: nat)
    requires k <= n
    ensures Pow2(k) <= Pow2(n)
  {
    if k < n {
      Pow2Grows(k, n - 1);
    }
  }

  lemma Pow2AtMost32(k: nat)
    requires k <= 32
    ensures Pow2(k) <= TWO32
  {
    var w := 32;
    Pow2Grows(k, w);
    Pow2Constants();
  }

  lemma NoTruncation(x: nat)
    requires x < TWO32
    ensures x % TWO32 == x
  {
  }

  lemma Pow2Constants()
    ensures Pow2(1) == 2 && Pow2(2) == 4 && Pow2(3) == 8
    ensures Pow2(8) == 0x100 && Pow2(9) == 0x200 && Pow2(10) == 0x400
    ensures Pow2(16) == 0x1_0000
    ensures Pow2(28) == 0x1000_0000 && Pow2(29) == 0x2000_0000 && Pow2(30) == 0x4000_0000
    ensures Pow2(31) == 0x8000_0000 && Pow2(32) == 0x1_0000_0000
  {
    assert Pow2(4) == 16;
    assert Pow2(6) == 64;
    assert Pow2(8) == 256;
    assert Pow2(10) == 1024;
    assert Pow2(12) == 4096;
    assert Pow2(14) == 16384;
    assert Pow2(16) == 65536;
    assert Pow2(18) == 0x4_0000;
    assert Pow2(20) == 0x10_0000;
    assert Pow2(22) == 0x40_0000;
    assert Pow2(24) == 0x100_0000;
    assert Pow2(26) == 0x400_0000;
    assert Pow2(28) == 0x1000_0000;
    assert Pow2(30) == 0x4000_0000;
  }
}

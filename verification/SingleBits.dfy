/** Testing, clearing and setting one bit of a word, as arithmetic on the value of the bit. */
module SingleBits {
  import opened Bits

  /** A mask and its complement share the bits of `a` out between them. */
  lemma {:induction false} AndComplement(a: nat, m: nat, w: nat)
    requires a < Pow2(w) && m < Pow2(w)
    ensures And(a, m) + And(a, Pow2(w) - 1 - m) == a
  {
    if w > 0 && a > 0 {
      ComplementHalf(m, w);
      AndComplement(a / 2, m / 2, w - 1);
    }
  }

  lemma ComplementHalf(m: nat, w: nat)
    requires w > 0 && m < Pow2(w)
    ensures (Pow2(w) - 1 - m) / 2 == Pow2(w - 1) - 1 - m / 2
    ensures (Pow2(w) - 1 - m) % 2 == 1 - m % 2
  {
  }

  lemma {:induction false} TestBit(a: nat, k: nat)
    ensures And(a, Pow2(k)) == if Bit(a, k) then Pow2(k) else 0
  {
    if a == 0 {
      ZeroBit(k);
    } else if k == 0 {
      AndZero(a / 2);
    } else {
      assert Pow2(k) / 2 == Pow2(k - 1) && Pow2(k) % 2 == 0;
      TestBit(a / 2, k - 1);
    }
  }

  lemma {:induction false} SetBit(a: nat, k: nat)
    ensures Or(a, Pow2(k)) == a + (if Bit(a, k) then 0 else Pow2(k))
  {
    if a == 0 {
      ZeroBit(k);
    } else if k == 0 {
      OrZero(a / 2);
    } else {
      assert Pow2(k) / 2 == Pow2(k - 1) && Pow2(k) % 2 == 0;
      SetBit(a / 2, k - 1);
    }
  }

  lemma {:induction false} BitIsQuotient(a: nat, k: nat)
    ensures Bit(a, k) <==> (a / Pow2(k)) % 2 == 1
  {
    ShrLowAreDivMod(a, k);
    BitOfShr(a, k);
  }

  lemma {:induction false} BitOfShr(a: nat, k: nat)
    ensures Bit(a, k) <==> Shr(a, k) % 2 == 1
  {
    if k > 0 {
      BitOfShr(a / 2, k - 1);
    }
  }

  lemma {:induction false} Pow2Less(k: nat, w: nat)
    requires k < w
    ensures Pow2(k) < Pow2(w)
  {
    if k + 1 < w {
      Pow2Less(k, w - 1);
    }
  }

  lemma {:induction false} OrBit(a: nat, b: nat, k: nat)
    ensures Bit(Or(a, b), k) == (Bit(a, k) || Bit(b, k))
  {
    if a == 0 {
      ZeroBit(k);
    } else if k > 0 {
      var x, y := a / 2, b / 2;
      assert Or(a, b) / 2 == Or(x, y);
      OrBit(x, y, k - 1);
    }
  }

  lemma {:induction false} AndBit(a: nat, b: nat, k: nat)
    ensures Bit(And(a, b), k) == (Bit(a, k) && Bit(b, k))
  {
    if a == 0 {
      ZeroBit(k);
    } else if k > 0 {
      var x, y := a / 2, b / 2;
      assert And(a, b) / 2 == And(x, y);
      AndBit(x, y, k - 1);
    }
  }

  lemma {:induction false} ComplementBit(a: nat, w: nat, k: nat)
    requires k < w && a < Pow2(w)
    ensures Bit(Pow2(w) - 1 - a, k) == !Bit(a, k)
  {
    ComplementHalf(a, w);
    if k > 0 {
      ComplementBit(a / 2, w - 1, k - 1);
    }
  }

  lemma {:induction false} PowerBit(j: nat, k: nat)
    ensures Bit(Pow2(j), k) <==> j == k
  {
    if j == 0 && k > 0 {
      ZeroBit(k - 1);
    } else if j > 0 && k > 0 {
      PowerBit(j - 1, k - 1);
    }
  }

  lemma {:induction false} OrBelow(a: nat, b: nat, k: nat)
    requires a < Pow2(k) && b < Pow2(k)
    ensures Or(a, b) < Pow2(k)
  {
    if k > 0 && a > 0 {
      OrBelow(a / 2, b / 2, k - 1);
    }
  }

  /** `|` and `& ~` on words, bit by bit */
  lemma WordOr(a: word, b: word, i: nat)
    ensures Or(a, b) < TWO32
    ensures Bit(Or(a, b), i) == (Bit(a, i) || Bit(b, i))
  {
    var w := 32;
    Pow2Constants();
    OrBelow(a, b, w);
    OrBit(a, b, i);
  }

  lemma WordAndNot(a: word, b: word, i: nat)
    requires i < 32
    ensures Bit(And(a, Not32(b)), i) == (Bit(a, i) && !Bit(b, i))
  {
    var w := 32;
    Pow2Constants();
    AndBit(a, Not32(b), i);
    ComplementBit(b, w, i);
  }

  /** Testing, clearing and setting bit `k` of a word, as arithmetic on `p`, the value of the bit */
  lemma BitOperations(a: word, k: nat, p: nat)
    requires k < 32 && p == Pow2(k)
    ensures p < TWO32
    ensures And(a, p) == if a / p % 2 == 1 then p else 0
    ensures And(a, Not32(p)) == a - (if a / p % 2 == 1 then p else 0)
    ensures Or(a, p) == a + (if a / p % 2 == 1 then 0 else p)
  {
    var w := 32;
    assert Pow2(w) == TWO32 by { Pow2Constants(); }
    Pow2Less(k, w);
    BitIsQuotient(a, k);
    TestBit(a, k);
    AndComplement(a, p, w);
    SetBit(a, k);
  }

  /** `a` with the bit of value `p` set to `x` */
  function WithBit(a: word, p: nat, x: bool): int
    requires p > 0
  {
    a - (if a / p % 2 == 1 then p else 0) + (if x then p else 0)
  }

  lemma BitCleared(a: word, p: nat)
    requires p > 0 && a / p % 2 == 1
    ensures a >= p && (a - p) / p % 2 == 0
  {
    var q := a / p;
    ProductMonotone(1, q, p);
    assert a - p == (q - 1) * p + a % p;
    DivModUnique(a - p, p, q - 1, a % p);
  }

  /** `cpu_set_flag`: the new bit or the word with the bit cleared */
  lemma SetFlagMask(a: word, k: nat, p: word, x: bool)
    requires k < 32 && p == Pow2(k)
    ensures Or(if x then p else 0, And(a, Not32(p))) == WithBit(a, p, x)
  {
    var cleared := a - (if a / p % 2 == 1 then p else 0);
    assert And(a, Not32(p)) == cleared by { BitOperations(a, k, p); }
    if a / p % 2 == 1 {
      BitCleared(a, p);
    }
    assert Or(cleared, p) == cleared + p by { BitOperations(cleared, k, p); }
    OrZero(cleared);
    OrSymmetric(p, cleared);
  }
}

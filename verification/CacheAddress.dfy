/** How the cache splits a 32-bit address into tag, set index and line offset, and how it puts the
    address of a victim line together again. */
module CacheAddress {
  import opened Bits

  /** Line width and set count are powers of two; `log2` of each is kept. */
  datatype Geometry = Geometry(offsetBits: nat, idBits: nat) {
    predicate Ok() {
      offsetBits + idBits < 32
    }

    function LineWidth(): (w: nat)
      ensures w >= 1
    {
      Pow2(offsetBits)
    }

    function NSets(): (n: nat)
      ensures n >= 1
    {
      Pow2(idBits)
    }

    function OffsetMask(): nat {
      LineWidth() - 1
    }

    function IdMask(): nat {
      Shl(NSets() - 1, offsetBits)
    }

    function TagMask(): nat
      requires Ok()
    {
      MaskFits(this);
      Not32(Or(OffsetMask(), IdMask()))
    }

    function Index(addr: word): nat {
      Shr(And(addr, IdMask()), offsetBits)
    }

    function Tag(addr: word): nat
      requires Ok()
    {
      Shr(And(addr, TagMask()), offsetBits + idBits)
    }

    function Offset(addr: word): nat {
      And(addr, OffsetMask())
    }

    /** The address `readLine` loads a line from */
    function LineBase(addr: word): nat
      requires Ok()
    {
      MaskFits(this);
      And(addr, Not32(OffsetMask()))
    }

    /** The address `writeLine` stores a victim line to; the left shift is truncated to 32 bits */
    function WriteBackAddress(tag: nat, index: nat): nat {
      Or(Shl(tag, offsetBits + idBits) % TWO32, Shl(index, offsetBits))
    }

    /** Number of the line-sized block of memory that holds `addr` */
    function Block(addr: word): (b: nat)
      ensures b <= addr
    {
      Shr(addr, offsetBits)
    }

    /** The block a line with tag `tag` in set `index` stands for */
    function Join(tag: nat, index: nat): nat {
      Shl(tag, idBits) + index
    }

    /** `b_transport` rejects an access whose last byte has a smaller offset than its first */
    predicate AlignmentCheck(addr: word, len: nat)
      requires len >= 1
      requires addr + len <= TWO32
    {
      Offset(addr) <= Offset(addr + len - 1)
    }
  }

  lemma MaskFits(g: Geometry)
    requires g.Ok()
    ensures g.OffsetMask() < TWO32
    ensures Or(g.OffsetMask(), g.IdMask()) == Pow2(g.offsetBits + g.idBits) - 1 < TWO32
  {
    Pow2AtMost32(g.offsetBits);
    Pow2AtMost32(g.offsetBits + g.idBits);
    JoinMasks(g.offsetBits, g.idBits);
  }

  lemma JoinMasks(k: nat, m: nat)
    ensures Or(Pow2(k) - 1, Shl(Pow2(m) - 1, k)) == Pow2(k + m) - 1
  {
    var hi, lo := Shl(Pow2(m) - 1, k), Pow2(k) - 1;
    assert Or(lo, hi) == hi + lo by {
      OrSymmetric(lo, hi);
      OrDisjoint(Pow2(m) - 1, lo, k);
    }
    assert hi + Pow2(k) == Pow2(k + m) by {
      ShlNext(Pow2(m) - 1, k);
      Pow2Add(k, m);
    }
  }

  /** Masks and shifts compute the three fields of the address: the low bits, the next bits and the
      rest; and the fields determine the block. */
  lemma AddressFields(g: Geometry, addr: word)
    requires g.Ok()
    ensures g.Offset(addr) == Low(addr, g.offsetBits) < g.LineWidth()
    ensures g.Index(addr) == Low(g.Block(addr), g.idBits) < g.NSets()
    ensures g.Tag(addr) == Shr(g.Block(addr), g.idBits)
    ensures g.LineBase(addr) == Shl(g.Block(addr), g.offsetBits)
    ensures g.LineBase(addr) + g.Offset(addr) == addr
  {
    var k, m := g.offsetBits, g.idBits;
    assert g.Offset(addr) == Low(addr, k) by { AndMask(addr, k); }
    assert g.Index(addr) == Low(Shr(addr, k), m) by { AndField(addr, k, m); }
    assert g.LineBase(addr) == Shl(Shr(addr, k), k) by { BaseField(g, addr); }
    SplitJoin(addr, k);
    SplitJoin(Shr(addr, k), m);
    TagField(g, addr);
  }

  lemma BaseField(g: Geometry, addr: word)
    requires g.Ok()
    ensures g.LineBase(addr) == Shl(Shr(addr, g.offsetBits), g.offsetBits)
  {
    MaskFits(g);
    HighMask(addr, g.offsetBits);
  }

  /** Clearing the low `k` bits of a word */
  lemma HighMask(addr: word, k: nat)
    requires k < 32 && Pow2(k) <= TWO32
    ensures And(addr, TWO32 - Pow2(k)) == Shl(Shr(addr, k), k)
  {
    Pow2Constants();
    AndHighMask(addr, k, 32);
    SplitJoin(addr, k);
  }

  lemma TagField(g: Geometry, addr: word)
    requires g.Ok()
    ensures g.Tag(addr) == Shr(Shr(addr, g.offsetBits), g.idBits)
  {
    var k, m := g.offsetBits, g.idBits;
    MaskFits(g);
    HighMask(addr, k + m);
    SplitUnique(Shr(addr, k + m), 0, k + m);
    ShrShr(addr, k, m);
  }

  lemma JoinSplit(g: Geometry, block: nat)
    ensures Low(block, g.idBits) < g.NSets()
    ensures g.Join(Shr(block, g.idBits), Low(block, g.idBits)) == block
  {
    SplitJoin(block, g.idBits);
  }

  lemma JoinUnique(g: Geometry, tag: nat, index: nat)
    requires index < g.NSets()
    ensures Shr(g.Join(tag, index), g.idBits) == tag
    ensures Low(g.Join(tag, index), g.idBits) == index
  {
    SplitUnique(tag, index, g.idBits);
  }

  /** A line that stands for a block inside the 32-bit address space is written back to exactly the
      address of that block. */
  lemma WriteBackIsBlockAddress(g: Geometry, tag: nat, index: nat)
    requires g.Ok() && index < g.NSets()
    requires Shl(g.Join(tag, index), g.offsetBits) < TWO32
    ensures g.WriteBackAddress(tag, index) == Shl(g.Join(tag, index), g.offsetBits)
  {
    JoinAddress(tag, index, g.offsetBits, g.idBits);
    NoTruncation(Shl(tag, g.offsetBits + g.idBits));
  }

  lemma JoinAddress(tag: nat, index: nat, k: nat, m: nat)
    requires index < Pow2(m)
    ensures Shl(tag, k + m) <= Shl(Shl(tag, m) + index, k)
    ensures Shl(Shl(tag, m) + index, k) == Or(Shl(tag, k + m), Shl(index, k))
  {
    ShlShl(tag, k, m);
    ShlAdd(Shl(tag, m), index, k);
    ShlMonotone(index, Pow2(m), k);
    Pow2Add(k, m);
    OrDisjoint(tag, Shl(index, k), k + m);
  }

  /** Split and rejoin are inverse: the write-back address built from the tag and index of `addr` is
      the address the line was loaded from. */
  lemma WriteBackRejoins(g: Geometry, addr: word)
    requires g.Ok()
    ensures g.WriteBackAddress(g.Tag(addr), g.Index(addr)) == g.LineBase(addr)
    ensures g.WriteBackAddress(g.Tag(addr), g.Index(addr)) + g.Offset(addr) == addr
  {
    AddressFields(g, addr);
    JoinSplit(g, g.Block(addr));
    WriteBackIsBlockAddress(g, g.Tag(addr), g.Index(addr));
  }

  /** For an access no longer than a line the alignment check holds exactly when first and last byte
      are in one line. */
  lemma AlignmentCheckShort(g: Geometry, addr: word, len: nat)
    requires g.Ok()
    requires 1 <= len <= g.LineWidth() && addr + len <= TWO32
    ensures g.AlignmentCheck(addr, len) <==> g.Block(addr) == g.Block(addr + len - 1)
    ensures g.AlignmentCheck(addr, len) <==> g.Offset(addr) + len <= g.LineWidth()
  {
    var last := addr + len - 1;
    var k := g.offsetBits;
    AddressFields(g, addr);
    AddressFields(g, last);
    ShlMonotone(g.Block(addr), g.Block(last), k);
    ShlMonotone(g.Block(last), g.Block(addr), k);
    ShlNext(g.Block(addr), k);
    ShlMonotone(g.Block(addr) + 1, g.Block(last), k);
  }

  /** An access of any length stays in one line if and only if the check passes and the access is no
      longer than a line: the check misses exactly the longer accesses it lets pass. */
  lemma AlignmentCheckExact(g: Geometry, addr: word, len: nat)
    requires g.Ok() && 1 <= len && addr + len <= TWO32
    ensures g.Block(addr) == g.Block(addr + len - 1) <==> g.AlignmentCheck(addr, len) && len <= g.LineWidth()
  {
    if len <= g.LineWidth() {
      AlignmentCheckShort(g, addr, len);
    } else {
      AddressFields(g, addr);
      AddressFields(g, addr + len - 1);
    }
  }

  /** With lines of one byte the check lets every access pass: a word access of two bytes to address 0
      touches two lines. */
  lemma AlignmentCheckMissesWord(idBits: nat)
    requires idBits < 32
    ensures var g := Geometry(0, idBits);
            g.Ok() && g.LineWidth() == 1 && g.AlignmentCheck(0, 2) && g.Block(0) != g.Block(1)
  {
    var g := Geometry(0, idBits);
    AlignmentCheckExact(g, 0, 2);
    AddressFields(g, 0);
    AddressFields(g, 1);
  }
}

/** The FIFO of the SPI peripheral: up to four bytes packed low byte first in a 32-bit word, against a
    queue of bytes. */
module SpiFifo {
  import opened Bits
  import opened SingleBits

  const CAPACITY: nat := 4

  datatype Fifo = Fifo(nValidBytes: int, data: word)

  /** Transfers are of 4 to 16 bits, which take one or two bytes. */
  function Bytes(nbits: nat): (n: nat)
    requires 4 <= nbits <= 16
    ensures n == 1 || n == 2
    ensures n == 1 <==> nbits <= 8
  {
    (nbits - 1) / 8 + 1
  }

  function Mask(nbytes: nat): nat {
    if nbytes == 1 then 0xFF else 0xFFFF
  }

  /** `put`: the new state and whether the put was rejected */
  function Store(f: Fifo, nbits: nat, val: word): (r: (Fifo, bool))
    requires 4 <= nbits <= 16 && f.nValidBytes >= 0
  {
    var n := Bytes(nbits);
    if n + f.nValidBytes > CAPACITY then (f, true)
    else
      (Fifo(f.nValidBytes + n, Placed(f.data, Mask(n), val, 8 * f.nValidBytes)), false)
  }

  /** The masked value, put into the word at bit `k` after clearing what is there */
  function Placed(data: word, mask: nat, val: word, k: nat): word {
    Merged(data, Shl(mask, k), Shl(And(val, mask), k))
  }

  function Merged(data: word, cleared: nat, set_: nat): word {
    Or(And(data, Not32(cleared % TWO32)), set_ % TWO32) % TWO32
  }

  /** `get`: the new state and the value read. Reading more than there is only logs a warning. */
  function Take(f: Fifo, nbits: nat): (r: (Fifo, nat))
    requires 4 <= nbits <= 16
  {
    var n := Bytes(nbits);
    (Fifo(f.nValidBytes - n, Shr(f.data, 8 * n)), And(f.data, Mask(n)))
  }

  function LevelOf(f: Fifo): int {
    if f.nValidBytes <= 2 then f.nValidBytes else if f.nValidBytes == 3 then 2 else 3
  }

  // ---------------------------------------------------------------------------------------------
  // The queue

  function Pack(q: seq<byte>): nat {
    if q == [] then 0 else q[0] + 0x100 * Pack(q[1..])
  }

  /** The bytes of a value, low byte first */
  function Split(val: word, n: nat): (q: seq<byte>)
    requires n == 1 || n == 2
    ensures |q| == n
  {
    if n == 1 then [val % 0x100] else [val % 0x100, val / 0x100 % 0x100]
  }

  /** The FIFO holds the queue `q`, and the bytes above it are zero. */
  ghost predicate Holds(f: Fifo, q: seq<byte>) {
    |q| <= CAPACITY && f.nValidBytes == |q| && f.data == Pack(q)
  }

  lemma EightMore(m: nat)
    ensures Pow2(m + 8) == 0x100 * Pow2(m)
  {
    assert Pow2(m + 2) == 4 * Pow2(m) && Pow2(m + 4) == 4 * Pow2(m + 2);
    assert Pow2(m + 6) == 4 * Pow2(m + 4) && Pow2(m + 8) == 4 * Pow2(m + 6);
  }

  lemma EightMoreShift(x: nat, m: nat)
    ensures Shl(x, m + 8) == 0x100 * Shl(x, m)
  {
    assert Shl(x, m + 2) == 4 * Shl(x, m) && Shl(x, m + 4) == 4 * Shl(x, m + 2);
    assert Shl(x, m + 6) == 4 * Shl(x, m + 4) && Shl(x, m + 8) == 4 * Shl(x, m + 6);
  }

  lemma {:induction false} PackBound(q: seq<byte>)
    ensures Pack(q) < Pow2(8 * |q|)
  {
    if q != [] {
      PackBound(q[1..]);
      EightMore(8 * |q[1..]|);
    }
  }

  lemma PackIsWord(q: seq<byte>)
    requires |q| <= CAPACITY
    ensures Pack(q) < TWO32
  {
    PackBound(q);
    Pow2AtMost32(8 * |q|);
  }

  lemma {:induction false} PackConcat(q: seq<byte>, r: seq<byte>)
    ensures Pack(q + r) == Pack(q) + Shl(Pack(r), 8 * |q|)
  {
    if q == [] {
      assert q + r == r;
    } else {
      PackConcat(q[1..], r);
      assert (q + r)[1..] == q[1..] + r;
      EightMoreShift(Pack(r), 8 * |q[1..]|);
    }
  }

  lemma PackPair(a: byte, b: byte)
    ensures Pack([a]) == a && Pack([a, b]) == a + 0x100 * b
  {
    assert [a][1..] == [] && [a, b][1..] == [b] && [b][1..] == [];
  }

  lemma MaskIsPower(n: nat)
    requires n == 1 || n == 2
    ensures Mask(n) == Pow2(8 * n) - 1
  {
    Pow2Constants();
  }

  lemma TwoBytes(val: word)
    ensures val % 0x1_0000 == val % 0x100 + 0x100 * (val / 0x100 % 0x100)
  {
  }

  /** What a put stores */
  lemma MaskedValue(val: word, n: nat)
    requires n == 1 || n == 2
    ensures And(val, Mask(n)) == Pack(Split(val, n))
  {
    MaskIsPower(n);
    AndMask(val, 8 * n);
    ShrLowAreDivMod(val, 8 * n);
    Pow2Constants();
    PackPair(val % 0x100, val / 0x100 % 0x100);
    TwoBytes(val);
  }

  lemma {:induction false} DisjointAnd(a: nat, m: nat, k: nat)
    requires a < Pow2(k)
    ensures And(a, Shl(m, k)) == 0
  {
    if k > 0 && a > 0 {
      assert Shl(m, k) == 2 * Shl(m, k - 1) by { ShlNext(m, k - 1); }
      DisjointAnd(a / 2, m, k - 1);
    }
  }

  /** The mask clears nothing where the bytes are zero already. */
  lemma ClearingKeeps(data: nat, mask: nat, k: nat)
    requires data < Pow2(k) && k <= 32 && Shl(mask, k) < TWO32
    ensures And(data, 0xFFFF_FFFF - Shl(mask, k)) == data
  {
    var w := 32;
    assert Pow2(w) == TWO32 by { Pow2Constants(); }
    Pow2AtMost32(k);
    DisjointAnd(data, mask, k);
    AndComplement(data, Shl(mask, k), w);
  }

  lemma {:induction false} ShlBound(x: nat, a: nat, k: nat)
    requires x < Pow2(a)
    ensures Shl(x, k) < Pow2(a + k)
  {
    if k > 0 {
      ShlBound(x, a, k - 1);
    }
  }

  lemma FitsAbove(x: nat, n: nat, k: nat)
    requires x < Pow2(8 * n) && k + 8 * n <= 32
    ensures Shl(x, k) < TWO32
  {
    ShlBound(x, 8 * n, k);
    Pow2AtMost32(8 * n + k);
  }

  /** On a word with zeros from bit `k` on, the value is added there. */
  lemma PlacedAdds(data: word, mask: nat, k: nat, value: nat)
    requires k <= 32 && data < Pow2(k)
    requires Shl(mask, k) < TWO32 && data + Shl(value, k) < TWO32
    ensures Merged(data, Shl(mask, k), Shl(value, k)) == data + Shl(value, k)
  {
    var m, v := Shl(mask, k), Shl(value, k);
    ClearingKeeps(data, mask, k);
    OrDisjoint(value, data, k);
    OrSymmetric(data, v);
    MergedAdds(data, m, v);
  }

  lemma MergedAdds(data: word, m: nat, v: nat)
    requires m < TWO32 && data + v < TWO32 && And(data, Not32(m)) == data && Or(data, v) == data + v
    ensures Merged(data, m, v) == data + v
  {
    NoTruncation(m);
    NoTruncation(v);
    NoTruncation(data + v);
  }

  /** A put appends the bytes of the value, or changes nothing if they do not fit. */
  lemma PutAppends(f: Fifo, q: seq<byte>, nbits: nat, val: word)
    requires Holds(f, q) && 4 <= nbits <= 16
    ensures var (g, rejected) := Store(f, nbits, val);
            && (rejected <==> |q| + Bytes(nbits) > 4)
            && (rejected ==> g == f)
            && (!rejected ==> Holds(g, q + Split(val, Bytes(nbits))))
  {
    var n, k := Bytes(nbits), 8 * |q|;
    if |q| + n <= CAPACITY {
      var r := Split(val, n);
      MaskedValue(val, n);
      PackBound(q);
      PackBound(r);
      MaskIsPower(n);
      FitsAbove(Mask(n), n, k);
      PackConcat(q, r);
      PackIsWord(q + r);
      PlacedAdds(f.data, Mask(n), k, Pack(r));
    }
  }

  /** A get of no more than the queue holds takes its first bytes off. */
  lemma GetTakes(f: Fifo, q: seq<byte>, nbits: nat)
    requires Holds(f, q) && 4 <= nbits <= 16 && Bytes(nbits) <= |q|
    ensures var (g, val) := Take(f, nbits);
            Holds(g, q[Bytes(nbits)..]) && val == Pack(q[..Bytes(nbits)])
  {
    var n := Bytes(nbits);
    PackSplits(q, n);
    ReadsLow(f.data, n);
  }

  lemma PackSplits(q: seq<byte>, n: nat)
    requires n <= |q|
    ensures Shr(Pack(q), 8 * n) == Pack(q[n..]) && Low(Pack(q), 8 * n) == Pack(q[..n])
  {
    var a, b := q[..n], q[n..];
    assert Pack(q) == Pack(a) + Shl(Pack(b), 8 * n) by {
      assert q == a + b;
      PackConcat(a, b);
    }
    PackBound(a);
    SplitNumber(Pack(q), Pack(b), Pack(a), 8 * n);
  }

  lemma SplitNumber(x: nat, hi: nat, lo: nat, k: nat)
    requires lo < Pow2(k) && x == lo + Shl(hi, k)
    ensures Shr(x, k) == hi && Low(x, k) == lo
  {
    SplitUnique(hi, lo, k);
  }

  lemma ReadsLow(data: nat, n: nat)
    requires n == 1 || n == 2
    ensures And(data, Mask(n)) == Low(data, 8 * n)
  {
    MaskIsPower(n);
    AndMask(data, 8 * n);
  }

  /** A get past the valid bytes returns what there is with zeros above, not ones, and leaves a count
      below zero: the FIFO holds a queue afterwards exactly if the get took no more than it held. */
  lemma GetRefinesExactly(f: Fifo, q: seq<byte>, nbits: nat)
    requires Holds(f, q) && 4 <= nbits <= 16
    ensures Bytes(nbits) <= |q| <==> exists r :: Holds(Take(f, nbits).0, r)
    ensures Bytes(nbits) > |q| ==> Take(f, nbits).1 == Pack(q)
  {
    var n := Bytes(nbits);
    if n <= |q| {
      GetTakes(f, q, nbits);
      assert Holds(Take(f, nbits).0, q[n..]);
    } else {
      PackBound(q);
      ReadsLow(f.data, n);
      Pow2Less(8 * |q|, 8 * n);
      assert Shl(0, 8 * n) == 0 by { ShlIsProduct(0, 8 * n); }
      SplitUnique(0, f.data, 8 * n);
    }
  }

  /** The fill level: 0, 1 and 2 for that many bytes, 2 for three bytes as well, and 3 for a full FIFO */
  lemma LevelExact(f: Fifo, q: seq<byte>)
    requires Holds(f, q)
    ensures LevelOf(f) == if |q| <= 2 then |q| else |q| - 1
    ensures LevelOf(f) == 3 <==> |q| == 4
    ensures LevelOf(f) == 0 <==> q == []
  {
  }

  // ---------------------------------------------------------------------------------------------
  // Runs

  datatype Op = PutOp(nbits: nat, val: word) | GetOp(nbits: nat) | ResetOp

  predicate OpOk(op: Op) {
    op.ResetOp? || 4 <= op.nbits <= 16
  }

  /** The queue after an operation and the value read or the rejection; None for a get past the end */
  datatype QueueResult = None | Some(q: seq<byte>, value: nat, rejected: bool)

  function QueueStep(q: seq<byte>, op: Op): QueueResult
    requires OpOk(op)
  {
    match op
    case PutOp(nbits, val) =>
      if |q| + Bytes(nbits) > 4 then Some(q, 0, true) else Some(q + Split(val, Bytes(nbits)), 0, false)
    case GetOp(nbits) =>
      var n := Bytes(nbits);
      if n > |q| then None else Some(q[n..], Pack(q[..n]), false)
    case ResetOp => Some([], 0, false)
  }

  datatype FifoResult = FifoResult(f: Fifo, value: nat, rejected: bool)

  function FifoStep(f: Fifo, op: Op): FifoResult
    requires OpOk(op) && (op.PutOp? ==> f.nValidBytes >= 0)
  {
    match op
    case PutOp(nbits, val) => var r := Store(f, nbits, val); FifoResult(r.0, 0, r.1)
    case GetOp(nbits) => var r := Take(f, nbits); FifoResult(r.0, r.1, false)
    case ResetOp => FifoResult(Fifo(0, 0), 0, false)
  }

  lemma StepRefines(f: Fifo, q: seq<byte>, op: Op)
    requires Holds(f, q) && OpOk(op) && QueueStep(q, op).Some?
    ensures var r, s := QueueStep(q, op), FifoStep(f, op);
            Holds(s.f, r.q) && s.value == r.value && s.rejected == r.rejected
  {
    match op
    case PutOp(nbits, val) => PutAppends(f, q, nbits, val);
    case GetOp(nbits) => GetTakes(f, q, nbits);
    case ResetOp =>
  }

  /** A run of the queue in which no get goes past the end: `qs` are the queues before, between and
      after the operations. */
  ghost predicate QueueRun(qs: seq<seq<byte>>, ops: seq<Op>) {
    && |qs| == |ops| + 1
    && forall k | 0 <= k < |ops| ::
         OpOk(ops[k]) && QueueStep(qs[k], ops[k]).Some? && qs[k + 1] == QueueStep(qs[k], ops[k]).q
  }

  ghost predicate FifoRun(fs: seq<Fifo>, ops: seq<Op>) {
    && |fs| == |ops| + 1
    && forall k | 0 <= k < |ops| ::
         && OpOk(ops[k]) && (ops[k].PutOp? ==> fs[k].nValidBytes >= 0)
         && fs[k + 1] == FifoStep(fs[k], ops[k]).f
  }

  /** Any mix of puts, gets and resets in which no get goes past the end behaves as the queue does: the
      same values read and the same puts rejected, in every step. */
  lemma {:induction false} RunRefines(fs: seq<Fifo>, qs: seq<seq<byte>>, ops: seq<Op>, k: nat)
    requires FifoRun(fs, ops) && QueueRun(qs, ops) && Holds(fs[0], qs[0]) && k <= |ops|
    ensures Holds(fs[k], qs[k])
    ensures k < |ops| ==>
              var r, s := QueueStep(qs[k], ops[k]), FifoStep(fs[k], ops[k]);
              s.value == r.value && s.rejected == r.rejected
  {
    if k > 0 {
      RunRefines(fs, qs, ops, k - 1);
      StepRefines(fs[k - 1], qs[k - 1], ops[k - 1]);
    }
    if k < |ops| {
      StepRefines(fs[k], qs[k], ops[k]);
    }
  }

  // ---------------------------------------------------------------------------------------------
  // The FIFO as an object

  class FifoUnit {
    var nValidBytes: int
    var data: word

    constructor ()
      ensures View() == Fifo(0, 0)
    {
      nValidBytes, data := 0, 0;
    }

    ghost function View(): Fifo
      reads this
    {
      Fifo(nValidBytes, data)
    }

    method Reset()
      modifies this
      ensures View() == Fifo(0, 0)
    {
      nValidBytes := 0;
      data := 0;
    }

    method Get(nbits: nat) returns (rv: nat)
      requires 4 <= nbits <= 16
      modifies this
      ensures (View(), rv) == Take(old(View()), nbits)
    {
      var nbytes := (nbits - 1) / 8 + 1;
      nValidBytes := nValidBytes - nbytes;
      if nbytes == 1 {
        rv := And(data, 0xFF);
        data := Shr(data, 8);
      } else {
        rv := And(data, 0xFFFF);
        data := Shr(data, 16);
      }
    }

    method Put(nbits: nat, val: word) returns (rejected: bool)
      requires 4 <= nbits <= 16 && nValidBytes >= 0
      modifies this
      ensures (View(), rejected) == Store(old(View()), nbits, val)
    {
      var nbytes := (nbits - 1) / 8 + 1;
      if nbytes + nValidBytes > CAPACITY {
        return true;
      }
      var mask := if nbytes == 1 then 0xFF else 0xFFFF;
      var shift := 8 * nValidBytes;
      data := And(data, 0xFFFF_FFFF - Shl(mask, shift) % TWO32);
      data := Or(data, Shl(And(val, mask), shift) % TWO32) % TWO32;
      nValidBytes := nValidBytes + nbytes;
      rejected := false;
    }

    method Level() returns (level: int)
      ensures level == LevelOf(View())
    {
      if nValidBytes <= 2 {
        return nValidBytes;
      } else if nValidBytes == 3 {
        return 2;
      } else {
        return 3;
      }
    }
  }
}

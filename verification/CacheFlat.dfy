/** The byte view: through the cache, any run looks like a flat byte memory. */
module CacheFlat {
  import opened Bits
  import opened CacheAddress
  import opened CacheModel
  import opened CacheSystem

  function Joined(blocks: seq<seq<byte>>): seq<byte> {
    if blocks == [] then [] else Joined(blocks[..|blocks| - 1]) + blocks[|blocks| - 1]
  }

  /** The bytes of the memory: its blocks one after the other */
  function Bytes(c: Config, blocks: seq<seq<byte>>): (m: seq<byte>)
    requires MemOk(c, blocks)
    ensures |m| == c.MemSize()
  {
    JoinedLength(blocks, c.geo.offsetBits);
    Joined(blocks)
  }

  ghost predicate AllWide(blocks: seq<seq<byte>>, k: nat) {
    forall b | 0 <= b < |blocks| :: |blocks[b]| == Pow2(k)
  }

  lemma {:induction false} JoinedLength(blocks: seq<seq<byte>>, k: nat)
    requires AllWide(blocks, k)
    ensures |Joined(blocks)| == Shl(|blocks|, k)
  {
    if blocks == [] {
      ShlIsProduct(0, k);
    } else {
      JoinedLength(blocks[..|blocks| - 1], k);
      ShlNext(|blocks| - 1, k);
    }
  }

  /** Block `b` takes up the bytes from `Shl(b, k)` on. */
  lemma {:induction false} JoinedSlice(blocks: seq<seq<byte>>, b: nat, k: nat)
    requires AllWide(blocks, k) && b < |blocks|
    ensures var base := Shl(b, k);
            base + Pow2(k) <= |Joined(blocks)| && Joined(blocks)[base..base + Pow2(k)] == blocks[b]
  {
    var n := |blocks| - 1;
    var init := blocks[..n];
    JoinedLength(blocks, k);
    JoinedLength(init, k);
    ShlNext(n, k);
    if b < n {
      JoinedSlice(init, b, k);
      SliceOfPrefix(Joined(init), blocks[n], Shl(b, k), Pow2(k));
    }
  }

  lemma SliceOfPrefix(s: seq<byte>, t: seq<byte>, i: nat, len: nat)
    requires i + len <= |s|
    ensures (s + t)[i..i + len] == s[i..i + len]
  {
  }

  /** Splicing bytes into a block overwrites them in place. */
  lemma {:induction false} JoinedWrite(blocks: seq<seq<byte>>, b: nat, k: nat, offset: nat, bytes: seq<byte>)
    requires AllWide(blocks, k) && b < |blocks| && offset + |bytes| <= Pow2(k)
    ensures var addr, m := Shl(b, k) + offset, Joined(blocks);
            && addr + |bytes| <= |m|
            && Joined(blocks[b := Splice(blocks[b], offset, bytes)]) == m[..addr] + bytes + m[addr + |bytes|..]
  {
    var n := |blocks| - 1;
    var init, blocks' := blocks[..n], blocks[b := Splice(blocks[b], offset, bytes)];
    JoinedLength(blocks, k);
    JoinedLength(init, k);
    ShlNext(n, k);
    if b < n {
      JoinedWrite(init, b, k, offset, bytes);
      assert blocks'[..n] == init[b := blocks'[b]];
      ReplacedInPrefix(Joined(init), blocks[n], Shl(b, k) + offset, bytes);
    } else {
      assert blocks'[..n] == init;
      ReplacedInSuffix(Joined(init), blocks[n], offset, bytes);
    }
  }

  lemma ReplacedInPrefix(s: seq<byte>, t: seq<byte>, i: nat, bytes: seq<byte>)
    requires i + |bytes| <= |s|
    ensures (s[..i] + bytes + s[i + |bytes|..]) + t == (s + t)[..i] + bytes + (s + t)[i + |bytes|..]
  {
    assert (s + t)[..i] == s[..i];
    assert (s + t)[i + |bytes|..] == s[i + |bytes|..] + t;
  }

  lemma ReplacedInSuffix(s: seq<byte>, t: seq<byte>, i: nat, bytes: seq<byte>)
    requires i + |bytes| <= |t|
    ensures s + Splice(t, i, bytes) == (s + t)[..|s| + i] + bytes + (s + t)[|s| + i + |bytes|..]
  {
    assert (s + t)[..|s| + i] == s + t[..i];
    assert (s + t)[|s| + i + |bytes|..] == t[i + |bytes|..];
    assert Splice(t, i, bytes) == t[..i] + bytes + t[i + |bytes|..];
  }

  /** A flat memory serving the same request, with the same alignment check */
  function FlatStep(c: Config, m: seq<byte>, rq: Request): (r: (seq<byte>, Reply))
    requires c.Ok() && |m| == c.MemSize() && InRange(c, rq)
    ensures |r.0| == |m|
  {
    if !Aligned(c, rq) then (m, Rejected)
    else match rq.action
      case Read(len) => (m, Done(m[rq.addr..rq.addr + len]))
      case Write(bytes) => (m[..rq.addr] + bytes + m[rq.addr + |bytes|..], Done([]))
  }

  /** A flat memory does not notice power losses. */
  function FlatRun(c: Config, m: seq<byte>, events: seq<Event>): (r: (seq<byte>, seq<Reply>))
    requires c.Ok() && |m| == c.MemSize() && EventsOk(c, events)
    ensures |r.0| == |m|
    decreases |events|
  {
    if events == [] then (m, [])
    else
      match events[0]
      case Access(rq) =>
        var (m', reply) := FlatStep(c, m, rq);
        var (end, replies) := FlatRun(c, m', events[1..]);
        (end, [reply] + replies)
      case PowerLoss => FlatRun(c, m, events[1..])
  }

  lemma BytesOfRead(c: Config, blocks: seq<seq<byte>>, block: nat, offset: nat, len: nat)
    requires MemOk(c, blocks) && block < c.nBlocks && offset + len <= c.geo.LineWidth()
    ensures var addr := Shl(block, c.geo.offsetBits) + offset;
            && addr + len <= c.MemSize()
            && Bytes(c, blocks)[addr..addr + len] == blocks[block][offset..offset + len]
  {
    JoinedSlice(blocks, block, c.geo.offsetBits);
    SliceOfSlice(Bytes(c, blocks), Shl(block, c.geo.offsetBits), c.geo.LineWidth(), offset, len);
  }

  lemma SliceOfSlice(m: seq<byte>, base: nat, w: nat, offset: nat, len: nat)
    requires base + w <= |m| && offset + len <= w
    ensures m[base..base + w][offset..offset + len] == m[base + offset..base + offset + len]
  {
    var u, v := m[base..base + w][offset..offset + len], m[base + offset..base + offset + len];
    forall i | 0 <= i < len
      ensures u[i] == v[i]
    {
      assert u[i] == m[base..base + w][offset + i] == m[base + (offset + i)];
    }
  }

  lemma BytesOfWrite(c: Config, blocks: seq<seq<byte>>, block: nat, offset: nat, bytes: seq<byte>)
    requires MemOk(c, blocks) && block < c.nBlocks && offset + |bytes| <= c.geo.LineWidth()
    ensures var addr, m := Shl(block, c.geo.offsetBits) + offset, Bytes(c, blocks);
            && addr + |bytes| <= |m|
            && Bytes(c, blocks[block := Splice(blocks[block], offset, bytes)])
               == m[..addr] + bytes + m[addr + |bytes|..]
  {
    JoinedWrite(blocks, block, c.geo.offsetBits, offset, bytes);
  }

  lemma FlatReadMatches(c: Config, r: Reference, rq: Request, flush: Flushed)
    requires c.Ok() && InRange(c, rq) && Aligned(c, rq) && rq.action.Read? && ReferenceOk(c, r)
    requires flush.Block? ==> flush.b < c.nBlocks
    ensures FlatStep(c, Bytes(c, r.now), rq) == (Bytes(c, r.now), RefStep(c, r, rq, flush).1)
    ensures RefStep(c, r, rq, flush).0.now == r.now
  {
    AlignedPlace(c, rq);
    var p := PlaceOf(c, rq.addr);
    BytesOfRead(c, r.now, p.block, p.offset, rq.action.len);
  }

  lemma FlatWriteMatches(c: Config, r: Reference, rq: Request, flush: Flushed)
    requires c.Ok() && InRange(c, rq) && Aligned(c, rq) && rq.action.Write? && ReferenceOk(c, r)
    requires flush.Block? ==> flush.b < c.nBlocks
    ensures MemOk(c, RefStep(c, r, rq, flush).0.now)
    ensures FlatStep(c, Bytes(c, r.now), rq) == (Bytes(c, RefStep(c, r, rq, flush).0.now), Done([]))
  {
    AlignedPlace(c, rq);
    var p := PlaceOf(c, rq.addr);
    BytesOfWrite(c, r.now, p.block, p.offset, rq.action.bytes);
  }

  lemma FlatStepMatches(c: Config, r: Reference, rq: Request, flush: Flushed)
    requires c.Ok() && InRange(c, rq) && ReferenceOk(c, r) && (flush.Block? ==> flush.b < c.nBlocks)
    ensures ReferenceOk(c, RefStep(c, r, rq, flush).0)
    ensures var (r', reply) := RefStep(c, r, rq, flush);
            FlatStep(c, Bytes(c, r.now), rq) == (Bytes(c, r'.now), reply)
  {
    AlignedOk(c, r, rq, flush);
    if Aligned(c, rq) {
      match rq.action
      case Read(_) => FlatReadMatches(c, r, rq, flush);
      case Write(_) => FlatWriteMatches(c, r, rq, flush);
    }
  }

  /** Under write-through and write-around, or while the power stays on, every run through the cache
      gives byte for byte what a flat memory gives. */
  lemma {:induction false} LooksFlat(c: Config, s: System, events: seq<Event>)
    requires SystemOk(c, s) && EventsOk(c, events)
    requires c.wp != WriteBack || PowerLoss !in events
    ensures SystemOk(c, Run(c, s, events).0)
    ensures MemOk(c, Logical(c, s)) && MemOk(c, Logical(c, Run(c, s, events).0))
    ensures FlatRun(c, Bytes(c, Logical(c, s)), events)
            == (Bytes(c, Logical(c, Run(c, s, events).0)), Run(c, s, events).1)
    decreases |events|
  {
    ViewOk(c, s);
    if events != [] {
      match events[0]
      case Access(rq) =>
        StepRefines(c, s, rq);
        FlatStepMatches(c, View(c, s), rq, WrittenBack(c, s, rq));
        LooksFlat(c, Step(c, s, rq).0, events[1..]);
      case PowerLoss =>
        ResetShowsDurable(c, s);
        LooksFlat(c, Reset(c, s), events[1..]);
    }
  }
}

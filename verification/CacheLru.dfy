/** The stack property of LRU: a set of n lines holds exactly the n most recently used tags. */
module CacheLru {
  import opened Bits
  import opened CacheAddress
  import opened CacheModel
  import opened CacheSystem
  import opened Replacement

  /** Distinct tags of a trace, most recently used first */
  function Recent(tags: seq<nat>): (r: seq<nat>)
    ensures Distinct(r)
    ensures forall t :: t in r <==> t in tags
  {
    if tags == [] then []
    else
      var t := tags[|tags| - 1];
      assert tags == tags[..|tags| - 1] + [t];
      FrontDistinct(Recent(tags[..|tags| - 1]), t);
      MoveToFront(Recent(tags[..|tags| - 1]), t)
  }

  /** The lines of a set, in order of use, hold the most recent tags; lines beyond are invalid. */
  ghost predicate HoldsRecent(lines: seq<Line>, order: seq<nat>, recent: seq<nat>) {
    && IsOrder(order, |lines|)
    && forall i | 0 <= i < |lines| ::
         if i < |recent| then Holds(lines[order[i]], recent[i]) else !lines[order[i]].valid
  }

  function Prefix(s: seq<nat>, n: nat): seq<nat> {
    if n <= |s| then s[..n] else s
  }

  /** A tag hits exactly if it is among the n most recent ones, and then at its place in the order. */
  lemma HitIsRecent(lines: seq<Line>, order: seq<nat>, recent: seq<nat>, tag: nat) returns (i: nat)
    requires HoldsRecent(lines, order, recent) && Distinct(recent) && UniqueTags(lines)
    ensures FindLine(lines, tag) >= 0 <==> tag in Prefix(recent, |lines|)
    ensures FindLine(lines, tag) >= 0 ==>
              i < |lines| && i < |recent| && recent[i] == tag && order[i] == FindLine(lines, tag)
  {
    i := 0;
    var hit := FindLine(lines, tag);
    if hit >= 0 {
      OrderIsComplete(order, |lines|, hit);
      i :| 0 <= i < |lines| && order[i] == hit;
    }
    if tag in Prefix(recent, |lines|) {
      var j :| 0 <= j < |Prefix(recent, |lines|)| && Prefix(recent, |lines|)[j] == tag;
      assert Holds(lines[order[j]], tag);
    }
  }

  /** After an allocating access, hit or miss, the invariant holds for the trace extended by its tag. */
  lemma TouchKeepsRecent(lines: seq<Line>, order: seq<nat>, recent: seq<nat>, tag: nat, at: nat, line: Line, order': seq<nat>)
    requires HoldsRecent(lines, order, recent) && Distinct(recent) && UniqueTags(lines) && |lines| >= 1
    requires var hit := FindLine(lines, tag);
             if hit >= 0 then at == hit && order' == MoveToFront(order, hit)
             else at == Last(order) && order' == [Last(order)] + order[..|lines| - 1]
    requires Holds(line, tag)
    ensures HoldsRecent(lines[at := line], order', MoveToFront(recent, tag))
  {
    var n := |lines|;
    var i := HitIsRecent(lines, order, recent, tag);
    if FindLine(lines, tag) >= 0 {
      MoveAt(order, i);
      MoveAt(recent, i);
    } else {
      MissOrder(recent, n, tag);
    }
  }

  /** A tag that is not among the n most recent pushes the others back by one. */
  lemma MissOrder(recent: seq<nat>, n: nat, tag: nat)
    requires Distinct(recent) && tag !in Prefix(recent, n)
    ensures var r := MoveToFront(recent, tag);
            && r[0] == tag
            && (|r| >= n || |r| == |recent| + 1)
            && (forall j | 1 <= j < n && j < |r| :: j <= |recent| && r[j] == recent[j - 1])
  {
    if tag in recent {
      var j :| 0 <= j < |recent| && recent[j] == tag;
      assert forall i | 0 <= i < |Prefix(recent, n)| :: Prefix(recent, n)[i] != tag;
      MoveAt(recent, j);
    } else {
      RemoveAbsent(recent, tag);
    }
  }

  /** The tag a request uses in set `index`, if any */
  function Touched(c: Config, rq: Request, index: nat): (t: seq<nat>)
    requires c.Ok() && InRange(c, rq)
  {
    if Aligned(c, rq) && PlaceOf(c, rq.addr).index == index then [PlaceOf(c, rq.addr).tag] else []
  }

  /** Tags a run of requests uses in set `index` */
  function TagsIn(c: Config, rqs: seq<Request>, index: nat): seq<nat>
    requires c.Ok() && forall rq | rq in rqs :: InRange(c, rq)
  {
    if rqs == [] then [] else TagsIn(c, rqs[..|rqs| - 1], index) + Touched(c, rqs[|rqs| - 1], index)
  }

  lemma RecentStep(tags: seq<nat>, touched: seq<nat>)
    requires |touched| <= 1
    ensures Recent(tags + touched) == if touched == [] then Recent(tags) else MoveToFront(Recent(tags), touched[0])
  {
    if touched == [] {
      assert tags + touched == tags;
    } else {
      assert (tags + touched)[..|tags|] == tags;
    }
  }

  ghost predicate SetHoldsRecent(c: Config, s: System, index: nat, recent: seq<nat>)
    requires SystemOk(c, s) && index < c.geo.NSets()
  {
    s.policies[index].Lru? && HoldsRecent(s.sets[index], s.policies[index].order, recent)
  }

  /** One access, under an allocating write policy, to any set */
  lemma StepKeepsRecent(c: Config, s: System, rq: Request, index: nat, recent: seq<nat>)
    requires SystemOk(c, s) && InRange(c, rq) && c.wp != WriteAround && index < c.geo.NSets()
    requires SetHoldsRecent(c, s, index, recent) && Distinct(recent)
    ensures SystemOk(c, Step(c, s, rq).0)
    ensures var t := Touched(c, rq, index);
            SetHoldsRecent(c, Step(c, s, rq).0, index, if t == [] then recent else MoveToFront(recent, t[0]))
  {
    StepKeepsOk(c, s, rq);
    var p := PlaceOf(c, rq.addr);
    if Aligned(c, rq) && p.index == index {
      ChooseReady(c, s, rq);
      var lines, v := s.sets[index], Choose(c, s, p);
      assert SetOk(c, lines, index, s.mem);
      ServeStep(c, lines, s.mem, p, v.line);
      var r := AccessSet(c, lines, s.mem, p, rq.action, v.line);
      var at := Serve(c, lines, s.mem, p, v.line).0;
      assert r.lines == lines[at := r.lines[at]] && Holds(r.lines[at], p.tag);
      TouchKeepsRecent(lines, s.policies[index].order, recent, p.tag, at, r.lines[at], v.next.order);
    }
  }

  ghost function RunRequests(c: Config, s: System, rqs: seq<Request>): (s': System)
    requires SystemOk(c, s) && forall rq | rq in rqs :: InRange(c, rq)
    ensures SystemOk(c, s')
  {
    if rqs == [] then s
    else
      var rq, prior := rqs[|rqs| - 1], rqs[..|rqs| - 1];
      assert rq in rqs && forall q | q in prior :: q in rqs;
      StepKeepsOk(c, RunRequests(c, s, prior), rq);
      Step(c, RunRequests(c, s, prior), rq).0
  }

  /** An LRU cache whose lines are all empty */
  ghost predicate EmptyLru(c: Config, s: System) {
    SystemOk(c, s) && forall index: nat | index < c.geo.NSets() :: SetHoldsRecent(c, s, index, [])
  }

  /** That is what a cache configured for LRU is constructed as, */
  lemma BuiltEmpty(c: Config, mem: seq<seq<byte>>, lfsr: bv16)
    requires c.Ok() && MemOk(c, mem)
    ensures EmptyLru(c, InitialSystem(c, KindLru, mem, lfsr))
  {
    InitialOk(c, KindLru, mem, lfsr);
  }

  /** and what a power loss leaves of it. */
  lemma ResetEmpty(c: Config, s: System)
    requires SystemOk(c, s) && forall i | 0 <= i < |s.policies| :: s.policies[i].Lru?
    ensures EmptyLru(c, Reset(c, s))
  {
    ResetShowsDurable(c, s);
  }

  /** Any run of accesses of an LRU cache leaves policies of that kind. */
  lemma {:induction false} StaysLru(c: Config, s: System, rqs: seq<Request>)
    requires SystemOk(c, s) && forall i | 0 <= i < |s.policies| :: s.policies[i].Lru?
    requires forall rq | rq in rqs :: InRange(c, rq)
    ensures forall i | 0 <= i < |s.policies| :: RunRequests(c, s, rqs).policies[i].Lru?
  {
    if rqs != [] {
      var rq, prior := rqs[|rqs| - 1], rqs[..|rqs| - 1];
      assert rq in rqs && forall q | q in prior :: q in rqs;
      StaysLru(c, s, prior);
    }
  }

  /** From construction or reset, after any run under write-through or write-back, the lines of a set in
      `m_lru` order hold the most recently used distinct tags of that set. */
  lemma {:induction false} LruStack(c: Config, s: System, rqs: seq<Request>, index: nat)
    requires EmptyLru(c, s) && c.wp != WriteAround && index < c.geo.NSets()
    requires forall rq | rq in rqs :: InRange(c, rq)
    ensures SetHoldsRecent(c, RunRequests(c, s, rqs), index, Recent(TagsIn(c, rqs, index)))
  {
    if rqs != [] {
      var rq, prior := rqs[|rqs| - 1], rqs[..|rqs| - 1];
      assert rq in rqs && forall q | q in prior :: q in rqs;
      LruStack(c, s, prior, index);
      RecentStep(TagsIn(c, prior, index), Touched(c, rq, index));
      StepKeepsRecent(c, RunRequests(c, s, prior), rq, index, Recent(TagsIn(c, prior, index)));
    }
  }

  ghost predicate Hits(c: Config, s: System, addr: word)
    requires SystemOk(c, s)
  {
    var p := PlaceOf(c, addr);
    p.index < c.geo.NSets() && FindLine(s.sets[p.index], p.tag) >= 0
  }

  /** After an aligned access its address hits, unless it is a write that goes around the cache: that leaves
      a miss, and every other block where it was. */
  lemma AccessHits(c: Config, s: System, rq: Request, addr: word)
    requires SystemOk(c, s) && InRange(c, rq) && Aligned(c, rq)
    ensures SystemOk(c, Step(c, s, rq).0)
    ensures Hits(c, Step(c, s, rq).0, rq.addr) <==> rq.action.Read? || c.wp != WriteAround
    ensures rq.action.Write? && c.wp == WriteAround && PlaceOf(c, addr).block != PlaceOf(c, rq.addr).block ==>
              (Hits(c, Step(c, s, rq).0, addr) <==> Hits(c, s, addr))
  {
    StepKeepsOk(c, s, rq);
    AlignedPlace(c, rq);
    ChooseReady(c, s, rq);
    var p, q := PlaceOf(c, rq.addr), PlaceOf(c, addr);
    var lines, v, s' := s.sets[p.index], Choose(c, s, p), Step(c, s, rq).0;
    assert SetOk(c, lines, p.index, s.mem);
    if rq.action.Read? || c.wp != WriteAround {
      ServeStep(c, lines, s.mem, p, v.line);
      assert Holds(s'.sets[p.index][v.line], p.tag);
    } else if FindLine(lines, p.tag) >= 0 {
      FindAfterInvalidate(lines, FindLine(lines, p.tag), p.tag);
      FindAfterInvalidate(lines, FindLine(lines, p.tag), q.tag);
      SplitJoin(p.block, c.geo.idBits);
      SplitJoin(q.block, c.geo.idBits);
    }
  }

  /** An address hits exactly if its tag is one of the most recent ones in its set, as many as the set
      has lines. */
  lemma HitExactly(c: Config, s: System, rqs: seq<Request>, addr: word)
    requires EmptyLru(c, s) && c.wp != WriteAround
    requires forall rq | rq in rqs :: InRange(c, rq)
    ensures var p := PlaceOf(c, addr);
            Hits(c, RunRequests(c, s, rqs), addr) <==> p.tag in Prefix(Recent(TagsIn(c, rqs, p.index)), c.nLines)
  {
    var p := PlaceOf(c, addr);
    SplitJoin(p.block, c.geo.idBits);
    LruStack(c, s, rqs, p.index);
    var s' := RunRequests(c, s, rqs);
    assert SetOk(c, s'.sets[p.index], p.index, s'.mem);
    var _ := HitIsRecent(s'.sets[p.index], s'.policies[p.index].order, Recent(TagsIn(c, rqs, p.index)), p.tag);
  }

  /** So for the cache that is constructed for LRU, from its construction on and from every power loss on */
  lemma BuiltHitExactly(c: Config, mem: seq<seq<byte>>, lfsr: bv16, before: seq<Request>, rqs: seq<Request>, addr: word)
    requires c.Ok() && MemOk(c, mem) && c.wp != WriteAround
    requires (forall rq | rq in before :: InRange(c, rq)) && (forall rq | rq in rqs :: InRange(c, rq))
    ensures var s := InitialSystem(c, KindLru, mem, lfsr);
            && SystemOk(c, s)
            && var t := Reset(c, RunRequests(c, s, before));
               && SystemOk(c, t)
               && var p := PlaceOf(c, addr);
                  && (Hits(c, RunRequests(c, s, rqs), addr) <==> p.tag in Prefix(Recent(TagsIn(c, rqs, p.index)), c.nLines))
                  && (Hits(c, RunRequests(c, t, rqs), addr) <==> p.tag in Prefix(Recent(TagsIn(c, rqs, p.index)), c.nLines))
  {
    var s := InitialSystem(c, KindLru, mem, lfsr);
    BuiltEmpty(c, mem, lfsr);
    HitExactly(c, s, rqs, addr);
    StaysLru(c, s, before);
    ResetEmpty(c, RunRequests(c, s, before));
    HitExactly(c, Reset(c, RunRequests(c, s, before)), rqs, addr);
  }

  /** More lines never turn a hit into a miss: two LRU caches that differ in the number of lines (and
      perhaps in which of the two allocating write policies they use), after the same requests. */
  lemma MoreLinesMoreHits(small: Config, a: System, big: Config, b: System, rqs: seq<Request>, addr: word)
    requires EmptyLru(small, a) && EmptyLru(big, b)
    requires small.geo == big.geo && small.nBlocks == big.nBlocks && small.nLines <= big.nLines
    requires small.wp != WriteAround && big.wp != WriteAround
    requires forall rq | rq in rqs :: InRange(small, rq)
    ensures forall rq | rq in rqs :: InRange(big, rq)
    ensures Hits(small, RunRequests(small, a, rqs), addr) ==> Hits(big, RunRequests(big, b, rqs), addr)
  {
    assert forall rq | rq in rqs :: InRange(big, rq);
    HitExactly(small, a, rqs, addr);
    HitExactly(big, b, rqs, addr);
    var p := PlaceOf(small, addr);
    SameTags(small, big, rqs, p.index);
    PrefixGrows(Recent(TagsIn(small, rqs, p.index)), small.nLines, big.nLines, p.tag);
  }

  lemma PrefixGrows(s: seq<nat>, m: nat, n: nat, x: nat)
    requires m <= n
    ensures x in Prefix(s, m) ==> x in Prefix(s, n)
  {
    if x in Prefix(s, m) {
      var i :| 0 <= i < |Prefix(s, m)| && Prefix(s, m)[i] == x;
      assert Prefix(s, n)[i] == x;
    }
  }

  lemma {:induction false} SameTags(small: Config, big: Config, rqs: seq<Request>, index: nat)
    requires small.Ok() && big.Ok() && small.geo == big.geo && small.nBlocks == big.nBlocks
    requires (forall rq | rq in rqs :: InRange(small, rq)) && (forall rq | rq in rqs :: InRange(big, rq))
    ensures TagsIn(small, rqs, index) == TagsIn(big, rqs, index)
  {
    if rqs != [] {
      SameTags(small, big, rqs[..|rqs| - 1], index);
    }
  }
}

/** The whole cache: its sets with their replacement policies, driven by bus requests and power
    losses, and the reference it is compared with: a memory that also remembers what is durable. */
module CacheSystem {
  import opened Bits
  import opened CacheAddress
  import opened CacheModel
  import Replacement

  datatype System = System(sets: seq<seq<Line>>, mem: seq<seq<byte>>, policies: seq<Replacement.Policy>, lfsr: bv16)

  datatype Request = Request(addr: word, action: Action)
  datatype Reply = Rejected | Done(out: seq<byte>)
  datatype Event = Access(rq: Request) | PowerLoss

  /** Set, tag, block and offset of an address, as quotients and remainders; the masks and shifts of
      module CacheAddress compute the same, see `MasksFindPlace`. */
  function PlaceOf(c: Config, addr: word): (p: Place)
    ensures p.block == c.geo.Block(addr)
  {
    var block := Shr(addr, c.geo.offsetBits);
    Place(Low(block, c.geo.idBits), Shr(block, c.geo.idBits), block, Low(addr, c.geo.offsetBits))
  }

  /** What the bus guarantees: a non-empty access inside memory, no longer than a line */
  predicate InRange(c: Config, rq: Request)
    requires c.Ok()
  {
    && 1 <= rq.action.Length() <= c.geo.LineWidth()
    && rq.addr + rq.action.Length() <= c.MemSize()
  }

  /** The last byte of the access is in the line of the first. */
  predicate Aligned(c: Config, rq: Request)
    requires c.Ok()
  {
    PlaceOf(c, rq.addr).offset + rq.action.Length() <= c.geo.LineWidth()
  }

  lemma MasksFindPlace(c: Config, rq: Request)
    requires c.Ok() && InRange(c, rq)
    ensures PlaceOf(c, rq.addr) ==
            Place(c.geo.Index(rq.addr), c.geo.Tag(rq.addr), c.geo.Block(rq.addr), c.geo.Offset(rq.addr))
    ensures Aligned(c, rq) <==> c.geo.AlignmentCheck(rq.addr, rq.action.Length())
  {
    AddressFields(c.geo, rq.addr);
    AlignmentCheckShort(c.geo, rq.addr, rq.action.Length());
  }

  lemma AlignedPlace(c: Config, rq: Request)
    requires c.Ok() && InRange(c, rq) && Aligned(c, rq)
    ensures PlaceOk(c, PlaceOf(c, rq.addr), rq.action.Length())
    ensures Shl(PlaceOf(c, rq.addr).block, c.geo.offsetBits) + PlaceOf(c, rq.addr).offset == rq.addr
  {
    var p := PlaceOf(c, rq.addr);
    SplitJoin(rq.addr, c.geo.offsetBits);
    JoinSplit(c.geo, p.block);
    ShlMonotone(c.nBlocks, p.block, c.geo.offsetBits);
  }

  ghost predicate SystemOk(c: Config, s: System) {
    && c.Ok()
    && |s.sets| == |s.policies| == c.geo.NSets()
    && MemOk(c, s.mem)
    && (forall i | 0 <= i < |s.sets| :: SetOk(c, s.sets[i], i, s.mem))
    && (forall i | 0 <= i < |s.policies| :: Replacement.Valid(s.policies[i], c.nLines))
  }

  function EmptyLine(c: Config): Line {
    Line(false, false, 0, seq(c.geo.LineWidth(), _ => 0))
  }

  /** A cache as constructed, over any memory */
  function InitialSystem(c: Config, kind: Replacement.Kind, mem: seq<seq<byte>>, lfsr: bv16): System {
    System(seq(c.geo.NSets(), _ => seq(c.nLines, _ => EmptyLine(c))), mem,
           seq(c.geo.NSets(), _ => Replacement.New(kind, c.nLines)), lfsr)
  }

  /** It satisfies the invariant, and shows the memory. */
  lemma InitialOk(c: Config, kind: Replacement.Kind, mem: seq<seq<byte>>, lfsr: bv16)
    requires c.Ok() && MemOk(c, mem)
    ensures SystemOk(c, InitialSystem(c, kind, mem, lfsr))
    ensures View(c, InitialSystem(c, kind, mem, lfsr)) == Reference(mem, mem)
  {
    var s := InitialSystem(c, kind, mem, lfsr);
    forall b | 0 <= b < |mem|
      ensures LogicalBlock(c, s, b) == mem[b]
    {
      JoinSplit(c.geo, b);
    }
    assert Logical(c, s) == mem;
  }

  // ---------------------------------------------------------------------------------------------
  // The cache's own steps

  /** The hit line, or on a miss the victim; with the policy and shift register afterwards */
  ghost function ChooseLine(lines: seq<Line>, policy: Replacement.Policy, lfsr: bv16, tag: nat): (v: Replacement.Victim)
    requires lines != [] && Replacement.Valid(policy, |lines|)
    ensures Replacement.Valid(v.next, |lines|) && v.line < |lines|
    ensures FindLine(lines, tag) >= 0 ==> v.line == FindLine(lines, tag)
  {
    var hit := FindLine(lines, tag);
    Replacement.PolicyStep(policy, |lines|, lfsr, if hit >= 0 then hit else 0);
    if hit >= 0 then Replacement.Victim(Replacement.OnHit(policy, hit), lfsr, hit)
    else Replacement.OnMiss(policy, |lines|, lfsr)
  }

  ghost function Choose(c: Config, s: System, p: Place): (v: Replacement.Victim)
    requires SystemOk(c, s) && p.index < c.geo.NSets()
    ensures Replacement.Valid(v.next, c.nLines) && v.line < c.nLines
  {
    assert SetOk(c, s.sets[p.index], p.index, s.mem);
    ChooseLine(s.sets[p.index], s.policies[p.index], s.lfsr, p.tag)
  }

  lemma ChooseReady(c: Config, s: System, rq: Request)
    requires SystemOk(c, s) && InRange(c, rq) && Aligned(c, rq)
    ensures var p := PlaceOf(c, rq.addr);
            p.index < c.geo.NSets() && Ready(c, s.sets[p.index], s.mem, p, rq.action, Choose(c, s, p).line)
  {
    AlignedPlace(c, rq);
    var p := PlaceOf(c, rq.addr);
    assert SetOk(c, s.sets[p.index], p.index, s.mem);
    GetReady(c, s.sets[p.index], s.mem, p, rq.action, Choose(c, s, p).line);
  }

  ghost function Step(c: Config, s: System, rq: Request): (r: (System, Reply))
    requires SystemOk(c, s) && InRange(c, rq)
  {
    if !Aligned(c, rq) then (s, Rejected)
    else
      ChooseReady(c, s, rq);
      var p := PlaceOf(c, rq.addr);
      var v := Choose(c, s, p);
      var r := AccessSet(c, s.sets[p.index], s.mem, p, rq.action, v.line);
      (System(s.sets[p.index := r.lines], r.mem, s.policies[p.index := v.next], v.lfsr), Done(r.out))
  }

  const RESET_BYTE: byte := 0xAA

  function ResetLine(c: Config): Line {
    Line(false, false, 0, seq(c.geo.LineWidth(), _ => RESET_BYTE))
  }

  function ResetPolicies(policies: seq<Replacement.Policy>, n: nat): (r: seq<Replacement.Policy>)
    ensures |r| == |policies|
    ensures forall i | 0 <= i < |r| :: r[i] == Replacement.Initial(policies[i], n)
  {
    seq(|policies|, i requires 0 <= i < |policies| => Replacement.Initial(policies[i], n))
  }

  /** Power loss: every line is lost, memory and the shift register stay. */
  function Reset(c: Config, s: System): System {
    System(seq(c.geo.NSets(), _ => seq(c.nLines, _ => ResetLine(c))), s.mem,
           ResetPolicies(s.policies, c.nLines), s.lfsr)
  }

  // ---------------------------------------------------------------------------------------------
  // The reference: what is in the memory now, and what survives a power loss

  datatype Reference = Reference(now: seq<seq<byte>>, durable: seq<seq<byte>>)

  function LogicalBlock(c: Config, s: System, b: nat): seq<byte>
    requires |s.sets| == c.geo.NSets() && b < |s.mem|
  {
    JoinSplit(c.geo, b);
    SetBlock(c, s.sets[Low(b, c.geo.idBits)], s.mem, Low(b, c.geo.idBits), Shr(b, c.geo.idBits))
  }

  /** What cache and memory together hold */
  function Logical(c: Config, s: System): (l: seq<seq<byte>>)
    requires |s.sets| == c.geo.NSets()
    ensures |l| == |s.mem|
    ensures forall b | 0 <= b < |l| :: l[b] == LogicalBlock(c, s, b)
  {
    seq(|s.mem|, b requires 0 <= b < |s.mem| => LogicalBlock(c, s, b))
  }

  function View(c: Config, s: System): Reference
    requires |s.sets| == c.geo.NSets()
  {
    Reference(Logical(c, s), s.mem)
  }

  ghost predicate ReferenceOk(c: Config, r: Reference) {
    MemOk(c, r.now) && MemOk(c, r.durable)
  }

  /** The block a step writes back: that of a valid dirty victim under a miss that loads a line */
  datatype Flushed = NoBlock | Block(b: nat)

  ghost function WrittenBack(c: Config, s: System, rq: Request): (f: Flushed)
    requires SystemOk(c, s) && InRange(c, rq)
    ensures f.Block? ==> f.b < |s.mem|
  {
    if !Aligned(c, rq) || c.wp != WriteBack then NoBlock
    else
      AlignedPlace(c, rq);
      var p := PlaceOf(c, rq.addr);
      var lines := s.sets[p.index];
      assert SetOk(c, lines, p.index, s.mem);
      var victim := lines[Choose(c, s, p).line];
      assert LineOk(c, victim, p.index, s.mem);
      if FindLine(lines, p.tag) < 0 && victim.valid && victim.dirty
      then Block(c.geo.Join(victim.tag, p.index)) else NoBlock
  }

  /** Reads return what is in memory now, writes change exactly the bytes written. Write-through and
      write-around make every write durable at once; under write-back a block becomes durable, as it
      is, when it is flushed. */
  ghost function RefStep(c: Config, r: Reference, rq: Request, flush: Flushed): (Reference, Reply)
    requires c.Ok() && InRange(c, rq) && ReferenceOk(c, r)
    requires flush.Block? ==> flush.b < c.nBlocks
  {
    if !Aligned(c, rq) then (r, Rejected)
    else
      AlignedPlace(c, rq);
      var p := PlaceOf(c, rq.addr);
      match rq.action
      case Read(len) =>
        (Reference(r.now, Durable(c, r, r.now, flush)), Done(r.now[p.block][p.offset..p.offset + len]))
      case Write(bytes) =>
        var now' := r.now[p.block := Splice(r.now[p.block], p.offset, bytes)];
        (Reference(now', Durable(c, r, now', flush)), Done([]))
  }

  function Durable(c: Config, r: Reference, now': seq<seq<byte>>, flush: Flushed): seq<seq<byte>>
    requires flush.Block? ==> flush.b < |r.now| && flush.b < |r.durable|
  {
    if c.wp != WriteBack then now'
    else if flush.Block? then r.durable[flush.b := r.now[flush.b]]
    else r.durable
  }

  // ---------------------------------------------------------------------------------------------
  // One step of the cache is one step of the reference

  lemma ViewOk(c: Config, s: System)
    requires SystemOk(c, s)
    ensures ReferenceOk(c, View(c, s))
    ensures c.wp != WriteBack ==> Logical(c, s) == s.mem
  {
    forall b | 0 <= b < |s.mem|
      ensures |Logical(c, s)[b]| == c.geo.LineWidth()
      ensures c.wp != WriteBack ==> Logical(c, s)[b] == s.mem[b]
    {
      JoinSplit(c.geo, b);
      var index, tag := Low(b, c.geo.idBits), Shr(b, c.geo.idBits);
      assert SetOk(c, s.sets[index], index, s.mem);
      var hit := FindLine(s.sets[index], tag);
      if hit >= 0 {
        assert LineOk(c, s.sets[index][hit], index, s.mem);
      }
    }
  }

  lemma StepKeepsOk(c: Config, s: System, rq: Request)
    requires SystemOk(c, s) && InRange(c, rq)
    ensures SystemOk(c, Step(c, s, rq).0)
  {
    if Aligned(c, rq) {
      ChooseReady(c, s, rq);
      var p := PlaceOf(c, rq.addr);
      var v := Choose(c, s, p);
      var lines := s.sets[p.index];
      AlignedPlace(c, rq);
      AccessSetStep(c, lines, s.mem, p, rq.action, v.line);
      var s' := Step(c, s, rq).0;
      forall i | 0 <= i < |s'.sets|
        ensures SetOk(c, s'.sets[i], i, s'.mem)
      {
        if i != p.index {
          OtherSetOk(c, s, rq, i);
        }
      }
    }
  }

  lemma OtherSetOk(c: Config, s: System, rq: Request, i: nat)
    requires SystemOk(c, s) && InRange(c, rq) && Aligned(c, rq)
    requires i < |s.sets| && i != PlaceOf(c, rq.addr).index
    ensures SetOk(c, s.sets[i], i, Step(c, s, rq).0.mem)
  {
    ChooseReady(c, s, rq);
    var p := PlaceOf(c, rq.addr);
    var v := Choose(c, s, p);
    var lines := s.sets[i];
    AccessSetStep(c, s.sets[p.index], s.mem, p, rq.action, v.line);
    assert SetOk(c, lines, i, s.mem);
    var mem' := Step(c, s, rq).0.mem;
    forall j | 0 <= j < |lines|
      ensures LineOk(c, lines[j], i, mem')
    {
      assert LineOk(c, lines[j], i, s.mem);
      if lines[j].valid {
        JoinUnique(c.geo, lines[j].tag, i);
        AccessSetFrame(c, s.sets[p.index], s.mem, p, rq.action, v.line, c.geo.Join(lines[j].tag, i));
      }
    }
  }

  /** The logical memory and the reply after one access */
  lemma StepLogical(c: Config, s: System, rq: Request)
    requires SystemOk(c, s) && InRange(c, rq)
    ensures ReferenceOk(c, View(c, s))
    ensures var ref := RefStep(c, View(c, s), rq, WrittenBack(c, s, rq));
            var r := Step(c, s, rq);
            && SystemOk(c, r.0)
            && Logical(c, r.0) == ref.0.now
            && r.1 == ref.1
  {
    ViewOk(c, s);
    StepKeepsOk(c, s, rq);
    if Aligned(c, rq) {
      var p := PlaceOf(c, rq.addr);
      AlignedPlace(c, rq);
      ChooseReady(c, s, rq);
      AccessSetStep(c, s.sets[p.index], s.mem, p, rq.action, Choose(c, s, p).line);
      StepBlocks(c, s, rq);
    }
  }

  lemma StepBlocks(c: Config, s: System, rq: Request)
    requires SystemOk(c, s) && InRange(c, rq) && Aligned(c, rq) && SystemOk(c, Step(c, s, rq).0)
    requires ReferenceOk(c, View(c, s))
    ensures Logical(c, Step(c, s, rq).0) == RefStep(c, View(c, s), rq, WrittenBack(c, s, rq)).0.now
  {
    var l', now' := Logical(c, Step(c, s, rq).0), RefStep(c, View(c, s), rq, WrittenBack(c, s, rq)).0.now;
    AlignedPlace(c, rq);
    forall b | 0 <= b < |s.mem|
      ensures l'[b] == now'[b]
    {
      StepBlock(c, s, rq, b);
    }
  }

  lemma StepBlock(c: Config, s: System, rq: Request, b: nat)
    requires SystemOk(c, s) && InRange(c, rq) && Aligned(c, rq) && b < |s.mem|
    requires SystemOk(c, Step(c, s, rq).0)
    requires ReferenceOk(c, View(c, s))
    ensures var p := PlaceOf(c, rq.addr);
            && PlaceOk(c, p, rq.action.Length())
            && LogicalBlock(c, Step(c, s, rq).0, b) ==
               if rq.action.Write? && b == p.block
               then Splice(LogicalBlock(c, s, b), p.offset, rq.action.bytes)
               else LogicalBlock(c, s, b)
  {
    AlignedPlace(c, rq);
    ChooseReady(c, s, rq);
    var p := PlaceOf(c, rq.addr);
    var v := Choose(c, s, p).line;
    var index, tag := Low(b, c.geo.idBits), Shr(b, c.geo.idBits);
    JoinSplit(c.geo, b);
    assert |LogicalBlock(c, s, p.block)| == |Logical(c, s)[p.block]|;
    if index == p.index {
      AccessSetView(c, s.sets[index], s.mem, p, rq.action, v, tag);
    } else {
      AccessSetFrame(c, s.sets[p.index], s.mem, p, rq.action, v, b);
    }
  }

  /** What memory itself holds after one access */
  lemma StepDurable(c: Config, s: System, rq: Request)
    requires SystemOk(c, s) && InRange(c, rq)
    ensures ReferenceOk(c, View(c, s))
    ensures Step(c, s, rq).0.mem == RefStep(c, View(c, s), rq, WrittenBack(c, s, rq)).0.durable
  {
    StepLogical(c, s, rq);
    if c.wp != WriteBack {
      ViewOk(c, Step(c, s, rq).0);
      ViewOk(c, s);
    } else if Aligned(c, rq) {
      AlignedPlace(c, rq);
      ChooseReady(c, s, rq);
      var p := PlaceOf(c, rq.addr);
      var lines, v := s.sets[p.index], Choose(c, s, p).line;
      if FindLine(lines, p.tag) < 0 && lines[v].valid && lines[v].dirty {
        var b := c.geo.Join(lines[v].tag, p.index);
        assert LineOk(c, lines[v], p.index, s.mem);
        JoinUnique(c.geo, lines[v].tag, p.index);
        FindVictim(lines, v);
        assert LogicalBlock(c, s, b) == lines[v].data;
      }
    }
  }

  lemma FindVictim(lines: seq<Line>, v: nat)
    requires UniqueTags(lines) && v < |lines| && lines[v].valid
    ensures FindLine(lines, lines[v].tag) == v
  {
    assert Holds(lines[v], lines[v].tag);
  }

  /** The cache refines the reference, access by access. */
  lemma StepRefines(c: Config, s: System, rq: Request)
    requires SystemOk(c, s) && InRange(c, rq)
    ensures ReferenceOk(c, View(c, s))
    ensures var (s', reply) := Step(c, s, rq);
            SystemOk(c, s') && (View(c, s'), reply) == RefStep(c, View(c, s), rq, WrittenBack(c, s, rq))
  {
    StepLogical(c, s, rq);
    StepDurable(c, s, rq);
  }

  // ---------------------------------------------------------------------------------------------
  // Power loss

  lemma ResetFindsNothing(c: Config, s: System, index: nat, tag: nat)
    requires index < c.geo.NSets()
    ensures FindLine(Reset(c, s).sets[index], tag) == -1
  {
  }

  /** A power loss leaves a working cache; what it shows afterwards is what was durable. */
  lemma ResetShowsDurable(c: Config, s: System)
    requires SystemOk(c, s)
    ensures SystemOk(c, Reset(c, s))
    ensures View(c, Reset(c, s)) == Reference(s.mem, s.mem)
  {
    var s' := Reset(c, s);
    forall i | 0 <= i < |s'.policies|
      ensures Replacement.Valid(s'.policies[i], c.nLines)
    {
      Replacement.InitialValid(s.policies[i], c.nLines);
    }
    forall b | 0 <= b < |s.mem|
      ensures Logical(c, s')[b] == s.mem[b]
    {
      JoinSplit(c.geo, b);
      ResetFindsNothing(c, s, Low(b, c.geo.idBits), Shr(b, c.geo.idBits));
    }
  }

  /** A power loss goes unnoticed exactly when every dirty line agrees with memory; under
      write-through and write-around there are no dirty lines. */
  lemma ResetInvisible(c: Config, s: System)
    requires SystemOk(c, s)
    ensures SystemOk(c, Reset(c, s))
    ensures (forall i, j | 0 <= i < |s.sets| && 0 <= j < |s.sets[i]| && s.sets[i][j].dirty ::
              s.sets[i][j].valid && c.geo.Join(s.sets[i][j].tag, i) < |s.mem| &&
              s.sets[i][j].data == s.mem[c.geo.Join(s.sets[i][j].tag, i)])
            <==> Logical(c, Reset(c, s)) == Logical(c, s)
    ensures c.wp != WriteBack ==> Logical(c, Reset(c, s)) == Logical(c, s)
  {
    ResetShowsDurable(c, s);
    ViewOk(c, s);
    if Logical(c, Reset(c, s)) == Logical(c, s) {
      forall i, j | 0 <= i < |s.sets| && 0 <= j < |s.sets[i]| && s.sets[i][j].dirty
        ensures s.sets[i][j].valid && c.geo.Join(s.sets[i][j].tag, i) < |s.mem|
        ensures s.sets[i][j].data == s.mem[c.geo.Join(s.sets[i][j].tag, i)]
      {
        var line := s.sets[i][j];
        assert SetOk(c, s.sets[i], i, s.mem) && LineOk(c, line, i, s.mem);
        JoinUnique(c.geo, line.tag, i);
        FindVictim(s.sets[i], j);
        assert LogicalBlock(c, s, c.geo.Join(line.tag, i)) == line.data;
      }
    }
    if forall i, j | 0 <= i < |s.sets| && 0 <= j < |s.sets[i]| && s.sets[i][j].dirty ::
         s.sets[i][j].valid && c.geo.Join(s.sets[i][j].tag, i) < |s.mem| &&
         s.sets[i][j].data == s.mem[c.geo.Join(s.sets[i][j].tag, i)] {
      forall b | 0 <= b < |s.mem|
        ensures Logical(c, s)[b] == s.mem[b]
      {
        JoinSplit(c.geo, b);
        var index, tag := Low(b, c.geo.idBits), Shr(b, c.geo.idBits);
        assert SetOk(c, s.sets[index], index, s.mem);
        var hit := FindLine(s.sets[index], tag);
        if hit >= 0 {
          assert LineOk(c, s.sets[index][hit], index, s.mem);
        }
      }
    }
  }

  // ---------------------------------------------------------------------------------------------
  // Whole runs

  ghost predicate EventsOk(c: Config, events: seq<Event>)
    requires c.Ok()
  {
    forall e | e in events && e.Access? :: InRange(c, e.rq)
  }

  ghost function Run(c: Config, s: System, events: seq<Event>): (r: (System, seq<Reply>))
    requires SystemOk(c, s) && EventsOk(c, events)
    decreases |events|
  {
    if events == [] then (s, [])
    else
      match events[0]
      case Access(rq) =>
        StepRefines(c, s, rq);
        var (s', reply) := Step(c, s, rq);
        var (end, replies) := Run(c, s', events[1..]);
        (end, [reply] + replies)
      case PowerLoss =>
        ResetShowsDurable(c, s);
        Run(c, Reset(c, s), events[1..])
  }

  /** The blocks the run writes back, access by access */
  ghost function Flushes(c: Config, s: System, events: seq<Event>): (f: seq<Flushed>)
    requires SystemOk(c, s) && EventsOk(c, events)
    ensures |f| == |events|
    ensures forall i | 0 <= i < |f| && f[i].Block? :: f[i].b < c.nBlocks
    decreases |events|
  {
    if events == [] then []
    else
      match events[0]
      case Access(rq) =>
        StepRefines(c, s, rq);
        [WrittenBack(c, s, rq)] + Flushes(c, Step(c, s, rq).0, events[1..])
      case PowerLoss =>
        ResetShowsDurable(c, s);
        [NoBlock] + Flushes(c, Reset(c, s), events[1..])
  }

  ghost function RefRun(c: Config, r: Reference, events: seq<Event>, flushes: seq<Flushed>): (Reference, seq<Reply>)
    requires c.Ok() && EventsOk(c, events) && ReferenceOk(c, r) && |flushes| == |events|
    requires forall i | 0 <= i < |flushes| && flushes[i].Block? :: flushes[i].b < c.nBlocks
    decreases |events|
  {
    if events == [] then (r, [])
    else
      match events[0]
      case Access(rq) =>
        AlignedOk(c, r, rq, flushes[0]);
        var (r', reply) := RefStep(c, r, rq, flushes[0]);
        var (end, replies) := RefRun(c, r', events[1..], flushes[1..]);
        (end, [reply] + replies)
      case PowerLoss =>
        RefRun(c, Reference(r.durable, r.durable), events[1..], flushes[1..])
  }

  lemma AlignedOk(c: Config, r: Reference, rq: Request, flush: Flushed)
    requires c.Ok() && InRange(c, rq) && ReferenceOk(c, r)
    requires flush.Block? ==> flush.b < c.nBlocks
    ensures ReferenceOk(c, RefStep(c, r, rq, flush).0)
  {
    if Aligned(c, rq) {
      AlignedPlace(c, rq);
    }
  }

  /** Transparency over whole runs, power losses included: for every sequence of reads, writes and
      power losses, under each write policy and each replacement policy, the cache gives the replies
      of the reference, and ends showing and keeping what the reference does. */
  lemma {:induction false} RunRefines(c: Config, s: System, events: seq<Event>)
    requires SystemOk(c, s) && EventsOk(c, events)
    ensures ReferenceOk(c, View(c, s))
    ensures SystemOk(c, Run(c, s, events).0)
    ensures var (s', replies) := Run(c, s, events);
            (View(c, s'), replies) == RefRun(c, View(c, s), events, Flushes(c, s, events))
    decreases |events|
  {
    ViewOk(c, s);
    if events != [] {
      match events[0]
      case Access(rq) =>
        StepRefines(c, s, rq);
        RunRefines(c, Step(c, s, rq).0, events[1..]);
        assert Flushes(c, s, events)[1..] == Flushes(c, Step(c, s, rq).0, events[1..]);
      case PowerLoss =>
        ResetShowsDurable(c, s);
        RunRefines(c, Reset(c, s), events[1..]);
        assert Flushes(c, s, events)[1..] == Flushes(c, Reset(c, s), events[1..]);
    }
  }
}

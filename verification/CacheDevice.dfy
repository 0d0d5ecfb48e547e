/** The cache as the objects of the simulator, updated in place, against the steps of module
    CacheSystem. */
module CacheDevice {
  import opened Bits
  import opened CacheAddress
  import opened CacheModel
  import opened CacheSystem
  import opened ReplacementUnits
  import CacheFlat
  import Replacement

  class CacheLine {
    var valid: bool
    var dirty: bool
    var tag: nat
    var data: seq<byte>

    constructor (lineWidth: nat)
      ensures Value() == Line(false, false, 0, seq(lineWidth, _ => 0))
    {
      valid, dirty, tag, data := false, false, 0, seq(lineWidth, _ => 0);
    }

    ghost function Value(): Line
      reads this
    {
      Line(valid, dirty, tag, data)
    }

    method Reset()
      modifies this
      ensures Value() == Line(false, false, 0, seq(|old(data)|, _ => 0xAA))
    {
      valid, dirty, tag := false, false, 0;
      var i := 0;
      while i < |data|
        invariant 0 <= i <= |data| == |old(data)|
        invariant !valid && !dirty && tag == 0
        invariant forall j | 0 <= j < i :: data[j] == RESET_BYTE
      {
        data := data[i := RESET_BYTE];
        i := i + 1;
      }
    }
  }

  /** The memory behind the cache */
  class Memory {
    var bytes: seq<byte>

    constructor (content: seq<byte>)
      ensures bytes == content
    {
      bytes := content;
    }

    method Load(addr: nat, len: nat) returns (data: seq<byte>)
      requires addr + len <= |bytes|
      ensures data == bytes[addr..addr + len]
    {
      data := bytes[addr..addr + len];
    }

    method Store(addr: nat, data: seq<byte>)
      requires addr + |data| <= |bytes|
      modifies this
      ensures bytes == old(bytes)[..addr] + data + old(bytes)[addr + |data|..]
    {
      bytes := bytes[..addr] + data + bytes[addr + |data|..];
    }
  }

  class CacheSet {
    const lines: seq<CacheLine>
    const policy: Unit

    constructor (lines: seq<CacheLine>, policy: Unit)
      ensures this.lines == lines && this.policy == policy
    {
      this.lines := lines;
      this.policy := policy;
    }

    ghost function Lines(): set<CacheLine> {
      set l | l in lines
    }

    ghost predicate OneEach() {
      forall j, j' | 0 <= j < j' < |lines| :: lines[j] != lines[j']
    }

    ghost predicate Shows(values: seq<Line>)
      reads lines
    {
      |values| == |lines| && forall j | 0 <= j < |lines| :: lines[j].Value() == values[j]
    }

    method FindLine(tag: nat, ghost values: seq<Line>) returns (i: int)
      requires Shows(values)
      ensures i == CacheModel.FindLine(values, tag)
    {
      i := 0;
      while i < |lines|
        invariant 0 <= i <= |lines|
        invariant forall j | 0 <= j < i :: !Holds(values[j], tag)
      {
        assert values[i] == lines[i].Value();
        if lines[i].tag == tag && lines[i].valid {
          return i;
        }
        i := i + 1;
      }
      return -1;
    }

    /** The policy side of an access: the hit line, or the victim the policy names */
    method Pick(tag: nat, lfsr: Lfsr, ghost values: seq<Line>) returns (hit: bool, lineIdx: nat)
      requires Shows(values) && values != []
      requires Replacement.Valid(policy.Value(), |values|) && policy.Fits(|values|, lfsr)
      modifies policy.Own(), lfsr
      ensures hit == (CacheModel.FindLine(values, tag) >= 0)
      ensures Replacement.Victim(policy.Value(), lfsr.state, lineIdx)
              == ChooseLine(values, old(policy.Value()), old(lfsr.state), tag)
    {
      var i := FindLine(tag, values);
      hit := i >= 0;
      if hit {
        policy.Hit(i, |values|);
        lineIdx := i;
      } else {
        lineIdx := policy.Miss(|values|, lfsr);
      }
    }

    method Reset(ghost c: Config, ghost values: seq<Line>)
      requires Shows(values) && |lines| == c.nLines
      requires forall j | 0 <= j < |values| :: |values[j].data| == c.geo.LineWidth()
      requires OneEach()
      requires Replacement.Valid(policy.Value(), |lines|)
      requires forall j | 0 <= j < |lines| :: (lines[j] as object) !in policy.Own()
      modifies lines, policy.Own()
      ensures Shows(seq(c.nLines, _ => ResetLine(c)))
      ensures policy.Value() == Replacement.Initial(old(policy.Value()), |lines|)
    {
      var i := 0;
      while i < |lines|
        invariant 0 <= i <= |lines|
        invariant forall j | 0 <= j < i :: lines[j].Value() == ResetLine(c)
        invariant forall j | i <= j < |lines| :: lines[j].Value() == values[j]
        invariant policy.Value() == old(policy.Value())
        modifies lines
      {
        lines[i].Reset();
        i := i + 1;
      }
      policy.Reset(|lines|);
    }
  }

  method NewLines(n: nat, lineWidth: nat) returns (lines: seq<CacheLine>)
    ensures |lines| == n && forall j | 0 <= j < n :: fresh(lines[j])
    ensures forall j | 0 <= j < n :: lines[j].Value() == Line(false, false, 0, seq(lineWidth, _ => 0))
    ensures forall j, j' | 0 <= j < j' < n :: lines[j] != lines[j']
  {
    lines := [];
    while |lines| < n
      invariant |lines| <= n
      invariant forall j | 0 <= j < |lines| :: fresh(lines[j])
      invariant forall j | 0 <= j < |lines| :: lines[j].Value() == Line(false, false, 0, seq(lineWidth, _ => 0))
      invariant forall j, j' | 0 <= j < j' < |lines| :: lines[j] != lines[j']
      decreases n - |lines|
    {
      var line := new CacheLine(lineWidth);
      lines := lines + [line];
    }
  }

  method NewSet(c: Config, kind: Replacement.Kind, lfsr: Lfsr) returns (s: CacheSet)
    requires c.nLines >= 1
    ensures s.Shows(seq(c.nLines, _ => EmptyLine(c))) && fresh(s.Lines()) && s.OneEach()
    ensures s.policy.Value() == Replacement.New(kind, c.nLines) && fresh(s.policy.Own())
    ensures s.policy.Fits(c.nLines, lfsr)
    ensures forall l | l in s.Lines() :: (l as object) !in s.policy.Own()
  {
    var lines := NewLines(c.nLines, c.geo.LineWidth());
    var policy := NewUnit(kind, c.nLines, lfsr);
    s := new CacheSet(lines, policy);
  }

  /** Every line object belongs to one place of one set, every policy to one set; `lines` and `policies`
      hold the objects behind the sets. */
  ghost predicate Apart(sets: seq<CacheSet>, lines: set<CacheLine>, policies: set<object>) {
    && (forall i, j | 0 <= i < |sets| && 0 <= j < |sets[i].lines| :: sets[i].lines[j] in lines)
    && (forall i | 0 <= i < |sets| :: sets[i].policy.Own() <= policies)
    && OncePlaced(sets)
    && (forall i, i' | 0 <= i < i' < |sets| :: sets[i].policy.Own() !! sets[i'].policy.Own())
    && (forall l | l in lines :: (l as object) !in policies)
  }

  ghost predicate OncePlaced(sets: seq<CacheSet>) {
    forall i, j, i', j' ::
      (0 <= i < |sets| && 0 <= j < |sets[i].lines| && 0 <= i' < |sets| && 0 <= j' < |sets[i'].lines|
       && sets[i].lines[j] == sets[i'].lines[j']) ==> i == i' && j == j'
  }

  ghost predicate AllNew(c: Config, kind: Replacement.Kind, lfsr: Lfsr, sets: seq<CacheSet>,
                         lines: set<CacheLine>, policies: set<object>)
    requires Apart(sets, lines, policies)
    reads lines, policies
  {
    && (forall i | 0 <= i < |sets| :: sets[i].Shows(seq(c.nLines, _ => EmptyLine(c))))
    && (forall i | 0 <= i < |sets| :: sets[i].policy.Value() == Replacement.New(kind, c.nLines))
    && (forall i | 0 <= i < |sets| :: sets[i].policy.Fits(c.nLines, lfsr))
  }

  /** One more set, with objects of its own */
  method AddSet(c: Config, kind: Replacement.Kind, lfsr: Lfsr, sets: seq<CacheSet>, ghost ls: set<CacheLine>, ghost ps: set<object>)
    returns (built: seq<CacheSet>, ghost ls': set<CacheLine>, ghost ps': set<object>)
    requires c.nLines >= 1 && Apart(sets, ls, ps) && AllNew(c, kind, lfsr, sets, ls, ps)
    ensures |built| == |sets| + 1
    ensures fresh(ls' - ls) && fresh(ps' - ps) && Apart(built, ls', ps')
    ensures AllNew(c, kind, lfsr, built, ls', ps')
  {
    var s := NewSet(c, kind, lfsr);
    built := sets + [s];
    ls', ps' := ls + s.Lines(), ps + s.policy.Own();
    ApartNext(sets, ls, ps, s);
  }

  method BuildSets(c: Config, kind: Replacement.Kind, lfsr: Lfsr)
    returns (built: seq<CacheSet>, ghost ls: set<CacheLine>, ghost ps: set<object>)
    requires c.nLines >= 1
    ensures |built| == c.geo.NSets()
    ensures fresh(ls) && fresh(ps) && Apart(built, ls, ps)
    ensures AllNew(c, kind, lfsr, built, ls, ps)
  {
    built, ls, ps := [], {}, {};
    while |built| < c.geo.NSets()
      invariant |built| <= c.geo.NSets()
      invariant fresh(ls) && fresh(ps) && Apart(built, ls, ps)
      invariant AllNew(c, kind, lfsr, built, ls, ps)
      decreases c.geo.NSets() - |built|
    {
      built, ls, ps := AddSet(c, kind, lfsr, built, ls, ps);
    }
  }

  lemma OncePlacedNext(sets: seq<CacheSet>, ls: set<CacheLine>, s: CacheSet)
    requires OncePlaced(sets) && s.OneEach() && ls !! s.Lines()
    requires forall i, j | 0 <= i < |sets| && 0 <= j < |sets[i].lines| :: sets[i].lines[j] in ls
    ensures OncePlaced(sets + [s])
  {
    var built := sets + [s];
    forall i, j, i', j' | 0 <= i < |built| && 0 <= j < |built[i].lines| && 0 <= i' < |built| && 0 <= j' < |built[i'].lines|
                          && built[i].lines[j] == built[i'].lines[j']
      ensures i == i' && j == j'
    {
      if i < |sets| && i' < |sets| {
        assert sets[i].lines[j] == sets[i'].lines[j'];
      } else {
        assert built[i].lines[j] in s.Lines();
      }
    }
  }

  lemma ApartNext(sets: seq<CacheSet>, ls: set<CacheLine>, ps: set<object>, s: CacheSet)
    requires Apart(sets, ls, ps) && s.OneEach()
    requires ls !! s.Lines() && ps !! s.policy.Own()
    requires forall l | l in ls + s.Lines() :: (l as object) !in ps + s.policy.Own()
    ensures Apart(sets + [s], ls + s.Lines(), ps + s.policy.Own())
  {
    OncePlacedNext(sets, ls, s);
    assert forall j | 0 <= j < |s.lines| :: s.lines[j] in s.Lines();
    assert forall i | 0 <= i < |sets| :: (sets + [s])[i] == sets[i];
  }

  class Cache {
    const c: Config
    const sets: seq<CacheSet>
    const memory: Memory
    const lfsr: Lfsr
    ghost var system: System

    /** The objects behind `sets` */
    ghost const lineObjects: set<CacheLine>
    ghost const policyObjects: set<object>

    ghost predicate Separate() {
      && Apart(sets, lineObjects, policyObjects)
      && (forall i | 0 <= i < |sets| :: sets[i].policy.Fits(c.nLines, lfsr))
      && {this, memory, lfsr} !! policyObjects
    }

    ghost predicate LinesShow(values: seq<seq<Line>>)
      requires Separate()
      reads lineObjects
    {
      |values| == |sets| && forall i | 0 <= i < |sets| :: sets[i].Shows(values[i])
    }

    ghost predicate PoliciesShow(values: seq<Replacement.Policy>)
      requires Separate()
      reads policyObjects
    {
      |values| == |sets| && forall i | 0 <= i < |sets| :: sets[i].policy.Value() == values[i]
    }

    ghost predicate Valid()
      reads this, memory, lfsr, lineObjects, policyObjects
    {
      && SystemOk(c, system)
      && Separate()
      && LinesShow(system.sets)
      && PoliciesShow(system.policies)
      && memory.bytes == CacheFlat.Bytes(c, system.mem)
      && lfsr.state == system.lfsr
    }

    /** Builds the sets one after the other, over a memory and the shift register. */
    constructor (c: Config, kind: Replacement.Kind, memory: Memory, lfsr: Lfsr, ghost mem: seq<seq<byte>>)
      requires c.Ok() && MemOk(c, mem) && memory.bytes == CacheFlat.Bytes(c, mem)
      ensures Valid() && fresh(lineObjects) && fresh(policyObjects)
      ensures this.c == c && this.memory == memory && this.lfsr == lfsr
      ensures system == InitialSystem(c, kind, mem, lfsr.state)
    {
      InitialOk(c, kind, mem, lfsr.state);
      var built;
      ghost var ls, ps;
      built, ls, ps := BuildSets(c, kind, lfsr);
      this.c, this.sets, this.memory, this.lfsr := c, built, memory, lfsr;
      this.system, this.lineObjects, this.policyObjects := InitialSystem(c, kind, mem, lfsr.state), ls, ps;
    }

    /** Stores a dirty line at the address rebuilt from its tag and the index of `addr`. */
    method WriteLine(line: CacheLine, addr: word, ghost mem: seq<seq<byte>>)
      requires c.Ok() && MemOk(c, mem) && memory.bytes == CacheFlat.Bytes(c, mem)
      requires line.valid && line.dirty && |line.data| == c.geo.LineWidth()
      requires c.geo.Join(line.tag, PlaceOf(c, addr).index) < c.nBlocks
      modifies line, memory
      ensures line.Value() == old(line.Value()).(dirty := false)
      ensures MemOk(c, Evict(c, mem, old(line.Value()), PlaceOf(c, addr).index))
      ensures memory.bytes == CacheFlat.Bytes(c, Evict(c, mem, old(line.Value()), PlaceOf(c, addr).index))
    {
      var wbaddr := c.geo.WriteBackAddress(line.tag, c.geo.Index(addr));
      WriteLineBytes(c, mem, line.Value(), addr);
      memory.Store(wbaddr, line.data);
      line.dirty := false;
    }

    /** Loads the line that holds `addr`. */
    method ReadLine(addr: word, line: CacheLine, ghost mem: seq<seq<byte>>)
      requires c.Ok() && MemOk(c, mem) && memory.bytes == CacheFlat.Bytes(c, mem)
      requires !line.dirty && c.geo.Block(addr) < c.nBlocks
      modifies line
      ensures line.Value() == CacheModel.Load(mem, PlaceOf(c, addr))
    {
      ReadLineBytes(c, mem, addr);
      line.data := memory.Load(c.geo.LineBase(addr), c.geo.LineWidth());
      line.tag := c.geo.Tag(addr);
      line.valid := true;
      line.dirty := false;
    }

    /** On a miss, writes a dirty victim back and loads the line of `addr` over it. */
    method Refill(addr: word, line: CacheLine, ghost lines: seq<Line>, ghost mem: seq<seq<byte>>, ghost at: nat)
      requires c.Ok() && MemOk(c, mem) && memory.bytes == CacheFlat.Bytes(c, mem)
      requires var p := PlaceOf(c, addr);
               PlaceOk(c, p, 1) && SetOk(c, lines, p.index, mem) && CacheModel.FindLine(lines, p.tag) < 0
      requires at < |lines| && line.Value() == lines[at]
      modifies line, memory
      ensures (at, line.Value(), Serve(c, lines, mem, PlaceOf(c, addr), at).2) == Serve(c, lines, mem, PlaceOf(c, addr), at)
      ensures MemOk(c, Serve(c, lines, mem, PlaceOf(c, addr), at).2)
      ensures memory.bytes == CacheFlat.Bytes(c, Serve(c, lines, mem, PlaceOf(c, addr), at).2)
    {
      ghost var p := PlaceOf(c, addr);
      ServeStep(c, lines, mem, p, at);
      assert LineOk(c, lines[at], p.index, mem);
      if line.valid && line.dirty {
        WriteLine(line, addr, mem);
      }
      ReadLine(addr, line, Serve(c, lines, mem, p, at).2);
    }

    /** What the data side of an access may rely on: `at` is the serving line, and `line` its object. */
    ghost predicate Serving(rq: Request, line: CacheLine, hit: bool, lines: seq<Line>, mem: seq<seq<byte>>, at: nat)
      reads memory, line
    {
      && c.Ok() && InRange(c, rq) && Aligned(c, rq)
      && Ready(c, lines, mem, PlaceOf(c, rq.addr), rq.action, at)
      && memory.bytes == CacheFlat.Bytes(c, mem) && line.Value() == lines[at]
      && var h := CacheModel.FindLine(lines, PlaceOf(c, rq.addr).tag);
         if h >= 0 then hit && at == h else !hit
    }

    /** What it has to leave behind */
    ghost predicate Served(rq: Request, line: CacheLine, lines: seq<Line>, mem: seq<seq<byte>>, at: nat, out: seq<byte>)
      requires c.Ok() && Ready(c, lines, mem, PlaceOf(c, rq.addr), rq.action, at)
      reads memory, line
    {
      var r := AccessSet(c, lines, mem, PlaceOf(c, rq.addr), rq.action, at);
      && out == r.out
      && r.lines == lines[at := line.Value()]
      && MemOk(c, r.mem) && memory.bytes == CacheFlat.Bytes(c, r.mem)
    }

    method TransferRead(rq: Request, line: CacheLine, hit: bool, ghost lines: seq<Line>, ghost mem: seq<seq<byte>>, ghost at: nat)
      returns (out: seq<byte>)
      requires Serving(rq, line, hit, lines, mem, at) && rq.action.Read?
      modifies line, memory
      ensures Served(rq, line, lines, mem, at, out)
    {
      MasksFindPlace(c, rq);
      AccessSetStep(c, lines, mem, PlaceOf(c, rq.addr), rq.action, at);
      if !hit {
        Refill(rq.addr, line, lines, mem, at);
      }
      var off := c.geo.Offset(rq.addr);
      out := line.data[off..off + rq.action.len];
    }

    /** Writes the bytes of the request straight to memory. */
    method StoreThrough(rq: Request, ghost mem: seq<seq<byte>>)
      requires c.Ok() && InRange(c, rq) && Aligned(c, rq) && rq.action.Write?
      requires MemOk(c, mem) && memory.bytes == CacheFlat.Bytes(c, mem)
      modifies memory
      ensures var p := PlaceOf(c, rq.addr);
              && PlaceOk(c, p, |rq.action.bytes|)
              && var mem' := mem[p.block := Splice(mem[p.block], p.offset, rq.action.bytes)];
                 MemOk(c, mem') && memory.bytes == CacheFlat.Bytes(c, mem')
    {
      ghost var p := PlaceOf(c, rq.addr);
      AlignedPlace(c, rq);
      CacheFlat.BytesOfWrite(c, mem, p.block, p.offset, rq.action.bytes);
      memory.Store(rq.addr, rq.action.bytes);
    }

    method TransferAround(rq: Request, line: CacheLine, hit: bool, ghost lines: seq<Line>, ghost mem: seq<seq<byte>>, ghost at: nat)
      requires Serving(rq, line, hit, lines, mem, at) && rq.action.Write? && c.wp == WriteAround
      modifies line, memory
      ensures Served(rq, line, lines, mem, at, [])
    {
      assert LineOk(c, lines[at], PlaceOf(c, rq.addr).index, mem);
      assert !line.dirty;
      StoreThrough(rq, mem);
      if hit {
        line.valid := false;
      }
    }

    method TransferThrough(rq: Request, line: CacheLine, hit: bool, ghost lines: seq<Line>, ghost mem: seq<seq<byte>>, ghost at: nat)
      requires Serving(rq, line, hit, lines, mem, at) && rq.action.Write? && c.wp == WriteThrough
      modifies line, memory
      ensures Served(rq, line, lines, mem, at, [])
    {
      MasksFindPlace(c, rq);
      assert LineOk(c, lines[at], PlaceOf(c, rq.addr).index, mem);
      assert !line.dirty;
      if !hit {
        ReadLine(rq.addr, line, mem);
      }
      line.data := Splice(line.data, c.geo.Offset(rq.addr), rq.action.bytes);
      StoreThrough(rq, mem);
    }

    method TransferBack(rq: Request, line: CacheLine, hit: bool, ghost lines: seq<Line>, ghost mem: seq<seq<byte>>, ghost at: nat)
      requires Serving(rq, line, hit, lines, mem, at) && rq.action.Write? && c.wp == WriteBack
      modifies line, memory
      ensures Served(rq, line, lines, mem, at, [])
    {
      MasksFindPlace(c, rq);
      AccessSetStep(c, lines, mem, PlaceOf(c, rq.addr), rq.action, at);
      if !hit {
        Refill(rq.addr, line, lines, mem, at);
      }
      line.data := Splice(line.data, c.geo.Offset(rq.addr), rq.action.bytes);
      line.dirty := true;
    }

    /** The data side of an access, once the serving line is known */
    method Transfer(rq: Request, line: CacheLine, hit: bool, ghost lines: seq<Line>, ghost mem: seq<seq<byte>>, ghost at: nat)
      returns (out: seq<byte>)
      requires Serving(rq, line, hit, lines, mem, at)
      modifies line, memory
      ensures Served(rq, line, lines, mem, at, out)
    {
      out := [];
      if rq.action.Read? {
        out := TransferRead(rq, line, hit, lines, mem, at);
      } else {
        match c.wp {
          case WriteAround => TransferAround(rq, line, hit, lines, mem, at);
          case WriteThrough => TransferThrough(rq, line, hit, lines, mem, at);
          case WriteBack => TransferBack(rq, line, hit, lines, mem, at);
        }
      }
    }

    /** Updating one set's policy leaves the others as they were. */
    method PickIn(index: nat, tag: nat, ghost lines: seq<seq<Line>>, ghost policies: seq<Replacement.Policy>)
      returns (hit: bool, lineIdx: nat)
      requires Separate() && LinesShow(lines) && PoliciesShow(policies)
      requires index < |sets| && lines[index] != [] && |lines[index]| == c.nLines
      requires Replacement.Valid(policies[index], c.nLines)
      modifies lfsr, sets[index].policy.Own()
      ensures var v := ChooseLine(lines[index], policies[index], old(lfsr.state), tag);
              && hit == (CacheModel.FindLine(lines[index], tag) >= 0)
              && lineIdx == v.line && lfsr.state == v.lfsr
              && LinesShow(lines) && PoliciesShow(policies[index := v.next])
    {
      ghost var v := ChooseLine(lines[index], policies[index], lfsr.state, tag);
      hit, lineIdx := sets[index].Pick(tag, lfsr, lines[index]);
      forall i | 0 <= i < |sets|
        ensures sets[i].policy.Value() == policies[index := v.next][i]
      {
        if i != index {
          assert sets[i].policy.Own() !! sets[index].policy.Own();
        }
      }
    }

    /** Updating one line leaves the others as they were. */
    method TransferIn(rq: Request, index: nat, lineIdx: nat, hit: bool, ghost lines: seq<seq<Line>>, ghost mem: seq<seq<byte>>,
                      ghost policies: seq<Replacement.Policy>)
      returns (out: seq<byte>)
      requires Separate() && LinesShow(lines) && PoliciesShow(policies)
      requires index < |sets| && lineIdx < |sets[index].lines|
      requires Serving(rq, sets[index].lines[lineIdx], hit, lines[index], mem, lineIdx)
      modifies sets[index].lines[lineIdx], memory
      ensures var r := AccessSet(c, lines[index], mem, PlaceOf(c, rq.addr), rq.action, lineIdx);
              && out == r.out && LinesShow(lines[index := r.lines]) && PoliciesShow(policies)
              && MemOk(c, r.mem) && memory.bytes == CacheFlat.Bytes(c, r.mem)
    {
      var line := sets[index].lines[lineIdx];
      out := Transfer(rq, line, hit, lines[index], mem, lineIdx);
      ghost var r := AccessSet(c, lines[index], mem, PlaceOf(c, rq.addr), rq.action, lineIdx);
      forall i | 0 <= i < |sets|
        ensures sets[i].Shows(lines[index := r.lines][i])
      {
        assert old(sets[i].Shows(lines[i]));
      }
    }

    /** Power loss: resets set after set. */
    method Reset()
      requires Valid()
      modifies this, lineObjects, policyObjects
      ensures Valid()
      ensures system == CacheSystem.Reset(c, old(system))
    {
      ghost var s := system;
      ResetShowsDurable(c, s);
      ResetSets(s);
      system := CacheSystem.Reset(c, s);
    }

    method ResetSets(ghost s: System)
      requires Separate() && SystemOk(c, s) && LinesShow(s.sets) && PoliciesShow(s.policies)
      modifies lineObjects, policyObjects
      ensures LinesShow(CacheSystem.Reset(c, s).sets) && PoliciesShow(CacheSystem.Reset(c, s).policies)
    {
      ghost var s' := CacheSystem.Reset(c, s);
      ghost var lines, policies := s.sets, s.policies;
      var i := 0;
      while i < |sets|
        invariant 0 <= i <= |sets| == |lines| == |policies|
        invariant forall k | 0 <= k < |sets| :: lines[k] == if k < i then s'.sets[k] else s.sets[k]
        invariant forall k | 0 <= k < |sets| :: policies[k] == if k < i then s'.policies[k] else s.policies[k]
        invariant LinesShow(lines) && PoliciesShow(policies)
        modifies lineObjects, policyObjects
      {
        ResetOne(i, lines, policies, s);
        lines, policies := lines[i := s'.sets[i]], policies[i := s'.policies[i]];
        i := i + 1;
      }
      assert lines == s'.sets && policies == s'.policies;
    }

    method ResetOne(i: nat, ghost lines: seq<seq<Line>>, ghost policies: seq<Replacement.Policy>, ghost s: System)
      requires Separate() && SystemOk(c, s) && LinesShow(lines) && PoliciesShow(policies)
      requires i < |sets| == |s.sets| && lines[i] == s.sets[i] && policies[i] == s.policies[i]
      modifies lineObjects, policyObjects
      ensures LinesShow(lines[i := CacheSystem.Reset(c, s).sets[i]])
      ensures PoliciesShow(policies[i := CacheSystem.Reset(c, s).policies[i]])
    {
      assert SetOk(c, s.sets[i], i, s.mem);
      assert forall j | 0 <= j < |lines[i]| :: LineOk(c, lines[i][j], i, s.mem);
      sets[i].Reset(c, lines[i]);
      forall k | 0 <= k < |sets| && k != i
        ensures sets[k].Shows(lines[k]) && sets[k].policy.Value() == policies[k]
      {
        assert sets[k].policy.Own() !! sets[i].policy.Own();
        assert old(sets[k].Shows(lines[k]));
      }
    }

    /** `b_transport`: one bus access is one step of the cache system. */
    method Transport(rq: Request) returns (reply: Reply)
      requires Valid() && InRange(c, rq)
      modifies this, memory, lfsr, lineObjects, policyObjects
      ensures Valid()
      ensures (system, reply) == Step(c, old(system), rq)
    {
      var ok := CheckAlignment(rq);
      if !ok {
        return Rejected;
      }
      reply := TransportAligned(rq);
    }

    method CheckAlignment(rq: Request) returns (ok: bool)
      requires c.Ok() && InRange(c, rq)
      ensures ok == Aligned(c, rq)
    {
      var last: word := rq.addr + rq.action.Length() - 1;
      ok := !(c.geo.Offset(rq.addr) > c.geo.Offset(last));
      assert ok == c.geo.AlignmentCheck(rq.addr, rq.action.Length());
      MasksFindPlace(c, rq);
    }

    method TransportAligned(rq: Request) returns (reply: Reply)
      requires Valid() && InRange(c, rq) && Aligned(c, rq)
      modifies this, memory, lfsr, lineObjects, policyObjects
      ensures Valid()
      ensures (system, reply) == Step(c, old(system), rq)
    {
      ghost var s := system;
      StepKeepsOk(c, s, rq);
      var out := Exchange(rq);
      reply := Done(out);
      system := Step(c, s, rq).0;
    }

    /** The step on the objects themselves: choosing the line, then transferring the data */
    method Exchange(rq: Request) returns (out: seq<byte>)
      requires Valid() && InRange(c, rq) && Aligned(c, rq)
      modifies memory, lfsr, lineObjects, policyObjects
      ensures var (s', reply) := Step(c, system, rq);
              && LinesShow(s'.sets) && PoliciesShow(s'.policies)
              && MemOk(c, s'.mem) && memory.bytes == CacheFlat.Bytes(c, s'.mem)
              && lfsr.state == s'.lfsr && reply == Done(out)
    {
      ghost var s, p := system, PlaceOf(c, rq.addr);
      ServeFacts(c, s, rq);
      var index := c.geo.Index(rq.addr);
      var hit, lineIdx := PickIn(index, c.geo.Tag(rq.addr), s.sets, s.policies);
      ghost var v := Choose(c, s, p);
      out := TransferIn(rq, index, lineIdx, hit, s.sets, s.mem, s.policies[index := v.next]);
    }
  }

  lemma ServeFacts(c: Config, s: System, rq: Request)
    requires SystemOk(c, s) && InRange(c, rq) && Aligned(c, rq)
    ensures var p := PlaceOf(c, rq.addr);
            && p.index == c.geo.Index(rq.addr) < |s.sets| && p.tag == c.geo.Tag(rq.addr)
            && |s.sets[p.index]| == c.nLines >= 1
            && Replacement.Valid(s.policies[p.index], c.nLines)
            && Ready(c, s.sets[p.index], s.mem, p, rq.action, Choose(c, s, p).line)
            && Choose(c, s, p) == ChooseLine(s.sets[p.index], s.policies[p.index], s.lfsr, p.tag)
  {
    MasksFindPlace(c, rq);
    ChooseReady(c, s, rq);
    var p := PlaceOf(c, rq.addr);
    assert SetOk(c, s.sets[p.index], p.index, s.mem);
  }

  /** Storing the data of a line at its write-back address replaces the block it stands for. */
  lemma WriteLineBytes(c: Config, mem: seq<seq<byte>>, line: Line, addr: word)
    requires c.Ok() && MemOk(c, mem)
    requires line.valid && line.dirty && |line.data| == c.geo.LineWidth()
    requires c.geo.Join(line.tag, PlaceOf(c, addr).index) < c.nBlocks
    ensures var wb, m := c.geo.WriteBackAddress(line.tag, c.geo.Index(addr)), CacheFlat.Bytes(c, mem);
            var mem' := Evict(c, mem, line, PlaceOf(c, addr).index);
            && wb + |line.data| <= |m|
            && MemOk(c, mem')
            && m[..wb] + line.data + m[wb + |line.data|..] == CacheFlat.Bytes(c, mem')
  {
    var block := c.geo.Join(line.tag, PlaceOf(c, addr).index);
    AddressFields(c.geo, addr);
    ShlMonotone(block, c.nBlocks, c.geo.offsetBits);
    WriteBackIsBlockAddress(c.geo, line.tag, PlaceOf(c, addr).index);
    WholeBlockBytes(c, mem, block, line.data);
  }

  lemma ReadLineBytes(c: Config, mem: seq<seq<byte>>, addr: word)
    requires c.Ok() && MemOk(c, mem) && c.geo.Block(addr) < c.nBlocks
    ensures var base, p := c.geo.LineBase(addr), PlaceOf(c, addr);
            && base + c.geo.LineWidth() <= c.MemSize()
            && CacheFlat.Bytes(c, mem)[base..base + c.geo.LineWidth()] == mem[p.block]
            && c.geo.Tag(addr) == p.tag
  {
    AddressFields(c.geo, addr);
    CacheFlat.BytesOfRead(c, mem, c.geo.Block(addr), 0, c.geo.LineWidth());
    assert mem[c.geo.Block(addr)][0..c.geo.LineWidth()] == mem[c.geo.Block(addr)];
  }

  lemma WholeBlockBytes(c: Config, mem: seq<seq<byte>>, block: nat, data: seq<byte>)
    requires MemOk(c, mem) && block < c.nBlocks && |data| == c.geo.LineWidth()
    ensures var addr, m := Shl(block, c.geo.offsetBits), CacheFlat.Bytes(c, mem);
            && addr + |data| <= |m|
            && CacheFlat.Bytes(c, mem[block := data]) == m[..addr] + data + m[addr + |data|..]
  {
    CacheFlat.BytesOfWrite(c, mem, block, 0, data);
    assert Splice(mem[block], 0, data) == data;
  }
}

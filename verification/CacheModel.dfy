/** A set-associative cache over FRAM, as values: what one access does to the lines of a set and to
    the memory behind them, for any choice of victim, and why the whole looks like flat memory.
    Memory is a sequence of line-sized blocks here; module CacheFlat gives the byte view. */
module CacheModel {
  import opened Bits
  import opened CacheAddress

  datatype WritePolicy = WriteThrough | WriteAround | WriteBack

  datatype Line = Line(valid: bool, dirty: bool, tag: nat, data: seq<byte>)

  datatype Config = Config(geo: Geometry, wp: WritePolicy, nLines: nat, nBlocks: nat) {
    predicate Ok() {
      && geo.Ok()
      && nLines >= 1
      && Shl(nBlocks, geo.offsetBits) <= TWO32
    }

    function MemSize(): nat {
      Shl(nBlocks, geo.offsetBits)
    }
  }

  /** Where an access goes: its set, its tag, the block these stand for, and the offset in it */
  datatype Place = Place(index: nat, tag: nat, block: nat, offset: nat)

  datatype Action = Read(len: nat) | Write(bytes: seq<byte>) {
    function Length(): nat {
      if Read? then len else |bytes|
    }
  }

  predicate PlaceOk(c: Config, p: Place, len: nat) {
    && p.index < c.geo.NSets()
    && p.block == c.geo.Join(p.tag, p.index) < c.nBlocks
    && 1 <= len
    && p.offset + len <= c.geo.LineWidth()
  }

  // ---------------------------------------------------------------------------------------------
  // Looking up a line

  predicate Holds(line: Line, tag: nat) {
    line.valid && line.tag == tag
  }

  /** First line that holds `tag`, or -1 */
  function FindLine(lines: seq<Line>, tag: nat): (i: int)
    ensures -1 <= i < |lines|
    ensures i >= 0 ==> Holds(lines[i], tag)
    ensures forall j | 0 <= j < (if i >= 0 then i else |lines|) :: !Holds(lines[j], tag)
  {
    FindFrom(lines, tag, 0)
  }

  function FindFrom(lines: seq<Line>, tag: nat, from: nat): (i: int)
    requires from <= |lines|
    requires forall j | 0 <= j < from :: !Holds(lines[j], tag)
    ensures -1 <= i < |lines|
    ensures i >= 0 ==> Holds(lines[i], tag)
    ensures forall j | 0 <= j < (if i >= 0 then i else |lines|) :: !Holds(lines[j], tag)
    decreases |lines| - from
  {
    if from == |lines| then -1
    else if Holds(lines[from], tag) then from
    else FindFrom(lines, tag, from + 1)
  }

  ghost predicate UniqueTags(lines: seq<Line>) {
    forall i, j | 0 <= i < j < |lines| && lines[i].valid && lines[j].valid :: lines[i].tag != lines[j].tag
  }

  /** Putting a valid line whose tag no other line holds at position `i` */
  lemma FindAfterReplace(lines: seq<Line>, i: nat, line: Line, tag: nat)
    requires UniqueTags(lines) && i < |lines| && line.valid
    requires forall j | 0 <= j < |lines| && j != i :: !Holds(lines[j], line.tag)
    ensures UniqueTags(lines[i := line])
    ensures FindLine(lines[i := line], tag) ==
            if tag == line.tag then i else if Holds(lines[i], tag) then -1 else FindLine(lines, tag)
  {
    var lines' := lines[i := line];
    assert Holds(lines'[i], line.tag);
    var h := FindLine(lines, tag);
    if h >= 0 && h != i {
      assert Holds(lines'[h], tag);
    }
  }

  lemma FindAfterInvalidate(lines: seq<Line>, i: nat, tag: nat)
    requires UniqueTags(lines) && i < |lines|
    ensures var lines' := lines[i := lines[i].(valid := false)];
            && UniqueTags(lines')
            && FindLine(lines', tag) == if Holds(lines[i], tag) then -1 else FindLine(lines, tag)
  {
    var lines' := lines[i := lines[i].(valid := false)];
    var h := FindLine(lines, tag);
    if h >= 0 && h != i {
      assert Holds(lines'[h], tag);
    }
  }

  // ---------------------------------------------------------------------------------------------
  // One access to one set

  function Splice(s: seq<byte>, at: nat, bytes: seq<byte>): (r: seq<byte>)
    requires at + |bytes| <= |s|
    ensures |r| == |s|
    ensures forall i | 0 <= i < |s| :: r[i] == if at <= i < at + |bytes| then bytes[i - at] else s[i]
  {
    s[..at] + bytes + s[at + |bytes|..]
  }

  /** Dirty lines are valid and occur under write-back only; clean valid lines equal memory. */
  ghost predicate LineOk(c: Config, line: Line, index: nat, mem: seq<seq<byte>>) {
    && |line.data| == c.geo.LineWidth()
    && (line.dirty ==> line.valid && c.wp == WriteBack)
    && (line.valid ==> c.geo.Join(line.tag, index) < |mem|)
    && (line.valid && !line.dirty ==> line.data == mem[c.geo.Join(line.tag, index)])
  }

  ghost predicate SetOk(c: Config, lines: seq<Line>, index: nat, mem: seq<seq<byte>>) {
    && |lines| == c.nLines
    && (forall j | 0 <= j < |lines| :: LineOk(c, lines[j], index, mem))
    && UniqueTags(lines)
  }

  ghost predicate MemOk(c: Config, mem: seq<seq<byte>>) {
    |mem| == c.nBlocks && forall b | 0 <= b < |mem| :: |mem[b]| == c.geo.LineWidth()
  }

  /** Memory once the victim line has been written back, if it has to be */
  function Evict(c: Config, mem: seq<seq<byte>>, line: Line, index: nat): seq<seq<byte>> {
    if line.valid && line.dirty && c.geo.Join(line.tag, index) < |mem| then
      mem[c.geo.Join(line.tag, index) := line.data]
    else mem
  }

  function Load(mem: seq<seq<byte>>, p: Place): Line
    requires p.block < |mem|
  {
    Line(true, false, p.tag, mem[p.block])
  }

  datatype SetResult = SetResult(lines: seq<Line>, mem: seq<seq<byte>>, out: seq<byte>)

  /** The line that serves the access, loaded over the victim on a miss */
  function Serve(c: Config, lines: seq<Line>, mem: seq<seq<byte>>, p: Place, victim: nat): (r: (nat, Line, seq<seq<byte>>))
    requires victim < |lines| && p.block < |mem|
    ensures r.0 < |lines| && |r.2| == |mem|
  {
    var hit := FindLine(lines, p.tag);
    if hit >= 0 then (hit, lines[hit], mem)
    else
      var mem' := Evict(c, mem, lines[victim], p.index);
      (victim, Load(mem', p), mem')
  }

  function AccessSet(c: Config, lines: seq<Line>, mem: seq<seq<byte>>, p: Place, a: Action, victim: nat): SetResult
    requires victim < |lines| && PlaceOk(c, p, a.Length()) && |mem| == c.nBlocks
    requires |mem[p.block]| == c.geo.LineWidth()
    requires forall j | 0 <= j < |lines| :: |lines[j].data| == c.geo.LineWidth()
  {
    var (at, line, mem') := Serve(c, lines, mem, p, victim);
    assert |line.data| == c.geo.LineWidth();
    match a
    case Read(len) =>
      SetResult(lines[at := line], mem', line.data[p.offset..p.offset + len])
    case Write(bytes) =>
      match c.wp
      case WriteAround =>
        SetResult(if FindLine(lines, p.tag) >= 0 then lines[at := lines[at].(valid := false)] else lines,
                  mem[p.block := Splice(mem[p.block], p.offset, bytes)], [])
      case WriteThrough =>
        SetResult(lines[at := line.(data := Splice(line.data, p.offset, bytes))],
                  mem'[p.block := Splice(mem[p.block], p.offset, bytes)], [])
      case WriteBack =>
        SetResult(lines[at := line.(data := Splice(line.data, p.offset, bytes), dirty := true)], mem', [])
  }

  /** What a set and its memory together hold under `tag` */
  function SetBlock(c: Config, lines: seq<Line>, mem: seq<seq<byte>>, index: nat, tag: nat): seq<byte>
    requires c.geo.Join(tag, index) < |mem|
  {
    var hit := FindLine(lines, tag);
    if hit >= 0 then lines[hit].data else mem[c.geo.Join(tag, index)]
  }

  /** Different tags of one set stand for different blocks. */
  lemma JoinInjective(g: Geometry, tag: nat, tag': nat, index: nat)
    requires index < g.NSets()
    ensures g.Join(tag, index) == g.Join(tag', index) ==> tag == tag'
  {
    JoinUnique(g, tag, index);
    JoinUnique(g, tag', index);
  }

  /** Writing back a dirty victim leaves the set in order but for the victim, whose memory block now
      holds its data. */
  lemma EvictStep(c: Config, lines: seq<Line>, mem: seq<seq<byte>>, index: nat, victim: nat, j: nat)
    requires SetOk(c, lines, index, mem) && MemOk(c, mem) && index < c.geo.NSets()
    requires victim < |lines| && j < |lines|
    ensures MemOk(c, Evict(c, mem, lines[victim], index))
    ensures j != victim ==> LineOk(c, lines[j], index, Evict(c, mem, lines[victim], index))
    ensures lines[victim].valid ==>
              Evict(c, mem, lines[victim], index)[c.geo.Join(lines[victim].tag, index)] == lines[victim].data
  {
    assert LineOk(c, lines[victim], index, mem) && LineOk(c, lines[j], index, mem);
    JoinInjective(c.geo, lines[j].tag, lines[victim].tag, index);
  }

  /** Serving an access keeps the set in order and changes nothing one can see. */
  lemma ServeStep(c: Config, lines: seq<Line>, mem: seq<seq<byte>>, p: Place, victim: nat)
    requires SetOk(c, lines, p.index, mem) && MemOk(c, mem) && PlaceOk(c, p, 1)
    requires victim < |lines|
    ensures var (at, line, mem') := Serve(c, lines, mem, p, victim);
            && SetOk(c, lines[at := line], p.index, mem') && MemOk(c, mem')
            && Holds(line, p.tag)
            && line.data == SetBlock(c, lines, mem, p.index, p.tag)
            && (c.wp != WriteBack ==> mem' == mem && !line.dirty)
  {
    var (at, line, mem') := Serve(c, lines, mem, p, victim);
    assert LineOk(c, lines[at], p.index, mem);
    if FindLine(lines, p.tag) >= 0 {
      assert lines[at := line] == lines;
    } else {
      FindAfterReplace(lines, at, line, p.tag);
      JoinInjective(c.geo, p.tag, lines[victim].tag, p.index);
      var lines' := lines[at := line];
      forall j | 0 <= j < |lines'|
        ensures LineOk(c, lines'[j], p.index, mem')
      {
        EvictStep(c, lines, mem, p.index, victim, j);
      }
      if !lines[victim].valid || !lines[victim].dirty {
        assert mem' == mem;
      } else {
        assert !Holds(lines[victim], p.tag);
      }
    }
  }

  lemma ServeView(c: Config, lines: seq<Line>, mem: seq<seq<byte>>, p: Place, victim: nat, tag: nat)
    requires SetOk(c, lines, p.index, mem) && MemOk(c, mem) && PlaceOk(c, p, 1)
    requires victim < |lines|
    requires c.geo.Join(tag, p.index) < |mem|
    ensures var (at, line, mem') := Serve(c, lines, mem, p, victim);
            SetBlock(c, lines[at := line], mem', p.index, tag) == SetBlock(c, lines, mem, p.index, tag)
  {
    var (at, line, mem') := Serve(c, lines, mem, p, victim);
    if FindLine(lines, p.tag) >= 0 {
      assert lines[at := line] == lines;
    } else {
      assert LineOk(c, lines[victim], p.index, mem);
      FindAfterReplace(lines, at, line, tag);
      JoinInjective(c.geo, p.tag, lines[victim].tag, p.index);
      JoinInjective(c.geo, tag, lines[victim].tag, p.index);
      EvictStep(c, lines, mem, p.index, victim, victim);
      if Holds(lines[victim], tag) {
        assert FindLine(lines, tag) == victim;
      }
    }
  }

  /** Changing the data of the serving line, and the memory block it stands for, keeps the set in
      order as long as clean lines still agree with memory. */
  lemma UpdateStep(c: Config, lines: seq<Line>, mem: seq<seq<byte>>, p: Place, at: nat, line: Line, block: seq<byte>)
    requires SetOk(c, lines, p.index, mem) && MemOk(c, mem) && PlaceOk(c, p, 1)
    requires at < |lines| && Holds(lines[at], p.tag) && Holds(line, p.tag)
    requires |line.data| == |block| == c.geo.LineWidth()
    requires if line.dirty then c.wp == WriteBack else line.data == block
    ensures SetOk(c, lines[at := line], p.index, mem[p.block := block]) && MemOk(c, mem[p.block := block])
  {
    var lines' := lines[at := line];
    FindAfterReplace(lines, at, line, p.tag);
    forall j | 0 <= j < |lines'|
      ensures LineOk(c, lines'[j], p.index, mem[p.block := block])
    {
      assert LineOk(c, lines[j], p.index, mem);
      JoinInjective(c.geo, p.tag, lines[j].tag, p.index);
    }
  }

  /** Write-around: memory alone is updated, and the line that held the block is given up. */
  lemma BypassStep(c: Config, lines: seq<Line>, mem: seq<seq<byte>>, p: Place, block: seq<byte>)
    requires SetOk(c, lines, p.index, mem) && MemOk(c, mem) && PlaceOk(c, p, 1)
    requires c.wp == WriteAround && |block| == c.geo.LineWidth()
    ensures var hit := FindLine(lines, p.tag);
            var lines' := if hit >= 0 then lines[hit := lines[hit].(valid := false)] else lines;
            && SetOk(c, lines', p.index, mem[p.block := block]) && MemOk(c, mem[p.block := block])
            && FindLine(lines', p.tag) == -1
  {
    var hit := FindLine(lines, p.tag);
    var lines' := if hit >= 0 then lines[hit := lines[hit].(valid := false)] else lines;
    if hit >= 0 {
      FindAfterInvalidate(lines, hit, p.tag);
    }
    forall j | 0 <= j < |lines'|
      ensures LineOk(c, lines'[j], p.index, mem[p.block := block])
    {
      assert LineOk(c, lines[j], p.index, mem);
      JoinInjective(c.geo, p.tag, lines[j].tag, p.index);
    }
  }

  ghost predicate Ready(c: Config, lines: seq<Line>, mem: seq<seq<byte>>, p: Place, a: Action, victim: nat) {
    && SetOk(c, lines, p.index, mem) && MemOk(c, mem)
    && PlaceOk(c, p, a.Length()) && victim < |lines|
    && (forall j | 0 <= j < |lines| :: |lines[j].data| == c.geo.LineWidth())
  }

  lemma GetReady(c: Config, lines: seq<Line>, mem: seq<seq<byte>>, p: Place, a: Action, victim: nat)
    requires SetOk(c, lines, p.index, mem) && MemOk(c, mem)
    requires PlaceOk(c, p, a.Length()) && victim < |lines|
    ensures Ready(c, lines, mem, p, a, victim)
    ensures |SetBlock(c, lines, mem, p.index, p.tag)| == c.geo.LineWidth()
  {
    assert forall j | 0 <= j < |lines| :: LineOk(c, lines[j], p.index, mem);
  }

  /** An access keeps the invariant of its set, and a read returns what the set and its memory
      together hold. */
  lemma AccessSetStep(c: Config, lines: seq<Line>, mem: seq<seq<byte>>, p: Place, a: Action, victim: nat)
    requires Ready(c, lines, mem, p, a, victim)
    ensures var r := AccessSet(c, lines, mem, p, a, victim);
            && SetOk(c, r.lines, p.index, r.mem) && MemOk(c, r.mem)
            && (a.Read? ==> r.out == SetBlock(c, lines, mem, p.index, p.tag)[p.offset..p.offset + a.len])
  {
    ServeStep(c, lines, mem, p, victim);
    var (at, line, mem') := Serve(c, lines, mem, p, victim);
    var lines' := lines[at := line];
    match a
    case Read(_) =>
    case Write(bytes) =>
      match c.wp
      case WriteAround => BypassStep(c, lines, mem, p, Splice(mem[p.block], p.offset, bytes));
      case WriteThrough =>
        assert LineOk(c, lines'[at], p.index, mem');
        var data := Splice(line.data, p.offset, bytes);
        UpdateStep(c, lines', mem', p, at, line.(data := data), data);
        assert lines'[at := line.(data := data)] == lines[at := line.(data := data)];
      case WriteBack =>
        var line' := line.(data := Splice(line.data, p.offset, bytes), dirty := true);
        UpdateStep(c, lines', mem', p, at, line', mem'[p.block]);
        assert lines'[at := line'] == lines[at := line'] && mem'[p.block := mem'[p.block]] == mem';
  }

  /** An access changes the logical content of its set by exactly the bytes written. */
  lemma AccessSetView(c: Config, lines: seq<Line>, mem: seq<seq<byte>>, p: Place, a: Action, victim: nat, tag: nat)
    requires Ready(c, lines, mem, p, a, victim)
    requires c.geo.Join(tag, p.index) < |mem|
    ensures |SetBlock(c, lines, mem, p.index, p.tag)| == c.geo.LineWidth()
    ensures var r := AccessSet(c, lines, mem, p, a, victim);
            && |r.mem| == |mem|
            && SetBlock(c, r.lines, r.mem, p.index, tag) ==
               if a.Write? && tag == p.tag
               then Splice(SetBlock(c, lines, mem, p.index, tag), p.offset, a.bytes)
               else SetBlock(c, lines, mem, p.index, tag)
  {
    GetReady(c, lines, mem, p, a, victim);
    ServeStep(c, lines, mem, p, victim);
    ServeView(c, lines, mem, p, victim, tag);
    var (at, line, mem') := Serve(c, lines, mem, p, victim);
    var lines' := lines[at := line];
    JoinInjective(c.geo, tag, p.tag, p.index);
    match a
    case Read(_) =>
    case Write(bytes) =>
      match c.wp
      case WriteAround =>
        BypassView(c, lines, mem, p, bytes, tag);
      case WriteThrough =>
        var line' := line.(data := Splice(line.data, p.offset, bytes));
        FindAfterReplace(lines', at, line', tag);
        assert lines'[at := line'] == lines[at := line'];
      case WriteBack =>
        var line' := line.(data := Splice(line.data, p.offset, bytes), dirty := true);
        FindAfterReplace(lines', at, line', tag);
        assert lines'[at := line'] == lines[at := line'];
  }

  lemma BypassView(c: Config, lines: seq<Line>, mem: seq<seq<byte>>, p: Place, bytes: seq<byte>, tag: nat)
    requires Ready(c, lines, mem, p, Write(bytes), 0) && c.wp == WriteAround
    requires c.geo.Join(tag, p.index) < |mem|
    ensures |SetBlock(c, lines, mem, p.index, p.tag)| == c.geo.LineWidth()
    ensures var r := AccessSet(c, lines, mem, p, Write(bytes), 0);
            && |r.mem| == |mem|
            && SetBlock(c, r.lines, r.mem, p.index, tag) ==
               if tag == p.tag then Splice(SetBlock(c, lines, mem, p.index, tag), p.offset, bytes)
               else SetBlock(c, lines, mem, p.index, tag)
  {
    GetReady(c, lines, mem, p, Write(bytes), 0);
    BypassStep(c, lines, mem, p, Splice(mem[p.block], p.offset, bytes));
    JoinInjective(c.geo, tag, p.tag, p.index);
    var hit := FindLine(lines, p.tag);
    if hit >= 0 {
      assert LineOk(c, lines[hit], p.index, mem);
      FindAfterInvalidate(lines, hit, tag);
    }
  }

  /** Blocks that belong to other sets stay as they are in memory. */
  lemma AccessSetFrame(c: Config, lines: seq<Line>, mem: seq<seq<byte>>, p: Place, a: Action, victim: nat, b: nat)
    requires Ready(c, lines, mem, p, a, victim)
    requires b < |mem| && Low(b, c.geo.idBits) != p.index
    ensures AccessSet(c, lines, mem, p, a, victim).mem[b] == mem[b]
  {
    JoinUnique(c.geo, p.tag, p.index);
    JoinUnique(c.geo, lines[victim].tag, p.index);
  }
}

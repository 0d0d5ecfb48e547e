/** The DMA controller: six channels, each a process that asks for beats, and an arbiter process that
    makes them. A step is what one process does between two waits; triggers and register writes fall
    between steps. Every bus access takes time, so a channel has always seen `accept` rise before the
    arbiter goes on. */
module Dma {
  import opened Bits

  datatype Mode = Single | Block
  datatype Incr = Unchanged | Decrement | Increment

  /** What `updateConfig` takes from a channel's control register */
  datatype Config = Config(mode: Mode, srcIncr: Incr, dstIncr: Incr, srcByte: bool, dstByte: bool, enable: bool)

  /** `running` is the branch of the channel's process that waits for `accept` while `pending`.
      `regSa`, `regDa`, `regSz` and `regEnable` are the channel's registers. */
  datatype Channel = Channel(
    config: Config, flag: bool, size: int, tSize: int, sa: int, da: int, tSrc: int, tDst: int,
    pending: bool, running: Mode, regSa: int, regDa: int, regSz: int, regEnable: bool)

  function Width(isByte: bool): nat {
    if isByte then 1 else 2
  }

  function Stride(i: Incr, isByte: bool): int {
    match i
    case Unchanged => 0
    case Decrement => 0 - Width(isByte)
    case Increment => Width(isByte)
  }

  function UpdateAddresses(ch: Channel): Channel {
    ch.(tDst := ch.tDst + Stride(ch.config.dstIncr, ch.config.dstByte),
        tSrc := ch.tSrc + Stride(ch.config.srcIncr, ch.config.srcByte))
  }

  /** The job is over: the size is restored, the channel disabled and its flag set. */
  function Finish(ch: Channel): Channel {
    ch.(size := ch.tSize, config := ch.config.(enable := false), flag := true, pending := false)
  }

  /** A trigger, when the channel's process waits for one and the channel is enabled */
  function Triggered(ch: Channel): Channel {
    if ch.pending || !ch.config.enable then ch
    else if ch.config.mode.Single? then
      (if ch.size == ch.tSize then ch.(tSrc := ch.sa, tDst := ch.da) else ch).(pending := true, running := Single)
    else
      var ch' := ch.(size := ch.tSize, tSrc := ch.sa, tDst := ch.da, running := Block);
      if ch'.size == 0 then Finish(ch') else ch'.(pending := true)
  }

  /** `accept` rises: one beat has been made. */
  function Accepted(ch: Channel): Channel {
    var ch' := UpdateAddresses(ch);
    match ch.running
    case Single =>
      if ch'.size > 1 then ch'.(size := ch'.size - 1, pending := false) else Finish(ch')
    case Block =>
      if !ch'.config.enable then Finish(ch')
      else if ch'.size - 1 == 0 then Finish(ch'.(size := 0))
      else ch'.(size := ch'.size - 1)
  }

  /** `updateChannelAddresses`, for one channel */
  function Refresh(ch: Channel): Channel {
    ch.(sa := ch.regSa, da := ch.regDa, size := ch.regSz, tSize := if ch.config.enable then ch.tSize else ch.regSz)
  }

  // ---------------------------------------------------------------------------------------------
  // Memory

  function Load(mem: seq<byte>, a: int): byte {
    if 0 <= a < |mem| then mem[a] else 0
  }

  function Store(mem: seq<byte>, a: int, v: byte): (m: seq<byte>)
    ensures |m| == |mem|
  {
    if 0 <= a < |mem| then mem[a := v] else mem
  }

  /** One or two bytes on the bus */
  function Read(mem: seq<byte>, a: int, w: nat): (byte, byte) {
    (Load(mem, a), if w == 2 then Load(mem, a + 1) else 0)
  }

  function Write(mem: seq<byte>, a: int, w: nat, data: (byte, byte)): (m: seq<byte>)
    ensures |m| == |mem|
  {
    if w == 2 then Store(Store(mem, a, data.0), a + 1, data.1) else Store(mem, a, data.0)
  }

  /** An access that writes memory: a beat of a channel, or a write of the CPU */
  datatype Access =
    | Beat(channel: nat, src: int, dst: int, width: nat)
    | Stored(dst: int, width: nat, data: (byte, byte))
  {
    predicate Of(c: nat) {
      Beat? && channel == c
    }
  }

  function Transfer(mem: seq<byte>, b: Access): (m: seq<byte>)
    ensures |m| == |mem|
  {
    Write(mem, b.dst, b.width, if b.Beat? then Read(mem, b.src, b.width) else b.data)
  }

  // ---------------------------------------------------------------------------------------------
  // The controller

  const NCHANNELS := 6

  /** Where the arbiter waits: for a pending channel, before looking whether channel `c` is pending,
      with the data of a beat read, and with a beat written before and after the channel has seen it */
  datatype Arbiter = Idle | Ready(c: nat) | Holding(c: nat, data: (byte, byte)) | Accepting(c: nat) | Done(c: nat)

  /** `log` is a history of the beats made and of what the CPU wrote. */
  datatype System = System(ch: seq<Channel>, arb: Arbiter, mem: seq<byte>, log: seq<Access>)

  /** The lowest pending channel at or above `i`, or the number of channels */
  function FirstPending(ch: seq<Channel>, i: nat): (c: nat)
    requires i <= |ch|
    ensures i <= c <= |ch|
    ensures c < |ch| ==> ch[c].pending
    ensures forall k | i <= k < c :: !ch[k].pending
    decreases |ch| - i
  {
    if i == |ch| || ch[i].pending then i else FirstPending(ch, i + 1)
  }

  ghost predicate SystemOk(s: System) {
    && |s.ch| == NCHANNELS
    && (!s.arb.Idle? ==> s.arb.c < |s.ch|)
    && (s.arb.Holding? || s.arb.Accepting? ==> s.ch[s.arb.c].pending)
    && (s.arb.Holding? ==> s.arb.data == Read(s.mem, s.ch[s.arb.c].tSrc, Width(s.ch[s.arb.c].config.srcByte)))
  }

  /** The next step of the arbiter and of the channel it serves */
  function Tick(s: System): (t: System)
    requires SystemOk(s)
    ensures SystemOk(t)
  {
    match s.arb
    case Idle =>
      var c := FirstPending(s.ch, 0);
      if c < |s.ch| then s.(arb := Ready(c)) else s
    case Ready(c) =>
      var ch := s.ch[c];
      if ch.pending then s.(arb := Holding(c, Read(s.mem, ch.tSrc, Width(ch.config.srcByte))))
      else s.(ch := s.ch[c := ch.(regEnable := ch.regEnable && ch.config.enable)], arb := Idle)
    case Holding(c, data) =>
      var ch := s.ch[c];
      var w := Width(ch.config.srcByte);
      s.(mem := Write(s.mem, ch.tDst, w, data), log := s.log + [Beat(c, ch.tSrc, ch.tDst, w)], arb := Accepting(c))
    case Accepting(c) =>
      s.(ch := s.ch[c := Accepted(s.ch[c])], arb := Done(c))
    case Done(c) =>
      s.(ch := s.ch[c := s.ch[c].(regSz := s.ch[c].size)], arb := Ready(c))
  }

  /** The CPU accesses registers and memory, which it does only while the arbiter does not stall it. Every
      access from the first address register on refreshes all channels: writes to address and size
      registers, writes to the control registers of all channels but channel 0, and reads. */
  datatype Event =
    | Trigger(c: nat)
    | WriteAddresses(c: nat, sa: int, da: int, sz: int)
    | Configure(c: nat, config: Config)
    | ReadRegisters
    | CpuWrite(a: int, isByte: bool, data: (byte, byte))
    | Next

  function RefreshAll(ch: seq<Channel>): (r: seq<Channel>)
    ensures |r| == |ch|
    ensures forall i | 0 <= i < |ch| :: r[i] == Refresh(ch[i])
  {
    seq(|ch|, i requires 0 <= i < |ch| => Refresh(ch[i]))
  }

  function Apply(s: System, e: Event): (t: System)
    requires SystemOk(s)
    ensures SystemOk(t)
  {
    match e
    case Trigger(c) =>
      if c < |s.ch| then s.(ch := s.ch[c := Triggered(s.ch[c])]) else s
    case WriteAddresses(c, sa, da, sz) =>
      if s.arb.Idle? && c < |s.ch| then
        s.(ch := RefreshAll(s.ch[c := s.ch[c].(regSa := sa, regDa := da, regSz := sz)]))
      else s
    case Configure(c, config) =>
      if s.arb.Idle? && c < |s.ch| then
        var ch := s.ch[c := s.ch[c].(config := config, regEnable := config.enable)];
        s.(ch := if c == 0 then ch else RefreshAll(ch))
      else s
    case ReadRegisters =>
      if s.arb.Idle? then s.(ch := RefreshAll(s.ch)) else s
    case CpuWrite(a, isByte, data) =>
      if s.arb.Idle? then
        s.(mem := Write(s.mem, a, Width(isByte), data), log := s.log + [Stored(a, Width(isByte), data)])
      else s
    case Next => Tick(s)
  }

  /** Memory after the accesses of a log */
  function Replay(mem: seq<byte>, log: seq<Access>): (m: seq<byte>)
    ensures |m| == |mem|
  {
    if log == [] then mem else Transfer(Replay(mem, log[..|log| - 1]), log[|log| - 1])
  }

  lemma ReplaySnoc(mem: seq<byte>, log: seq<Access>, b: Access)
    ensures Replay(mem, log + [b]) == Transfer(Replay(mem, log), b)
  {
    assert (log + [b])[..|log|] == log;
  }

  /** What holds in every reachable state: memory is what the beats and the CPU's writes made of it, and
      nothing else. */
  ghost predicate Inv(s: System, mem0: seq<byte>) {
    SystemOk(s) && s.mem == Replay(mem0, s.log) && WidthsOk(s.log)
  }

  ghost predicate WidthsOk(log: seq<Access>) {
    forall i | 0 <= i < |log| :: log[i].width == 1 || log[i].width == 2
  }

  /** The beat the arbiter is about to make */
  function NextBeat(s: System): Access
    requires SystemOk(s) && s.arb.Holding?
  {
    var ch := s.ch[s.arb.c];
    Beat(s.arb.c, ch.tSrc, ch.tDst, Width(ch.config.srcByte))
  }

  lemma HoldingTransfers(s: System)
    requires SystemOk(s) && s.arb.Holding?
    ensures Tick(s).mem == Transfer(s.mem, NextBeat(s)) && Tick(s).log == s.log + [NextBeat(s)]
    ensures NextBeat(s).width == 1 || NextBeat(s).width == 2
  {
  }

  lemma TickKeepsInv(s: System, mem0: seq<byte>)
    requires Inv(s, mem0)
    ensures Inv(Tick(s), mem0)
  {
    if s.arb.Holding? {
      ReplaySnoc(mem0, s.log, NextBeat(s));
      HoldingTransfers(s);
    }
  }

  lemma ApplyKeepsInv(s: System, e: Event, mem0: seq<byte>)
    requires Inv(s, mem0)
    ensures Inv(Apply(s, e), mem0)
  {
    if e.Next? {
      TickKeepsInv(s, mem0);
    } else if e.CpuWrite? && s.arb.Idle? {
      ReplaySnoc(mem0, s.log, Stored(e.a, Width(e.isByte), e.data));
    }
  }

  function Run(s: System, es: seq<Event>): (r: System)
    requires SystemOk(s)
    ensures SystemOk(r)
  {
    if es == [] then s
    else
      Apply(Run(s, es[..|es| - 1]), es[|es| - 1])
  }

  // ---------------------------------------------------------------------------------------------
  // A job: what a channel was programmed to do

  datatype Job = Job(src: int, dst: int, size: nat, config: Config)

  /** In Single mode a job of size 0 still makes a beat; in Block mode it makes none. */
  function Total(j: Job): nat {
    if j.config.mode.Single? && j.size == 0 then 1 else j.size
  }

  function Nth(start: int, stride: int, k: nat): int {
    if k == 0 then start else Nth(start, stride, k - 1) + stride
  }

  function NthBeat(j: Job, c: nat, k: nat): Access {
    Beat(c, Nth(j.src, Stride(j.config.srcIncr, j.config.srcByte), k),
         Nth(j.dst, Stride(j.config.dstIncr, j.config.dstByte), k), Width(j.config.srcByte))
  }

  /** The beats of a channel */
  function Beats(log: seq<Access>, c: nat): (b: seq<Access>)
    ensures |b| <= |log|
  {
    if log == [] then []
    else
      var last := log[|log| - 1];
      Beats(log[..|log| - 1], c) + (if last.Of(c) then [last] else [])
  }

  lemma BeatsSnoc(log: seq<Access>, b: Access, c: nat)
    ensures Beats(log + [b], c) == Beats(log, c) + (if b.Of(c) then [b] else [])
  {
    assert (log + [b])[..|log|] == log;
  }

  /** The beats are those of the job, in order. */
  ghost predicate Expected(beats: seq<Access>, j: Job, c: nat) {
    forall k | 0 <= k < |beats| :: beats[k] == NthBeat(j, c, k)
  }

  /** The beats the channel has seen: all it made but one just written */
  function Seen(s: System, c: nat): int {
    |Beats(s.log, c)| - (if s.arb == Accepting(c) then 1 else 0)
  }

  /** The channel is set up for the job; only the job's end clears `enable`. */
  ghost predicate Programmed(ch: Channel, j: Job) {
    && j.config.enable && ch.config.(enable := true) == j.config
    && ch.tSize == j.size && ch.sa == ch.regSa == j.src && ch.da == ch.regDa == j.dst
  }

  /** `u` beats are behind it and at least one ahead, except that a block of size 0 has none ahead. */
  ghost predicate Underway(ch: Channel, j: Job, u: int) {
    && ch.config.enable && 0 <= u && (u < Total(j) || (u == 0 && Total(j) == 0))
    && ch.size == j.size - u
    && (ch.pending ==> ch.running == j.config.mode && u < Total(j))
    && (j.config.mode.Block? && u > 0 ==> ch.pending)
    && (ch.pending || u > 0 ==>
          && ch.tSrc == Nth(j.src, Stride(j.config.srcIncr, j.config.srcByte), u)
          && ch.tDst == Nth(j.dst, Stride(j.config.dstIncr, j.config.dstByte), u))
  }

  /** All beats are made, the channel is disabled, its flag set and its size restored. */
  ghost predicate Finished(ch: Channel, j: Job, u: int) {
    !ch.config.enable && u == Total(j) && ch.flag && ch.size == j.size && !ch.pending
  }

  ghost predicate OnCourse(ch: Channel, j: Job, u: int) {
    Programmed(ch, j) && (Underway(ch, j, u) || Finished(ch, j, u))
  }

  lemma TriggeredOnCourse(ch: Channel, j: Job, u: int)
    requires OnCourse(ch, j, u)
    ensures OnCourse(Triggered(ch), j, u)
    ensures Triggered(ch).regSz == ch.regSz && Triggered(ch).regEnable == ch.regEnable
    ensures Triggered(ch).size == ch.size && (ch.pending ==> Triggered(ch) == ch)
    ensures ch.config.enable && !ch.pending && Total(j) > 0 ==> Triggered(ch).pending
  {
  }

  lemma AcceptedOnCourse(ch: Channel, j: Job, u: int)
    requires OnCourse(ch, j, u) && ch.pending
    ensures OnCourse(Accepted(ch), j, u + 1)
    ensures Accepted(ch).pending <==> j.config.mode.Block? && u + 1 < Total(j)
  {
  }

  lemma RefreshOnCourse(ch: Channel, j: Job, u: int)
    requires OnCourse(ch, j, u) && ch.regSz == ch.size
    ensures OnCourse(Refresh(ch), j, u) && Refresh(ch) == ch
  {
  }

  /** Between two steps of a job that nobody reprograms: the channel's size register agrees with its
      size except while the arbiter is about to copy it, and once the channel is disabled the arbiter
      clears the enable bit, except for a block of size 0, which it never sees. */
  ghost predicate JobInv(s: System, c: nat, j: Job) {
    && SystemOk(s) && c < NCHANNELS
    && Expected(Beats(s.log, c), j, c)
    && (s.arb == Accepting(c) ==> Beats(s.log, c) != [])
    && OnCourse(s.ch[c], j, Seen(s, c))
    && (s.arb != Done(c) ==> s.ch[c].regSz == s.ch[c].size)
    && (s.ch[c].regEnable && !s.ch[c].config.enable ==> Total(j) == 0 || s.arb == Done(c) || s.arb == Ready(c))
  }

  /** A step that does not change the registers of channel `c` */
  predicate Spares(e: Event, c: nat) {
    match e
    case Trigger(_) => true
    case WriteAddresses(d, _, _, _) => d != c
    case Configure(d, _) => d != c
    case ReadRegisters => true
    case CpuWrite(_, _, _) => true
    case Next => true
  }

  lemma TriggerKeepsJob(s: System, c: nat, j: Job, d: nat)
    requires JobInv(s, c, j)
    ensures JobInv(Apply(s, Trigger(d)), c, j)
  {
    TriggeredOnCourse(s.ch[c], j, Seen(s, c));
  }

  lemma WriteKeepsJob(s: System, c: nat, j: Job, e: Event)
    requires JobInv(s, c, j) && Spares(e, c) && (e.WriteAddresses? || e.Configure? || e.ReadRegisters?)
    ensures JobInv(Apply(s, e), c, j)
  {
    if s.arb.Idle? {
      RefreshOnCourse(s.ch[c], j, Seen(s, c));
    }
  }

  lemma CpuWriteBeats(s: System, e: Event, c: nat)
    requires SystemOk(s) && e.CpuWrite?
    ensures Beats(Apply(s, e).log, c) == Beats(s.log, c)
    ensures Apply(s, e).ch == s.ch && Apply(s, e).arb == s.arb && Seen(Apply(s, e), c) == Seen(s, c)
  {
    if s.arb.Idle? {
      BeatsSnoc(s.log, Stored(e.a, Width(e.isByte), e.data), c);
    }
  }

  lemma HoldingBeats(s: System, c: nat)
    requires SystemOk(s) && s.arb.Holding?
    ensures var t := Tick(s);
            && t.ch == s.ch && t.arb == Accepting(s.arb.c) && Seen(t, c) == Seen(s, c)
            && Beats(t.log, c) == Beats(s.log, c) + (if s.arb.c == c then [NextBeat(s)] else [])
  {
    BeatsSnoc(s.log, NextBeat(s), c);
  }

  lemma OwnHoldingKeepsJob(s: System, c: nat, j: Job)
    requires JobInv(s, c, j) && s.arb.Holding? && s.arb.c == c
    ensures JobInv(Tick(s), c, j)
  {
    HoldingBeats(s, c);
    var n := |Beats(s.log, c)|;
    assert Seen(s, c) == n;
    assert NextBeat(s) == NthBeat(j, c, n);
  }

  lemma OthersHoldingKeepsJob(s: System, c: nat, j: Job)
    requires JobInv(s, c, j) && s.arb.Holding? && s.arb.c != c
    ensures JobInv(Tick(s), c, j)
  {
    HoldingBeats(s, c);
  }

  lemma HoldingKeepsJob(s: System, c: nat, j: Job)
    requires JobInv(s, c, j) && s.arb.Holding?
    ensures JobInv(Tick(s), c, j)
  {
    if s.arb.c == c {
      OwnHoldingKeepsJob(s, c, j);
    } else {
      OthersHoldingKeepsJob(s, c, j);
    }
  }

  lemma AcceptingKeepsJob(s: System, c: nat, j: Job)
    requires JobInv(s, c, j) && s.arb.Accepting?
    ensures JobInv(Tick(s), c, j)
  {
    if s.arb.c == c {
      AcceptedOnCourse(s.ch[c], j, Seen(s, c));
    }
  }

  lemma OtherTickKeepsJob(s: System, c: nat, j: Job)
    requires JobInv(s, c, j) && !s.arb.Holding? && !s.arb.Accepting?
    ensures JobInv(Tick(s), c, j)
  {
  }

  /** Every step of the arbiter, the channels, triggers, memory writes and register writes to other channels
      keeps the job on course. */
  lemma ApplyKeepsJob(s: System, e: Event, c: nat, j: Job)
    requires JobInv(s, c, j) && Spares(e, c)
    ensures JobInv(Apply(s, e), c, j)
  {
    match e
    case Trigger(d) => TriggerKeepsJob(s, c, j, d);
    case WriteAddresses(_, _, _, _) => WriteKeepsJob(s, c, j, e);
    case Configure(_, _) => WriteKeepsJob(s, c, j, e);
    case ReadRegisters => WriteKeepsJob(s, c, j, e);
    case CpuWrite(_, _, _) => CpuWriteBeats(s, e, c);
    case Next =>
      if s.arb.Holding? {
        HoldingKeepsJob(s, c, j);
      } else if s.arb.Accepting? {
        AcceptingKeepsJob(s, c, j);
      } else {
        OtherTickKeepsJob(s, c, j);
      }
  }

  /** Over every run in which channel `c` is not reprogrammed */
  lemma {:induction false} RunKeepsJob(s: System, es: seq<Event>, c: nat, j: Job)
    requires JobInv(s, c, j) && forall i | 0 <= i < |es| :: Spares(es[i], c)
    ensures JobInv(Run(s, es), c, j)
  {
    if es != [] {
      RunKeepsJob(s, es[..|es| - 1], c, j);
      ApplyKeepsJob(Run(s, es[..|es| - 1]), es[|es| - 1], c, j);
    }
  }

  lemma {:induction false} RunKeepsInv(s: System, es: seq<Event>, mem0: seq<byte>)
    requires Inv(s, mem0)
    ensures Inv(Run(s, es), mem0)
  {
    if es != [] {
      RunKeepsInv(s, es[..|es| - 1], mem0);
      ApplyKeepsInv(Run(s, es[..|es| - 1]), es[|es| - 1], mem0);
    }
  }

  /** Programming a channel that is disabled and not pending: the address and size registers, then the
      control register with the enable bit. The history starts here. */
  lemma ProgramStartsJob(s: System, c: nat, sa: int, da: int, sz: nat, config: Config)
    requires SystemOk(s) && s.arb == Idle && c < NCHANNELS && s.log == []
    requires !s.ch[c].pending && !s.ch[c].config.enable && config.enable
    ensures JobInv(Apply(Apply(s, WriteAddresses(c, sa, da, sz)), Configure(c, config)), c, Job(sa, da, sz, config))
  {
    var t := Apply(s, WriteAddresses(c, sa, da, sz));
    var u := Apply(t, Configure(c, config));
    assert u.log == [] && u.arb == Idle;
  }

  /** Exactly the beats of the job, in order, and no more: the channel is disabled, its flag is set and
      its size restored exactly when the last beat has been seen. */
  lemma JobOutcome(s: System, c: nat, j: Job)
    requires JobInv(s, c, j)
    ensures |Beats(s.log, c)| <= Total(j)
    ensures forall k | 0 <= k < |Beats(s.log, c)| :: Beats(s.log, c)[k] == NthBeat(j, c, k)
    ensures !s.ch[c].config.enable ==>
              |Beats(s.log, c)| == Total(j) && s.ch[c].flag && s.ch[c].size == s.ch[c].tSize == j.size
    ensures |Beats(s.log, c)| == Total(j) > 0 && s.arb == Idle ==>
              !s.ch[c].config.enable && !s.ch[c].regEnable && s.ch[c].regSz == j.size
  {
  }

  // ---------------------------------------------------------------------------------------------
  // What the beats do to memory

  predicate Writes(b: Access, a: int) {
    b.dst <= a < b.dst + b.width
  }

  lemma TransferAt(mem: seq<byte>, b: Access, a: int)
    requires 0 <= a < |mem| && (b.width == 1 || b.width == 2)
    requires Writes(b, a) ==>
               b.Beat? && 0 <= b.src && b.src + b.width <= |mem| && 0 <= b.dst && b.dst + b.width <= |mem|
    ensures Transfer(mem, b)[a] == if Writes(b, a) then mem[b.src + (a - b.dst)] else mem[a]
  {
  }

  /** The address of unit `k` of a job: bytes or words from the start on, upwards, downwards or in place */
  function UnitAt(start: int, i: Incr, isByte: bool, k: nat): int {
    match i
    case Unchanged => start
    case Decrement => start - k * (if isByte then 1 else 2)
    case Increment => start + k * (if isByte then 1 else 2)
  }

  function SrcUnit(j: Job, k: nat): int {
    UnitAt(j.src, j.config.srcIncr, j.config.srcByte, k)
  }

  function DstUnit(j: Job, k: nat): int {
    UnitAt(j.dst, j.config.dstIncr, j.config.dstByte, k)
  }

  /** Address `a` is in the unit at `u`; the width of a beat is that of the source. */
  predicate Covers(j: Job, u: int, a: int) {
    u <= a < u + (if j.config.srcByte then 1 else 2)
  }

  lemma {:induction false} NthIsUnit(start: int, i: Incr, isByte: bool, k: nat)
    ensures Nth(start, Stride(i, isByte), k) == UnitAt(start, i, isByte, k)
  {
    if k > 0 {
      NthIsUnit(start, i, isByte, k - 1);
    }
  }

  /** The k-th beat goes from unit `k` of the source to unit `k` of the destination. */
  lemma NthBeatExact(j: Job, c: nat, k: nat)
    ensures NthBeat(j, c, k) == Beat(c, SrcUnit(j, k), DstUnit(j, k), if j.config.srcByte then 1 else 2)
  {
    NthIsUnit(j.src, j.config.srcIncr, j.config.srcByte, k);
    NthIsUnit(j.dst, j.config.dstIncr, j.config.dstByte, k);
  }

  /** So for the beats of a job in every reachable state */
  lemma BeatAddresses(s: System, c: nat, j: Job, k: nat)
    requires JobInv(s, c, j) && k < |Beats(s.log, c)|
    ensures Beats(s.log, c)[k] == Beat(c, SrcUnit(j, k), DstUnit(j, k), if j.config.srcByte then 1 else 2)
  {
    JobOutcome(s, c, j);
    NthBeatExact(j, c, k);
  }

  /** Both ends of every beat are in memory, and no beat writes what another reads. */
  ghost predicate MoveJob(j: Job, size: nat) {
    && (forall k: nat | k < j.size ::
          && 0 <= SrcUnit(j, k) && SrcUnit(j, k) + Width(j.config.srcByte) <= size
          && 0 <= DstUnit(j, k) && DstUnit(j, k) + Width(j.config.srcByte) <= size)
    && (forall k: nat, l: nat, a | k < j.size && l < j.size ::
          !(Covers(j, SrcUnit(j, k), a) && Covers(j, DstUnit(j, l), a)))
  }

  /** Address `a` is in a unit of the source or of the destination. */
  ghost predicate Used(j: Job, a: int) {
    exists k: nat :: k < j.size && (Covers(j, SrcUnit(j, k), a) || Covers(j, DstUnit(j, k), a))
  }

  /** The CPU and the beats of other channels write neither to the source nor to the destination. */
  ghost predicate Apart(log: seq<Access>, c: nat, j: Job) {
    forall i, a | 0 <= i < |log| && !log[i].Of(c) && Writes(log[i], a) :: !Used(j, a)
  }

  /** Beat `k` is the last of the first `n` to write to `a`. */
  ghost predicate LastAt(j: Job, n: nat, k: nat, a: int) {
    k < n && Covers(j, DstUnit(j, k), a) && forall l: nat | k < l < n :: !Covers(j, DstUnit(j, l), a)
  }

  /** After `n` beats the source is as it was in `mem`, and each byte of the destination holds the byte of the
      source that the last beat to write it brought. */
  ghost predicate Moved(m: seq<byte>, mem: seq<byte>, j: Job, n: nat) {
    && MoveJob(j, |mem|) && |m| == |mem| && n <= j.size
    && (forall k: nat, a {:trigger Covers(j, SrcUnit(j, k), a)} | k < j.size && Covers(j, SrcUnit(j, k), a) && 0 <= a < |mem| ::
          m[a] == mem[a])
    && (forall k: nat, a | LastAt(j, n, k, a) && 0 <= a < |mem| ::
          m[a] == Load(mem, SrcUnit(j, k) + (a - DstUnit(j, k))))
  }

  /** The beat is the n-th of the job. */
  ghost predicate IsBeat(b: Access, j: Job, n: nat) {
    b.Beat? && b.width == Width(j.config.srcByte) && b.src == SrcUnit(j, n) && b.dst == DstUnit(j, n)
  }

  lemma OwnBeatSpares(mem: seq<byte>, m: seq<byte>, b: Access, j: Job, n: nat, k: nat, a: int)
    requires Moved(m, mem, j, n) && n < j.size && IsBeat(b, j, n)
    requires k < j.size && Covers(j, SrcUnit(j, k), a) && 0 <= a < |mem|
    ensures Transfer(m, b)[a] == mem[a]
  {
    TransferAt(m, b, a);
    assert !Covers(j, DstUnit(j, n), a);
  }

  lemma OwnBeatBrings(mem: seq<byte>, m: seq<byte>, b: Access, j: Job, n: nat, k: nat, a: int)
    requires Moved(m, mem, j, n) && n < j.size && IsBeat(b, j, n)
    requires LastAt(j, n + 1, k, a) && 0 <= a < |mem|
    ensures Transfer(m, b)[a] == Load(mem, SrcUnit(j, k) + (a - DstUnit(j, k)))
  {
    TransferAt(m, b, a);
    if k == n {
      assert Covers(j, SrcUnit(j, n), SrcUnit(j, n) + (a - DstUnit(j, n)));
    } else {
      assert !Covers(j, DstUnit(j, n), a) && LastAt(j, n, k, a);
    }
  }

  lemma OwnBeatMoves(mem: seq<byte>, m: seq<byte>, b: Access, j: Job, n: nat)
    requires Moved(m, mem, j, n) && n < j.size && IsBeat(b, j, n)
    ensures Moved(Transfer(m, b), mem, j, n + 1)
  {
    forall k: nat, a | k < j.size && Covers(j, SrcUnit(j, k), a) && 0 <= a < |mem|
      ensures Transfer(m, b)[a] == mem[a]
    {
      OwnBeatSpares(mem, m, b, j, n, k, a);
    }
    forall k: nat, a | LastAt(j, n + 1, k, a) && 0 <= a < |mem|
      ensures Transfer(m, b)[a] == Load(mem, SrcUnit(j, k) + (a - DstUnit(j, k)))
    {
      OwnBeatBrings(mem, m, b, j, n, k, a);
    }
  }

  lemma OtherBeatMovesNothing(mem: seq<byte>, m: seq<byte>, b: Access, j: Job, n: nat)
    requires Moved(m, mem, j, n) && (b.width == 1 || b.width == 2)
    requires forall a | Writes(b, a) :: !Used(j, a)
    ensures Moved(Transfer(m, b), mem, j, n)
  {
    forall k: nat, a | k < j.size && Covers(j, SrcUnit(j, k), a) && 0 <= a < |mem|
      ensures Transfer(m, b)[a] == mem[a]
    {
      assert Used(j, a);
      TransferAt(m, b, a);
    }
    forall k: nat, a | LastAt(j, n, k, a) && 0 <= a < |mem|
      ensures Transfer(m, b)[a] == Load(mem, SrcUnit(j, k) + (a - DstUnit(j, k)))
    {
      assert Used(j, a);
      TransferAt(m, b, a);
    }
  }

  lemma {:induction false} BeatsMove(mem: seq<byte>, log: seq<Access>, c: nat, j: Job)
    requires MoveJob(j, |mem|) && Expected(Beats(log, c), j, c) && |Beats(log, c)| <= j.size
    requires Apart(log, c, j) && WidthsOk(log)
    ensures Moved(Replay(mem, log), mem, j, |Beats(log, c)|)
    decreases |log|
  {
    if log != [] {
      var rest, b := log[..|log| - 1], log[|log| - 1];
      assert log == rest + [b];
      BeatsSnoc(rest, b, c);
      var n := |Beats(rest, c)|;
      assert Beats(rest, c) == Beats(log, c)[..n];
      BeatsMove(mem, rest, c, j);
      if b.Of(c) {
        assert Beats(log, c)[n] == b;
        NthBeatExact(j, c, n);
        OwnBeatMoves(mem, Replay(mem, rest), b, j, n);
      } else {
        OtherBeatMovesNothing(mem, Replay(mem, rest), b, j, n);
      }
    }
  }

  /** Memory nobody writes to is as before. */
  lemma {:induction false} BeatsFrame(mem: seq<byte>, log: seq<Access>, a: nat)
    requires a < |mem| && WidthsOk(log)
    requires forall i | 0 <= i < |log| :: !Writes(log[i], a)
    ensures Replay(mem, log)[a] == mem[a]
  {
    if log != [] {
      var rest, b := log[..|log| - 1], log[|log| - 1];
      BeatsFrame(mem, rest, a);
      TransferAt(Replay(mem, rest), b, a);
    }
  }

  /** Memory that no access of the log writes is as before. */
  ghost predicate Untouched(m: seq<byte>, mem: seq<byte>, log: seq<Access>) {
    |m| == |mem|
    && forall a | 0 <= a < |mem| && (forall i | 0 <= i < |log| :: !Writes(log[i], a)) :: m[a] == mem[a]
  }

  lemma LogLeavesRest(mem: seq<byte>, log: seq<Access>)
    requires WidthsOk(log)
    ensures Untouched(Replay(mem, log), mem, log)
  {
    forall a | 0 <= a < |mem| && (forall i | 0 <= i < |log| :: !Writes(log[i], a))
      ensures Replay(mem, log)[a] == mem[a]
    {
      BeatsFrame(mem, log, a);
    }
  }

  /** In every mode and for all widths, from programming on and whatever other channels, triggers and register
      writes do in between: what the beats so far have moved, if the CPU and the beats of other channels keep
      away; once the channel is disabled all beats have been made. */
  lemma JobMoves(s: System, es: seq<Event>, c: nat, j: Job)
    requires JobInv(s, c, j) && s.log == [] && Total(j) == j.size && MoveJob(j, |s.mem|)
    requires forall i | 0 <= i < |es| :: Spares(es[i], c)
    requires Apart(Run(s, es).log, c, j)
    ensures var t := Run(s, es);
            && Moved(t.mem, s.mem, j, |Beats(t.log, c)|) && Untouched(t.mem, s.mem, t.log)
            && (!t.ch[c].config.enable ==> |Beats(t.log, c)| == j.size)
  {
    var t := Run(s, es);
    assert Replay(s.mem, s.log) == s.mem;
    RunKeepsInv(s, es, s.mem);
    RunKeepsJob(s, es, c, j);
    JobOutcome(t, c, j);
    BeatsMove(s.mem, t.log, c, j);
    LogLeavesRest(s.mem, t.log);
  }

  // ---------------------------------------------------------------------------------------------
  // What a finished job leaves, mode by mode

  /** A fixed destination keeps the last unit of the source. */
  lemma FixedDestination(m: seq<byte>, mem: seq<byte>, j: Job, i: nat)
    requires Moved(m, mem, j, j.size) && j.size > 0 && j.config.dstIncr.Unchanged?
    requires i < if j.config.srcByte then 1 else 2
    ensures 0 <= j.dst + i < |m| && 0 <= SrcUnit(j, j.size - 1) + i < |mem|
    ensures m[j.dst + i] == mem[SrcUnit(j, j.size - 1) + i]
  {
    var last := j.size - 1;
    assert DstUnit(j, last) == j.dst;
    assert LastAt(j, j.size, last, j.dst + i);
  }

  /** A destination that moves by the width of the source holds unit `k` of the source in its own unit `k`. */
  lemma UnitsArrive(m: seq<byte>, mem: seq<byte>, j: Job, k: nat, i: nat)
    requires Moved(m, mem, j, j.size) && k < j.size && i < if j.config.srcByte then 1 else 2
    requires !j.config.dstIncr.Unchanged? && j.config.dstByte == j.config.srcByte
    ensures 0 <= DstUnit(j, k) + i < |m| && 0 <= SrcUnit(j, k) + i < |mem|
    ensures m[DstUnit(j, k) + i] == mem[SrcUnit(j, k) + i]
  {
    var a := DstUnit(j, k) + i;
    forall l: nat | k < l < j.size
      ensures !Covers(j, DstUnit(j, l), a)
    {
    }
    assert LastAt(j, j.size, k, a);
  }

  /** A fixed source fills the destination. */
  lemma FixedSource(m: seq<byte>, mem: seq<byte>, j: Job, k: nat, i: nat)
    requires Moved(m, mem, j, j.size) && k < j.size && i < if j.config.srcByte then 1 else 2
    requires j.config.srcIncr.Unchanged? && j.config.dstIncr.Increment? && j.config.dstByte == j.config.srcByte
    ensures var a := j.dst + k * (if j.config.srcByte then 1 else 2) + i;
            0 <= a < |m| && 0 <= j.src + i < |mem| && m[a] == mem[j.src + i]
  {
    UnitsArrive(m, mem, j, k, i);
  }

  lemma DownwardRange(j: Job, size: nat)
    requires MoveJob(j, size) && j.size > 0
    requires j.config.srcIncr.Decrement? && j.config.dstIncr.Decrement? && j.config.dstByte == j.config.srcByte
    ensures var w := if j.config.srcByte then 1 else 2;
            var n := j.size * w;
            0 <= j.dst + w - n && j.dst + w <= size && 0 <= j.src + w - n && j.src + w <= size
  {
    assert 0 <= DstUnit(j, j.size - 1) && 0 <= SrcUnit(j, j.size - 1);
    assert DstUnit(j, 0) == j.dst && SrcUnit(j, 0) == j.src;
  }

  lemma DownwardByte(m: seq<byte>, mem: seq<byte>, j: Job, x: nat)
    requires Moved(m, mem, j, j.size)
    requires j.config.srcIncr.Decrement? && j.config.dstIncr.Decrement? && j.config.dstByte == j.config.srcByte
    requires x < j.size * if j.config.srcByte then 1 else 2
    ensures var w := if j.config.srcByte then 1 else 2;
            var down := x + w - j.size * w;
            && 0 <= j.dst + down < |m| && 0 <= j.src + down < |mem|
            && m[j.dst + down] == mem[j.src + down]
  {
    if j.config.srcByte {
      UnitsArrive(m, mem, j, j.size - 1 - x, 0);
    } else {
      UnitsArrive(m, mem, j, j.size - 1 - x / 2, x % 2);
    }
  }

  /** Two decrementing ranges end at the programmed units; the lower ones hold the lower units. */
  lemma DownwardCopy(m: seq<byte>, mem: seq<byte>, j: Job)
    requires Moved(m, mem, j, j.size) && j.size > 0
    requires j.config.srcIncr.Decrement? && j.config.dstIncr.Decrement? && j.config.dstByte == j.config.srcByte
    ensures var w := if j.config.srcByte then 1 else 2;
            var n := j.size * w;
            && 0 <= j.dst + w - n && j.dst + w <= |m| && 0 <= j.src + w - n && j.src + w <= |mem|
            && m[j.dst + w - n..j.dst + w] == mem[j.src + w - n..j.src + w]
  {
    var w := if j.config.srcByte then 1 else 2;
    var n := j.size * w;
    DownwardRange(j, |mem|);
    var got, sent := m[j.dst + w - n..j.dst + w], mem[j.src + w - n..j.src + w];
    forall x | 0 <= x < n
      ensures got[x] == sent[x]
    {
      DownwardByte(m, mem, j, x);
    }
  }

  /** The units of the source in reverse order */
  lemma ReversingCopy(m: seq<byte>, mem: seq<byte>, j: Job, k: nat, i: nat)
    requires Moved(m, mem, j, j.size) && k < j.size && i < if j.config.srcByte then 1 else 2
    requires j.config.srcIncr.Decrement? && j.config.dstIncr.Increment? && j.config.dstByte == j.config.srcByte
    ensures var w := if j.config.srcByte then 1 else 2;
            && 0 <= j.dst + k * w + i < |m| && 0 <= j.src - k * w + i < |mem|
            && m[j.dst + k * w + i] == mem[j.src - k * w + i]
  {
    UnitsArrive(m, mem, j, k, i);
  }

  /** The CPU and the beats of other channels write neither to the source nor to the destination of a job
      that moves upwards. */
  ghost predicate OthersKeepAway(log: seq<Access>, c: nat, j: Job, w: nat) {
    forall i, a | 0 <= i < |log| && !log[i].Of(c) && Writes(log[i], a) ::
      !(j.src <= a < j.src + j.size * w) && !(j.dst <= a < j.dst + j.size * w)
  }

  /** A job that copies upwards from one range of memory to another that does not overlap it */
  ghost predicate CopyJob(j: Job, size: nat) {
    var w := Width(j.config.srcByte);
    && j.config.srcIncr.Increment? && j.config.dstIncr.Increment? && j.config.dstByte == j.config.srcByte
    && 0 <= j.src && j.src + j.size * w <= size && 0 <= j.dst && j.dst + j.size * w <= size
    && (j.src + j.size * w <= j.dst || j.dst + j.size * w <= j.src)
  }

  lemma CopyIsMove(j: Job, size: nat, log: seq<Access>, c: nat)
    requires CopyJob(j, size)
    ensures MoveJob(j, size)
    ensures OthersKeepAway(log, c, j, Width(j.config.srcByte)) ==> Apart(log, c, j)
  {
    var w := Width(j.config.srcByte);
    forall k: nat | k < j.size
      ensures SrcUnit(j, k) == j.src + k * w && DstUnit(j, k) == j.dst + k * w && 0 <= k * w && k * w + w <= j.size * w
    {
    }
  }

  lemma UpwardCopy(m: seq<byte>, mem: seq<byte>, j: Job)
    requires Moved(m, mem, j, j.size) && CopyJob(j, |mem|)
    ensures var n := j.size * Width(j.config.srcByte); m[j.dst..j.dst + n] == mem[j.src..j.src + n]
  {
    var w := Width(j.config.srcByte);
    var n := j.size * w;
    var got, sent := m[j.dst..j.dst + n], mem[j.src..j.src + n];
    forall x | 0 <= x < n
      ensures got[x] == sent[x]
    {
      UnitsArrive(m, mem, j, x / w, x % w);
      assert DstUnit(j, x / w) + x % w == j.dst + x;
    }
  }

  /** A job that moves upwards on both sides copies: once the channel is disabled the destination holds the
      source as it was. */
  lemma JobCopies(s: System, es: seq<Event>, c: nat, j: Job)
    requires JobInv(s, c, j) && s.log == [] && Total(j) == j.size && CopyJob(j, |s.mem|)
    requires forall i | 0 <= i < |es| :: Spares(es[i], c)
    requires OthersKeepAway(Run(s, es).log, c, j, Width(j.config.srcByte))
    ensures var t, n := Run(s, es), j.size * Width(j.config.srcByte);
            && Untouched(t.mem, s.mem, t.log)
            && (!t.ch[c].config.enable ==> t.mem[j.dst..j.dst + n] == s.mem[j.src..j.src + n])
  {
    var t := Run(s, es);
    CopyIsMove(j, |s.mem|, t.log, c);
    JobMoves(s, es, c, j);
    if !t.ch[c].config.enable {
      UpwardCopy(t.mem, s.mem, j);
    }
  }

  // ---------------------------------------------------------------------------------------------
  // Jobs complete. Between the steps of the arbiter any channel may be triggered and others programmed.

  lemma {:induction false} RunConcat(s: System, a: seq<Event>, b: seq<Event>)
    requires SystemOk(s)
    ensures Run(s, a + b) == Run(Run(s, a), b)
  {
    if b == [] {
      assert a + b == a;
    } else {
      var ab, n := a + b, |b| - 1;
      assert ab[..|ab| - 1] == a + b[..n];
      assert ab[|ab| - 1] == b[n];
      RunConcat(s, a, b[..n]);
    }
  }

  function Nexts(es: seq<Event>): nat {
    if es == [] then 0 else Nexts(es[..|es| - 1]) + (if es[|es| - 1].Next? then 1 else 0)
  }

  lemma ReadyTick(s: System, c: nat, j: Job)
    requires JobInv(s, c, j) && s.arb == Ready(c) && s.ch[c].pending
    ensures var t := Tick(s);
            JobInv(t, c, j) && t.arb.Holding? && t.arb.c == c && t.ch == s.ch && Seen(t, c) == Seen(s, c)
  {
    OtherTickKeepsJob(s, c, j);
  }

  lemma HoldingTick(s: System, c: nat, j: Job)
    requires JobInv(s, c, j) && s.arb.Holding? && s.arb.c == c
    ensures var t := Tick(s); JobInv(t, c, j) && t.arb == Accepting(c) && t.ch == s.ch && Seen(t, c) == Seen(s, c)
  {
    HoldingKeepsJob(s, c, j);
    HoldingBeats(s, c);
  }

  lemma AcceptingTick(s: System, c: nat, j: Job)
    requires JobInv(s, c, j) && s.arb == Accepting(c)
    ensures var t := Tick(s);
            && JobInv(t, c, j) && t.arb == Done(c) && Seen(t, c) == Seen(s, c) + 1
            && (t.ch[c].pending <==> j.config.mode.Block? && Seen(t, c) < Total(j))
  {
    AcceptingKeepsJob(s, c, j);
    AcceptedOnCourse(s.ch[c], j, Seen(s, c));
  }

  lemma DoneTick(s: System, c: nat, j: Job)
    requires JobInv(s, c, j) && s.arb == Done(c)
    ensures var t := Tick(s);
            && JobInv(t, c, j) && t.arb == Ready(c) && Seen(t, c) == Seen(s, c)
            && t.ch[c].pending == s.ch[c].pending && t.ch[c].config == s.ch[c].config
  {
    OtherTickKeepsJob(s, c, j);
  }

  lemma LeavingTick(s: System, c: nat, j: Job)
    requires JobInv(s, c, j) && s.arb == Ready(c) && !s.ch[c].pending
    ensures var t := Tick(s);
            && JobInv(t, c, j) && t.arb == Idle && Seen(t, c) == Seen(s, c)
            && !t.ch[c].pending && t.ch[c].config == s.ch[c].config
  {
    OtherTickKeepsJob(s, c, j);
  }

  /** A trigger for a waiting channel, with no lower channel pending, and the arbiter's choice of it */
  lemma TriggerGrants(s: System, c: nat, j: Job)
    requires JobInv(s, c, j) && s.arb == Idle && Total(j) > 0
    requires s.ch[c].config.enable && !s.ch[c].pending && forall i | 0 <= i < c :: !s.ch[i].pending
    ensures var t := Tick(Apply(s, Trigger(c)));
            JobInv(t, c, j) && t.arb == Ready(c) && t.ch[c].pending && Seen(t, c) == Seen(s, c)
  {
    var s1 := Apply(s, Trigger(c));
    TriggerKeepsJob(s, c, j, c);
    TriggeredOnCourse(s.ch[c], j, Seen(s, c));
    assert FirstPending(s1.ch, 0) == c;
    OtherTickKeepsJob(s1, c, j);
  }

  /** The arbiter serves a block: steps it has to go until it is done with the channel */
  function Need(s: System, c: nat, j: Job): int {
    4 * (Total(j) - Seen(s, c)) + (match s.arb
                                   case Idle => 0
                                   case Ready(_) => 1
                                   case Holding(_, _) => 0
                                   case Accepting(_) => -1
                                   case Done(_) => 2)
  }

  ghost predicate Serving(s: System, c: nat, j: Job) {
    && JobInv(s, c, j) && j.config.mode.Block? && j.size > 0 && !s.arb.Idle? && s.arb.c == c
    && (s.ch[c].config.enable ==> s.ch[c].pending)
  }

  /** The job is over and the arbiter elsewhere. */
  ghost predicate Retired(s: System, c: nat, j: Job) {
    JobInv(s, c, j) && !s.ch[c].config.enable && (s.arb.Idle? || s.arb.c != c)
  }

  lemma ServingTick(s: System, c: nat, j: Job)
    requires Serving(s, c, j)
    ensures Need(s, c, j) >= 1
    ensures if Need(s, c, j) == 1 then Retired(Tick(s), c, j)
            else Serving(Tick(s), c, j) && Need(Tick(s), c, j) == Need(s, c, j) - 1
  {
    match s.arb
    case Ready(_) =>
      if s.ch[c].pending {
        ReadyTick(s, c, j);
      } else {
        LeavingTick(s, c, j);
      }
    case Holding(_, _) => HoldingTick(s, c, j);
    case Accepting(_) => AcceptingTick(s, c, j);
    case Done(_) => DoneTick(s, c, j);
  }

  lemma ServingEvent(s: System, e: Event, c: nat, j: Job)
    requires Serving(s, c, j) && Spares(e, c) && !e.Next?
    ensures Serving(Apply(s, e), c, j) && Need(Apply(s, e), c, j) == Need(s, c, j)
  {
    ApplyKeepsJob(s, e, c, j);
    if e.Trigger? && e.c == c {
      TriggeredOnCourse(s.ch[c], j, Seen(s, c));
    } else if e.CpuWrite? {
      CpuWriteBeats(s, e, c);
    }
  }

  lemma RetiredStays(s: System, e: Event, c: nat, j: Job)
    requires Retired(s, c, j) && Spares(e, c)
    ensures Retired(Apply(s, e), c, j)
  {
    ApplyKeepsJob(s, e, c, j);
  }

  /** A granted block runs to its end, whatever else is triggered and programmed meanwhile. */
  lemma {:induction false} BlockFinishes(s: System, es: seq<Event>, c: nat, j: Job)
    requires Serving(s, c, j) && forall i | 0 <= i < |es| :: Spares(es[i], c)
    ensures Nexts(es) >= Need(s, c, j) ==> Retired(Run(s, es), c, j)
    ensures Nexts(es) < Need(s, c, j) ==>
              Serving(Run(s, es), c, j) && Need(Run(s, es), c, j) == Need(s, c, j) - Nexts(es)
  {
    if es == [] {
      ServingTick(s, c, j);
    } else {
      var rest, e := es[..|es| - 1], es[|es| - 1];
      BlockFinishes(s, rest, c, j);
      if Nexts(rest) >= Need(s, c, j) {
        RetiredStays(Run(s, rest), e, c, j);
      } else if e.Next? {
        ServingTick(Run(s, rest), c, j);
      } else {
        ServingEvent(Run(s, rest), e, c, j);
      }
    }
  }

  /** What a finished job leaves: all its beats made, in memory what they have moved and nothing more, and the
      channel disabled, its flag set, its size and size register restored and its enable bit cleared. */
  ghost predicate MoveDone(s: System, t: System, c: nat, j: Job) {
    && c < |t.ch|
    && Moved(t.mem, s.mem, j, j.size) && Untouched(t.mem, s.mem, t.log)
    && |Beats(t.log, c)| == j.size
    && !t.ch[c].config.enable && t.ch[c].flag && !t.ch[c].regEnable
    && t.ch[c].size == t.ch[c].tSize == t.ch[c].regSz == j.size
  }

  /** For a job that copies, the destination holds the source as it was. */
  ghost predicate CopyDone(s: System, t: System, c: nat, j: Job) {
    var n := j.size * Width(j.config.srcByte);
    && CopyJob(j, |s.mem|) && MoveDone(s, t, c, j) && t.mem[j.dst..j.dst + n] == s.mem[j.src..j.src + n]
  }

  lemma RetiredMoveDone(s: System, es: seq<Event>, c: nat, j: Job)
    requires JobInv(s, c, j) && s.log == [] && Total(j) == j.size > 0 && MoveJob(j, |s.mem|)
    requires forall i | 0 <= i < |es| :: Spares(es[i], c)
    requires Retired(Run(s, es), c, j) && Apart(Run(s, es).log, c, j)
    ensures MoveDone(s, Run(s, es), c, j)
  {
    JobMoves(s, es, c, j);
    JobOutcome(Run(s, es), c, j);
  }

  lemma RetiredCopyDone(s: System, es: seq<Event>, c: nat, j: Job)
    requires JobInv(s, c, j) && s.log == [] && Total(j) == j.size > 0 && CopyJob(j, |s.mem|)
    requires forall i | 0 <= i < |es| :: Spares(es[i], c)
    requires Retired(Run(s, es), c, j) && OthersKeepAway(Run(s, es).log, c, j, Width(j.config.srcByte))
    ensures CopyDone(s, Run(s, es), c, j)
  {
    CopyIsMove(j, |s.mem|, Run(s, es).log, c);
    RetiredMoveDone(s, es, c, j);
    UpwardCopy(Run(s, es).mem, s.mem, j);
  }

  lemma RunSnoc(s: System, es: seq<Event>, e: Event)
    requires SystemOk(s)
    ensures Run(s, es + [e]) == Apply(Run(s, es), e)
  {
    assert (es + [e])[..|es|] == es;
  }

  /** A channel waiting for a trigger, with no lower channel pending */
  ghost predicate AtTrigger(s: System, c: nat)
    requires c < |s.ch|
  {
    s.arb == Idle && s.ch[c].config.enable && !s.ch[c].pending && forall i | 0 <= i < c :: !s.ch[i].pending
  }

  function Triggering(before: seq<Event>, c: nat): seq<Event> {
    before + [Trigger(c)] + [Next]
  }

  /** Events that leave the registers of channel `c` alone */
  ghost predicate AllSpare(es: seq<Event>, c: nat) {
    forall i | 0 <= i < |es| :: Spares(es[i], c)
  }

  /** The arbiter has chosen channel `c`, or is serving it, and has beats to make. */
  ghost predicate Granted(s: System, c: nat)
    requires c < |s.ch|
  {
    !s.arb.Idle? && s.arb.c == c && s.ch[c].pending
  }

  lemma TriggeredIsGranted(s: System, before: seq<Event>, c: nat, j: Job)
    requires JobInv(s, c, j) && j.config.mode.Block? && j.size > 0
    requires forall i | 0 <= i < |before| :: Spares(before[i], c)
    requires AtTrigger(Run(s, before), c)
    ensures AllSpare(Triggering(before, c), c) && Granted(Run(s, Triggering(before, c)), c)
    ensures Run(s, Triggering(before, c)).arb.Ready? && JobInv(Run(s, Triggering(before, c)), c, j)
  {
    RunKeepsJob(s, before, c, j);
    RunSnoc(s, before, Trigger(c));
    RunSnoc(s, before + [Trigger(c)], Next);
    TriggerGrants(Run(s, before), c, j);
  }

  lemma ServedBlockRetires(s: System, first: seq<Event>, es: seq<Event>, c: nat, j: Job)
    requires SystemOk(s) && Serving(Run(s, first), c, j) && forall i | 0 <= i < |es| :: Spares(es[i], c)
    requires Nexts(es) >= Need(Run(s, first), c, j)
    ensures Retired(Run(s, first + es), c, j)
  {
    RunConcat(s, first, es);
    BlockFinishes(Run(s, first), es, c, j);
  }

  /** A Block transfer finishes, in any mode and whatever the contention: once a triggered channel is granted,
      any run with at least four steps of the arbiter a beat and two more completes the job. Before the grant
      and after it anything may happen but reprogramming the channel, and writes of the CPU and beats of
      other channels to its units. */
  lemma GrantedBlockMoves(s: System, before: seq<Event>, es: seq<Event>, c: nat, j: Job)
    requires JobInv(s, c, j) && s.log == [] && j.config.mode.Block? && j.size > 0 && MoveJob(j, |s.mem|)
    requires AllSpare(before, c) && AllSpare(es, c)
    requires Granted(Run(s, before), c) && Nexts(es) >= 4 * j.size + 2
    requires Apart(Run(s, before + es).log, c, j)
    ensures MoveDone(s, Run(s, before + es), c, j)
  {
    RunKeepsJob(s, before, c, j);
    GrantedServes(Run(s, before), c, j);
    ServedBlockRetires(s, before, es, c, j);
    RetiredMoveDone(s, before + es, c, j);
  }

  /** In particular one that moves upwards copies. */
  lemma GrantedBlockCopies(s: System, before: seq<Event>, es: seq<Event>, c: nat, j: Job)
    requires JobInv(s, c, j) && s.log == [] && j.config.mode.Block? && j.size > 0 && CopyJob(j, |s.mem|)
    requires AllSpare(before, c) && AllSpare(es, c)
    requires Granted(Run(s, before), c) && Nexts(es) >= 4 * j.size + 2
    requires OthersKeepAway(Run(s, before + es).log, c, j, Width(j.config.srcByte))
    ensures CopyDone(s, Run(s, before + es), c, j)
  {
    CopyIsMove(j, |s.mem|, Run(s, before + es).log, c);
    GrantedBlockMoves(s, before, es, c, j);
    UpwardCopy(Run(s, before + es).mem, s.mem, j);
  }

  lemma GrantedServes(s: System, c: nat, j: Job)
    requires JobInv(s, c, j) && j.config.mode.Block? && j.size > 0 && Granted(s, c)
    ensures Serving(s, c, j) && Need(s, c, j) <= 4 * j.size + (if s.arb.Done? then 2 else 1)
  {
  }

  /** A triggered channel waits until it is granted: over any run that spares it, it is still pending, or has
      been granted on the way. */
  lemma {:induction false} PendingUntilGranted(s: System, es: seq<Event>, c: nat, j: Job)
    requires JobInv(s, c, j) && s.ch[c].pending && AllSpare(es, c)
    ensures JobInv(Run(s, es), c, j)
    ensures Run(s, es).ch[c].pending || exists n | 0 <= n <= |es| :: Granted(Run(s, es[..n]), c)
  {
    RunKeepsJob(s, es, c, j);
    if es != [] {
      var last := |es| - 1;
      var rest := es[..last];
      PendingUntilGranted(s, rest, c, j);
      if exists n | 0 <= n <= last :: Granted(Run(s, rest[..n]), c) {
        var n :| 0 <= n <= last && Granted(Run(s, rest[..n]), c);
        assert es[..n] == rest[..n];
      } else {
        assert rest[..last] == rest && !Granted(Run(s, rest), c);
        StaysPending(Run(s, rest), es[last], c, j);
      }
    }
  }

  lemma StaysPending(s: System, e: Event, c: nat, j: Job)
    requires JobInv(s, c, j) && s.ch[c].pending && !Granted(s, c) && Spares(e, c)
    ensures Apply(s, e).ch[c].pending
  {
    if e.Trigger? && e.c == c {
      TriggeredOnCourse(s.ch[c], j, Seen(s, c));
    } else if (e.WriteAddresses? || e.Configure? || e.ReadRegisters?) && s.arb.Idle? {
      RefreshOnCourse(s.ch[c], j, Seen(s, c));
    }
  }

  /** The grant goes to the lowest pending channel whenever the arbiter is free. */
  lemma LowestIsGranted(s: System, c: nat)
    requires SystemOk(s) && c < NCHANNELS && s.arb.Idle?
    ensures Granted(Tick(s), c) <==> s.ch[c].pending && forall i | 0 <= i < c :: !s.ch[i].pending
  {
  }

  /** In particular, for a trigger with no lower channel pending while the arbiter is free, the copy is done
      within four steps of the arbiter a beat and two more. */
  lemma BlockCopies(s: System, before: seq<Event>, es: seq<Event>, c: nat, j: Job)
    requires JobInv(s, c, j) && s.log == [] && j.config.mode.Block? && j.size > 0 && CopyJob(j, |s.mem|)
    requires AllSpare(before, c) && AllSpare(es, c)
    requires AtTrigger(Run(s, before), c) && Nexts(es) >= 4 * j.size + 1
    requires OthersKeepAway(Run(s, Triggering(before, c) + es).log, c, j, Width(j.config.srcByte))
    ensures CopyDone(s, Run(s, Triggering(before, c) + es), c, j)
  {
    TriggeredIsGranted(s, before, c, j);
    GrantedServes(Run(s, Triggering(before, c)), c, j);
    ServedBlockRetires(s, Triggering(before, c), es, c, j);
    RetiredCopyDone(s, Triggering(before, c) + es, c, j);
  }

  // ---------------------------------------------------------------------------------------------
  // Single mode

  function Waits(ch: Channel): bool {
    ch.config.enable && !ch.pending
  }

  /** Triggers of channel `c` that found it waiting */
  function Served(s: System, es: seq<Event>, c: nat): nat
    requires SystemOk(s) && c < NCHANNELS
  {
    if es == [] then 0
    else
      var n := |es| - 1;
      Served(s, es[..n], c) + (if es[n] == Trigger(c) && Waits(Run(s, es[..n]).ch[c]) then 1 else 0)
  }

  function PendingBeat(s: System, c: nat): nat
    requires c < |s.ch|
  {
    if s.ch[c].pending then 1 else 0
  }

  lemma SingleStep(s: System, e: Event, c: nat, j: Job)
    requires JobInv(s, c, j) && j.config.mode.Single? && Spares(e, c)
    ensures var t := Apply(s, e);
            Seen(t, c) + PendingBeat(t, c) ==
            Seen(s, c) + PendingBeat(s, c) + (if e == Trigger(c) && Waits(s.ch[c]) then 1 else 0)
  {
    if e.Next? && s.arb.Holding? {
      HoldingBeats(s, c);
    } else if e.Next? && s.arb.Accepting? && s.arb.c == c {
      AcceptingTick(s, c, j);
    } else if e.Trigger? && e.c == c {
      TriggeredOnCourse(s.ch[c], j, Seen(s, c));
    } else if e.CpuWrite? {
      CpuWriteBeats(s, e, c);
    }
  }

  /** Every trigger that finds the channel waiting makes one beat, and nothing else makes one. */
  lemma {:induction false} TriggersAreBeats(s: System, es: seq<Event>, c: nat, j: Job)
    requires JobInv(s, c, j) && j.config.mode.Single? && forall i | 0 <= i < |es| :: Spares(es[i], c)
    ensures var t := Run(s, es);
            Seen(t, c) + PendingBeat(t, c) == Seen(s, c) + PendingBeat(s, c) + Served(s, es, c)
  {
    if es != [] {
      var rest, e := es[..|es| - 1], es[|es| - 1];
      TriggersAreBeats(s, rest, c, j);
      RunKeepsJob(s, rest, c, j);
      SingleStep(Run(s, rest), e, c, j);
    }
  }

  /** A Single transfer finishes, in any mode: over every run in which `size` triggers found the channel
      waiting, and the last of their beats is done, whatever other channels do and are programmed to do in
      between. */
  lemma SingleMoves(s: System, es: seq<Event>, c: nat, j: Job)
    requires JobInv(s, c, j) && s.log == [] && j.config.mode.Single? && j.size > 0 && MoveJob(j, |s.mem|)
    requires !s.ch[c].pending && forall i | 0 <= i < |es| :: Spares(es[i], c)
    requires Apart(Run(s, es).log, c, j)
    requires Served(s, es, c) == j.size
    requires var t := Run(s, es); !t.ch[c].pending && (t.arb.Idle? || t.arb.c != c)
    ensures MoveDone(s, Run(s, es), c, j)
  {
    RunKeepsJob(s, es, c, j);
    TriggersAreBeats(s, es, c, j);
    RetiredMoveDone(s, es, c, j);
  }

  lemma SingleCopies(s: System, es: seq<Event>, c: nat, j: Job)
    requires JobInv(s, c, j) && s.log == [] && j.config.mode.Single? && j.size > 0 && CopyJob(j, |s.mem|)
    requires !s.ch[c].pending && forall i | 0 <= i < |es| :: Spares(es[i], c)
    requires OthersKeepAway(Run(s, es).log, c, j, Width(j.config.srcByte))
    requires Served(s, es, c) == j.size
    requires var t := Run(s, es); !t.ch[c].pending && (t.arb.Idle? || t.arb.c != c)
    ensures CopyDone(s, Run(s, es), c, j)
  {
    CopyIsMove(j, |s.mem|, Run(s, es).log, c);
    SingleMoves(s, es, c, j);
    UpwardCopy(Run(s, es).mem, s.mem, j);
  }

  /** A granted beat has `left` steps to go before the channel has seen it. */
  ghost predicate InBeat(s: System, c: nat, j: Job, left: int) {
    && JobInv(s, c, j) && !s.arb.Idle? && s.arb.c == c && s.ch[c].pending
    && (left == 3 ==> s.arb.Ready?) && (left == 2 ==> s.arb.Holding?) && (left == 1 ==> s.arb.Accepting?)
    && 1 <= left <= 3
  }

  lemma InBeatStep(s: System, e: Event, c: nat, j: Job, left: int)
    requires InBeat(s, c, j, left) && Spares(e, c)
    ensures var t := Apply(s, e);
            if !e.Next? then InBeat(t, c, j, left) && Seen(t, c) == Seen(s, c)
            else if left > 1 then InBeat(t, c, j, left - 1) && Seen(t, c) == Seen(s, c)
            else Seen(t, c) == Seen(s, c) + 1
  {
    ApplyKeepsJob(s, e, c, j);
    if e.Next? {
      match s.arb
      case Ready(_) => ReadyTick(s, c, j);
      case Holding(_, _) => HoldingTick(s, c, j);
      case Accepting(_) => AcceptingTick(s, c, j);
    }
  }

  lemma SeenGrows(s: System, e: Event, c: nat, j: Job)
    requires JobInv(s, c, j) && Spares(e, c)
    ensures Seen(Apply(s, e), c) >= Seen(s, c)
  {
    if e.Next? && s.arb.Holding? {
      HoldingBeats(s, c);
    } else if e.CpuWrite? {
      CpuWriteBeats(s, e, c);
    }
  }

  /** A granted beat is made within three steps of the arbiter, in either mode, whatever happens between
      them. */
  lemma {:induction false} BeatIsMade(s: System, es: seq<Event>, c: nat, j: Job)
    requires InBeat(s, c, j, 3) && forall i | 0 <= i < |es| :: Spares(es[i], c)
    ensures var t := Run(s, es);
            if Nexts(es) < 3 then InBeat(t, c, j, 3 - Nexts(es)) && Seen(t, c) == Seen(s, c)
            else JobInv(t, c, j) && Seen(t, c) > Seen(s, c)
  {
    if es != [] {
      var rest, e := es[..|es| - 1], es[|es| - 1];
      BeatIsMade(s, rest, c, j);
      ApplyKeepsJob(Run(s, rest), e, c, j);
      if Nexts(rest) < 3 {
        InBeatStep(Run(s, rest), e, c, j, 3 - Nexts(rest));
      } else {
        SeenGrows(Run(s, rest), e, c, j);
      }
    }
  }

  /** A block of size 0 is over with its trigger: the arbiter never sees it, and the enable bit of its
      control register stays set. */
  lemma EmptyBlock(s: System, c: nat, j: Job)
    requires JobInv(s, c, j) && j.config.mode.Block? && j.size == 0 && s.ch[c].config.enable
    ensures !s.ch[c].pending && Beats(s.log, c) == []
    ensures var t := Apply(s, Trigger(c));
            && !t.ch[c].config.enable && t.ch[c].flag && !t.ch[c].pending && t.log == s.log
            && t.ch[c].regEnable == s.ch[c].regEnable
  {
    TriggeredOnCourse(s.ch[c], j, Seen(s, c));
  }
}

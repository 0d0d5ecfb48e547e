/** The DMA controller and its channels as the objects of the simulator, updated in place, against the
    steps of module Dma. */
module DmaDevice {
  import opened Bits
  import opened Dma

  class DmaChannel {
    var config: Config
    var interruptFlag: bool
    var size: int
    var tSize: int
    var sourceAddress: int
    var destinationAddress: int
    var tSourceAddress: int
    var tDestinationAddress: int
    var pending: bool
    var running: Mode
    var regSa: int
    var regDa: int
    var regSz: int
    var regEnable: bool

    ghost function Value(): Channel
      reads this
    {
      Channel(config, interruptFlag, size, tSize, sourceAddress, destinationAddress, tSourceAddress,
              tDestinationAddress, pending, running, regSa, regDa, regSz, regEnable)
    }

    method UpdateAddresses()
      modifies this`tDestinationAddress, this`tSourceAddress
      ensures Value() == Dma.UpdateAddresses(old(Value()))
    {
      match config.dstIncr {
        case Unchanged =>
        case Decrement => tDestinationAddress := tDestinationAddress - (if config.dstByte then 1 else 2);
        case Increment => tDestinationAddress := tDestinationAddress + (if config.dstByte then 1 else 2);
      }
      match config.srcIncr {
        case Unchanged =>
        case Decrement => tSourceAddress := tSourceAddress - (if config.srcByte then 1 else 2);
        case Increment => tSourceAddress := tSourceAddress + (if config.srcByte then 1 else 2);
      }
    }

    /** The process of the channel from a trigger to its first wait for `accept` */
    method OnTrigger()
      modifies this
      ensures Value() == Triggered(old(Value()))
    {
      if pending || !config.enable {
        return;
      }
      match config.mode {
        case Single =>
          if size == tSize {
            tSourceAddress, tDestinationAddress := sourceAddress, destinationAddress;
          }
          running, pending := Single, true;
        case Block =>
          size := tSize;
          tSourceAddress, tDestinationAddress := sourceAddress, destinationAddress;
          running := Block;
          if size == 0 {
            EndJob();
          } else {
            pending := true;
          }
      }
    }

    method EndJob()
      modifies this`size, this`interruptFlag, this`config, this`pending
      ensures Value() == Finish(old(Value()))
    {
      size := tSize;
      interruptFlag := true;
      config := config.(enable := false);
      pending := false;
    }

    /** The process from a rise of `accept` to its next wait */
    method OnAccept()
      modifies this
      ensures Value() == Accepted(old(Value()))
    {
      UpdateAddresses();
      match running {
        case Single =>
          if size > 1 {
            size := size - 1;
            pending := false;
          } else {
            EndJob();
          }
        case Block =>
          if !config.enable {
            EndJob();
          } else {
            size := size - 1;
            if size == 0 {
              EndJob();
            }
          }
      }
    }

    method Refresh()
      modifies this`sourceAddress, this`destinationAddress, this`size, this`tSize
      ensures Value() == Dma.Refresh(old(Value()))
    {
      sourceAddress := regSa;
      destinationAddress := regDa;
      size := regSz;
      if !config.enable {
        tSize := regSz;
      }
    }

    method AfterTransfer()
      modifies this`regEnable
      ensures Value() == old(Value()).(regEnable := old(regEnable) && config.enable)
    {
      if !config.enable {
        regEnable := false;
      }
    }
  }

  class DmaController {
    const channels: seq<DmaChannel>
    var arbiter: Arbiter
    var mem: seq<byte>
    ghost var log: seq<Access>

    ghost predicate Valid() {
      && |channels| == NCHANNELS
      && (forall i, j | 0 <= i < j < |channels| :: channels[i] != channels[j])
    }

    /** The channels have the values of the state. */
    ghost predicate Shows(s: System)
      reads this, channels
    {
      && |s.ch| == |channels| && (forall i | 0 <= i < |channels| :: channels[i].Value() == s.ch[i])
      && s.arb == arbiter && s.mem == mem && s.log == log
    }

    method Trigger(c: nat, ghost s: System)
      requires Valid() && Shows(s) && SystemOk(s) && c < NCHANNELS
      modifies channels
      ensures Shows(Apply(s, Event.Trigger(c)))
    {
      assert channels[c].Value() == s.ch[c];
      channels[c].OnTrigger();
    }

    method UpdateChannelAddresses(ghost s: System)
      requires Valid() && Shows(s)
      modifies channels
      ensures Shows(s.(ch := RefreshAll(s.ch)))
    {
      var i := 0;
      while i < |channels|
        invariant 0 <= i <= |channels|
        invariant arbiter == s.arb && mem == s.mem && log == s.log
        invariant forall k | 0 <= k < i :: channels[k].Value() == Dma.Refresh(s.ch[k])
        invariant forall k | i <= k < |channels| :: channels[k].Value() == s.ch[k]
      {
        channels[i].Refresh();
        i := i + 1;
      }
    }

    /** A register write of the CPU */
    method WriteAddresses(c: nat, sa: int, da: int, sz: int, ghost s: System)
      requires Valid() && Shows(s) && SystemOk(s) && c < NCHANNELS && arbiter == Idle
      modifies channels
      ensures Shows(Apply(s, Event.WriteAddresses(c, sa, da, sz)))
    {
      assert channels[c].Value() == s.ch[c];
      channels[c].regSa, channels[c].regDa, channels[c].regSz := sa, da, sz;
      UpdateChannelAddresses(s.(ch := s.ch[c := s.ch[c].(regSa := sa, regDa := da, regSz := sz)]));
    }

    method UpdateConfig(c: nat, config: Config, ghost s: System)
      requires Valid() && Shows(s) && SystemOk(s) && c < NCHANNELS && arbiter == Idle
      modifies channels
      ensures Shows(Apply(s, Event.Configure(c, config)))
    {
      assert channels[c].Value() == s.ch[c];
      channels[c].config, channels[c].regEnable := config, config.enable;
      if c > 0 {
        UpdateChannelAddresses(s.(ch := s.ch[c := s.ch[c].(config := config, regEnable := config.enable)]));
      }
    }

    method ReadRegisters(ghost s: System)
      requires Valid() && Shows(s) && SystemOk(s) && arbiter == Idle
      modifies channels
      ensures Shows(Apply(s, Event.ReadRegisters))
    {
      UpdateChannelAddresses(s);
    }

    /** A write of the CPU to memory */
    method CpuWrite(address: int, isByte: bool, data: (byte, byte), ghost s: System)
      requires Valid() && Shows(s) && SystemOk(s) && arbiter == Idle
      modifies this
      ensures Shows(Apply(s, Event.CpuWrite(address, isByte, data)))
    {
      WriteBus(address, if isByte then 1 else 2, data);
      log := log + [Stored(address, Width(isByte), data)];
    }

    /** The lowest pending channel, -1 if there is none */
    method FindPending(ghost s: System) returns (channelIdx: int)
      requires Valid() && Shows(s)
      ensures channelIdx == if FirstPending(s.ch, 0) < |s.ch| then FirstPending(s.ch, 0) else -1
    {
      channelIdx := -1;
      var i := 0;
      while i < |channels|
        invariant 0 <= i <= |channels|
        invariant FirstPending(s.ch, 0) == FirstPending(s.ch, i)
      {
        assert channels[i].Value() == s.ch[i];
        if channels[i].pending {
          return i;
        }
        i := i + 1;
      }
    }

    method ReadBus(address: int, length: nat) returns (data: (byte, byte))
      ensures data == Read(mem, address, length)
    {
      data := (Load(mem, address), if length == 2 then Load(mem, address + 1) else 0);
    }

    method WriteBus(address: int, length: nat, data: (byte, byte))
      modifies this`mem
      ensures mem == Write(old(mem), address, length, data)
    {
      mem := Store(mem, address, data.0);
      if length == 2 {
        mem := Store(mem, address + 1, data.1);
      }
    }

    /** The arbiter's process from one wait to the next, and what the channel does on `accept` */
    method Process(ghost s: System)
      requires Valid() && Shows(s) && SystemOk(s)
      modifies this, channels
      ensures Shows(Tick(s))
    {
      match arbiter
      case Idle =>
        var channelIdx := FindPending(s);
        if channelIdx >= 0 {
          arbiter := Ready(channelIdx);
        }
      case Ready(c) =>
        assert channels[c].Value() == s.ch[c];
        if channels[c].pending {
          var data := ReadBus(channels[c].tSourceAddress, if channels[c].config.srcByte then 1 else 2);
          arbiter := Holding(c, data);
        } else {
          channels[c].AfterTransfer();
          arbiter := Idle;
        }
      case Holding(c, data) =>
        assert channels[c].Value() == s.ch[c];
        var ch := channels[c];
        WriteBus(ch.tDestinationAddress, if ch.config.srcByte then 1 else 2, data);
        log := log + [Beat(c, ch.tSourceAddress, ch.tDestinationAddress, Width(ch.config.srcByte))];
        arbiter := Accepting(c);
      case Accepting(c) =>
        assert channels[c].Value() == s.ch[c];
        channels[c].OnAccept();
        arbiter := Done(c);
      case Done(c) =>
        assert channels[c].Value() == s.ch[c];
        channels[c].regSz := channels[c].size;
        arbiter := Ready(c);
    }
  }
}

/** The replacement policies as objects updated in place, each against its value in module
    Replacement. */
module ReplacementUnits {
  import opened Bits
  import Replacement

  class LruUnit {
    var order: seq<nat>

    constructor (n: nat)
      ensures order == seq(n, i => i)
    {
      order := seq(n, i => i);
    }

    method Hit(lineNo: nat)
      modifies this
      ensures order == Replacement.MoveToFront(old(order), lineNo)
    {
      order := Replacement.Remove(order, lineNo);
      order := [lineNo] + order;
    }

    method Miss() returns (victim: nat)
      requires order != []
      modifies this
      ensures victim == old(order)[|old(order)| - 1]
      ensures order == [victim] + old(order)[..|old(order)| - 1]
    {
      order := [order[|order| - 1]] + order;
      order := order[..|order| - 1];
      victim := order[0];
    }

    method Reset()
      modifies this
      ensures order == seq(|old(order)|, i => i)
    {
      var i := 0;
      while i < |order|
        invariant 0 <= i <= |order| == |old(order)|
        invariant forall j | 0 <= j < i :: order[j] == j
      {
        order := order[i := i];
        i := i + 1;
      }
    }
  }

  class RoundRobinUnit {
    var cnt: nat
    const nLines: nat

    constructor (n: nat)
      ensures cnt == 0 && nLines == n
    {
      cnt, nLines := 0, n;
    }

    method Miss() returns (victim: nat)
      requires nLines >= 1
      modifies this
      ensures cnt == victim == (old(cnt) + 1) % nLines
    {
      cnt := (cnt + 1) % nLines;
      victim := cnt;
    }

    method Reset()
      modifies this
      ensures cnt == 0
    {
      cnt := 0;
    }
  }

  class LfuUnit {
    const counters: array<nat>
    const saturation: nat
    var tieBreaker: bool

    constructor (n: nat, saturation: nat)
      ensures fresh(counters) && counters[..] == seq(n, _ => 0)
      ensures this.saturation == saturation && !tieBreaker
    {
      counters := new nat[n](_ => 0);
      this.saturation := saturation;
      tieBreaker := false;
    }

    method Hit(lineNo: nat)
      requires lineNo < counters.Length
      modifies counters
      ensures counters[..] == if old(counters[lineNo]) < saturation
                              then old(counters[..])[lineNo := old(counters[lineNo]) + 1] else old(counters[..])
    {
      if counters[lineNo] < saturation {
        counters[lineNo] := counters[lineNo] + 1;
      }
    }

    /** One pass keeps the first line with the smallest counter and, if there are more, the last. */
    method Miss() returns (victim: nat)
      requires counters.Length >= 1
      modifies this, counters
      ensures victim == Replacement.LfuVictim(old(counters[..]), old(tieBreaker))
      ensures counters[..] == old(counters[..])[victim := 0]
      ensures tieBreaker == (old(tieBreaker) != Replacement.HasTie(old(counters[..])))
    {
      victim := 0;
      var tie := -1;
      var min := counters[0];
      var i := 1;
      while i < counters.Length
        invariant 1 <= i <= counters.Length
        invariant victim < i && counters[victim] == min
        invariant forall j | 0 <= j < i :: counters[j] >= min
        invariant forall j | 0 <= j < victim :: counters[j] > min
        invariant tie == -1 || (victim < tie < i && counters[tie] == min)
        invariant forall j | victim < j < i && tie < j :: counters[j] != min
        invariant counters[..] == old(counters[..]) && tieBreaker == old(tieBreaker)
      {
        if counters[i] < min {
          victim, min, tie := i, counters[i], -1;
        } else if counters[i] == min {
          tie := i;
        }
        i := i + 1;
      }
      LeastUnique(counters[..], min, victim, if tie > 0 then tie else victim);
      Replacement.TieIsTwoIndices(counters[..]);
      if tie > 0 {
        victim := if tieBreaker then victim else tie;
        tieBreaker := !tieBreaker;
      }
      counters[victim] := 0;
    }

    method Reset()
      modifies counters
      ensures counters[..] == seq(counters.Length, _ => 0)
    {
      var i := 0;
      while i < counters.Length
        invariant 0 <= i <= counters.Length
        invariant forall j | 0 <= j < i :: counters[j] == 0
      {
        counters[i] := 0;
        i := i + 1;
      }
    }
  }

  lemma LeastUnique(counters: seq<nat>, m: nat, first: nat, last: nat)
    requires first <= last < |counters| && counters[first] == m == counters[last]
    requires forall j | 0 <= j < |counters| :: counters[j] >= m
    requires (forall j | 0 <= j < first :: counters[j] > m) && (forall j | last < j < |counters| :: counters[j] != m)
    ensures Replacement.LeastCount(counters) == m
    ensures Replacement.FirstIndex(counters, m) == first && Replacement.LastIndex(counters, m) == last
  {
    assert counters[first] in counters;
  }

  /** The one shift register all pseudo-random sets share */
  class Lfsr {
    var state: bv16

    constructor ()
      ensures state == Replacement.LFSR_SEED
    {
      state := Replacement.LFSR_SEED;
    }
  }

  class PseudoRandomUnit {
    const outputMask: nat
    const lfsr: Lfsr

    constructor (n: nat, lfsr: Lfsr)
      requires n >= 1
      ensures outputMask == n - 1 && this.lfsr == lfsr
    {
      outputMask := n - 1;
      this.lfsr := lfsr;
    }

    method Miss() returns (victim: nat)
      modifies lfsr
      ensures lfsr.state == Replacement.LfsrStep(old(lfsr.state))
      ensures victim == Replacement.LfsrVictim(lfsr.state, outputMask + 1)
    {
      var s := lfsr.state;
      var bit := (s >> 0) ^ (s >> 2) ^ (s >> 3) ^ (s >> 5);
      lfsr.state := (s >> 1) | (bit << 15);
      victim := And(lfsr.state as nat, outputMask);
    }
  }

  method NewUnit(kind: Replacement.Kind, n: nat, lfsr: Lfsr) returns (u: Unit)
    requires n >= 1
    ensures fresh(u.Own()) && u.Fits(n, lfsr) && u.Value() == Replacement.New(kind, n)
  {
    match kind {
      case KindLru =>
        var lru := new LruUnit(n);
        u := Lru(lru);
      case KindRoundRobin =>
        var rr := new RoundRobinUnit(n);
        u := RoundRobin(rr);
      case KindLfu =>
        var lfu := new LfuUnit(n, Replacement.LFU_SATURATION);
        u := Lfu(lfu);
      case KindPseudoRandom =>
        var pr := new PseudoRandomUnit(n, lfsr);
        u := PseudoRandom(pr);
    }
  }

  /** A set's policy, called through one interface */
  datatype Unit =
    | Lru(lru: LruUnit)
    | RoundRobin(rr: RoundRobinUnit)
    | Lfu(lfu: LfuUnit)
    | PseudoRandom(pr: PseudoRandomUnit)
  {
    /** Objects this policy alone uses; the shift register is shared */
    ghost function Own(): set<object> {
      match this
      case Lru(lru) => {lru}
      case RoundRobin(rr) => {rr}
      case Lfu(lfu) => {lfu, lfu.counters}
      case PseudoRandom(pr) => {}
    }

    ghost predicate Fits(n: nat, lfsr: Lfsr) {
      match this
      case RoundRobin(rr) => rr.nLines == n
      case PseudoRandom(pr) => pr.outputMask == n - 1 && pr.lfsr == lfsr
      case _ => true
    }

    ghost function Value(): Replacement.Policy
      reads Own()
    {
      match this
      case Lru(lru) => Replacement.Lru(lru.order)
      case RoundRobin(rr) => Replacement.RoundRobin(rr.cnt)
      case Lfu(lfu) => Replacement.Lfu(lfu.counters[..], lfu.saturation, lfu.tieBreaker)
      case PseudoRandom(_) => Replacement.PseudoRandom
    }

    method Hit(lineNo: nat, ghost n: nat)
      requires Replacement.Valid(Value(), n) && lineNo < n
      modifies Own()
      ensures old(Value()).Lfu? ==> |old(Value()).counters| == n
      ensures Value() == Replacement.OnHit(old(Value()), lineNo)
    {
      match this {
        case Lru(lru) => lru.Hit(lineNo);
        case RoundRobin(_) =>
        case Lfu(lfu) => lfu.Hit(lineNo);
        case PseudoRandom(_) =>
      }
    }

    method Miss(ghost n: nat, lfsr: Lfsr) returns (victim: nat)
      requires n >= 1 && Replacement.Valid(Value(), n) && Fits(n, lfsr)
      modifies Own(), lfsr
      ensures old(Value()).Lru? ==> |old(Value()).order| == n
      ensures old(Value()).Lfu? ==> |old(Value()).counters| == n
      ensures Replacement.Victim(Value(), lfsr.state, victim)
              == Replacement.OnMiss(old(Value()), n, old(lfsr.state))
    {
      match this {
        case Lru(lru) => victim := lru.Miss();
        case RoundRobin(rr) => victim := rr.Miss();
        case Lfu(lfu) =>
          Replacement.TieIsTwoIndices(lfu.counters[..]);
          victim := lfu.Miss();
        case PseudoRandom(pr) => victim := pr.Miss();
      }
    }

    method Reset(ghost n: nat)
      requires Replacement.Valid(Value(), n)
      modifies Own()
      ensures Value() == Replacement.Initial(old(Value()), n)
    {
      match this {
        case Lru(lru) => lru.Reset();
        case RoundRobin(rr) => rr.Reset();
        case Lfu(lfu) => lfu.Reset();
        case PseudoRandom(_) =>
      }
    }
  }
}

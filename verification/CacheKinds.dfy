/** The replacement policies at work in the whole cache, from its construction: what each set has done with its
    lines after any run of requests, for the kind of policy the cache was configured with. */
module CacheKinds {
  import opened Bits
  import opened CacheAddress
  import opened CacheLru
  import opened CacheModel
  import opened CacheSystem
  import R = Replacement

  /** What a request is to the policy of set `index`, if anything: a hit on a line, or a miss */
  function EventOf(c: Config, s: System, rq: Request, index: nat): (e: seq<R.Event>)
    requires c.Ok() && InRange(c, rq) && index < |s.sets|
    ensures |e| <= 1
  {
    var p := PlaceOf(c, rq.addr);
    if !Aligned(c, rq) || p.index != index then []
    else if FindLine(s.sets[index], p.tag) >= 0 then [R.HitOn(FindLine(s.sets[index], p.tag))]
    else [R.MissOn]
  }

  ghost function EventsIn(c: Config, s: System, rqs: seq<Request>, index: nat): (es: seq<R.Event>)
    requires SystemOk(c, s) && index < c.geo.NSets() && forall rq | rq in rqs :: InRange(c, rq)
    ensures R.EventsOk(es, c.nLines)
  {
    if rqs == [] then []
    else
      var rq, prior := rqs[|rqs| - 1], rqs[..|rqs| - 1];
      assert rq in rqs && forall q | q in prior :: q in rqs;
      var t := RunRequests(c, s, prior);
      assert SetOk(c, t.sets[index], index, t.mem);
      EventsIn(c, s, prior, index) + EventOf(c, t, rq, index)
  }

  /** What became of it: the line that was hit, or the line chosen as the victim */
  ghost function UseOf(c: Config, s: System, rq: Request, index: nat): (u: seq<R.Use>)
    requires SystemOk(c, s) && InRange(c, rq)
    ensures |u| <= 1
  {
    var p := PlaceOf(c, rq.addr);
    if !Aligned(c, rq) || p.index != index then []
    else
      AlignedPlace(c, rq);
      var line := Choose(c, s, p).line;
      [if FindLine(s.sets[p.index], p.tag) >= 0 then R.Hit(line) else R.Load(line)]
  }

  ghost function UsesIn(c: Config, s: System, rqs: seq<Request>, index: nat): seq<R.Use>
    requires SystemOk(c, s) && forall rq | rq in rqs :: InRange(c, rq)
  {
    if rqs == [] then []
    else
      var rq, prior := rqs[|rqs| - 1], rqs[..|rqs| - 1];
      assert rq in rqs && forall q | q in prior :: q in rqs;
      UsesIn(c, s, prior, index) + UseOf(c, RunRequests(c, s, prior), rq, index)
  }

  /** The line chosen is the one that holds the tag afterwards, unless a write goes around the cache. */
  lemma UseIsLoaded(c: Config, s: System, rq: Request)
    requires SystemOk(c, s) && InRange(c, rq) && Aligned(c, rq)
    requires rq.action.Read? || c.wp != WriteAround
    ensures var p := PlaceOf(c, rq.addr);
            && p.index < c.geo.NSets()
            && UseOf(c, s, rq, p.index) != []
            && UseOf(c, s, rq, p.index)[0].line == FindLine(Step(c, s, rq).0.sets[p.index], p.tag)
  {
    AlignedPlace(c, rq);
    ChooseReady(c, s, rq);
    StepKeepsOk(c, s, rq);
    var p := PlaceOf(c, rq.addr);
    var lines, v := s.sets[p.index], Choose(c, s, p);
    var s' := Step(c, s, rq).0;
    assert SetOk(c, lines, p.index, s.mem) && SetOk(c, s'.sets[p.index], p.index, s'.mem);
    ServeStep(c, lines, s.mem, p, v.line);
    assert Holds(s'.sets[p.index][v.line], p.tag);
  }

  lemma ExtendRun(p: R.Policy, n: nat, lfsr: bv16, es: seq<R.Event>, e: R.Event)
    requires R.Valid(p, n) && n >= 1 && R.EventsOk(es, n) && (e.HitOn? ==> e.line < n)
    ensures R.EventsOk(es + [e], n)
    ensures R.RunPolicy(p, n, lfsr, es + [e]) == R.StepRun(R.RunPolicy(p, n, lfsr, es), n, e)
  {
    assert (es + [e])[..|es|] == es;
  }

  /** The policy and the uses of a set are those of the run. */
  ghost predicate Follows(p: R.Policy, uses: seq<R.Use>, r: R.Run) {
    p == r.policy && uses == r.uses && !p.PseudoRandom?
  }

  /** The set's policy has run through exactly these events. The shared register, which only the pseudo-random
      policy looks at, may be anywhere. */
  lemma {:induction false} SetRuns(c: Config, s: System, rqs: seq<Request>, index: nat, lfsr: bv16)
    requires SystemOk(c, s) && index < c.geo.NSets() && !s.policies[index].PseudoRandom?
    requires forall rq | rq in rqs :: InRange(c, rq)
    ensures Follows(RunRequests(c, s, rqs).policies[index], UsesIn(c, s, rqs, index),
                    R.RunPolicy(s.policies[index], c.nLines, lfsr, EventsIn(c, s, rqs, index)))
  {
    if rqs != [] {
      var rq, prior := rqs[|rqs| - 1], rqs[..|rqs| - 1];
      assert rq in rqs && forall q | q in prior :: q in rqs;
      SetRuns(c, s, prior, index, lfsr);
      var t, es := RunRequests(c, s, prior), EventsIn(c, s, prior, index);
      var r := R.RunPolicy(s.policies[index], c.nLines, lfsr, es);
      SetSteps(c, t, rq, index, r, UsesIn(c, s, prior, index));
      var e := EventOf(c, t, rq, index);
      if e == [] {
        assert es + e == es;
      } else {
        assert e == [e[0]];
        ExtendRun(s.policies[index], c.nLines, lfsr, es, e[0]);
      }
    }
  }

  /** What a lookup is to the policy */
  function LookupEvent(lines: seq<Line>, tag: nat): R.Event {
    if FindLine(lines, tag) >= 0 then R.HitOn(FindLine(lines, tag)) else R.MissOn
  }

  lemma ChosenRuns(lines: seq<Line>, tag: nat, policy: R.Policy, lfsr: bv16, r: R.Run, uses: seq<R.Use>)
    requires lines != [] && R.Valid(policy, |lines|) && Follows(policy, uses, r)
    ensures var v := ChooseLine(lines, policy, lfsr, tag);
            Follows(v.next, uses + [if FindLine(lines, tag) >= 0 then R.Hit(v.line) else R.Load(v.line)],
                    R.StepRun(r, |lines|, LookupEvent(lines, tag)))
  {
    var hit := FindLine(lines, tag);
    R.PolicyStep(policy, |lines|, lfsr, if hit >= 0 then hit else 0);
  }

  lemma StepPolicy(c: Config, t: System, rq: Request, index: nat)
    requires SystemOk(c, t) && InRange(c, rq) && index < c.geo.NSets()
    ensures |t.sets[index]| == c.nLines >= 1 && index < |Step(c, t, rq).0.policies|
    ensures var p, policy' := PlaceOf(c, rq.addr), Step(c, t, rq).0.policies[index];
            if Aligned(c, rq) && p.index == index then
              && policy' == ChooseLine(t.sets[index], t.policies[index], t.lfsr, p.tag).next
              && EventOf(c, t, rq, index) == [LookupEvent(t.sets[index], p.tag)]
            else policy' == t.policies[index] && EventOf(c, t, rq, index) == []
  {
    StepKeepsOk(c, t, rq);
    assert SetOk(c, t.sets[index], index, t.mem);
    if Aligned(c, rq) {
      ChooseReady(c, t, rq);
    }
  }

  lemma SetSteps(c: Config, t: System, rq: Request, index: nat, r: R.Run, uses: seq<R.Use>)
    requires SystemOk(c, t) && InRange(c, rq) && index < c.geo.NSets() && Follows(t.policies[index], uses, r)
    ensures R.EventsOk(EventOf(c, t, rq, index), c.nLines) && index < |Step(c, t, rq).0.policies|
    ensures var e := EventOf(c, t, rq, index);
            && (e != [] && e[0].HitOn? ==> e[0].line < c.nLines)
            && Follows(Step(c, t, rq).0.policies[index], uses + UseOf(c, t, rq, index),
                       if e == [] then r else R.StepRun(r, c.nLines, e[0]))
  {
    var p := PlaceOf(c, rq.addr);
    StepPolicy(c, t, rq, index);
    if Aligned(c, rq) && p.index == index {
      ChosenRuns(t.sets[index], p.tag, t.policies[index], t.lfsr, r, uses);
    } else {
      assert uses + UseOf(c, t, rq, index) == uses;
    }
  }

  /** A cache configured for round robin: in every set, after any requests, the i-th line loaded is line i + 1
      modulo the lines. */
  lemma BuiltRoundRobin(c: Config, mem: seq<seq<byte>>, lfsr: bv16, rqs: seq<Request>, index: nat, i: nat)
    requires c.Ok() && MemOk(c, mem) && index < c.geo.NSets() && forall rq | rq in rqs :: InRange(c, rq)
    ensures var s := InitialSystem(c, R.KindRoundRobin, mem, lfsr);
            && SystemOk(c, s)
            && var l := R.Loads(UsesIn(c, s, rqs, index));
               i < |l| ==> l[i] == (i + 1) % c.nLines
  {
    var s := InitialSystem(c, R.KindRoundRobin, mem, lfsr);
    InitialOk(c, R.KindRoundRobin, mem, lfsr);
    SetRuns(c, s, rqs, index, lfsr);
    R.RoundRobinFirstLoads(c.nLines, lfsr, EventsIn(c, s, rqs, index), i);
  }

  /** The uses of set `index` count for the line: hits since it was last a victim, up to 64. */
  function Score(uses: seq<R.Use>, line: nat): nat {
    R.AtMost(R.HitsSinceLoad(uses, line), 64)
  }

  lemma LfuChooses(c: Config, t: System, rq: Request, index: nat)
    requires SystemOk(c, t) && InRange(c, rq) && Aligned(c, rq)
    requires index == PlaceOf(c, rq.addr).index && index < c.geo.NSets() && t.policies[index].Lfu?
    ensures var u := UseOf(c, t, rq, index);
            u != [] && (u[0].Load? ==> R.IsMinimal(t.policies[index].counters, u[0].line))
  {
    AlignedPlace(c, rq);
    assert SetOk(c, t.sets[index], index, t.mem);
  }

  /** A cache configured for LFU: after any requests, a miss takes a line with the least score of its set. */
  lemma BuiltLfu(c: Config, mem: seq<seq<byte>>, lfsr: bv16, rqs: seq<Request>, rq: Request, index: nat, line: nat)
    requires c.Ok() && MemOk(c, mem) && InRange(c, rq) && Aligned(c, rq) && forall q | q in rqs :: InRange(c, q)
    requires index == PlaceOf(c, rq.addr).index && index < c.geo.NSets() && line < c.nLines
    ensures SystemOk(c, InitialSystem(c, R.KindLfu, mem, lfsr))
    ensures var s := InitialSystem(c, R.KindLfu, mem, lfsr);
            var uses, u := UsesIn(c, s, rqs, index), UseOf(c, RunRequests(c, s, rqs), rq, index);
            u != [] && (u[0].Load? ==> u[0].line < c.nLines && Score(uses, u[0].line) <= Score(uses, line))
  {
    var s := InitialSystem(c, R.KindLfu, mem, lfsr);
    InitialOk(c, R.KindLfu, mem, lfsr);
    LfuState(c, s, lfsr, rqs, index);
    var t := RunRequests(c, s, rqs);
    LfuChooses(c, t, rq, index);
    var u := UseOf(c, t, rq, index);
    if u[0].Load? {
      var counters := t.policies[index].counters;
      assert counters[u[0].line] <= counters[line];
    }
  }

  lemma LfuState(c: Config, s: System, lfsr: bv16, rqs: seq<Request>, index: nat)
    requires SystemOk(c, s) && index < c.geo.NSets() && s.policies[index] == R.New(R.KindLfu, c.nLines)
    requires forall q | q in rqs :: InRange(c, q)
    ensures R.LfuState(R.Run(RunRequests(c, s, rqs).policies[index], lfsr, UsesIn(c, s, rqs, index)), c.nLines, 64)
  {
    assert s.policies[index] == R.Initial(R.Lfu([], 64, false), c.nLines);
    R.LfuCountsHits(c.nLines, 64, false, lfsr, EventsIn(c, s, rqs, index));
    SetRuns(c, s, rqs, index, lfsr);
  }

  /** The request misses, in whatever set it goes to. */
  function Missed(c: Config, s: System, rq: Request): nat
    requires c.Ok() && InRange(c, rq)
  {
    var p := PlaceOf(c, rq.addr);
    if Aligned(c, rq) && p.index < |s.sets| && FindLine(s.sets[p.index], p.tag) < 0 then 1 else 0
  }

  /** Misses of a run, in all sets */
  ghost function MissesIn(c: Config, s: System, rqs: seq<Request>): (n: nat)
    requires SystemOk(c, s) && forall rq | rq in rqs :: InRange(c, rq)
  {
    if rqs == [] then 0
    else
      var rq, prior := rqs[|rqs| - 1], rqs[..|rqs| - 1];
      assert rq in rqs && forall q | q in prior :: q in rqs;
      MissesIn(c, s, prior) + Missed(c, RunRequests(c, s, prior), rq)
  }

  ghost predicate AllPseudoRandom(s: System) {
    forall i | 0 <= i < |s.policies| :: s.policies[i].PseudoRandom?
  }

  lemma RegisterStep(c: Config, t: System, rq: Request)
    requires SystemOk(c, t) && AllPseudoRandom(t) && InRange(c, rq)
    ensures AllPseudoRandom(Step(c, t, rq).0)
    ensures Step(c, t, rq).0.lfsr == if Missed(c, t, rq) == 1 then R.LfsrStep(t.lfsr) else t.lfsr
    ensures Missed(c, t, rq) == 1 ==>
              UseOf(c, t, rq, PlaceOf(c, rq.addr).index) == [R.Load(R.LfsrVictim(R.LfsrStep(t.lfsr), c.nLines))]
    ensures Aligned(c, rq) && Missed(c, t, rq) == 0 ==>
              var u := UseOf(c, t, rq, PlaceOf(c, rq.addr).index); u != [] && u[0].Hit?
  {
    if Aligned(c, rq) {
      AlignedPlace(c, rq);
      ChooseReady(c, t, rq);
      var p := PlaceOf(c, rq.addr);
      assert SetOk(c, t.sets[p.index], p.index, t.mem);
    }
  }

  /** The register has made `k` steps from its seed. */
  ghost predicate RegisterAt(t: System, seed: bv16, k: nat) {
    AllPseudoRandom(t) && t.lfsr == R.LfsrRun(seed, k)
  }

  lemma RegisterMoves(c: Config, t: System, rq: Request, seed: bv16, k: nat, t': System, k': nat)
    requires SystemOk(c, t) && InRange(c, rq) && RegisterAt(t, seed, k)
    requires t' == Step(c, t, rq).0 && k' == k + Missed(c, t, rq)
    ensures RegisterAt(t', seed, k')
  {
    RegisterStep(c, t, rq);
  }

  lemma {:induction false} RegisterCountsMisses(c: Config, s: System, rqs: seq<Request>)
    requires SystemOk(c, s) && AllPseudoRandom(s) && forall rq | rq in rqs :: InRange(c, rq)
    ensures RegisterAt(RunRequests(c, s, rqs), s.lfsr, MissesIn(c, s, rqs))
  {
    if rqs != [] {
      var rq, prior := rqs[|rqs| - 1], rqs[..|rqs| - 1];
      assert rq in rqs && forall q | q in prior :: q in rqs;
      RegisterCountsMisses(c, s, prior);
      RegisterMoves(c, RunRequests(c, s, prior), rq, s.lfsr, MissesIn(c, s, prior), RunRequests(c, s, rqs),
                    MissesIn(c, s, rqs));
    }
  }

  /** A miss after these requests takes the line that the shared register names, which has made one step for
      every miss so far, in any set, and one for this one. */
  ghost predicate TakesFromRegister(c: Config, s: System, rqs: seq<Request>, rq: Request)
    requires SystemOk(c, s) && InRange(c, rq) && forall q | q in rqs :: InRange(c, q)
  {
    var u, misses := UseOf(c, RunRequests(c, s, rqs), rq, PlaceOf(c, rq.addr).index), MissesIn(c, s, rqs);
    u != [] && (u[0].Load? ==> u[0].line == R.LfsrVictim(R.LfsrRun(s.lfsr, misses + 1), c.nLines))
  }

  lemma PseudoRandomChooses(c: Config, s: System, rqs: seq<Request>, rq: Request)
    requires SystemOk(c, s) && AllPseudoRandom(s) && InRange(c, rq) && Aligned(c, rq)
    requires forall q | q in rqs :: InRange(c, q)
    ensures TakesFromRegister(c, s, rqs, rq)
  {
    var t := RunRequests(c, s, rqs);
    RegisterCountsMisses(c, s, rqs);
    RegisterStep(c, t, rq);
  }

  /** A cache configured for pseudo random takes all its victims from the shift register. */
  lemma BuiltPseudoRandom(c: Config, mem: seq<seq<byte>>, seed: bv16, rqs: seq<Request>, rq: Request)
    requires c.Ok() && MemOk(c, mem)
    requires InRange(c, rq) && Aligned(c, rq) && forall q | q in rqs :: InRange(c, q)
    ensures SystemOk(c, InitialSystem(c, R.KindPseudoRandom, mem, seed))
    ensures TakesFromRegister(c, InitialSystem(c, R.KindPseudoRandom, mem, seed), rqs, rq)
  {
    var s := InitialSystem(c, R.KindPseudoRandom, mem, seed);
    InitialOk(c, R.KindPseudoRandom, mem, seed);
    assert s.policies == seq(c.geo.NSets(), _ => R.PseudoRandom);
    PseudoRandomChooses(c, s, rqs, rq);
  }
}

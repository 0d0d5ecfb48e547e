/** The four replacement policies of a cache set, as values: what a hit, a miss and a reset do to
    each, and which line a miss evicts. */
module Replacement {
  import opened Bits

  datatype Policy =
    | Lru(order: seq<nat>)  // most recently used first
    | RoundRobin(cnt: nat)
    | Lfu(counters: seq<nat>, saturation: nat, tieBreaker: bool)
    | PseudoRandom

  /** `next` is the policy after a miss, `lfsr` the state of the generator all sets share. */
  datatype Victim = Victim(next: Policy, lfsr: bv16, line: nat)

  ghost predicate Distinct(s: seq<nat>) {
    forall i, j | 0 <= i < j < |s| :: s[i] != s[j]
  }

  /** `order` lists each of the lines `0..n` once. */
  ghost predicate IsOrder(order: seq<nat>, n: nat) {
    && |order| == n
    && (forall i | 0 <= i < n :: order[i] < n)
    && Distinct(order)
  }

  ghost predicate Valid(p: Policy, n: nat) {
    match p
    case Lru(order) => IsOrder(order, n)
    case RoundRobin(cnt) => cnt < n
    case Lfu(counters, saturation, _) =>
      |counters| == n && forall i | 0 <= i < n :: counters[i] <= saturation
    case PseudoRandom => true
  }

  function Initial(p: Policy, n: nat): Policy {
    match p
    case Lru(_) => Lru(seq(n, i => i))
    case RoundRobin(_) => RoundRobin(0)
    case Lfu(_, saturation, tie) => Lfu(seq(n, _ => 0), saturation, tie)
    case PseudoRandom => PseudoRandom
  }

  /** A policy by the name the configuration gives it, and what its constructor makes */
  datatype Kind = KindLru | KindRoundRobin | KindLfu | KindPseudoRandom

  const LFU_SATURATION: nat := 64

  function New(kind: Kind, n: nat): Policy {
    match kind
    case KindLru => Lru(seq(n, i => i))
    case KindRoundRobin => RoundRobin(0)
    case KindLfu => Lfu(seq(n, _ => 0), LFU_SATURATION, false)
    case KindPseudoRandom => PseudoRandom
  }

  // ---------------------------------------------------------------------------------------------
  // Least recently used

  /** `m_lru.remove(x)`: drops every occurrence */
  function Remove(s: seq<nat>, x: nat): (r: seq<nat>)
    ensures |r| <= |s|
    ensures forall y :: y in r <==> y in s && y != x
  {
    if s == [] then [] else (if s[0] == x then [] else [s[0]]) + Remove(s[1..], x)
  }

  function MoveToFront(s: seq<nat>, x: nat): seq<nat> {
    [x] + Remove(s, x)
  }

  lemma {:induction false} RemoveAbsent(s: seq<nat>, x: nat)
    requires x !in s
    ensures Remove(s, x) == s
  {
    if s != [] {
      RemoveAbsent(s[1..], x);
    }
  }

  /** In a list without repetition, removal takes out the one position. */
  lemma {:induction false} RemoveAt(s: seq<nat>, i: nat)
    requires i < |s|
    requires Distinct(s)
    ensures Remove(s, s[i]) == s[..i] + s[i + 1..]
  {
    if i == 0 {
      RemoveAbsent(s[1..], s[0]);
    } else {
      var rest := s[1..];
      assert rest[i - 1] == s[i] && s[0] != s[i];
      RemoveAt(rest, i - 1);
      assert Remove(s, s[i]) == [s[0]] + (rest[..i - 1] + rest[i..]);
      assert [s[0]] + rest[..i - 1] == s[..i] && rest[i..] == s[i + 1..];
    }
  }

  function Last<T>(s: seq<T>): T
    requires s != []
  {
    s[|s| - 1]
  }

  /** Moving position `i` to the front shifts the positions before it by one. */
  lemma MoveAt(s: seq<nat>, i: nat)
    requires i < |s| && Distinct(s)
    ensures var r := MoveToFront(s, s[i]);
            && |r| == |s|
            && r[0] == s[i]
            && (forall j | 1 <= j <= i :: r[j] == s[j - 1])
            && (forall j | i < j < |s| :: r[j] == s[j])
  {
    RemoveAt(s, i);
  }

  lemma {:induction false} RemoveDistinct(s: seq<nat>, x: nat)
    requires Distinct(s)
    ensures Distinct(Remove(s, x))
  {
    if x in s {
      var i :| 0 <= i < |s| && s[i] == x;
      RemoveAt(s, i);
    } else {
      RemoveAbsent(s, x);
    }
  }

  lemma FrontDistinct(s: seq<nat>, x: nat)
    requires Distinct(s)
    ensures Distinct(MoveToFront(s, x))
  {
    RemoveDistinct(s, x);
    var r := Remove(s, x);
    assert forall i | 0 <= i < |r| :: r[i] in r;
  }

  lemma MoveToFrontKeepsOrder(order: seq<nat>, n: nat, line: nat)
    requires IsOrder(order, n) && line in order
    ensures IsOrder(MoveToFront(order, line), n)
  {
    var i :| 0 <= i < n && order[i] == line;
    MoveAt(order, i);
    FrontDistinct(order, line);
  }

  /** Every line number occurs in an order: n distinct numbers below n are all of them. */
  lemma {:induction false} OrderIsComplete(order: seq<nat>, n: nat, line: nat)
    requires IsOrder(order, n) && line < n
    ensures line in order
  {
    if line !in order {
      DistinctCount(order, Upto(n) - {line});
    }
  }

  function Upto(n: nat): (s: set<nat>)
    ensures forall i :: i in s <==> 0 <= i < n
    ensures |s| == n
  {
    if n == 0 then {} else Upto(n - 1) + {n - 1}
  }

  lemma {:induction false} DistinctCount(s: seq<nat>, space: set<nat>)
    requires forall i | 0 <= i < |s| :: s[i] in space
    requires Distinct(s)
    ensures |s| <= |space|
  {
    if s != [] {
      DistinctCount(s[1..], space - {s[0]});
    }
  }

  // ---------------------------------------------------------------------------------------------
  // Least frequently used

  ghost predicate IsMinimal(counters: seq<nat>, i: nat) {
    i < |counters| && forall j | 0 <= j < |counters| :: counters[i] <= counters[j]
  }

  /** Smallest counter, and the first and last line that holds it */
  function LeastCount(counters: seq<nat>): (m: nat)
    requires counters != []
    ensures m in counters
    ensures forall c | c in counters :: m <= c
  {
    if |counters| == 1 then counters[0]
    else
      var rest, last := counters[..|counters| - 1], Last(counters);
      var m := LeastCount(rest);
      assert counters == rest + [last];
      assert forall c | c in counters :: c in rest || c == last;
      if last < m then last else m
  }

  function FirstIndex(s: seq<nat>, x: nat): (i: nat)
    requires x in s
    ensures i < |s| && s[i] == x && forall j | 0 <= j < i :: s[j] != x
  {
    if s[0] == x then 0 else 1 + FirstIndex(s[1..], x)
  }

  function LastIndex(s: seq<nat>, x: nat): (i: nat)
    requires x in s
    ensures i < |s| && s[i] == x && forall j | i < j < |s| :: s[j] != x
  {
    if Last(s) == x then |s| - 1
    else
      assert s == s[..|s| - 1] + [Last(s)];
      LastIndex(s[..|s| - 1], x)
  }

  /** Of several least used lines the tie breaker alternates between the last and the first. */
  function LfuVictim(counters: seq<nat>, tieBreaker: bool): (v: nat)
    requires counters != []
    ensures IsMinimal(counters, v)
  {
    var m := LeastCount(counters);
    var first, last := FirstIndex(counters, m), LastIndex(counters, m);
    assert forall j | 0 <= j < |counters| :: counters[j] in counters;
    if first == last || tieBreaker then first else last
  }

  ghost predicate HasTie(counters: seq<nat>)
    requires counters != []
  {
    exists i, j | 0 <= i < j < |counters| :: IsMinimal(counters, i) && IsMinimal(counters, j)
  }

  lemma TieIsTwoIndices(counters: seq<nat>)
    requires counters != []
    ensures var m := LeastCount(counters);
            HasTie(counters) <==> FirstIndex(counters, m) != LastIndex(counters, m)
  {
    var m := LeastCount(counters);
    var first, last := FirstIndex(counters, m), LastIndex(counters, m);
    assert forall j | 0 <= j < |counters| :: counters[j] in counters;
    assert IsMinimal(counters, first) && IsMinimal(counters, last);
    if HasTie(counters) {
      var i, j :| 0 <= i < j < |counters| && IsMinimal(counters, i) && IsMinimal(counters, j);
      assert counters[i] == m == counters[j];
    }
  }

  /** With the tie breaker set no less used line comes before the victim, and otherwise none after it. */
  lemma TieBreakerPicks(counters: seq<nat>, tieBreaker: bool, i: nat)
    requires counters != [] && IsMinimal(counters, i)
    ensures if tieBreaker then LfuVictim(counters, tieBreaker) <= i else i <= LfuVictim(counters, tieBreaker)
  {
    var m := LeastCount(counters);
    assert counters[i] in counters && counters[FirstIndex(counters, m)] == m;
    assert counters[i] == m;
  }

  // ---------------------------------------------------------------------------------------------
  // Pseudo random: a 16-bit shift register with taps 16, 14, 13 and 11

  const LFSR_SEED: bv16 := 0xBEEF

  /** `(lfsr >> 1) | (bit << 15)`, where only the lowest bit of `bit` survives the truncation */
  function LfsrStep(s: bv16): bv16 {
    var bit := (s >> 0) ^ (s >> 2) ^ (s >> 3) ^ (s >> 5);
    (s >> 1) | (bit << 15)
  }

  /** The register before the step: the bit shifted out is recovered from the taps. */
  function LfsrBack(t: bv16): bv16 {
    var out := (t >> 15) ^ (t >> 1) ^ (t >> 2) ^ (t >> 4);
    (t << 1) | (out & 1)
  }

  lemma LfsrBijective(s: bv16)
    ensures LfsrBack(LfsrStep(s)) == s
    ensures LfsrStep(LfsrBack(s)) == s
    ensures LfsrStep(s) == 0 <==> s == 0
  {
  }

  /** The register moves right by one; into its highest bit goes the parity of bits 0, 2, 3 and 5. */
  lemma LfsrShifts(s: bv16)
    ensures LfsrStep(s) & 0x7FFF == s >> 1
    ensures LfsrStep(s) & 0x8000 == 0 <==>
            (s & 0x2D in {0, 0x05, 0x09, 0x0C, 0x21, 0x24, 0x28, 0x2D})
    ensures LfsrStep(LFSR_SEED) == 0x5F77 && LfsrStep(0x5F77) == 0xAFBB
  {
  }

  function LfsrRun(s: bv16, n: nat): bv16 {
    if n == 0 then s else LfsrStep(LfsrRun(s, n - 1))
  }

  /** From the seed the register never gets stuck at zero. */
  lemma {:induction false} LfsrNeverZero(n: nat)
    ensures LfsrRun(LFSR_SEED, n) != 0
  {
    if n > 0 {
      LfsrNeverZero(n - 1);
      LfsrBijective(LfsrRun(LFSR_SEED, n - 1));
    }
  }

  /** `lfsr & m_outputMask`, with the mask one less than the number of lines */
  function LfsrVictim(s: bv16, n: nat): (v: nat)
    requires n >= 1
    ensures v < n
  {
    And(s as nat, n - 1)
  }

  /** For a power of two of lines the victim is the register modulo the lines. */
  lemma LfsrVictimIsRemainder(s: bv16, k: nat)
    ensures LfsrVictim(s, Pow2(k)) == s as nat % Pow2(k)
  {
    AndMask(s as nat, k);
    ShrLowAreDivMod(s as nat, k);
  }

  // ---------------------------------------------------------------------------------------------
  // All four policies

  function OnHit(p: Policy, line: nat): (q: Policy)
    requires p.Lfu? ==> line < |p.counters|
  {
    match p
    case Lru(order) => Lru(MoveToFront(order, line))
    case Lfu(counters, saturation, _) =>
      if counters[line] < saturation then p.(counters := counters[line := counters[line] + 1]) else p
    case _ => p
  }

  function OnMiss(p: Policy, n: nat, lfsr: bv16): (v: Victim)
    requires n >= 1
    requires p.Lru? ==> |p.order| == n
    requires p.Lfu? ==> |p.counters| == n
  {
    match p
    case Lru(order) => Victim(Lru([Last(order)] + order[..n - 1]), lfsr, Last(order))
    case RoundRobin(cnt) => Victim(RoundRobin((cnt + 1) % n), lfsr, (cnt + 1) % n)
    case Lfu(counters, saturation, tie) =>
      var v := LfuVictim(counters, tie);
      var m := LeastCount(counters);
      var tied := FirstIndex(counters, m) != LastIndex(counters, m);
      Victim(Lfu(counters[v := 0], saturation, if tied then !tie else tie), lfsr, v)
    case PseudoRandom => Victim(p, LfsrStep(lfsr), LfsrVictim(LfsrStep(lfsr), n))
  }

  lemma InitialValid(p: Policy, n: nat)
    requires n >= 1
    ensures Valid(Initial(p, n), n)
  {
  }

  /** Every policy stays well formed, and every miss names a line of the set. */
  lemma PolicyStep(p: Policy, n: nat, lfsr: bv16, line: nat)
    requires Valid(p, n) && line < n
    ensures p.Lfu? ==> |p.counters| == n
    ensures p.Lru? ==> |p.order| == n
    ensures Valid(OnHit(p, line), n)
    ensures Valid(OnMiss(p, n, lfsr).next, n)
    ensures OnMiss(p, n, lfsr).line < n
  {
    match p
    case Lru(order) =>
      OrderIsComplete(order, n, line);
      MoveToFrontKeepsOrder(order, n, line);
    case _ =>
  }

  /** What one set sees: a hit on a known line, or a miss that loads the victim. */
  datatype Use = Hit(line: nat) | Load(line: nat)
  datatype Event = HitOn(line: nat) | MissOn
  datatype Run = Run(policy: Policy, lfsr: bv16, uses: seq<Use>)

  ghost predicate EventsOk(events: seq<Event>, n: nat) {
    forall e | e in events && e.HitOn? :: e.line < n
  }

  ghost function StepRun(r: Run, n: nat, e: Event): (r': Run)
    requires Valid(r.policy, n) && n >= 1
    requires e.HitOn? ==> e.line < n
    ensures Valid(r'.policy, n)
    ensures |r'.uses| == |r.uses| + 1
    ensures r'.uses[..|r.uses|] == r.uses
  {
    PolicyStep(r.policy, n, r.lfsr, if e.HitOn? then e.line else 0);
    match e
    case HitOn(line) => Run(OnHit(r.policy, line), r.lfsr, r.uses + [Hit(line)])
    case MissOn =>
      var v := OnMiss(r.policy, n, r.lfsr);
      Run(v.next, v.lfsr, r.uses + [Load(v.line)])
  }

  ghost function RunPolicy(p: Policy, n: nat, lfsr: bv16, events: seq<Event>): (r: Run)
    requires Valid(p, n) && n >= 1 && EventsOk(events, n)
    ensures Valid(r.policy, n)
    ensures |r.uses| == |events|
  {
    if events == [] then Run(p, lfsr, [])
    else
      var prior, e := events[..|events| - 1], events[|events| - 1];
      assert e in events && forall e | e in prior :: e in events;
      StepRun(RunPolicy(p, n, lfsr, prior), n, e)
  }

  function Loads(uses: seq<Use>): (lines: seq<nat>)
    ensures |lines| <= |uses|
  {
    if uses == [] then []
    else
      var u := uses[|uses| - 1];
      Loads(uses[..|uses| - 1]) + (if u.Load? then [u.line] else [])
  }

  /** The k-th line after line `cnt`, modulo the lines */
  function After(cnt: nat, k: nat, n: nat): (line: nat)
    requires n >= 1
    ensures line < n
  {
    (cnt + k) % n
  }

  /** Round robin: the i-th line loaded is the i-th after the counter, whatever hits lie between. */
  ghost predicate RoundRobinState(r: Run, cnt: nat, n: nat)
    requires n >= 1
  {
    var l := Loads(r.uses);
    && r.policy == RoundRobin(After(cnt, |l|, n))
    && forall i | 0 <= i < |l| :: l[i] == After(cnt, i + 1, n)
  }

  lemma AfterStep(cnt: nat, k: nat, n: nat)
    requires n >= 1
    ensures (After(cnt, k, n) + 1) % n == After(cnt, k + 1, n)
  {
    var x := cnt + k;
    var q, r := x / n, x % n;
    assert x == q * n + r;
    if r + 1 < n {
      DivModUnique(x + 1, n, q, r + 1);
      DivModUnique(r + 1, n, 0, r + 1);
    } else {
      assert x + 1 == (q + 1) * n + 0;
      DivModUnique(x + 1, n, q + 1, 0);
      DivModUnique(n, n, 1, 0);
    }
  }

  lemma RoundRobinStep(r: Run, cnt: nat, n: nat, e: Event)
    requires cnt < n && RoundRobinState(r, cnt, n) && (e.HitOn? ==> e.line < n)
    requires Valid(r.policy, n)
    ensures RoundRobinState(StepRun(r, n, e), cnt, n)
  {
    var l := Loads(r.uses);
    AfterStep(cnt, |l|, n);
    var r' := StepRun(r, n, e);
    assert r'.uses[..|r.uses|] == r.uses;
    assert Loads(r'.uses) == l + (if e.MissOn? then [After(cnt, |l| + 1, n)] else []);
  }

  lemma {:induction false} RoundRobinLoads(cnt: nat, n: nat, lfsr: bv16, events: seq<Event>)
    requires cnt < n && EventsOk(events, n)
    ensures RoundRobinState(RunPolicy(RoundRobin(cnt), n, lfsr, events), cnt, n)
  {
    if events == [] {
      DivModUnique(cnt, n, 0, cnt);
    } else {
      var prior, e := events[..|events| - 1], events[|events| - 1];
      assert e in events && forall e | e in prior :: e in events;
      RoundRobinLoads(cnt, n, lfsr, prior);
      RoundRobinStep(RunPolicy(RoundRobin(cnt), n, lfsr, prior), cnt, n, e);
    }
  }

  lemma Wraps(x: nat, n: nat)
    requires x < 2 * n
    ensures x % n == if x < n then x else x - n
  {
    DivModUnique(x, n, if x < n then 0 else 1, if x < n then x else x - n);
  }

  /** Any n consecutive misses of a round-robin set of n lines evict each line exactly once. */
  lemma RoundRobinIsFair(cnt: nat, n: nat, lfsr: bv16, events: seq<Event>)
    requires cnt < n && EventsOk(events, n)
    requires |Loads(RunPolicy(RoundRobin(cnt), n, lfsr, events).uses)| == n
    ensures IsOrder(Loads(RunPolicy(RoundRobin(cnt), n, lfsr, events).uses), n)
  {
    RoundRobinLoads(cnt, n, lfsr, events);
    var l := Loads(RunPolicy(RoundRobin(cnt), n, lfsr, events).uses);
    forall i | 0 <= i < n
      ensures l[i] == if cnt + 1 + i < n then cnt + 1 + i else cnt + 1 + i - n
    {
      Wraps(cnt + (i + 1), n);
    }
  }

  /** Hits on `line` since it was last loaded */
  function HitsSinceLoad(uses: seq<Use>, line: nat): nat {
    if uses == [] then 0
    else
      var u := uses[|uses| - 1];
      if u == Load(line) then 0
      else HitsSinceLoad(uses[..|uses| - 1], line) + (if u == Hit(line) then 1 else 0)
  }

  function AtMost(x: nat, bound: nat): nat {
    if x < bound then x else bound
  }

  ghost predicate LfuState(r: Run, n: nat, saturation: nat) {
    && r.policy.Lfu? && r.policy.saturation == saturation && |r.policy.counters| == n
    && forall line | 0 <= line < n ::
         r.policy.counters[line] == AtMost(HitsSinceLoad(r.uses, line), saturation)
  }

  lemma LfuStep(r: Run, n: nat, saturation: nat, e: Event)
    requires n >= 1 && LfuState(r, n, saturation) && (e.HitOn? ==> e.line < n)
    requires Valid(r.policy, n)
    ensures LfuState(StepRun(r, n, e), n, saturation)
  {
    var r' := StepRun(r, n, e);
    forall line | 0 <= line < n
      ensures r'.policy.counters[line] == AtMost(HitsSinceLoad(r'.uses, line), saturation)
    {
      assert r'.uses[|r'.uses| - 1].line < n;
    }
  }

  /** LFU counters are hit counts since the line was loaded, capped at the saturation; with
      `LfuVictim` this means that a miss evicts a line with the fewest capped hits. */
  lemma {:induction false} LfuCountsHits(n: nat, saturation: nat, tie: bool, lfsr: bv16, events: seq<Event>)
    requires n >= 1 && EventsOk(events, n)
    ensures LfuState(RunPolicy(Initial(Lfu([], saturation, tie), n), n, lfsr, events), n, saturation)
  {
    if events != [] {
      var p := Initial(Lfu([], saturation, tie), n);
      var prior, e := events[..|events| - 1], events[|events| - 1];
      assert e in events && forall e | e in prior :: e in events;
      LfuCountsHits(n, saturation, tie, lfsr, prior);
      LfuStep(RunPolicy(p, n, lfsr, prior), n, saturation, e);
    }
  }

  // ---------------------------------------------------------------------------------------------
  // Policies as constructed, and as a power loss leaves them

  /** `n` misses in a row */
  function Misses(n: nat): (events: seq<Event>)
    ensures |events| == n && forall e | e in events :: e == MissOn
  {
    if n == 0 then [] else Misses(n - 1) + [MissOn]
  }

  /** After `k` misses the lines from n - k on have been loaded, from the last down, and lead the list. */
  ghost predicate LruLoading(r: Run, n: nat, k: nat) {
    && r.policy.Lru? && |r.policy.order| == n && |r.uses| == k <= n
    && (forall i | 0 <= i < n :: r.policy.order[i] == if i < k then n - k + i else i - k)
    && (forall i | 0 <= i < k :: r.uses[i] == Load(n - 1 - i))
  }

  lemma LruLoadingStep(r: Run, n: nat, k: nat)
    requires LruLoading(r, n, k) && k < n && Valid(r.policy, n)
    ensures LruLoading(StepRun(r, n, MissOn), n, k + 1)
  {
    assert Last(r.policy.order) == n - 1 - k;
  }

  /** A constructed LRU set loads its lines from the last to the first. */
  lemma {:induction false} LruFirstLoads(n: nat, lfsr: bv16, k: nat)
    requires 1 <= n && k <= n
    ensures Valid(New(KindLru, n), n)
    ensures LruLoading(RunPolicy(New(KindLru, n), n, lfsr, Misses(k)), n, k)
  {
    if k > 0 {
      LruFirstLoads(n, lfsr, k - 1);
      assert Misses(k)[..k - 1] == Misses(k - 1) && Misses(k)[k - 1] == MissOn;
      LruLoadingStep(RunPolicy(New(KindLru, n), n, lfsr, Misses(k - 1)), n, k - 1);
    }
  }

  /** A constructed round-robin set loads line 1 first, then 2, and so on; its i-th load is line i + 1 modulo
      the lines, whatever hits lie between. */
  lemma RoundRobinFirstLoads(n: nat, lfsr: bv16, events: seq<Event>, i: nat)
    requires n >= 1 && EventsOk(events, n)
    ensures Valid(New(KindRoundRobin, n), n)
    ensures var l := Loads(RunPolicy(New(KindRoundRobin, n), n, lfsr, events).uses);
            i < |l| ==> l[i] == (i + 1) % n
  {
    RoundRobinLoads(0, n, lfsr, events);
    assert After(0, i + 1, n) == (i + 1) % n;
  }

  /** A constructed LFU set counts hits up to 64. Its first two misses are ties, which go to the last line and
      then to the first. */
  lemma LfuFirstLoads(n: nat, lfsr: bv16, events: seq<Event>, line: nat)
    requires n >= 1 && EventsOk(events, n) && line < n
    ensures Valid(New(KindLfu, n), n)
    ensures var r := RunPolicy(New(KindLfu, n), n, lfsr, events);
            r.policy.Lfu? && |r.policy.counters| == n && r.policy.counters[line] == AtMost(HitsSinceLoad(r.uses, line), 64)
    ensures var v := OnMiss(New(KindLfu, n), n, lfsr);
            && v.line == n - 1 && v.next.Lfu? && |v.next.counters| == n
            && OnMiss(v.next, n, lfsr).line == 0
  {
    LfuCountsHits(n, 64, false, lfsr, events);
    assert New(KindLfu, n) == Initial(Lfu([], 64, false), n);
    var zeros: seq<nat> := seq(n, _ => 0);
    assert IsMinimal(zeros, 0) && IsMinimal(zeros, n - 1);
    TieBreakerPicks(zeros, false, n - 1);
    TieBreakerPicks(zeros, true, 0);
    TieIsTwoIndices(zeros);
    var v := OnMiss(New(KindLfu, n), n, lfsr);
    assert v.next.counters == zeros;
    if n > 1 {
      assert HasTie(zeros);
    }
  }

  /** Every tie moves the tie breaker, and nothing else does. */
  lemma TiesAlternate(counters: seq<nat>, saturation: nat, tie: bool, lfsr: bv16)
    requires counters != []
    ensures var q := OnMiss(Lfu(counters, saturation, tie), |counters|, lfsr).next;
            q.Lfu? && (q.tieBreaker != tie <==> HasTie(counters)) && q.saturation == saturation
  {
    TieIsTwoIndices(counters);
  }

  /** The k-th miss of a pseudo-random set takes the register as it is after k + 1 steps. */
  lemma {:induction false} PseudoRandomLoads(n: nat, lfsr: bv16, k: nat)
    requires n >= 1
    ensures Valid(New(KindPseudoRandom, n), n)
    ensures var r := RunPolicy(New(KindPseudoRandom, n), n, lfsr, Misses(k));
            && r.policy.PseudoRandom? && r.lfsr == LfsrRun(lfsr, k)
            && (forall i | 0 <= i < k :: r.uses[i] == Load(LfsrVictim(LfsrRun(lfsr, i + 1), n)))
  {
    if k > 0 {
      PseudoRandomLoads(n, lfsr, k - 1);
      assert Misses(k)[..k - 1] == Misses(k - 1) && Misses(k)[k - 1] == MissOn;
      var r := RunPolicy(New(KindPseudoRandom, n), n, lfsr, Misses(k - 1));
      var r' := RunPolicy(New(KindPseudoRandom, n), n, lfsr, Misses(k));
      assert r' == StepRun(r, n, MissOn);
      forall i | 0 <= i < k - 1
        ensures r'.uses[i] == Load(LfsrVictim(LfsrRun(lfsr, i + 1), n))
      {
        assert r'.uses[i] == r'.uses[..k - 1][i] == r.uses[i];
      }
    }
  }

  /** A power loss makes a policy new again; LFU alone remembers something, its tie breaker. */
  lemma ResetMakesNew(p: Policy, n: nat)
    ensures p.Lru? ==> Initial(p, n) == New(KindLru, n)
    ensures p.RoundRobin? ==> Initial(p, n) == New(KindRoundRobin, n)
    ensures p.Lfu? && p.saturation == 64 ==>
              New(KindLfu, n).Lfu? && Initial(p, n) == New(KindLfu, n).(tieBreaker := p.tieBreaker)
    ensures p.PseudoRandom? ==> Initial(p, n) == New(KindPseudoRandom, n)
  {
    if p.Lru? {
      assert Initial(p, n).order == New(KindLru, n).order;
    } else if p.Lfu? {
      assert Initial(p, n).counters == New(KindLfu, n).counters;
    }
  }
}

/** The nested vectored interrupt controller: enable and pending registers, and the choice of the
    interrupt to request. */
module Nvic {
  import opened Bits
  import opened SingleBits

  const LINES: nat := 32
  const EXCEPT_ID_BASE: nat := 16

  type lines = s: seq<bool> | |s| == LINES witness seq(LINES, _ => false)
  type priorities = s: seq<nat> | |s| == LINES && forall i | 0 <= i < |s| :: s[i] < 4 witness seq(LINES, _ => 0)

  /** `prio[i]` are the two high bits of the priority byte of line `i`; `output` is what `pending` carries. */
  datatype State = State(iser: word, icer: word, ispr: word, icpr: word, prio: priorities,
                         prevIrq: lines, prevActive: int, swSet: word, swClear: word, output: int)

  /** What the controller samples: the lines, and the exception the CPU is returning from and handling */
  datatype Inputs = Inputs(irq: lines, returning: int, active: int)

  // ---------------------------------------------------------------------------------------------
  // The register pairs

  function WriteOneToSet(setBits: word, old_: word): word {
    WordOr(old_, setBits, 0);
    Or(old_, setBits)
  }

  function WriteOneToClear(clearBits: word, old_: word): word {
    And(old_, Not32(clearBits))
  }

  /** The word operators, bit by bit: a one sets or clears its bit, a zero leaves it alone. */
  lemma WriteOneBits(written: word, old_: word, i: nat)
    requires i < LINES
    ensures Bit(WriteOneToSet(written, old_), i) == if Bit(written, i) then true else Bit(old_, i)
    ensures Bit(WriteOneToClear(written, old_), i) == if Bit(written, i) then false else Bit(old_, i)
  {
    WordOr(old_, written, i);
    WordAndNot(old_, written, i);
  }

  // ---------------------------------------------------------------------------------------------
  // Evaluation

  /** A rising edge, the line still high when its handler returns, or software */
  predicate Sets(s: State, x: Inputs, i: nat)
    requires i < LINES
  {
    (x.irq[i] && !s.prevIrq[i]) || (x.irq[i] && x.returning == i + EXCEPT_ID_BASE) || Bit(s.swSet, i)
  }

  /** Software while the line is low, or the handler has just started */
  predicate Clears(s: State, x: Inputs, i: nat)
    requires i < LINES
  {
    (!x.irq[i] && Bit(s.swClear, i)) || (x.active == i + EXCEPT_ID_BASE && x.active != s.prevActive)
  }

  function PendingBit(s: State, x: Inputs, i: nat): bool
    requires i < LINES
  {
    if Sets(s, x, i) then true else if Clears(s, x, i) then false else Bit(s.ispr, i)
  }

  /** `|= mask` or `&= ~mask`; setting wins */
  function WithLine(p: word, i: nat, set_: bool, clear: bool): (q: word)
    requires i < LINES
  {
    LineMask(i);
    WordOr(p, Pow2(i), i);
    if set_ then Or(p, Pow2(i)) else if clear then And(p, Not32(Pow2(i))) else p
  }

  lemma LineMask(i: nat)
    requires i < LINES
    ensures Pow2(i) < TWO32
  {
    var w := 32;
    Pow2Less(i, w);
    Pow2Constants();
  }

  lemma WithLineBits(p: word, i: nat, set_: bool, clear: bool, k: nat)
    requires i < LINES && k < LINES
    ensures Bit(WithLine(p, i, set_, clear), k) ==
            if k != i then Bit(p, k) else if set_ then true else if clear then false else Bit(p, i)
  {
    LineMask(i);
    PowerBit(i, k);
    WordOr(p, Pow2(i), k);
    WordAndNot(p, Pow2(i), k);
  }

  /** The pending word once the loop is past the first `n` lines */
  function Pending(s: State, x: Inputs, n: nat): word
    requires n <= LINES
    decreases n, s
  {
    if n == 0 then s.ispr
    else WithLine(Pending(s, x, n - 1), n - 1, Sets(s, x, n - 1), Clears(s, x, n - 1))
  }

  lemma {:induction false} PendingBits(s: State, x: Inputs, n: nat, i: nat)
    requires n <= LINES && i < LINES
    ensures Bit(Pending(s, x, n), i) == if i < n then PendingBit(s, x, i) else Bit(s.ispr, i)
    decreases n
  {
    if n > 0 {
      PendingBits(s, x, n - 1, i);
      WithLineBits(Pending(s, x, n - 1), n - 1, Sets(s, x, n - 1), Clears(s, x, n - 1), i);
    }
  }

  /** What the loop has found after the first `n` lines: the first line with the least priority value
      among those that are pending and enabled, -1 if there is none */
  function Best(pending: word, enabled: word, prio: priorities, n: nat): (b: int)
    requires n <= LINES
    ensures -1 <= b < n
  {
    if n == 0 then -1
    else
      var b := Best(pending, enabled, prio, n - 1);
      if Bit(pending, n - 1) && Bit(enabled, n - 1) && prio[n - 1] < (if b == -1 then 4 else prio[b]) then n - 1
      else b
  }

  function Request(b: int): int {
    if b >= 0 then EXCEPT_ID_BASE + b else b
  }

  function Evaluate(s: State, x: Inputs): State {
    var p := Pending(s, x, LINES);
    s.(ispr := p, icpr := p, prevIrq := x.irq, prevActive := x.active, swSet := 0, swClear := 0,
       output := Request(Best(p, s.iser, s.prio, LINES)))
  }

  predicate Candidate(s: State, i: int) {
    0 <= i < LINES && Bit(s.ispr, i) && Bit(s.iser, i)
  }

  lemma {:induction false} BestIsLeast(pending: word, enabled: word, prio: priorities, n: nat)
    requires n <= LINES
    ensures var b := Best(pending, enabled, prio, n);
            && (b >= 0 ==> Bit(pending, b) && Bit(enabled, b))
            && (forall i | 0 <= i < n && Bit(pending, i) && Bit(enabled, i) ::
                  b >= 0 && (prio[b] < prio[i] || (prio[b] == prio[i] && b <= i)))
  {
    if n > 0 {
      BestIsLeast(pending, enabled, prio, n - 1);
    }
  }

  /** The output names the enabled pending interrupt of least priority value and, among those, least
      number; it is -1 exactly if there is none. */
  lemma OutputExact(s: State, x: Inputs)
    ensures var t := Evaluate(s, x);
            && (t.output == -1 <==> forall i | 0 <= i < LINES :: !Candidate(t, i))
            && (t.output != -1 ==>
                  var b := t.output - 16;
                  Candidate(t, b) && forall i | 0 <= i < LINES && Candidate(t, i) ::
                    t.prio[b] < t.prio[i] || (t.prio[b] == t.prio[i] && b <= i))
  {
    var t := Evaluate(s, x);
    var b := Best(t.ispr, s.iser, s.prio, LINES);
    BestIsLeast(t.ispr, s.iser, s.prio, LINES);
    assert t.output == Request(b);
    assert b >= 0 ==> Candidate(t, b);
    forall i | 0 <= i < LINES && Candidate(t, i)
      ensures b >= 0 && (t.prio[b] < t.prio[i] || (t.prio[b] == t.prio[i] && b <= i))
    {
    }
  }

  // ---------------------------------------------------------------------------------------------
  // Runs

  datatype Event =
    | WriteIser(v: word) | WriteIcer(v: word) | WriteIspr(v: word) | WriteIcpr(v: word)
    | WritePriorities(prio: priorities)
    | Sample(x: Inputs)
    | Reset

  function Initial(): State {
    State(0, 0, 0, 0, seq(LINES, _ => 0), seq(LINES, _ => false), -1, 0, 0, -1)
  }

  /** A word write stores the word and then combines it with the other register of the pair. */
  function Apply(s: State, e: Event): State {
    match e
    case WriteIser(v) => var r := WriteOneToSet(v, s.icer); s.(iser := r, icer := r)
    case WriteIcer(v) => var r := WriteOneToClear(v, s.iser); s.(iser := r, icer := r)
    case WriteIspr(v) => s.(swSet := v)
    case WriteIcpr(v) => s.(swClear := v)
    case WritePriorities(prio) => s.(prio := prio)
    case Sample(x) => Evaluate(s, x)
    case Reset => Initial().(output := s.output)
  }

  function Run(s: State, es: seq<Event>): State {
    if es == [] then s else Apply(Run(s, es[..|es| - 1]), es[|es| - 1])
  }

  // ---------------------------------------------------------------------------------------------
  // What a history of events says, without any state

  /** Whether line `i` is enabled: the last write of a one to its enable or disable bit */
  function EnabledBy(es: seq<Event>, i: nat): bool {
    if es == [] then false
    else
      var rest := es[..|es| - 1];
      match es[|es| - 1]
      case WriteIser(v) => Bit(v, i) || EnabledBy(rest, i)
      case WriteIcer(v) => !Bit(v, i) && EnabledBy(rest, i)
      case Reset => false
      case _ => EnabledBy(rest, i)
  }

  /** The level of line `i`, and the exception being handled, when last sampled */
  function LastLevel(es: seq<Event>, i: nat): bool
    requires i < LINES
  {
    if es == [] then false
    else
      match es[|es| - 1]
      case Sample(x) => x.irq[i]
      case Reset => false
      case _ => LastLevel(es[..|es| - 1], i)
  }

  function LastActive(es: seq<Event>): int {
    if es == [] then -1
    else
      match es[|es| - 1]
      case Sample(x) => x.active
      case Reset => -1
      case _ => LastActive(es[..|es| - 1])
  }

  /** Whether software has asked to set, or to clear, line `i` since the last sample: by the last write to
      the register */
  function AskedToSet(es: seq<Event>, i: nat): bool {
    if es == [] then false
    else
      match es[|es| - 1]
      case WriteIspr(v) => Bit(v, i)
      case Sample(_) => false
      case Reset => false
      case _ => AskedToSet(es[..|es| - 1], i)
  }

  function AskedToClear(es: seq<Event>, i: nat): bool {
    if es == [] then false
    else
      match es[|es| - 1]
      case WriteIcpr(v) => Bit(v, i)
      case Sample(_) => false
      case Reset => false
      case _ => AskedToClear(es[..|es| - 1], i)
  }

  /** Whether a sample after the history `es` requests line `i`, or ends its request */
  predicate Requests(es: seq<Event>, x: Inputs, i: nat)
    requires i < LINES
  {
    (x.irq[i] && (!LastLevel(es, i) || x.returning == i + 16)) || AskedToSet(es, i)
  }

  predicate Ends(es: seq<Event>, x: Inputs, i: nat)
    requires i < LINES
  {
    (!x.irq[i] && AskedToClear(es, i)) || (x.active == i + 16 && x.active != LastActive(es))
  }

  /** Whether line `i` is pending: what the last sample that requested it or ended its request says */
  function PendingBy(es: seq<Event>, i: nat): bool
    requires i < LINES
  {
    if es == [] then false
    else
      var rest := es[..|es| - 1];
      match es[|es| - 1]
      case Sample(x) => Requests(rest, x, i) || (!Ends(rest, x, i) && PendingBy(rest, i))
      case Reset => false
      case _ => PendingBy(rest, i)
  }

  /** The state holds what the history says of line `i`. */
  ghost predicate Follows(s: State, es: seq<Event>, i: nat)
    requires i < LINES
  {
    && s.iser == s.icer && s.ispr == s.icpr
    && Bit(s.iser, i) == EnabledBy(es, i) && Bit(s.ispr, i) == PendingBy(es, i)
    && s.prevIrq[i] == LastLevel(es, i) && s.prevActive == LastActive(es)
    && Bit(s.swSet, i) == AskedToSet(es, i) && Bit(s.swClear, i) == AskedToClear(es, i)
  }

  lemma SampleFollows(s: State, rest: seq<Event>, x: Inputs, i: nat)
    requires i < LINES && Follows(s, rest, i)
    ensures Follows(Evaluate(s, x), rest + [Sample(x)], i)
  {
    assert (rest + [Sample(x)])[..|rest|] == rest;
    PendingBits(s, x, LINES, i);
    ZeroBit(i);
  }

  lemma WriteFollows(s: State, rest: seq<Event>, e: Event, i: nat)
    requires i < LINES && Follows(s, rest, i) && !e.Sample?
    ensures Follows(Apply(s, e), rest + [e], i)
  {
    assert (rest + [e])[..|rest|] == rest;
    ZeroBit(i);
    if e.WriteIser? || e.WriteIcer? {
      WriteOneBits(e.v, s.iser, i);
    }
  }

  /** Over every run both enable registers hold what the history of writes enables, and both pending
      registers what the history of samples and writes leaves pending. */
  lemma {:induction false} RegistersFollowHistory(es: seq<Event>, i: nat)
    requires i < LINES
    ensures Follows(Run(Initial(), es), es, i)
  {
    if es == [] {
      ZeroBit(i);
    } else {
      var rest, e := es[..|es| - 1], es[|es| - 1];
      RegistersFollowHistory(rest, i);
      assert es == rest + [e];
      if e.Sample? {
        SampleFollows(Run(Initial(), rest), rest, e.x, i);
      } else {
        WriteFollows(Run(Initial(), rest), rest, e, i);
      }
    }
  }

  /** The priorities written last, all zero before the first write and after a reset */
  function PrioritiesBy(es: seq<Event>): priorities {
    if es == [] then seq(32, _ => 0)
    else
      match es[|es| - 1]
      case WritePriorities(prio) => prio
      case Reset => seq(32, _ => 0)
      case _ => PrioritiesBy(es[..|es| - 1])
  }

  lemma {:induction false} PrioritiesFollowHistory(es: seq<Event>)
    ensures Run(Initial(), es).prio == PrioritiesBy(es)
  {
    if es != [] {
      PrioritiesFollowHistory(es[..|es| - 1]);
    }
  }

  /** The history leaves line `i` pending and enabled. */
  predicate CandidateBy(es: seq<Event>, i: int) {
    0 <= i < 32 && PendingBy(es, i) && EnabledBy(es, i)
  }

  /** What a sample requests, by the whole history: the exception, 16 above the line, of the pending enabled
      line with the least of the priorities written last and, among those, the least number; -1 exactly if
      there is none. */
  lemma OutputFollowsHistory(es: seq<Event>, x: Inputs)
    ensures var h, t := es + [Sample(x)], Run(Initial(), es + [Sample(x)]);
            && (t.output == -1 <==> forall i | 0 <= i < 32 :: !CandidateBy(h, i))
            && (t.output != -1 ==>
                  var b, prio := t.output - 16, PrioritiesBy(h);
                  CandidateBy(h, b) && forall i | 0 <= i < 32 && CandidateBy(h, i) ::
                    prio[b] < prio[i] || (prio[b] == prio[i] && b <= i))
  {
    var h, s := es + [Sample(x)], Run(Initial(), es);
    assert h[..|es|] == es;
    var t := Evaluate(s, x);
    assert Run(Initial(), h) == t;
    PrioritiesFollowHistory(h);
    OutputExact(s, x);
    forall i | 0 <= i < 32
      ensures Candidate(t, i) <==> CandidateBy(h, i)
    {
      RegistersFollowHistory(h, i);
    }
  }

  /** Between samples the output stands, over register writes and resets alike. */
  lemma OutputHeld(s: State, e: Event)
    requires !e.Sample?
    ensures Apply(s, e).output == s.output && Initial().output == -1
  {
  }

  /** No event from position `n` of the history on ends the request of line `i`. */
  ghost predicate NeverEnds(es: seq<Event>, n: nat, i: nat)
    requires i < LINES && n <= |es|
  {
    forall k | n <= k < |es| :: Keeps(es, k, i)
  }

  predicate Keeps(es: seq<Event>, k: nat, i: nat)
    requires i < LINES && k < |es|
  {
    !es[k].Reset? && (es[k].Sample? ==> Requests(es[..k], es[k].x, i) || !Ends(es[..k], es[k].x, i))
  }

  /** A rising edge that is sampled at position `n` makes its interrupt pending, and it stays pending as
      long as no sample finds its handler just started, or it software-cleared with the line low, without
      also finding a reason to request it. */
  lemma {:induction false} EdgeStaysPending(es: seq<Event>, n: nat, i: nat)
    requires i < LINES && n < |es| && es[n].Sample? && es[n].x.irq[i] && !LastLevel(es[..n], i)
    requires NeverEnds(es, n + 1, i)
    ensures Bit(Run(Initial(), es).ispr, i)
  {
    HistoryStaysPending(es, n, i);
    RegistersFollowHistory(es, i);
  }

  lemma {:induction false} HistoryStaysPending(es: seq<Event>, n: nat, i: nat)
    requires i < LINES && n < |es| && es[n].Sample? && es[n].x.irq[i] && !LastLevel(es[..n], i)
    requires NeverEnds(es, n + 1, i)
    ensures PendingBy(es, i)
    decreases |es|
  {
    var last := |es| - 1;
    if n < last {
      var rest := es[..last];
      assert rest[..n] == es[..n];
      assert NeverEnds(rest, n + 1, i) by {
        forall k | n + 1 <= k < |rest|
          ensures Keeps(rest, k, i)
        {
          assert Keeps(es, k, i) && rest[..k] == es[..k];
        }
      }
      HistoryStaysPending(rest, n, i);
      assert Keeps(es, last, i);
    }
  }

  /** So an edge that comes while a handler runs, be it its own, is still pending when the handler is left:
      samples that find the same exception active do not end the request. */
  lemma EdgeDuringHandler(es: seq<Event>, n: nat, i: nat)
    requires i < LINES && n < |es| && es[n].Sample? && es[n].x.irq[i] && !LastLevel(es[..n], i)
    requires forall k | n < k < |es| :: es[k].Sample? && es[k].x.active == es[n].x.active
    ensures Bit(Run(Initial(), es).ispr, i)
  {
    forall k | n + 1 <= k < |es|
      ensures Keeps(es, k, i)
    {
      var before := es[..k];
      assert before[|before| - 1] == es[k - 1] && es[k - 1].Sample?;
    }
    EdgeStaysPending(es, n, i);
  }

  /** It ceases to be pending exactly at such a sample or at a reset. */
  lemma PendingEnds(es: seq<Event>, e: Event, i: nat)
    requires i < LINES && Bit(Run(Initial(), es).ispr, i)
    ensures !Bit(Run(Initial(), es + [e]).ispr, i) <==> !Keeps(es + [e], |es|, i)
  {
    RegistersFollowHistory(es, i);
    RegistersFollowHistory(es + [e], i);
    assert (es + [e])[..|es|] == es;
  }

  /** A line that stays high is served once: the sample that finds its handler started ends the request,
      and the next one does not renew it while the line stays high and nobody asks. */
  lemma ServedOnce(es: seq<Event>, x: Inputs, y: Inputs, i: nat)
    requires i < LINES && x.irq[i] && LastLevel(es, i) && !AskedToSet(es, i) && x.returning != i + 16
    requires x.active == i + 16 && LastActive(es) != x.active
    requires y.irq[i] && y.returning != i + 16
    ensures !Bit(Run(Initial(), es + [Sample(x)]).ispr, i)
    ensures !Bit(Run(Initial(), es + [Sample(x)] + [Sample(y)]).ispr, i)
  {
    var one := es + [Sample(x)];
    RegistersFollowHistory(one, i);
    RegistersFollowHistory(one + [Sample(y)], i);
    assert one[..|es|] == es && (one + [Sample(y)])[..|one|] == one;
  }

  // ---------------------------------------------------------------------------------------------
  // The controller as an object

  class Controller {
    var iser: word
    var icer: word
    var ispr: word
    var icpr: word
    var prio: priorities
    const prevIrq: array<bool>
    var prevActive: int
    var swSet: word
    var swClear: word
    var output: int

    ghost predicate Valid()
      reads this
    {
      prevIrq.Length == LINES
    }

    ghost function View(): State
      requires Valid()
      reads this, prevIrq
    {
      State(iser, icer, ispr, icpr, prio, prevIrq[..], prevActive, swSet, swClear, output)
    }

    method Write(e: Event)
      requires Valid() && (e.WriteIser? || e.WriteIcer? || e.WriteIspr? || e.WriteIcpr? || e.WritePriorities?)
      modifies this
      ensures View() == Apply(old(View()), e)
    {
      match e
      case WriteIser(v) =>
        iser := v;
        var result := WriteOneToSet(iser, icer);
        iser := result;
        icer := result;
      case WriteIcer(v) =>
        icer := v;
        var result := WriteOneToClear(icer, iser);
        iser := result;
        icer := result;
      case WriteIspr(v) => swSet := v;
      case WriteIcpr(v) => swClear := v;
      case WritePriorities(p) => prio := p;
    }

    method ResetLevels()
      requires Valid()
      modifies prevIrq
      ensures prevIrq[..] == seq(LINES, _ => false)
    {
      var i := 0;
      while i < prevIrq.Length
        invariant 0 <= i <= prevIrq.Length
        invariant forall k | 0 <= k < i :: !prevIrq[k]
      {
        prevIrq[i] := false;
        i := i + 1;
      }
    }

    method ResetState()
      requires Valid()
      modifies this, prevIrq
      ensures View() == Apply(old(View()), Reset)
    {
      ResetLevels();
      prevActive := -1;
      swSet, swClear := 0, 0;
      iser, icer, ispr, icpr := 0, 0, 0, 0;
      prio := seq(LINES, _ => 0);
    }

    /** The new pending word once line `i` is resolved */
    method Resolve(x: Inputs, i: nat, pending: word, ghost s: State) returns (p: word)
      requires Valid() && i < LINES && prevIrq[i] == s.prevIrq[i]
      requires swSet == s.swSet && swClear == s.swClear && prevActive == s.prevActive
      ensures p == WithLine(pending, i, Sets(s, x, i), Clears(s, x, i))
    {
      LineMask(i);
      TestBit(swSet, i);
      TestBit(swClear, i);
      WordOr(pending, Pow2(i), i);
      var mask := Pow2(i);
      var edge := x.irq[i] && !prevIrq[i];
      var stillRequesting := x.irq[i] && x.returning == i + EXCEPT_ID_BASE;
      var setPend := edge || stillRequesting || And(swSet, mask) != 0;
      var swCleared := !x.irq[i] && And(swClear, mask) != 0;
      var irqActive := x.active == i + EXCEPT_ID_BASE && x.active != prevActive;
      var clearPend := swCleared || irqActive;
      if setPend && clearPend {
        clearPend := false;
      }
      p := pending;
      if setPend {
        p := Or(pending, mask);
      } else if clearPend {
        p := And(pending, Not32(mask));
      }
    }

    /** The loop over the lines: pending bits, the line to request and the levels to remember. Later lines
        leave the bit of a line alone, so that it may be tested on the way. */
    method Scan(x: Inputs) returns (pending: word, highestPriIrq: int)
      requires Valid()
      modifies prevIrq
      ensures pending == Pending(old(View()), x, LINES) && prevIrq[..] == x.irq
      ensures highestPriIrq == Best(pending, iser, prio, LINES)
    {
      ghost var s, goal := View(), Pending(View(), x, LINES);
      pending := ispr;
      var highestPri := 4;
      highestPriIrq := -1;
      var i := 0;
      while i < LINES
        invariant 0 <= i <= LINES
        invariant forall k | 0 <= k < i :: prevIrq[k] == x.irq[k]
        invariant forall k | i <= k < LINES :: prevIrq[k] == s.prevIrq[k]
        invariant pending == Pending(s, x, i)
        invariant highestPriIrq == Best(goal, iser, prio, i)
        invariant highestPri == if highestPriIrq == -1 then 4 else prio[highestPriIrq]
      {
        pending := Resolve(x, i, pending, s);
        assert Bit(pending, i) == Bit(goal, i) by {
          PendingBits(s, x, i + 1, i);
          PendingBits(s, x, LINES, i);
        }
        if Bit(pending, i) && prio[i] < highestPri && Bit(iser, i) {
          highestPri := prio[i];
          highestPriIrq := i;
        }
        prevIrq[i] := x.irq[i];
        i := i + 1;
      }
    }

    method Process(x: Inputs)
      requires Valid()
      modifies this, prevIrq
      ensures View() == Evaluate(old(View()), x)
    {
      var pending, highestPriIrq := Scan(x);
      output := if highestPriIrq >= 0 then EXCEPT_ID_BASE + highestPriIrq else highestPriIrq;
      ispr := pending;
      icpr := pending;
      prevActive := x.active;
      swClear, swSet := 0, 0;
    }
  }
}

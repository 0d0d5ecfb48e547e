/** The event ledgers of the power model: counts in the running rates, in the log rows and in the dumped
    file, and the bridge that turns popped energy into current. Counts are unbounded integers and
    energies are reals. */
module PowerLedger {
  import opened Options

  const DUMP_THRESHOLD: nat := 100_000

  /** A row of the log: a count for each event, and then the time */
  type row = seq<int>

  /** `reported`, `popped`, `direct` and `delivered` are history: the counts reported, popped in all and
      popped other than by the bridge, and the energy the bridge has put into current. */
  datatype Ledger = Ledger(
    rates: seq<int>, log: seq<row>, file: seq<row>, lastRead: real,
    reported: seq<int>, popped: seq<int>, direct: seq<int>, delivered: real)

  ghost predicate Valid(s: Ledger, nEvents: nat) {
    && |s.rates| == |s.reported| == |s.popped| == |s.direct| == nEvents
    && s.log != []
    && (forall k | 0 <= k < |s.log| :: |s.log[k]| == nEvents + 1)
    && (forall k | 0 <= k < |s.file| :: |s.file[k]| == nEvents + 1)
  }

  function Zeros(n: nat): (z: seq<int>)
    ensures |z| == n && forall i | 0 <= i < n :: z[i] == 0
  {
    seq(n, _ => 0)
  }

  /** The guard of `reportEvent` and `popEventCount`: the log row has one column more than there are
      events. */
  predicate GuardHolds(s: Ledger, id: int)
    requires s.log != []
  {
    0 <= id < |s.log[|s.log| - 1]|
  }

  /** What the guard lets through that is no event: exactly the time column, for which there is no rate */
  lemma GuardMissesTimeColumn(s: Ledger, nEvents: nat, id: int)
    requires Valid(s, nEvents)
    ensures GuardHolds(s, id) <==> 0 <= id < |s.rates| || id == nEvents
  {
  }

  function Report(s: Ledger, id: nat, n: int): Ledger
    requires id < |s.rates| && id < |s.reported| && s.log != [] && id < |s.log[|s.log| - 1]|
  {
    var last := |s.log| - 1;
    s.(rates := s.rates[id := s.rates[id] + n],
       log := s.log[last := s.log[last][id := s.log[last][id] + n]],
       reported := s.reported[id := s.reported[id] + n])
  }

  function PopCount(s: Ledger, id: nat): Ledger
    requires id < |s.rates| && id < |s.popped| && id < |s.direct|
  {
    s.(rates := s.rates[id := 0],
       popped := s.popped[id := s.popped[id] + s.rates[id]],
       direct := s.direct[id := s.direct[id] + s.rates[id]])
  }

  /** A pass of the log loop: dump when the log is long, then start a row */
  function LogStep(s: Ledger, nEvents: nat, time: int): Ledger {
    var s' := if |s.log| > DUMP_THRESHOLD then s.(file := s.file + s.log, log := []) else s;
    s'.(log := s'.log + [Zeros(nEvents) + [time]])
  }

  /** What the file holds after the channel is destroyed */
  function FinalFile(s: Ledger): seq<row> {
    s.file + s.log
  }

  function Plus(a: seq<int>, b: seq<int>): (c: seq<int>)
    requires |a| == |b|
    ensures |c| == |a| && forall i | 0 <= i < |a| :: c[i] == a[i] + b[i]
  {
    seq(|a|, i requires 0 <= i < |a| => a[i] + b[i])
  }

  /** Energy of counts, each event at its own */
  function Energy(energies: seq<real>, counts: seq<int>): real
    requires |energies| == |counts|
  {
    if counts == [] then 0.0
    else
      var n := |counts| - 1;
      Energy(energies[..n], counts[..n]) + energies[n] * counts[n] as real
  }

  /** The bridge, at voltage `v` and time `now`. It pops nothing without a positive voltage. */
  function Update(s: Ledger, energies: seq<real>, v: real, now: real): Ledger
    requires |energies| == |s.rates| == |s.popped|
    requires v > 0.0 ==> now > s.lastRead
  {
    if v <= 0.0 then s
    else
      var dt := now - s.lastRead;
      s.(rates := Zeros(|s.rates|), popped := Plus(s.popped, s.rates), lastRead := now,
         delivered := s.delivered + DynamicCurrent(s, energies, v, now) * v * dt)
  }

  /** The dynamic part of the current the bridge puts out */
  function DynamicCurrent(s: Ledger, energies: seq<real>, v: real, now: real): real
    requires |energies| == |s.rates|
    requires v > 0.0 ==> now > s.lastRead
  {
    if v <= 0.0 then 0.0 else Energy(energies, s.rates) / (v * (now - s.lastRead))
  }

  // ---------------------------------------------------------------------------------------------
  // Conservation of counts

  function Column(rows: seq<row>, id: nat): int
    requires forall k | 0 <= k < |rows| :: id < |rows[k]|
  {
    if rows == [] then 0 else Column(rows[..|rows| - 1], id) + rows[|rows| - 1][id]
  }

  lemma {:induction false} ColumnConcat(a: seq<row>, b: seq<row>, id: nat)
    requires forall k | 0 <= k < |a| :: id < |a[k]|
    requires forall k | 0 <= k < |b| :: id < |b[k]|
    ensures Column(a + b, id) == Column(a, id) + Column(b, id)
  {
    if b == [] {
      assert a + b == a;
    } else {
      var rest := b[..|b| - 1];
      ColumnConcat(a, rest, id);
      assert (a + b)[..|a + b| - 1] == a + rest;
    }
  }

  /** For every event: file and log together hold what was reported, and so do pops and rates. */
  ghost predicate Balanced(s: Ledger, nEvents: nat) {
    && Valid(s, nEvents)
    && forall id | 0 <= id < nEvents ::
         && Column(s.file, id) + Column(s.log, id) == s.reported[id]
         && s.reported[id] == s.popped[id] + s.rates[id]
  }

  lemma ReportBalances(s: Ledger, nEvents: nat, id: nat, n: int)
    requires Balanced(s, nEvents) && id < nEvents
    ensures Balanced(Report(s, id, n), nEvents)
  {
    var t, last := Report(s, id, n), |s.log| - 1;
    assert t.log[..last] == s.log[..last];
    forall i | 0 <= i < nEvents
      ensures Column(t.file, i) + Column(t.log, i) == t.reported[i] && t.reported[i] == t.popped[i] + t.rates[i]
    {
      assert Column(t.log, i) == Column(s.log[..last], i) + t.log[last][i];
    }
  }

  lemma LogStepBalances(s: Ledger, nEvents: nat, time: int)
    requires Balanced(s, nEvents)
    ensures Balanced(LogStep(s, nEvents, time), nEvents)
  {
    var t := LogStep(s, nEvents, time);
    var r := Zeros(nEvents) + [time];
    forall i | 0 <= i < nEvents
      ensures Column(t.file, i) + Column(t.log, i) == t.reported[i]
    {
      ColumnConcat(s.file, s.log, i);
      if |s.log| > DUMP_THRESHOLD {
        assert t.log == [] + [r];
        ColumnOfRow(r, i);
      } else {
        ColumnConcat(s.log, [r], i);
        ColumnOfRow(r, i);
      }
    }
  }

  lemma ColumnOfRow(r: row, id: nat)
    requires id < |r|
    ensures Column([r], id) == r[id]
  {
    assert [r][..0] == [];
  }

  // ---------------------------------------------------------------------------------------------
  // Conservation of energy

  lemma {:induction false} EnergyZero(energies: seq<real>, n: nat)
    requires |energies| == n
    ensures Energy(energies, Zeros(n)) == 0.0
  {
    if n > 0 {
      EnergyZero(energies[..n - 1], n - 1);
      assert Zeros(n)[..n - 1] == Zeros(n - 1);
    }
  }

  lemma EnergyNext(energies: seq<real>, counts: seq<int>, i: nat)
    requires i < |energies| == |counts|
    ensures Energy(energies[..i + 1], counts[..i + 1]) == Energy(energies[..i], counts[..i]) + energies[i] * counts[i] as real
  {
    assert energies[..i + 1][..i] == energies[..i] && counts[..i + 1][..i] == counts[..i];
  }

  lemma {:induction false} EnergyAt(energies: seq<real>, a: seq<int>, id: nat, n: int)
    requires |energies| == |a| && id < |a|
    ensures Energy(energies, a[id := a[id] + n]) == Energy(energies, a) + energies[id] * n as real
  {
    var last, b := |a| - 1, a[id := a[id] + n];
    if id < last {
      EnergyAt(energies[..last], a[..last], id, n);
      assert b[..last] == a[..last][id := a[..last][id] + n];
    } else {
      assert b[..last] == a[..last];
    }
  }

  /** Current times voltage times time is the energy popped. */
  lemma CurrentCarriesEnergy(e: real, v: real, dt: real)
    requires v > 0.0 && dt > 0.0
    ensures e / (v * dt) * v * dt == e
  {
    assert v * dt > 0.0;
    var i := e / (v * dt);
    assert i * (v * dt) == e;
    assert i * (v * dt) == i * v * dt;
  }

  /** All energy reported is in the rates, was put into current, or was popped by others. */
  ghost predicate EnergyKept(s: Ledger, energies: seq<real>) {
    && |energies| == |s.rates| == |s.reported| == |s.direct|
    && s.delivered + Energy(energies, s.rates) + Energy(energies, s.direct) == Energy(energies, s.reported)
  }

  lemma ReportKeepsEnergy(s: Ledger, energies: seq<real>, id: nat, n: int)
    requires EnergyKept(s, energies) && id < |energies| && s.log != [] && id < |s.log[|s.log| - 1]|
    ensures EnergyKept(Report(s, id, n), energies)
  {
    EnergyAt(energies, s.rates, id, n);
    EnergyAt(energies, s.reported, id, n);
  }

  lemma PopKeepsEnergy(s: Ledger, energies: seq<real>, id: nat)
    requires EnergyKept(s, energies) && id < |energies| && id < |s.popped|
    ensures EnergyKept(PopCount(s, id), energies)
  {
    EnergyPopped(energies, s.rates, id);
    EnergyAt(energies, s.direct, id, s.rates[id]);
  }

  lemma EnergyPopped(energies: seq<real>, a: seq<int>, id: nat)
    requires |energies| == |a| && id < |a|
    ensures Energy(energies, a[id := 0]) == Energy(energies, a) - energies[id] * a[id] as real
  {
    var n := a[id];
    EnergyAt(energies, a, id, -n);
    NegatedCost(energies[id], n);
    assert a[id := 0] == a[id := a[id] + -n];
  }

  lemma NegatedCost(e: real, n: int)
    ensures e * (-n) as real == -(e * n as real)
  {
    assert (-n) as real == -(n as real);
  }

  lemma UpdateKeepsEnergy(s: Ledger, energies: seq<real>, v: real, now: real)
    requires EnergyKept(s, energies) && |s.popped| == |s.rates| && (v > 0.0 ==> now > s.lastRead)
    ensures EnergyKept(Update(s, energies, v, now), energies)
  {
    if v > 0.0 {
      CurrentCarriesEnergy(Energy(energies, s.rates), v, now - s.lastRead);
      EnergyZero(energies, |s.rates|);
    }
  }

  // ---------------------------------------------------------------------------------------------
  // Runs

  datatype Event =
    | Reported(id: nat, n: int)
    | PoppedCount(id: nat)
    | Logged(time: int)
    | Updated(v: real, now: real)

  /** The identifiers are those of events, and time has passed whenever the bridge has a voltage. */
  predicate Sensible(s: Ledger, nEvents: nat, e: Event) {
    match e
    case Reported(id, n) => id < nEvents
    case PoppedCount(id) => id < nEvents
    case Logged(_) => true
    case Updated(v, now) => v > 0.0 ==> now > s.lastRead
  }

  function Apply(s: Ledger, energies: seq<real>, e: Event): Ledger
    requires Valid(s, |energies|) && Sensible(s, |energies|, e)
  {
    match e
    case Reported(id, n) => Report(s, id, n)
    case PoppedCount(id) => PopCount(s, id)
    case Logged(time) => LogStep(s, |energies|, time)
    case Updated(v, now) => Update(s, energies, v, now)
  }

  ghost predicate Conserved(s: Ledger, energies: seq<real>) {
    Balanced(s, |energies|) && EnergyKept(s, energies)
  }

  lemma ApplyConserves(s: Ledger, energies: seq<real>, e: Event)
    requires Conserved(s, energies) && Sensible(s, |energies|, e)
    ensures Conserved(Apply(s, energies, e), energies)
  {
    match e
    case Reported(id, n) =>
      ReportBalances(s, |energies|, id, n);
      ReportKeepsEnergy(s, energies, id, n);
    case PoppedCount(id) => PopKeepsEnergy(s, energies, id);
    case Logged(time) => LogStepBalances(s, |energies|, time);
    case Updated(v, now) => UpdateKeepsEnergy(s, energies, v, now);
  }

  /** Before the first event: one row, as `start_of_simulation` makes it */
  function Initial(nEvents: nat, time: int): Ledger {
    Ledger(Zeros(nEvents), [Zeros(nEvents) + [time]], [], 0.0, Zeros(nEvents), Zeros(nEvents), Zeros(nEvents), 0.0)
  }

  lemma InitialConserved(energies: seq<real>, time: int)
    ensures Conserved(Initial(|energies|, time), energies)
  {
    var r := Zeros(|energies|) + [time];
    forall i | 0 <= i < |energies|
      ensures Column([r], i) == 0
    {
      ColumnOfRow(r, i);
    }
    EnergyZero(energies, |energies|);
  }

  /** The ledger a simulation starts with */
  ghost function Start(energies: seq<real>, time: int): (s: Ledger)
    ensures Conserved(s, energies)
  {
    InitialConserved(energies, time);
    Initial(|energies|, time)
  }

  /** The ledger after a run; None if an event of it is not sensible where it happens */
  ghost function Run(s: Ledger, energies: seq<real>, es: seq<Event>): (r: Option<Ledger>)
    requires Conserved(s, energies)
    ensures r.Some? ==> Conserved(r.value, energies)
  {
    if es == [] then Some(s)
    else
      var n := |es| - 1;
      var r := Run(s, energies, es[..n]);
      if r.None? || !Sensible(r.value, |energies|, es[n]) then None
      else
        ApplyConserves(r.value, energies, es[n]);
        Some(Apply(r.value, energies, es[n]))
  }

  /** What a list of events reports for event `id` */
  function ReportedBy(es: seq<Event>, id: nat): int {
    if es == [] then 0
    else
      var e := es[|es| - 1];
      ReportedBy(es[..|es| - 1], id) + (if e.Reported? && e.id == id then e.n else 0)
  }

  lemma {:induction false} ReportsCounted(energies: seq<real>, es: seq<Event>, time: int, id: nat)
    requires id < |energies| && Run(Start(energies, time), energies, es).Some?
    ensures Run(Start(energies, time), energies, es).value.reported[id] == ReportedBy(es, id)
  {
    if es != [] {
      ReportsCounted(energies, es[..|es| - 1], time, id);
    }
  }

  /** At the end of every run from the start of simulation the file the channel leaves holds, for every
      event, exactly what was reported, which is what was popped and what the rates still hold. */
  lemma FileHoldsReported(energies: seq<real>, es: seq<Event>, time: int, id: nat)
    requires id < |energies| && Run(Start(energies, time), energies, es).Some?
    ensures var t := Run(Start(energies, time), energies, es).value;
            && Valid(t, |energies|) && (forall k | 0 <= k < |FinalFile(t)| :: id < |FinalFile(t)[k]|)
            && Column(FinalFile(t), id) == ReportedBy(es, id) == t.popped[id] + t.rates[id]
  {
    var t := Run(Start(energies, time), energies, es).value;
    ReportsCounted(energies, es, time, id);
    ColumnConcat(t.file, t.log, id);
  }

  /** Counts of one event, row by row, after one more event */
  function CountsAfter(c: seq<int>, e: Event, id: nat): (d: seq<int>)
    requires c != []
    ensures d != []
  {
    if e.Logged? then c + [0] else if e.Reported? && e.id == id then c[|c| - 1 := c[|c| - 1] + e.n] else c
  }

  /** What a run reports for event `id` between any two passes of the log loop, and the times of the passes;
      the start of simulation begins the first row */
  function CountsBy(es: seq<Event>, id: nat): (c: seq<int>)
    ensures c != []
  {
    if es == [] then [0] else CountsAfter(CountsBy(es[..|es| - 1], id), es[|es| - 1], id)
  }

  function TimesBy(es: seq<Event>, time: int): (t: seq<int>)
    ensures t != []
  {
    if es == [] then [time]
    else
      var e, t := es[|es| - 1], TimesBy(es[..|es| - 1], time);
      if e.Logged? then t + [e.time] else t
  }

  /** Row by row, a file holds these times and, for event `id`, these counts. */
  ghost predicate Rows(file: seq<row>, nEvents: nat, id: nat, counts: seq<int>, times: seq<int>) {
    && |file| == |counts| == |times| && id < nEvents
    && forall k | 0 <= k < |file| ::
         |file[k]| == nEvents + 1 && file[k][id] == counts[k] && file[k][nEvents] == times[k]
  }

  lemma ReportedRow(s: Ledger, nEvents: nat, id': nat, n: int, id: nat, counts: seq<int>, times: seq<int>)
    requires Valid(s, nEvents) && id' < nEvents && counts != [] && Rows(FinalFile(s), nEvents, id, counts, times)
    ensures var last := |counts| - 1;
            Rows(FinalFile(Report(s, id', n)), nEvents, id, if id' == id then counts[last := counts[last] + n] else counts, times)
  {
    var t := Report(s, id', n);
    assert FinalFile(t) == FinalFile(s)[|counts| - 1 := t.log[|t.log| - 1]];
  }

  lemma LoggedRow(s: Ledger, nEvents: nat, time: int, id: nat, counts: seq<int>, times: seq<int>)
    requires Valid(s, nEvents) && Rows(FinalFile(s), nEvents, id, counts, times)
    ensures Rows(FinalFile(LogStep(s, nEvents, time)), nEvents, id, counts + [0], times + [time])
  {
    assert FinalFile(LogStep(s, nEvents, time)) == FinalFile(s) + [Zeros(nEvents) + [time]];
  }

  lemma ApplyRows(s: Ledger, energies: seq<real>, e: Event, id: nat, counts: seq<int>, times: seq<int>)
    requires Valid(s, |energies|) && |s.popped| == |energies| && Sensible(s, |energies|, e) && counts != []
    requires Rows(FinalFile(s), |energies|, id, counts, times)
    ensures Rows(FinalFile(Apply(s, energies, e)), |energies|, id, CountsAfter(counts, e, id),
                 if e.Logged? then times + [e.time] else times)
  {
    match e
    case Reported(id', n) => ReportedRow(s, |energies|, id', n, id, counts, times);
    case Logged(t) => LoggedRow(s, |energies|, t, id, counts, times);
    case _ => assert FinalFile(Apply(s, energies, e)) == FinalFile(s);
  }

  /** The file in full: a row for the start and for every pass of the log loop, with its time, holding what was
      reported for each event from then until the next. */
  lemma {:induction false} FileIsHistory(energies: seq<real>, es: seq<Event>, time: int, id: nat)
    requires id < |energies| && Run(Start(energies, time), energies, es).Some?
    ensures Rows(FinalFile(Run(Start(energies, time), energies, es).value), |energies|, id, CountsBy(es, id), TimesBy(es, time))
  {
    if es != [] {
      var rest := es[..|es| - 1];
      FileIsHistory(energies, rest, time, id);
      ApplyRows(Run(Start(energies, time), energies, rest).value, energies, es[|es| - 1], id, CountsBy(rest, id),
                TimesBy(rest, time));
    }
  }

  /** The log never holds more than 100001 rows; dumps are of that many. */
  predicate Bounded(s: Ledger) {
    1 <= |s.log| <= 100_001 && |s.file| % 100_001 == 0
  }

  lemma ApplyBounded(s: Ledger, energies: seq<real>, e: Event)
    requires Valid(s, |energies|) && |s.popped| == |energies| && Sensible(s, |energies|, e) && Bounded(s)
    ensures Bounded(Apply(s, energies, e))
  {
  }

  lemma {:induction false} LogBounded(energies: seq<real>, es: seq<Event>, time: int)
    requires Run(Start(energies, time), energies, es).Some?
    ensures Bounded(Run(Start(energies, time), energies, es).value)
  {
    if es != [] {
      var rest := es[..|es| - 1];
      LogBounded(energies, rest, time);
      ApplyBounded(Run(Start(energies, time), energies, rest).value, energies, es[|es| - 1]);
    }
  }

  /** What a run has reported for event `id` since it was last popped */
  function RateBy(es: seq<Event>, id: nat): int {
    if es == [] then 0
    else
      var rest := es[..|es| - 1];
      match es[|es| - 1]
      case Reported(i, n) => RateBy(rest, id) + (if i == id then n else 0)
      case PoppedCount(i) => if i == id then 0 else RateBy(rest, id)
      case Logged(_) => RateBy(rest, id)
      case Updated(v, _) => if v > 0.0 then 0 else RateBy(rest, id)
  }

  /** That is what the next pop returns, and what the bridge turns into current. */
  lemma {:induction false} RatesFollowHistory(energies: seq<real>, es: seq<Event>, time: int, id: nat)
    requires id < |energies| && Run(Start(energies, time), energies, es).Some?
    ensures Run(Start(energies, time), energies, es).value.rates[id] == RateBy(es, id)
  {
    if es != [] {
      RatesFollowHistory(energies, es[..|es| - 1], time, id);
    }
  }

  /** When the bridge last popped: the time of its last update with a voltage */
  function ReadBy(es: seq<Event>): real {
    if es == [] then 0.0
    else
      match es[|es| - 1]
      case Updated(v, now) => if v > 0.0 then now else ReadBy(es[..|es| - 1])
      case _ => ReadBy(es[..|es| - 1])
  }

  lemma {:induction false} ReadFollowsHistory(energies: seq<real>, es: seq<Event>, time: int)
    requires Run(Start(energies, time), energies, es).Some?
    ensures Run(Start(energies, time), energies, es).value.lastRead == ReadBy(es)
  {
    if es != [] {
      ReadFollowsHistory(energies, es[..|es| - 1], time);
    }
  }

  /** The current `i` carries the energy of the rates in the time from `since` to `now`. */
  predicate Carries(i: real, rates: seq<int>, energies: seq<real>, v: real, since: real, now: real)
    requires |rates| == |energies|
  {
    i * v * (now - since) == Energy(energies, rates)
  }

  lemma CurrentExact(s: Ledger, energies: seq<real>, v: real, now: real)
    requires |energies| == |s.rates| && v > 0.0 && now > s.lastRead
    ensures Carries(DynamicCurrent(s, energies, v, now), s.rates, energies, v, s.lastRead, now)
  {
    CurrentCarriesEnergy(Energy(energies, s.rates), v, now - s.lastRead);
  }

  /** The dynamic current of an update is the energy in the rates, spread over the time since the last update
      that had a voltage. */
  lemma CurrentFollowsHistory(energies: seq<real>, es: seq<Event>, time: int, v: real, now: real)
    requires Run(Start(energies, time), energies, es).Some? && v > 0.0 && now > ReadBy(es)
    ensures var s := Run(Start(energies, time), energies, es).value;
            && |s.rates| == |energies| && now > s.lastRead
            && Carries(DynamicCurrent(s, energies, v, now), s.rates, energies, v, ReadBy(es), now)
  {
    ReadFollowsHistory(energies, es, time);
    CurrentExact(Run(Start(energies, time), energies, es).value, energies, v, now);
  }

  /** The energy put into current plus what is still unpopped is all that was reported, if nobody but
      the bridge pops. */
  lemma BridgeDeliversReported(energies: seq<real>, es: seq<Event>, time: int)
    requires Run(Start(energies, time), energies, es).Some?
    requires forall k | 0 <= k < |es| :: !es[k].PoppedCount?
    ensures var t := Run(Start(energies, time), energies, es).value;
            && |t.rates| == |t.reported| == |energies|
            && t.delivered + Energy(energies, t.rates) == Energy(energies, t.reported)
  {
    NoDirectPops(energies, es, time);
    EnergyZero(energies, |energies|);
  }

  lemma {:induction false} NoDirectPops(energies: seq<real>, es: seq<Event>, time: int)
    requires Run(Start(energies, time), energies, es).Some?
    requires forall k | 0 <= k < |es| :: !es[k].PoppedCount?
    ensures Run(Start(energies, time), energies, es).value.direct == Zeros(|energies|)
  {
    if es != [] {
      NoDirectPops(energies, es[..|es| - 1], time);
    }
  }

  // ---------------------------------------------------------------------------------------------
  // The channel and the bridge as objects

  datatype Outcome = Counted | Refused | Undefined

  class EventChannel {
    var rates: seq<int>
    var log: seq<row>
    var file: seq<row>
    const energies: seq<real>
    ghost var reported: seq<int>
    ghost var popped: seq<int>
    ghost var direct: seq<int>

    ghost predicate Shows(s: Ledger)
      reads this
    {
      && rates == s.rates && log == s.log && file == s.file
      && reported == s.reported && popped == s.popped && direct == s.direct
      && Valid(s, |energies|)
    }

    /** The guard of the source lets the index of the time column pass, for which there is no rate: the
        source then writes behind the end of the rates, and what happens is undefined. */
    method ReportEvent(id: int, n: int, ghost s: Ledger) returns (outcome: Outcome)
      requires Shows(s)
      modifies this
      ensures outcome.Refused? <==> !GuardHolds(s, id)
      ensures outcome.Undefined? <==> id == |energies|
      ensures Shows(if outcome.Counted? then Report(s, id, n) else s)
    {
      var last := |log| - 1;
      if !(0 <= id < |log[last]|) {
        return Refused;
      }
      if id >= |rates| {
        return Undefined;
      }
      rates := rates[id := rates[id] + n];
      log := log[last := log[last][id := log[last][id] + n]];
      reported := reported[id := reported[id] + n];
      outcome := Counted;
    }

    /** With the same guard, and the same hole in it */
    method PopEventCount(id: int, ghost s: Ledger) returns (outcome: Outcome, n: int)
      requires Shows(s)
      modifies this
      ensures outcome.Refused? <==> !GuardHolds(s, id)
      ensures outcome.Undefined? <==> id == |energies|
      ensures if outcome.Counted? then n == s.rates[id] && Shows(PopCount(s, id)) else Shows(s)
    {
      var last := |log| - 1;
      if !(0 <= id < |log[last]|) {
        return Refused, 0;
      }
      if id >= |rates| {
        return Undefined, 0;
      }
      outcome, n := Counted, rates[id];
      rates := rates[id := 0];
      popped := popped[id := popped[id] + n];
      direct := direct[id := direct[id] + n];
    }

    method PopEventEnergy(id: nat) returns (e: real)
      requires id < |energies| == |rates|
      modifies this`rates
      ensures e == energies[id] * old(rates[id]) as real && rates == old(rates)[id := 0]
    {
      e := energies[id] * rates[id] as real;
      rates := rates[id := 0];
    }

    /** The loop pops every event and adds up what each one cost. */
    method PopDynamicEnergy(ghost s: Ledger) returns (result: real)
      requires Shows(s)
      modifies this
      ensures result == Energy(energies, s.rates)
      ensures Shows(s.(rates := Zeros(|s.rates|), popped := Plus(s.popped, s.rates)))
    {
      result := 0.0;
      var i := 0;
      while i < |energies|
        invariant 0 <= i <= |energies| == |rates|
        invariant result == Energy(energies[..i], s.rates[..i])
        invariant forall k | 0 <= k < i :: rates[k] == 0
        invariant forall k | i <= k < |energies| :: rates[k] == s.rates[k]
        modifies this`rates
      {
        var e := PopEventEnergy(i);
        assert result + e == Energy(energies[..i + 1], s.rates[..i + 1]) by {
          EnergyNext(energies, s.rates, i);
        }
        result := result + e;
        i := i + 1;
      }
      assert energies[..i] == energies;
      assert s.rates[..i] == s.rates;
      assert rates == Zeros(|energies|);
      popped := Plus(popped, s.rates);
    }

    method DumpEventCsv(ghost s: Ledger)
      requires Shows(s)
      modifies this
      ensures Shows(s.(file := FinalFile(s)))
    {
      file := file + log;
    }

    /** A pass of the log loop */
    method LogOnce(time: int, ghost s: Ledger)
      requires Shows(s)
      modifies this
      ensures Shows(LogStep(s, |energies|, time))
    {
      if |log| > DUMP_THRESHOLD {
        DumpEventCsv(s);
        log := [];
      }
      log := log + [Zeros(|energies|) + [time]];
    }
  }

  class Bridge {
    const channel: EventChannel
    var lastReadTime: real
    ghost var delivered: real

    constructor (channel: EventChannel)
      ensures this.channel == channel && lastReadTime == 0.0 && delivered == 0.0
    {
      this.channel := channel;
      lastReadTime, delivered := 0.0, 0.0;
    }

    ghost predicate Shows(s: Ledger)
      reads this, channel
    {
      channel.Shows(s) && lastReadTime == s.lastRead && delivered == s.delivered
    }

    /** The current put out, over the static current of the channel */
    method Process(v: real, now: real, staticCurrent: real, ghost s: Ledger) returns (i: real)
      requires Shows(s) && (v > 0.0 ==> now > lastReadTime)
      modifies this, channel
      ensures i == if v <= 0.0 then 0.0 else staticCurrent + DynamicCurrent(s, channel.energies, v, now)
      ensures Shows(Update(s, channel.energies, v, now))
    {
      if v <= 0.0 {
        return 0.0;
      }
      var timestep := now - lastReadTime;
      lastReadTime := now;
      var energy := channel.PopDynamicEnergy(s);
      assert v * timestep > 0.0;
      var dynamicCurrent := energy / (v * timestep);
      delivered := delivered + dynamicCurrent * v * timestep;
      i := staticCurrent + dynamicCurrent;
    }
  }
}

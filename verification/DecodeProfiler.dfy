/** The decode profiler of `decode_profiler.rs`: per-position acceptance counters of speculative
    decoding cycles, and a stack of nested phases. Clock readings are inputs. */
module DecodeProfiler {
  import opened Wrappers
  import opened Arithmetic
  import opened Sequences

  datatype Cycle = Cycle(depth: nat, accepted: nat)

  // ---------------------------------------------------------------- acceptance counters

  datatype Counters = Counters(cycles: nat, accepted: nat, depth: nat, attempts: seq<nat>, accepts: seq<nat>)

  const ZERO := Counters(0, 0, 0, [], [])

  /** Zero-extended to at least `n` entries. */
  function Resized(s: seq<nat>, n: nat): (r: seq<nat>)
    ensures |r| == Max(|s|, n)
  {
    if |s| < n then s + seq(n - |s|, i => 0) else s
  }

  /** The first `n` entries incremented. */
  function Bumped(s: seq<nat>, n: nat): (r: seq<nat>)
    requires n <= |s|
    ensures |r| == |s| && forall i :: 0 <= i < |s| ==> r[i] == s[i] + if i < n then 1 else 0
  {
    seq(|s|, i requires 0 <= i < |s| => s[i] + if i < n then 1 else 0)
  }

  function AfterCycle(c: Counters, cycle: Cycle): Counters {
    var k := Min(cycle.accepted, cycle.depth);
    Counters(c.cycles + 1, c.accepted + k, c.depth + cycle.depth,
             Bumped(Resized(c.attempts, cycle.depth), cycle.depth),
             Bumped(Resized(c.accepts, cycle.depth), k))
  }

  /** The counters after a history of cycles. */
  function Recorded(cycles: seq<Cycle>): Counters {
    if cycles == [] then ZERO else AfterCycle(Recorded(cycles[..|cycles| - 1]), cycles[|cycles| - 1])
  }

  /** How many cycles drafted position `i`, and how many accepted it: the reference meaning of the
      per-position counters. */
  function Attempting(cycles: seq<Cycle>, i: nat): nat {
    if cycles == [] then 0
    else Attempting(cycles[..|cycles| - 1], i) + if i < cycles[|cycles| - 1].depth then 1 else 0
  }

  function Accepting(cycles: seq<Cycle>, i: nat): nat {
    if cycles == [] then 0
    else
      var last := cycles[|cycles| - 1];
      Accepting(cycles[..|cycles| - 1], i) + if i < Min(last.accepted, last.depth) then 1 else 0
  }

  function Deepest(cycles: seq<Cycle>): nat {
    if cycles == [] then 0 else Max(Deepest(cycles[..|cycles| - 1]), cycles[|cycles| - 1].depth)
  }

  /** Each counter is the number of cycles that reached its position. */
  ghost predicate CountsCycles(c: Counters, cycles: seq<Cycle>) {
    && c.cycles == |cycles|
    && |c.attempts| == |c.accepts| == Deepest(cycles)
    && (forall i :: 0 <= i < |c.attempts| ==> c.attempts[i] == Attempting(cycles, i) && c.accepts[i] == Accepting(cycles, i))
    && (forall i :: Deepest(cycles) <= i ==> Attempting(cycles, i) == 0 && Accepting(cycles, i) == 0)
  }

  lemma {:induction false} CountersCountCycles(cycles: seq<Cycle>)
    ensures CountsCycles(Recorded(cycles), cycles)
  {
    hide CountsCycles, AfterCycle;
    if cycles == [] {
      NothingCounted();
    } else {
      var n := |cycles| - 1;
      CountersCountCycles(cycles[..n]);
      CountOne(Recorded(cycles[..n]), cycles[..n], cycles[n]);
      assert cycles == cycles[..n] + [cycles[n]];
    }
  }

  lemma NothingCounted()
    ensures CountsCycles(ZERO, [])
  {
  }

  lemma CountOne(c: Counters, cycles: seq<Cycle>, cycle: Cycle)
    requires CountsCycles(c, cycles)
    ensures CountsCycles(AfterCycle(c, cycle), cycles + [cycle])
  {
    hide Attempting, Accepting, Deepest;
    forall i: nat
      ensures Attempting(cycles + [cycle], i) == Attempting(cycles, i) + if i < cycle.depth then 1 else 0
      ensures Accepting(cycles + [cycle], i) == Accepting(cycles, i) + if i < Min(cycle.accepted, cycle.depth) then 1 else 0
      ensures Deepest(cycles + [cycle]) == Max(Deepest(cycles), cycle.depth)
    {
      ReachesNext(cycles, cycle, i);
    }
    ReachesNext(cycles, cycle, 0);
  }

  lemma ReachesNext(cycles: seq<Cycle>, cycle: Cycle, i: nat)
    ensures Attempting(cycles + [cycle], i) == Attempting(cycles, i) + if i < cycle.depth then 1 else 0
    ensures Accepting(cycles + [cycle], i) == Accepting(cycles, i) + if i < Min(cycle.accepted, cycle.depth) then 1 else 0
    ensures Deepest(cycles + [cycle]) == Max(Deepest(cycles), cycle.depth)
  {
    hide Min, Max;
    assert (cycles + [cycle])[..|cycles|] == cycles;
  }

  lemma {:induction false} ReachesLess(cycles: seq<Cycle>, i: nat)
    ensures Accepting(cycles, i) <= Attempting(cycles, i) <= |cycles|
    ensures Attempting(cycles, i + 1) <= Attempting(cycles, i) && Accepting(cycles, i + 1) <= Accepting(cycles, i)
  {
    if cycles != [] { ReachesLess(cycles[..|cycles| - 1], i); }
  }

  /** Acceptance is prefix-monotone at every position, over every history. */
  lemma PositionsDecline(cycles: seq<Cycle>, i: nat, j: nat)
    requires i <= j < |Recorded(cycles).attempts|
    ensures var c := Recorded(cycles);
            && |c.accepts| == |c.attempts|
            && c.accepts[i] <= c.attempts[i] <= c.cycles
            && c.attempts[j] <= c.attempts[i] && c.accepts[j] <= c.accepts[i]
    decreases j
  {
    hide Recorded, Attempting, Accepting, Deepest;
    CountersCountCycles(cycles);
    ReachesLess(cycles, i);
    if i < j {
      PositionsDecline(cycles, i, j - 1);
      ReachesLess(cycles, j - 1);
    }
  }

  function Sum(s: seq<nat>): nat {
    if s == [] then 0 else Sum(s[..|s| - 1]) + s[|s| - 1]
  }

  lemma {:induction false} SumResized(s: seq<nat>, n: nat)
    ensures Sum(Resized(s, n)) == Sum(s)
    decreases n
  {
    if |s| < n {
      var r := Resized(s, n);
      assert r[..n - 1] == Resized(s, n - 1);
      SumResized(s, n - 1);
    }
  }

  lemma {:induction false} SumBumped(s: seq<nat>, n: nat)
    requires n <= |s|
    ensures Sum(Bumped(s, n)) == Sum(s) + n
  {
    if s != [] {
      var init := s[..|s| - 1];
      SumBumped(init, Min(n, |init|));
      assert Bumped(s, n)[..|s| - 1] == Bumped(init, Min(n, |init|));
    }
  }

  /** The per-position arrays add up to the totals. */
  lemma {:induction false} PositionsSumToTotals(cycles: seq<Cycle>)
    ensures Sum(Recorded(cycles).accepts) == Recorded(cycles).accepted
    ensures Sum(Recorded(cycles).attempts) == Recorded(cycles).depth
  {
    if cycles != [] {
      hide Sum;
      var before, last := Recorded(cycles[..|cycles| - 1]), cycles[|cycles| - 1];
      PositionsSumToTotals(cycles[..|cycles| - 1]);
      var k := Min(last.accepted, last.depth);
      SumResized(before.attempts, last.depth);
      SumResized(before.accepts, last.depth);
      SumBumped(Resized(before.attempts, last.depth), last.depth);
      SumBumped(Resized(before.accepts, last.depth), k);
    }
  }

  // ---------------------------------------------------------------- the acceptance summary

  /** Rates are reals; the number of cycles saturates at 32 bits. */
  datatype Summary = Summary(mean: real, rates: seq<real>, cycles: nat)

  const MAX_U32: nat := 0xffff_ffff

  function AcceptanceSummary(c: Counters): Option<Summary> {
    if c.cycles == 0 then None
    else
      var n := Min(|c.accepts|, |c.attempts|);
      Some(Summary(
        c.accepted as real / c.cycles as real,
        seq(n, i requires 0 <= i < n => if c.attempts[i] > 0 then c.accepts[i] as real / c.attempts[i] as real else 0.0),
        Min(c.cycles, MAX_U32)))
  }

  function MeanDepth(c: Counters): Option<real> {
    if c.cycles == 0 then None else Some(c.depth as real / c.cycles as real)
  }

  lemma {:induction false} ReachedIsAttempted(cycles: seq<Cycle>, i: nat)
    requires i < Deepest(cycles)
    ensures Attempting(cycles, i) > 0
  {
    if i < Deepest(cycles[..|cycles| - 1]) {
      ReachedIsAttempted(cycles[..|cycles| - 1], i);
    }
  }

  lemma {:induction false} AcceptedWithinDepth(cycles: seq<Cycle>)
    ensures Recorded(cycles).accepted <= Recorded(cycles).depth
  {
    if cycles != [] { AcceptedWithinDepth(cycles[..|cycles| - 1]); }
  }

  lemma QuotientOrder(a: nat, b: nat, n: nat)
    requires n > 0 && a <= b
    ensures 0.0 <= a as real / n as real <= b as real / n as real
  {
  }

  lemma SelfQuotient(n: nat)
    requires n > 0
    ensures n as real / n as real == 1.0
  {
  }

  /** The summary over every history: rate `i` is the share of the cycles that drafted position `i` which
      accepted it, the guard against a position nobody drafted is never needed, and the mean number of
      accepted drafts is at most the mean depth. */
  lemma SummaryMeans(cycles: seq<Cycle>)
    ensures AcceptanceSummary(Recorded(cycles)).None? <==> cycles == []
    ensures cycles != [] ==>
              var s := AcceptanceSummary(Recorded(cycles)).value;
              && s.cycles == Min(|cycles|, MAX_U32)
              && |s.rates| == Deepest(cycles)
              && (forall i :: 0 <= i < |s.rates| ==>
                    Attempting(cycles, i) > 0
                    && s.rates[i] == Accepting(cycles, i) as real / Attempting(cycles, i) as real
                    && 0.0 <= s.rates[i] <= 1.0)
              && 0.0 <= s.mean <= MeanDepth(Recorded(cycles)).value
  {
    hide Recorded, Attempting, Accepting, Deepest;
    CountersCountCycles(cycles);
    if cycles != [] {
      var c := Recorded(cycles);
      var s := AcceptanceSummary(c).value;
      AcceptedWithinDepth(cycles);
      QuotientOrder(c.accepted, c.depth, c.cycles);
      forall i | 0 <= i < |s.rates|
        ensures Attempting(cycles, i) > 0
        ensures s.rates[i] == Accepting(cycles, i) as real / Attempting(cycles, i) as real
        ensures 0.0 <= s.rates[i] <= 1.0
      {
        ReachedIsAttempted(cycles, i);
        ReachesLess(cycles, i);
        QuotientOrder(Accepting(cycles, i), Attempting(cycles, i), Attempting(cycles, i));
        SelfQuotient(Attempting(cycles, i));
      }
    }
  }

  // ---------------------------------------------------------------- phases

  datatype Stats = Stats(total: nat, count: nat)

  datatype Frame = Frame(name: string, start: nat)

  datatype Phases = Phases(stats: map<string, Stats>, order: seq<string>, stack: seq<Frame>)

  const NO_PHASES := Phases(map[], [], [])

  function Registered(p: Phases, name: string): Phases {
    if name in p.stats then p else p.(stats := p.stats[name := Stats(0, 0)], order := p.order + [name])
  }

  function Accumulated(p: Phases, name: string, elapsed: nat): Phases {
    if name in p.stats then p.(stats := p.stats[name := Stats(p.stats[name].total + elapsed, p.stats[name].count + 1)]) else p
  }

  function AfterBegin(p: Phases, name: string, now: nat): Phases {
    var r := Registered(p, name);
    r.(stack := r.stack + [Frame(name, now)])
  }

  function AfterEnd(p: Phases, now: nat): Phases {
    if p.stack == [] then p
    else
      var top := p.stack[|p.stack| - 1];
      Accumulated(p.(stack := p.stack[..|p.stack| - 1]), top.name, if now >= top.start then now - top.start else 0)
  }

  datatype Event = Began(name: string, now: nat) | Ended(now: nat) | Lasted(name: string, elapsed: nat)

  function AfterEvent(p: Phases, e: Event): Phases {
    match e
    case Began(name, now) => AfterBegin(p, name, now)
    case Ended(now) => AfterEnd(p, now)
    case Lasted(name, elapsed) => Accumulated(Registered(p, name), name, elapsed)
  }

  /** The profiler's phases after a run of calls, stray ends included. */
  function After(events: seq<Event>): Phases {
    if events == [] then NO_PHASES else AfterEvent(After(events[..|events| - 1]), events[|events| - 1])
  }

  /** The names in the order of their first appearance: the reference for the report order. */
  function FirstSeen(events: seq<Event>): seq<string> {
    if events == [] then []
    else
      var seen := FirstSeen(events[..|events| - 1]);
      match events[|events| - 1]
      case Ended(_) => seen
      case Began(name, _) => if name in seen then seen else seen + [name]
      case Lasted(name, _) => if name in seen then seen else seen + [name]
  }

  /** The open frames by themselves. */
  function Open(events: seq<Event>): seq<Frame> {
    if events == [] then []
    else
      var frames := Open(events[..|events| - 1]);
      match events[|events| - 1]
      case Began(name, now) => frames + [Frame(name, now)]
      case Ended(_) => if frames == [] then frames else frames[..|frames| - 1]
      case Lasted(_, _) => frames
  }

  /** The length of the span of `name` that an event completes, given the open frames: the top frame closed
      by an end, or a recorded duration. */
  function Span(frames: seq<Frame>, e: Event, name: string): Option<nat> {
    match e
    case Began(_, _) => None
    case Lasted(n, elapsed) => if n == name then Some(elapsed) else None
    case Ended(now) =>
      if frames == [] || frames[|frames| - 1].name != name then None
      else
        var start := frames[|frames| - 1].start;
        Some(if now >= start then now - start else 0)
  }

  function WithSpan(s: Stats, span: Option<nat>): Stats {
    match span
    case None => s
    case Some(elapsed) => Stats(s.total + elapsed, s.count + 1)
  }

  /** Time and number of the completed spans of `name`. */
  function Completed(events: seq<Event>, name: string): Stats {
    if events == [] then Stats(0, 0)
    else
      var before, last := events[..|events| - 1], events[|events| - 1];
      WithSpan(Completed(before, name), Span(Open(before), last, name))
  }

  /** The order lists the registered phases once each, and every open frame is registered. */
  ghost predicate WellFormed(p: Phases) {
    && (forall name :: name in p.stats <==> name in p.order)
    && Distinct(p.order)
    && (forall i :: 0 <= i < |p.stack| ==> p.stack[i].name in p.stats)
  }

  lemma RegisterKeepsForm(p: Phases, name: string)
    requires WellFormed(p)
    ensures WellFormed(Registered(p, name)) && name in Registered(p, name).stats
  {
  }

  lemma StepKeepsForm(p: Phases, name: string, now: nat, elapsed: nat)
    requires WellFormed(p)
    ensures WellFormed(AfterBegin(p, name, now)) && WellFormed(AfterEnd(p, now))
    ensures WellFormed(Accumulated(Registered(p, name), name, elapsed))
  {
    RegisterKeepsForm(p, name);
  }

  /** For every run of calls, stray ends included, the report order lists each phase once, in first-seen
      order. */
  lemma {:induction false} OrderIsFirstSeen(events: seq<Event>)
    ensures WellFormed(After(events)) && After(events).order == FirstSeen(events) && After(events).stack == Open(events)
  {
    if events != [] {
      OrderIsFirstSeen(events[..|events| - 1]);
      var p := After(events[..|events| - 1]);
      match events[|events| - 1]
      case Began(name, now) => StepKeepsForm(p, name, now, 0);
      case Ended(now) => StepKeepsForm(p, "", now, 0);
      case Lasted(name, elapsed) => StepKeepsForm(p, name, 0, elapsed);
    }
  }

  lemma TopIsRegistered(p: Phases)
    requires WellFormed(p)
    ensures p.stack != [] ==> p.stack[|p.stack| - 1].name in p.stats
  {
  }

  function StatsOf(p: Phases, name: string): Stats {
    if name in p.stats then p.stats[name] else Stats(0, 0)
  }

  /** One event accumulates the span it completes, and nothing else. */
  lemma EventStats(p: Phases, e: Event, name: string)
    requires WellFormed(p)
    ensures StatsOf(AfterEvent(p, e), name) == WithSpan(StatsOf(p, name), Span(p.stack, e, name))
  {
    TopIsRegistered(p);
    hide WellFormed;
  }

  /** Every completed span, and nothing else, has been accumulated under its own phase. */
  lemma {:induction false} SpansAreAccumulated(events: seq<Event>, name: string)
    ensures Completed(events, name) == StatsOf(After(events), name)
  {
    if events != [] {
      hide WellFormed, FirstSeen, Open, StatsOf, AfterEvent, Span, WithSpan;
      var before := events[..|events| - 1];
      SpansAreAccumulated(before, name);
      OrderIsFirstSeen(before);
      EventStats(After(before), events[|events| - 1], name);
    }
  }

  /** The profiler with the history of its calls: `cycles` lists the recorded cycles, `events` the phase
      calls made while it was enabled. */
  class Profiler {
    const enabled: bool
    var counters: Counters
    var phases: Phases
    ghost var cycles: seq<Cycle>
    ghost var events: seq<Event>

    ghost predicate Valid()
      reads this
    {
      counters == Recorded(cycles) && phases == After(events)
    }

    constructor (enabled: bool)
      ensures Valid() && this.enabled == enabled && cycles == [] && events == []
    {
      this.enabled := enabled;
      counters, phases := ZERO, NO_PHASES;
      cycles, events := [], [];
    }

    /** Not gated on `enabled`: the counters must reach the metrics whenever they are reported. */
    method RecordMtpCycle(depth: nat, acceptedDrafts: nat)
      requires Valid()
      modifies `counters, `cycles
      ensures Valid() && cycles == old(cycles) + [Cycle(depth, acceptedDrafts)]
    {
      hide Recorded, After, Resized, Bumped;
      ghost var before := counters;
      var k := Min(acceptedDrafts, depth);
      var attempts := Increment(Resized(counters.attempts, depth), depth);
      var accepts := Increment(Resized(counters.accepts, depth), k);
      counters := Counters(counters.cycles + 1, counters.accepted + k, counters.depth + depth, attempts, accepts);
      RecordedNext(cycles, Cycle(depth, acceptedDrafts));
      cycles := cycles + [Cycle(depth, acceptedDrafts)];
    }

    method Begin(name: string, now: nat)
      requires Valid()
      modifies `phases, `events
      ensures Valid() && events == if enabled then old(events) + [Began(name, now)] else old(events)
    {
      if !enabled {
        return;
      }
      hide Recorded, After;
      AfterNext(events, Began(name, now));
      phases := Registered(phases, name);
      phases := phases.(stack := phases.stack + [Frame(name, now)]);
      events := events + [Began(name, now)];
    }

    method End(now: nat)
      requires Valid()
      modifies `phases, `events
      ensures Valid() && events == if enabled then old(events) + [Ended(now)] else old(events)
    {
      if !enabled {
        return;
      }
      hide Recorded, After, Accumulated;
      AfterNext(events, Ended(now));
      events := events + [Ended(now)];
      if |phases.stack| == 0 {
        return;
      }
      var top := phases.stack[|phases.stack| - 1];
      phases := phases.(stack := phases.stack[..|phases.stack| - 1]);
      phases := Accumulated(phases, top.name, if now >= top.start then now - top.start else 0);
    }

    method RecordDuration(name: string, elapsed: nat)
      requires Valid()
      modifies `phases, `events
      ensures Valid() && events == if enabled then old(events) + [Lasted(name, elapsed)] else old(events)
    {
      if !enabled {
        return;
      }
      hide Recorded, After, Accumulated, Registered;
      AfterNext(events, Lasted(name, elapsed));
      phases := Registered(phases, name);
      phases := Accumulated(phases, name, elapsed);
      events := events + [Lasted(name, elapsed)];
    }

    /** What the profiler reports, in terms of what has been called. */
    method Report() returns (summary: Option<Summary>, order: seq<string>, stats: map<string, Stats>)
      requires Valid()
      ensures summary == AcceptanceSummary(Recorded(cycles))
      ensures order == FirstSeen(events) && Distinct(order)
      ensures forall name :: name in order <==> name in stats
      ensures forall name :: name in stats ==> stats[name] == Completed(events, name)
    {
      hide Recorded, After, FirstSeen, Completed, AcceptanceSummary;
      summary, order, stats := AcceptanceSummary(counters), phases.order, phases.stats;
      OrderIsFirstSeen(events);
      forall name | name in stats ensures stats[name] == Completed(events, name) {
        SpansAreAccumulated(events, name);
      }
    }
  }

  lemma RecordedNext(cycles: seq<Cycle>, cycle: Cycle)
    ensures Recorded(cycles + [cycle]) == AfterCycle(Recorded(cycles), cycle)
  {
    hide AfterCycle;
    assert (cycles + [cycle])[..|cycles|] == cycles;
  }

  lemma AfterNext(events: seq<Event>, e: Event)
    ensures After(events + [e]) == AfterEvent(After(events), e)
  {
    hide AfterBegin, AfterEnd, Accumulated, Registered;
    assert (events + [e])[..|events|] == events;
  }

  /** The increment loop over a prefix. */
  method Increment(s: seq<nat>, n: nat) returns (r: seq<nat>)
    requires n <= |s|
    ensures r == Bumped(s, n)
  {
    r := s;
    for i := 0 to n
      invariant |r| == |s| && forall j :: 0 <= j < |r| ==> r[j] == s[j] + if j < i then 1 else 0
    {
      r := r[i := r[i] + 1];
    }
  }
}

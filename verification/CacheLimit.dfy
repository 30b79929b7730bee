/** The process-wide cache-limit coordinator of `cache_limit.rs`: live weight totals, a memo of the
    last applied cap, an environment override and a fallible call into the allocator. The two
    environment variables, the wired limit and the outcome of the call are inputs of every step. */
module CacheLimit {
  import opened Wrappers
  import opened Arithmetic
  import opened Floats

  const MAX_U64: nat := 0xFFFF_FFFF_FFFF_FFFF
  type u64 = x: nat | x <= MAX_U64

  const GIB: nat := 0x4000_0000
  const MIN_FREELIST_BYTES: u64 := GIB

  /** An environment variable that is to be parsed as a float. */
  datatype EnvVar = Unset | Unparseable | Number(float: Float)

  datatype Env = Env(cacheLimit: EnvVar, headroom: EnvVar, wired: u64, applies: bool)

  // ---------------------------------------------------------------- arithmetic

  function Saturate(x: nat): (r: u64) {
    if x > MAX_U64 then MAX_U64 else x
  }

  /** Rounding to the nearest integer and the saturating cast to 64 bits. */
  function RoundBytes(x: real): (r: u64) {
    if x <= 0.0 then 0 else Saturate((x + 0.5).Floor)
  }

  /** An amount in GiB as bytes; not-a-number casts to zero. */
  function Bytes(f: Float): (r: u64) {
    match f
    case NaN => 0
    case NegInf => 0
    case PosInf => MAX_U64
    case Finite(gib) => RoundBytes(gib * (GIB as real))
  }

  function MetalOverhead(wired: u64): nat {
    Max(4 * GIB, wired / 20)
  }

  function UserHeadroom(wired: u64, headroom: EnvVar): nat {
    match headroom
    case Number(Finite(gib)) => if gib >= 0.0 then Bytes(Finite(gib)) else Max(4 * GIB, wired / 10)
    case _ => Max(4 * GIB, wired / 10)
  }

  function ComputeCacheLimit(weights: u64, wired: u64, headroom: EnvVar): u64 {
    if wired == 0 then Saturate(weights * 3) / 2
    else
      var reserved := Saturate(Saturate(weights + MetalOverhead(wired)) + UserHeadroom(wired, headroom));
      if wired <= reserved then MIN_FREELIST_BYTES
      else Max(wired - reserved, MIN_FREELIST_BYTES)
  }

  /** What is given to the free list and what is reserved use up the wired limit exactly, unless the
      cap is the floor; a cap is never zero. */
  lemma CapUsesTheBudget(weights: u64, wired: u64, headroom: EnvVar)
    requires wired > 0
    ensures var cap := ComputeCacheLimit(weights, wired, headroom);
            && cap >= MIN_FREELIST_BYTES
            && (cap == MIN_FREELIST_BYTES || weights + MetalOverhead(wired) + UserHeadroom(wired, headroom) + cap == wired)
            && (cap > MIN_FREELIST_BYTES <==> weights + MetalOverhead(wired) + UserHeadroom(wired, headroom) + MIN_FREELIST_BYTES < wired)
  {
  }

  lemma CapPositive(weights: u64, wired: u64, headroom: EnvVar)
    requires weights > 0
    ensures ComputeCacheLimit(weights, wired, headroom) > 0
  {
  }

  /** When more weights raise or lower the cap: it falls with the weights until it meets the floor. */
  lemma CapRisesExactlyWhen(before: u64, after: u64, wired: u64, headroom: EnvVar)
    requires wired > 0
    ensures ComputeCacheLimit(after, wired, headroom) > ComputeCacheLimit(before, wired, headroom)
            <==> after < before
                 && after + MetalOverhead(wired) + UserHeadroom(wired, headroom) + MIN_FREELIST_BYTES < wired
  {
    CapUsesTheBudget(before, wired, headroom);
    CapUsesTheBudget(after, wired, headroom);
  }

  // ---------------------------------------------------------------- the state machine

  /** `cap` is the ceiling the allocator currently enforces; none is its own default. */
  datatype Coord = Coord(nextId: u64, profiles: map<u64, u64>, lastApplied: Option<u64>, cap: Option<u64>)

  const INITIAL := Coord(1, map[], None, None)

  ghost function Total(profiles: map<u64, u64>): nat {
    if profiles == map[] then 0
    else
      var k :| k in profiles;
      profiles[k] + Total(profiles - {k})
  }

  function ApplyLimit(c: Coord, bytes: u64, applies: bool): Coord {
    if applies then c.(lastApplied := Some(bytes), cap := Some(bytes)) else c
  }

  predicate IsOverride(v: EnvVar) {
    v.Number?
  }

  predicate Disables(f: Float) {
    f.NegInf? || (f.Finite? && f.value <= 0.0)
  }

  ghost function Recompute(c: Coord, env: Env): Coord {
    match env.cacheLimit
    case Number(f) =>
      if Disables(f) then c.(lastApplied := Some(0))
      else if c.lastApplied == Some(Bytes(f)) then c
      else ApplyLimit(c, Bytes(f), env.applies)
    case _ =>
      var weights := Saturate(Total(c.profiles));
      if c.profiles == map[] || weights == 0 then c
      else
        var limit := ComputeCacheLimit(weights, env.wired, env.headroom);
        if limit == 0 || c.lastApplied == Some(limit) then c
        else ApplyLimit(c, limit, env.applies)
  }

  ghost function AfterRegister(c: Coord, weights: u64, env: Env): Coord {
    Recompute(c.(nextId := Saturate(c.nextId + 1), profiles := c.profiles[c.nextId := weights]), env)
  }

  ghost function AfterDrop(c: Coord, id: u64, env: Env): Coord {
    if id in c.profiles then Recompute(c.(profiles := c.profiles - {id}), env) else c
  }

  // ---------------------------------------------------------------- the coordinator

  class CacheLimitCoordinator {
    var nextId: u64
    var profiles: map<u64, u64>
    var lastApplied: Option<u64>
    var cap: Option<u64>

    ghost function Contents(): Coord
      reads this
    {
      Coord(nextId, profiles, lastApplied, cap)
    }

    constructor ()
      ensures Contents() == INITIAL
    {
      nextId, profiles, lastApplied, cap := 1, map[], None, None;
    }

    method Register(weights: u64, env: Env) returns (id: u64)
      modifies this
      ensures id == old(nextId) && Contents() == AfterRegister(old(Contents()), weights, env)
    {
      id := nextId;
      nextId := Saturate(nextId + 1);
      profiles := profiles[id := weights];
      RecomputeLocked(env);
    }

    method Unregister(id: u64, env: Env)
      modifies this
      ensures Contents() == AfterDrop(old(Contents()), id, env)
    {
      if id in profiles {
        profiles := profiles - {id};
        RecomputeLocked(env);
      }
    }

    method RecomputeLocked(env: Env)
      modifies this
      ensures Contents() == Recompute(old(Contents()), env)
    {
      hide Bytes, ComputeCacheLimit;
      if env.cacheLimit.Number? {
        if Disables(env.cacheLimit.float) {
          lastApplied := Some(0);
          return;
        }
        var bytes := Bytes(env.cacheLimit.float);
        if lastApplied != Some(bytes) && env.applies {
          cap := Some(bytes);
          lastApplied := Some(bytes);
        }
        return;
      }
      if profiles == map[] {
        return;
      }
      var summedWeights := SaturatingSum(profiles);
      if summedWeights == 0 {
        return;
      }
      var limit := ComputeCacheLimit(summedWeights, env.wired, env.headroom);
      if limit == 0 || lastApplied == Some(limit) {
        return;
      }
      if env.applies {
        cap := Some(limit);
        lastApplied := Some(limit);
      }
    }
  }

  /** The saturating fold over the live totals, in any order. */
  method SaturatingSum(profiles: map<u64, u64>) returns (sum: u64)
    ensures sum == Saturate(Total(profiles))
  {
    hide Saturate, Total;
    sum := 0;
    var rest: map<u64, u64> := profiles;
    while rest != map[]
      invariant Saturate(sum + Total(rest)) == Saturate(Total(profiles))
      decreases |rest|
    {
      var id: u64 := AnyKey(rest);
      SumStep(sum, rest, id);
      sum := Saturate(sum + rest[id]);
      rest := rest - {id};
    }
    SumDone(sum, rest);
  }

  lemma SumStep(sum: u64, rest: map<u64, u64>, id: u64)
    requires id in rest
    ensures Saturate(Saturate(sum + rest[id]) + Total(rest - {id})) == Saturate(sum + Total(rest))
    ensures |rest - {id}| < |rest|
  {
    hide Total;
    TotalRemove(rest, id);
    SaturateTwice(sum, rest[id], Total(rest - {id}));
    assert (rest - {id}).Keys == rest.Keys - {id};
  }

  lemma SumDone(sum: u64, rest: map<u64, u64>)
    requires rest == map[]
    ensures Saturate(sum + Total(rest)) == sum
  {
  }

  method AnyKey(profiles: map<u64, u64>) returns (id: u64)
    requires profiles != map[]
    ensures id in profiles
  {
    assert profiles.Keys != {};
    id :| id in profiles;
  }

  lemma SaturateTwice(a: nat, b: nat, c: nat)
    ensures Saturate(Saturate(a + b) + c) == Saturate(a + (b + c))
  {
  }

  /** The total does not depend on the order of summation. */
  lemma {:induction false} TotalRemove(profiles: map<u64, u64>, id: u64)
    requires id in profiles
    ensures Total(profiles) == profiles[id] + Total(profiles - {id})
    decreases |profiles|
  {
    var k: u64 :| k in profiles && Total(profiles) == profiles[k] + Total(profiles - {k});
    if k != id {
      TotalRemove(profiles - {k}, id);
      TotalRemove(profiles - {id}, k);
      assert (profiles - {k}) - {id} == (profiles - {id}) - {k};
    }
  }

  lemma TotalAdd(profiles: map<u64, u64>, id: u64, weights: u64)
    requires id !in profiles
    ensures Total(profiles[id := weights]) == Total(profiles) + weights
  {
    TotalRemove(profiles[id := weights], id);
    assert profiles[id := weights] - {id} == profiles;
  }

  // ---------------------------------------------------------------- whole runs

  datatype Event = Register(weights: u64, env: Env) | Drop(id: u64, env: Env)

  ghost function Step(c: Coord, e: Event): Coord {
    match e
    case Register(weights, env) => AfterRegister(c, weights, env)
    case Drop(id, env) => AfterDrop(c, id, env)
  }

  ghost function Run(events: seq<Event>): Coord {
    if events == [] then INITIAL else Step(Run(events[..|events| - 1]), events[|events| - 1])
  }

  /** Every registration recomputes the cap, and every drop of a live guard. */
  predicate Recomputes(c: Coord, e: Event) {
    e.Register? || e.id in c.profiles
  }

  /** A non-zero memo is the cap in force. */
  ghost predicate MemoIsCap(c: Coord) {
    c.lastApplied.Some? && c.lastApplied.value != 0 ==> c.cap == c.lastApplied
  }

  lemma RecomputeKeepsMemo(c: Coord, env: Env)
    requires MemoIsCap(c)
    ensures MemoIsCap(Recompute(c, env))
  {
  }

  /** Over every run of registrations and drops, with arbitrary failures and environment values. */
  lemma {:induction false} MemoIsAlwaysCap(events: seq<Event>)
    ensures MemoIsCap(Run(events))
  {
    hide Recompute, Total;
    if events != [] {
      var c, e := Run(events[..|events| - 1]), events[|events| - 1];
      MemoIsAlwaysCap(events[..|events| - 1]);
      match e
      case Register(weights, env) =>
        RecomputeKeepsMemo(c.(nextId := Saturate(c.nextId + 1), profiles := c.profiles[c.nextId := weights]), env);
      case Drop(id, env) =>
        RecomputeKeepsMemo(c.(profiles := c.profiles - {id}), env);
    }
  }

  /** After a recompute without override, with live weights and a call that succeeds if made, the cap
      is the one computed for the live total. */
  lemma CapIsComputed(c: Coord, env: Env)
    requires MemoIsCap(c) && !IsOverride(env.cacheLimit) && env.applies && Total(c.profiles) > 0
    ensures Recompute(c, env).cap == Some(ComputeCacheLimit(Saturate(Total(c.profiles)), env.wired, env.headroom))
  {
    hide ComputeCacheLimit;
    CapPositive(Saturate(Total(c.profiles)), env.wired, env.headroom);
  }

  lemma CapAfterEvent(events: seq<Event>, e: Event)
    requires !IsOverride(e.env.cacheLimit) && e.env.applies && Total(Run(events + [e]).profiles) > 0
    requires Recomputes(Run(events), e)
    ensures Run(events + [e]).cap
            == Some(ComputeCacheLimit(Saturate(Total(Run(events + [e]).profiles)), e.env.wired, e.env.headroom))
  {
    hide Recompute, ComputeCacheLimit, Run, Total, MemoIsCap;
    MemoIsAlwaysCap(events);
    RunAppend(events, e);
    var c := Run(events);
    match e
    case Register(weights, env) =>
      Recomputed(c, c.(nextId := Saturate(c.nextId + 1), profiles := c.profiles[c.nextId := weights]), env);
    case Drop(id, env) =>
      Recomputed(c, c.(profiles := c.profiles - {id}), env);
  }

  lemma Recomputed(c: Coord, c': Coord, env: Env)
    requires MemoIsCap(c) && c'.lastApplied == c.lastApplied && c'.cap == c.cap
    requires !IsOverride(env.cacheLimit) && env.applies && Total(Recompute(c', env).profiles) > 0
    ensures Recompute(c', env).cap
            == Some(ComputeCacheLimit(Saturate(Total(Recompute(c', env).profiles)), env.wired, env.headroom))
  {
    hide Recompute, ComputeCacheLimit, Total;
    RecomputeKeepsProfiles(c', env);
    CapIsComputed(c', env);
  }

  lemma RecomputeKeepsProfiles(c: Coord, env: Env)
    ensures Recompute(c, env).profiles == c.profiles && Recompute(c, env).nextId == c.nextId
  {
  }

  // ---------------------------------------------------------------- does a registration raise the cap?

  /** When a recompute raises a known cap: the call succeeds, and the override asks for more, or without
      override the live total leaves more. */
  ghost predicate Raises(total: nat, cap: u64, env: Env) {
    env.applies &&
    match env.cacheLimit
    case Number(f) => !Disables(f) && Bytes(f) > cap
    case _ =>
      && total > 0
      && if env.wired == 0 then Saturate(Saturate(total) * 3) / 2 > cap
         else cap < MIN_FREELIST_BYTES
              || Saturate(total) + MetalOverhead(env.wired) + UserHeadroom(env.wired, env.headroom) + cap < env.wired
  }

  lemma ComputedAbove(weights: u64, cap: u64, wired: u64, headroom: EnvVar)
    requires wired > 0
    ensures ComputeCacheLimit(weights, wired, headroom) > cap
            <==> cap < MIN_FREELIST_BYTES || weights + MetalOverhead(wired) + UserHeadroom(wired, headroom) + cap < wired
  {
    hide ComputeCacheLimit, MetalOverhead, UserHeadroom;
    CapUsesTheBudget(weights, wired, headroom);
  }

  lemma RecomputeRaises(c: Coord, env: Env, cap: u64)
    requires MemoIsCap(c) && c.cap == Some(cap)
    ensures Recompute(c, env).cap.Some?
    ensures Recompute(c, env).cap.value > cap <==> Raises(Total(c.profiles), cap, env)
  {
    hide ComputeCacheLimit, MetalOverhead, UserHeadroom, Bytes, Total;
    var total := Total(c.profiles);
    NothingLive(c.profiles);
    if !IsOverride(env.cacheLimit) && total > 0 {
      if env.applies { CapIsComputed(c, env); }
      if env.wired > 0 {
        ComputedAbove(Saturate(total), cap, env.wired, env.headroom);
      } else {
        NoWiredLimit(Saturate(total), env.headroom);
      }
    }
  }

  lemma NoWiredLimit(weights: u64, headroom: EnvVar)
    ensures ComputeCacheLimit(weights, 0, headroom) == Saturate(weights * 3) / 2
  {
  }

  lemma NothingLive(profiles: map<u64, u64>)
    ensures profiles == map[] ==> Total(profiles) == 0
  {
  }

  /** Over every run, for every environment and whatever set the cap in force: when a registration raises
      it. */
  lemma RegisterRaisesExactlyWhen(events: seq<Event>, weights: u64, env: Env, cap: u64)
    requires Run(events).cap == Some(cap)
    ensures var after := Run(events + [Register(weights, env)]);
            after.cap.Some? && (after.cap.value > cap <==> Raises(Total(after.profiles), cap, env))
  {
    hide Recompute, Run, Raises, Total;
    var c, id := Run(events), Run(events).nextId;
    MemoIsAlwaysCap(events);
    RunAppend(events, Register(weights, env));
    var c' := c.(nextId := Saturate(c.nextId + 1), profiles := c.profiles[id := weights]);
    RecomputeKeepsProfiles(c', env);
    RecomputeRaises(c', env, cap);
  }

  /** In particular a cap that was computed for the live weights, in the same environment, never rises on a
      registration. */
  lemma ComputedCapNeverRises(events: seq<Event>, weights: u64, env: Env)
    requires Registrations(events) < MAX_U64 && !IsOverride(env.cacheLimit) && env.wired > 0
    requires Run(events).cap == Some(ComputeCacheLimit(Saturate(Total(Run(events).profiles)), env.wired, env.headroom))
    ensures var after := Run(events + [Register(weights, env)]);
            after.cap.Some? && after.cap.value <= Run(events).cap.value
  {
    hide Recompute, Run, Total, ComputeCacheLimit, MetalOverhead, UserHeadroom;
    var c, cap := Run(events), Run(events).cap.value;
    RegisterRaisesExactlyWhen(events, weights, env, cap);
    ProfilesAreLive(events);
    RunAppend(events, Register(weights, env));
    RecomputeKeepsProfiles(c.(nextId := Saturate(c.nextId + 1), profiles := c.profiles[c.nextId := weights]), env);
    TotalAdd(c.profiles, c.nextId, weights);
    CapUsesTheBudget(Saturate(Total(c.profiles)), env.wired, env.headroom);
  }

  /** A run in which a registration does raise the cap: the last model unloads, the coordinator leaves its
      cap in place, and a smaller model loads. */
  lemma ReloadRaisesCap() returns (events: seq<Event>)
    ensures |events| == 3 && events[2].Register?
    ensures Run(events[..2]).cap.Some? && Run(events).cap.Some?
    ensures Run(events).cap.value > Run(events[..2]).cap.value
  {
    hide ComputeCacheLimit, Total, Run, Recompute;
    var env := Env(Unset, Unset, 96 * GIB, true);
    var load, unload := Register(20 * GIB, env), Drop(1, env);
    events := [load, unload, Register(10 * GIB, env)];
    RunStart();
    RunAppend([], load);
    assert [] + [load] == [load];
    FirstLoad(20 * GIB, env);
    RunAppend([load], unload);
    var cap := Run([load]).cap.value;
    assert map[1 := 20 * GIB] - {1} == map[];
    Unloaded(Run([load]), env);
    assert [load] + [unload] == [load, unload] == events[..2];
    assert events[..2] + [events[2]] == events;
    RunAppend(events[..2], events[2]);
    RecomputeKeepsProfiles(Coord(3, map[2 := 10 * GIB], Run([load]).lastApplied, Some(cap)), env);
    assert map[][2 := 10 * GIB] == map[2 := 10 * GIB];
    SingleTotal(2, 10 * GIB);
    RegisterRaisesExactlyWhen(events[..2], 10 * GIB, env, cap);
  }

  lemma Unloaded(c: Coord, env: Env)
    requires !IsOverride(env.cacheLimit)
    ensures Recompute(c.(profiles := map[]), env) == c.(profiles := map[])
  {
    hide Total, ComputeCacheLimit;
  }

  /** The first model of a run: 56 GiB of 96 are left beside 20 GiB of weights. */
  lemma FirstLoad(weights: u64, env: Env)
    requires weights == 20 * GIB && env == Env(Unset, Unset, 96 * GIB, true)
    ensures var c := AfterRegister(INITIAL, weights, env);
            && c.nextId == 2 && c.profiles == map[1 := weights] && c.cap.Some?
            && c.cap.value + 20 * GIB + MetalOverhead(96 * GIB) + UserHeadroom(96 * GIB, Unset) == 96 * GIB
  {
    hide Total, ComputeCacheLimit, Recompute;
    var c := INITIAL.(nextId := 2, profiles := map[1 := weights]);
    RecomputeKeepsProfiles(c, env);
    SingleTotal(1, weights);
    CapIsComputed(c, env);
    CapUsesTheBudget(weights, 96 * GIB, Unset);
  }

  lemma RunStart()
    ensures Run([]) == INITIAL
  {
  }

  lemma RunAppend(events: seq<Event>, e: Event)
    ensures Run(events + [e]) == Step(Run(events), e)
  {
    hide Step;
    assert (events + [e])[..|events|] == events;
  }

  lemma SingleTotal(id: u64, weights: u64)
    ensures Total(map[id := weights]) == weights
  {
    var m := map[id := weights];
    TotalRemove(m, id);
    assert m - {id} == map[];
  }

  // ---------------------------------------------------------------- a cap of zero

  /** Positive amounts below half a byte: they are not disabled, but round to nothing. */
  predicate RoundsToZero(f: Float) {
    f.NaN? || (f.Finite? && 0.0 < f.value && f.value * 2147483648.0 < 1.0)
  }

  lemma ZeroBytes(f: Float)
    ensures !Disables(f) && Bytes(f) == 0 <==> RoundsToZero(f)
  {
    if f.Finite? && f.value > 0.0 {
      var x := f.value * (GIB as real);
      assert x + x == f.value * 2147483648.0;
      assert x > 0.0;
      RoundsDown(x);
    }
  }

  lemma RoundsDown(x: real)
    requires x > 0.0
    ensures RoundBytes(x) == 0 <==> x + x < 1.0
  {
    assert (x + 0.5).Floor >= 1 <==> x + 0.5 >= 1.0;
  }

  lemma RecomputeZero(c: Coord, env: Env)
    requires c.cap != Some(0)
    ensures Recompute(c, env).cap == Some(0)
            <==> env.applies && c.lastApplied != Some(0) && env.cacheLimit.Number? && RoundsToZero(env.cacheLimit.float)
  {
    hide ComputeCacheLimit, Bytes, Total, RoundsToZero;
    if env.cacheLimit.Number? { ZeroBytes(env.cacheLimit.float); }
  }

  /** Over every run: a free-list cap of zero is set exactly by a successful recompute under an override that
      is not a number, or positive but below half a byte, unless the memo already says zero. */
  lemma ZeroCapExactlyWhen(events: seq<Event>, e: Event)
    requires Run(events).cap != Some(0)
    ensures Run(events + [e]).cap == Some(0)
            <==> && Recomputes(Run(events), e) && e.env.applies && Run(events).lastApplied != Some(0)
                 && e.env.cacheLimit.Number? && RoundsToZero(e.env.cacheLimit.float)
  {
    hide Recompute, Run, RoundsToZero;
    var c := Run(events);
    RunAppend(events, e);
    match e
    case Register(weights, env) =>
      RecomputeZero(c.(nextId := Saturate(c.nextId + 1), profiles := c.profiles[c.nextId := weights]), env);
    case Drop(id, env) =>
      RecomputeZero(c.(profiles := c.profiles - {id}), env);
  }

  /** The first model of a process loaded under `MLX_CACHE_LIMIT_GB=nan`, or under `1e-10`, gets a cap of
      zero. */
  lemma ZeroCaps(weights: u64, f: Float, wired: u64)
    requires f == NaN || f == Finite(0.0000000001)
    ensures Run([Register(weights, Env(Number(f), Unset, wired, true))]).cap == Some(0)
  {
    hide Recompute, Run;
    RunStart();
    var e := Register(weights, Env(Number(f), Unset, wired, true));
    ZeroCapExactlyWhen([], e);
    assert [] + [e] == [e];
  }

  // ---------------------------------------------------------------- guards

  ghost function Registrations(events: seq<Event>): nat {
    if events == [] then 0
    else Registrations(events[..|events| - 1]) + if events[|events| - 1].Register? then 1 else 0
  }

  /** The footprints of the models loaded and not yet dropped, by registration number. */
  ghost function Live(events: seq<Event>): map<nat, u64> {
    if events == [] then map[]
    else
      var before := Live(events[..|events| - 1]);
      match events[|events| - 1]
      case Register(weights, _) => before[Registrations(events) := weights]
      case Drop(id, _) => before - {id}
  }

  /** Until the id counter saturates, every live model is accounted for under its own guard. */
  lemma {:induction false} ProfilesAreLive(events: seq<Event>)
    requires Registrations(events) < MAX_U64
    ensures Run(events).nextId == Registrations(events) + 1
    ensures Run(events).profiles == Live(events)
    ensures forall id :: id in Live(events) ==> 1 <= id <= Registrations(events)
  {
    hide Recompute;
    if events != [] {
      ProfilesAreLive(events[..|events| - 1]);
      var c, e := Run(events[..|events| - 1]), events[|events| - 1];
      match e
      case Register(weights, env) =>
        RecomputeKeepsProfiles(c.(nextId := Saturate(c.nextId + 1), profiles := c.profiles[c.nextId := weights]), env);
      case Drop(id, env) =>
        RecomputeKeepsProfiles(c.(profiles := c.profiles - {id}), env);
        if id !in c.profiles { assert c.profiles - {id} == c.profiles; }
    }
  }

  /** Loading a model and dropping it again restores the live weights, and the cap computed for them. */
  lemma RegisterThenDrop(events: seq<Event>, weights: u64, env: Env, env': Env)
    requires Registrations(events) + 1 < MAX_U64
    requires !IsOverride(env'.cacheLimit) && env'.applies && Total(Run(events).profiles) > 0
    ensures var id := Run(events).nextId;
            var after := Run(events + [Register(weights, env)] + [Drop(id, env')]);
            && id !in Run(events).profiles && after.profiles == Run(events).profiles
            && after.cap == Some(ComputeCacheLimit(Saturate(Total(Run(events).profiles)), env'.wired, env'.headroom))
  {
    hide Recompute, ComputeCacheLimit, Total, Run, Live, Registrations;
    var c, id := Run(events), Run(events).nextId;
    NextIdIsFresh(events);
    var loaded := events + [Register(weights, env)];
    LoadedProfiles(events, weights, env);
    DroppedProfiles(loaded, id, env');
    assert c.profiles[id := weights] - {id} == c.profiles;
    CapAfterEvent(loaded, Drop(id, env'));
  }

  lemma NextIdIsFresh(events: seq<Event>)
    requires Registrations(events) < MAX_U64
    ensures Run(events).nextId !in Run(events).profiles
  {
    hide Run, Live, Registrations;
    ProfilesAreLive(events);
  }

  lemma LoadedProfiles(events: seq<Event>, weights: u64, env: Env)
    ensures Run(events + [Register(weights, env)]).profiles == Run(events).profiles[Run(events).nextId := weights]
  {
    hide Recompute, Run;
    var c := Run(events);
    RunAppend(events, Register(weights, env));
    RecomputeKeepsProfiles(c.(nextId := Saturate(c.nextId + 1), profiles := c.profiles[c.nextId := weights]), env);
  }

  lemma DroppedProfiles(events: seq<Event>, id: u64, env: Env)
    ensures Run(events + [Drop(id, env)]).profiles == Run(events).profiles - {id}
  {
    hide Recompute, Run;
    var c := Run(events);
    RunAppend(events, Drop(id, env));
    if id in c.profiles {
      RecomputeKeepsProfiles(c.(profiles := c.profiles - {id}), env);
    } else {
      assert c.profiles - {id} == c.profiles;
    }
  }

  // ---------------------------------------------------------------- the budget in numbers

  /** `bytes` is `gib` times 2^30, rounded to the nearest integer, halves up, and cut off at 2^64 - 1. */
  ghost predicate NearestBytes(gib: real, bytes: nat) {
    var x := gib * 1073741824.0;
    if x + 0.5 >= 18446744073709551616.0 then bytes == 18446744073709551615
    else bytes as real <= x + 0.5 < bytes as real + 1.0
  }

  lemma BytesNearest(gib: real)
    requires gib >= 0.0
    ensures NearestBytes(gib, Bytes(Finite(gib)))
  {
    var x := gib * 1073741824.0;
    assert x >= 0.0;
    RoundsNearest(x);
  }

  lemma RoundsNearest(x: real)
    requires x >= 0.0
    ensures if x + 0.5 >= 18446744073709551616.0 then RoundBytes(x) == 18446744073709551615
            else RoundBytes(x) as real <= x + 0.5 < RoundBytes(x) as real + 1.0
  {
    var n := (x + 0.5).Floor;
    assert n as real <= x + 0.5 < n as real + 1.0;
  }

  /** The larger of 4 GiB and a share of the wired limit. */
  ghost predicate AtLeastFourGib(bytes: nat, share: nat) {
    bytes >= 4294967296 && bytes >= share && (bytes == 4294967296 || bytes == share)
  }

  ghost predicate IsDriverShare(driver: nat, wired: nat) {
    AtLeastFourGib(driver, wired / 20)
  }

  /** The user's share: the variable's bytes when it is finite and not negative, and otherwise the larger of
      4 GiB and a tenth of the wired limit. */
  ghost predicate IsUserShare(user: nat, wired: nat, headroom: EnvVar) {
    if headroom.Number? && headroom.float.Finite? && headroom.float.value >= 0.0
    then NearestBytes(headroom.float.value, user)
    else AtLeastFourGib(user, wired / 10)
  }

  /** The computed cap: what driver and user leave of the wired limit beside the weights, and 1 GiB at least;
      without a wired limit one and a half times the weights. */
  lemma BudgetInNumbers(weights: u64, wired: u64, headroom: EnvVar) returns (driver: nat, user: nat)
    ensures IsDriverShare(driver, wired) && IsUserShare(user, wired, headroom)
    ensures var cap := ComputeCacheLimit(weights, wired, headroom);
            if wired == 0 then cap == (if 3 * weights <= 18446744073709551615 then 3 * weights / 2 else 9223372036854775807)
            else if weights + driver + user + 1073741824 < wired then weights + driver + user + cap == wired
            else cap == 1073741824
  {
    driver, user := MetalOverhead(wired), UserHeadroom(wired, headroom);
    if headroom.Number? && headroom.float.Finite? && headroom.float.value >= 0.0 {
      BytesNearest(headroom.float.value);
    }
    hide Bytes;
  }

  /** Over every run: the cap after a successful recompute without override and with live weights. */
  lemma CapInNumbers(events: seq<Event>, e: Event) returns (driver: nat, user: nat)
    requires !IsOverride(e.env.cacheLimit) && e.env.applies && Total(Run(events + [e]).profiles) > 0
    requires Recomputes(Run(events), e)
    ensures IsDriverShare(driver, e.env.wired) && IsUserShare(user, e.env.wired, e.env.headroom)
    ensures var total := Total(Run(events + [e]).profiles);
            var weights: nat := if total > 18446744073709551615 then 18446744073709551615 else total;
            && Run(events + [e]).cap.Some?
            && var cap := Run(events + [e]).cap.value;
               if e.env.wired == 0 then cap == (if 3 * weights <= 18446744073709551615 then 3 * weights / 2 else 9223372036854775807)
               else if weights + driver + user + 1073741824 < e.env.wired then weights + driver + user + cap == e.env.wired
               else cap == 1073741824
  {
    hide Run, Total, ComputeCacheLimit, IsDriverShare, IsUserShare;
    CapAfterEvent(events, e);
    driver, user := BudgetInNumbers(Saturate(Total(Run(events + [e]).profiles)), e.env.wired, e.env.headroom);
  }

  /** Over every run: a successful recompute under an override that is not disabled and does not round to zero
      sets the override's bytes. */
  lemma OverrideInNumbers(events: seq<Event>, e: Event)
    requires e.env.cacheLimit.Number? && e.env.applies && Recomputes(Run(events), e)
    requires match e.env.cacheLimit.float
             case Finite(gib) => gib * 2147483648.0 >= 1.0
             case other => other == PosInf
    ensures Run(events + [e]).cap.Some?
    ensures match e.env.cacheLimit.float
            case Finite(gib) => NearestBytes(gib, Run(events + [e]).cap.value)
            case _ => Run(events + [e]).cap.value == 18446744073709551615
  {
    hide Run, Bytes, Recompute;
    var f := e.env.cacheLimit.float;
    MemoIsAlwaysCap(events);
    RunAppend(events, e);
    OverrideBytes(f);
    var c := Run(events);
    match e
    case Register(weights, env) =>
      OverrideSets(c.(nextId := Saturate(c.nextId + 1), profiles := c.profiles[c.nextId := weights]), env);
    case Drop(id, env) =>
      OverrideSets(c.(profiles := c.profiles - {id}), env);
  }

  lemma OverrideBytes(f: Float)
    requires match f case Finite(gib) => gib * 2147483648.0 >= 1.0 case other => other == PosInf
    ensures !Disables(f) && Bytes(f) != 0
    ensures match f case Finite(gib) => NearestBytes(gib, Bytes(f)) case _ => Bytes(f) == 18446744073709551615
  {
    ZeroBytes(f);
    if f.Finite? {
      assert f.value > 0.0;
      BytesNearest(f.value);
    }
  }

  lemma OverrideSets(c: Coord, env: Env)
    requires MemoIsCap(c) && env.applies && env.cacheLimit.Number?
    requires !Disables(env.cacheLimit.float) && Bytes(env.cacheLimit.float) != 0
    ensures Recompute(c, env).cap == Some(Bytes(env.cacheLimit.float))
  {
    hide Bytes;
  }

  /** Over every run: an override of zero, a negative one or minus infinity leaves the cap alone. */
  lemma DisabledKeepsCap(events: seq<Event>, e: Event)
    requires e.env.cacheLimit.Number?
    requires e.env.cacheLimit.float == NegInf || (e.env.cacheLimit.float.Finite? && e.env.cacheLimit.float.value <= 0.0)
    ensures Run(events + [e]).cap == Run(events).cap
  {
    hide Run;
    RunAppend(events, e);
  }
}

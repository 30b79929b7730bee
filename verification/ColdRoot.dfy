/** The process-global cold tier of `cold_tier.rs`: a set-once slot that lazy opens and explicit
    installs race for, and the set-once record of where an install opened the tier. Opening a
    directory succeeds or fails by an input; each step below is one atomic operation of the source. */
module ColdRoot {
  import opened Wrappers

  type Path = string

  /** A live manager: in the managed child of a directory, or at the default root. */
  datatype Manager = ManagedIn(parent: Path) | DefaultRoot

  /** The tier once opened: a manager, or nothing when opening failed. */
  type Tier = Option<Manager>

  // ---------------------------------------------------------------- one caller at a time

  datatype Registry = Registry(global: Option<Tier>, installedRoot: Option<Path>)

  /** What a lazy open puts into an empty slot. */
  function LazyTier(env: Option<Path>, opens: bool): Tier {
    if !opens then None
    else if env.Some? && env.value != "" then Some(ManagedIn(env.value)) else Some(DefaultRoot)
  }

  function AfterLazy(r: Registry, env: Option<Path>, opens: bool): (Registry, Tier) {
    if r.global.Some? then (r, r.global.value) else (r.(global := Some(LazyTier(env, opens))), LazyTier(env, opens))
  }

  function AfterInstall(r: Registry, parent: Path, opens: bool): (Registry, bool) {
    if r.installedRoot.Some? then (r, r.installedRoot.value == parent)
    else if !opens || r.global.Some? then (r, false)
    else (Registry(Some(Some(ManagedIn(parent))), Some(parent)), true)
  }

  class ColdTier {
    var global: Option<Tier>
    var installedRoot: Option<Path>

    ghost function Contents(): Registry
      reads this
    {
      Registry(global, installedRoot)
    }

    constructor ()
      ensures Contents() == Registry(None, None)
    {
      global, installedRoot := None, None;
    }

    method GlobalColdCache(env: Option<Path>, opens: bool) returns (tier: Tier)
      modifies this
      ensures (Contents(), tier) == AfterLazy(old(Contents()), env, opens)
    {
      if global.None? {
        global := Some(LazyTier(env, opens));
      }
      return global.value;
    }

    method InstallColdCacheRoot(parent: Path, opens: bool) returns (installed: bool)
      modifies this
      ensures (Contents(), installed) == AfterInstall(old(Contents()), parent, opens)
    {
      if installedRoot.Some? {
        return installedRoot.value == parent;
      }
      if !opens {
        return false;
      }
      if global.Some? {
        return false;
      }
      global := Some(Some(ManagedIn(parent)));
      installedRoot := Some(parent);
      return true;
    }
  }

  // ---------------------------------------------------------------- many callers

  datatype Call = Install(parent: Path) | Lazy(env: Option<Path>)

  datatype Pc = Start | Opening | Opened | Publishing | Initialising | Done(result: bool)

  datatype Thread = Thread(call: Call, pc: Pc)

  /** A set-once cell: a thread may be running its initialiser, and then others wait. */
  datatype Slot = Unset | Running | Set(tier: Tier)

  datatype State = State(global: Slot, installedRoot: Option<Path>, threads: seq<Thread>)

  const INITIAL := State(Unset, None, [])

  datatype Step = Spawn(call: Call) | Advance(t: nat, opens: bool)

  /** Whether the thread's next atomic operation can run: a set-once cell that is being initialised
      blocks both `set` and `get_or_init`. */
  predicate Enabled(s: State, step: Step) {
    match step
    case Spawn(_) => true
    case Advance(t, _) =>
      && t < |s.threads| && !s.threads[t].pc.Done?
      && (s.threads[t].pc == Opened ==> s.global != Running)
      && (s.threads[t].pc == Start && s.threads[t].call.Lazy? ==> s.global != Running)
  }

  function At(s: State, t: nat, pc: Pc): State
    requires t < |s.threads|
  {
    s.(threads := s.threads[t := s.threads[t].(pc := pc)])
  }

  function Next(s: State, step: Step): State
    requires Enabled(s, step)
  {
    match step
    case Spawn(call) => s.(threads := s.threads + [Thread(call, Start)])
    case Advance(t, opens) =>
      match s.threads[t]
      case Thread(Install(parent), Start) =>
        if s.installedRoot.Some? then At(s, t, Done(s.installedRoot.value == parent)) else At(s, t, Opening)
      case Thread(Install(parent), Opening) => At(s, t, if opens then Opened else Done(false))
      case Thread(Install(parent), Opened) =>
        if s.global == Unset then At(s.(global := Set(Some(ManagedIn(parent)))), t, Publishing) else At(s, t, Done(false))
      case Thread(Install(parent), Publishing) =>
        At(s.(installedRoot := if s.installedRoot.None? then Some(parent) else s.installedRoot), t, Done(true))
      case Thread(Lazy(env), Start) =>
        if s.global == Unset then At(s.(global := Running), t, Initialising) else At(s, t, Done(true))
      case Thread(Lazy(env), Initialising) => At(s.(global := Set(LazyTier(env, opens))), t, Done(true))
      case _ => s
  }

  /** A run: the states of some interleaving, from the initial state. */
  ghost predicate Run(states: seq<State>, steps: seq<Step>) {
    && |states| == |steps| + 1 && states[0] == INITIAL
    && forall i :: 0 <= i < |steps| ==> Enabled(states[i], steps[i]) && states[i + 1] == Next(states[i], steps[i])
  }

  ghost predicate ThreadInv(s: State, t: nat)
    requires t < |s.threads|
  {
    var th := s.threads[t];
    match th.call
    case Install(parent) =>
      && th.pc != Initialising
      && (th.pc == Publishing ==> s.global == Set(Some(ManagedIn(parent))) && s.installedRoot.None?)
      && (th.pc == Done(true) ==> s.installedRoot == Some(parent))
    case Lazy(_) => (th.pc == Start || th.pc == Initialising || th.pc == Done(true)) && (th.pc == Initialising ==> s.global == Running)
  }

  /** Who may write the slot: at most one thread is initialising or publishing. */
  ghost predicate Owns(s: State, t: nat) {
    t < |s.threads| && (s.threads[t].pc == Publishing || s.threads[t].pc == Initialising)
  }

  ghost predicate Inv(s: State) {
    && (s.installedRoot.Some? ==> s.global == Set(Some(ManagedIn(s.installedRoot.value))))
    && (forall t :: 0 <= t < |s.threads| ==> ThreadInv(s, t))
    && (forall t, u :: Owns(s, t) && Owns(s, u) ==> t == u)
    && (s.global == Unset ==> forall t :: !Owns(s, t))
  }

  /** Owners of the next state: the thread that moved, or one that already owned the slot. */
  lemma OwnsStep(s: State, step: Step, t: nat)
    requires Enabled(s, step) && Owns(Next(s, step), t)
    ensures Owns(s, t) || (step.Advance? && t == step.t && s.global == Unset)
  {
  }

  lemma ThreadInvStep(s: State, step: Step, t: nat)
    requires Inv(s) && Enabled(s, step) && t < |Next(s, step).threads|
    ensures ThreadInv(Next(s, step), t)
  {
    if t < |s.threads| {
      assert ThreadInv(s, t);
      if step.Advance? {
        assert ThreadInv(s, step.t);
        assert Owns(s, t) <==> s.threads[t].pc == Publishing || s.threads[t].pc == Initialising;
        assert Owns(s, step.t) <==> s.threads[step.t].pc == Publishing || s.threads[step.t].pc == Initialising;
      }
    }
  }

  lemma RootInvStep(s: State, step: Step)
    requires Inv(s) && Enabled(s, step) && Next(s, step).installedRoot.Some?
    ensures Next(s, step).global == Set(Some(ManagedIn(Next(s, step).installedRoot.value)))
  {
    if step.Advance? {
      assert ThreadInv(s, step.t);
    }
  }

  lemma InvStep(s: State, step: Step)
    requires Inv(s) && Enabled(s, step)
    ensures Inv(Next(s, step))
  {
    var s' := Next(s, step);
    forall t | 0 <= t < |s'.threads| ensures ThreadInv(s', t) {
      ThreadInvStep(s, step, t);
    }
    forall t, u | Owns(s', t) && Owns(s', u) ensures t == u {
      OwnsStep(s, step, t);
      OwnsStep(s, step, u);
    }
    if s'.installedRoot.Some? { RootInvStep(s, step); }
    if s'.global == Unset {
      forall t ensures !Owns(s', t) {
        if Owns(s', t) { OwnsStep(s, step, t); }
      }
    }
  }

  lemma {:induction false} RunKeepsInv(states: seq<State>, steps: seq<Step>, i: nat)
    requires Run(states, steps) && i < |states|
    ensures Inv(states[i])
  {
    if i > 0 {
      RunKeepsInv(states, steps, i - 1);
      InvStep(states[i - 1], steps[i - 1]);
    }
  }

  /** A step never changes a set cell. */
  lemma SetStays(s: State, step: Step)
    requires Inv(s) && Enabled(s, step)
    ensures s.global.Set? ==> Next(s, step).global == s.global
    ensures s.installedRoot.Some? ==> Next(s, step).installedRoot == s.installedRoot
  {
    if step.Advance? { assert ThreadInv(s, step.t); }
  }

  /** In every interleaving the slot, once set, keeps its value, and so does the recorded root. */
  lemma {:induction false} SlotIsSetOnce(states: seq<State>, steps: seq<Step>, i: nat, j: nat)
    requires Run(states, steps) && i <= j < |states|
    ensures states[i].global.Set? ==> states[j].global == states[i].global
    ensures states[i].installedRoot.Some? ==> states[j].installedRoot == states[i].installedRoot
    decreases j
  {
    if i < j {
      SlotIsSetOnce(states, steps, i, j - 1);
      RunKeepsInv(states, steps, j - 1);
      SetStays(states[j - 1], steps[j - 1]);
    }
  }

  /** An install that returned true: from then on the slot holds a live manager for its directory. */
  lemma InstalledFromThenOn(states: seq<State>, steps: seq<Step>, i: nat, t: nat, parent: Path, j: nat)
    requires Run(states, steps) && i <= j < |states| && t < |states[i].threads|
    requires states[i].threads[t] == Thread(Install(parent), Done(true))
    ensures states[j].global == Set(Some(ManagedIn(parent))) && states[j].installedRoot == Some(parent)
  {
    RunKeepsInv(states, steps, i);
    assert ThreadInv(states[i], t);
    SlotIsSetOnce(states, steps, i, j);
  }

  ghost predicate NotStarted(s: State, u: nat) {
    u >= |s.threads| || s.threads[u].pc == Start
  }

  /** In any interleaving, an install that starts after one has returned true for `parent` returns
      true exactly when it names the same directory. */
  lemma {:induction false} LaterInstall(states: seq<State>, steps: seq<Step>, i: nat, t: nat, parent: Path, u: nat, j: nat)
    requires Run(states, steps) && i <= j < |states| && t < |states[i].threads|
    requires states[i].threads[t] == Thread(Install(parent), Done(true)) && NotStarted(states[i], u)
    requires u < |states[j].threads| && states[j].threads[u].call.Install?
    ensures var th := states[j].threads[u];
            th.pc == Start || th.pc == Done(th.call.parent == parent)
    decreases j
  {
    if i < j {
      InstalledFromThenOn(states, steps, i, t, parent, j - 1);
      var s := states[j - 1];
      if u < |s.threads| {
        assert s.threads[u].call == states[j].threads[u].call;
        LaterInstall(states, steps, i, t, parent, u, j - 1);
      }
    }
  }

  /** What thread `th` may put into the slot: an install its own managed directory; a lazy open nothing when
      the open fails, and otherwise the directory of its variable when that is set and not empty and the default
      root. */
  ghost predicate MaySet(th: Thread, opens: bool, tier: Tier) {
    match th.call
    case Install(parent) => tier == Some(ManagedIn(parent))
    case Lazy(env) =>
      if opens then tier == (if env.Some? && |env.value| > 0 then Some(ManagedIn(env.value)) else Some(DefaultRoot))
      else tier == None
  }

  /** Step `i` puts `tier` into the slot, on behalf of the thread that moves. */
  ghost predicate PutsAt(states: seq<State>, steps: seq<Step>, i: nat, tier: Tier) {
    && i < |steps| && i < |states| && steps[i].Advance? && steps[i].t < |states[i].threads|
    && !states[i].global.Set? && MaySet(states[i].threads[steps[i].t], steps[i].opens, tier)
  }

  lemma MaySetStep(s: State, step: Step)
    requires Inv(s) && Enabled(s, step) && Next(s, step).global.Set? && !s.global.Set?
    ensures step.Advance? && step.t < |s.threads| && MaySet(s.threads[step.t], step.opens, Next(s, step).global.tier)
  {
    assert ThreadInv(s, step.t);
  }

  /** In every interleaving whatever is in the slot was put there by a step of one of the threads. */
  lemma {:induction false} SlotComesFrom(states: seq<State>, steps: seq<Step>, j: nat)
    requires Run(states, steps) && j < |states| && states[j].global.Set?
    ensures exists i :: 0 <= i < j && PutsAt(states, steps, i, states[j].global.tier)
  {
    hide Next, Enabled, Inv, MaySet;
    if j == 0 {
      assert false;
    } else {
      RunKeepsInv(states, steps, j - 1);
      if states[j - 1].global.Set? {
        SlotComesFrom(states, steps, j - 1);
        SetStays(states[j - 1], steps[j - 1]);
      } else {
        MaySetStep(states[j - 1], steps[j - 1]);
        assert PutsAt(states, steps, j - 1, states[j].global.tier);
      }
    }
  }

  ghost predicate LazyDone(s: State, u: nat) {
    u < |s.threads| && s.threads[u].call.Lazy? && s.threads[u].pc.Done?
  }

  /** In every interleaving a lazy open returns only from a set slot: while another thread runs the
      initialiser, it waits. */
  lemma {:induction false} LazySeesSlot(states: seq<State>, steps: seq<Step>, j: nat, u: nat)
    requires Run(states, steps) && j < |states| && LazyDone(states[j], u)
    ensures states[j].global.Set?
  {
    if j == 0 {
      assert false;
    } else {
      RunKeepsInv(states, steps, j - 1);
      if LazyDone(states[j - 1], u) {
        LazySeesSlot(states, steps, j - 1, u);
        SetStays(states[j - 1], steps[j - 1]);
      } else {
        LazyDoneStep(states[j - 1], steps[j - 1], u);
      }
    }
  }

  lemma LazyDoneStep(s: State, step: Step, u: nat)
    requires Inv(s) && Enabled(s, step) && !LazyDone(s, u) && LazyDone(Next(s, step), u)
    ensures Next(s, step).global.Set?
  {
    if u < |s.threads| { assert ThreadInv(s, u); }
  }

  /** In every interleaving an install that opened the directory and is refused nevertheless found the slot
      set: it too waits for a running initialiser. */
  lemma RefusedSeesSlot(states: seq<State>, steps: seq<Step>, i: nat, u: nat)
    requires Run(states, steps) && i < |steps| && MovesFrom(states[i], steps[i], u, Opened)
    requires states[i + 1].threads[u].pc == Done(false)
    ensures states[i].global.Set?
  {
    RunKeepsInv(states, steps, i);
    assert ThreadInv(states[i], u);
  }

  // ---------------------------------------------------------------- exactly when an install returns true

  /** Step `i` is the first check of thread `u`, and it finds `parent` recorded. */
  ghost predicate FindsRootAt(states: seq<State>, steps: seq<Step>, u: nat, parent: Path, i: nat) {
    && i < |steps| && i < |states| && MovesFrom(states[i], steps[i], u, Start)
    && states[i].installedRoot == Some(parent)
  }

  /** Step `i` is the one in which thread `u` sets the empty slot, which it does after a successful open. */
  ghost predicate SetsSlotAt(states: seq<State>, steps: seq<Step>, u: nat, i: nat) {
    && i < |steps| && i < |states| && MovesFrom(states[i], steps[i], u, Opened) && states[i].global == Unset
  }

  predicate MovesFrom(s: State, step: Step, u: nat, pc: Pc) {
    step.Advance? && step.t == u && u < |s.threads| && s.threads[u].pc == pc
  }

  ghost predicate FoundRoot(states: seq<State>, steps: seq<Step>, u: nat, parent: Path, j: nat) {
    exists i :: 0 <= i < j && FindsRootAt(states, steps, u, parent, i)
  }

  ghost predicate SetSlot(states: seq<State>, steps: seq<Step>, u: nat, j: nat) {
    exists i :: 0 <= i < j && SetsSlotAt(states, steps, u, i)
  }

  lemma OneStepFurther(states: seq<State>, steps: seq<Step>, u: nat, parent: Path, j: nat)
    requires j > 0
    ensures FoundRoot(states, steps, u, parent, j) <==> FoundRoot(states, steps, u, parent, j - 1) || FindsRootAt(states, steps, u, parent, j - 1)
    ensures SetSlot(states, steps, u, j) <==> SetSlot(states, steps, u, j - 1) || SetsSlotAt(states, steps, u, j - 1)
  {
    hide FindsRootAt, SetsSlotAt;
  }

  /** What the position of an installing thread tells of its past. */
  ghost predicate Past(pc: Pc, found: bool, set': bool) {
    match pc
    case Done(result) => result <==> found || set'
    case Publishing => set'
    case _ => !found && !set'
  }

  lemma PastStep(s: State, step: Step, u: nat, parent: Path, found: bool, set': bool)
    requires Enabled(s, step) && u < |Next(s, step).threads| && Next(s, step).threads[u].call == Install(parent)
    requires u < |s.threads| ==> Past(s.threads[u].pc, found, set')
    requires u >= |s.threads| ==> !found && !set'
    ensures Past(Next(s, step).threads[u].pc,
                 found || (MovesFrom(s, step, u, Start) && s.installedRoot == Some(parent)),
                 set' || (MovesFrom(s, step, u, Opened) && s.global == Unset))
  {
  }

  lemma {:induction false} InstallPast(states: seq<State>, steps: seq<Step>, u: nat, parent: Path, j: nat)
    requires Run(states, steps) && j < |states|
    requires u < |states[j].threads| ==> states[j].threads[u].call == Install(parent)
    ensures u < |states[j].threads| ==>
              Past(states[j].threads[u].pc, FoundRoot(states, steps, u, parent, j), SetSlot(states, steps, u, j))
    ensures u >= |states[j].threads| ==> !FoundRoot(states, steps, u, parent, j) && !SetSlot(states, steps, u, j)
    decreases j
  {
    hide Next, Enabled, Past, FoundRoot, SetSlot;
    if j == 0 {
      NoPast(states, steps, u, parent);
    } else {
      OneStepFurther(states, steps, u, parent, j);
      ThreadsStay(states[j - 1], steps[j - 1], u);
      InstallPast(states, steps, u, parent, j - 1);
      if u < |states[j].threads| {
        PastStep(states[j - 1], steps[j - 1], u, parent, FoundRoot(states, steps, u, parent, j - 1), SetSlot(states, steps, u, j - 1));
      }
    }
  }

  lemma NoPast(states: seq<State>, steps: seq<Step>, u: nat, parent: Path)
    ensures !FoundRoot(states, steps, u, parent, 0) && !SetSlot(states, steps, u, 0)
  {
  }

  lemma ThreadsStay(s: State, step: Step, u: nat)
    requires Enabled(s, step)
    ensures |s.threads| <= |Next(s, step).threads|
    ensures u < |s.threads| ==> Next(s, step).threads[u].call == s.threads[u].call
  {
  }

  /** In every interleaving, a finished install returned true exactly when its first check found its own
      directory recorded, or it opened the tier and set the empty slot itself. */
  lemma InstallReturnsTrue(states: seq<State>, steps: seq<Step>, u: nat, parent: Path, result: bool, j: nat)
    requires Run(states, steps) && j < |states| && u < |states[j].threads|
    requires states[j].threads[u] == Thread(Install(parent), Done(result))
    ensures result <==> FoundRoot(states, steps, u, parent, j) || SetSlot(states, steps, u, j)
  {
    hide FoundRoot, SetSlot;
    InstallPast(states, steps, u, parent, j);
  }

  /** Only one thread ever sets the slot. So of two installs of one directory that have finished, the one
      that did not set it returned true exactly when its first check came after the root was recorded. */
  lemma RepeatReturnsTrue(states: seq<State>, steps: seq<Step>, t: nat, u: nat, parent: Path, result: bool, j: nat)
    requires Run(states, steps) && j < |states| && t != u && t < |states[j].threads| && u < |states[j].threads|
    requires states[j].threads[u] == Thread(Install(parent), Done(result))
    requires SetSlot(states, steps, t, j)
    ensures result <==> FoundRoot(states, steps, u, parent, j)
  {
    InstallReturnsTrue(states, steps, u, parent, result, j);
    if SetSlot(states, steps, u, j) {
      var i :| 0 <= i < j && SetsSlotAt(states, steps, t, i);
      var k :| 0 <= k < j && SetsSlotAt(states, steps, u, k);
      SlotIsSetBy(states, steps, t, i);
      SlotIsSetBy(states, steps, u, k);
      if i < k { SlotIsSetOnce(states, steps, i + 1, k); } else { SlotIsSetOnce(states, steps, k + 1, i); }
    }
  }

  lemma SlotIsSetBy(states: seq<State>, steps: seq<Step>, t: nat, i: nat)
    requires Run(states, steps) && SetsSlotAt(states, steps, t, i)
    ensures i + 1 < |states| && states[i + 1].global.Set?
  {
    RunKeepsInv(states, steps, i);
    assert ThreadInv(states[i], t);
  }

  /** Until the first install has recorded its root, a concurrent install of the same directory is
      turned away: a run in which the second returns false. */
  lemma ConcurrentRepeatIsRefused(parent: Path) returns (states: seq<State>, steps: seq<Step>)
    ensures Run(states, steps)
    ensures var last := states[|steps|];
            last.threads == [Thread(Install(parent), Publishing), Thread(Install(parent), Done(false))]
            && last.global == Set(Some(ManagedIn(parent)))
  {
    hide Run;
    var call, won := Install(parent), Set(Some(ManagedIn(parent)));
    var pair := (global, p, q) => State(global, None, [Thread(call, p), Thread(call, q)]);
    var one := State(Unset, None, [Thread(call, Start)]);
    states, steps := [INITIAL], [];
    RunStarts();
    states, steps := RunExtend(states, steps, INITIAL, Spawn(call), one);
    states, steps := RunExtend(states, steps, one, Spawn(call), pair(Unset, Start, Start));
    states, steps := RunExtend(states, steps, pair(Unset, Start, Start), Advance(0, true), pair(Unset, Opening, Start));
    states, steps := RunExtend(states, steps, pair(Unset, Opening, Start), Advance(1, true), pair(Unset, Opening, Opening));
    states, steps := RunExtend(states, steps, pair(Unset, Opening, Opening), Advance(0, true), pair(Unset, Opened, Opening));
    states, steps := RunExtend(states, steps, pair(Unset, Opened, Opening), Advance(1, true), pair(Unset, Opened, Opened));
    states, steps := RunExtend(states, steps, pair(Unset, Opened, Opened), Advance(0, true), pair(won, Publishing, Opened));
    states, steps := RunExtend(states, steps, pair(won, Publishing, Opened), Advance(1, true), pair(won, Publishing, Done(false)));
  }

  lemma RunStarts()
    ensures Run([INITIAL], [])
  {
  }

  /** One more step of a run that has come to state `s`. */
  lemma RunExtend(states: seq<State>, steps: seq<Step>, s: State, step: Step, s': State)
    returns (states': seq<State>, steps': seq<Step>)
    requires Run(states, steps) && |states| == |steps| + 1 && states[|steps|] == s
    requires Enabled(s, step) && s' == Next(s, step)
    ensures Run(states', steps') && |states'| == |steps'| + 1 && states'[|steps'|] == s'
  {
    hide Next, Enabled;
    states', steps' := states + [s'], steps + [step];
  }

  // ---------------------------------------------------------------- the two views agree

  ghost function RegistryOf(s: State): Registry {
    Registry(if s.global.Set? then Some(s.global.tier) else None, s.installedRoot)
  }

  function Alone(s: State, t: nat, opens: bool, n: nat): State {
    if n == 0 then s
    else
      var r := Alone(s, t, opens, n - 1);
      if Enabled(r, Advance(t, opens)) then Next(r, Advance(t, opens)) else r
  }

  /** An install that nobody interrupts does what the one-caller specification says. */
  lemma InstallAlone(s: State, t: nat, parent: Path, opens: bool)
    requires t < |s.threads| && s.threads[t] == Thread(Install(parent), Start) && s.global != Running
    ensures var done := Alone(s, t, opens, 4);
            t < |done.threads| && done.threads[t].pc.Done?
            && (RegistryOf(done), done.threads[t].pc.result) == AfterInstall(RegistryOf(s), parent, opens)
  {
    AloneNext(s, t, opens, 0);
    AloneNext(s, t, opens, 1);
    AloneNext(s, t, opens, 2);
    AloneNext(s, t, opens, 3);
  }

  lemma AloneNext(s: State, t: nat, opens: bool, n: nat)
    ensures var r := Alone(s, t, opens, n);
            Alone(s, t, opens, n + 1) == if Enabled(r, Advance(t, opens)) then Next(r, Advance(t, opens)) else r
  {
  }

  /** And so does a lazy open. */
  lemma LazyAlone(s: State, t: nat, env: Option<Path>, opens: bool)
    requires t < |s.threads| && s.threads[t] == Thread(Lazy(env), Start) && s.global != Running
    ensures var done := Alone(s, t, opens, 2);
            && t < |done.threads| && done.threads[t].pc == Done(true) && done.global.Set?
            && (RegistryOf(done), done.global.tier) == AfterLazy(RegistryOf(s), env, opens)
  {
    AloneNext(s, t, opens, 0);
    AloneNext(s, t, opens, 1);
  }
}

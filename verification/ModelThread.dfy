/** The dedicated model thread of `model_thread.rs` as a protocol: a worker that initialises and then
    serves a FIFO command channel, any number of cloned senders, and an owner that may shut the thread
    down and join it. Commands are opaque; a handler returns or panics. */
module ModelThread {
  import opened Wrappers

  type Cmd = int

  datatype Worker = Initialising | Receiving | Handling(cmd: Cmd) | Exited(panicked: bool)

  /** `shutdown_and_join` first counts the senders, then gives up its own, then joins. A later call finds
      neither sender nor handle and returns at once. */
  datatype Owner = Idle | Counted | Joining | ReturnedOk | ReturnedErr | RepeatedOk | Dropped

  datatype State = State(
    worker: Worker, initialised: Option<bool>, stateAlive: bool,
    queue: seq<Cmd>, own: bool, clones: nat, handle: bool, owner: Owner,
    sent: seq<Cmd>, handled: seq<Cmd>)

  const INITIAL := State(Initialising, None, false, [], true, 0, true, Idle, [], [])

  datatype Step =
    // the worker
    | InitSucceeds | InitFails | Receive | Finish | Panic | Exit
    // holders of a sender
    | Send(cmd: Cmd) | CloneOwn | CloneClone | DropClone
    // the owner
    | CountSenders | TakeSender | JoinReturns | DropThread

  function Senders(s: State): nat {
    s.clones + if s.own then 1 else 0
  }

  predicate IsWorkerStep(step: Step) {
    step.InitSucceeds? || step.InitFails? || step.Receive? || step.Finish? || step.Panic? || step.Exit?
  }

  /** The owner holds the thread and is not inside a call. */
  predicate CanCall(s: State) {
    s.owner == Idle || s.owner == ReturnedOk || s.owner == ReturnedErr || s.owner == RepeatedOk
  }

  predicate Enabled(s: State, step: Step) {
    match step
    case InitSucceeds => s.worker == Initialising
    case InitFails => s.worker == Initialising
    case Receive => s.worker == Receiving && s.queue != []
    case Finish => s.worker.Handling?
    case Panic => s.worker == Initialising || s.worker.Handling?
    case Exit => s.worker == Receiving && s.queue == [] && Senders(s) == 0
    case Send(_) => s.clones > 0 || (s.own && s.owner == Idle)
    case CloneOwn => s.own && s.owner == Idle
    case CloneClone => s.clones > 0
    case DropClone => s.clones > 0
    case CountSenders => CanCall(s)
    case TakeSender => s.owner == Counted
    case JoinReturns => s.owner == Joining && s.worker.Exited?
    case DropThread => CanCall(s)
  }

  function Next(s: State, step: Step): State
    requires Enabled(s, step)
  {
    match step
    case InitSucceeds => s.(worker := Receiving, initialised := Some(true), stateAlive := true)
    case InitFails => s.(worker := Exited(false), initialised := Some(false), queue := [])
    case Receive => s.(worker := Handling(s.queue[0]), queue := s.queue[1..])
    case Finish => s.(worker := Receiving, handled := s.handled + [s.worker.cmd])
    case Panic => s.(worker := Exited(true), stateAlive := false, queue := [])
    case Exit => s.(worker := Exited(false), stateAlive := false)
    case Send(cmd) =>
      // the channel is closed once the worker is gone, and the send returns an error
      if s.worker.Exited? then s else s.(queue := s.queue + [cmd], sent := s.sent + [cmd])
    case CloneOwn => s.(clones := s.clones + 1)
    case CloneClone => s.(clones := s.clones + 1)
    case DropClone => s.(clones := s.clones - 1)
    case CountSenders =>
      // with other senders alive the call returns an error and changes nothing
      if s.own && Senders(s) != 1 then s else s.(owner := Counted)
    case TakeSender =>
      if s.handle then s.(own := false, handle := false, owner := Joining) else s.(own := false, owner := RepeatedOk)
    case JoinReturns => s.(owner := if s.worker.panicked then ReturnedErr else ReturnedOk)
    case DropThread => s.(own := false, handle := false, owner := Dropped)
  }

  ghost predicate Run(states: seq<State>, steps: seq<Step>) {
    && |states| == |steps| + 1 && states[0] == INITIAL
    && forall i :: 0 <= i < |steps| ==> Enabled(states[i], steps[i]) && states[i + 1] == Next(states[i], steps[i])
  }

  // ---------------------------------------------------------------- what every step keeps

  function InFlight(s: State): seq<Cmd> {
    if s.worker.Handling? then [s.worker.cmd] else []
  }

  /** First in, first out: nothing is lost while the worker lives. */
  ghost predicate QueueInv(s: State) {
    && (!s.worker.Exited? ==> s.sent == s.handled + InFlight(s) + s.queue)
    && s.handled <= s.sent
    && (s.worker == Exited(true) && s.initialised == Some(true) ==> s.handled != s.sent)
    && (s.worker == Exited(false) && s.initialised == Some(true) ==> s.handled == s.sent && Senders(s) == 0)
  }

  /** Nothing is handled before the initialisation has succeeded; an exited worker has dropped its state. */
  ghost predicate WorkerInv(s: State) {
    && (s.worker == Initialising ==> s.initialised == None && s.handled == [] && !s.stateAlive)
    && (s.worker == Receiving || s.worker.Handling? ==> s.initialised == Some(true) && s.stateAlive)
    && (s.handled != [] ==> s.initialised == Some(true))
    && (s.worker.Exited? ==> !s.stateAlive)
  }

  /** The owner counts and joins only as the sole sender, and holds sender and handle together. */
  ghost predicate OwnerInv(s: State) {
    && (s.own ==> s.owner == Idle || s.owner == Counted)
    && (s.owner != Dropped ==> (s.own <==> s.handle))
    && (s.owner == Idle ==> s.own)
    && (s.owner != Idle && s.owner != Dropped ==> s.clones == 0)
    && (s.owner == ReturnedOk ==> s.worker == Exited(false))
    && (s.owner == ReturnedErr ==> s.worker == Exited(true))
    && (s.owner == RepeatedOk || (s.owner == Counted && !s.own) ==> s.worker.Exited?)
  }

  ghost predicate Inv(s: State) {
    QueueInv(s) && WorkerInv(s) && OwnerInv(s)
  }

  /** No step loses or reorders a command while the worker lives. */
  lemma FlowStep(s: State, step: Step)
    requires s.sent == s.handled + InFlight(s) + s.queue && Enabled(s, step) && !Next(s, step).worker.Exited?
    ensures var s' := Next(s, step); s'.sent == s'.handled + InFlight(s') + s'.queue
  {
    var s' := Next(s, step);
    match step
    case Receive =>
      assert s.queue == [s.queue[0]] + s.queue[1..];
    case Finish =>
    case Send(cmd) =>
      assert s'.sent == s.handled + InFlight(s) + (s.queue + [cmd]);
    case _ =>
  }

  lemma QueueInvStep(s: State, step: Step)
    requires QueueInv(s) && WorkerInv(s) && Enabled(s, step)
    ensures QueueInv(Next(s, step))
  {
    var s' := Next(s, step);
    if !s'.worker.Exited? {
      FlowStep(s, step);
      PrefixOf(s'.handled, InFlight(s'), s'.queue);
    } else if step.Panic? && s.worker.Handling? {
      assert |s.sent| > |s.handled|;
    }
  }

  lemma PrefixOf(a: seq<Cmd>, b: seq<Cmd>, c: seq<Cmd>)
    ensures a <= a + b + c
  {
  }

  lemma InvStep(s: State, step: Step)
    requires Inv(s) && Enabled(s, step)
    ensures Inv(Next(s, step))
  {
    QueueInvStep(s, step);
    hide QueueInv;
  }

  lemma {:induction false} RunKeepsInv(states: seq<State>, steps: seq<Step>, i: nat)
    requires Run(states, steps) && i < |states|
    ensures Inv(states[i])
  {
    hide Inv, Next;
    if i > 0 {
      RunKeepsInv(states, steps, i - 1);
      InvStep(states[i - 1], steps[i - 1]);
    } else {
      StartInv();
    }
  }

  lemma StartInv()
    ensures Inv(INITIAL)
  {
  }

  // ---------------------------------------------------------------- the promises

  /** In every interleaving the handled commands are a prefix of the sent ones in send order, and none is
      handled before the initialisation has succeeded. */
  lemma HandledInSendOrder(states: seq<State>, steps: seq<Step>, i: nat)
    requires Run(states, steps) && i < |states|
    ensures states[i].handled <= states[i].sent
    ensures states[i].handled != [] ==> states[i].initialised == Some(true)
  {
    RunKeepsInv(states, steps, i);
  }

  /** Once shutdown has returned Ok the worker and the model state are gone, and every accepted command has
      been handled exactly when the initialisation succeeded or nothing had been accepted: a failed
      initialisation drops the queued commands. */
  lemma ShutdownServesEverything(states: seq<State>, steps: seq<Step>, i: nat)
    requires Run(states, steps) && i < |states| && states[i].owner == ReturnedOk
    ensures !states[i].stateAlive && states[i].worker == Exited(false)
    ensures states[i].handled == states[i].sent <==> states[i].initialised == Some(true) || states[i].sent == []
  {
    RunKeepsInv(states, steps, i);
  }

  /** Joined or detached: a worker that has left its loop without a panic has handled every command that
      was ever accepted, and no sender is left. */
  lemma ExitServesEverything(states: seq<State>, steps: seq<Step>, i: nat)
    requires Run(states, steps) && i < |states|
    requires states[i].initialised == Some(true) && states[i].worker == Exited(false)
    ensures states[i].handled == states[i].sent && !states[i].stateAlive && Senders(states[i]) == 0
  {
    RunKeepsInv(states, steps, i);
  }

  /** A repeated call also returns Ok; then every accepted command was handled exactly when the
      initialisation succeeded and the worker did not panic, or nothing had been accepted. */
  lemma RepeatedShutdown(states: seq<State>, steps: seq<Step>, i: nat)
    requires Run(states, steps) && i < |states| && states[i].owner == RepeatedOk
    ensures !states[i].stateAlive && states[i].worker.Exited?
    ensures states[i].handled == states[i].sent
            <==> (states[i].initialised == Some(true) && !states[i].worker.panicked) || states[i].sent == []
  {
    RunKeepsInv(states, steps, i);
  }

  /** A run in which a repeated call returns Ok although a command was lost to a panic. */
  lemma RepeatHidesPanic(cmd: Cmd) returns (states: seq<State>, steps: seq<Step>)
    ensures Run(states, steps)
    ensures var last := states[|steps|];
            last.owner == RepeatedOk && last.initialised == Some(true) && last.sent == [cmd] && last.handled == []
  {
    hide Run;
    states, steps := [INITIAL], [];
    RunStarts();
    var ready := INITIAL.(worker := Receiving, initialised := Some(true), stateAlive := true);
    states, steps := RunExtend(states, steps, INITIAL, InitSucceeds, ready);
    var queued := ready.(queue := [cmd], sent := [cmd]);
    states, steps := RunExtend(states, steps, ready, Send(cmd), queued);
    var handling := queued.(worker := Handling(cmd), queue := []);
    states, steps := RunExtend(states, steps, queued, Receive, handling);
    var gone := handling.(worker := Exited(true), stateAlive := false);
    states, steps := RunExtend(states, steps, handling, Panic, gone);
    states, steps := RunExtend(states, steps, gone, CountSenders, gone.(owner := Counted));
    var joining := gone.(own := false, handle := false, owner := Joining);
    states, steps := RunExtend(states, steps, gone.(owner := Counted), TakeSender, joining);
    states, steps := RunExtend(states, steps, joining, JoinReturns, joining.(owner := ReturnedErr));
    states, steps := RunExtend(states, steps, joining.(owner := ReturnedErr), CountSenders, joining.(owner := Counted));
    states, steps := RunExtend(states, steps, joining.(owner := Counted), TakeSender, joining.(owner := RepeatedOk));
  }

  lemma RunStarts()
    ensures Run([INITIAL], [])
  {
  }

  /** One more step of a run that has come to state `s`. */
  lemma RunExtend(states: seq<State>, steps: seq<Step>, s: State, step: Step, s': State)
    returns (states': seq<State>, steps': seq<Step>)
    requires Run(states, steps) && |states| == |steps| + 1 && states[|steps|] == s
    requires Enabled(s, step) && s' == Next(s, step)
    ensures Run(states', steps') && |states'| == |steps'| + 1 && states'[|steps'|] == s'
  {
    hide Next, Enabled;
    states', steps' := states + [s'], steps + [step];
  }

  // ---------------------------------------------------------------- who holds a sender

  /** The clones made by the steps, and those dropped. */
  ghost function Made(steps: seq<Step>): nat {
    if steps == [] then 0
    else
      var last := steps[|steps| - 1];
      Made(steps[..|steps| - 1]) + if last.CloneOwn? || last.CloneClone? then 1 else 0
  }

  ghost function Gone(steps: seq<Step>): nat {
    if steps == [] then 0
    else Gone(steps[..|steps| - 1]) + if steps[|steps| - 1].DropClone? then 1 else 0
  }

  /** Among the steps the owner has given up its sender. */
  ghost predicate GivenUp(steps: seq<Step>) {
    steps != [] && (GivenUp(steps[..|steps| - 1]) || steps[|steps| - 1].TakeSender? || steps[|steps| - 1].DropThread?)
  }

  /** In every interleaving the living senders are the clones made and not dropped, and the owner's own until
      it gives it up. A clone can be cloned, and dropped, exactly while there is one; a command can be sent
      exactly by a clone or by an owner who still holds its sender and is not inside a call. */
  lemma SendersAreCounted(states: seq<State>, steps: seq<Step>, i: nat)
    requires Run(states, steps) && i < |states|
    ensures var s, made, gone := states[i], Made(steps[..i]), Gone(steps[..i]);
            && gone <= made && Senders(s) == made - gone + (if GivenUp(steps[..i]) then 0 else 1)
            && (Enabled(s, CloneClone) <==> made > gone) && (Enabled(s, DropClone) <==> made > gone)
            && (Enabled(s, CloneOwn) <==> !GivenUp(steps[..i]) && Enabled(s, CountSenders))
            && forall cmd :: Enabled(s, Send(cmd)) <==> Enabled(s, CloneClone) || Enabled(s, CloneOwn)
  {
    hide Run, Made, Gone, GivenUp;
    ClonesAreCounted(states, steps, i);
    RunKeepsInv(states, steps, i);
  }

  lemma {:induction false} ClonesAreCounted(states: seq<State>, steps: seq<Step>, i: nat)
    requires Run(states, steps) && i < |states|
    ensures states[i].clones == Made(steps[..i]) - Gone(steps[..i]) && (states[i].own <==> !GivenUp(steps[..i]))
  {
    hide Next, Enabled;
    if i == 0 {
      assert steps[..0] == [];
    } else {
      ClonesAreCounted(states, steps, i - 1);
      assert steps[..i][..i - 1] == steps[..i - 1];
      SendersStep(states[i - 1], steps[i - 1]);
    }
  }

  lemma SendersStep(s: State, step: Step)
    requires Enabled(s, step)
    ensures Next(s, step).clones == s.clones + (if step.CloneOwn? || step.CloneClone? then 1 else 0) - if step.DropClone? then 1 else 0
    ensures Next(s, step).own <==> s.own && !step.TakeSender? && !step.DropThread?
  {
  }

  /** The owner is inside a call, has dropped the thread, or may start a call or drop it. */
  lemma OwnerActs(s: State)
    ensures Enabled(s, CountSenders) <==> s.owner != Counted && s.owner != Joining && s.owner != Dropped
    ensures Enabled(s, DropThread) <==> Enabled(s, CountSenders)
  {
  }

  /** Steps the worker may still take before it is gone, when no sender is left. */
  ghost function Remaining(s: State): nat {
    match s.worker
    case Initialising => 2 * |s.queue| + 3
    case Receiving => 2 * |s.queue| + 1
    case Handling(_) => 2 * |s.queue| + 2
    case Exited(_) => 0
  }

  /** The channel is closed for good: the owner is joining or has dropped the handle, and no clone is left. */
  predicate Closed(s: State) {
    (s.owner == Joining || s.owner == Dropped) && s.clones == 0
  }

  /** While the worker lives the channel is closed exactly when no sender is left. */
  lemma ClosedExactlyWhen(s: State)
    requires Inv(s) && !s.worker.Exited?
    ensures Closed(s) <==> Senders(s) == 0
  {
  }

  /** The worker's steps are exactly those that change what the worker is doing. */
  lemma WorkerSteps(s: State, step: Step)
    requires Enabled(s, step)
    ensures IsWorkerStep(step) <==> Next(s, step).worker != s.worker
  {
  }

  /** Once the channel is closed the worker is never stuck, and every step brings its exit closer. */
  lemma ClosedMakesProgress(s: State, step: Step)
    requires Inv(s) && Closed(s)
    ensures !s.worker.Exited? ==> exists w :: IsWorkerStep(w) && Enabled(s, w)
    ensures s.worker.Exited? && s.owner == Joining ==> Enabled(s, JoinReturns)
    ensures Enabled(s, step) && Closed(Next(s, step)) ==> Remaining(Next(s, step)) < Remaining(s)
  {
    if s.worker == Initialising { assert IsWorkerStep(InitSucceeds) && Enabled(s, InitSucceeds); }
    if s.worker == Receiving && s.queue != [] { assert IsWorkerStep(Receive) && Enabled(s, Receive); }
    if s.worker == Receiving && s.queue == [] { assert IsWorkerStep(Exit) && Enabled(s, Exit); }
    if s.worker.Handling? { assert IsWorkerStep(Finish) && Enabled(s, Finish); }
  }

  /** So a join waits, and a dropped thread lives on, for a bounded number of steps whatever the interleaving. */
  lemma {:induction false} ClosedTerminates(states: seq<State>, steps: seq<Step>, i: nat, j: nat)
    requires Run(states, steps) && i <= j < |states|
    requires forall k :: i <= k <= j ==> Closed(states[k])
    ensures j - i + Remaining(states[j]) <= Remaining(states[i])
    decreases j
  {
    hide Inv, Remaining, Next, Enabled, Closed;
    if i < j {
      ClosedTerminates(states, steps, i, j - 1);
      RunKeepsInv(states, steps, j - 1);
      ClosedMakesProgress(states[j - 1], steps[j - 1]);
    }
  }

  /** Nobody else can get in between the count and the join: the owner blocks only as the sole sender. */
  lemma JoinsAsSoleSender(states: seq<State>, steps: seq<Step>, i: nat)
    requires Run(states, steps) && i < |states| && (states[i].owner == Counted || states[i].owner == Joining)
    ensures states[i].clones == 0 && (states[i].owner == Joining ==> Senders(states[i]) == 0)
  {
    RunKeepsInv(states, steps, i);
  }

  // ---------------------------------------------------------------- waiting for a reply

  /** Worker steps until command number `n` of the sent ones has been answered, or its reply channel
      dropped with the worker. */
  ghost function UntilAnswered(s: State, n: nat): nat {
    if s.worker.Exited? || n < |s.handled| then 0
    else
      var ahead := n - |s.handled|;
      match s.worker
      case Initialising => 2 * ahead + 3
      case Receiving => 2 * ahead + 2
      case Handling(_) => 2 * ahead + 1
      case Exited(_) => 0
  }

  /** A caller blocked on a reply is answered after a bounded number of worker steps: each worker step
      brings the answer closer, other threads' steps never push it away, and the worker can always move. */
  lemma ReplyComesCloser(s: State, step: Step, n: nat)
    requires Inv(s) && n < |s.sent| && Enabled(s, step)
    ensures UntilAnswered(Next(s, step), n) <= UntilAnswered(s, n)
    ensures IsWorkerStep(step) && UntilAnswered(s, n) > 0 ==> UntilAnswered(Next(s, step), n) < UntilAnswered(s, n)
    ensures UntilAnswered(s, n) > 0 ==> exists w :: IsWorkerStep(w) && Enabled(s, w)
  {
    if s.worker == Initialising { assert IsWorkerStep(InitSucceeds) && Enabled(s, InitSucceeds); }
    if s.worker == Receiving && s.queue != [] { assert IsWorkerStep(Receive) && Enabled(s, Receive); }
    if s.worker.Handling? { assert IsWorkerStep(Finish) && Enabled(s, Finish); }
  }

  // ---------------------------------------------------------------- the handle and its worker, in place

  /** `s2` is reached from `s` by the steps of `trace`. */
  ghost predicate Follows(s: State, trace: seq<Step>, s2: State)
    decreases |trace|
  {
    if trace == [] then s == s2
    else Enabled(s, trace[0]) && Follows(Next(s, trace[0]), trace[1..], s2)
  }

  lemma {:induction false} FollowsJoin(s: State, first: seq<Step>, s1: State, second: seq<Step>, s2: State)
    requires Follows(s, first, s1) && Follows(s1, second, s2)
    ensures Follows(s, first + second, s2)
    decreases |first|
  {
    hide Enabled, Next;
    if first == [] {
      assert first + second == second;
    } else {
      FollowsJoin(Next(s, first[0]), first[1..], s1, second, s2);
      assert (first + second)[1..] == first[1..] + second;
    }
  }

  lemma OneStep(s: State, step: Step, s2: State)
    requires Enabled(s, step) && s2 == Next(s, step)
    ensures Follows(s, [step], s2)
  {
    hide Enabled, Next;
    assert [step][1..] == [];
  }

  lemma {:induction false} FollowsKeepsInv(s: State, trace: seq<Step>, s2: State)
    requires Inv(s) && Follows(s, trace, s2)
    ensures Inv(s2)
    decreases |trace|
  {
    hide Inv, Next, Enabled;
    if trace != [] {
      InvStep(s, trace[0]);
      FollowsKeepsInv(Next(s, trace[0]), trace[1..], s2);
    }
  }

  datatype Init = InitOk | InitError | InitPanic

  datatype Sending = Sent | NotRunning | HasExited

  datatype Shutdown = Joined | SendersAlive(count: nat) | WorkerPanicked

  /** Index of the first command whose handler panics, and the number of commands when none does. */
  function FirstPanic(cmds: seq<Cmd>, panics: Cmd -> bool): (k: nat)
    ensures k <= |cmds| && (k < |cmds| ==> panics(cmds[k]))
    ensures forall j :: 0 <= j < k ==> !panics(cmds[j])
  {
    if cmds == [] || panics(cmds[0]) then 0 else 1 + FirstPanic(cmds[1..], panics)
  }

  /** What the worker has left to do: the command in its hands and the queue behind it. */
  function Pending(s: State): seq<Cmd> {
    InFlight(s) + s.queue
  }

  /** What has been handled, and whether the worker panicked, once it is gone and nobody has sent more. */
  function Outcome(s: State, init: Init, panics: Cmd -> bool): (seq<Cmd>, bool) {
    if s.worker.Exited? then (s.handled, s.worker.panicked)
    else if s.worker == Initialising && init != InitOk then (s.handled, init == InitPanic)
    else
      var k := FirstPanic(Pending(s), panics);
      (s.handled + Pending(s)[..k], k < |Pending(s)|)
  }

  /** A step of the worker that agrees with the inputs. */
  predicate Serves(s: State, step: Step, init: Init, panics: Cmd -> bool) {
    match step
    case InitSucceeds => s.worker == Initialising && init == InitOk
    case InitFails => s.worker == Initialising && init == InitError
    case Panic => (s.worker == Initialising && init == InitPanic) || (s.worker.Handling? && panics(s.worker.cmd))
    case Finish => s.worker.Handling? && !panics(s.worker.cmd)
    case Receive => true
    case Exit => true
    case _ => false
  }

  lemma OutcomeOfReceiving(s: State, init: Init, panics: Cmd -> bool)
    requires s.worker == Receiving
    ensures var k := FirstPanic(s.queue, panics);
            Outcome(s, init, panics) == (s.handled + s.queue[..k], k < |s.queue|)
    ensures s.queue == [] ==> Outcome(s, init, panics) == (s.handled, false)
  {
    hide FirstPanic;
    assert Pending(s) == s.queue;
    assert s.handled + [] == s.handled;
  }

  lemma OutcomeOfHandling(s: State, init: Init, panics: Cmd -> bool)
    requires s.worker.Handling?
    ensures var cmds := [s.worker.cmd] + s.queue; var k := FirstPanic(cmds, panics);
            Outcome(s, init, panics) == (s.handled + cmds[..k], k < |cmds|)
  {
  }

  /** The outcome is settled before the worker gets there. */
  lemma ServingStep(s: State, step: Step, s2: State, init: Init, panics: Cmd -> bool)
    requires Enabled(s, step) && Serves(s, step, init, panics) && s2 == Next(s, step)
    ensures Outcome(s2, init, panics) == Outcome(s, init, panics)
    ensures Follows(s, [step], s2)
  {
    OneStep(s, step, s2);
    hide Follows, FirstPanic;
    match s.worker
    case Initialising =>
      assert step.InitSucceeds? ==> Pending(s2) == Pending(s);
    case Receiving =>
      hide Outcome;
      OutcomeOfReceiving(s, init, panics);
      if step.Receive? {
        assert [s.queue[0]] + s.queue[1..] == s.queue;
        OutcomeOfHandling(s2, init, panics);
      } else {
        OutcomeOfExited(s2, init, panics);
      }
    case Handling(cmd) =>
      hide Outcome;
      OutcomeOfHandling(s, init, panics);
      ServedNext(s.handled, cmd, s.queue, panics);
      if step.Finish? {
        OutcomeOfReceiving(s2, init, panics);
      } else {
        OutcomeOfExited(s2, init, panics);
      }
    case Exited(_) =>
  }

  lemma ServedNext(handled: seq<Cmd>, cmd: Cmd, cmds: seq<Cmd>, panics: Cmd -> bool)
    ensures var k := FirstPanic([cmd] + cmds, panics);
            if panics(cmd) then k == 0 && handled + ([cmd] + cmds)[..0] == handled
            else k == 1 + FirstPanic(cmds, panics)
                 && handled + ([cmd] + cmds)[..k] == (handled + [cmd]) + cmds[..k - 1]
  {
    assert ([cmd] + cmds)[1..] == cmds;
  }

  lemma OutcomeOfExited(s: State, init: Init, panics: Cmd -> bool)
    requires s.worker.Exited?
    ensures Outcome(s, init, panics) == (s.handled, s.worker.panicked)
  {
  }

  /** The handle, the channel and the worker they share. Which handlers panic and how the initialisation
      ends are inputs. */
  class Thread {
    var cmdTx: bool
    var joinHandle: bool
    var clones: nat
    var worker: Worker
    var initialised: Option<bool>
    var stateAlive: bool
    var queue: seq<Cmd>
    ghost var sent: seq<Cmd>
    ghost var handled: seq<Cmd>
    ghost var owner: Owner

    ghost function View(): State
      reads this
    {
      State(worker, initialised, stateAlive, queue, cmdTx, clones, joinHandle, owner, sent, handled)
    }

    constructor SpawnWithInit()
      ensures View() == INITIAL
    {
      cmdTx, joinHandle, clones, worker := true, true, 0, Initialising;
      initialised, stateAlive, queue := None, false, [];
      sent, handled, owner := [], [], Idle;
    }

    method Send(cmd: Cmd) returns (r: Sending)
      requires Inv(View()) && CanCall(View())
      modifies this
      ensures r == NotRunning <==> !old(cmdTx)
      ensures r == Sent <==> old(cmdTx) && !old(worker).Exited?
      ensures View() == if old(cmdTx) then Next(old(View()), Step.Send(cmd)) else old(View())
    {
      if !cmdTx {
        return NotRunning;
      }
      if worker.Exited? {
        return HasExited;
      }
      queue, sent := queue + [cmd], sent + [cmd];
      return Sent;
    }

    /** The handler returns, or panics and takes the worker with it. */
    method EndCommand(init: Init, panics: Cmd -> bool) returns (ghost step: Step)
      requires worker.Handling?
      modifies `worker, `queue, `stateAlive, `handled
      ensures Follows(old(View()), [step], View()) && (worker == Receiving || worker.Exited?)
      ensures |queue| <= |old(queue)|
      ensures Outcome(View(), init, panics) == Outcome(old(View()), init, panics)
    {
      hide Follows, Outcome;
      if panics(worker.cmd) {
        worker, stateAlive, queue := Exited(true), false, [];
        step := Panic;
      } else {
        handled, worker := handled + [worker.cmd], Receiving;
        step := Finish;
      }
      ServingStep(old(View()), step, View(), init, panics);
    }

    /** The receive loop, once no sender is left. */
    method Receive(init: Init, panics: Cmd -> bool) returns (ghost trace: seq<Step>)
      requires worker == Receiving && Senders(View()) == 0
      modifies `worker, `queue, `stateAlive, `handled
      ensures Follows(old(View()), trace, View()) && worker.Exited?
      ensures Outcome(View(), init, panics) == Outcome(old(View()), init, panics)
    {
      hide Follows, Outcome;
      trace := [];
      Stay(View());
      while worker == Receiving
        invariant worker == Receiving || worker.Exited?
        invariant Follows(old(View()), trace, View())
        invariant Outcome(View(), init, panics) == Outcome(old(View()), init, panics)
        decreases |queue|, worker == Receiving
      {
        ghost var before := View();
        if queue == [] {
          worker, stateAlive := Exited(false), false;
          ServingStep(before, Exit, View(), init, panics);
          FollowsJoin(old(View()), trace, before, [Exit], View());
          trace := trace + [Exit];
        } else {
          worker, queue := Handling(queue[0]), queue[1..];
          ghost var during := View();
          ServingStep(before, Step.Receive, during, init, panics);
          FollowsJoin(old(View()), trace, before, [Step.Receive], during);
          ghost var end := EndCommand(init, panics);
          FollowsJoin(old(View()), trace + [Step.Receive], during, [end], View());
          trace := trace + [Step.Receive] + [end];
        }
      }
    }

    /** The rest of the thread's life, once no sender is left. */
    method RunToExit(init: Init, panics: Cmd -> bool) returns (ghost trace: seq<Step>)
      requires Inv(View()) && Senders(View()) == 0
      modifies `worker, `queue, `stateAlive, `handled, `initialised
      ensures Follows(old(View()), trace, View()) && worker.Exited?
      ensures (handled, worker.panicked) == Outcome(old(View()), init, panics)
    {
      hide Follows, Outcome;
      ghost var s := View();
      trace := [];
      Stay(s);
      if worker == Initialising {
        match init {
          case InitOk =>
            worker, initialised, stateAlive := Receiving, Some(true), true;
            trace := [InitSucceeds];
          case InitError =>
            worker, initialised, queue := Exited(false), Some(false), [];
            trace := [InitFails];
          case InitPanic =>
            worker, queue := Exited(true), [];
            trace := [Panic];
        }
        ServingStep(s, trace[0], View(), init, panics);
      } else if worker.Handling? {
        ghost var end := EndCommand(init, panics);
        trace := [end];
      }
      if worker == Receiving {
        ghost var before := View();
        ghost var rest := Receive(init, panics);
        FollowsJoin(s, trace, before, rest, View());
        trace := trace + rest;
      }
      OutcomeOfExited(View(), init, panics);
    }

    /** Dropping the handle gives up the sender and detaches the worker. */
    method Drop()
      requires CanCall(View())
      modifies `cmdTx, `joinHandle, `owner
      ensures View() == Next(old(View()), DropThread)
    {
      cmdTx, joinHandle, owner := false, false, Dropped;
    }

    /** Give up the sender and take the join handle, when no clone is left. */
    method CloseChannel() returns (join: bool, ghost trace: seq<Step>)
      requires Inv(View()) && CanCall(View()) && (cmdTx ==> clones == 0)
      modifies `cmdTx, `joinHandle, `owner
      ensures Follows(old(View()), trace, View())
      ensures join == old(cmdTx) && clones == 0 && Inv(View())
      ensures View() == old(View()).(own := false, handle := false, owner := if join then Joining else RepeatedOk)
    {
      hide Follows, Inv;
      ghost var s := View();
      CallFacts(s);
      OneStep(s, CountSenders, Next(s, CountSenders));
      join := joinHandle;
      cmdTx, joinHandle := false, false;
      owner := if join then Joining else RepeatedOk;
      OneStep(Next(s, CountSenders), TakeSender, View());
      FollowsJoin(s, [CountSenders], Next(s, CountSenders), [TakeSender], View());
      trace := [CountSenders] + [TakeSender];
      FollowsKeepsInv(s, trace, View());
    }

    /** Close the channel and wait for the worker. Nobody else can act while the only sender waits, so the
        wait is the rest of the worker's life. */
    method ShutdownAndJoin(init: Init, panics: Cmd -> bool) returns (r: Shutdown, ghost trace: seq<Step>)
      requires Inv(View()) && CanCall(View())
      modifies this
      ensures Follows(old(View()), trace, View()) && Inv(View())
      ensures old(cmdTx) && old(clones) > 0 ==> r == SendersAlive(old(clones) + 1) && View() == old(View())
      ensures !old(cmdTx) ==> r == Joined && View() == old(View()).(owner := RepeatedOk)
      ensures old(cmdTx) && old(clones) == 0 ==>
                && !cmdTx && !joinHandle && !stateAlive && worker.Exited?
                && (handled, worker.panicked) == Outcome(old(View()), init, panics)
                && r == (if worker.panicked then WorkerPanicked else Joined)
    {
      hide Follows, Outcome, Inv, Pending, Next, Enabled;
      ghost var s := View();
      CallFacts(s);
      if cmdTx && clones != 0 {
        RefusedStep(s);
        return SendersAlive(clones + 1), [CountSenders];
      }
      var join;
      join, trace := CloseChannel();
      if !join {
        return Joined, trace;
      }
      ghost var joining := View();
      SameOutcome(s, joining, init, panics);
      ghost var rest := RunToExit(init, panics);
      FollowsJoin(s, trace, joining, rest, View());
      trace := trace + rest;
      ghost var gone := View();
      owner := if worker.panicked then ReturnedErr else ReturnedOk;
      JoinedStep(gone, View());
      FollowsJoin(s, trace, gone, [JoinReturns], View());
      trace := trace + [JoinReturns];
      FollowsKeepsInv(s, trace, View());
      GoneFacts(View());
      r := if worker.panicked then WorkerPanicked else Joined;
    }
  }

  lemma RefusedStep(s: State)
    requires CanCall(s) && s.own && s.clones > 0
    ensures Follows(s, [CountSenders], s)
  {
    OneStep(s, CountSenders, s);
  }

  lemma JoinedStep(s: State, s2: State)
    requires s.owner == Joining && s.worker.Exited?
    requires s2 == s.(owner := if s.worker.panicked then ReturnedErr else ReturnedOk)
    ensures Follows(s, [JoinReturns], s2)
  {
    OneStep(s, JoinReturns, s2);
  }

  /** A caller of the handle holds sender and join handle together or neither, and without them nobody
      sends. */
  lemma CallFacts(s: State)
    requires Inv(s) && CanCall(s)
    ensures s.own <==> s.handle
    ensures !s.own ==> s.clones == 0
  {
  }

  lemma GoneFacts(s: State)
    requires Inv(s) && s.worker.Exited?
    ensures !s.stateAlive
  {
  }

  lemma SameOutcome(s: State, s1: State, init: Init, panics: Cmd -> bool)
    requires s1.worker == s.worker && s1.queue == s.queue && s1.handled == s.handled
    ensures Outcome(s1, init, panics) == Outcome(s, init, panics)
  {
  }

  lemma Stay(s: State)
    ensures Follows(s, [], s)
  {
  }
}

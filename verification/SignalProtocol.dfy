/** The signal protocol of the `timeout` command, as a labelled step system.

    The steps interleave the wrapper's main program, its Python signal handlers
    (which may nest), the kernel that delivers signals, signals arriving from
    outside and the command's exit. Kernel rules follow POSIX.1-2017 section 2.4:
    a blocked signal stays pending, a pending signal coalesces with another of its
    kind, and ignoring a signal discards a pending one.
 */
module SignalProtocol {
  import opened Sets

  // ---- signals ------------------------------------------------------------------

  datatype Signal = ALRM | CHLD | HUP | INT | QUIT | TERM

  function Number(g: Signal): nat {
    match g
    case HUP => 1 case INT => 2 case QUIT => 3 case ALRM => 14 case TERM => 15 case CHLD => 17
  }

  const KILL := 9

  /** The signals the wrapper handles, and holds except while it waits. */
  const HELD: set<Signal> := {ALRM, CHLD, HUP, INT, QUIT, TERM}

  /** The signal a handler passes on: an expiry is passed on as TERM. */
  function Passed(g: Signal): Signal { if g == ALRM then TERM else g }

  // ---- states ---------------------------------------------------------------------

  datatype Status = ExitCode(code: nat) | KilledBy(signum: nat)

  datatype Child = Unstarted | Running | Zombie(status: Status) | Reaped(status: Status)

  /** Where a handler stands; each stage is the next system call it makes. */
  datatype Stage = Entry | ToChild | Ignore | ToGroup | ContChild | ContGroup

  datatype Frame = Frame(caught: Signal, stage: Stage)

  /** Where the main program stands. `Blocking`, `Unblocking` and `FailUnblocking`
      are inside a mask change that has taken effect and still runs handlers. */
  datatype Pc =
    | Starting
    | StartBlocking
    | Spawning
    | Forked
    | FailUnblocking(code: nat)
    | Polling
    | Polled
    | Unblocking
    | Reading
    | Woken
    | Blocking
    | Finishing
    | Exited(code: nat)
    | DiedBy(signum: nat)

  /** `sent` records the signals passed to the child's pid, `waited` that some wait began. */
  datatype State = State(
    pc: Pc, mask: set<Signal>, pending: set<Signal>, tripped: set<Signal>, ignored: set<Signal>,
    frames: seq<Frame>, pipe: nat, child: Child, recorded: bool, timedOut: bool,
    sent: set<Signal>, waited: bool)

  datatype Config = Config(foreground: bool, capacity: nat)

  predicate ValidConfig(c: Config) { c.capacity > 0 }

  predicate Ended(s: State) { s.pc.Exited? || s.pc.DiedBy? }

  /** Handlers and the wake-up pipe are in place; the inherited mask is arbitrary. */
  predicate Init(s: State) {
    && s.pc == Starting && s.pending <= HELD && s.tripped == {} && s.ignored == {} && s.frames == []
    && s.pipe == 0 && s.child == Unstarted && !s.recorded && !s.timedOut && s.sent == {} && !s.waited
  }

  // ---- steps ------------------------------------------------------------------------

  datatype Step =
    | Arrive(g: Signal)
    | ChildExits(status: Status)
    | Deliver(g: Signal)
    | Handle(g: Signal)
    | HandlerStep
    | Main
    | SpawnFails(code: nat)
    | Finish(coreLimited: bool)

  /** Steps the wrapper or the kernel takes by itself. */
  predicate Internal(step: Step) { !step.Arrive? && !step.ChildExits? }

  /** Every pending signal that is not blocked has been delivered and handled. */
  predicate Quiet(s: State) { s.tripped == {} && s.pending <= s.mask }

  predicate MainEnabled(s: State) {
    s.frames == [] &&
    match s.pc
    case Starting | Spawning | Forked | Polled | Woken => true
    case StartBlocking | Blocking => s.tripped == {}
    case Unblocking | FailUnblocking(_) => Quiet(s)
    case Polling => s.child.Running? || s.child.Zombie?
    case Reading => s.pipe > 0
    case Finishing | Exited(_) | DiedBy(_) => false
  }

  predicate Enabled(s: State, step: Step) {
    !Ended(s) &&
    match step
    case Arrive(g) => true
    case ChildExits(_) => s.child == Running
    case Deliver(g) => g in s.pending && g !in s.mask
    case Handle(g) => g in s.tripped
    case HandlerStep => s.frames != []
    case Main => MainEnabled(s)
    case SpawnFails(_) => s.frames == [] && (s.pc == Spawning || s.pc == Forked)
    case Finish(_) => s.pc == Finishing && s.frames == [] && s.child.Reaped?
  }

  /** What the wrapper does with the reaped status. */
  function Outcome(status: Status, timedOut: bool, coreLimited: bool): Pc {
    match status
    case ExitCode(code) => Exited(if timedOut then 124 else code)
    case KilledBy(signum) =>
      if timedOut then Exited(if signum == KILL then 128 + signum else 124)
      else if coreLimited then DiedBy(signum) else Exited(128 + signum)
  }

  function Top(s: State): Frame
    requires s.frames != []
  {
    s.frames[|s.frames| - 1]
  }

  function SetTop(s: State, stage: Stage): State
    requires s.frames != []
  {
    s.(frames := s.frames[|s.frames| - 1 := Frame(Top(s).caught, stage)])
  }

  function Return(s: State): State
    requires s.frames != []
  {
    s.(frames := s.frames[..|s.frames| - 1])
  }

  /** One system call of the innermost handler. */
  function RunHandler(c: Config, s: State): State
    requires s.frames != []
  {
    var g := Passed(Top(s).caught);
    match Top(s).stage
    case Entry =>
      if Top(s).caught == CHLD then Return(s)
      else
        var t := if Top(s).caught == ALRM then s.(timedOut := true) else s;
        if !s.recorded then t.(pc := Exited(128 + Number(g))) else SetTop(t, ToChild)
    case ToChild =>
      var t := s.(sent := s.sent + {g});
      if c.foreground then Return(t) else SetTop(t, Ignore)
    case Ignore => SetTop(s.(ignored := s.ignored + {g}, pending := s.pending - {g}), ToGroup)
    case ToGroup => SetTop(s, ContChild)
    case ContChild => SetTop(s, ContGroup)
    case ContGroup => Return(s)
  }

  function RunMain(s: State): State {
    match s.pc
    case Starting => s.(pc := StartBlocking, mask := s.mask + HELD)
    case StartBlocking => s.(pc := Spawning)
    case Spawning => s.(pc := Forked, child := Running)
    case Forked => s.(pc := Polling, recorded := true)
    case FailUnblocking(code) => s.(pc := Exited(code))
    case Polling =>
      if s.child.Zombie? then s.(pc := Finishing, child := Reaped(s.child.status)) else s.(pc := Polled)
    case Polled => s.(pc := Unblocking, mask := s.mask - HELD)
    case Unblocking => s.(pc := Reading, waited := true)
    case Reading => s.(pc := Woken, pipe := if s.pipe <= 512 then 0 else s.pipe - 512)
    case Woken => s.(pc := Blocking, mask := s.mask + HELD)
    case Blocking => s.(pc := Polling)
    case Finishing | Exited(_) | DiedBy(_) => s
  }

  function Next(c: Config, s: State, step: Step): State
    requires Enabled(s, step)
  {
    match step
    case Arrive(g) => if g in s.ignored then s else s.(pending := s.pending + {g})
    case ChildExits(status) => s.(child := Zombie(status), pending := s.pending + {CHLD})
    case Deliver(g) =>
      s.(pending := s.pending - {g}, tripped := s.tripped + {g},
         pipe := if s.pipe < c.capacity then s.pipe + 1 else s.pipe)
    case Handle(g) =>
      if g in s.ignored then s.(tripped := s.tripped - {g})
      else s.(tripped := s.tripped - {g}, frames := s.frames + [Frame(g, Entry)])
    case HandlerStep => RunHandler(c, s)
    case Main => RunMain(s)
    case SpawnFails(code) => s.(pc := FailUnblocking(code), child := Unstarted, mask := s.mask - HELD)
    case Finish(coreLimited) => s.(pc := Outcome(s.child.status, s.timedOut, coreLimited))
  }

  // ---- runs ---------------------------------------------------------------------------

  /** `states` are the states of a run that takes `steps`. */
  ghost predicate IsRun(c: Config, states: seq<State>, steps: seq<Step>) {
    && |states| == |steps| + 1
    && forall i :: 0 <= i < |steps| ==> Enabled(states[i], steps[i]) && states[i + 1] == Next(c, states[i], steps[i])
  }

  ghost predicate Reachable(c: Config, s: State) {
    exists states, steps :: IsRun(c, states, steps) && Init(states[0]) && states[|steps|] == s
  }

  // ---- the invariant -------------------------------------------------------------------

  /** The main program is between a block that has finished and the next unblock. */
  predicate Guarded(pc: Pc) {
    pc.Spawning? || pc.Forked? || pc.Polling? || pc.Polled? || pc.Finishing?
  }

  predicate HoldingMask(pc: Pc) { Guarded(pc) || pc.StartBlocking? || pc.Blocking? }

  predicate OpenMask(pc: Pc) {
    pc.FailUnblocking? || pc.Unblocking? || pc.Reading? || pc.Woken?
  }

  predicate BeforeCommand(pc: Pc) {
    pc.Starting? || pc.StartBlocking? || pc.Spawning? || pc.FailUnblocking?
  }

  predicate InLoop(pc: Pc) {
    pc.Polling? || pc.Polled? || pc.Unblocking? || pc.Reading? || pc.Woken? || pc.Blocking?
  }

  /** A handler past a system call has had its effect. */
  predicate FrameOk(c: Config, s: State, f: Frame) {
    && (!f.stage.Entry? ==> f.caught != CHLD && s.recorded)
    && (!f.stage.Entry? && !f.stage.ToChild? ==> !c.foreground && Passed(f.caught) in s.sent)
    && (f.stage.ToGroup? || f.stage.ContChild? || f.stage.ContGroup? ==> Passed(f.caught) in s.ignored)
  }

  ghost predicate Inv(c: Config, s: State) {
    && s.ignored <= s.sent && s.ignored !! s.pending && ALRM !in s.ignored && CHLD !in s.sent
    && s.pipe <= c.capacity
    && (HoldingMask(s.pc) ==> HELD <= s.mask)
    && (OpenMask(s.pc) ==> HELD !! s.mask)
    && (Guarded(s.pc) ==> s.tripped == {} && s.frames == [])
    && (BeforeCommand(s.pc) ==> s.child == Unstarted && !s.recorded)
    && (s.pc.Forked? ==> (s.child.Running? || s.child.Zombie?) && !s.recorded)
    && (InLoop(s.pc) ==> (s.child.Running? || s.child.Zombie?) && s.recorded)
    && (s.pc.Finishing? ==> s.child.Reaped? && s.recorded)
    && (s.pc.Polled? || s.pc.Unblocking? || s.pc.Reading? ==> s.child.Zombie? ==> CHLD in s.pending || s.pipe > 0)
    && (forall i :: 0 <= i < |s.frames| ==> FrameOk(c, s, s.frames[i]))
    && (s.sent != {} ==> s.recorded)
    && (s.waited ==> s.recorded)
  }

  lemma EverySignalHeld(g: Signal)
    ensures g in HELD
  {
    match g
    case ALRM => case CHLD => case HUP => case INT => case QUIT => case TERM =>
  }

  lemma InitInv(c: Config, s: State)
    requires Init(s)
    ensures Inv(c, s)
  {
  }

  lemma StepInv(c: Config, s: State, step: Step)
    requires ValidConfig(c) && Inv(c, s) && Enabled(s, step) && !Ended(Next(c, s, step))
    ensures Inv(c, Next(c, s, step))
  {
    if step.HandlerStep? { HandlerInv(c, s); return; }
    if step.Main? { MainInv(c, s); return; }
    forall g: Signal ensures g in HELD { EverySignalHeld(g); }
    if step.Handle? {
      var t := Next(c, s, step);
      assert forall i :: 0 <= i < |s.frames| ==> t.frames[i] == s.frames[i];
    }
  }

  lemma MainInv(c: Config, s: State)
    requires Inv(c, s) && MainEnabled(s) && !Ended(s)
    ensures !Ended(RunMain(s)) ==> Inv(c, RunMain(s))
  {
    hide FrameOk;
    forall g: Signal ensures g in HELD { EverySignalHeld(g); }
  }

  lemma HandlerInv(c: Config, s: State)
    requires Inv(c, s) && s.frames != [] && !Ended(s) && !Ended(RunHandler(c, s))
    ensures Inv(c, RunHandler(c, s))
  {
    var t := RunHandler(c, s);
    assert FrameOk(c, s, s.frames[|s.frames| - 1]);
    forall i | 0 <= i < |t.frames| ensures FrameOk(c, t, t.frames[i]) {
      assert FrameOk(c, s, s.frames[i]);
    }
  }

  // ---- safety over every run --------------------------------------------------------------

  /** Extend an invariant along a run, up to the state in which the wrapper ends. */
  lemma {:induction false} RunInv(c: Config, states: seq<State>, steps: seq<Step>, n: nat)
    requires ValidConfig(c) && IsRun(c, states, steps) && Init(states[0])
    requires n <= |steps| && !Ended(states[n])
    ensures Inv(c, states[n])
    decreases n
  {
    hide Inv, Next, Enabled, Init;
    if n == 0 {
      InitInv(c, states[0]);
    } else {
      assert Enabled(states[n - 1], steps[n - 1]) && states[n] == Next(c, states[n - 1], steps[n - 1]);
      EnabledRuns(states[n - 1], steps[n - 1]);
      RunInv(c, states, steps, n - 1);
      StepInv(c, states[n - 1], steps[n - 1]);
    }
  }

  lemma ReachableInv(c: Config, s: State)
    requires ValidConfig(c) && Reachable(c, s) && !Ended(s)
    ensures Inv(c, s)
  {
    var states, steps :| IsRun(c, states, steps) && Init(states[0]) && states[|steps|] == s;
    RunInv(c, states, steps, |steps|);
  }

  /** The next handler step sends a signal to the child's pid. */
  predicate SignalsChild(s: State) {
    s.frames != [] && (Top(s).stage.ToChild? || Top(s).stage.ContChild?)
  }

  /** The next handler step sends the passed signal to the wrapper's own group. */
  predicate SignalsGroup(s: State) { s.frames != [] && Top(s).stage.ToGroup? }

  /** No handler signals a pid that `poll` has reaped or that was never recorded, and the
      group is signalled only with a signal the wrapper already ignores. */
  lemma SignalsAreSafe(c: Config, s: State)
    requires ValidConfig(c) && Reachable(c, s) && !Ended(s)
    ensures SignalsChild(s) ==> s.recorded && (s.child.Running? || s.child.Zombie?)
    ensures SignalsGroup(s) ==> Passed(Top(s).caught) in s.ignored && !c.foreground
  {
    ReachableInv(c, s);
    if s.frames != [] { assert FrameOk(c, s, s.frames[|s.frames| - 1]); }
  }

  // ---- no lost wake-up, and an end after the command exits ------------------------------------

  /** A wait that began or is about to begin after the command exited will be ended: a
      byte is in the pipe, or the pending SIGCHLD can be delivered and writes one. */
  lemma NoLostWakeUp(c: Config, s: State)
    requires ValidConfig(c) && Reachable(c, s) && s.pc == Reading && s.child.Zombie?
    ensures s.pipe > 0 || (Enabled(s, Deliver(CHLD)) && Next(c, s, Deliver(CHLD)).pipe > 0)
  {
    ReachableInv(c, s);
  }

  function StagesLeft(stage: Stage): nat {
    match stage
    case Entry => 5 case ToChild => 4 case Ignore => 3 case ToGroup => 2 case ContChild => 1 case ContGroup => 0
  }

  function FramesLeft(frames: seq<Frame>): nat {
    if frames == [] then 0 else FramesLeft(frames[..|frames| - 1]) + StagesLeft(frames[|frames| - 1].stage) + 1
  }

  function PcLeft(pc: Pc): nat {
    match pc
    case Polled => 6 case Unblocking => 5 case Reading => 4 case Woken => 3 case Blocking => 2 case Polling => 1
    case _ => 0
  }

  /** How much the wrapper has left to do once the command has exited. */
  function Left(s: State): nat {
    9 * |s.pending| + 8 * |s.tripped| + FramesLeft(s.frames) +
    (if Ended(s) then 0 else 2 + PcLeft(s.pc))
  }

  ghost predicate CommandExited(c: Config, s: State) {
    Inv(c, s) && s.recorded && (s.child.Zombie? || s.child.Reaped?)
  }

  /** Some step the wrapper or kernel takes by itself is possible: nothing blocks for good. */
  lemma SomeStepEnabled(c: Config, s: State) returns (step: Step)
    requires CommandExited(c, s) && !Ended(s)
    ensures Internal(step) && Enabled(s, step)
  {
    forall g: Signal ensures g in HELD { EverySignalHeld(g); }
    if s.frames != [] { return HandlerStep; }
    if g :| g in s.tripped { return Handle(g); }
    if g :| g in s.pending && g !in s.mask { return Deliver(g); }
    if s.pc.Finishing? { return Finish(false); }
    return Main;
  }

  lemma FramesSnoc(frames: seq<Frame>, f: Frame)
    ensures FramesLeft(frames + [f]) == FramesLeft(frames) + StagesLeft(f.stage) + 1
  {
    assert (frames + [f])[..|frames|] == frames;
  }

  /** A handler step returns from the innermost handler or moves it on. */
  lemma HandlerFrames(c: Config, s: State)
    requires s.frames != [] && !Ended(s) && !Ended(RunHandler(c, s))
    ensures var t, below := RunHandler(c, s), s.frames[..|s.frames| - 1];
            t.frames == below ||
            (t.frames != [] && t.frames == below + [Top(t)] && StagesLeft(Top(t).stage) < StagesLeft(Top(s).stage))
  {
    hide Passed, Number;
    var t := RunHandler(c, s);
    match Top(s).stage
    case Entry => SameDepth(s, t);
    case ToChild => SameDepth(s, t);
    case Ignore => SameDepth(s, t);
    case ToGroup => SameDepth(s, t);
    case ContChild => SameDepth(s, t);
    case ContGroup =>
  }

  lemma SameDepth(s: State, t: State)
    requires s.frames != []
    ensures |t.frames| == |s.frames| && t.frames[..|s.frames| - 1] == s.frames[..|s.frames| - 1] ==>
              t.frames == s.frames[..|s.frames| - 1] + [Top(t)]
  {
  }

  lemma HandlerStepLeft(c: Config, s: State)
    requires s.frames != [] && !Ended(s) && !Ended(RunHandler(c, s))
    ensures FramesLeft(RunHandler(c, s).frames) < FramesLeft(s.frames)
  {
    hide FramesLeft, RunHandler, StagesLeft;
    var t := RunHandler(c, s);
    var n := |s.frames| - 1;
    HandlerFrames(c, s);
    assert s.frames == s.frames[..n] + [Top(s)];
    FramesSnoc(s.frames[..n], Top(s));
    if |t.frames| == |s.frames| { FramesSnoc(s.frames[..n], Top(t)); }
  }

  lemma DeliverLeavesLess(c: Config, s: State, g: Signal)
    requires Enabled(s, Deliver(g))
    ensures Left(Next(c, s, Deliver(g))) < Left(s)
  {
    hide FramesLeft, PcLeft;
    OneLess(s.pending, g);
    OneMore(s.tripped, g);
  }

  lemma HandleLeavesLess(c: Config, s: State, g: Signal)
    requires Enabled(s, Handle(g))
    ensures Left(Next(c, s, Handle(g))) < Left(s)
  {
    hide FramesLeft, PcLeft;
    OneLess(s.tripped, g);
    FramesSnoc(s.frames, Frame(g, Entry));
  }

  lemma ProgramStepLeavesLess(c: Config, s: State, step: Step)
    requires CommandExited(c, s) && (step.Main? || step.Finish?) && Enabled(s, step)
    ensures Left(Next(c, s, step)) < Left(s)
  {
    hide FramesLeft, FrameOk, HELD;
  }

  lemma HandlerStepLeavesLess(c: Config, s: State)
    requires s.frames != [] && !Ended(s) && s.recorded
    ensures Left(RunHandler(c, s)) < Left(s)
  {
    hide FramesLeft;
    var t := RunHandler(c, s);
    assert !Ended(t);
    HandlerStepLeft(c, s);
    SubsetSize(t.pending, s.pending);
  }

  lemma ExitedStays(c: Config, s: State, step: Step)
    requires CommandExited(c, s) && Enabled(s, step) && !Ended(Next(c, s, step))
    ensures Next(c, s, step).recorded && (Next(c, s, step).child.Zombie? || Next(c, s, step).child.Reaped?)
  {
    hide FrameOk, HELD, Passed, Number, Outcome;
    if step.HandlerStep? {
      assert RunHandler(c, s).child == s.child;
    } else {
      hide RunHandler;
    }
  }

  /** A signal from outside adds what delivering and handling it takes. */
  lemma ArrivalAdds(c: Config, s: State, g: Signal)
    requires Enabled(s, Arrive(g))
    ensures Left(Next(c, s, Arrive(g))) <= Left(s) + 9
  {
    hide FramesLeft, PcLeft;
    OneMore(s.pending, g);
  }

  /** Every such step leaves less to do. */
  lemma StepLeavesLess(c: Config, s: State, step: Step)
    requires CommandExited(c, s) && Internal(step) && Enabled(s, step)
    ensures Left(Next(c, s, step)) < Left(s)
  {
    match step
    case HandlerStep => hide Left; HandlerStepLeavesLess(c, s);
    case Handle(g) => hide Left; HandleLeavesLess(c, s, g);
    case Deliver(g) => hide Left; DeliverLeavesLess(c, s, g);
    case Main => hide Left; ProgramStepLeavesLess(c, s, step);
    case Finish(_) => hide Left; ProgramStepLeavesLess(c, s, step);
    case SpawnFails(_) => assert false;
  }

  /** How many signals reach the wrapper from outside. */
  function Arrivals(steps: seq<Step>): nat {
    if steps == [] then 0 else Arrivals(steps[..|steps| - 1]) + if steps[|steps| - 1].Arrive? then 1 else 0
  }

  /** Once the command has exited, the wrapper takes at most `Left` steps of its own, and nine
      more for each signal that still arrives. */
  lemma {:induction false} EndsAfterExit(c: Config, states: seq<State>, steps: seq<Step>)
    requires ValidConfig(c) && IsRun(c, states, steps) && CommandExited(c, states[0])
    ensures |steps| - Arrivals(steps) + Left(states[|steps|]) <= Left(states[0]) + 9 * Arrivals(steps)
    ensures !Ended(states[|steps|]) ==> CommandExited(c, states[|steps|])
    decreases |steps|
  {
    hide Left, Inv, Next, Enabled;
    if steps == [] {
    } else {
      var n := |steps| - 1;
      assert IsRun(c, states[..n + 1], steps[..n]);
      EndsAfterExit(c, states[..n + 1], steps[..n]);
      assert Enabled(states[n], steps[n]) && states[n + 1] == Next(c, states[n], steps[n]);
      StillRunning(states[n], steps[n]);
      ExitedStep(c, states[n], steps[n]);
    }
  }

  lemma StillRunning(s: State, step: Step)
    requires Enabled(s, step)
    ensures !Ended(s)
  {
  }

  lemma ExitedStep(c: Config, s: State, step: Step)
    requires ValidConfig(c) && CommandExited(c, s) && Enabled(s, step)
    ensures Left(Next(c, s, step)) + (if step.Arrive? then 0 else 1) <= Left(s) + (if step.Arrive? then 9 else 0)
    ensures !Ended(Next(c, s, step)) ==> CommandExited(c, Next(c, s, step))
  {
    assert step.Arrive? || Internal(step) by { OnlySignalsArrive(c, s, step); }
    hide Left, Inv, Next, Enabled;
    if step.Arrive? {
      ArrivalAdds(c, s, step.g);
    } else {
      StepLeavesLess(c, s, step);
    }
    if !Ended(Next(c, s, step)) {
      StepInv(c, s, step);
      ExitedStays(c, s, step);
    }
  }

  /** Of the steps from outside, the command's exit is over. */
  lemma OnlySignalsArrive(c: Config, s: State, step: Step)
    requires CommandExited(c, s) && Enabled(s, step)
    ensures step.Arrive? || Internal(step)
  {
    hide FrameOk, HELD;
  }

  // ---- signals that arrive while the command is being started ---------------------------------

  /** `g` has not been lost: it is pending, caught, being handled, or passed on. */
  ghost predicate Kept(g: Signal, s: State) {
    || g in s.pending || g in s.tripped || Passed(g) in s.sent
    || exists i :: 0 <= i < |s.frames| && BeingPassed(g, s.frames[i])
  }

  predicate BeingPassed(g: Signal, f: Frame) { f.caught == g && (f.stage.Entry? || f.stage.ToChild?) }

  lemma HandlerKeeps(c: Config, s: State, g: Signal)
    requires s.frames != [] && FrameOk(c, s, Top(s)) && Kept(g, s) && g != CHLD && !Ended(RunHandler(c, s))
    ensures Kept(g, RunHandler(c, s))
  {
    var t := RunHandler(c, s);
    if i :| 0 <= i < |s.frames| && BeingPassed(g, s.frames[i]) {
      FrameKept(c, s, g, i);
    } else {
      hide RunHandler, FrameOk;
      HandlerMoves(c, s);
    }
  }

  /** A handler step never takes back what was caught or passed on, and drops only what it passed. */
  lemma HandlerMoves(c: Config, s: State)
    requires s.frames != [] && FrameOk(c, s, Top(s))
    ensures var t := RunHandler(c, s);
            t.tripped == s.tripped && s.sent <= t.sent &&
            forall g :: g in s.pending ==> g in t.pending || (g == Passed(Top(s).caught) && g in t.sent)
    ensures forall g :: Passed(Passed(g)) == Passed(g)
  {
  }

  lemma FrameKept(c: Config, s: State, g: Signal, i: nat)
    requires i < |s.frames| && BeingPassed(g, s.frames[i]) && g != CHLD && !Ended(RunHandler(c, s))
    ensures Kept(g, RunHandler(c, s))
  {
    var t := RunHandler(c, s);
    if i < |s.frames| - 1 || Top(s).stage.Entry? {
      assert BeingPassed(g, t.frames[i]);
    } else {
      assert Passed(g) in t.sent;
    }
  }

  lemma StepKeeps(c: Config, s: State, step: Step, g: Signal)
    requires ValidConfig(c) && Inv(c, s) && Enabled(s, step) && !Ended(Next(c, s, step))
    requires Kept(g, s) && g != CHLD
    ensures Kept(g, Next(c, s, step))
  {
    var t := Next(c, s, step);
    if step.HandlerStep? {
      assert FrameOk(c, s, Top(s));
      HandlerKeeps(c, s, g);
    } else if step.Handle? && g !in s.pending && Passed(g) !in s.sent {
      if g in s.tripped && step.g == g {
        assert t.frames[|s.frames|] == Frame(g, Entry);
        assert BeingPassed(g, t.frames[|s.frames|]);
      } else if i :| 0 <= i < |s.frames| && BeingPassed(g, s.frames[i]) {
        assert t.frames[i] == s.frames[i];
      }
    }
  }

  /** While the command is being started no handler runs, so a held signal stays pending. */
  lemma NoHandlerWhileStarting(c: Config, s: State)
    requires ValidConfig(c) && Reachable(c, s) && (s.pc == Spawning || s.pc == Forked)
    ensures s.frames == [] && s.tripped == {} && !Enabled(s, HandlerStep)
    ensures forall g :: !Enabled(s, Deliver(g)) && !Enabled(s, Handle(g))
  {
    ReachableInv(c, s);
    forall g: Signal ensures g in HELD { EverySignalHeld(g); }
  }

  /** A run from a state in which the command is being started with `g` pending. */
  ghost predicate StartedWith(c: Config, states: seq<State>, steps: seq<Step>, g: Signal) {
    && IsRun(c, states, steps) && Inv(c, states[0])
    && (states[0].pc == Spawning || states[0].pc == Forked)
    && g in states[0].pending && g != CHLD
  }

  lemma {:induction false} KeptAlong(c: Config, states: seq<State>, steps: seq<Step>, g: Signal, n: nat)
    requires ValidConfig(c) && StartedWith(c, states, steps, g) && n <= |steps| && !Ended(states[n])
    ensures Inv(c, states[n]) && Kept(g, states[n])
    ensures states[n].waited ==> Passed(g) in states[n].sent
    decreases n
  {
    hide Inv, Kept, Next, Enabled, HELD;
    if n == 0 {
      StartKept(c, states[0], g);
    } else {
      var s, step := states[n - 1], steps[n - 1];
      assert Enabled(s, step) && states[n] == Next(c, s, step);
      EnabledRuns(s, step);
      KeptAlong(c, states, steps, g, n - 1);
      StepInv(c, s, step);
      StepKeeps(c, s, step, g);
      EverySignalHeld(g);
      SentGrows(c, s, step);
      if states[n].waited && !s.waited { FirstWait(c, s, step, g); }
    }
  }

  lemma StartKept(c: Config, s: State, g: Signal)
    requires Inv(c, s) && (s.pc == Spawning || s.pc == Forked) && g in s.pending
    ensures Kept(g, s) && !s.waited
  {
  }

  lemma EnabledRuns(s: State, step: Step)
    requires Enabled(s, step)
    ensures !Ended(s)
  {
  }

  lemma SentGrows(c: Config, s: State, step: Step)
    requires Enabled(s, step)
    ensures s.sent <= Next(c, s, step).sent
  {
  }

  /** The first wait begins only after every signal kept so far has been passed on. */
  lemma FirstWait(c: Config, s: State, step: Step, g: Signal)
    requires Inv(c, s) && Kept(g, s) && g in HELD && Enabled(s, step)
    requires !s.waited && Next(c, s, step).waited
    ensures Passed(g) in Next(c, s, step).sent
  {
    assert step == Main && s.pc == Unblocking;
  }

  /** A held signal that arrives while the command is being started is passed to the
      command, by a handler that finds it recorded, before the first wait begins. */
  lemma HeldSignalReachesCommand(c: Config, states: seq<State>, steps: seq<Step>, g: Signal)
    requires ValidConfig(c) && StartedWith(c, states, steps, g)
    requires !Ended(states[|steps|]) && states[|steps|].waited
    ensures Passed(g) in states[|steps|].sent && states[|steps|].recorded
  {
    KeptAlong(c, states, steps, g, |steps|);
  }

  /** Before the first wait begins nothing is passed on, but for handlers run by the unblock in front of it. */
  predicate NothingPassedYet(s: State) {
    !s.waited ==> (s.sent == {} || s.pc == Unblocking) && !s.pc.Reading? && !s.pc.Woken? && !s.pc.Blocking?
  }

  lemma PassedOnlyByUnblock(c: Config, s: State, step: Step)
    requires Inv(c, s) && Enabled(s, step) && NothingPassedYet(s)
    ensures NothingPassedYet(Next(c, s, step)) || Ended(Next(c, s, step))
    ensures Ended(Next(c, s, step)) && Next(c, s, step).recorded ==>
              step.Finish? && Next(c, s, step).sent == s.sent && Next(c, s, step).waited == s.waited
  {
    hide HELD;
    if step.HandlerStep? { assert FrameOk(c, s, Top(s)); }
  }

  /** Within the first `n` steps some poll found the command running. */
  ghost predicate FoundRunning(states: seq<State>, steps: seq<Step>, n: nat)
    requires |states| == |steps| + 1 && n <= |steps|
  {
    exists i :: 0 <= i < n && PollsRunning(states[i], steps[i])
  }

  predicate PollsRunning(s: State, step: Step) { step == Main && s.pc == Polling && s.child.Running? }

  /** A wait has begun, or is about to: the command was found running. */
  predicate Waits(s: State) { s.waited || s.pc == Polled || s.pc == Unblocking }

  predicate BeforeWait(s: State) {
    s.pc.Spawning? || s.pc.Forked? || s.pc.FailUnblocking? || s.pc.Polling? || s.pc.Finishing?
  }

  lemma WaitsStep(c: Config, s: State, step: Step)
    requires Inv(c, s) && Enabled(s, step) && (Waits(s) || BeforeWait(s))
    ensures Waits(Next(c, s, step)) || BeforeWait(Next(c, s, step)) || Ended(Next(c, s, step))
    ensures !Ended(Next(c, s, step)) ==> (Waits(Next(c, s, step)) <==> Waits(s) || PollsRunning(s, step))
  {
    hide FrameOk, HELD;
  }

  lemma FoundRunningStep(states: seq<State>, steps: seq<Step>, n: nat)
    requires |states| == |steps| + 1 && n < |steps|
    ensures FoundRunning(states, steps, n + 1) <==> FoundRunning(states, steps, n) || PollsRunning(states[n], steps[n])
  {
    if FoundRunning(states, steps, n) {
      var i :| 0 <= i < n && PollsRunning(states[i], steps[i]);
      assert PollsRunning(states[i], steps[i]);
    }
  }

  lemma {:induction false} StartRemembered(c: Config, states: seq<State>, steps: seq<Step>, g: Signal, n: nat)
    requires ValidConfig(c) && StartedWith(c, states, steps, g) && n <= |steps| && !Ended(states[n])
    ensures NothingPassedYet(states[n]) && (Waits(states[n]) || BeforeWait(states[n]))
    ensures Waits(states[n]) <==> FoundRunning(states, steps, n)
    decreases n
  {
    hide Inv, Next, Enabled, NothingPassedYet, Waits, BeforeWait, FoundRunning, PollsRunning, Kept;
    if n == 0 {
      StartUnwaited(c, states, steps, g);
    } else {
      var s, step := states[n - 1], steps[n - 1];
      assert Enabled(s, step) && states[n] == Next(c, s, step);
      EnabledRuns(s, step);
      StartRemembered(c, states, steps, g, n - 1);
      KeptAlong(c, states, steps, g, n - 1);
      PassedOnlyByUnblock(c, s, step);
      WaitsStep(c, s, step);
      FoundRunningStep(states, steps, n - 1);
    }
  }

  lemma StartUnwaited(c: Config, states: seq<State>, steps: seq<Step>, g: Signal)
    requires StartedWith(c, states, steps, g)
    ensures NothingPassedYet(states[0]) && !Waits(states[0]) && BeforeWait(states[0]) && !FoundRunning(states, steps, 0)
  {
  }

  /** When the wrapper has ended after a start that succeeded, a signal held during the start
      was passed on exactly when some wait began, which is when a poll found the command
      still running. A command that has exited by the first poll leaves the signal unhandled. */
  lemma HeldSignalPassedIffWaited(c: Config, states: seq<State>, steps: seq<Step>, g: Signal)
    requires ValidConfig(c) && StartedWith(c, states, steps, g) && |steps| > 0
    requires !Ended(states[|steps| - 1]) && Ended(states[|steps|]) && states[|steps|].recorded
    ensures Passed(g) in states[|steps|].sent <==> states[|steps|].waited
    ensures states[|steps|].waited <==> FoundRunning(states, steps, |steps|)
  {
    hide Inv, Next, Enabled, Kept, FoundRunning, BeforeWait;
    var n := |steps|;
    var s, step := states[n - 1], steps[n - 1];
    assert Enabled(s, step) && states[n] == Next(c, s, step);
    KeptAlong(c, states, steps, g, n - 1);
    StartRemembered(c, states, steps, g, n - 1);
    PassedOnlyByUnblock(c, s, step);
    FoundRunningStep(states, steps, n - 1);
    FinishFrom(c, s, step);
  }

  lemma FinishFrom(c: Config, s: State, step: Step)
    requires Enabled(s, step) && step.Finish?
    ensures s.pc == Finishing
  {
  }

  const EARLY_EXIT: seq<Step> :=
    [Main, Main, Arrive(TERM), Main, Main, ChildExits(ExitCode(0)), Main, Finish(true)]

  function EarlyExitState(i: nat): State
    requires i <= 8
  {
    var s := State(Starting, {}, {}, {}, {}, [], 0, Unstarted, false, false, {}, false);
    if i == 0 then s
    else
      var held := s.(pc := StartBlocking, mask := s.mask + HELD);
      if i == 1 then held
      else if i == 2 then held.(pc := Spawning)
      else if i == 3 then held.(pc := Spawning, pending := {TERM})
      else if i == 4 then held.(pc := Forked, pending := {TERM}, child := Running)
      else
        var polling := held.(pc := Polling, pending := {TERM}, child := Running, recorded := true);
        if i == 5 then polling
        else if i == 6 then polling.(pending := {TERM, CHLD}, child := Zombie(ExitCode(0)))
        else polling.(pc := if i == 7 then Finishing else Exited(0), pending := {TERM, CHLD}, child := Reaped(ExitCode(0)))
  }

  lemma EarlyExitStep(c: Config, i: nat)
    requires i < 8
    ensures Enabled(EarlyExitState(i), EARLY_EXIT[i])
    ensures EarlyExitState(i + 1) == Next(c, EarlyExitState(i), EARLY_EXIT[i])
  {
    hide HELD;
    assert {} + {TERM} == {TERM} && {TERM} + {CHLD} == {TERM, CHLD};
  }

  /** Such a run: a signal arrives during the start, the command exits at once, and the wrapper
      ends with the command's status, having passed nothing on. */
  lemma HeldSignalCanBeLost(c: Config)
    ensures var states := seq(9, i requires 0 <= i < 9 => EarlyExitState(i));
            && IsRun(c, states, EARLY_EXIT) && Init(states[0])
            && EARLY_EXIT[2] == Arrive(TERM) && states[2].pc == Spawning
            && states[8].pc == Exited(0) && states[8].recorded && states[8].sent == {} && TERM in states[8].pending
  {
    hide Next, Enabled;
    var states := seq(9, i requires 0 <= i < 9 => EarlyExitState(i));
    forall i | 0 <= i < |EARLY_EXIT|
      ensures Enabled(states[i], EARLY_EXIT[i]) && states[i + 1] == Next(c, states[i], EARLY_EXIT[i])
    {
      EarlyExitStep(c, i);
    }
  }

  /** If the start fails instead, the wrapper ends with 128 plus a signal passed on by a
      handler, never with the start's own error status. */
  lemma HeldSignalEndsFailedStart(c: Config, states: seq<State>, steps: seq<Step>, g: Signal)
    requires ValidConfig(c) && StartedWith(c, states, steps, g) && |steps| > 0
    requires !Ended(states[|steps| - 1]) && Ended(states[|steps|]) && !states[|steps|].recorded
    ensures steps[|steps| - 1] == HandlerStep
    ensures states[|steps|].pc == Exited(128 + Number(Passed(Top(states[|steps| - 1]).caught)))
    ensures var code := match Top(states[|steps| - 1]).caught
                        case HUP => 129 case INT => 130 case QUIT => 131 case TERM => 143 case ALRM => 143 case CHLD => 0;
            code > 0 && states[|steps|].pc == Exited(code)
  {
    var n := |steps|;
    var s, step := states[n - 1], steps[n - 1];
    assert Enabled(s, step);
    KeptAlong(c, states, steps, g, n - 1);
    EverySignalHeld(g);
    EndOfFailedStart(c, s, step, g);
  }

  lemma EndOfFailedStart(c: Config, s: State, step: Step, g: Signal)
    requires Inv(c, s) && Kept(g, s) && g in HELD && Enabled(s, step)
    requires Ended(Next(c, s, step)) && !Next(c, s, step).recorded
    ensures step == HandlerStep
    ensures Next(c, s, step).pc == Exited(128 + Number(Passed(Top(s).caught)))
    ensures Top(s).caught != CHLD
  {
    hide HELD, FrameOk, Outcome;
    assert !s.recorded ==> s.sent == {};
  }

  // ---- the final status ------------------------------------------------------------------------

  /** The alarm handler has begun within the first `n` steps. */
  ghost predicate AlarmHandled(states: seq<State>, steps: seq<Step>, n: nat)
    requires |states| == |steps| + 1 && n <= |steps|
  {
    exists i :: 0 <= i < n && AlarmStep(states[i], steps[i])
  }

  predicate AlarmStep(s: State, step: Step) {
    step == HandlerStep && s.frames != [] && Top(s) == Frame(ALRM, Entry)
  }

  ghost predicate ExitedWith(steps: seq<Step>, n: nat, status: Status)
    requires n <= |steps|
  {
    exists i :: 0 <= i < n && steps[i] == ChildExits(status)
  }

  /** What the wrapper remembers is what happened. */
  lemma {:induction false} History(c: Config, states: seq<State>, steps: seq<Step>, n: nat)
    requires IsRun(c, states, steps) && Init(states[0]) && n <= |steps|
    ensures states[n].timedOut <==> AlarmHandled(states, steps, n)
    ensures states[n].child.Zombie? || states[n].child.Reaped? ==> ExitedWith(steps, n, states[n].child.status)
    decreases n
  {
    if n == 0 {
    } else {
      var s, step := states[n - 1], steps[n - 1];
      assert Enabled(s, step) && states[n] == Next(c, s, step);
      History(c, states, steps, n - 1);
      TimedOutStep(c, s, step);
      if !step.ChildExits? && (states[n].child.Zombie? || states[n].child.Reaped?) { ChildStep(c, s, step); }
      if AlarmHandled(states, steps, n - 1) {
        var i :| 0 <= i < n - 1 && AlarmStep(states[i], steps[i]);
        assert AlarmHandled(states, steps, n);
      }
      if step.ChildExits? {
        assert steps[n - 1] == ChildExits(states[n].child.status);
      } else if s.child.Zombie? || s.child.Reaped? {
        var i :| 0 <= i < n - 1 && steps[i] == ChildExits(s.child.status);
        assert steps[i] == ChildExits(s.child.status);
      }
    }
  }

  lemma TimedOutStep(c: Config, s: State, step: Step)
    requires Enabled(s, step)
    ensures Next(c, s, step).timedOut <==> s.timedOut || AlarmStep(s, step)
  {
  }

  lemma ChildStep(c: Config, s: State, step: Step)
    requires Enabled(s, step) && !step.ChildExits?
    requires Next(c, s, step).child.Zombie? || Next(c, s, step).child.Reaped?
    ensures s.child.Zombie? || s.child.Reaped?
    ensures Next(c, s, step).child.status == s.child.status
  {
  }

  /** The documented status: the command's own, 124 after an expiry, 137 when the command
      was killed outright after an expiry, and otherwise the command's signal, by dying of
      it or, when the core limit cannot be set, as 128 plus its number. */
  lemma FinalStatus(c: Config, states: seq<State>, steps: seq<Step>, coreLimited: bool)
    requires IsRun(c, states, steps) && Init(states[0]) && |steps| > 0
    requires steps[|steps| - 1] == Finish(coreLimited)
    ensures var expired, pc := AlarmHandled(states, steps, |steps|), states[|steps|].pc;
            exists status :: ExitedWith(steps, |steps|, status) &&
              match status
              case ExitCode(code) => pc == Exited(if expired then 124 else code)
              case KilledBy(signum) =>
                if expired then pc == Exited(if signum == 9 then 137 else 124)
                else pc == if coreLimited then DiedBy(signum) else Exited(128 + signum)
  {
    var n := |steps|;
    assert Enabled(states[n - 1], steps[n - 1]);
    History(c, states, steps, n);
    assert ExitedWith(steps, n, states[n].child.status);
  }

  // ---- what a handler sends -------------------------------------------------------------------

  /** The system calls a handler makes from `stage` on: the signal to the child's pid, and unless
      in the foreground ignoring it, the signal to the own group, and SIGCONT to both. */
  function CallsFrom(c: Config, stage: Stage): seq<Stage>
    decreases StagesLeft(stage)
  {
    match stage
    case Entry => [Entry] + CallsFrom(c, ToChild)
    case ToChild => if c.foreground then [ToChild] else [ToChild] + CallsFrom(c, Ignore)
    case Ignore => [Ignore] + CallsFrom(c, ToGroup)
    case ToGroup => [ToGroup] + CallsFrom(c, ContChild)
    case ContChild => [ContChild] + CallsFrom(c, ContGroup)
    case ContGroup => [ContGroup]
  }

  /** The calls the handler at depth `d` makes between states `i` and `j`. */
  ghost function CallsMade(states: seq<State>, steps: seq<Step>, i: nat, j: nat, d: nat): seq<Stage>
    requires |states| == |steps| + 1 && j <= |steps|
    decreases j
  {
    if j <= i then []
    else
      CallsMade(states, steps, i, j - 1, d) +
      if steps[j - 1].HandlerStep? && |states[j - 1].frames| == d + 1 then [Top(states[j - 1]).stage] else []
  }

  /** While the handler at depth `d` runs from state `i` on, other handlers may run above it. */
  ghost predicate Handling(c: Config, states: seq<State>, steps: seq<Step>, i: nat, j: nat, d: nat) {
    && IsRun(c, states, steps) && i <= j <= |steps| && !Ended(states[j])
    && (forall k :: i <= k < j ==> |states[k].frames| > d)
    && |states[i].frames| > d && states[i].recorded && states[i].frames[d].caught != CHLD
  }

  /** A handler makes its calls in order, each once, and when it has returned it has made all. */
  lemma {:induction false} HandlerMakesItsCalls(c: Config, states: seq<State>, steps: seq<Step>, i: nat, j: nat, d: nat)
    requires Handling(c, states, steps, i, j, d)
    ensures states[j].recorded
    ensures |states[j].frames| <= d ==> CallsMade(states, steps, i, j, d) == CallsFrom(c, states[i].frames[d].stage)
    ensures |states[j].frames| > d ==>
              && states[j].frames[d].caught == states[i].frames[d].caught
              && CallsMade(states, steps, i, j, d) + CallsFrom(c, states[j].frames[d].stage) == CallsFrom(c, states[i].frames[d].stage)
    decreases j
  {
    hide Next, Enabled, CallsFrom;
    if i == j {
    } else {
      var s, step := states[j - 1], steps[j - 1];
      assert Enabled(s, step) && states[j] == Next(c, s, step);
      StillRunning(s, step);
      HandlerMakesItsCalls(c, states, steps, i, j - 1, d);
      OneStepOfIt(c, s, step, d);
      var before := CallsMade(states, steps, i, j - 1, d);
      var own := if step.HandlerStep? && |s.frames| == d + 1 then [s.frames[d].stage] else [];
      assert CallsMade(states, steps, i, j, d) == before + own;
      if |states[j].frames| > d {
        CallsRegroup(before, own, CallsFrom(c, states[j].frames[d].stage));
      }
    }
  }

  lemma CallsRegroup(a: seq<Stage>, b: seq<Stage>, c: seq<Stage>)
    ensures a + (b + c) == a + b + c
  {
  }

  lemma OneStepOfIt(c: Config, s: State, step: Step, d: nat)
    requires Enabled(s, step) && !Ended(Next(c, s, step)) && |s.frames| > d && s.recorded && s.frames[d].caught != CHLD
    ensures var t := Next(c, s, step);
            var own := step.HandlerStep? && |s.frames| == d + 1;
            && t.recorded
            && (|t.frames| <= d ==> own && CallsFrom(c, s.frames[d].stage) == [s.frames[d].stage])
            && (|t.frames| > d ==>
                  && t.frames[d].caught == s.frames[d].caught
                  && CallsFrom(c, s.frames[d].stage) == (if own then [s.frames[d].stage] else []) + CallsFrom(c, t.frames[d].stage))
  {
    if step.HandlerStep? {
      hide CallsFrom, Passed;
      if |s.frames| == d + 1 { OwnStep(c, s); } else { AboveIt(c, s, d); }
    } else {
      hide CallsFrom, RunHandler, Outcome, HELD;
    }
  }

  /** The innermost handler makes the call its stage names, and goes on to the next one or returns. */
  lemma OwnStep(c: Config, s: State)
    requires s.frames != [] && s.recorded && Top(s).caught != CHLD
    ensures var t, n, stage := RunHandler(c, s), |s.frames| - 1, Top(s).stage;
            && t.recorded && n <= |t.frames| <= n + 1
            && (|t.frames| == n ==> CallsFrom(c, stage) == [stage])
            && (|t.frames| == n + 1 ==>
                  t.frames[n].caught == Top(s).caught && CallsFrom(c, stage) == [stage] + CallsFrom(c, t.frames[n].stage))
  {
    hide Passed, Number;
    match Top(s).stage
    case Entry =>
    case ToChild =>
    case Ignore =>
    case ToGroup =>
    case ContChild =>
    case ContGroup =>
  }

  lemma AboveIt(c: Config, s: State, d: nat)
    requires d < |s.frames| - 1 && s.recorded
    ensures var t := RunHandler(c, s); t.recorded && |t.frames| > d && t.frames[d] == s.frames[d]
  {
    hide Passed, Number;
  }

  /** Once the handler of a signal has returned, the signal, SIGTERM for an expiry, has been sent
      to the child, and ignored unless in the foreground. */
  lemma HandlerHasSent(c: Config, s: State)
    requires Inv(c, s) && s.frames != [] && !Ended(s) && Top(s).caught != CHLD && s.recorded
    requires |RunHandler(c, s).frames| < |s.frames|
    ensures var t, g := RunHandler(c, s), Top(s).caught;
            && (if g == ALRM then TERM else g) in t.sent
            && (!c.foreground ==> (if g == ALRM then TERM else g) in t.ignored)
  {
    assert FrameOk(c, s, s.frames[|s.frames| - 1]);
  }

  // ---- the status of a start that failed --------------------------------------------------------

  /** The error of the start is the last one there was. */
  lemma {:induction false} StartErrors(c: Config, states: seq<State>, steps: seq<Step>, n: nat)
    requires IsRun(c, states, steps) && Init(states[0]) && n <= |steps| && states[n].pc.FailUnblocking?
    ensures exists i :: 0 <= i < n && steps[i] == SpawnFails(states[n].pc.code)
    decreases n
  {
    var s, step := states[n - 1], steps[n - 1];
    assert Enabled(s, step) && states[n] == Next(c, s, step);
    if step.SpawnFails? {
    } else {
      SameError(c, s, step);
      StartErrors(c, states, steps, n - 1);
    }
  }

  lemma SameError(c: Config, s: State, step: Step)
    requires Enabled(s, step) && !step.SpawnFails? && Next(c, s, step).pc.FailUnblocking?
    ensures s.pc == Next(c, s, step).pc
  {
  }

  /** Unless a handler ends it first, the wrapper ends with the status of the failed start. */
  lemma FailedStartStatus(c: Config, states: seq<State>, steps: seq<Step>)
    requires IsRun(c, states, steps) && Init(states[0]) && |steps| > 0
    requires Ended(states[|steps|]) && !steps[|steps| - 1].HandlerStep? && !steps[|steps| - 1].Finish?
    ensures exists i :: 0 <= i < |steps| && steps[i].SpawnFails? && states[|steps|].pc == Exited(steps[i].code)
  {
    var n := |steps| - 1;
    assert Enabled(states[n], steps[n]) && states[n + 1] == Next(c, states[n], steps[n]);
    FailedEnds(c, states[n], steps[n]);
    StartErrors(c, states, steps, n);
  }

  lemma FailedEnds(c: Config, s: State, step: Step)
    requires Enabled(s, step) && Ended(Next(c, s, step)) && !step.HandlerStep? && !step.Finish?
    ensures s.pc.FailUnblocking? && Next(c, s, step).pc == Exited(s.pc.code)
  {
  }

  // ---- what the kernel and the interpreter do ---------------------------------------------------

  /** A handler starts only for a signal that is not ignored, so the one sent to the own group is
      not handled again. */
  lemma HandlerStarts(c: Config, s: State, step: Step)
    requires Enabled(s, step) && |Next(c, s, step).frames| > |s.frames|
    ensures step.Handle? && step.g !in s.ignored && Next(c, s, step).frames == s.frames + [Frame(step.g, Entry)]
  {
    hide Passed, Number, Outcome;
  }

  /** The wait ends by a byte in the pipe and in no other way, and takes up to 512 of them. */
  lemma WaitEndsByByte(c: Config, s: State)
    requires s.pc == Reading && Enabled(s, Main)
    ensures s.pipe > 0 && s.frames == []
    ensures Next(c, s, Main).pipe == (if s.pipe > 512 then s.pipe - 512 else 0) && Next(c, s, Main).pc == Woken
  {
  }

  /** The start can fail both before and after the command has been forked. */
  lemma StartMayFail(s: State, code: nat)
    ensures Enabled(s, SpawnFails(code)) <==> s.frames == [] && (s.pc.Spawning? || s.pc.Forked?)
  {
  }

  /** The wrapper may inherit any mask, and any of its signals may already be pending. */
  lemma AnyInheritance(mask: set<Signal>, pending: set<Signal>)
    ensures Init(State(Starting, mask, pending, {}, {}, [], 0, Unstarted, false, false, {}, false))
  {
    forall g: Signal ensures g in HELD { EverySignalHeld(g); }
  }

  /** The calls of a handler that send: to the child and to the own group, the signal and SIGCONT. */
  lemma SendingStages(s: State)
    requires s.frames != []
    ensures SignalsChild(s) <==> Top(s).stage in {ToChild, ContChild}
    ensures SignalsGroup(s) <==> Top(s).stage in {ToGroup}
  {
  }

  /** From the moment Python handles a signal to the handler's return the handler sends the signal
      to the child, and unless in the foreground ignores it, sends it to the own group, and sends
      SIGCONT to both, in this order and each once; other handlers may run in between. */
  lemma SignalIsPassedOn(c: Config, states: seq<State>, steps: seq<Step>, i: nat, j: nat, g: Signal)
    requires IsRun(c, states, steps) && i < j <= |steps| && steps[i] == Handle(g) && g != CHLD && g !in states[i].ignored
    requires states[i].recorded && !Ended(states[j])
    requires |states[j].frames| <= |states[i].frames| && forall k :: i < k < j ==> |states[k].frames| > |states[i].frames|
    ensures CallsMade(states, steps, i + 1, j, |states[i].frames|) ==
            if c.foreground then [Entry, ToChild] else [Entry, ToChild, Ignore, ToGroup, ContChild, ContGroup]
  {
    hide Next, Enabled, CallsMade, CallsFrom, Handling, Ended;
    var d := |states[i].frames|;
    HandledFrame(c, states, steps, i, g);
    PassesOn(c, states, steps, i + 1, j, d, g);
  }

  lemma PassesOn(c: Config, states: seq<State>, steps: seq<Step>, i: nat, j: nat, d: nat, g: Signal)
    requires IsRun(c, states, steps) && i <= j <= |steps| && !Ended(states[j])
    requires |states[i].frames| == d + 1 && states[i].frames[d] == Frame(g, Entry) && states[i].recorded && g != CHLD
    requires |states[j].frames| <= d && forall k :: i <= k < j ==> |states[k].frames| > d
    ensures CallsMade(states, steps, i, j, d) ==
            if c.foreground then [Entry, ToChild] else [Entry, ToChild, Ignore, ToGroup, ContChild, ContGroup]
  {
    assert Handling(c, states, steps, i, j, d);
    hide Next, Enabled, CallsMade, CallsFrom, Handling, Ended;
    HandlerMakesItsCalls(c, states, steps, i, j, d);
    AllCalls(c);
  }

  lemma HandledFrame(c: Config, states: seq<State>, steps: seq<Step>, i: nat, g: Signal)
    requires IsRun(c, states, steps) && i < |steps| && steps[i] == Handle(g) && g !in states[i].ignored
    ensures states[i + 1].frames == states[i].frames + [Frame(g, Entry)] && states[i + 1].recorded == states[i].recorded
  {
    hide RunHandler, Outcome;
    assert Enabled(states[i], steps[i]) && states[i + 1] == Next(c, states[i], steps[i]);
  }

  lemma AllCalls(c: Config)
    ensures CallsFrom(c, Entry) == if c.foreground then [Entry, ToChild] else [Entry, ToChild, Ignore, ToGroup, ContChild, ContGroup]
  {
    assert CallsFrom(c, ContChild) == [ContChild] + CallsFrom(c, ContGroup);
    assert CallsFrom(c, ToGroup) == [ToGroup] + CallsFrom(c, ContChild);
    assert CallsFrom(c, Ignore) == [Ignore] + CallsFrom(c, ToGroup);
    assert CallsFrom(c, Entry) == [Entry] + CallsFrom(c, ToChild);
  }

  /** The command has exited once it exits, or is found to have exited, after it was recorded. */
  lemma ExitIsSeen(c: Config, s: State, step: Step)
    requires ValidConfig(c) && Inv(c, s) && Enabled(s, step) && s.recorded
    requires step.ChildExits? || (step.Main? && s.pc.Polling? && s.child.Zombie?)
    ensures CommandExited(c, Next(c, s, step))
  {
    hide FrameOk, HELD, RunHandler, Passed, Number;
    StepInv(c, s, step);
  }

  lemma {:induction false} ArrivalsAre(steps: seq<Step>)
    ensures Arrivals(steps) == |set i | 0 <= i < |steps| && steps[i].Arrive?|
    decreases |steps|
  {
    if steps == [] {
    } else {
      var n := |steps| - 1;
      var rest := steps[..n];
      ArrivalsAre(rest);
      var before := set i | 0 <= i < n && rest[i].Arrive?;
      assert before == set i | 0 <= i < n && steps[i].Arrive?;
      assert (set i | 0 <= i < |steps| && steps[i].Arrive?) == before + if steps[n].Arrive? then {n} else {};
    }
  }
}

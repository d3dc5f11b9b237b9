/**
 The offload handshake of uarch_contention_measurement/main.c: requests and an optional filler run as
 fibres on one core, the blocking emulated accelerator is a second thread, and the two share one
 descriptor portal, one acceptance flag and one completion status that every request reuses.
 */
module Handshake {
  import opened Prelude

  /**
   How requests are driven. `Blocking`: a request spins on its completion. `Filled`: it yields, and a
   filler polls the completion before the request is resumed. `Unfilled`: it yields but there is no
   filler, so nothing waits for the completion; the loop permits this pairing although the program's
   entry point never selects it.
   */
  datatype Mode = Blocking | Filled | Unfilled

  datatype Core = Reset | PutDesc | Publish | AwaitAccept | AwaitDone | Post | Clear | Stopped

  datatype Device = Top | Notify | Check | Take | Release

  datatype State = State(
    mode: Mode,
    total: nat,
    // the request core: the request being driven and where it is
    core: Core,
    current: nat,
    // shared memory
    status: nat,
    portal: nat,
    pending: bool,
    // the accelerator thread
    device: Device,
    inflight: bool,
    serving: nat,
    // history, read by no step
    accepted: seq<nat>,
    completed: seq<nat>,
    processed: seq<nat>,
    unseen: bool,
    lost: nat)

  datatype Action = CoreStep | DeviceStep(elapsed: bool)

  /** The status and the portal start out uninitialised. */
  function Start(mode: Mode, total: nat, status: nat, portal: nat): State {
    State(mode, total, if total == 0 then Stopped else Reset, 0, status, portal, false,
          Top, false, 0, [], [], [], false, 0)
  }

  /** Clearing the status: a completion nobody has looked at yet is gone. */
  function ClearStatus(s: State): State {
    s.(status := 0, unseen := false, lost := s.lost + if s.unseen then 1 else 0)
  }

  function CoreAct(s: State): State {
    match s.core
    case Reset => ClearStatus(s).(core := PutDesc)
    case PutDesc => s.(portal := s.current, core := Publish)
    case Publish => s.(pending := true, core := AwaitAccept)
    case AwaitAccept => if s.pending then s else s.(core := if s.mode.Unfilled? then Clear else AwaitDone)
    case AwaitDone => if s.status == 1 then s.(unseen := false, core := Post) else s
    case Post => s.(processed := s.processed + [s.current], core := Clear)
    case Clear =>
      ClearStatus(s).(current := s.current + 1, core := if s.current + 1 < s.total then Reset else Stopped)
    case Stopped => s
  }

  function DeviceAct(s: State, elapsed: bool): State {
    match s.device
    case Top => if s.inflight then (if elapsed then s.(device := Notify) else s) else s.(device := Check)
    case Notify =>
      s.(status := 1, inflight := false, device := Check,
         completed := s.completed + [s.serving], unseen := true)
    case Check => s.(device := if s.pending then Take else Top)
    case Take => s.(serving := s.portal, inflight := true, accepted := s.accepted + [s.portal], device := Release)
    case Release => s.(pending := false, device := Top)
  }

  function Apply(s: State, a: Action): State {
    match a
    case CoreStep => CoreAct(s)
    case DeviceStep(elapsed) => DeviceAct(s, elapsed)
  }

  /** The state after a sequence of steps. */
  function Run(s: State, acts: seq<Action>): State
    decreases |acts|
  {
    if acts == [] then s else Run(Apply(s, acts[0]), acts[1..])
  }

  // ----- the invariant of the two modes that wait for completions

  ghost predicate Ordered(s: State) {
    && s.accepted == Iota(|s.accepted|)
    && s.completed == Iota(|s.completed|)
    && s.processed == Iota(|s.processed|)
    && |s.processed| == s.current + (if s.core.Clear? then 1 else 0)
    && |s.completed| == |s.accepted| - (if s.inflight then 1 else 0)
    && (s.inflight ==> s.serving == |s.completed|)
    && (s.device.Notify? ==> s.inflight)
    && (s.device.Release? ==> s.inflight && s.pending)
    && (s.device in {Check, Take} ==> !s.inflight)
    && (s.device.Take? ==> s.pending)
  }

  ghost predicate PerPhase(s: State) {
    match s.core
    case Stopped => s.current == s.total && Idle(s) && |s.accepted| == s.current && (s.current > 0 ==> s.status == 0)
    case _ =>
      && s.current < s.total
      && match s.core
         case Reset => Idle(s) && |s.accepted| == s.current && (s.current > 0 ==> s.status == 0)
         case PutDesc => Idle(s) && |s.accepted| == s.current && s.status == 0
         case Publish => Idle(s) && |s.accepted| == s.current && s.status == 0 && s.portal == s.current
         case AwaitAccept =>
           && (s.pending ==> s.portal == s.current)
           && |s.accepted| == s.current + (if s.pending && !s.device.Release? then 0 else 1)
           && s.unseen == (s.status == 1)
           && s.status == |s.completed| - s.current
         case AwaitDone =>
           && !s.pending && |s.accepted| == s.current + 1
           && s.unseen == (s.status == 1)
           && s.status == |s.completed| - s.current
         case Post => Idle(s) && |s.accepted| == s.current + 1
         case Clear => Idle(s) && |s.accepted| == s.current + 1
         case Stopped => true
  }

  /** Nothing is pending or in flight, and every completion has been looked at. */
  ghost predicate Idle(s: State) { !s.pending && !s.inflight && !s.unseen }

  ghost predicate Inv(s: State) { !s.mode.Unfilled? && Ordered(s) && PerPhase(s) && s.lost == 0 }

  lemma SubmitInv(s: State)
    requires Inv(s) && s.core in {Reset, PutDesc, Publish}
    ensures Inv(CoreAct(s))
  {
  }

  lemma AwaitInv(s: State)
    requires Inv(s) && s.core in {AwaitAccept, AwaitDone}
    ensures Inv(CoreAct(s))
  {
  }

  lemma FinishInv(s: State)
    requires Inv(s) && s.core in {Post, Clear, Stopped}
    ensures Inv(CoreAct(s))
  {
  }

  lemma CoreInv(s: State)
    requires Inv(s)
    ensures Inv(CoreAct(s))
  {
    hide Inv, CoreAct;
    match s.core
    case Reset => SubmitInv(s);
    case PutDesc => SubmitInv(s);
    case Publish => SubmitInv(s);
    case AwaitAccept => AwaitInv(s);
    case AwaitDone => AwaitInv(s);
    case _ => FinishInv(s);
  }

  lemma PollInv(s: State, elapsed: bool)
    requires Inv(s) && s.device in {Top, Check}
    ensures Inv(DeviceAct(s, elapsed))
  {
  }

  lemma NotifyInv(s: State)
    requires Inv(s) && s.device.Notify?
    ensures Inv(DeviceAct(s, true))
  {
  }

  lemma TakeInv(s: State)
    requires Inv(s) && s.device.Take?
    ensures Inv(DeviceAct(s, true))
  {
  }

  lemma ReleaseInv(s: State)
    requires Inv(s) && s.device.Release?
    ensures Inv(DeviceAct(s, true))
  {
  }

  lemma DeviceInv(s: State, elapsed: bool)
    requires Inv(s)
    ensures Inv(DeviceAct(s, elapsed))
  {
    hide Inv;
    match s.device
    case Notify => NotifyInv(s);
    case Take => TakeInv(s);
    case Release => ReleaseInv(s);
    case _ => PollInv(s, elapsed);
  }

  /** Every step of either thread keeps the invariant. */
  lemma StepInv(s: State, a: Action)
    requires Inv(s)
    ensures Inv(Apply(s, a))
  {
    hide Inv, CoreAct, DeviceAct;
    match a
    case CoreStep => CoreInv(s);
    case DeviceStep(elapsed) => DeviceInv(s, elapsed);
  }

  lemma {:induction false} RunInv(s: State, acts: seq<Action>)
    requires Inv(s)
    ensures Inv(Run(s, acts))
    decreases |acts|
  {
    hide Inv, Apply;
    if acts != [] {
      StepInv(s, acts[0]);
      RunInv(Apply(s, acts[0]), acts[1..]);
    }
  }

  lemma StepKeepsMode(s: State, a: Action)
    ensures Apply(s, a).mode == s.mode && Apply(s, a).total == s.total
  {
  }

  lemma {:induction false} RunKeepsMode(s: State, acts: seq<Action>)
    ensures Run(s, acts).mode == s.mode && Run(s, acts).total == s.total
    decreases |acts|
  {
    hide Apply;
    if acts != [] {
      StepKeepsMode(s, acts[0]);
      RunKeepsMode(Apply(s, acts[0]), acts[1..]);
    }
  }

  // ----- what every run guarantees

  /**
   For any number of requests and any interleaving: ids are accepted, completed and post-processed
   in order and once each, at most one offload is outstanding, a request is post-processed only after
   the accelerator completed it, and no clearing of the shared status loses a completion.
   */
  lemma HandshakeSafe(mode: Mode, total: nat, status: nat, portal: nat, acts: seq<Action>)
    requires !mode.Unfilled?
    ensures var s := Run(Start(mode, total, status, portal), acts);
            && s.accepted == Iota(|s.accepted|) && s.completed == Iota(|s.completed|)
            && s.processed == Iota(|s.processed|)
            && |s.processed| <= |s.completed| <= |s.accepted| <= |s.completed| + 1
            && |s.accepted| <= total
            && (s.core.Post? ==> s.current < |s.completed|)
            && (s.core.Reset? || s.core.Stopped? ==> s.current > 0 ==> s.status == 0)
            && s.lost == 0
  {
    var s := Run(Start(mode, total, status, portal), acts);
    RunInv(Start(mode, total, status, portal), acts);
    RunKeepsMode(Start(mode, total, status, portal), acts);
    hide Run;
  }

  lemma HandshakeFinishes(mode: Mode, total: nat, status: nat, portal: nat, acts: seq<Action>)
    requires !mode.Unfilled?
    ensures var s := Run(Start(mode, total, status, portal), acts);
            s.core.Stopped? ==> s.accepted == s.completed == s.processed == Iota(total) && !s.pending && !s.inflight
  {
    RunInv(Start(mode, total, status, portal), acts);
    RunKeepsMode(Start(mode, total, status, portal), acts);
    hide Run;
  }

  // ----- the pairing that loses completions

  lemma {:induction false} RunThen(s: State, acts: seq<Action>, a: Action)
    ensures Run(s, acts + [a]) == Apply(Run(s, acts), a)
    decreases |acts|
  {
    hide Apply;
    if acts == [] {
      assert (acts + [a])[1..] == [];
    } else {
      assert (acts + [a])[1..] == acts[1..] + [a];
      RunThen(Apply(s, acts[0]), acts[1..], a);
    }
  }

  /** Without a filler the accelerator can complete the first request just before the loop clears the status. */
  lemma UnfilledLoses(total: nat, status: nat, portal: nat) returns (acts: seq<Action>)
    requires total >= 1
    ensures Run(Start(Unfilled, total, status, portal), acts).lost == 1
  {
    hide Run;
    var s := Start(Unfilled, total, status, portal);
    acts := [];
    assert Run(s, acts) == s by { RunNothing(s); }
    acts := Then(s, acts, CoreStep);
    acts := Then(s, acts, CoreStep);
    acts := Then(s, acts, CoreStep);
    acts := Then(s, acts, DeviceStep(true));
    acts := Then(s, acts, DeviceStep(true));
    acts := Then(s, acts, DeviceStep(true));
    acts := Then(s, acts, DeviceStep(true));
    acts := Then(s, acts, DeviceStep(true));
    acts := Then(s, acts, DeviceStep(true));
    acts := Then(s, acts, CoreStep);
    acts := Then(s, acts, CoreStep);
  }

  lemma RunNothing(s: State)
    ensures Run(s, []) == s
  {
  }

  lemma Then(s: State, acts: seq<Action>, a: Action) returns (more: seq<Action>)
    ensures Run(s, more) == Apply(Run(s, acts), a)
  {
    more := acts + [a];
    RunThen(s, acts, a);
  }

  /** No run loses a completion exactly when requests are paired with something that waits for it. */
  lemma LosesNothingExactly(mode: Mode, total: nat, status: nat, portal: nat)
    ensures (forall acts :: Run(Start(mode, total, status, portal), acts).lost == 0) <==> !mode.Unfilled? || total == 0
  {
    hide Run, Start;
    var s := Start(mode, total, status, portal);
    if !mode.Unfilled? {
      forall acts ensures Run(s, acts).lost == 0 { HandshakeSafe(mode, total, status, portal, acts); }
    } else if total == 0 {
      forall acts ensures Run(s, acts).lost == 0 { NothingToDo(mode, status, portal, acts); }
    } else {
      var acts := UnfilledLoses(total, status, portal);
    }
  }

  lemma {:induction false} StoppedStays(s: State, acts: seq<Action>)
    requires s.core.Stopped?
    ensures Run(s, acts).lost == s.lost
    decreases |acts|
  {
    if acts != [] { StoppedStays(Apply(s, acts[0]), acts[1..]); }
  }

  lemma NothingToDo(mode: Mode, status: nat, portal: nat, acts: seq<Action>)
    ensures Run(Start(mode, 0, status, portal), acts).lost == 0
  {
    StoppedStays(Start(mode, 0, status, portal), acts);
  }

  // ----- nothing completes before its time

  predicate Untimely(acts: seq<Action>) { forall k :: 0 <= k < |acts| ==> acts[k] != DeviceStep(true) }

  lemma UntimelyStep(s: State, a: Action)
    requires !s.device.Notify? && a != DeviceStep(true)
    ensures !Apply(s, a).device.Notify? && Apply(s, a).completed == s.completed
    ensures s.device.Top? && s.inflight && a.DeviceStep? ==> Apply(s, a) == s
  {
  }

  /** A run in which no latency elapses completes nothing, in any mode. */
  lemma {:induction false} NoTimeNoCompletion(s: State, acts: seq<Action>)
    requires !s.device.Notify? && Untimely(acts)
    ensures Run(s, acts).completed == s.completed && !Run(s, acts).device.Notify?
    decreases |acts|
  {
    hide Apply;
    if acts != [] {
      UntimelyStep(s, acts[0]);
      NoTimeNoCompletion(Apply(s, acts[0]), acts[1..]);
    }
  }

  // ----- every fair run finishes

  function CoreRank(c: Core): nat {
    match c
    case Reset => 7 case PutDesc => 6 case Publish => 5 case AwaitAccept => 4
    case AwaitDone => 3 case Post => 2 case Clear => 1 case Stopped => 0
  }

  predicate CoreWaits(s: State) {
    (s.core.AwaitAccept? && s.pending) || (s.core.AwaitDone? && s.status != 1)
  }

  /** What is left for the core to do. */
  function CoreLeft(s: State): int { if s.core.Stopped? then 0 else 8 * (s.total - s.current) + CoreRank(s.core) }

  /** How far the device is from what the core waits for. */
  function Wait(s: State): nat {
    if !CoreWaits(s) then 0
    else match s.device
      case Top => if s.inflight then 2 else 6
      case Notify => 1
      case Check => if s.pending then 5 else 7
      case Take => 4
      case Release => 3
  }

  /** The step that is bound to bring the run nearer to its end. */
  function Helpful(s: State): Action { if CoreWaits(s) then DeviceStep(true) else CoreStep }

  predicate Nearer(t: State, s: State) { CoreLeft(t) < CoreLeft(s) || (CoreLeft(t) == CoreLeft(s) && Wait(t) < Wait(s)) }

  /** No step leads away from the end, and the helpful one leads nearer to it. */
  lemma StepNearer(s: State, a: Action)
    requires Inv(s) && !s.core.Stopped?
    ensures CoreLeft(s) > 0 && CoreLeft(Apply(s, a)) >= 0
    ensures Nearer(Apply(s, a), s) || (CoreLeft(Apply(s, a)) == CoreLeft(s) && Wait(Apply(s, a)) == Wait(s))
    ensures a == Helpful(s) ==> Nearer(Apply(s, a), s)
    ensures Wait(s) == 0 <==> !CoreWaits(s)
  {
    StepInv(s, a);
  }

  /** The actions of an endless run. */
  type Turns = nat -> Action

  ghost predicate Again(sched: Turns, n: nat, a: Action) { exists k: nat :: n <= k && sched(k) == a }

  /** The core goes on for ever, and so does the device, whose latency always elapses at last. */
  ghost predicate Fair(sched: Turns) {
    forall n :: Again(sched, n, CoreStep) && Again(sched, n, DeviceStep(true))
  }

  /** The state after the first `n` actions. */
  function At(s: State, sched: Turns, n: nat): State {
    if n == 0 then s else Apply(At(s, sched, n - 1), sched(n - 1))
  }

  lemma {:induction false} AtInv(s: State, sched: Turns, n: nat)
    requires Inv(s)
    ensures Inv(At(s, sched, n))
  {
    hide Inv, Apply;
    if n > 0 {
      AtInv(s, sched, n - 1);
      StepInv(At(s, sched, n - 1), sched(n - 1));
    }
  }

  /** By the time the helpful step is taken, the run is nearer to its end. */
  lemma {:induction false} GetsNearer(s: State, sched: Turns, n: nat, k: nat) returns (m: nat)
    requires Inv(s) && !At(s, sched, n).core.Stopped?
    requires n <= k && sched(k) == Helpful(At(s, sched, n))
    ensures m > n && Nearer(At(s, sched, m), At(s, sched, n))
    decreases k - n
  {
    hide Inv, Apply, CoreLeft, Wait, CoreWaits;
    var before := At(s, sched, n);
    AtInv(s, sched, n);
    StepNearer(before, sched(n));
    var after := At(s, sched, n + 1);
    assert after == Apply(before, sched(n));
    m := n + 1;
    if !Nearer(after, before) {
      AtInv(s, sched, n + 1);
      StoppedLeft(after);
      StepNearer(after, CoreStep);
      m := GetsNearer(s, sched, n + 1, k);
    }
  }

  lemma StoppedLeft(s: State)
    ensures s.core.Stopped? ==> CoreLeft(s) == 0
  {
  }

  lemma {:induction false} FairFinishes(s: State, sched: Turns, n: nat) returns (m: nat)
    requires Inv(s) && Fair(sched)
    ensures m >= n && At(s, sched, m).core.Stopped?
    decreases CoreLeft(At(s, sched, n)), Wait(At(s, sched, n))
  {
    hide Inv, Apply, CoreLeft, Wait, CoreWaits;
    var now := At(s, sched, n);
    if now.core.Stopped? { return n; }
    AtInv(s, sched, n);
    StepNearer(now, CoreStep);
    assert Again(sched, n, Helpful(now));
    var k: nat :| n <= k && sched(k) == Helpful(now);
    m := GetsNearer(s, sched, n, k);
    LeftNat(s, sched, m);
    m := FairFinishes(s, sched, m);
  }

  lemma LeftNat(s: State, sched: Turns, n: nat)
    requires Inv(s)
    ensures CoreLeft(At(s, sched, n)) >= 0
  {
    hide At;
    AtInv(s, sched, n);
  }

  lemma {:induction false} AtKeepsTotal(s: State, sched: Turns, n: nat)
    ensures At(s, sched, n).total == s.total
  {
    hide Apply;
    if n > 0 {
      AtKeepsTotal(s, sched, n - 1);
      StepKeepsMode(At(s, sched, n - 1), sched(n - 1));
    }
  }

  /** In the modes that wait, every fair run serves every request once, in order, and stops. */
  lemma EveryFairRunFinishes(mode: Mode, total: nat, status: nat, portal: nat, sched: Turns) returns (n: nat)
    requires !mode.Unfilled? && Fair(sched)
    ensures var s := At(Start(mode, total, status, portal), sched, n);
            s.core.Stopped? && s.accepted == s.completed == s.processed == Iota(total)
  {
    hide At, Fair;
    var s := Start(mode, total, status, portal);
    n := FairFinishes(s, sched, 0);
    AtInv(s, sched, n);
    AtKeepsTotal(s, sched, n);
  }

  /** Taking turns is fair. */
  lemma TurnsAreFair()
    ensures Fair((k: nat) => if k % 2 == 0 then CoreStep else DeviceStep(true))
  {
    var sched: Turns := (k: nat) => if k % 2 == 0 then CoreStep else DeviceStep(true);
    forall n: nat ensures Again(sched, n, CoreStep) && Again(sched, n, DeviceStep(true)) {
      assert sched(2 * n) == CoreStep && sched(2 * n + 1) == DeviceStep(true);
    }
  }
}

/**
 The yielding request scheduler of chaining-demo/compress_crc.c and the emulated accelerator thread
 it submits to. Requests run as fibres on one core; the accelerator is a second thread. A run is any
 interleaving of their steps. A step makes at most one access to memory the other thread can change
 meanwhile: the accelerator's taking steps read several words of the mailbox at once, but only while it
 is pending, when no step of the request core changes anything (`CoreHeldWhilePending`).
 */
module Offload {
  import opened Prelude

  /** Where a request stands. `PreKernel` to `CheckStatus` are before its yield, `PostKernel` after. */
  datatype Phase =
    | Fresh
    | PreKernel
    | WriteOut
    | WriteComp
    | WriteIndex
    | Publish
    | AwaitAccept
    | CheckStatus
    | Fallback
    | Offloaded
    | PostKernel
    | Finished

  /** Which scheduler branch switched to a fibre, hence what the scheduler does when it comes back. */
  datatype Cont = Started | Resumed | Repreempted

  /** Control of the request core: one of the two scheduler loops, a fibre, or the end. */
  datatype Cpu = MainLoop | DrainLoop | Stopped | Fibre(id: nat, cont: Cont, draining: bool)

  /** Control of the accelerator thread. */
  datatype Device =
    | Top
    | Notify
    | Check
    | Reject
    | TakeOut
    | TakeComp
    | TakeStatus
    | TakeIndex
    | Release
    | Stamp
    | Fault

  datatype State = State(
    total: nat,
    maxInflights: nat,
    // the request core
    cpu: Cpu,
    nextUnused: nat,
    nextUnresumed: nat,
    waiting: bool,
    lastPreempted: nat,
    phase: seq<Phase>,
    // shared memory: completion records, the one-slot mailbox and its status, result pointers
    comp: seq<bool>,
    pending: bool,
    full: bool,
    outPtr: nat,
    subComp: nat,
    submitter: nat,
    out: seq<Option<nat>>,
    // the accelerator thread
    device: Device,
    inflights: int,
    lastRcvd: int,
    earliest: nat,
    processing: bool,
    records: map<nat, nat>,
    stamped: set<nat>,
    // history, read by no step
    submitted: seq<nat>,
    accepted: seq<nat>,
    completed: seq<nat>,
    finished: seq<nat>)

  /** One step of one thread. `elapsed` is the clock's answer when the accelerator looks at it. */
  datatype Action = Schedule | Probe | Proceed | DeviceStep(elapsed: bool)

  function Start(total: nat, maxInflights: nat, outPtr: nat, subComp: nat, submitter: nat): State {
    State(total, maxInflights,
          MainLoop, 0, 0, false, 0, seq(total, _ => Fresh),
          seq(total, _ => false), false, false, outPtr, subComp, submitter, seq(total, _ => None),
          Top, 0, -1, 0, false, map[], {},
          [], [], [], [])
  }

  predicate Enabled(s: State, a: Action) {
    match a
    case Schedule => s.cpu.MainLoop? || s.cpu.DrainLoop?
    case Probe => s.cpu.Fibre? && s.cpu.id < |s.phase| && s.phase[s.cpu.id] in {PreKernel, PostKernel}
    case Proceed => s.cpu.Fibre? && s.cpu.id < |s.phase|
    case DeviceStep(_) => true
  }

  function Apply(s: State, a: Action): State
    requires Enabled(s, a)
  {
    match a
    case Schedule => ScheduleStep(s)
    case Probe => ProbeStep(s)
    case Proceed => ProceedStep(s)
    case DeviceStep(elapsed) => DeviceAct(s, elapsed)
  }

  /** A step of the request core leaves the accelerator's state, and the records it writes, alone. */
  predicate DeviceSame(s: State, t: State) {
    && t.total == s.total && t.maxInflights == s.maxInflights && t.comp == s.comp && t.out == s.out
    && t.device == s.device && t.inflights == s.inflights && t.lastRcvd == s.lastRcvd && t.earliest == s.earliest
    && t.processing == s.processing && t.records == s.records && t.stamped == s.stamped
    && t.accepted == s.accepted && t.completed == s.completed
  }

  /** A step of the accelerator leaves the request core's state, and the mailbox contents, alone. */
  predicate CoreSame(s: State, t: State) {
    && t.total == s.total && t.maxInflights == s.maxInflights && t.cpu == s.cpu && t.phase == s.phase
    && t.nextUnused == s.nextUnused && t.nextUnresumed == s.nextUnresumed && t.waiting == s.waiting
    && t.lastPreempted == s.lastPreempted && t.outPtr == s.outPtr && t.subComp == s.subComp
    && t.submitter == s.submitter && t.submitted == s.submitted && t.finished == s.finished
  }

  // ----- the request core

  predicate IsComplete(s: State, i: nat) { i < |s.comp| && s.comp[i] }

  function SetPhase(s: State, i: nat, p: Phase): (t: State)
    ensures t == s.(phase := t.phase)
  {
    if i < |s.phase| then s.(phase := s.phase[i := p]) else s
  }

  /** One turn of either scheduler loop: resume a completed request, else a preempted one, else start one. */
  function ScheduleStep(s: State): (t: State)
    ensures DeviceSame(s, t) && t.submitter == s.submitter && t.submitted == s.submitted
  {
    var draining := s.cpu.DrainLoop?;
    if !draining && s.nextUnused >= s.total then s.(cpu := DrainLoop)
    else if draining && s.nextUnresumed >= s.nextUnused then s.(cpu := Stopped)
    else if IsComplete(s, s.nextUnresumed) then
      SetPhase(s, s.nextUnresumed, PostKernel).(cpu := Fibre(s.nextUnresumed, Resumed, draining))
    else if s.waiting then
      s.(waiting := false, cpu := Fibre(s.lastPreempted, Repreempted, draining))
    else if draining then s
    else SetPhase(s, s.nextUnused, PreKernel).(cpu := Fibre(s.nextUnused, Started, false))
  }

  /** A fibre switches back; the scheduler finishes the branch it was in. */
  function SwitchBack(s: State): (t: State)
    requires s.cpu.Fibre?
    ensures t == s.(cpu := t.cpu, nextUnused := t.nextUnused, nextUnresumed := t.nextUnresumed)
  {
    s.(cpu := if s.cpu.draining then DrainLoop else MainLoop,
       nextUnused := s.nextUnused + if s.cpu.cont.Started? then 1 else 0,
       nextUnresumed := s.nextUnresumed + if s.cpu.cont.Resumed? then 1 else 0)
  }

  /** A probe point: give way to an older request whose offload has completed. */
  function ProbeStep(s: State): (t: State)
    requires s.cpu.Fibre?
    ensures DeviceSame(s, t) && t.submitter == s.submitter && t.submitted == s.submitted
  {
    if s.cpu.id > s.nextUnresumed && IsComplete(s, s.nextUnresumed)
    then SwitchBack(s.(waiting := true, lastPreempted := s.cpu.id))
    else s
  }

  /** Where the running request goes next; the two waits depend on shared memory. */
  function NextPhase(s: State, p: Phase): Phase {
    match p
    case PreKernel => WriteOut
    case WriteOut => WriteComp
    case WriteComp => WriteIndex
    case WriteIndex => Publish
    case Publish => AwaitAccept
    case AwaitAccept => if s.pending then AwaitAccept else CheckStatus
    case CheckStatus => if s.full then Fallback else Offloaded
    case PostKernel => Finished
    case _ => p
  }

  /** The next instruction of the running request that touches shared memory or switches. */
  function ProceedStep(s: State): (t: State)
    requires s.cpu.Fibre? && s.cpu.id < |s.phase|
    ensures DeviceSame(s, t)
    ensures t.phase == s.phase[s.cpu.id := NextPhase(s, s.phase[s.cpu.id])] && t.waiting == s.waiting
    ensures t.cpu == s.cpu || t.cpu == if s.cpu.draining then DrainLoop else MainLoop
  {
    var i := s.cpu.id;
    var t := SetPhase(s, i, NextPhase(s, s.phase[i]));
    match s.phase[i]
    case WriteOut => t.(outPtr := i)
    case WriteComp => t.(subComp := i)
    case WriteIndex => t.(submitter := i)
    case Publish => t.(pending := true, submitted := s.submitted + [i])
    case CheckStatus => if s.full then t.(full := false) else SwitchBack(t)
    case PostKernel => SwitchBack(t.(finished := s.finished + [i]))
    case _ => t
  }

  // ----- the accelerator thread

  function DeviceAct(s: State, elapsed: bool): (t: State)
    ensures CoreSame(s, t)
    ensures !s.device.Notify? ==> t.comp == s.comp && t.completed == s.completed
  {
    match s.device
    case Top => s.(device := if s.processing && elapsed then Notify else Check)
    case Notify =>
      if s.earliest in s.records && s.records[s.earliest] < |s.comp| then
        s.(comp := s.comp[s.records[s.earliest] := true],
           completed := s.completed + [s.records[s.earliest]],
           earliest := s.earliest + 1,
           inflights := s.inflights - 1,
           processing := s.earliest + 1 <= s.lastRcvd,
           device := Check)
      else s.(device := Fault)
    case Check =>
      if !s.pending then s.(device := Top)
      else if s.inflights > s.maxInflights then s.(device := Reject)
      else s.(inflights := s.inflights + 1, device := TakeOut)
    case Reject => s.(full := true, device := Top)
    case TakeOut =>
      if s.outPtr < |s.out| then s.(out := s.out[s.outPtr := Some(s.submitter)], device := TakeComp)
      else s.(device := Fault)
    case TakeComp => s.(records := s.records[s.submitter := s.subComp], device := TakeStatus)
    case TakeStatus => s.(full := false, device := TakeIndex)
    case TakeIndex =>
      s.(lastRcvd := s.submitter, processing := true, accepted := s.accepted + [s.submitter], device := Release)
    case Release => s.(pending := false, device := Stamp)
    case Stamp => s.(device := Top, stamped := s.stamped + {s.submitter})
    case Fault => s
  }

  // ----- runs

  predicate Steps(s: State, a: Action, t: State) { Enabled(s, a) && t == Apply(s, a) }

  /** The states that a sequence of steps passes through. */
  ghost predicate IsRun(run: seq<State>, acts: seq<Action>) {
    |run| == |acts| + 1 && forall k :: 0 <= k < |acts| ==> Steps(run[k], acts[k], run[k + 1])
  }

  // ----- the invariant

  /** Every request is in the histories at most once, and only in order. */
  ghost predicate Ordered(s: State) {
    && s.submitted == Iota(|s.submitted|)
    && s.accepted == Iota(|s.accepted|)
    && s.completed == Iota(|s.completed|)
    && s.finished == Iota(|s.finished|)
    && |s.finished| == s.nextUnresumed
    && |s.completed| == s.earliest
    && |s.accepted| == s.lastRcvd + 1
    && s.nextUnresumed <= s.earliest <= |s.accepted| <= |s.submitted| <= s.total
  }

  predicate BeforePublish(p: Phase) { p in {PreKernel, WriteOut, WriteComp, WriteIndex, Publish} }

  predicate Shape(s: State) { |s.phase| == |s.comp| == |s.out| == s.total }

  /** Phases when the scheduler, or a resumed request, has control. */
  ghost predicate SettledPhases(s: State, except: Option<nat>)
    requires Shape(s)
  {
    forall i :: 0 <= i < s.total && except != Some(i) ==>
      s.phase[i] == if i < s.nextUnresumed then Finished
                    else if i < |s.submitted| then Offloaded
                    else if i < s.nextUnused then PreKernel else Fresh
  }

  /** A preempted request is the youngest one started, and the only one not yet submitted. */
  ghost predicate Settled(s: State) {
    && !s.pending
    && s.nextUnused == |s.submitted| + (if s.waiting then 1 else 0)
    && (s.waiting ==> s.lastPreempted == s.nextUnused - 1)
  }

  ghost predicate CpuInv(s: State)
    requires Shape(s)
  {
    match s.cpu
    case MainLoop => Settled(s) && SettledPhases(s, None)
    case DrainLoop => Settled(s) && SettledPhases(s, None) && s.nextUnused == s.total
    case Stopped => Settled(s) && SettledPhases(s, None) && s.nextUnresumed == s.nextUnused == s.total
    case Fibre(id, cont, draining) =>
      && id < s.total
      && (draining ==> s.nextUnused == s.total && !cont.Started?)
      && if cont.Resumed? then
          && Settled(s) && SettledPhases(s, Some(id))
          && id == s.nextUnresumed < s.earliest && s.phase[id] == PostKernel
        else
          && !s.waiting
          && s.nextUnresumed <= id == s.nextUnused - (if cont.Started? then 0 else 1)
          && (forall i :: 0 <= i < s.total && i != id ==>
               s.phase[i] == if i < s.nextUnresumed then Finished else if i < id then Offloaded else Fresh)
          && MailboxOf(s, id)
  }

  /** The submitting request `id`, as far as it has got with the mailbox. */
  ghost predicate MailboxOf(s: State, id: nat)
    requires id < |s.phase|
  {
    var p := s.phase[id];
    && (BeforePublish(p) || p.AwaitAccept? || p.CheckStatus?)
    && (BeforePublish(p) ==> |s.submitted| == id && !s.pending)
    && (p in {WriteComp, WriteIndex, Publish, AwaitAccept} ==> s.outPtr == id)
    && (p in {WriteIndex, Publish, AwaitAccept} ==> s.subComp == id)
    && (p in {Publish, AwaitAccept} ==> s.submitter == id)
    && (p in {AwaitAccept, CheckStatus} ==> |s.submitted| == id + 1)
    && (p.CheckStatus? ==> !s.pending)
  }

  predicate Taking(d: Device) { d in {TakeOut, TakeComp, TakeStatus, TakeIndex} }

  /** The accelerator counts its in-flight offloads, and owns the mailbox only while it is pending. */
  ghost predicate DeviceInv(s: State)
    requires Shape(s)
  {
    && !s.device.Fault?
    && s.inflights == s.lastRcvd + 1 - s.earliest + (if Taking(s.device) then 1 else 0)
    && s.inflights <= s.maxInflights + 1
    && s.processing == (s.earliest <= s.lastRcvd)
    && (s.device.Notify? ==> s.processing)
    && |s.accepted| == |s.submitted| - (if s.pending && !s.device.Release? then 1 else 0)
    && (Taking(s.device) || s.device.Release? || s.device.Reject? || s.full ==> s.pending)
    && (s.device in {TakeIndex, Release} ==> !s.full)
    && (forall i :: 0 <= i < |s.accepted| + (if s.device in {TakeStatus, TakeIndex} then 1 else 0) ==>
         i in s.records && s.records[i] == i)
    && (forall i :: 0 <= i < |s.accepted| + (if s.device in {TakeComp, TakeStatus, TakeIndex} then 1 else 0) ==>
         i < s.total && s.out[i] == Some(i))
    && (forall i :: 0 <= i < s.total ==> s.comp[i] == (i < s.earliest))
  }

  /** Only a request waiting to be accepted leaves the mailbox pending. */
  ghost predicate PendingInv(s: State)
    requires Shape(s)
  {
    s.pending ==> s.cpu.Fibre? && s.cpu.id < s.total && s.phase[s.cpu.id].AwaitAccept?
  }

  /** A later request has already overwritten the submitter index in the mailbox. */
  ghost predicate Overwritten(s: State)
    requires Shape(s)
  {
    && s.cpu.Fibre? && !s.cpu.cont.Resumed? && s.lastRcvd < s.cpu.id < s.total
    && s.phase[s.cpu.id] in {Publish, AwaitAccept}
  }

  ghost predicate StampInv(s: State)
    requires Shape(s)
  {
    s.device.Stamp? ==> s.lastRcvd >= 0 && (!Overwritten(s) ==> s.submitter == s.lastRcvd)
  }

  ghost predicate Inv(s: State) {
    && Shape(s)
    && s.nextUnused <= s.total
    && Ordered(s) && CpuInv(s) && DeviceInv(s) && PendingInv(s) && StampInv(s)
  }

  lemma StartInv(total: nat, maxInflights: nat, outPtr: nat, subComp: nat, submitter: nat)
    ensures Inv(Start(total, maxInflights, outPtr, subComp, submitter))
  {
  }

  /** The next scheduler turn resumes the oldest request, whose offload has completed. */
  predicate Resumes(s: State) {
    && ((s.cpu.MainLoop? && s.nextUnused < s.total) || (s.cpu.DrainLoop? && s.nextUnresumed < s.nextUnused))
    && IsComplete(s, s.nextUnresumed)
  }

  lemma ResumeInv(s: State)
    requires Inv(s) && Resumes(s)
    ensures Inv(ScheduleStep(s))
  {
  }

  lemma StartRequestInv(s: State)
    requires Inv(s) && s.cpu.MainLoop? && !Resumes(s) && s.nextUnused < s.total && !s.waiting
    ensures Inv(ScheduleStep(s))
  {
  }

  lemma RepreemptInv(s: State)
    requires Inv(s) && s.cpu.MainLoop? && !Resumes(s) && (s.nextUnused >= s.total || s.waiting)
    ensures Inv(ScheduleStep(s))
  {
  }

  lemma DrainInv(s: State)
    requires Inv(s) && s.cpu.DrainLoop? && !Resumes(s)
    ensures Inv(ScheduleStep(s))
  {
  }

  lemma ProbeInv(s: State)
    requires Inv(s) && Enabled(s, Probe)
    ensures Inv(ProbeStep(s))
  {
  }

  lemma PassInv(s: State)
    requires Inv(s) && Enabled(s, Proceed) && s.phase[s.cpu.id] in {PreKernel, AwaitAccept}
    ensures Inv(ProceedStep(s))
  {
  }

  lemma WriteInv(s: State)
    requires Inv(s) && Enabled(s, Proceed) && s.phase[s.cpu.id] in {WriteOut, WriteComp}
    ensures Inv(ProceedStep(s))
  {
  }

  lemma WriteIndexInv(s: State)
    requires Inv(s) && Enabled(s, Proceed) && s.phase[s.cpu.id].WriteIndex?
    ensures Inv(ProceedStep(s))
  {
  }

  lemma PublishInv(s: State)
    requires Inv(s) && Enabled(s, Proceed) && s.phase[s.cpu.id].Publish?
    ensures Inv(ProceedStep(s))
  {
  }

  lemma YieldInv(s: State)
    requires Inv(s) && Enabled(s, Proceed) && s.phase[s.cpu.id].CheckStatus?
    ensures Inv(ProceedStep(s))
  {
  }

  lemma FinishInv(s: State)
    requires Inv(s) && Enabled(s, Proceed) && s.phase[s.cpu.id].PostKernel?
    ensures Inv(ProceedStep(s))
  {
  }

  /** The accelerator's own steps leave the request core's part of the invariant alone. */
  lemma CoreUntouched(s: State, t: State)
    requires Shape(s) && Shape(t) && CpuInv(s) && PendingInv(s)
    requires CoreSame(s, t) && t.pending == s.pending && s.earliest <= t.earliest
    ensures CpuInv(t) && PendingInv(t)
  {
  }

  lemma PollInv(s: State, elapsed: bool)
    requires Inv(s) && s.device in {Top, Stamp}
    ensures Inv(DeviceAct(s, elapsed))
  {
    hide CpuInv, PendingInv;
    CoreUntouched(s, DeviceAct(s, elapsed));
  }

  lemma CheckInv(s: State, elapsed: bool)
    requires Inv(s) && s.device.Check?
    ensures Inv(DeviceAct(s, elapsed))
  {
    hide CpuInv, PendingInv;
    CoreUntouched(s, DeviceAct(s, elapsed));
  }

  lemma AnswerInv(s: State, elapsed: bool)
    requires Inv(s) && s.device in {Reject, TakeStatus}
    ensures Inv(DeviceAct(s, elapsed))
  {
    hide CpuInv, PendingInv;
    CoreUntouched(s, DeviceAct(s, elapsed));
  }

  lemma ReleaseInv(s: State, elapsed: bool)
    requires Inv(s) && s.device.Release?
    ensures Inv(DeviceAct(s, elapsed))
  {
  }

  lemma NotifyInv(s: State)
    requires Inv(s) && s.device.Notify?
    ensures Inv(DeviceAct(s, true))
  {
    hide CpuInv, PendingInv;
    CoreUntouched(s, DeviceAct(s, true));
  }

  /** While the accelerator takes it, the mailbox holds the next request, complete. */
  lemma MailboxHolds(s: State)
    requires Inv(s) && Taking(s.device)
    ensures s.outPtr == s.subComp == s.submitter == |s.accepted| < s.total
  {
  }

  lemma TakeOutInv(s: State)
    requires Inv(s) && s.device.TakeOut?
    ensures Inv(DeviceAct(s, true))
  {
    hide CpuInv, PendingInv;
    MailboxHolds(s);
    CoreUntouched(s, DeviceAct(s, true));
  }

  lemma TakeCompInv(s: State)
    requires Inv(s) && s.device.TakeComp?
    ensures Inv(DeviceAct(s, true))
  {
    hide CpuInv, PendingInv;
    MailboxHolds(s);
    CoreUntouched(s, DeviceAct(s, true));
  }

  lemma AcceptInv(s: State)
    requires Inv(s) && s.device.TakeIndex?
    ensures Inv(DeviceAct(s, true))
  {
    hide CpuInv, PendingInv;
    MailboxHolds(s);
    CoreUntouched(s, DeviceAct(s, true));
  }

  /** Every step of either thread keeps the invariant. */
  lemma StepInv(s: State, a: Action)
    requires Inv(s) && Enabled(s, a)
    ensures Inv(Apply(s, a))
  {
    hide Inv, ScheduleStep, ProbeStep, ProceedStep, DeviceAct;
    match a
    case Schedule =>
      if Resumes(s) { ResumeInv(s); } else if s.cpu.DrainLoop? { DrainInv(s); }
      else if s.nextUnused < s.total && !s.waiting { StartRequestInv(s); }
      else { RepreemptInv(s); }
    case Probe => ProbeInv(s);
    case Proceed => ProceedInv(s);
    case DeviceStep(elapsed) => DeviceStepInv(s, elapsed);
  }

  lemma ProceedInv(s: State)
    requires Inv(s) && Enabled(s, Proceed)
    ensures Inv(ProceedStep(s))
  {
    hide ProceedStep;
    match s.phase[s.cpu.id]
    case Publish => PublishInv(s);
    case CheckStatus => YieldInv(s);
    case PostKernel => FinishInv(s);
    case PreKernel => PassInv(s);
    case AwaitAccept => PassInv(s);
    case WriteIndex => WriteIndexInv(s);
    case _ => WriteInv(s);
  }

  lemma DeviceStepInv(s: State, elapsed: bool)
    requires Inv(s)
    ensures Inv(DeviceAct(s, elapsed))
  {
    match s.device
    case Notify => NotifyInv(s);
    case TakeOut => TakeOutInv(s);
    case TakeComp => TakeCompInv(s);
    case TakeIndex => AcceptInv(s);
    case Release => ReleaseInv(s, elapsed);
    case Reject => AnswerInv(s, elapsed);
    case TakeStatus => AnswerInv(s, elapsed);
    case Check => CheckInv(s, elapsed);
    case _ => PollInv(s, elapsed);
  }

  // ----- what every run guarantees

  ghost predicate Reachable(s: State, total: nat, maxInflights: nat) {
    exists run, acts, outPtr, subComp, submitter ::
      && IsRun(run, acts) && run[|run| - 1] == s
      && run[0] == Start(total, maxInflights, outPtr, subComp, submitter)
  }

  lemma {:induction false} RunInv(run: seq<State>, acts: seq<Action>, k: nat)
    requires IsRun(run, acts) && Inv(run[0]) && k < |run|
    ensures Inv(run[k])
  {
    hide Inv, Apply, Enabled;
    if k > 0 {
      RunInv(run, acts, k - 1);
      assert Steps(run[k - 1], acts[k - 1], run[k]);
      StepInv(run[k - 1], acts[k - 1]);
    }
  }

  lemma StepKeepsSize(s: State, a: Action)
    requires Enabled(s, a)
    ensures Apply(s, a).total == s.total && Apply(s, a).maxInflights == s.maxInflights
  {
    hide ScheduleStep, ProbeStep, ProceedStep, DeviceAct;
  }

  lemma {:induction false} ApplyKeepsSize(run: seq<State>, acts: seq<Action>, k: nat)
    requires IsRun(run, acts) && k < |run|
    ensures run[k].total == run[0].total && run[k].maxInflights == run[0].maxInflights
  {
    hide Apply, Enabled;
    if k > 0 {
      ApplyKeepsSize(run, acts, k - 1);
      assert Steps(run[k - 1], acts[k - 1], run[k]);
      StepKeepsSize(run[k - 1], acts[k - 1]);
    }
  }

  lemma ReachableInv(s: State, total: nat, maxInflights: nat)
    requires Reachable(s, total, maxInflights)
    ensures Inv(s) && s.total == total && s.maxInflights == maxInflights
  {
    hide Inv;
    var run, acts, outPtr, subComp, submitter :|
      && IsRun(run, acts) && run[|run| - 1] == s
      && run[0] == Start(total, maxInflights, outPtr, subComp, submitter);
    StartInv(total, maxInflights, outPtr, subComp, submitter);
    RunInv(run, acts, |run| - 1);
    ApplyKeepsSize(run, acts, |run| - 1);
  }

  /** A request that has started but not handed its offload to the mailbox. */
  predicate Unsubmitted(s: State, i: nat) { i < |s.phase| && BeforePublish(s.phase[i]) }

  /**
   At most one started request is not yet submitted; it is the youngest one, it is the one in the
   single preemption slot whenever the scheduler is in control, and requests submit, are accepted,
   complete and finish in the order they started.
   */
  lemma FirstComeFirstServed(s: State, total: nat, maxInflights: nat)
    requires Reachable(s, total, maxInflights)
    ensures forall i, j :: Unsubmitted(s, i) && Unsubmitted(s, j) ==> i == j
    ensures s.waiting ==> s.nextUnused >= 1 && s.lastPreempted == s.nextUnused - 1 && Unsubmitted(s, s.lastPreempted)
    ensures !s.cpu.Fibre? ==> forall i :: Unsubmitted(s, i) ==> s.waiting && i == s.lastPreempted
    ensures s.submitted == Iota(|s.submitted|) && s.accepted == Iota(|s.accepted|)
    ensures s.completed == Iota(|s.completed|) && s.finished == Iota(|s.finished|)
    ensures |s.finished| <= |s.completed| <= |s.accepted| <= |s.submitted| <= total
  {
    ReachableInv(s, total, maxInflights);
  }

  /** While a preempted request waits, no step starts another one. */
  lemma NoStartWhileWaiting(s: State, total: nat, maxInflights: nat, a: Action, i: nat)
    requires Reachable(s, total, maxInflights) && Enabled(s, a)
    requires s.waiting && i < total
    ensures |s.phase| == |Apply(s, a).phase| == total
    ensures s.phase[i].Fresh? ==> Apply(s, a).phase[i].Fresh?
  {
    ReachableInv(s, total, maxInflights);
  }

  /**
   The accelerator's count is exact between its steps and bounded by one more than the limit; the
   records completed are those of the earliest accepted requests; a request past its wait is never
   told the accelerator is full, so the CPU fallback is unreachable.
   */
  lemma AcceleratorCounts(s: State, total: nat, maxInflights: nat)
    requires Reachable(s, total, maxInflights)
    ensures s.inflights <= maxInflights + 1
    ensures !Taking(s.device) ==> s.inflights == s.lastRcvd + 1 - s.earliest == |s.accepted| - |s.completed|
    ensures |s.comp| == |s.phase| == total && !s.device.Fault?
    ensures forall i :: 0 <= i < total ==> (s.comp[i] <==> i < |s.completed|)
    ensures forall i :: 0 <= i < total ==> !s.phase[i].Fallback?
    ensures forall i :: 0 <= i < total && s.phase[i].CheckStatus? ==> !s.full
  {
    ReachableInv(s, total, maxInflights);
  }

  lemma SizesOf(s: State)
    requires Inv(s)
    ensures |s.comp| == |s.phase| == |s.out| == s.total
  {
  }

  lemma OnlyNotifyCompletes(s: State, a: Action)
    requires Enabled(s, a) && !(a.DeviceStep? && s.device.Notify?)
    ensures Apply(s, a).comp == s.comp && Apply(s, a).completed == s.completed
  {
    hide ScheduleStep, ProbeStep, ProceedStep, DeviceAct;
  }

  /** Once set, a completion record is never touched again, and a step sets at most the next one. */
  lemma CompletesOnce(s: State, total: nat, maxInflights: nat, a: Action)
    requires Reachable(s, total, maxInflights) && Enabled(s, a)
    ensures Apply(s, a).completed == s.completed || Apply(s, a).completed == s.completed + [|s.completed|]
    ensures |s.comp| == |Apply(s, a).comp| == total
    ensures forall i :: 0 <= i < total && Apply(s, a).comp[i] != s.comp[i] ==> i == |s.completed| && Apply(s, a).comp[i]
  {
    ReachableInv(s, total, maxInflights);
    if !(a.DeviceStep? && s.device.Notify?) {
      hide Inv, Apply;
      OnlyNotifyCompletes(s, a);
      assert |s.comp| == total by { SizesOf(s); }
    }
  }

  /** A request runs its post kernel only on its own completed offload and its own result buffer. */
  lemma PostKernelReady(s: State, total: nat, maxInflights: nat, i: nat)
    requires Reachable(s, total, maxInflights) && i < total
    ensures |s.phase| == |s.comp| == |s.out| == total
    ensures s.phase[i].PostKernel? || s.phase[i].Finished? ==> s.comp[i] && s.out[i] == Some(i)
    ensures s.phase[i].PostKernel? ==> i == s.nextUnresumed && s.cpu.Fibre? && s.cpu.id == i
    ensures s.phase[i].PostKernel? ==> ProbeStep(s) == s
  {
    ReachableInv(s, total, maxInflights);
  }

  /** The scheduler stops only when every request has been submitted, accepted, completed and finished, once. */
  lemma StopsOnlyWhenAllFinished(s: State, total: nat, maxInflights: nat)
    requires Reachable(s, total, maxInflights) && s.cpu.Stopped?
    ensures s.submitted == s.accepted == s.completed == s.finished == Iota(total)
    ensures |s.phase| == total && forall i :: 0 <= i < total ==> s.phase[i].Finished?
    ensures !s.waiting && !s.pending
  {
    ReachableInv(s, total, maxInflights);
  }

  /** Neither kernel that spins on a completion record can block: the record it reads is already set. */
  lemma SpinningKernelsPass(s: State, total: nat, maxInflights: nat)
    requires Reachable(s, total, maxInflights) && s.cpu.Fibre?
    ensures s.cpu.id < |s.phase| == total
    ensures s.phase[s.cpu.id].PreKernel? ==> s.nextUnresumed == 0 || IsComplete(s, s.nextUnresumed - 1)
    ensures s.phase[s.cpu.id].PostKernel? ==> IsComplete(s, s.nextUnresumed)
  {
    ReachableInv(s, total, maxInflights);
  }

  /** While the mailbox is pending the request core only polls, so nothing it holds can change under the accelerator. */
  lemma CoreHeldWhilePending(s: State, total: nat, maxInflights: nat, a: Action)
    requires Reachable(s, total, maxInflights) && s.pending
    requires Enabled(s, a) && !a.DeviceStep?
    ensures Apply(s, a) == s
  {
    ReachableInv(s, total, maxInflights);
    assert s.phase[s.cpu.id := s.phase[s.cpu.id]] == s.phase;
  }

  // ----- who runs when

  predicate InLoop(s: State) { s.cpu.MainLoop? || s.cpu.DrainLoop? }

  /** Request `i` has the core, in phase `p`. */
  predicate Runs(s: State, i: nat, p: Phase) { s.cpu.Fibre? && s.cpu.id == i < |s.phase| && s.phase[i] == p }

  /** The main loop is over and hands on to the drain loop. */
  predicate HandsOver(s: State) { s.cpu.MainLoop? && s.nextUnused == s.total }

  /**
   What one turn of the scheduler does, by the histories: a completed request that has not finished goes first,
   then the preempted one, and only then a new one.
   */
  lemma ScheduleDecides(s: State, total: nat, maxInflights: nat)
    requires Reachable(s, total, maxInflights) && InLoop(s)
    ensures var t := Apply(s, Schedule);
            if HandsOver(s) then t == s.(cpu := DrainLoop)
            else if s.cpu.DrainLoop? && |s.finished| == total then t == s.(cpu := Stopped)
            else if |s.finished| < |s.completed| then Runs(t, |s.finished|, PostKernel) && t.waiting == s.waiting
            else if s.waiting then Runs(t, s.lastPreempted, PreKernel) && !t.waiting && t.phase == s.phase
            else if s.cpu.MainLoop? then Runs(t, |s.submitted|, PreKernel) && s.phase[|s.submitted|].Fresh?
            else t == s
  {
    ReachableInv(s, total, maxInflights);
  }

  /**
   What a probe point in the first kernel does: it gives way exactly when an older request has completed and not
   finished. The slot then holds the request that gave way, and the older one has the core next.
   */
  lemma ProbeDecides(s: State, total: nat, maxInflights: nat)
    requires Reachable(s, total, maxInflights) && s.cpu.Fibre? && Runs(s, s.cpu.id, PreKernel)
    ensures Enabled(s, Probe)
    ensures var i, t := s.cpu.id, Apply(s, Probe);
            if |s.finished| < i && |s.finished| < |s.completed| then
              && InLoop(t) && t.waiting && t.lastPreempted == i && t.phase == s.phase
              && var u := if HandsOver(t) then Apply(t, Schedule) else t;
                 Enabled(u, Schedule) && Runs(Apply(u, Schedule), |s.finished|, PostKernel)
            else t == s
  {
    hide Reachable, ScheduleStep;
    ProbeGivesWay(s, total, maxInflights);
    var t := Apply(s, Probe);
    if t != s {
      StepTo(s, Probe, t, total, maxInflights);
      ScheduleDecides(t, total, maxInflights);
      if HandsOver(t) {
        StepTo(t, Schedule, Apply(t, Schedule), total, maxInflights);
        ScheduleDecides(Apply(t, Schedule), total, maxInflights);
      }
    }
  }

  lemma ProbeGivesWay(s: State, total: nat, maxInflights: nat)
    requires Reachable(s, total, maxInflights) && s.cpu.Fibre? && Runs(s, s.cpu.id, PreKernel)
    ensures s.total == total && s.cpu.id < total
    ensures var i, t := s.cpu.id, ProbeStep(s);
            if |s.finished| < i && |s.finished| < |s.completed| then
              InLoop(t) && t.waiting && t.lastPreempted == i && t.phase == s.phase && t.finished == s.finished
            else t == s
  {
    ReachableInv(s, total, maxInflights);
  }

  /** The accelerator takes what is pending exactly when no more than its capacity is in flight. */
  lemma CheckDecides(s: State, total: nat, maxInflights: nat, elapsed: bool)
    requires Reachable(s, total, maxInflights) && s.device.Check?
    ensures Apply(s, DeviceStep(elapsed)).device ==
            if !s.pending then Top else if |s.accepted| - |s.completed| <= maxInflights then TakeOut else Reject
  {
    ReachableInv(s, total, maxInflights);
  }

  /** A rejected request is told so, stays pending, and is looked at again. */
  lemma RejectTells(s: State, total: nat, maxInflights: nat, elapsed: bool)
    requires Reachable(s, total, maxInflights) && s.device.Reject?
    ensures var t := Apply(s, DeviceStep(elapsed)); t.full && t.pending && t.device.Top? && t.accepted == s.accepted
  {
    ReachableInv(s, total, maxInflights);
  }

  /** It goes on to notify exactly when something is in flight and the clock says so. */
  lemma ClockDecides(s: State, total: nat, maxInflights: nat, elapsed: bool)
    requires Reachable(s, total, maxInflights) && s.device.Top?
    ensures Apply(s, DeviceStep(elapsed)).device == if elapsed && |s.completed| < |s.accepted| then Notify else Check
  {
    ReachableInv(s, total, maxInflights);
  }

  // ----- the write that follows the release of the mailbox

  /**
   After releasing the mailbox the accelerator stores the completion time under the submitter index
   it reads again. That is the request it accepted exactly when no later request has meanwhile
   written its own index.
   */
  lemma StampExactly(s: State, total: nat, maxInflights: nat)
    requires Reachable(s, total, maxInflights) && s.device.Stamp?
    ensures Shape(s)
    ensures s.submitter == s.lastRcvd <==> !Overwritten(s)
  {
    ReachableInv(s, total, maxInflights);
  }

  lemma StepTo(s: State, a: Action, t: State, total: nat, maxInflights: nat)
    requires Reachable(s, total, maxInflights) && Steps(s, a, t)
    ensures Reachable(t, total, maxInflights)
  {
    hide Steps;
    var run, acts, outPtr, subComp, submitter :|
      && IsRun(run, acts) && run[|run| - 1] == s
      && run[0] == Start(total, maxInflights, outPtr, subComp, submitter);
    var run2, acts2 := run + [t], acts + [a];
    forall k | 0 <= k < |acts2| ensures Steps(run2[k], acts2[k], run2[k + 1]) {
      if k < |acts| { assert Steps(run[k], acts[k], run[k + 1]); }
    }
    assert IsRun(run2, acts2) && run2[|run2| - 1] == t && run2[0] == Start(total, maxInflights, outPtr, subComp, submitter);
  }

  lemma StartReachable(total: nat, maxInflights: nat, outPtr: nat, subComp: nat, submitter: nat)
    ensures Reachable(Start(total, maxInflights, outPtr, subComp, submitter), total, maxInflights)
  {
    hide Start;
    var s := Start(total, maxInflights, outPtr, subComp, submitter);
    assert IsRun([s], []) && [s][|[s]| - 1] == s && [s][0] == s;
  }

  /** Take an action if it can be taken. */
  function Try(s: State, a: Action): State { if Enabled(s, a) then Apply(s, a) else s }

  /** The state after a list of actions; those that cannot be taken are passed over. */
  function After(s: State, acts: seq<Action>): State {
    if acts == [] then s else Try(After(s, acts[..|acts| - 1]), acts[|acts| - 1])
  }

  lemma Then(s: State, acts: seq<Action>, a: Action, t: State) returns (more: seq<Action>)
    requires Steps(After(s, acts), a, t)
    ensures After(s, more) == t
  {
    hide Apply, Enabled;
    more := acts + [a];
    assert more[..|acts|] == acts;
  }

  lemma {:induction false} AfterReachable(s: State, acts: seq<Action>, total: nat, maxInflights: nat)
    requires Reachable(s, total, maxInflights)
    ensures Reachable(After(s, acts), total, maxInflights)
    decreases |acts|
  {
    hide Reachable, Apply, Enabled;
    if acts != [] {
      var was, a := After(s, acts[..|acts| - 1]), acts[|acts| - 1];
      AfterReachable(s, acts[..|acts| - 1], total, maxInflights);
      if Enabled(was, a) { StepTo(was, a, After(s, acts), total, maxInflights); }
    }
  }

  // A run of two requests or more, from its start `s`, in which the second overtakes the stamp of the first.

  predicate TwoOrMore(s: State) { s.total >= 2 && s == Start(s.total, s.maxInflights, s.outPtr, s.subComp, s.submitter) }

  /** The first request has just published its offload. */
  function Published(s: State): State
    requires TwoOrMore(s)
  {
    s.(cpu := Fibre(0, Started, false), phase := s.phase[0 := AwaitAccept], pending := true,
       outPtr := 0, subComp := 0, submitter := 0, submitted := [0])
  }

  /** The accelerator has accepted it and released the mailbox. */
  function Released(s: State): State
    requires TwoOrMore(s)
  {
    Published(s).(pending := false, out := s.out[0 := Some(0)], device := Stamp, inflights := 1, lastRcvd := 0,
                  processing := true, records := map[0 := 0], accepted := [0])
  }

  /** The scheduler has started the second request. */
  function SecondStarted(s: State): State
    requires TwoOrMore(s)
  {
    Released(s).(phase := s.phase[0 := Offloaded][1 := PreKernel], cpu := Fibre(1, Started, false), nextUnused := 1)
  }

  /** The second request has written its index into the mailbox before the accelerator read the first's. */
  function Overtaken(s: State): State
    requires TwoOrMore(s)
  {
    SecondStarted(s).(phase := s.phase[0 := Offloaded][1 := Publish], outPtr := 1, subComp := 1, submitter := 1)
  }

  lemma ToPublished(s: State) returns (acts: seq<Action>)
    requires TwoOrMore(s)
    ensures After(s, acts) == Published(s)
  {
    hide After;
    assert After(s, []) == s by { NoActions(s); }
    var s1 := s.(cpu := Fibre(0, Started, false), phase := s.phase[0 := PreKernel]);
    acts := Then(s, [], Schedule, s1);
    var s2 := s1.(phase := s1.phase[0 := WriteOut]);
    acts := Then(s, acts, Proceed, s2);
    var s3 := s2.(phase := s2.phase[0 := WriteComp], outPtr := 0);
    acts := Then(s, acts, Proceed, s3);
    var s4 := s3.(phase := s3.phase[0 := WriteIndex], subComp := 0);
    acts := Then(s, acts, Proceed, s4);
    var s5 := s4.(phase := s4.phase[0 := Publish], submitter := 0);
    acts := Then(s, acts, Proceed, s5);
    assert s5.phase[0 := AwaitAccept] == s.phase[0 := AwaitAccept];
    acts := Then(s, acts, Proceed, Published(s));
  }

  lemma NoActions(s: State)
    ensures After(s, []) == s
  {
  }

  lemma ToReleased(s: State) returns (acts: seq<Action>)
    requires TwoOrMore(s)
    ensures After(s, acts) == Released(s)
  {
    hide After;
    acts := ToPublished(s);
    var s0 := Published(s);
    var s1 := s0.(device := Check);
    acts := Then(s, acts, DeviceStep(true), s1);
    var s2 := s1.(device := TakeOut, inflights := 1);
    acts := Then(s, acts, DeviceStep(true), s2);
    var s3 := s2.(device := TakeComp, out := s.out[0 := Some(0)]);
    acts := Then(s, acts, DeviceStep(true), s3);
    var s4 := s3.(device := TakeStatus, records := map[0 := 0]);
    acts := Then(s, acts, DeviceStep(true), s4);
    var s5 := s4.(device := TakeIndex);
    acts := Then(s, acts, DeviceStep(true), s5);
    var s6 := s5.(device := Release, lastRcvd := 0, processing := true, accepted := [0]);
    acts := Then(s, acts, DeviceStep(true), s6);
    acts := Then(s, acts, DeviceStep(true), Released(s));
  }

  lemma ToSecondStarted(s: State) returns (acts: seq<Action>)
    requires TwoOrMore(s)
    ensures After(s, acts) == SecondStarted(s)
  {
    hide After;
    acts := ToReleased(s);
    var s0 := Released(s);
    var s1 := s0.(phase := s0.phase[0 := CheckStatus]);
    acts := Then(s, acts, Proceed, s1);
    var s2 := s1.(phase := s1.phase[0 := Offloaded], cpu := MainLoop, nextUnused := 1);
    acts := Then(s, acts, Proceed, s2);
    assert s2.phase == s.phase[0 := Offloaded];
    acts := Then(s, acts, Schedule, SecondStarted(s));
  }

  lemma ToOvertaken(s: State) returns (acts: seq<Action>)
    requires TwoOrMore(s)
    ensures After(s, acts) == Overtaken(s)
  {
    hide After;
    acts := ToSecondStarted(s);
    var s3 := SecondStarted(s);
    var s4 := s3.(phase := s3.phase[1 := WriteOut]);
    acts := Then(s, acts, Proceed, s4);
    var s5 := s4.(phase := s4.phase[1 := WriteComp], outPtr := 1);
    acts := Then(s, acts, Proceed, s5);
    var s6 := s5.(phase := s5.phase[1 := WriteIndex], subComp := 1);
    acts := Then(s, acts, Proceed, s6);
    assert s6.phase[1 := Publish] == s.phase[0 := Offloaded][1 := Publish];
    acts := Then(s, acts, Proceed, Overtaken(s));
  }

  /** The race is real: with two requests or more the stamp of the first can land on the second. */
  lemma StampRace(total: nat, maxInflights: nat) returns (s: State)
    requires total >= 2
    ensures Reachable(s, total, maxInflights) && s.device.Stamp?
    ensures s.lastRcvd == 0 && s.submitter == 1 && s.earliest == 0 && s.processing && s.stamped == {}
  {
    hide Reachable, After;
    var start := Start(total, maxInflights, 0, 0, 0);
    StartReachable(total, maxInflights, 0, 0, 0);
    var acts := ToOvertaken(start);
    AfterReachable(start, acts, total, maxInflights);
    s := Overtaken(start);
  }

  ghost predicate StampsRightly(total: nat, maxInflights: nat) {
    forall s :: Reachable(s, total, maxInflights) && s.device.Stamp? ==> s.submitter == s.lastRcvd
  }

  /** Every stamp goes to the request it is for, in every run, exactly when there is one request at most. */
  lemma StampsRightlyExactly(total: nat, maxInflights: nat)
    ensures StampsRightly(total, maxInflights) <==> total <= 1
  {
    hide Reachable;
    if total <= 1 {
      forall s | Reachable(s, total, maxInflights) && s.device.Stamp? ensures s.submitter == s.lastRcvd {
        ReachableInv(s, total, maxInflights);
      }
    } else {
      var s := StampRace(total, maxInflights);
    }
  }

  /** The accelerator is about to compare the clock with a deadline that was never written. */
  predicate ReadsUnwritten(s: State) { s.device.Top? && s.processing && s.earliest !in s.stamped }

  /** With one request at most: once accepted, its deadline is written before it is read. */
  ghost predicate DeadlineInv(s: State) {
    s.total <= 1 && (s.lastRcvd >= 0 && s.device !in {Release, Stamp} ==> 0 in s.stamped)
  }

  lemma DeadlineStep(s: State, a: Action)
    requires Inv(s) && DeadlineInv(s) && Enabled(s, a)
    ensures DeadlineInv(Apply(s, a))
  {
  }

  lemma {:induction false} DeadlineRun(run: seq<State>, acts: seq<Action>, k: nat)
    requires IsRun(run, acts) && Inv(run[0]) && DeadlineInv(run[0]) && k < |run|
    ensures DeadlineInv(run[k])
  {
    hide Inv, Apply, Enabled, DeadlineInv;
    if k > 0 {
      DeadlineRun(run, acts, k - 1);
      RunInv(run, acts, k - 1);
      assert Steps(run[k - 1], acts[k - 1], run[k]);
      DeadlineStep(run[k - 1], acts[k - 1]);
    }
  }

  lemma OneDeadlineWritten(s: State, total: nat, maxInflights: nat)
    requires Reachable(s, total, maxInflights) && total <= 1
    ensures !ReadsUnwritten(s)
  {
    ReachableInv(s, total, maxInflights);
    var run, acts, outPtr, subComp, submitter :|
      && IsRun(run, acts) && run[|run| - 1] == s
      && run[0] == Start(total, maxInflights, outPtr, subComp, submitter);
    StartInv(total, maxInflights, outPtr, subComp, submitter);
    DeadlineRun(run, acts, |run| - 1);
  }

  /** The misplaced stamp has a consequence: the first request's deadline is read though it was never written. */
  lemma UnwrittenRead(total: nat, maxInflights: nat) returns (s: State)
    requires total >= 2
    ensures Reachable(s, total, maxInflights) && ReadsUnwritten(s)
  {
    hide Reachable;
    var was := StampRace(total, maxInflights);
    s := DeviceAct(was, true);
    StepTo(was, DeviceStep(true), s, total, maxInflights);
  }

  ghost predicate ReadsOnlyWritten(total: nat, maxInflights: nat) {
    forall s :: Reachable(s, total, maxInflights) ==> !ReadsUnwritten(s)
  }

  /** Every deadline read was written, in every run, exactly when there is one request at most. */
  lemma DeadlinesWrittenExactly(total: nat, maxInflights: nat)
    ensures ReadsOnlyWritten(total, maxInflights) <==> total <= 1
  {
    hide Reachable, ReadsUnwritten;
    if total <= 1 {
      forall s | Reachable(s, total, maxInflights) ensures !ReadsUnwritten(s) {
        OneDeadlineWritten(s, total, maxInflights);
      }
    } else {
      var s := UnwrittenRead(total, maxInflights);
    }
  }

  // ----- what is left to do

  function Weight(p: Phase): nat {
    match p
    case Fresh => 12 case PreKernel => 11 case WriteOut => 10 case WriteComp => 9 case WriteIndex => 8
    case Publish => 7 case AwaitAccept => 6 case CheckStatus => 5 case Offloaded => 4 case PostKernel => 1
    case Finished => 0 case Fallback => 0
  }

  function TotalWeight(ps: seq<Phase>): nat {
    if ps == [] then 0 else Weight(ps[0]) + TotalWeight(ps[1..])
  }

  lemma {:induction false} WeightOfUpdate(ps: seq<Phase>, i: nat, p: Phase)
    requires i < |ps|
    ensures TotalWeight(ps[i := p]) == TotalWeight(ps) - Weight(ps[i]) + Weight(p)
  {
    hide Weight;
    if i == 0 {
      assert ps[i := p][1..] == ps[1..];
    } else {
      assert ps[i := p][1..] == ps[1..][i - 1 := p];
      WeightOfUpdate(ps[1..], i - 1, p);
    }
  }

  /**
   What the request core still has to do. A preemption leaves something more to do, the preempted request,
   but it happens only when an older request is about to be resumed, and that is counted for more.
   */
  function CoreWork(s: State): nat {
    TotalWeight(s.phase) + (if s.waiting then 1 else 0)
    + (if InLoop(s) && IsComplete(s, s.nextUnresumed) then 0 else 2)
    + match s.cpu case MainLoop => 2 case DrainLoop => 1 case Stopped => 0 case Fibre(_, _, d) => if d then 1 else 2
  }

  /** How many steps the accelerator is from accepting what is pending, or else from completing an offload. */
  function DeviceWork(s: State): nat {
    if s.pending then
      match s.device
      case Release => 4 case TakeIndex => 5 case TakeStatus => 6 case TakeComp => 7 case TakeOut => 8
      case Check => if s.inflights <= s.maxInflights then 9 else 14
      case Top => if s.processing then 12 else 10
      case Notify => 11 case Reject => 13 case Stamp => 13 case Fault => 0
    else
      match s.device
      case Notify => 1 case Top => 2 case _ => 3
  }

  /** The request core can do nothing but poll. */
  predicate CoreWaits(s: State) {
    match s.cpu
    case Fibre(id, _, _) => id < |s.phase| && s.phase[id].AwaitAccept? && s.pending
    case DrainLoop => s.nextUnresumed < s.nextUnused && !IsComplete(s, s.nextUnresumed) && !s.waiting
    case _ => false
  }

  /** A step of the accelerator never gives the core more to do, nor makes it wait. */
  lemma DeviceKeepsWork(s: State, elapsed: bool)
    requires Inv(s)
    ensures CoreWork(DeviceAct(s, elapsed)) <= CoreWork(s)
    ensures CoreWaits(DeviceAct(s, elapsed)) ==> CoreWaits(s)
    ensures s.earliest <= DeviceAct(s, elapsed).earliest <= s.total
  {
    hide TotalWeight, DeviceAct, Inv;
    var t := DeviceAct(s, elapsed);
    assert CoreSame(s, t);
    if s.device.Notify? { NotifyCompletes(s, elapsed); } else { OthersKeep(s, elapsed); }
  }

  lemma NotifyCompletes(s: State, elapsed: bool)
    requires Inv(s) && s.device.Notify?
    ensures var t := DeviceAct(s, elapsed);
            && t.pending == s.pending && s.earliest < t.earliest <= s.total
            && |t.comp| == |s.comp| && forall i :: 0 <= i < |s.comp| && s.comp[i] ==> t.comp[i]
  {
  }

  lemma OthersKeep(s: State, elapsed: bool)
    requires Inv(s) && !s.device.Notify?
    ensures var t := DeviceAct(s, elapsed);
            (t.pending ==> s.pending) && s.earliest == t.earliest <= s.total && t.comp == s.comp
  {
  }

  /** Acceptance comes nearer, or a completion makes room. */
  lemma AcceptProgress(s: State)
    requires Inv(s) && s.pending
    ensures DeviceAct(s, true).earliest > s.earliest || DeviceWork(DeviceAct(s, true)) < DeviceWork(s)
  {
  }

  lemma CompleteProgress(s: State)
    requires Inv(s) && !s.pending && s.processing
    ensures DeviceAct(s, true).earliest > s.earliest || DeviceWork(DeviceAct(s, true)) < DeviceWork(s)
  {
  }

  lemma WaitedFor(s: State)
    requires Inv(s) && CoreWaits(s)
    ensures s.pending || s.processing
  {
  }

  /** While the core waits, each step of the accelerator brings it nearer to what it waits for. */
  lemma DeviceProgress(s: State)
    requires Inv(s) && CoreWaits(s)
    ensures DeviceAct(s, true).earliest > s.earliest || DeviceWork(DeviceAct(s, true)) < DeviceWork(s)
  {
    hide Inv, DeviceAct, DeviceWork, CoreWaits;
    WaitedFor(s);
    if s.pending { AcceptProgress(s); } else { CompleteProgress(s); }
  }

  /** The running request always has a next instruction, and is never told the accelerator is full. */
  predicate Runnable(s: State) {
    && s.cpu.Fibre? && s.cpu.id < |s.phase|
    && (s.phase[s.cpu.id] in {AwaitAccept, CheckStatus, PostKernel} || BeforePublish(s.phase[s.cpu.id]))
    && (s.phase[s.cpu.id].CheckStatus? ==> !s.full)
  }

  lemma FibreRunnable(s: State)
    requires Inv(s) && s.cpu.Fibre?
    ensures Runnable(s)
  {
  }

  lemma WeightDrops(s: State)
    requires Runnable(s) && !CoreWaits(s)
    ensures Weight(NextPhase(s, s.phase[s.cpu.id])) < Weight(s.phase[s.cpu.id])
  {
  }

  lemma FibreProgress(s: State)
    requires Inv(s) && s.cpu.Fibre? && !CoreWaits(s)
    ensures Enabled(s, Proceed) && CoreWork(ProceedStep(s)) < CoreWork(s)
  {
    hide TotalWeight, Weight, ProceedStep, NextPhase, Inv, CoreWaits, IsComplete;
    FibreRunnable(s);
    WeightDrops(s);
    WeightOfUpdate(s.phase, s.cpu.id, NextPhase(s, s.phase[s.cpu.id]));
  }

  lemma ScheduleProgress(s: State)
    requires Inv(s) && InLoop(s) && !CoreWaits(s)
    ensures CoreWork(ScheduleStep(s)) < CoreWork(s)
  {
    hide TotalWeight;
    if s.nextUnresumed < s.total { WeightOfUpdate(s.phase, s.nextUnresumed, PostKernel); }
    if s.nextUnused < s.total { WeightOfUpdate(s.phase, s.nextUnused, PreKernel); }
  }

  lemma ProbeProgress(s: State)
    requires Inv(s) && Enabled(s, Probe)
    ensures ProbeStep(s) == s || CoreWork(ProbeStep(s)) < CoreWork(s)
  {
    hide TotalWeight;
  }

  // ----- every fair run finishes

  lemma TryInv(s: State, a: Action)
    requires Inv(s)
    ensures Inv(Try(s, a)) && Try(s, a).total == s.total
  {
    hide Inv, Apply;
    if Enabled(s, a) {
      StepInv(s, a);
      StepKeepsSize(s, a);
    }
  }

  /** The core's own next step. */
  function CoreHelp(s: State): Action { if s.cpu.Fibre? then Proceed else Schedule }

  /** No action leads away from the end, and the core's own step, unless it waits, leads nearer to it. */
  lemma TryProgress(s: State, a: Action)
    requires Inv(s) && !s.cpu.Stopped?
    ensures CoreWork(Try(s, a)) <= CoreWork(s) && s.earliest <= Try(s, a).earliest <= s.total
    ensures CoreWork(Try(s, a)) == CoreWork(s) ==> Try(s, a).cpu == s.cpu && (CoreWaits(Try(s, a)) ==> CoreWaits(s))
    ensures a == CoreHelp(s) && !CoreWaits(s) ==> CoreWork(Try(s, a)) < CoreWork(s)
    ensures CoreWaits(s) && !a.DeviceStep? ==> Try(s, a) == s
  {
    hide Inv, ScheduleStep, ProceedStep, ProbeStep, DeviceAct, CoreWork, CoreWaits;
    DeviceKeepsWork(s, true);
    match a {
      case DeviceStep(elapsed) => DeviceKeepsWork(s, elapsed);
      case Probe =>
        if CoreWaits(s) { WaitingStutters(s); }
        if Enabled(s, a) { ProbeProgress(s); }
      case Proceed =>
        if CoreWaits(s) { WaitingStutters(s); }
        if s.cpu.Fibre? && !CoreWaits(s) { FibreProgress(s); }
      case Schedule =>
        if CoreWaits(s) { WaitingStutters(s); }
        if Enabled(s, a) && !CoreWaits(s) { ScheduleProgress(s); }
    }
  }

  lemma WaitingStutters(s: State)
    requires Inv(s) && CoreWaits(s)
    ensures Enabled(s, Proceed) ==> ProceedStep(s) == s
    ensures Enabled(s, Schedule) ==> ScheduleStep(s) == s
    ensures !Enabled(s, Probe)
  {
    if s.cpu.Fibre? { assert s.phase[s.cpu.id := s.phase[s.cpu.id]] == s.phase; }
  }

  /** The actions of an endless run; one that cannot be taken is passed over. */
  type Turns = nat -> Action

  /** The state after the first `n` actions. */
  function At(s: State, sched: Turns, n: nat): State {
    if n == 0 then s else Try(At(s, sched, n - 1), sched(n - 1))
  }

  ghost predicate Again(sched: Turns, n: nat, a: Action) { exists k: nat :: n <= k && sched(k) == a }

  ghost predicate DeviceAgain(sched: Turns, n: nat) { exists k: nat :: n <= k && sched(k).DeviceStep? }

  /**
   From step `m` on, the device finds that the time of its oldest offload `e` has come. An unwritten deadline
   holds whatever was in memory; `lucky` says that such a time comes too.
   */
  ghost predicate ElapsedFrom(s: State, sched: Turns, m: nat, e: nat, lucky: bool) {
    forall k: nat :: m <= k && Looks(s, sched, k, e, lucky) ==> sched(k).elapsed
  }

  ghost predicate Looks(s: State, sched: Turns, k: nat, e: nat, lucky: bool) {
    sched(k).DeviceStep? && At(s, sched, k).earliest == e && (lucky || e in At(s, sched, k).stamped)
  }

  ghost predicate Elapses(s: State, sched: Turns, n: nat, lucky: bool) {
    exists m: nat :: n <= m && ElapsedFrom(s, sched, m, At(s, sched, n).earliest, lucky)
  }

  /** Both threads go on for ever, and every deadline that was written comes at last; preemption is left free. */
  ghost predicate Fair(s: State, sched: Turns, lucky: bool) {
    forall n ::
      Again(sched, n, Proceed) && Again(sched, n, Schedule) && DeviceAgain(sched, n) && Elapses(s, sched, n, lucky)
  }

  /** No unwritten deadline matters to this run. */
  ghost predicate Untroubled(s: State, sched: Turns, lucky: bool) {
    lucky || forall n :: !ReadsUnwritten(At(s, sched, n))
  }

  lemma {:induction false} AtInv(s: State, sched: Turns, n: nat)
    requires Inv(s)
    ensures Inv(At(s, sched, n)) && At(s, sched, n).total == s.total
  {
    hide Inv, Try;
    if n > 0 {
      AtInv(s, sched, n - 1);
      TryInv(At(s, sched, n - 1), sched(n - 1));
    }
  }

  /** Endless runs pass through reachable states only. */
  lemma {:induction false} AtReachable(s: State, sched: Turns, n: nat, total: nat, maxInflights: nat)
    requires Reachable(s, total, maxInflights)
    ensures Reachable(At(s, sched, n), total, maxInflights)
  {
    hide Reachable, Apply;
    if n > 0 {
      AtReachable(s, sched, n - 1, total, maxInflights);
      var was := At(s, sched, n - 1);
      if Enabled(was, sched(n - 1)) { StepTo(was, sched(n - 1), At(s, sched, n), total, maxInflights); }
    }
  }

  /** What `TryProgress` says of step `n`. */
  lemma AtProgress(s: State, sched: Turns, n: nat)
    requires Inv(s)
    ensures var now, next := At(s, sched, n), At(s, sched, n + 1);
            && CoreWork(next) <= CoreWork(now) && now.earliest <= next.earliest <= s.total
            && (CoreWork(next) == CoreWork(now) ==> next.cpu == now.cpu && (CoreWaits(next) ==> CoreWaits(now)))
            && (sched(n) == CoreHelp(now) && !CoreWaits(now) && !now.cpu.Stopped? ==> CoreWork(next) < CoreWork(now))
            && (CoreWaits(now) && !sched(n).DeviceStep? ==> next == now)
  {
    hide Inv, Try, CoreWork, CoreWaits, CoreHelp;
    AtInv(s, sched, n);
    var now := At(s, sched, n);
    assert At(s, sched, n + 1) == Try(now, sched(n));
    if now.cpu.Stopped? { StoppedStays(now, sched(n)); } else { TryProgress(now, sched(n)); }
  }

  lemma StoppedStays(s: State, a: Action)
    requires Inv(s) && s.cpu.Stopped?
    ensures Try(s, a).cpu.Stopped? && CoreWork(Try(s, a)) <= CoreWork(s)
    ensures s.earliest <= Try(s, a).earliest <= s.total
    ensures !CoreWaits(s) && !CoreWaits(Try(s, a))
  {
    hide TotalWeight;
    if a.DeviceStep? { DeviceKeepsWork(s, a.elapsed); } else { DeviceKeepsWork(s, true); }
  }

  lemma {:induction false} NeverAway(s: State, sched: Turns, n: nat, m: nat)
    requires Inv(s) && n <= m
    ensures CoreWork(At(s, sched, m)) <= CoreWork(At(s, sched, n))
    ensures At(s, sched, n).earliest <= At(s, sched, m).earliest
    decreases m - n
  {
    hide Inv, At, CoreWork, CoreWaits;
    if n < m {
      AtProgress(s, sched, n);
      NeverAway(s, sched, n + 1, m);
    }
  }

  /** A core that need not wait has come nearer to the end by the time it takes its own next step. */
  lemma {:induction false} CoreActs(s: State, sched: Turns, n: nat, k: nat) returns (m: nat)
    requires Inv(s) && !At(s, sched, n).cpu.Stopped? && !CoreWaits(At(s, sched, n))
    requires n <= k && sched(k) == CoreHelp(At(s, sched, n))
    ensures m > n && CoreWork(At(s, sched, m)) < CoreWork(At(s, sched, n))
    decreases k - n
  {
    hide Inv, At, CoreWork, CoreWaits;
    AtProgress(s, sched, n);
    m := n + 1;
    if CoreWork(At(s, sched, n + 1)) == CoreWork(At(s, sched, n)) { m := CoreActs(s, sched, n + 1, k); }
  }

  /** What a wait comes to: nothing to wait for any more, or something done. */
  ghost predicate Relieved(now: State, was: State) {
    CoreWork(now) <= CoreWork(was) && (CoreWork(now) < CoreWork(was) || !CoreWaits(now))
  }

  /** Up to the device's next step, while the core waits. */
  lemma {:induction false} DeviceActs(s: State, sched: Turns, n: nat, k: nat, lucky: bool) returns (m: nat)
    requires Inv(s) && Untroubled(s, sched, lucky)
    requires CoreWaits(At(s, sched, n)) && ElapsedFrom(s, sched, n, At(s, sched, n).earliest, lucky)
    requires n <= k && sched(k).DeviceStep?
    ensures m > n
    ensures var now, was := At(s, sched, m), At(s, sched, n);
            Relieved(now, was) || now.earliest > was.earliest || (now.earliest == was.earliest && DeviceWork(now) < DeviceWork(was))
    decreases k - n
  {
    hide Inv, At, CoreWork, CoreWaits, DeviceWork;
    AtProgress(s, sched, n);
    if sched(n).DeviceStep? {
      OneDeviceStep(s, sched, n, lucky);
      m := n + 1;
    } else {
      m := DeviceActs(s, sched, n + 1, k, lucky);
    }
  }

  lemma OneDeviceStep(s: State, sched: Turns, n: nat, lucky: bool)
    requires Inv(s) && Untroubled(s, sched, lucky)
    requires CoreWaits(At(s, sched, n)) && ElapsedFrom(s, sched, n, At(s, sched, n).earliest, lucky)
    requires sched(n).DeviceStep?
    ensures var now, was := At(s, sched, n + 1), At(s, sched, n);
            now.earliest > was.earliest || DeviceWork(now) < DeviceWork(was)
  {
    hide Inv, DeviceAct, CoreWaits, DeviceWork;
    AtInv(s, sched, n);
    var was := At(s, sched, n);
    DeviceProgress(was);
    if !sched(n).elapsed {
      ClockUnread(was);
    }
  }

  lemma ClockUnread(s: State)
    requires !(s.device.Top? && s.processing)
    ensures DeviceAct(s, false) == DeviceAct(s, true)
  {
  }

  lemma {:induction false} DeviceRuns(s: State, sched: Turns, n: nat, lucky: bool) returns (m: nat)
    requires Inv(s) && Fair(s, sched, lucky) && Untroubled(s, sched, lucky)
    requires CoreWaits(At(s, sched, n)) && ElapsedFrom(s, sched, n, At(s, sched, n).earliest, lucky)
    ensures m > n && (Relieved(At(s, sched, m), At(s, sched, n)) || At(s, sched, m).earliest > At(s, sched, n).earliest)
    decreases DeviceWork(At(s, sched, n))
  {
    hide Inv, At, CoreWork, CoreWaits, DeviceWork;
    assert DeviceAgain(sched, n);
    var k: nat :| n <= k && sched(k).DeviceStep?;
    m := DeviceActs(s, sched, n, k, lucky);
    NeverAway(s, sched, n, m);
    var now, was := At(s, sched, m), At(s, sched, n);
    if !Relieved(now, was) && now.earliest == was.earliest { m := DeviceRuns(s, sched, m, lucky); }
  }

  /** No wait lasts for ever. */
  lemma {:induction false} WaitEnds(s: State, sched: Turns, n: nat, lucky: bool) returns (m: nat)
    requires Inv(s) && Fair(s, sched, lucky) && Untroubled(s, sched, lucky) && CoreWaits(At(s, sched, n))
    ensures m >= n && Relieved(At(s, sched, m), At(s, sched, n))
    decreases s.total - At(s, sched, n).earliest
  {
    hide Inv, At, CoreWork, CoreWaits;
    assert Elapses(s, sched, n, lucky);
    var e := At(s, sched, n).earliest;
    m :| n <= m && ElapsedFrom(s, sched, m, e, lucky);
    NeverAway(s, sched, n, m);
    AtProgress(s, sched, n);
    if Relieved(At(s, sched, m), At(s, sched, n)) { return; }
    if At(s, sched, m).earliest == e {
      var from := m;
      m := DeviceRuns(s, sched, from, lucky);
      NeverAway(s, sched, from, m);
      if Relieved(At(s, sched, m), At(s, sched, from)) { return; }
    }
    if Relieved(At(s, sched, m), At(s, sched, n)) { return; }
    AtProgress(s, sched, m);
    m := WaitEnds(s, sched, m, lucky);
  }

  lemma {:induction false} FairFinishes(s: State, sched: Turns, n: nat, lucky: bool) returns (m: nat)
    requires Inv(s) && Fair(s, sched, lucky) && Untroubled(s, sched, lucky)
    ensures m >= n && At(s, sched, m).cpu.Stopped?
    decreases CoreWork(At(s, sched, n))
  {
    hide Inv, At, CoreWork;
    m := n;
    if CoreWaits(At(s, sched, n)) { m := WaitEnds(s, sched, n, lucky); }
    if At(s, sched, m).cpu.Stopped? { return; }
    if CoreWork(At(s, sched, m)) == CoreWork(At(s, sched, n)) {
      var help := CoreHelp(At(s, sched, m));
      assert Again(sched, m, help);
      var k: nat :| m <= k && sched(k) == help;
      m := CoreActs(s, sched, m, k);
    }
    m := FairFinishes(s, sched, m, lucky);
  }

  /**
   However the two threads interleave and whichever probe points preempt, every fair run finishes all
   requests, unless the accelerator comes to a deadline that was never written and its time does not come.
   */
  lemma EveryFairRunFinishes(total: nat, maxInflights: nat, outPtr: nat, subComp: nat, submitter: nat,
                             sched: Turns, lucky: bool)
    returns (n: nat)
    requires Fair(Start(total, maxInflights, outPtr, subComp, submitter), sched, lucky)
    ensures var s := At(Start(total, maxInflights, outPtr, subComp, submitter), sched, n);
            || (s.cpu.Stopped? && s.submitted == s.accepted == s.completed == s.finished == Iota(total))
            || (!lucky && ReadsUnwritten(s))
  {
    hide At, Fair, ReadsUnwritten;
    var s := Start(total, maxInflights, outPtr, subComp, submitter);
    StartInv(total, maxInflights, outPtr, subComp, submitter);
    if Untroubled(s, sched, lucky) {
      n := FairFinishes(s, sched, 0, lucky);
      AtInv(s, sched, n);
    } else {
      n :| ReadsUnwritten(At(s, sched, n));
    }
  }

  /** Taking turns, with the time of an offload come whenever it is looked at, is fair. */
  lemma TurnsAreFair(s: State, lucky: bool)
    ensures Fair(s, (k: nat) => if k % 3 == 0 then Proceed else if k % 3 == 1 then Schedule else DeviceStep(true), lucky)
  {
    var sched: Turns := (k: nat) => if k % 3 == 0 then Proceed else if k % 3 == 1 then Schedule else DeviceStep(true);
    forall n: nat
      ensures Again(sched, n, Proceed) && Again(sched, n, Schedule) && DeviceAgain(sched, n) && Elapses(s, sched, n, lucky)
    {
      assert sched(3 * n) == Proceed && sched(3 * n + 1) == Schedule && sched(3 * n + 2) == DeviceStep(true);
      assert ElapsedFrom(s, sched, n, At(s, sched, n).earliest, lucky);
    }
  }

  // ----- and a fair run that never finishes

  /** Nothing completes: the oldest deadline was never written, nor will be, and its time does not come. */
  ghost predicate Hung(s: State) {
    && Inv(s) && s.total >= 1
    && s.earliest == 0 && !s.device.Notify?
    && 0 !in s.stamped && s.submitter >= 1 && |s.submitted| >= 1
  }

  lemma HungStays(s: State, a: Action)
    requires Hung(s) && a != DeviceStep(true)
    ensures Hung(Try(s, a))
  {
    hide Inv, ScheduleStep, ProbeStep, ProceedStep, DeviceAct;
    TryInv(s, a);
    if Enabled(s, a) {
      match a
      case Schedule =>
      case Probe =>
      case Proceed => HungProceeds(s);
      case DeviceStep(_) => HungDevice(s);
    }
  }

  lemma HungProceeds(s: State)
    requires Hung(s) && Enabled(s, Proceed)
    ensures ProceedStep(s).submitter >= 1 && |ProceedStep(s).submitted| >= 1
  {
  }

  lemma HungDevice(s: State)
    requires Hung(s)
    ensures DeviceAct(s, false).earliest == 0 && !DeviceAct(s, false).device.Notify? && 0 !in DeviceAct(s, false).stamped
  {
  }

  lemma HungRuns(s: State)
    requires Hung(s)
    ensures !s.cpu.Stopped?
  {
  }

  /** First `acts`, then turns, in which no time ever comes. */
  function Hanging(acts: seq<Action>): Turns {
    (k: nat) => if k < |acts| then acts[k]
                else if k % 3 == 0 then Proceed else if k % 3 == 1 then Schedule else DeviceStep(false)
  }

  lemma {:induction false} HangingFollows(s: State, acts: seq<Action>, n: nat)
    requires n <= |acts|
    ensures At(s, Hanging(acts), n) == After(s, acts[..n])
  {
    hide Try;
    if n > 0 {
      HangingFollows(s, acts, n - 1);
      assert acts[..n][..n - 1] == acts[..n - 1];
    }
  }

  lemma {:induction false} StaysHung(s: State, acts: seq<Action>, n: nat)
    requires n >= |acts| && Hung(After(s, acts))
    ensures Hung(At(s, Hanging(acts), n))
  {
    hide Try, Hung, After;
    if n == |acts| {
      HangingFollows(s, acts, n);
      assert acts[..n] == acts;
    } else {
      StaysHung(s, acts, n - 1);
      HungStays(At(s, Hanging(acts), n - 1), Hanging(acts)(n - 1));
    }
  }

  lemma HangingIsFair(s: State, acts: seq<Action>)
    requires Hung(After(s, acts))
    ensures Fair(s, Hanging(acts), false)
  {
    hide At, After, Inv;
    var sched := Hanging(acts);
    forall n: nat
      ensures Again(sched, n, Proceed) && Again(sched, n, Schedule) && DeviceAgain(sched, n) && Elapses(s, sched, n, false)
    {
      var m := n + |acts|;
      assert sched(3 * m) == Proceed && sched(3 * m + 1) == Schedule && sched(3 * m + 2) == DeviceStep(false);
      forall k: nat | m <= k ensures Hung(At(s, sched, k)) { StaysHung(s, acts, k); }
      assert ElapsedFrom(s, sched, m, At(s, sched, n).earliest, false);
    }
  }

  ghost predicate Finishes(s: State, sched: Turns) { exists n :: At(s, sched, n).cpu.Stopped? }

  ghost predicate AlwaysFinishes(s: State) {
    forall sched :: Fair(s, sched, false) ==> Finishes(s, sched)
  }

  lemma HangsForever(s: State) returns (sched: Turns)
    requires TwoOrMore(s)
    ensures Fair(s, sched, false) && !Finishes(s, sched)
  {
    hide At, After, Fair, Inv;
    var acts := ToOvertaken(s);
    StartInv(s.total, s.maxInflights, s.outPtr, s.subComp, s.submitter);
    AfterInv(s, acts);
    sched := Hanging(acts);
    HangingIsFair(s, acts);
    forall n: nat ensures !At(s, sched, n).cpu.Stopped? {
      if n >= |acts| {
        StaysHung(s, acts, n);
        HungRuns(At(s, sched, n));
      } else {
        StoppedForGood(s, sched, n, |acts|);
        StaysHung(s, acts, |acts|);
        HungRuns(At(s, sched, |acts|));
      }
    }
  }

  lemma {:induction false} AfterInv(s: State, acts: seq<Action>)
    requires Inv(s)
    ensures Inv(After(s, acts)) && After(s, acts).total == s.total
    decreases |acts|
  {
    hide Inv, Try;
    if acts != [] {
      AfterInv(s, acts[..|acts| - 1]);
      TryInv(After(s, acts[..|acts| - 1]), acts[|acts| - 1]);
    }
  }

  lemma {:induction false} StoppedForGood(s: State, sched: Turns, n: nat, m: nat)
    requires n <= m
    ensures At(s, sched, n).cpu.Stopped? ==> At(s, sched, m).cpu.Stopped?
    decreases m
  {
    if n < m { StoppedForGood(s, sched, n, m - 1); }
  }

  /**
   With only the written deadlines sure to come, every fair run finishes exactly when there is one request
   at most: with two, a misplaced stamp can leave the accelerator comparing the clock with what was never written.
   */
  lemma AlwaysFinishesExactly(total: nat, maxInflights: nat, outPtr: nat, subComp: nat, submitter: nat)
    ensures AlwaysFinishes(Start(total, maxInflights, outPtr, subComp, submitter)) <==> total <= 1
  {
    hide At, Fair, ReadsUnwritten, Reachable;
    var s := Start(total, maxInflights, outPtr, subComp, submitter);
    if total <= 1 {
      forall sched | Fair(s, sched, false) ensures Finishes(s, sched) {
        var n := EveryFairRunFinishes(total, maxInflights, outPtr, subComp, submitter, sched, false);
        StartReachable(total, maxInflights, outPtr, subComp, submitter);
        AtReachable(s, sched, n, total, maxInflights);
        OneDeadlineWritten(At(s, sched, n), total, maxInflights);
      }
    } else {
      var sched := HangsForever(s);
    }
  }
}

/** The scheduler as a state machine: one step per locked section, on one CPU. */
module Scheduler {
  import opened Options
  import opened Processes

  const PID_LIMIT: nat := 0x1_0000_0000

  /** A child handed over to the process that waited for it. */
  datatype Reaped = Reaped(parent: nat, child: Process)

  /** The table and CURRENT_PID (0 when unset), with two histories: the codes processes exited with
      and the children that were reaped. */
  datatype State = State(es: seq<Process>, nextPid: nat, current: nat, exited: map<nat, int>, log: seq<Reaped>)

  datatype Op =
    | Spawn(stored: bool)  // spawn by the current process; storing the record may fail
    | Reschedule           // one call of schedule_internal
    | Block                // block_current on the keyboard, up to its reschedule
    | WakeKeyboard         // the keyboard interrupt
    | Exit(code: int)      // exit_current up to the wake-up call
    | Post                 // the wake-up call of exit_current
    | Wait(target: Target) // one turn of wait_for_child
    | Tick(rip: nat)       // the timer interrupt
    | Take                 // the end of preempt_do_switch

  // ---------------------------------------------------------------- the steps

  /** Index of the current process, the table's length if there is none. */
  function Cur(s: State): (i: nat)
    ensures i <= |s.es| && (i < |s.es| ==> s.es[i].pid == s.current)
  {
    if s.current == 0 then |s.es| else Find(s.es, s.current, 0)
  }

  function CurIndex(s: State): Option<nat> {
    if Cur(s) < |s.es| then Some(Cur(s)) else None
  }

  /** Where a process that is switched out will go on. */
  function Onward(at: Control): Control {
    match at
    case Preempting(rip, back) => Resuming(rip, back)
    case Blocking => Free
    case Waiting(t) => Rewait(t)
    case _ => at
  }

  function Leave(p: Process): Process {
    p.(status := if p.status.Running? then Ready else p.status, at := Onward(p.at))
  }

  /** The next entry to run, if schedule_internal switches at all. */
  function Choice(s: State): Option<nat> {
    var next := NextReady(s.es, CurIndex(s));
    if next == CurIndex(s) then None else next
  }

  lemma ChoiceInTable(s: State)
    ensures Choice(s).Some? ==> Choice(s).value < |s.es|
  {
    if s.es != [] {
      var k := NextReadyFinds(s.es, CurIndex(s));
    }
  }

  function SwitchOut(s: State): (es: seq<Process>)
    ensures |es| == |s.es|
  {
    if Cur(s) < |s.es| then s.es[Cur(s) := Leave(s.es[Cur(s)])] else s.es
  }

  /** The records when the locked section of schedule_internal has chosen an entry. */
  function Promote(s: State, next: nat): seq<Process>
    requires next < |s.es|
  {
    var es := SwitchOut(s);
    es[next := es[next].(status := Running)]
  }

  /** `schedule_internal` in one step; SwitchWindow takes it apart. */
  function Switch(s: State): State {
    ChoiceInTable(s);
    var next := Choice(s);
    if next.None? then s else s.(es := Promote(s, next.value), current := s.es[next.value].pid)
  }

  function NewProcess(pid: nat, parent: Option<nat>, idle: bool): Process {
    Process(pid, parent, Ready, None, None, idle, None, Free)
  }

  function SpawnStep(s: State, stored: bool): State {
    if s.nextPid + 1 >= PID_LIMIT then s
    else
      var parent := if s.current == 0 then None else Some(s.current);
      s.(nextPid := s.nextPid + 1, es := if stored then s.es + [NewProcess(s.nextPid, parent, false)] else s.es)
  }

  /** The turn of wait_for_child that found nothing to wait for, a child to take, or must block. */
  function WaitStep(s: State, t: Target): State
    requires Cur(s) < |s.es|
  {
    var c, z := Cur(s), FindZombie(s.es, s.current, t, 0);
    if FindChild(s.es, s.current, t, 0) == |s.es| then s.(es := s.es[c := s.es[c].(at := Free)])
    else if z < |s.es| then
      s.(es := Remove(s.es[c := s.es[c].(at := Free)], z), log := s.log + [Reaped(s.current, s.es[z])])
    else s.(es := s.es[c := s.es[c].(status := Blocked, channel := Some(ChannelOf(t)), saved := None,
      at := Waiting(t))])
  }

  /** `request_preempt`: only a running process that is not idle and not already preempted. */
  function TickOne(p: Process, rip: nat): Process {
    if !p.status.Running? || p.idle || p.saved.Some? then p
    else p.(saved := Some(rip), at := Preempting(rip, p.at))
  }

  function BlockOne(p: Process, channel: Channel): Process {
    p.(status := Blocked, channel := Some(channel), saved := None, at := Blocking)
  }

  function ExitOne(p: Process, code: int): Process {
    p.(status := Zombie, channel := None, code := Some(code), saved := None, at := Exiting(p.parent.None?))
  }

  const KERNEL_BASE: nat := 0xFFFF_8000_0000_0000

  /** The current process's record after a step of its own. */
  function Own(s: State, p: Process): State
    requires Cur(s) < |s.es|
  {
    s.(es := s.es[Cur(s) := p])
  }

  /** Which steps the code can take. The idle task only calls schedule_internal. */
  predicate Enabled(s: State, op: Op) {
    var c := Cur(s);
    match op
    case WakeKeyboard => true
    case Tick(_) => true
    case Spawn(_) => s.current == 0 || (c < |s.es| && s.es[c].at.Free? && !s.es[c].idle)
    case Reschedule =>
      s.current == 0 || (c < |s.es| && var at := s.es[c].at;
                         at.Free? || at.Preempting? || at.Blocking? || at.Waiting? || at == Exiting(true))
    case Block => c < |s.es| && s.es[c].at.Free? && !s.es[c].idle
    case Exit(_) => c < |s.es| && s.es[c].at.Free? && !s.es[c].idle
    case Post => c < |s.es| && s.es[c].at == Exiting(false)
    case Wait(t) => c < |s.es| && !s.es[c].idle && (s.es[c].at.Free? || s.es[c].at == Rewait(t))
    case Take => c < |s.es| && s.es[c].at.Resuming?
  }

  function Next(s: State, op: Op): State
    requires Enabled(s, op)
  {
    var c := Cur(s);
    match op
    case Spawn(stored) => SpawnStep(s, stored)
    case Reschedule => Switch(s)
    case Block => Own(s, BlockOne(s.es[c], KeyboardInput))
    case WakeKeyboard => s.(es := Wake(s.es, KeyboardInput))
    case Exit(code) => Own(s, ExitOne(s.es[c], code)).(exited := s.exited[s.current := code])
    case Post => s.(es := Wake(s.es, Child(ParentOf(s.es[c])))[c := s.es[c].(at := Exiting(true))])
    case Wait(t) => WaitStep(s, t)
    case Tick(rip) => if c < |s.es| && rip >= KERNEL_BASE then Own(s, TickOne(s.es[c], rip)) else s
    case Take => Own(s, s.es[c].(saved := None, at := s.es[c].at.back))
  }

  function ParentOf(p: Process): nat { if p.parent.Some? then p.parent.value else 0 }

  /** The address preempt_do_switch returns: the saved one, or else the context's. */
  function Resumes(s: State, contextRip: nat): nat
    requires Enabled(s, Take)
  {
    var p := s.es[Cur(s)];
    if p.saved.Some? then p.saved.value else contextRip
  }

  /** After `init`: the idle task alone, nothing running. */
  function Boot(): State {
    State([NewProcess(1, None, true)], 2, 0, map[], [])
  }
}

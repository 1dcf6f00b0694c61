/** The reschedule taken apart: the locked section that chooses, the store of CURRENT_PID and the context
    switch, with interrupts in between. Where the scheduler's one-step switch is exact, and where not. */
module SwitchWindow {
  import opened Options
  import opened Processes
  import opened Scheduler
  import opened SchedulerInvariant
  import opened SchedulerProgress
  import opened LostWake

  /** How far a switch has got: none under way, a process chosen, CURRENT_PID stored. */
  datatype Phase = Steady | Chosen(next: nat) | Stored

  /** The CPU: the scheduler's state, and the process whose code it executes (0 for the boot code). */
  datatype Cpu = Cpu(s: State, executing: nat, phase: Phase)

  datatype Micro = Do(op: Op) | Choose | Store | Jump

  /** Interrupts come at any time, everything else in its turn. */
  predicate Can(c: Cpu, m: Micro) {
    match m
    case Do(op) => Enabled(c.s, op) && !op.Reschedule? && (c.phase.Steady? || op.Tick? || op.WakeKeyboard?)
    case Choose => c.phase.Steady? && Enabled(c.s, Reschedule)
    case Store => c.phase.Chosen?
    case Jump => c.phase.Stored?
  }

  function Go(c: Cpu, m: Micro): Cpu
    requires Can(c, m)
  {
    match m
    case Do(op) => c.(s := Next(c.s, op))
    case Choose => GoChoose(c)
    case Store => c.(s := c.s.(current := c.phase.next), phase := Stored)
    case Jump => Cpu(c.s, c.s.current, Steady)
  }

  function GoChoose(c: Cpu): Cpu {
    ChoiceInTable(c.s);
    var next := Choice(c.s);
    if next.None? then c
    else c.(s := c.s.(es := Promote(c.s, next.value)), phase := Chosen(c.s.es[next.value].pid))
  }

  /** The scheduler's state as it will be when the switch under way is done. */
  function Settled(c: Cpu): State {
    if c.phase.Chosen? then c.s.(current := c.phase.next) else c.s
  }

  /** CURRENT_PID names the process that executes, except between its store and the jump. Then it names a
      running process; and before the store the process that executes no longer counts as running. */
  predicate Ordered(c: Cpu) {
    var i := Cur(c.s);
    match c.phase
    case Steady => c.executing == c.s.current
    case Chosen(next) => c.executing == c.s.current && next != c.executing
      && (i < |c.s.es| ==> !c.s.es[i].status.Running?)
    case Stored => c.executing != c.s.current && i < |c.s.es| && c.s.es[i].status.Running?
  }

  // ---------------------------------------------------------------- the timer, exactly

  /** A tick in the window between store and jump that finds the next process preemptible. */
  predicate Stray(c: Cpu, rip: nat) {
    var i := Cur(c.s);
    c.phase.Stored? && rip >= KERNEL_BASE && i < |c.s.es| && !c.s.es[i].idle && c.s.es[i].saved.None?
  }

  lemma {:induction false} TickOnly(s: State, rip: nat, pid: nat)
    requires pid != s.current
    ensures Saved(Next(s, Tick(rip)), pid) == Saved(s, pid)
  {
    var i := Cur(s);
    if i < |s.es| && rip >= KERNEL_BASE {
      FindOther(s.es, i, TickOne(s.es[i], rip), pid, 0);
    }
  }

  lemma {:induction false} FindOther(es: seq<Process>, i: nat, p: Process, pid: nat, j: nat)
    requires i < |es| && p.pid == es[i].pid && j <= |es|
    ensures Find(es[i := p], pid, j) == Find(es, pid, j)
    decreases |es| - j
  {
    if j == |es| {
    } else {
      FindOther(es, i, p, pid, j + 1);
    }
  }

  lemma {:induction false} TickStray(c: Cpu, rip: nat)
    requires Ordered(c) && Stray(c, rip)
    ensures Saved(Next(c.s, Tick(rip)), c.s.current) == Some(rip) && Saved(c.s, c.s.current) == None
  {
    var i := Cur(c.s);
    assert c.s.current != 0;
    FindOther(c.s.es, i, TickOne(c.s.es[i], rip), c.s.current, 0);
  }

  /** When the timer saves the address it interrupted in the record of the process that was interrupted:
      always, except in that window. The saved addresses of all processes but the executing one stay as they
      are exactly when the tick is not a stray one, and a stray tick gives the next process an address in
      the code of the one before. */
  lemma {:induction false} TickExactly(c: Cpu, rip: nat)
    requires Ordered(c)
    ensures (forall pid: nat :: pid != c.executing ==> Saved(Next(c.s, Tick(rip)), pid) == Saved(c.s, pid)) <==>
      !Stray(c, rip)
    ensures Stray(c, rip) ==> c.s.current != c.executing && Saved(Next(c.s, Tick(rip)), c.s.current) == Some(rip)
  {
    if Stray(c, rip) {
      TickStray(c, rip);
    } else {
      forall pid: nat | pid != c.executing ensures Saved(Next(c.s, Tick(rip)), pid) == Saved(c.s, pid) {
        if pid != c.s.current {
          TickOnly(c.s, rip, pid);
        } else {
          TickIdle(c, rip);
        }
      }
    }
  }

  /** Between store and jump, and between choice and store, a tick that is not stray has no effect. */
  lemma {:induction false} TickIdle(c: Cpu, rip: nat)
    requires Ordered(c) && !c.phase.Steady? && !Stray(c, rip)
    ensures Next(c.s, Tick(rip)) == c.s
  {
    var i := Cur(c.s);
    if i < |c.s.es| && rip >= KERNEL_BASE {
      assert TickOne(c.s.es[i], rip) == c.s.es[i];
      assert c.s.es[i := c.s.es[i]] == c.s.es;
    }
  }

  // ---------------------------------------------------------------- where one step is enough

  /** Choosing is the whole switch, seen from its end. */
  lemma {:induction false} ChooseSettles(c: Cpu)
    requires c.phase.Steady? && Ordered(c) && Inv(c.s)
    ensures Settled(GoChoose(c)) == Switch(c.s) && Ordered(GoChoose(c))
  {
    ChoiceInTable(c.s);
    ChoiceReady(c.s);
    if Choice(c.s).Some? {
      var n, i := Choice(c.s).value, Cur(c.s);
      var es := Promote(c.s, n);
      SameFind(c.s.es, es, c.s.current, 0);
      if i < |c.s.es| {
        assert es[i] == Leave(c.s.es[i]);
      }
      assert c.s.es[n].pid != c.s.current by {
        assert Fine(c.s.es[n], c.s.nextPid, c.s.current);
        if c.s.es[n].pid == c.s.current {
          FindHere(c.s.es, c.s.current, n);
        }
      }
    }
  }

  /** The keyboard interrupt leaves the running and the switched-out process as they are. */
  lemma {:induction false} WakeOrdered(c: Cpu)
    requires Ordered(c)
    ensures Ordered(c.(s := Next(c.s, WakeKeyboard)))
  {
    SameFind(c.s.es, Wake(c.s.es, KeyboardInput), c.s.current, 0);
  }

  lemma {:induction false} StoreOrdered(c: Cpu)
    requires Ordered(c) && c.phase.Chosen? && Inv(Settled(c)) && Runs(Settled(c))
    ensures Ordered(Go(c, Store)) && Settled(Go(c, Store)) == Settled(c)
  {
  }

  /** The current process counts as running. */
  predicate Runs(s: State) { Cur(s) < |s.es| && s.es[Cur(s)].status.Running? }

  lemma {:induction false} SwitchRuns(s: State)
    requires Inv(s) && Enabled(s, Reschedule) && Choice(s).Some?
    ensures Runs(Switch(s))
  {
    ChoiceReady(s);
    var n := Choice(s).value;
    SwitchEntry(s, n, n);
    SwitchInv(s);
    FindHere(Switch(s).es, s.es[n].pid, n);
    assert Fine(Switch(s).es[n], s.nextPid, s.es[n].pid);
  }

  lemma {:induction false} WakeRuns(s: State)
    requires Runs(s)
    ensures Runs(Next(s, WakeKeyboard))
  {
    SameFind(s.es, Wake(s.es, KeyboardInput), s.current, 0);
  }

  /** All that a CPU keeps between micro-steps. */
  ghost predicate Sound(c: Cpu) {
    Ordered(c) && Inv(Settled(c)) && (c.phase.Chosen? ==> Runs(Settled(c)))
  }

  /** Every micro-step but a stray tick is a step of the scheduler, or none. */
  lemma {:induction false} MicroProjects(c: Cpu, m: Micro) returns (ops: seq<Op>)
    requires Sound(c) && Can(c, m) && !(m.Do? && m.op.Tick? && Stray(c, m.op.rip))
    ensures Sound(Go(c, m)) && Possible(Settled(c), ops) && Run(Settled(c), ops) == Settled(Go(c, m))
    ensures ops == [] || ops == [Reschedule] || (m.Do? && ops == [m.op])
  {
    match m
    case Do(op) => ops := DoProjects(c, op);
    case Choose =>
      ChooseSettles(c);
      ops := [Reschedule];
      StepInv(c.s, Reschedule);
      OneStep(c.s, Reschedule);
      if Choice(c.s).Some? {
        SwitchRuns(c.s);
      }
    case Store =>
      StoreOrdered(c);
      ops := [];
    case Jump => ops := [];
  }

  lemma OneStep(s: State, op: Op)
    requires Enabled(s, op)
    ensures Possible(s, [op]) && Run(s, [op]) == Next(s, op)
  {
    assert [op][1..] == [];
  }

  lemma {:induction false} DoProjects(c: Cpu, op: Op) returns (ops: seq<Op>)
    requires Sound(c) && Can(c, Do(op)) && !(op.Tick? && Stray(c, op.rip))
    ensures Sound(Go(c, Do(op))) && Possible(Settled(c), ops) && Run(Settled(c), ops) == Settled(Go(c, Do(op)))
    ensures ops == [] || ops == [op]
  {
    if op.Tick? && !c.phase.Steady? {
      TickIdle(c, op.rip);
      ops := [];
    } else {
      ops := [op];
      OneStep(Settled(c), op);
      StepInv(Settled(c), op);
      if op.WakeKeyboard? {
        WakeOrdered(c);
        if c.phase.Chosen? {
          WakeRuns(Settled(c));
        }
      } else {
        CurrentKept(c.s, op);
      }
    }
  }

  lemma CurrentKept(s: State, op: Op)
    requires Enabled(s, op) && !op.Reschedule?
    ensures Next(s, op).current == s.current
  {
  }

  predicate CanAll(c: Cpu, ms: seq<Micro>)
    decreases |ms|
  {
    ms == [] || (Can(c, ms[0]) && CanAll(Go(c, ms[0]), ms[1..]))
  }

  function GoAll(c: Cpu, ms: seq<Micro>): Cpu
    requires CanAll(c, ms)
    decreases |ms|
  {
    if ms == [] then c else GoAll(Go(c, ms[0]), ms[1..])
  }

  predicate NoStray(c: Cpu, ms: seq<Micro>)
    requires CanAll(c, ms)
    decreases |ms|
  {
    ms == [] || (!(ms[0].Do? && ms[0].op.Tick? && Stray(c, ms[0].op.rip)) && NoStray(Go(c, ms[0]), ms[1..]))
  }

  /** Runs without a stray tick are runs of the scheduler: what is proved of those holds of the CPU, with
      the switch in three parts and interrupts between them. */
  lemma {:induction false} MicroRunProjects(c: Cpu, ms: seq<Micro>) returns (ops: seq<Op>)
    requires Sound(c) && CanAll(c, ms) && NoStray(c, ms)
    ensures Sound(GoAll(c, ms)) && Possible(Settled(c), ops) && Run(Settled(c), ops) == Settled(GoAll(c, ms))
    decreases |ms|
  {
    ops := [];
    if ms == [] {
    } else {
      var first := MicroProjects(c, ms[0]);
      var rest := MicroRunProjects(Go(c, ms[0]), ms[1..]);
      RunConcat(Settled(c), first, rest);
      ops := first + rest;
    }
  }

  lemma {:induction false} RunConcat(s: State, a: seq<Op>, b: seq<Op>)
    requires Possible(s, a) && Possible(Run(s, a), b)
    ensures Possible(s, a + b) && Run(s, a + b) == Run(Run(s, a), b)
    decreases |a|
  {
    if a == [] {
      assert a + b == b;
    } else {
      var op, rest := a[0], a[1..];
      var s1 := Next(s, op);
      RunConcat(s1, rest, b);
      Then(s, op, s1, rest);
      Then(s, op, s1, rest + b);
      assert a == [op] + rest && a + b == [op] + (rest + b);
    }
  }

  /** The process pid does not take its saved address during the run. */
  predicate NotTaken(c: Cpu, ms: seq<Micro>, pid: nat)
    requires CanAll(c, ms)
    decreases |ms|
  {
    ms == [] || (!(ms[0] == Do(Take) && c.s.current == pid) && NotTaken(Go(c, ms[0]), ms[1..], pid))
  }

  /** The preemption round trip on the CPU: with the switch in three parts, under any interleaving without a
      stray tick, the address the timer saved is the one that is returned to. */
  lemma {:induction false} MicroRoundTrip(c: Cpu, ms: seq<Micro>, pid: nat, rip: nat, contextRip: nat)
    requires Sound(c) && CanAll(c, ms) && NoStray(c, ms) && NotTaken(c, ms, pid) && Saved(Settled(c), pid) == Some(rip)
    ensures var s' := Settled(GoAll(c, ms));
      Saved(s', pid) == Some(rip) && (s'.current == pid && Enabled(s', Take) ==> Resumes(s', contextRip) == rip)
    decreases |ms|
  {
    if ms == [] {
      PreemptRoundTrip(Settled(c), [], pid, rip, contextRip);
    } else {
      var ops := MicroProjects(c, ms[0]);
      PreemptRoundTrip(Settled(c), ops, pid, rip, contextRip);
      MicroRoundTrip(Go(c, ms[0]), ms[1..], pid, rip, contextRip);
    }
  }

  // ---------------------------------------------------------------- the window is reached

  lemma {:induction false} ThenMicro(c: Cpu, m: Micro, c': Cpu, ms: seq<Micro>)
    requires Can(c, m) && Go(c, m) == c' && CanAll(c', ms)
    ensures CanAll(c, [m] + ms) && GoAll(c, [m] + ms) == GoAll(c', ms)
  {
    assert ([m] + ms)[1..] == ms;
  }

  function C1(): Cpu { Cpu(S2().(current := 0), 0, Chosen(2)) }
  function C3(): Cpu { Cpu(S3().(es := [IDLE, PARENT, CHILD.(status := Running)]), 2, Chosen(3)) }

  lemma FirstChoice()
    ensures Can(Cpu(S1(), 0, Steady), Choose) && Go(Cpu(S1(), 0, Steady), Choose) == C1()
  {
    var es := S1().es;
    assert Find(es, 0, 1) == 2;
    assert Cur(S1()) == 2;
    assert Scan(es, 1, 1, Some(0)) == Some(1);
    assert NextReady(es, None) == Some(1);
  }

  lemma SecondChoice()
    ensures Can(Cpu(S3(), 2, Steady), Choose) && Go(Cpu(S3(), 2, Steady), Choose) == C3()
  {
    var es := S3().es;
    assert Cur(S3()) == 1;
    assert Runnable(es[2]);
    assert NextReady(es, Some(1)) == Some(2);
  }

  /** From boot to process 2 running with 3 ready. */
  lemma {:induction false} ReachThree(ms: seq<Micro>) returns (all: seq<Micro>)
    requires CanAll(Cpu(S3(), 2, Steady), ms)
    ensures CanAll(Cpu(Boot(), 0, Steady), all) && GoAll(Cpu(Boot(), 0, Steady), all) == GoAll(Cpu(S3(), 2, Steady), ms)
  {
    Step1();
    FirstChoice();
    Step3();
    all := ms;
    ThenMicro(Cpu(S2(), 2, Steady), Do(Spawn(true)), Cpu(S3(), 2, Steady), all);
    all := [Do(Spawn(true))] + all;
    ThenMicro(Cpu(S2(), 0, Stored), Jump, Cpu(S2(), 2, Steady), all);
    all := [Jump] + all;
    ThenMicro(C1(), Store, Cpu(S2(), 0, Stored), all);
    all := [Store] + all;
    ThenMicro(Cpu(S1(), 0, Steady), Choose, C1(), all);
    all := [Choose] + all;
    ThenMicro(Cpu(Boot(), 0, Steady), Do(Spawn(true)), Cpu(S1(), 0, Steady), all);
    all := [Do(Spawn(true))] + all;
  }

  /** From boot: process 2 starts 3 and yields; a tick between the two halves of its switch leaves 3 with an
      address in 2's code. */
  lemma {:induction false} StrayReached(rip: nat) returns (ms: seq<Micro>)
    requires rip >= KERNEL_BASE
    ensures var c := Cpu(Boot(), 0, Steady);
      CanAll(c, ms) && var c' := GoAll(c, ms);
      c'.executing == 2 && Stray(c', rip) && Saved(Next(c'.s, Tick(rip)), 3) == Some(rip)
  {
    SecondChoice();
    var c2 := Go(C3(), Store);
    ms := [];
    ThenMicro(C3(), Store, c2, ms);
    ms := [Store] + ms;
    ThenMicro(Cpu(S3(), 2, Steady), Choose, C3(), ms);
    ms := [Choose] + ms;
    ms := ReachThree(ms);
    assert Find(c2.s.es, 3, 2) == 2;
    assert Cur(c2.s) == 2;
    TickStray(c2, rip);
  }
}

/** Progress, fairness, wake-ups and preemption of the scheduler. */
module SchedulerProgress {
  import opened Options
  import opened Processes
  import opened Scheduler
  import opened SchedulerInvariant

  // ---------------------------------------------------------------- who runs next

  /** Another process that is not idle is ready. */
  ghost predicate Rival(s: State) {
    exists i :: 0 <= i < |s.es| && i != Cur(s) && Runnable(s.es[i])
  }

  /** schedule_internal stays put exactly when no other process is ready and the current one is the idle
      task or has been woken before it could leave. */
  lemma {:induction false} StaysExactlyWhen(s: State)
    requires Inv(s) && Cur(s) < |s.es|
    ensures Choice(s).None? <==> !Rival(s) && (s.es[Cur(s)].idle || s.es[Cur(s)].status.Ready?)
  {
    var c, r := Cur(s), NextReady(s.es, CurIndex(s));
    var k := NextReadyFinds(s.es, CurIndex(s));
    assert Fine(s.es[c], s.nextPid, s.current) && Fine(s.es[0], s.nextPid, s.current);
    assert Spare(s.es[0]);
    if k < |s.es| {
      var from := After(CurIndex(s), |s.es|);
      if r.value == c {
        NoneBefore(s, from, k, c);
      } else {
        assert Rival(s);
      }
    } else {
      assert r == Some(0);
    }
  }

  /** If the scan went all the way round to the current entry, nothing else was runnable. */
  lemma {:induction false} NoneBefore(s: State, from: nat, k: nat, c: nat)
    requires c == Cur(s) < |s.es| && from == After(Some(c), |s.es|) && k < |s.es| && Wrap(from + k, |s.es|) == c
    requires forall j :: 0 <= j < k ==> !Runnable(Ahead(s.es, from, j))
    ensures !Rival(s)
  {
    forall i | 0 <= i < |s.es| && i != c ensures !Runnable(s.es[i]) {
      var d := Distance(from, i, |s.es|);
      assert s.es[i] == Ahead(s.es, from, d);
    }
  }

  /** A process that has blocked or exited gives up the CPU at its next turn, and the idle task gets it
      only when nobody else is ready. */
  lemma {:induction false} Progress(s: State)
    requires Inv(s) && Enabled(s, Reschedule) && Cur(s) < |s.es|
    requires s.es[Cur(s)].status.Blocked? || s.es[Cur(s)].status.Zombie?
    ensures var s' := Switch(s);
      && s'.current != s.current && Cur(s') < |s'.es| && s'.es[Cur(s')].status.Running?
      && (s'.es[Cur(s')].idle <==> !Rival(s))
  {
    var s', c := Switch(s), Cur(s);
    assert Fine(s.es[c], s.nextPid, s.current);
    StaysExactlyWhen(s);
    ChoiceReady(s);
    var n := Choice(s).value;
    SwitchInv(s);
    SwitchEntry(s, n, n);
    FindHere(s'.es, s'.current, n);
    assert s.es[n].pid != s.es[c].pid;
    IdleLast(s, n);
  }

  lemma {:induction false} IdleLast(s: State, n: nat)
    requires Inv(s) && Choice(s) == Some(n) && n < |s.es| && n != Cur(s)
    ensures s.es[n].idle <==> !Rival(s)
  {
    var k := NextReadyFinds(s.es, CurIndex(s));
  }

  // ---------------------------------------------------------------- bounded waiting

  /** Switches between a state and the turn of entry t. */
  function Gap(s: State, t: nat): nat
    requires s.es != [] && t < |s.es|
  {
    Distance(After(CurIndex(s), |s.es|), t, |s.es|)
  }

  /** A step that is not a spawn and does not take a child out of the table. */
  predicate SameMembers(s: State, op: Op)
    requires Enabled(s, op)
  {
    |Next(s, op).es| == |s.es| && !op.Spawn?
  }

  predicate Switched(s: State, op: Op) { op.Reschedule? && Choice(s).Some? }

  /** Entry t waits its turn. */
  predicate Queued(s: State, t: nat) {
    t < |s.es| && t != Cur(s) && Runnable(s.es[t])
  }

  /** The scan does not go past a queued entry. */
  lemma {:induction false} ChoiceWithin(s: State, t: nat) returns (k: nat)
    requires Inv(s) && Choice(s).Some? && Queued(s, t)
    ensures After(CurIndex(s), |s.es|) < |s.es| && k <= Gap(s, t)
    ensures Choice(s) == Some(Wrap(After(CurIndex(s), |s.es|) + k, |s.es|))
  {
    k := NextReadyFinds(s.es, CurIndex(s));
    assert s.es[t] == Ahead(s.es, After(CurIndex(s), |s.es|), Gap(s, t));
  }

  /** Where a switch leaves the queue. */
  lemma {:induction false} SwitchQueue(s: State, t: nat)
    requires Inv(s) && Enabled(s, Reschedule) && Choice(s).Some? && Queued(s, t)
    ensures var s' := Switch(s); |s'.es| == |s.es| && CurIndex(s') == Choice(s) && (Cur(s') == t || Queued(s', t))
  {
    ChoiceReady(s);
    var next, s' := Choice(s).value, Switch(s);
    SwitchInv(s);
    SwitchEntry(s, next, t);
    SwitchEntry(s, next, next);
    FindHere(s'.es, s'.current, next);
  }

  /** A switch that does not pick t brings its turn strictly closer. */
  lemma {:induction false} SwitchCloser(s: State, t: nat)
    requires Inv(s) && Enabled(s, Reschedule) && Choice(s).Some? && Queued(s, t)
    ensures var s' := Switch(s); |s'.es| == |s.es| && (Cur(s') == t || (Queued(s', t) && Gap(s', t) < Gap(s, t)))
  {
    var k := ChoiceWithin(s, t);
    SwitchQueue(s, t);
    GapShrinks(After(CurIndex(s), |s.es|), k, t, |s.es|);
  }

  lemma GapShrinks(from: nat, k: nat, t: nat, n: nat)
    requires from < n && t < n && k <= Distance(from, t, n)
    ensures var next := Wrap(from + k, n); next == t || Distance(Wrap(next + 1, n), t, n) < Distance(from, t, n)
  {
  }

  /** Any other step leaves t and the current process where they are. */
  lemma {:induction false} OtherStepKeeps(s: State, op: Op, i: nat, t: nat)
    requires Inv(s) && Enabled(s, op) && SameMembers(s, op) && !Switched(s, op) && Queued(s, t) && i < |s.es|
    ensures var s' := Next(s, op); s'.current == s.current && s'.es[i].pid == s.es[i].pid && s'.es[t] == s.es[t]
  {
    assert Fine(s.es[t], s.nextPid, s.current);
  }

  lemma {:induction false} OtherStepQueued(s: State, op: Op, t: nat)
    requires Inv(s) && Enabled(s, op) && SameMembers(s, op) && !Switched(s, op) && Queued(s, t)
    ensures var s' := Next(s, op); Queued(s', t) && Cur(s') == Cur(s) && |s'.es| == |s.es|
  {
    var s' := Next(s, op);
    forall i | 0 <= i < |s.es| ensures s'.es[i].pid == s.es[i].pid {
      OtherStepKeeps(s, op, i, t);
    }
    OtherStepKeeps(s, op, t, t);
    SameFind(s.es, s'.es, s.current, 0);
  }

  /** No step of the run adds or removes a process. */
  predicate FixedMembers(s: State, ops: seq<Op>)
    requires Possible(s, ops)
    decreases |ops|
  {
    ops == [] || (SameMembers(s, ops[0]) && FixedMembers(Next(s, ops[0]), ops[1..]))
  }

  /** In some state of the run entry t is the current process. */
  predicate Served(s: State, ops: seq<Op>, t: nat)
    requires Possible(s, ops)
    decreases |ops|
  {
    Cur(s) == t || (ops != [] && Served(Next(s, ops[0]), ops[1..], t))
  }

  function Switches(s: State, ops: seq<Op>): nat
    requires Possible(s, ops)
    decreases |ops|
  {
    if ops == [] then 0 else (if Switched(s, ops[0]) then 1 else 0) + Switches(Next(s, ops[0]), ops[1..])
  }

  /** Bounded waiting: while the table keeps its members, a ready process at distance d runs before there have
      been more than d switches, whatever the others do. */
  lemma {:induction false} BoundedWaiting(s: State, ops: seq<Op>, t: nat)
    requires Inv(s) && Possible(s, ops) && FixedMembers(s, ops) && Queued(s, t)
    ensures Gap(s, t) < |s.es|
    ensures Switches(s, ops) > Gap(s, t) ==> Served(s, ops, t)
    decreases |ops|
  {
    if ops == [] {
    } else {
      var s' := Next(s, ops[0]);
      StepInv(s, ops[0]);
      if Switched(s, ops[0]) {
        SwitchCloser(s, t);
      } else {
        OtherStepQueued(s, ops[0], t);
      }
      if Cur(s') != t {
        BoundedWaiting(s', ops[1..], t);
      } else {
        ServedNow(s', ops[1..], t);
      }
    }
  }

  lemma ServedNow(s: State, ops: seq<Op>, t: nat)
    requires Possible(s, ops) && Cur(s) == t
    ensures Served(s, ops, t)
  {
  }

  // ---------------------------------------------------------------- woken too soon

  /** The current process was woken before it could leave, nobody else is ready, and the keyboard has nobody
      else to wake. */
  ghost predicate Spinning(s: State) {
    && Cur(s) < |s.es| && s.es[Cur(s)].status.Ready? && InReschedule(s.es[Cur(s)].at) && !Rival(s)
    && forall i :: 0 <= i < |s.es| ==> s.es[i].channel != Some(KeyboardInput)
  }

  /** Calling schedule_internal until it switches. */
  predicate InReschedule(at: Control) { at.Blocking? || at.Waiting? }

  /** A process that calls schedule_internal until it switches does so for ever, and nothing else can happen,
      exactly when it is spinning. */
  lemma {:induction false} SpinsExactly(s: State)
    requires Inv(s) && Cur(s) < |s.es| && InReschedule(s.es[Cur(s)].at)
    ensures (forall op :: Enabled(s, op) ==> Next(s, op) == s) <==> Spinning(s)
  {
    var c := Cur(s);
    assert Fine(s.es[c], s.nextPid, s.current);
    StaysExactlyWhen(s);
    if Spinning(s) {
      forall op | Enabled(s, op) ensures Next(s, op) == s {
        SpinsStep(s, op);
      }
    } else if Choice(s).Some? {
      SwitchMoves(s);
      assert Enabled(s, Reschedule) && Next(s, Reschedule) != s;
    } else {
      var i :| 0 <= i < |s.es| && s.es[i].channel == Some(KeyboardInput);
      assert Fine(s.es[i], s.nextPid, s.current);
      assert Enabled(s, WakeKeyboard) && Next(s, WakeKeyboard).es[i] != s.es[i];
    }
  }

  lemma {:induction false} SwitchMoves(s: State)
    requires Inv(s) && Cur(s) < |s.es| && Choice(s).Some?
    ensures Switch(s) != s
  {
    ChoiceReady(s);
    var n := Choice(s).value;
    assert s.es[n].pid != s.es[Cur(s)].pid;
  }

  lemma {:induction false} SpinsStep(s: State, op: Op)
    requires Inv(s) && Spinning(s) && Enabled(s, op)
    ensures Next(s, op) == s
  {
    if op.WakeKeyboard? {
      assert Wake(s.es, KeyboardInput) == s.es;
    } else if op.Reschedule? {
      assert Fine(s.es[Cur(s)], s.nextPid, s.current);
      StaysExactlyWhen(s);
    } else {
      assert op.Tick?;
      assert s.es[Cur(s) := s.es[Cur(s)]] == s.es;
    }
  }

  /** So the machine stays in that state in every continuation: the process never gets out of the kernel,
      although it is ready. */
  lemma {:induction false} SpinsForever(s: State, ops: seq<Op>)
    requires Inv(s) && Spinning(s) && Possible(s, ops)
    ensures Run(s, ops) == s
    decreases |ops|
  {
    if ops == [] {
    } else {
      SpinsStep(s, ops[0]);
      SpinsForever(s, ops[1..]);
    }
  }

  // ---------------------------------------------------------------- wake-ups

  /** No lost wake-up on ChildAny, in any reachable state: a sleeper has no zombie child, except one that
      is between the two steps of its exit. */
  lemma {:induction false} ChildAnyHeard(ops: seq<Op>, i: nat, j: nat)
    requires Possible(Boot(), ops)
    requires var s := Run(Boot(), ops); i < |s.es| && j < |s.es|
    ensures var s := Run(Boot(), ops); var p, z := s.es[i], s.es[j];
      p.status.Blocked? && p.channel == Some(ChildAny) && z.status.Zombie? && z.parent == Some(p.pid) ==>
      z.pid == s.current && z.at == Exiting(false)
  {
    BootInv();
    RunInv(Boot(), ops);
    var s := Run(Boot(), ops);
    assert Heard(s.es[i], s.es[j]) && Fine(s.es[j], s.nextPid, s.current);
  }

  /** A process that sleeps on Child(c) wakes at an exit exactly when the exiting process is a child
      of c: exit posts its parent's pid, and that is what the channel is compared with. */
  lemma {:induction false} TargetedWake(s: State, i: nat, c: nat)
    requires Inv(s) && Enabled(s, Post) && i < |s.es| && s.es[i].channel == Some(Child(c))
    ensures Next(s, Post).es[i].status.Ready? <==> s.es[Cur(s)].parent == Some(c)
  {
    assert Fine(s.es[i], s.nextPid, s.current) && Fine(s.es[Cur(s)], s.nextPid, s.current);
  }

  /** So the child that is waited for never wakes its parent. */
  lemma {:induction false} OwnChildSilent(s: State, i: nat)
    requires Inv(s) && Enabled(s, Post) && i < |s.es|
    requires s.es[i].channel == Some(Child(s.current)) && s.es[Cur(s)].parent == Some(s.es[i].pid)
    ensures Next(s, Post).es[i] == s.es[i]
  {
    assert Fine(s.es[i], s.nextPid, s.current) && Fine(s.es[Cur(s)], s.nextPid, s.current);
  }

  /** Entry i sleeps on child c, which has exited, and every child of c has exited and posted. */
  ghost predicate Stranded(s: State, i: nat, c: nat) {
    && i < |s.es| && s.es[i].channel == Some(Child(c)) && c < s.nextPid
    && forall k :: 0 <= k < |s.es| ==> Spent(s.es[k], c)
  }

  predicate Spent(p: Process, c: nat) {
    (p.pid == c ==> p.status.Zombie?) && (p.parent == Some(c) ==> p.at == Exiting(true))
  }

  lemma {:induction false} StrandedOwn(s: State, i: nat, c: nat, p: Process)
    requires Inv(s) && Stranded(s, i, c) && Cur(s) < |s.es| && i != Cur(s) && p.pid == s.es[Cur(s)].pid
    requires p.parent == s.es[Cur(s)].parent && (p.at == s.es[Cur(s)].at || s.es[Cur(s)].at != Exiting(true))
    requires p.status.Zombie? || !s.es[Cur(s)].status.Zombie?
    ensures Stranded(Own(s, p), i, c)
  {
    forall k | 0 <= k < |s.es| ensures Spent(Own(s, p).es[k], c) {
      assert Spent(s.es[k], c) && Fine(s.es[k], s.nextPid, s.current);
    }
  }

  lemma {:induction false} StrandedWait(s: State, t: Target, i: nat, c: nat) returns (j: nat)
    requires Inv(s) && Stranded(s, i, c) && Enabled(s, Wait(t)) && i != Cur(s)
    ensures var s' := Next(s, Wait(t)); Stranded(s', j, c) && s'.es[j].pid == s.es[i].pid
  {
    var z, s' := FindZombie(s.es, s.current, t, 0), Next(s, Wait(t));
    var es1 := s.es[Cur(s) := s.es[Cur(s)].(at := Free)];
    assert Fine(s.es[i], s.nextPid, s.current) && Fine(s.es[Cur(s)], s.nextPid, s.current);
    assert Spent(s.es[Cur(s)], c);
    j := i;
    if |s'.es| < |s.es| {
      assert Fine(s.es[z], s.nextPid, s.current);
      j := if i == |s.es| - 1 then z else i;
      RemoveAt(es1, z, j);
      forall k | 0 <= k < |s'.es| ensures Spent(s'.es[k], c) {
        RemoveAt(es1, z, k);
        assert Spent(s.es[Was(k, z, |s.es| - 1)], c);
      }
    } else {
      forall k | 0 <= k < |s'.es| ensures Spent(s'.es[k], c) {
        assert Spent(s.es[k], c);
      }
    }
  }

  lemma {:induction false} StrandedSwitch(s: State, i: nat, c: nat)
    requires Inv(s) && Stranded(s, i, c) && Enabled(s, Reschedule)
    ensures Stranded(Switch(s), i, c) && Switch(s).es[i].pid == s.es[i].pid
  {
    ChoiceReady(s);
    if Choice(s).Some? {
      SwitchEntry(s, Choice(s).value, i);
      forall k | 0 <= k < |s.es| ensures Spent(Switch(s).es[k], c) {
        SwitchEntry(s, Choice(s).value, k);
        assert Spent(s.es[k], c) && Fine(s.es[k], s.nextPid, s.current);
      }
    }
  }

  lemma {:induction false} StrandedWake(s: State, i: nat, c: nat, event: Channel)
    requires Inv(s) && Stranded(s, i, c) && event != Child(c)
    ensures Stranded(s.(es := Wake(s.es, event)), i, c)
  {
    var es' := Wake(s.es, event);
    forall k | 0 <= k < |es'| ensures Spent(es'[k], c) {
      assert Spent(s.es[k], c);
    }
  }

  lemma {:induction false} StrandedSpawn(s: State, stored: bool, i: nat, c: nat)
    requires Inv(s) && Stranded(s, i, c) && Enabled(s, Spawn(stored))
    ensures Stranded(SpawnStep(s, stored), i, c)
  {
    var s' := SpawnStep(s, stored);
    assert s.current != 0 ==> Spent(s.es[Cur(s)], c) && Fine(s.es[Cur(s)], s.nextPid, s.current);
    forall k | 0 <= k < |s'.es| ensures Spent(s'.es[k], c) {
      assert k < |s.es| ==> Spent(s.es[k], c);
    }
  }

  lemma {:induction false} StrandedPost(s: State, i: nat, c: nat)
    requires Inv(s) && Stranded(s, i, c) && Enabled(s, Post)
    ensures Stranded(Next(s, Post), i, c)
  {
    var q := s.es[Cur(s)];
    var event := Child(ParentOf(q));
    assert Spent(q, c) && Fine(q, s.nextPid, s.current) && Fine(s.es[i], s.nextPid, s.current);
    StrandedWake(s, i, c, event);
    var es1, es' := Wake(s.es, event), Next(s, Post).es;
    forall k | 0 <= k < |es'| ensures Spent(es'[k], c) {
      assert Spent(es1[k], c) && Spent(s.es[k], c);
    }
  }

  lemma {:induction false} StrandedStep(s: State, op: Op, i: nat, c: nat) returns (j: nat)
    requires Inv(s) && Enabled(s, op) && Stranded(s, i, c)
    ensures var s' := Next(s, op); Stranded(s', j, c) && s'.es[j].pid == s.es[i].pid
  {
    j := i;
    var n := Cur(s);
    assert Fine(s.es[i], s.nextPid, s.current);
    assert n < |s.es| ==> Fine(s.es[n], s.nextPid, s.current) && Spent(s.es[n], c);
    match op
    case Spawn(stored) => StrandedSpawn(s, stored, i, c);
    case Reschedule => StrandedSwitch(s, i, c);
    case Block => StrandedOwn(s, i, c, s.es[n].(status := Blocked, channel := Some(KeyboardInput), saved := None,
      at := Blocking));
    case WakeKeyboard => StrandedWake(s, i, c, KeyboardInput);
    case Exit(code) => StrandedOwn(s, i, c, ExitOne(s.es[n], code));
    case Post => StrandedPost(s, i, c);
    case Wait(t) => j := StrandedWait(s, t, i, c);
    case Tick(rip) =>
      if n < |s.es| && rip >= KERNEL_BASE && TickOne(s.es[n], rip) != s.es[n] {
        StrandedOwn(s, i, c, TickOne(s.es[n], rip));
      }
    case Take => StrandedOwn(s, i, c, s.es[n].(saved := None, at := s.es[n].at.back));
  }

  /** A wake-up lost this way is lost for good: the process sleeps on in every continuation. */
  lemma {:induction false} StrandedForever(s: State, ops: seq<Op>, i: nat, c: nat) returns (j: nat)
    requires Inv(s) && Possible(s, ops) && Stranded(s, i, c)
    ensures var s' := Run(s, ops); Stranded(s', j, c) && s'.es[j].pid == s.es[i].pid
    decreases |ops|
  {
    j := i;
    if ops == [] {
    } else {
      var j1 := StrandedStep(s, ops[0], i, c);
      StepInv(s, ops[0]);
      j := StrandedForever(Next(s, ops[0]), ops[1..], j1, c);
    }
  }

  // ---------------------------------------------------------------- preemption

  /** The address saved for a process, if any. */
  function Saved(s: State, pid: nat): Option<nat> {
    var i := Find(s.es, pid, 0);
    if i < |s.es| then s.es[i].saved else None
  }

  lemma SavedHere(s: State, pid: nat, i: nat)
    requires Inv(s) && i < |s.es| && s.es[i].pid == pid
    ensures Saved(s, pid) == s.es[i].saved
  {
    FindHere(s.es, pid, i);
  }

  /** The timer saves the address it interrupted, and never over one that is pending. */
  lemma {:induction false} TickSaves(s: State, rip: nat)
    requires Inv(s) && Cur(s) < |s.es| && rip >= KERNEL_BASE
    ensures var p := s.es[Cur(s)];
      Saved(Next(s, Tick(rip)), s.current) == if p.saved.Some? || p.idle || !p.status.Running? then p.saved
        else Some(rip)
  {
    var s' := Next(s, Tick(rip));
    TickInv(s, rip);
    SavedHere(s', s.current, Cur(s));
  }

  /** Where the record of a process that is not being reaped ends up, and that it keeps its address. */
  lemma {:induction false} SavedStep(s: State, op: Op, i: nat) returns (j: nat)
    requires Inv(s) && Enabled(s, op) && i < |s.es| && s.es[i].saved.Some? && !(op.Take? && i == Cur(s))
    ensures var s' := Next(s, op); j < |s'.es| && s'.es[j].pid == s.es[i].pid && s'.es[j].saved == s.es[i].saved
  {
    var s' := Next(s, op);
    j := i;
    assert Fine(s.es[i], s.nextPid, s.current);
    if op.Reschedule? {
      ChoiceReady(s);
      if Choice(s).Some? {
        SwitchEntry(s, Choice(s).value, i);
      }
    } else if op.Wait? {
      j := SavedWait(s, op.target, i);
    }
  }

  lemma {:induction false} SavedWait(s: State, t: Target, i: nat) returns (j: nat)
    requires Inv(s) && Enabled(s, Wait(t)) && i < |s.es| && s.es[i].saved.Some?
    ensures var s' := Next(s, Wait(t)); j < |s'.es| && s'.es[j].pid == s.es[i].pid && s'.es[j].saved == s.es[i].saved
  {
    var c, z := Cur(s), FindZombie(s.es, s.current, t, 0);
    var es1 := s.es[c := s.es[c].(at := Free)];
    assert Fine(s.es[i], s.nextPid, s.current) && Fine(s.es[c], s.nextPid, s.current);
    j := i;
    if |Next(s, Wait(t)).es| < |s.es| {
      assert Fine(s.es[z], s.nextPid, s.current);
      j := if i == |s.es| - 1 then z else i;
      RemoveAt(es1, z, j);
    }
  }

  /** No step of the run is this process taking its saved address. */
  predicate Untaken(s: State, ops: seq<Op>, pid: nat)
    requires Possible(s, ops)
    decreases |ops|
  {
    ops == [] || (!(ops[0].Take? && s.current == pid) && Untaken(Next(s, ops[0]), ops[1..], pid))
  }

  /** Preemption round trip: under any interleaving, the address the timer saved is the address that
      preempt_do_switch returns to. */
  lemma {:induction false} PreemptRoundTrip(s: State, ops: seq<Op>, pid: nat, rip: nat, contextRip: nat)
    requires Inv(s) && Possible(s, ops) && Saved(s, pid) == Some(rip) && Untaken(s, ops, pid)
    ensures var s' := Run(s, ops);
      Saved(s', pid) == Some(rip) && (s'.current == pid && Enabled(s', Take) ==> Resumes(s', contextRip) == rip)
    decreases |ops|
  {
    if ops == [] {
    } else {
      var s1 := Next(s, ops[0]);
      var j := SavedStep(s, ops[0], Find(s.es, pid, 0));
      StepInv(s, ops[0]);
      SavedHere(s1, pid, j);
      PreemptRoundTrip(s1, ops[1..], pid, rip, contextRip);
    }
  }
}

/** What every step does to every process, said without the step functions, and where exit codes come from. */
module ProcessFates {
  import opened Options
  import opened Processes
  import opened Scheduler
  import opened SchedulerInvariant

  /** The fields of a record that steps change. */
  datatype Facts = Facts(status: Status, channel: Option<Channel>, code: Option<int>, saved: Option<nat>)

  function FactsOf(p: Process): Facts { Facts(p.status, p.channel, p.code, p.saved) }

  /** Some process is a child of the current one, and the one asked for if one is. */
  predicate HasChild(s: State, t: Target) {
    exists i :: 0 <= i < |s.es| && s.es[i].parent == Some(s.current) && (t.OneChild? ==> s.es[i].pid == t.pid)
  }

  predicate HasZombie(s: State, t: Target) {
    exists i :: 0 <= i < |s.es| && s.es[i].status.Zombie? && s.es[i].parent == Some(s.current)
      && (t.OneChild? ==> s.es[i].pid == t.pid)
  }

  /** p sleeps on any child, or on the child with the pid that the exiting process has as its parent. */
  predicate HearsExit(s: State, p: Process) {
    p.channel == Some(ChildAny)
    || (p.channel.Some? && p.channel.value.Child? && Cur(s) < |s.es|
        && s.es[Cur(s)].parent == Some(p.channel.value.pid))
  }

  /** What becomes of process p in a step. */
  function Fate(s: State, op: Op, p: Process): Facts
    requires Enabled(s, op)
  {
    var mine, same := p.pid == s.current, FactsOf(p);
    match op
    case Spawn(_) => same
    case Reschedule =>
      var current' := Next(s, op).current;
      if current' == s.current then same
      else if mine && p.status.Running? then same.(status := Ready)
      else if p.pid == current' then same.(status := Running)
      else same
    case Block => if mine then Facts(Blocked, Some(KeyboardInput), p.code, None) else same
    case WakeKeyboard => if p.channel == Some(KeyboardInput) then Facts(Ready, None, p.code, None) else same
    case Exit(code) => if mine then Facts(Zombie, None, Some(code), None) else same
    case Post => if HearsExit(s, p) then Facts(Ready, None, p.code, None) else same
    case Wait(t) =>
      if !mine || !HasChild(s, t) || HasZombie(s, t) then same
      else Facts(Blocked, Some(if t.AnyChild? then ChildAny else Child(t.pid)), p.code, None)
    case Tick(rip) =>
      if mine && p.status.Running? && !p.idle && p.saved.None? && rip >= 0xFFFF_8000_0000_0000
      then same.(saved := Some(rip)) else same
    case Take => if mine then same.(saved := None) else same
  }

  /** Entry j of the new table is the process that p was. */
  predicate Becomes(s: State, op: Op, p: Process, q: Process)
    requires Enabled(s, op)
  {
    q.pid == p.pid && q.parent == p.parent && q.idle == p.idle && FactsOf(q) == Fate(s, op, p)
  }

  /** Process p is handed over to the current one and leaves the table. */
  predicate TakenOut(s: State, op: Op, p: Process, s': State) {
    && op.Wait? && p.status.Zombie? && p.parent == Some(s.current) && (op.target.OneChild? ==> p.pid == op.target.pid)
    && s'.log == s.log + [Reaped(s.current, p)]
  }

  lemma {:induction false} FateSwitch(s: State, i: nat)
    requires Inv(s) && Enabled(s, Reschedule) && i < |s.es|
    ensures |Switch(s).es| == |s.es| && Becomes(s, Reschedule, s.es[i], Switch(s).es[i])
  {
    ChoiceReady(s);
    assert Fine(s.es[i], s.nextPid, s.current);
    if Choice(s).Some? {
      var n := Choice(s).value;
      SwitchEntry(s, n, i);
      assert i != n ==> s.es[i].pid != s.es[n].pid;
      if s.es[i].pid == s.current {
        FindHere(s.es, s.current, i);
      }
      assert Fine(s.es[n], s.nextPid, s.current);
      if s.es[n].pid == s.current {
        FindHere(s.es, s.current, n);
      }
    }
  }

  lemma {:induction false} WaitSees(s: State, t: Target)
    ensures FindChild(s.es, s.current, t, 0) < |s.es| <==> HasChild(s, t)
    ensures FindZombie(s.es, s.current, t, 0) < |s.es| <==> HasZombie(s, t)
  {
    var f, z := FindChild(s.es, s.current, t, 0), FindZombie(s.es, s.current, t, 0);
    if HasChild(s, t) {
      var i :| 0 <= i < |s.es| && s.es[i].parent == Some(s.current) && (t.OneChild? ==> s.es[i].pid == t.pid);
      assert IsChild(s.es[i], s.current, t);
    }
    if HasZombie(s, t) {
      var i :| 0 <= i < |s.es| && s.es[i].status.Zombie? && s.es[i].parent == Some(s.current)
        && (t.OneChild? ==> s.es[i].pid == t.pid);
      assert IsZombieChild(s.es[i], s.current, t);
    }
    assert f < |s.es| ==> IsChild(s.es[f], s.current, t);
    assert z < |s.es| ==> IsZombieChild(s.es[z], s.current, t);
  }

  lemma {:induction false} FateReap(s: State, t: Target, i: nat) returns (j: nat)
    requires Enabled(s, Wait(t)) && i < |s.es| && HasChild(s, t) && HasZombie(s, t)
    ensures var s' := Next(s, Wait(t));
      (j < |s'.es| && Becomes(s, Wait(t), s.es[i], s'.es[j])) || TakenOut(s, Wait(t), s.es[i], s')
  {
    WaitSees(s, t);
    j := i;
    var z := FindZombie(s.es, s.current, t, 0);
    if i != z {
      j := if i == |s.es| - 1 then z else i;
      RemoveAt(s.es[Cur(s) := s.es[Cur(s)].(at := Free)], z, j);
    }
  }

  lemma {:induction false} FateWait(s: State, t: Target, i: nat) returns (j: nat)
    requires Inv(s) && Enabled(s, Wait(t)) && i < |s.es|
    ensures var s' := Next(s, Wait(t));
      (j < |s'.es| && Becomes(s, Wait(t), s.es[i], s'.es[j])) || TakenOut(s, Wait(t), s.es[i], s')
  {
    WaitSees(s, t);
    j := i;
    if HasChild(s, t) && HasZombie(s, t) {
      j := FateReap(s, t, i);
    } else if s.es[i].pid == s.current {
      assert Fine(s.es[i], s.nextPid, s.current);
      FindHere(s.es, s.current, i);
    }
  }

  lemma {:induction false} FateOwn(s: State, op: Op, i: nat)
    requires Inv(s) && Enabled(s, op) && i < |s.es| && !op.Reschedule? && !op.Wait? && !op.Post? && !op.WakeKeyboard?
    ensures i < |Next(s, op).es| && Becomes(s, op, s.es[i], Next(s, op).es[i])
  {
    if s.es[i].pid == s.current {
      assert Fine(s.es[i], s.nextPid, s.current);
      FindHere(s.es, s.current, i);
    }
  }

  lemma {:induction false} FateWoken(s: State, op: Op, i: nat)
    requires Inv(s) && Enabled(s, op) && i < |s.es| && (op.Post? || op.WakeKeyboard?)
    ensures i < |Next(s, op).es| && Becomes(s, op, s.es[i], Next(s, op).es[i])
  {
    assert Fine(s.es[i], s.nextPid, s.current);
    if op.Post? {
      assert Fine(s.es[Cur(s)], s.nextPid, s.current);
    }
  }

  /** The fate of every process in every step: it is as the table above says, or the process is a zombie that
      its waiting parent takes out. */
  lemma {:induction false} FateHolds(s: State, op: Op, i: nat) returns (j: nat)
    requires Inv(s) && Enabled(s, op) && i < |s.es|
    ensures var s' := Next(s, op);
      (j < |s'.es| && Becomes(s, op, s.es[i], s'.es[j])) || TakenOut(s, op, s.es[i], s')
  {
    j := i;
    if op.Reschedule? {
      FateSwitch(s, i);
    } else if op.Wait? {
      j := FateWait(s, op.target, i);
    } else if op.Post? || op.WakeKeyboard? {
      FateWoken(s, op, i);
    } else {
      FateOwn(s, op, i);
    }
  }

  /** A new process: its pid is the next one, its parent is the process that spawned it, it is ready, and it is
      the only one that a step adds; pids below 2^32 - 1 are given out one after the other, and used up whether
      or not the record can be stored. */
  lemma {:induction false} SpawnMeans(s: State, stored: bool)
    requires Enabled(s, Spawn(stored))
    ensures var s' := Next(s, Spawn(stored));
      && s'.current == s.current && s'.exited == s.exited && s'.log == s.log
      && (s.nextPid >= 0xFFFF_FFFF ==> s' == s)
      && (s.nextPid < 0xFFFF_FFFF ==> s'.nextPid == s.nextPid + 1)
      && (s.nextPid < 0xFFFF_FFFF && !stored ==> s'.es == s.es)
      && (s.nextPid < 0xFFFF_FFFF && stored ==>
          && |s'.es| == |s.es| + 1 && s'.es[..|s.es|] == s.es
          && var p := s'.es[|s.es|];
          && p.pid == s.nextPid && p.parent == (if s.current == 0 then None else Some(s.current)) && !p.idle
          && FactsOf(p) == Facts(Ready, None, None, None))
  {
  }

  /** Nothing but a spawn adds a process, and nothing but a reschedule changes which one runs. */
  lemma {:induction false} NoneAdded(s: State, op: Op, j: nat) returns (i: nat)
    requires Inv(s) && Enabled(s, op) && !op.Spawn? && j < |Next(s, op).es|
    ensures i < |s.es| && s.es[i].pid == Next(s, op).es[j].pid
    ensures !op.Reschedule? ==> Next(s, op).current == s.current
  {
    i := j;
    if op.Reschedule? {
      FateSwitch(s, 0);
      FateSwitch(s, j);
    } else if op.Wait? {
      i := NoneAddedWait(s, op.target, j);
    }
  }

  lemma {:induction false} NoneAddedWait(s: State, t: Target, j: nat) returns (i: nat)
    requires Cur(s) < |s.es| && j < |WaitStep(s, t).es|
    ensures i < |s.es| && s.es[i].pid == WaitStep(s, t).es[j].pid && WaitStep(s, t).current == s.current
  {
    i := j;
    if |WaitStep(s, t).es| < |s.es| {
      var c, z := Cur(s), FindZombie(s.es, s.current, t, 0);
      i := Was(j, z, |s.es| - 1);
      RemoveAt(s.es[c := s.es[c].(at := Free)], z, j);
    }
  }

  // ---------------------------------------------------------------- exit codes

  /** The state before operation i of a run. */
  function At(s: State, ops: seq<Op>, i: nat): State
    requires Possible(s, ops) && i <= |ops|
    decreases i
  {
    if i == 0 then s else At(Next(s, ops[0]), ops[1..], i - 1)
  }

  lemma FirstStep(s: State, ops: seq<Op>) returns (s1: State)
    requires Possible(s, ops) && ops != []
    ensures Enabled(s, ops[0]) && s1 == Next(s, ops[0]) && Possible(s1, ops[1..]) && Run(s, ops) == Run(s1, ops[1..])
  {
    s1 := Next(s, ops[0]);
  }

  lemma AtStep(s: State, ops: seq<Op>, s1: State, i: nat)
    requires Possible(s, ops) && 0 < i <= |ops| && s1 == Next(s, ops[0])
    ensures Possible(s1, ops[1..]) && At(s, ops, i) == At(s1, ops[1..], i - 1)
  {
  }

  lemma {:induction false} AtPossible(s: State, ops: seq<Op>, i: nat)
    requires Inv(s) && Possible(s, ops) && i < |ops|
    ensures Inv(At(s, ops, i)) && Enabled(At(s, ops, i), ops[i])
    decreases i
  {
    if i == 0 {
    } else {
      StepInv(s, ops[0]);
      AtPossible(Next(s, ops[0]), ops[1..], i - 1);
    }
  }

  /** A step records an exit code only when the current process exits with it. */
  lemma {:induction false} ExitStep(s: State, op: Op, pid: nat)
    requires Inv(s) && Enabled(s, op)
    ensures pid in s.exited ==> pid in Next(s, op).exited && Next(s, op).exited[pid] == s.exited[pid]
    ensures pid in Next(s, op).exited && pid !in s.exited ==>
      op.Exit? && s.current == pid && Next(s, op).exited[pid] == op.code
  {
    if pid in s.exited {
      ExitOnce(s, op, pid);
    }
  }

  lemma {:induction false} AtNext(s: State, ops: seq<Op>, j: nat)
    requires Possible(s, ops) && j < |ops|
    ensures Enabled(At(s, ops, j), ops[j]) && At(s, ops, j + 1) == Next(At(s, ops, j), ops[j])
    decreases j
  {
    if j == 0 {
      AtStep(s, ops, Next(s, ops[0]), 1);
    } else {
      AtStep(s, ops, Next(s, ops[0]), j);
      AtStep(s, ops, Next(s, ops[0]), j + 1);
      AtNext(Next(s, ops[0]), ops[1..], j - 1);
    }
  }

  /** At any point of a run from boot, the step to come either leaves a code on record or puts it there. */
  lemma {:induction false} ExitLast(ops: seq<Op>, j: nat, pid: nat, x: State, y: State)
    requires Possible(Boot(), ops) && j < |ops| && x == At(Boot(), ops, j) && y == At(Boot(), ops, j + 1)
    ensures pid in x.exited ==> pid in y.exited && y.exited[pid] == x.exited[pid]
    ensures pid in y.exited && pid !in x.exited ==> ops[j] == Exit(y.exited[pid]) && x.current == pid
  {
    BootInv();
    AtPossible(Boot(), ops, j);
    AtNext(Boot(), ops, j);
    ExitStep(x, ops[j], pid);
  }

  /** A code on record was the argument of an exit of that process, earlier in the run. */
  lemma {:induction false} ExitTraced(ops: seq<Op>, j: nat, pid: nat) returns (i: nat)
    requires Possible(Boot(), ops) && j <= |ops| && pid in At(Boot(), ops, j).exited
    ensures i < j && ops[i] == Exit(At(Boot(), ops, j).exited[pid]) && At(Boot(), ops, i).current == pid
    decreases j
  {
    i := j - 1;
    ExitLast(ops, i, pid, At(Boot(), ops, i), At(Boot(), ops, j));
    if pid in At(Boot(), ops, i).exited {
      i := ExitTraced(ops, i, pid);
    }
  }

  /** A step adds at most one delivery: a zombie child of the current process, which waits for such a child. */
  lemma {:induction false} LogStep(s: State, op: Op)
    requires Enabled(s, op)
    ensures var s' := Next(s, op);
      s'.log == s.log || exists z :: 0 <= z < |s.es| && TakenOut(s, op, s.es[z], s')
  {
    if op.Wait? && Next(s, op).log != s.log {
      var z := FindZombie(s.es, s.current, op.target, 0);
      assert TakenOut(s, op, s.es[z], Next(s, op));
    }
  }

  lemma {:induction false} LogGrows(s: State, ops: seq<Op>)
    requires Possible(s, ops)
    ensures s.log <= Run(s, ops).log
    decreases |ops|
  {
    if ops == [] {
    } else {
      LogStep(s, ops[0]);
      LogGrows(Next(s, ops[0]), ops[1..]);
    }
  }

  /** The step hands over entry z, and r says so. */
  predicate Delivers(s: State, op: Op, z: nat, r: Reaped) {
    && Enabled(s, op) && z < |s.es| && TakenOut(s, op, s.es[z], Next(s, op)) && r == Reaped(s.current, s.es[z])
  }

  lemma {:induction false} LogFirst(s: State, op: Op, s1: State, k: nat) returns (z: nat)
    requires Enabled(s, op) && s1 == Next(s, op) && |s.log| <= k < |s1.log|
    ensures Delivers(s, op, z, s1.log[k])
  {
    LogStep(s, op);
    z :| 0 <= z < |s.es| && TakenOut(s, op, s.es[z], s1);
  }

  /** Each delivery was made by a wait of the run. */
  lemma {:induction false} LogTraced(s: State, ops: seq<Op>, k: nat) returns (j: nat, z: nat)
    requires Inv(s) && Possible(s, ops) && |s.log| <= k < |Run(s, ops).log|
    ensures j < |ops| && Delivers(At(s, ops, j), ops[j], z, Run(s, ops).log[k])
    decreases |ops|
  {
    var s1 := FirstStep(s, ops);
    StepInv(s, ops[0]);
    LogGrows(s1, ops[1..]);
    if k < |s1.log| {
      j := 0;
      z := LogFirst(s, ops[0], s1, k);
    } else {
      var j1, z1 := LogTraced(s1, ops[1..], k);
      j, z := j1 + 1, z1;
      AtStep(s, ops, s1, j);
    }
  }

  /** Where a delivered code comes from: over every run from boot, each child that was handed over exited with
      that very code, by its own call, before its parent's wait took it. */
  lemma {:induction false} CodesTraced(ops: seq<Op>, k: nat) returns (i: nat, j: nat)
    requires Possible(Boot(), ops) && k < |Run(Boot(), ops).log|
    ensures i < j < |ops|
    ensures var r := Run(Boot(), ops).log[k];
      && ops[i].Exit? && At(Boot(), ops, i).current == r.child.pid && r.child.code == Some(ops[i].code)
      && ops[j].Wait? && At(Boot(), ops, j).current == r.parent && r.child.parent == Some(r.parent)
      && (ops[j].target.OneChild? ==> r.child.pid == ops[j].target.pid)
  {
    BootInv();
    var z;
    j, z := LogTraced(Boot(), ops, k);
    AtPossible(Boot(), ops, j);
    var sj := At(Boot(), ops, j);
    assert Recorded(sj.es[z], sj.exited) && Fine(sj.es[z], sj.nextPid, sj.current);
    i := ExitTraced(ops, j, sj.es[z].pid);
  }
}

/** What every step of the scheduler keeps, and what that says about whole runs. */
module SchedulerInvariant {
  import opened Options
  import opened Processes
  import opened Scheduler

  // ---------------------------------------------------------------- the invariant

  /** The saved address is there exactly while a preemption is pending, and is the one it came with. */
  function SavedBy(at: Control): Option<nat> {
    if at.Preempting? || at.Resuming? then Some(at.rip) else None
  }

  /** A channel is waited on from the code that set it. */
  predicate Fits(channel: Channel, at: Control) {
    match channel
    case KeyboardInput => at.Blocking? || at.Free?
    case ChildAny => at == Waiting(AnyChild) || at == Rewait(AnyChild)
    case Child(c) => at == Waiting(OneChild(c)) || at == Rewait(OneChild(c))
  }

  /** A record that makes sense on its own. */
  predicate Good(p: Process, nextPid: nat) {
    && 1 <= p.pid < nextPid && (p.parent.Some? ==> p.parent.value < p.pid)
    && (p.status.Blocked? <==> p.channel.Some?) && (p.status.Blocked? ==> Fits(p.channel.value, p.at))
    && (p.status.Zombie? <==> p.code.Some?) && (p.status.Zombie? <==> p.at.Exiting?)
    && (p.at == Exiting(false) ==> p.parent.Some?)
    && (p.idle ==> p.at.Free? && (p.status.Ready? || p.status.Running?))
    && p.saved == SavedBy(p.at)
    && (p.saved.Some? ==> (p.status.Ready? || p.status.Running?) && (p.at.back.Free? || p.at.back.Rewait?))
  }

  /** Only the current process runs, and only it can be in the middle of a reschedule. */
  predicate Placed(p: Process, current: nat) {
    if p.pid == current then
      && (p.at.Free? || p.at.Rewait? || p.at.Preempting? || p.at.Resuming? ==> p.status.Running?)
      && (p.at.Blocking? || p.at.Waiting? ==> p.status.Blocked? || p.status.Ready?)
    else
      !p.status.Running? && !p.at.Preempting? && !p.at.Blocking? && !p.at.Waiting? && p.at != Exiting(false)
  }

  predicate Fine(p: Process, nextPid: nat, current: nat) { Good(p, nextPid) && Placed(p, current) }

  ghost predicate Distinct(es: seq<Process>) {
    forall i, j :: 0 <= i < j < |es| ==> es[i].pid != es[j].pid
  }

  ghost predicate Table(es: seq<Process>, nextPid: nat, current: nat) {
    && (forall i :: 0 <= i < |es| ==> Fine(es[i], nextPid, current))
    && Distinct(es) && es != [] && (forall i :: 0 <= i < |es| ==> (es[i].idle <==> i == 0))
  }

  /** No process sleeps on ChildAny while it has a zombie child, unless that child has yet to post. */
  predicate Heard(p: Process, z: Process) {
    p.channel == Some(ChildAny) && z.status.Zombie? && z.parent == Some(p.pid) ==> z.at == Exiting(false)
  }

  ghost predicate NoLostWake(es: seq<Process>) {
    forall i, j :: 0 <= i < |es| && 0 <= j < |es| ==> Heard(es[i], es[j])
  }

  /** A process has an exit code on record exactly when it is a zombie with that code. */
  predicate Recorded(p: Process, exited: map<nat, int>) {
    p.code == if p.pid in exited then Some(exited[p.pid]) else None
  }

  /** A reaped child went to its parent with the code it exited with, and is gone. */
  predicate Delivered(r: Reaped, s: State) {
    && r.child.parent == Some(r.parent) && r.child.pid in s.exited && r.child.code == Some(s.exited[r.child.pid])
    && r.child.pid < s.nextPid
  }

  ghost predicate Histories(s: State) {
    && (forall i :: 0 <= i < |s.es| ==> Recorded(s.es[i], s.exited))
    && (forall k :: 0 <= k < |s.log| ==> Delivered(s.log[k], s))
    && (forall k, i :: 0 <= k < |s.log| && 0 <= i < |s.es| ==> s.log[k].child.pid != s.es[i].pid)
    && (forall k, l :: 0 <= k < l < |s.log| ==> s.log[k].child.pid != s.log[l].child.pid)
    && (forall pid :: pid in s.exited ==> pid < s.nextPid)
  }

  ghost predicate Inv(s: State) {
    && Table(s.es, s.nextPid, s.current) && (s.current == 0 || Cur(s) < |s.es|)
    && NoLostWake(s.es) && Histories(s)
  }

  // ---------------------------------------------------------------- single entries

  lemma FindHere(es: seq<Process>, pid: nat, i: nat)
    requires Distinct(es) && i < |es| && es[i].pid == pid
    ensures Find(es, pid, 0) == i
  {
  }

  /** Replacing one record. */
  lemma {:induction false} Replace(es: seq<Process>, nextPid: nat, current: nat, i: nat, p: Process)
    requires Table(es, nextPid, current) && i < |es| && Fine(p, nextPid, current)
    requires p.pid == es[i].pid && p.idle == es[i].idle
    ensures Table(es[i := p], nextPid, current)
  {
    var es' := es[i := p];
    forall j, k | 0 <= j < k < |es'| ensures es'[j].pid != es'[k].pid {
      assert es[j].pid != es[k].pid;
    }
  }

  lemma {:induction false} ReplaceHistories(s: State, i: nat, p: Process)
    requires Histories(s) && i < |s.es| && p.pid == s.es[i].pid && p.code == s.es[i].code
    ensures Histories(s.(es := s.es[i := p]))
  {
    var s' := s.(es := s.es[i := p]);
    forall k, j | 0 <= k < |s.log| && 0 <= j < |s'.es| ensures s.log[k].child.pid != s'.es[j].pid {
      assert s.log[k].child.pid != s.es[j].pid;
    }
  }

  /** A record that is no zombie and does not newly sleep on ChildAny. */
  lemma {:induction false} ReplaceHeard(es: seq<Process>, i: nat, p: Process)
    requires NoLostWake(es) && i < |es| && p.pid == es[i].pid
    requires p.channel == Some(ChildAny) ==> es[i].channel == Some(ChildAny)
    requires p.status.Zombie? ==> p.at == Exiting(false)
    ensures NoLostWake(es[i := p])
  {
    var es' := es[i := p];
    forall j, k | 0 <= j < |es'| && 0 <= k < |es'| ensures Heard(es'[j], es'[k]) {
      assert Heard(es[j], es[k]);
    }
  }

  /** A step of the current process on its own record. */
  lemma {:induction false} OwnStep(s: State, p: Process)
    requires Inv(s) && Cur(s) < |s.es| && Fine(p, s.nextPid, s.current)
    requires var q := s.es[Cur(s)]; p.pid == q.pid && p.idle == q.idle && p.code == q.code
    requires p.channel != Some(ChildAny) && !p.status.Zombie?
    ensures Inv(Own(s, p))
  {
    var c := Cur(s);
    Replace(s.es, s.nextPid, s.current, c, p);
    ReplaceHeard(s.es, c, p);
    ReplaceHistories(s, c, p);
    FindHere(s.es[c := p], s.current, c);
  }

  // ---------------------------------------------------------------- the steps

  lemma {:induction false} BlockInv(s: State)
    requires Inv(s) && Enabled(s, Block)
    ensures Inv(Next(s, Block))
  {
    OwnStep(s, s.es[Cur(s)].(status := Blocked, channel := Some(KeyboardInput), saved := None, at := Blocking));
  }

  lemma {:induction false} TickInv(s: State, rip: nat)
    requires Inv(s)
    ensures Inv(Next(s, Tick(rip)))
  {
    var c := Cur(s);
    if c < |s.es| && rip >= KERNEL_BASE {
      var q := s.es[c];
      if TickOne(q, rip) == q {
        assert s.es[c := q] == s.es;
      } else {
        OwnStep(s, TickOne(q, rip));
      }
    }
  }

  lemma {:induction false} TakeInv(s: State)
    requires Inv(s) && Enabled(s, Take)
    ensures Inv(Next(s, Take))
  {
    OwnStep(s, s.es[Cur(s)].(saved := None, at := s.es[Cur(s)].at.back));
  }

  lemma {:induction false} ExitInv(s: State, code: int)
    requires Inv(s) && Enabled(s, Exit(code))
    ensures Inv(Next(s, Exit(code)))
  {
    var c := Cur(s);
    var p := ExitOne(s.es[c], code);
    var s' := Next(s, Exit(code));
    Replace(s.es, s.nextPid, s.current, c, p);
    FindHere(s'.es, s.current, c);
    ExitHeard(s, c, p);
    ExitHistories(s, c, code);
  }

  lemma {:induction false} ExitHeard(s: State, c: nat, p: Process)
    requires Inv(s) && c < |s.es| && p.pid == s.es[c].pid && p.channel.None? && p.parent == s.es[c].parent
    requires p.parent.Some? ==> p.at == Exiting(false)
    ensures NoLostWake(s.es[c := p])
  {
    var es' := s.es[c := p];
    forall j, k | 0 <= j < |es'| && 0 <= k < |es'| ensures Heard(es'[j], es'[k]) {
      assert Heard(s.es[j], s.es[k]);
    }
  }

  lemma {:induction false} ExitHistories(s: State, c: nat, code: int)
    requires Inv(s) && c == Cur(s) < |s.es| && !s.es[c].status.Zombie?
    ensures Histories(s.(es := s.es[c := ExitOne(s.es[c], code)], exited := s.exited[s.current := code]))
  {
    var s' := s.(es := s.es[c := ExitOne(s.es[c], code)], exited := s.exited[s.current := code]);
    forall i | 0 <= i < |s'.es| ensures Recorded(s'.es[i], s'.exited) {
      assert Recorded(s.es[i], s.exited);
    }
    forall k | 0 <= k < |s.log| ensures Delivered(s.log[k], s') {
      assert Delivered(s.log[k], s);
      assert s.log[k].child.pid != s.es[c].pid;
    }
    forall k, j | 0 <= k < |s.log| && 0 <= j < |s'.es| ensures s.log[k].child.pid != s'.es[j].pid {
      assert s.log[k].child.pid != s.es[j].pid;
    }
  }

  // ---------------------------------------------------------------- wake-ups

  lemma WakeFine(p: Process, event: Channel, nextPid: nat, current: nat)
    requires Fine(p, nextPid, current)
    ensures Fine(WakeOne(p, event), nextPid, current)
  {
  }

  lemma {:induction false} WakeTable(es: seq<Process>, nextPid: nat, current: nat, event: Channel)
    requires Table(es, nextPid, current)
    ensures Table(Wake(es, event), nextPid, current)
  {
    var es' := Wake(es, event);
    forall i | 0 <= i < |es'| ensures Fine(es'[i], nextPid, current) {
      WakeFine(es[i], event, nextPid, current);
    }
  }

  lemma {:induction false} WakeHeard(es: seq<Process>, event: Channel)
    requires NoLostWake(es)
    ensures NoLostWake(Wake(es, event))
  {
    var es' := Wake(es, event);
    forall i, j | 0 <= i < |es'| && 0 <= j < |es'| ensures Heard(es'[i], es'[j]) {
      assert Heard(es[i], es[j]);
    }
  }

  lemma {:induction false} WakeHistories(s: State, event: Channel)
    requires Histories(s)
    ensures Histories(s.(es := Wake(s.es, event)))
  {
    var s' := s.(es := Wake(s.es, event));
    forall i | 0 <= i < |s'.es| ensures Recorded(s'.es[i], s'.exited) {
      assert Recorded(s.es[i], s.exited);
    }
    forall k, j | 0 <= k < |s.log| && 0 <= j < |s'.es| ensures s.log[k].child.pid != s'.es[j].pid {
      assert s.log[k].child.pid != s.es[j].pid;
    }
  }

  lemma {:induction false} WakeInv(s: State, event: Channel)
    requires Inv(s)
    ensures Inv(s.(es := Wake(s.es, event))) && Cur(s.(es := Wake(s.es, event))) == Cur(s)
  {
    var s' := s.(es := Wake(s.es, event));
    WakeTable(s.es, s.nextPid, s.current, event);
    WakeHeard(s.es, event);
    WakeHistories(s, event);
    SameFind(s.es, s'.es, s.current, 0);
  }

  lemma {:induction false} SameFind(es: seq<Process>, es': seq<Process>, pid: nat, i: nat)
    requires |es| == |es'| && i <= |es| && forall j :: 0 <= j < |es| ==> es'[j].pid == es[j].pid
    ensures Find(es', pid, i) == Find(es, pid, i)
    decreases |es| - i
  {
    if i == |es| {
    } else {
      SameFind(es, es', pid, i + 1);
    }
  }

  /** The wake-up call of exit reaches every process that sleeps on ChildAny, so the window closes. */
  lemma {:induction false} PostInv(s: State)
    requires Inv(s) && Enabled(s, Post)
    ensures Inv(Next(s, Post))
  {
    var c := Cur(s);
    var event := Child(ParentOf(s.es[c]));
    var s1 := s.(es := Wake(s.es, event));
    var p := s.es[c].(at := Exiting(true));
    WakeInv(s, event);
    Replace(s1.es, s.nextPid, s.current, c, p);
    ReplaceHistories(s1, c, p);
    FindHere(s1.es[c := p], s.current, c);
    PostHeard(s, c, event, p);
  }

  lemma {:induction false} PostHeard(s: State, c: nat, event: Channel, p: Process)
    requires Inv(s) && c < |s.es| && event.Child? && p == s.es[c].(at := Exiting(true)) && s.es[c].status.Zombie?
    ensures NoLostWake(Wake(s.es, event)[c := p])
  {
    var es' := Wake(s.es, event)[c := p];
    forall i, j | 0 <= i < |es'| && 0 <= j < |es'| ensures Heard(es'[i], es'[j]) {
      assert Heard(s.es[i], s.es[j]);
      assert es'[i].channel != Some(ChildAny);
    }
  }

  // ---------------------------------------------------------------- spawn

  lemma {:induction false} SpawnTable(es: seq<Process>, nextPid: nat, current: nat, p: Process)
    requires Table(es, nextPid, current) && p.pid == nextPid > current && p == NewProcess(nextPid, p.parent, false)
    requires p.parent.Some? ==> p.parent.value < nextPid
    ensures Table(es, nextPid + 1, current) && Table(es + [p], nextPid + 1, current)
  {
    forall i | 0 <= i < |es| ensures Fine(es[i], nextPid + 1, current) && es[i].pid < nextPid {
      assert Fine(es[i], nextPid, current);
    }
  }

  lemma {:induction false} SpawnInv(s: State, stored: bool)
    requires Inv(s) && Enabled(s, Spawn(stored))
    ensures Inv(Next(s, Spawn(stored)))
  {
    var s' := Next(s, Spawn(stored));
    if s.nextPid + 1 < PID_LIMIT {
      var p := NewProcess(s.nextPid, if s.current == 0 then None else Some(s.current), false);
      assert s.current != 0 ==> Fine(s.es[Cur(s)], s.nextPid, s.current);
      assert Fine(s.es[0], s.nextPid, s.current);
      SpawnTable(s.es, s.nextPid, s.current, p);
      if s.current != 0 {
        FindHere(s'.es, s.current, Cur(s));
      }
      assert stored ==> s'.es[..|s.es|] == s.es && s'.es[|s.es|] == p;
      SpawnHistories(s, s');
      SpawnHeard(s, s');
    }
  }

  lemma {:induction false} SpawnHistories(s: State, s': State)
    requires Inv(s) && s'.log == s.log && s'.exited == s.exited && s'.nextPid == s.nextPid + 1
    requires s'.es == s.es || (|s'.es| == |s.es| + 1 && s'.es[..|s.es|] == s.es && Brandnew(s'.es[|s.es|], s.nextPid))
    ensures Histories(s')
  {
    forall k | 0 <= k < |s.log| ensures Delivered(s.log[k], s') && s.log[k].child.pid != s.nextPid {
      assert Delivered(s.log[k], s);
    }
    forall i | 0 <= i < |s'.es| ensures Recorded(s'.es[i], s'.exited) {
      if i < |s.es| {
        assert s'.es[i] == s.es[i];
        assert Recorded(s.es[i], s.exited);
      }
    }
    forall k, i | 0 <= k < |s.log| && 0 <= i < |s'.es| ensures s.log[k].child.pid != s'.es[i].pid {
      if i < |s.es| {
        assert s'.es[i] == s.es[i];
        assert s.log[k].child.pid != s.es[i].pid;
      }
    }
  }

  predicate Brandnew(p: Process, pid: nat) { p.pid == pid && p.code.None? && p.status.Ready? && p.channel.None? }

  lemma {:induction false} SpawnHeard(s: State, s': State)
    requires Inv(s) && (s'.es == s.es
      || (|s'.es| == |s.es| + 1 && s'.es[..|s.es|] == s.es && Brandnew(s'.es[|s.es|], s.nextPid)))
    ensures NoLostWake(s'.es)
  {
    forall i, j | 0 <= i < |s'.es| && 0 <= j < |s'.es| ensures Heard(s'.es[i], s'.es[j]) {
      if i < |s.es| && j < |s.es| {
        assert s'.es[i] == s.es[i] && s'.es[j] == s.es[j];
        assert Heard(s.es[i], s.es[j]);
      }
    }
  }

  // ---------------------------------------------------------------- wait

  lemma {:induction false} WaitInv(s: State, t: Target)
    requires Inv(s) && Enabled(s, Wait(t))
    ensures Inv(Next(s, Wait(t)))
  {
    var c, z := Cur(s), FindZombie(s.es, s.current, t, 0);
    var s1 := Own(s, s.es[c].(at := Free));
    OwnStep(s, s.es[c].(at := Free));
    if FindChild(s.es, s.current, t, 0) < |s.es| {
      if z < |s.es| {
        ReapInv(s, s1, z, t);
      } else {
        WaitBlocks(s, t);
      }
    }
  }

  lemma {:induction false} WaitBlocks(s: State, t: Target)
    requires Inv(s) && Enabled(s, Wait(t)) && FindZombie(s.es, s.current, t, 0) == |s.es|
    ensures Inv(Own(s, s.es[Cur(s)].(status := Blocked, channel := Some(ChannelOf(t)), saved := None,
      at := Waiting(t))))
  {
    var c := Cur(s);
    var p := s.es[c].(status := Blocked, channel := Some(ChannelOf(t)), saved := None, at := Waiting(t));
    Replace(s.es, s.nextPid, s.current, c, p);
    ReplaceHistories(s, c, p);
    FindHere(s.es[c := p], s.current, c);
    var es' := s.es[c := p];
    forall i, j | 0 <= i < |es'| && 0 <= j < |es'| ensures Heard(es'[i], es'[j]) {
      assert Heard(s.es[i], s.es[j]);
      assert !IsZombieChild(s.es[j], s.current, t);
    }
  }

  /** Taking out a zombie keeps the rest of the table, only reordered. */
  lemma {:induction false} ReapInv(s: State, s1: State, z: nat, t: Target)
    requires Inv(s) && Inv(s1) && Enabled(s, Wait(t)) && s1 == Own(s, s.es[Cur(s)].(at := Free))
    requires z < |s.es| && IsZombieChild(s.es[z], s.current, t)
    ensures Inv(s1.(es := Remove(s1.es, z), log := s.log + [Reaped(s.current, s.es[z])]))
  {
    var c, n := Cur(s), |s.es| - 1;
    var s' := s1.(es := Remove(s1.es, z), log := s.log + [Reaped(s.current, s.es[z])]);
    assert Fine(s.es[c], s.nextPid, s.current) && Fine(s.es[z], s.nextPid, s.current);
    assert z != c && s1.es[z] == s.es[z];
    RemoveTable(s1.es, s.nextPid, s.current, z);
    RemoveHeard(s1.es, z);
    FindHere(s'.es, s.current, if c == n then z else c);
    RemoveHistories(s1, s', z);
  }

  /** Where an entry of the shortened table was before. */
  function Was(i: nat, z: nat, n: nat): nat { if i == z then n else i }

  lemma RemoveAt(es: seq<Process>, z: nat, i: nat)
    requires z < |es| && i < |es| - 1
    ensures Remove(es, z)[i] == es[Was(i, z, |es| - 1)] && Was(i, z, |es| - 1) != z
  {
  }

  lemma {:induction false} RemoveTable(es: seq<Process>, nextPid: nat, current: nat, z: nat)
    requires Table(es, nextPid, current) && z < |es| && es[z].status.Zombie?
    ensures Table(Remove(es, z), nextPid, current)
  {
    var es' := Remove(es, z);
    assert Fine(es[z], nextPid, current) && Fine(es[0], nextPid, current);
    forall i | 0 <= i < |es'| ensures Fine(es'[i], nextPid, current) && (es'[i].idle <==> i == 0) {
      RemoveAt(es, z, i);
    }
    forall i, j | 0 <= i < j < |es'| ensures es'[i].pid != es'[j].pid {
      RemoveAt(es, z, i);
      RemoveAt(es, z, j);
    }
  }

  lemma {:induction false} RemoveHeard(es: seq<Process>, z: nat)
    requires NoLostWake(es) && z < |es|
    ensures NoLostWake(Remove(es, z))
  {
    var es' := Remove(es, z);
    forall i, j | 0 <= i < |es'| && 0 <= j < |es'| ensures Heard(es'[i], es'[j]) {
      RemoveAt(es, z, i);
      RemoveAt(es, z, j);
    }
  }

  lemma {:induction false} RemoveHistories(s1: State, s': State, z: nat)
    requires Inv(s1) && z < |s1.es| && s1.es[z].status.Zombie? && s1.es[z].parent.Some?
    requires s' == s1.(es := Remove(s1.es, z), log := s1.log + [Reaped(s1.es[z].parent.value, s1.es[z])])
    ensures Histories(s')
  {
    var r := Reaped(s1.es[z].parent.value, s1.es[z]);
    assert Recorded(s1.es[z], s1.exited) && Fine(s1.es[z], s1.nextPid, s1.current);
    forall i | 0 <= i < |s'.es| ensures Recorded(s'.es[i], s'.exited) && s'.es[i].pid != s1.es[z].pid {
      RemoveAt(s1.es, z, i);
      assert Recorded(s1.es[Was(i, z, |s1.es| - 1)], s1.exited);
    }
    forall k | 0 <= k < |s'.log| ensures Delivered(s'.log[k], s') {
      assert k < |s1.log| ==> Delivered(s1.log[k], s1);
    }
    forall k, i | 0 <= k < |s'.log| && 0 <= i < |s'.es| ensures s'.log[k].child.pid != s'.es[i].pid {
      RemoveAt(s1.es, z, i);
    }
  }

  // ---------------------------------------------------------------- schedule_internal

  /** What is chosen is ready, and is not the current process. */
  lemma {:induction false} ChoiceReady(s: State)
    requires Inv(s)
    ensures Choice(s).Some? ==> var n := Choice(s).value; n < |s.es| && s.es[n].status.Ready? && n != Cur(s)
  {
    var k := NextReadyFinds(s.es, CurIndex(s));
    if Choice(s).Some? {
      var n := Choice(s).value;
      assert Fine(s.es[n], s.nextPid, s.current);
      if s.es[n].pid == s.current {
        FindHere(s.es, s.current, n);
        assert false;
      }
    }
  }

  lemma LeaveFine(p: Process, nextPid: nat, current: nat, current': nat)
    requires Fine(p, nextPid, current) && p.pid == current && current' != current
    requires p.at.Free? || p.at.Preempting? || p.at.Blocking? || p.at.Waiting? || p.at == Exiting(true)
    ensures Fine(Leave(p), nextPid, current')
  {
  }

  lemma EnterFine(p: Process, nextPid: nat, current: nat)
    requires Fine(p, nextPid, current) && p.pid != current && p.status.Ready?
    ensures Fine(p.(status := Running), nextPid, p.pid)
  {
  }

  lemma StayFine(p: Process, nextPid: nat, current: nat, current': nat)
    requires Fine(p, nextPid, current) && p.pid != current && p.pid != current'
    ensures Fine(p, nextPid, current')
  {
  }

  lemma {:induction false} SwitchEntry(s: State, n: nat, i: nat)
    requires Inv(s) && Enabled(s, Reschedule) && Choice(s) == Some(n) && i < |s.es|
    requires n < |s.es| && s.es[n].status.Ready? && n != Cur(s)
    ensures var s' := Switch(s); |s'.es| == |s.es| && s'.current == s.es[n].pid && Fine(s'.es[i], s.nextPid, s'.current)
    ensures Switch(s).es[i] == if i == n then s.es[n].(status := Running) else if i == Cur(s) then Leave(s.es[i])
      else s.es[i]
  {
    var c := Cur(s);
    var current' := s.es[n].pid;
    assert Fine(s.es[i], s.nextPid, s.current);
    assert i != n ==> s.es[i].pid != current';
    assert i != c ==> s.es[i].pid != s.current by {
      if i != c && s.es[i].pid == s.current {
        FindHere(s.es, s.current, i);
      }
    }
    if i == n {
      EnterFine(s.es[n], s.nextPid, s.current);
    } else if i == c {
      LeaveFine(s.es[c], s.nextPid, s.current, current');
    } else {
      StayFine(s.es[i], s.nextPid, s.current, current');
    }
  }

  lemma {:induction false} SwitchInv(s: State)
    requires Inv(s) && Enabled(s, Reschedule)
    ensures Inv(Switch(s))
  {
    ChoiceReady(s);
    if Choice(s).Some? {
      var n, s' := Choice(s).value, Switch(s);
      forall i | 0 <= i < |s.es| ensures Fine(s'.es[i], s.nextPid, s'.current) && SameFacts(s.es[i], s'.es[i]) {
        SwitchEntry(s, n, i);
      }
      SameTable(s, s');
      FindHere(s'.es, s'.current, n);
    }
  }

  /** What a switch leaves of a record. */
  predicate SameFacts(p: Process, q: Process) {
    && q.pid == p.pid && q.idle == p.idle && q.code == p.code && q.channel == p.channel && q.parent == p.parent
    && (q.status.Zombie? <==> p.status.Zombie?) && (p.at.Exiting? ==> q.at == p.at) && q.saved == p.saved
  }

  lemma {:induction false} SameTable(s: State, s': State)
    requires Inv(s) && |s'.es| == |s.es| && s'.nextPid == s.nextPid && s'.exited == s.exited && s'.log == s.log
    requires forall i :: 0 <= i < |s.es| ==> Fine(s'.es[i], s.nextPid, s'.current) && SameFacts(s.es[i], s'.es[i])
    ensures Table(s'.es, s'.nextPid, s'.current) && NoLostWake(s'.es) && Histories(s')
  {
    forall i, j | 0 <= i < |s'.es| && 0 <= j < |s'.es| ensures Heard(s'.es[i], s'.es[j]) {
      assert Heard(s.es[i], s.es[j]) && SameFacts(s.es[i], s'.es[i]) && SameFacts(s.es[j], s'.es[j]);
      assert Fine(s.es[j], s.nextPid, s.current);
    }
    forall i, j | 0 <= i < j < |s'.es| ensures s'.es[i].pid != s'.es[j].pid {
      assert SameFacts(s.es[i], s'.es[i]) && SameFacts(s.es[j], s'.es[j]);
    }
    forall i | 0 <= i < |s'.es| ensures Recorded(s'.es[i], s'.exited) && s'.es[i].pid == s.es[i].pid {
      assert Recorded(s.es[i], s.exited) && SameFacts(s.es[i], s'.es[i]);
    }
    forall k | 0 <= k < |s.log| ensures Delivered(s.log[k], s') {
      assert Delivered(s.log[k], s);
    }
  }

  // ---------------------------------------------------------------- runs

  lemma {:induction false} BootInv()
    ensures Inv(Boot())
  {
  }

  lemma {:induction false} StepInv(s: State, op: Op)
    requires Inv(s) && Enabled(s, op)
    ensures Inv(Next(s, op))
  {
    match op
    case Spawn(stored) => SpawnInv(s, stored);
    case Reschedule => SwitchInv(s);
    case Block => BlockInv(s);
    case WakeKeyboard => WakeInv(s, KeyboardInput);
    case Exit(code) => ExitInv(s, code);
    case Post => PostInv(s);
    case Wait(t) => WaitInv(s, t);
    case Tick(rip) => TickInv(s, rip);
    case Take => TakeInv(s);
  }

  predicate Possible(s: State, ops: seq<Op>)
    decreases |ops|
  {
    ops == [] || (Enabled(s, ops[0]) && Possible(Next(s, ops[0]), ops[1..]))
  }

  function Run(s: State, ops: seq<Op>): State
    requires Possible(s, ops)
    decreases |ops|
  {
    if ops == [] then s else Run(Next(s, ops[0]), ops[1..])
  }

  /** Every state the kernel can reach satisfies the invariant. */
  lemma {:induction false} RunInv(s: State, ops: seq<Op>)
    requires Inv(s) && Possible(s, ops)
    ensures Inv(Run(s, ops))
    decreases |ops|
  {
    if ops == [] {
    } else {
      StepInv(s, ops[0]);
      RunInv(Next(s, ops[0]), ops[1..]);
    }
  }

  /** The invariant in plain words, for any reachable state. */
  lemma {:induction false} Safety(ops: seq<Op>, i: nat, j: nat)
    requires Possible(Boot(), ops)
    requires var s := Run(Boot(), ops); i < |s.es| && j < |s.es|
    ensures var s := Run(Boot(), ops); var p := s.es[i];
      && (p.status.Running? ==> p.pid == s.current) && (i != j ==> p.pid != s.es[j].pid)
      && (p.status.Blocked? <==> p.channel.Some?) && (p.status.Zombie? <==> p.code.Some?)
      && (p.idle ==> p.status.Ready? || p.status.Running?)
      && 1 <= p.pid < s.nextPid && (p.parent.Some? ==> p.parent.value < p.pid)
  {
    BootInv();
    RunInv(Boot(), ops);
    var s := Run(Boot(), ops);
    assert Fine(s.es[i], s.nextPid, s.current);
    assert i < j ==> s.es[i].pid != s.es[j].pid;
    assert j < i ==> s.es[j].pid != s.es[i].pid;
  }

  /** Each exit code is delivered at most once, to the parent of the process that exited with it. */
  lemma {:induction false} ReapedOnce(ops: seq<Op>, k: nat, l: nat)
    requires Possible(Boot(), ops)
    requires var log := Run(Boot(), ops).log; k < |log| && l < |log|
    ensures var s := Run(Boot(), ops); var r := s.log[k];
      && r.child.parent == Some(r.parent) && r.child.pid in s.exited && r.child.code == Some(s.exited[r.child.pid])
      && (k != l ==> s.log[l].child.pid != r.child.pid)
  {
    BootInv();
    RunInv(Boot(), ops);
    var s := Run(Boot(), ops);
    assert Delivered(s.log[k], s);
    assert k < l ==> s.log[k].child.pid != s.log[l].child.pid;
    assert l < k ==> s.log[l].child.pid != s.log[k].child.pid;
  }

  /** An exit code, once recorded, is never changed. */
  lemma {:induction false} ExitOnce(s: State, op: Op, pid: nat)
    requires Inv(s) && Enabled(s, op) && pid in s.exited
    ensures var s' := Next(s, op); pid in s'.exited && s'.exited[pid] == s.exited[pid]
  {
    if op.Exit? {
      assert Recorded(s.es[Cur(s)], s.exited) && Fine(s.es[Cur(s)], s.nextPid, s.current);
    }
  }
}

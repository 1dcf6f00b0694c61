/** The process table as it runs: records rewritten in place, searches as loops. Each method is one
    locked section and is proved against a step of Scheduler. */
module ProcessTable {
  import opened Options
  import opened Processes
  import opened Scheduler

  /** What the parent is told of a child. */
  function Delivery(p: Process): (nat, int) {
    (p.pid, if p.code.Some? then p.code.value else 0)
  }

  /** A zombie of the table was handed over to the parent, which is told its pid and the code it has. */
  predicate Handed(r: Reaped, parent: nat, es: seq<Process>, told: (nat, int)) {
    && r.parent == parent && r.child in es && r.child.status.Zombie? && told.0 == r.child.pid
    && (r.child.code.Some? ==> told.1 == r.child.code.value)
  }

  predicate ZombieWith(es: seq<Process>, c: nat, code: int) {
    c < |es| && es[c].status.Zombie? && es[c].code == Some(code)
  }

  class Table {
    var entries: seq<Process>
    var nextPid: nat
    var current: nat
    ghost var exited: map<nat, int>
    ghost var log: seq<Reaped>

    ghost function View(): State
      reads this
    {
      State(entries, nextPid, current, exited, log)
    }

    /** `init`: the table with its idle task. */
    constructor ()
      ensures View() == Boot()
    {
      entries := [NewProcess(1, None, true)];
      nextPid, current := 2, 0;
      exited, log := map[], [];
    }

    method FindIndexByPid(pid: nat) returns (r: Option<nat>)
      ensures r == if Find(entries, pid, 0) < |entries| then Some(Find(entries, pid, 0)) else None
    {
      var i := 0;
      while i < |entries|
        invariant i <= |entries| && Find(entries, pid, i) == Find(entries, pid, 0)
        modifies {}
      {
        if entries[i].pid == pid {
          return Some(i);
        }
        i := i + 1;
      }
      return None;
    }

    /** The index that `current_pid` leads to. */
    method CurrentIndex() returns (r: Option<nat>)
      ensures r == CurIndex(View())
    {
      if current == 0 {
        return None;
      }
      r := FindIndexByPid(current);
    }

    method HasChild(parent: nat, t: Target) returns (b: bool)
      ensures b <==> FindChild(entries, parent, t, 0) < |entries|
    {
      var i := 0;
      while i < |entries|
        invariant i <= |entries| && FindChild(entries, parent, t, i) == FindChild(entries, parent, t, 0)
        modifies {}
      {
        if IsChild(entries[i], parent, t) {
          return true;
        }
        i := i + 1;
      }
      return false;
    }

    method RemoveIndex(index: nat) returns (removed: Process)
      requires index < |entries|
      modifies `entries
      ensures entries == Remove(old(entries), index) && removed == old(entries[index])
    {
      removed := entries[index];
      if index != |entries| - 1 {
        var moved := entries[|entries| - 1];
        entries := entries[index := moved];
      }
      entries := entries[..|entries| - 1];
    }

    /** The first zombie child that fits is taken out; its pid and exit code are returned. */
    method TakeZombieChild(parent: nat, t: Target) returns (r: Option<(nat, int)>)
      modifies `entries
      ensures var es := old(entries); var z := FindZombie(es, parent, t, 0);
        if z < |es| then
          && entries == Remove(es, z)
          && r == Some(Delivery(es[z]))
        else entries == es && r == None
    {
      var index := 0;
      while index < |entries|
        invariant index <= |entries| && entries == old(entries)
        invariant FindZombie(entries, parent, t, index) == FindZombie(entries, parent, t, 0)
      {
        if IsZombieChild(entries[index], parent, t) {
          var p := RemoveIndex(index);
          return Some(Delivery(p));
        }
        index := index + 1;
      }
      return None;
    }

    method NextReadyIndex(start: Option<nat>) returns (r: Option<nat>)
      requires start.Some? ==> start.value < |entries|
      ensures r == NextReady(entries, start)
    {
      if |entries| == 0 {
        return None;
      }
      var n := |entries|;
      var index: nat := 0;
      if start.Some? {
        index := (start.value + 1) % n;
        Modulo(start.value + 1, n);
      }
      var inspected := 0;
      var spare: Option<nat> := None;
      while inspected < n
        invariant inspected <= n && index < n
        invariant Scan(entries, index, n - inspected, spare) == NextReady(entries, start)
        modifies {}
      {
        var p := entries[index];
        match p.status {
          case Ready =>
            if p.idle {
              if spare.None? {
                spare := Some(index);
              }
            } else {
              return Some(index);
            }
          case Running =>
            if p.idle && spare.None? {
              spare := Some(index);
            }
          case _ =>
        }
        Modulo(index + 1, n);
        index := (index + 1) % n;
        inspected := inspected + 1;
      }
      return spare;
    }

    method WakeChannel(event: Channel)
      modifies `entries
      ensures entries == Wake(old(entries), event)
    {
      ghost var es := entries;
      var i := 0;
      while i < |entries|
        invariant i <= |entries| == |es|
        invariant forall j :: 0 <= j < i ==> entries[j] == WakeOne(es[j], event)
        invariant forall j :: i <= j < |es| ==> entries[j] == es[j]
        modifies `entries
      {
        var p := entries[i];
        if p.status == Blocked {
          if p.channel.Some? && Matches(p.channel.value, event) {
            entries := entries[i := p.(channel := None, status := Ready, saved := None)];
          }
        }
        i := i + 1;
      }
    }

    /** The locked section of `schedule_internal`: the process to switch to, if any. */
    method ChooseNext() returns (next: Option<nat>)
      modifies `entries
      ensures var s := old(View()); var i := Choice(s);
        && (i.None? ==> next == None && View() == s)
        && (i.Some? ==> i.value < |s.es| && next == Some(s.es[i.value].pid) && View() == s.(es := Promote(s, i.value)))
    {
      if |entries| == 0 {
        return None;
      }
      var cur := CurrentIndex();
      var index := NextReadyIndex(cur);
      ChoiceInTable(View());
      if index.None? {
        return None;
      }
      if cur.Some? && cur.value == index.value {
        return None;
      }
      if cur.Some? {
        var p := entries[cur.value];
        if p.status == Running {
          p := p.(status := Ready);
        }
        entries := entries[cur.value := p.(at := Onward(p.at))];
      }
      entries := entries[index.value := entries[index.value].(status := Running)];
      return Some(entries[index.value].pid);
    }

    /** `schedule_internal` up to the context switch: whether there is one. The lock is released before
        CURRENT_PID is stored. */
    method ScheduleInternal() returns (switched: bool)
      modifies `entries, `current
      ensures View() == Switch(old(View())) && (switched <==> Choice(old(View())).Some?)
    {
      var next := ChooseNext();
      if next.None? {
        return false;
      }
      current := next.value;
      return true;
    }

    /** `spawn_kernel_process` and `spawn_user_process` by the current process; stored tells whether the
        record could be built and pushed. */
    method Spawn(stored: bool) returns (pid: Option<nat>)
      modifies `entries, `nextPid
      ensures View() == SpawnStep(old(View()), stored)
      ensures pid == if stored && old(nextPid) + 1 < PID_LIMIT then Some(old(nextPid)) else None
    {
      var parent := if current == 0 then None else Some(current);
      if nextPid + 1 >= PID_LIMIT {
        return None;
      }
      var p := nextPid;
      nextPid := nextPid + 1;
      if !stored {
        return None;
      }
      entries := entries + [NewProcess(p, parent, false)];
      return Some(p);
    }

    /** `block_current` up to its reschedule; false when there is no current process. On the keyboard, the
        one channel it is called for, it is the step Block. */
    method BlockCurrent(channel: Channel) returns (ok: bool)
      modifies `entries
      ensures var s := old(View()); var c := Cur(s);
        && (ok <==> c < |s.es|) && (!ok ==> View() == s)
        && (ok ==> View() == Own(s, BlockOne(s.es[c], channel)))
      ensures channel.KeyboardInput? && old(Enabled(View(), Block)) ==> View() == Next(old(View()), Block)
    {
      var c := CurrentIndex();
      if c.None? {
        return false;
      }
      var p := entries[c.value];
      entries := entries[c.value := p.(status := Blocked, channel := Some(channel), saved := None, at := Blocking)];
      return true;
    }

    /** `exit_current` up to the wake-up call; the parent to be told. */
    method ExitCurrent(code: int) returns (parent: Option<nat>)
      requires Enabled(View(), Exit(code))
      modifies `entries, `exited
      ensures View() == Next(old(View()), Exit(code))
      ensures parent == old(entries[Cur(View())].parent)
      ensures ZombieWith(entries, old(Cur(View())), code)
    {
      var c := CurrentIndex();
      var p := entries[c.value];
      exited := exited[current := code];
      entries := entries[c.value := p.(status := Zombie, channel := None, code := Some(code), saved := None,
        at := Exiting(p.parent.None?))];
      return p.parent;
    }

    /** The wake-up call of `exit_current`. */
    method PostExit(parent: nat)
      requires Enabled(View(), Post) && parent == ParentOf(entries[Cur(View())])
      modifies `entries
      ensures View() == Next(old(View()), Post)
    {
      var c := CurrentIndex();
      var p := entries[c.value];
      WakeChannel(Child(parent));
      entries := entries[c.value := p.(at := Exiting(true))];
    }

    /** The part of `wait_for_child` behind its check for children: take one, or block. */
    method TakeOrBlock(c: nat, t: Target) returns (taken: Option<(nat, int)>)
      requires c == Cur(View()) < |entries| && FindChild(entries, current, t, 0) < |entries|
      modifies `entries, `log
      ensures View() == WaitStep(old(View()), t)
      ensures taken == if |log| == |old(log)| then None else Some(Delivery(log[|log| - 1].child))
    {
      ghost var es := entries;
      ghost var z := FindZombie(es, current, t, 0);
      ghost var child := if z < |es| then es[z] else es[0];
      WaitParts(View(), t, c);
      entries := entries[c := entries[c].(at := Free)];
      taken := TakeZombieChild(current, t);
      if taken.Some? {
        log := log + [Reaped(current, child)];
        return;
      }
      var p := entries[c];
      entries := entries[c := p.(status := Blocked, channel := Some(ChannelOf(t)), saved := None, at := Waiting(t))];
    }

    /** One turn of `wait_for_child`: the child and code it returns, an error, or neither when it blocks. */
    method WaitForChild(t: Target) returns (taken: Option<(nat, int)>, failed: bool)
      requires Enabled(View(), Wait(t))
      modifies `entries, `log
      ensures View() == Next(old(View()), Wait(t))
      ensures failed <==> FindChild(old(entries), current, t, 0) == |old(entries)|
      ensures taken.None? <==> log == old(log)
      ensures taken.Some? ==> |log| == |old(log)| + 1 && Handed(log[|log| - 1], current, old(entries), taken.value)
    {
      var c := CurrentIndex();
      var some := HasChild(current, t);
      if !some {
        entries := entries[c.value := entries[c.value].(at := Free)];
        return None, true;
      }
      taken := TakeOrBlock(c.value, t);
      failed := false;
    }

    /** `request_preempt`; whether the interrupt frame is redirected. */
    method RequestPreempt(rip: nat) returns (redirected: bool)
      modifies `entries
      ensures View() == Next(old(View()), Tick(rip))
      ensures redirected <==> View() != old(View())
    {
      if rip < KERNEL_BASE {
        return false;
      }
      var c := CurrentIndex();
      if c.None? {
        return false;
      }
      var p := entries[c.value];
      if p.status != Running || p.idle || p.saved.Some? {
        assert entries[c.value := p] == entries;
        return false;
      }
      entries := entries[c.value := p.(saved := Some(rip), at := Preempting(rip, p.at))];
      assert entries[c.value] != p;
      return true;
    }

    /** The end of `preempt_do_switch`: the address to go back to. */
    method TakePreemptReturn(contextRip: nat) returns (target: nat)
      requires Enabled(View(), Take)
      modifies `entries
      ensures View() == Next(old(View()), Take) && target == Resumes(old(View()), contextRip)
    {
      var c := CurrentIndex();
      var p := entries[c.value];
      target := if p.saved.Some? then p.saved.value else contextRip;
      entries := entries[c.value := p.(saved := None, at := p.at.back)];
    }
  }

  lemma Modulo(i: nat, n: nat)
    requires 0 < n && i <= n
    ensures i % n == Wrap(i, n) < n
  {
  }

  /** The two outcomes of a wait with children, in terms of the table with the control field reset. */
  lemma {:induction false} WaitParts(s: State, t: Target, c: nat)
    requires c == Cur(s) < |s.es| && FindChild(s.es, s.current, t, 0) < |s.es|
    ensures var es1 := s.es[c := s.es[c].(at := Free)]; var z := FindZombie(es1, s.current, t, 0);
      && z == FindZombie(s.es, s.current, t, 0)
      && (z < |es1| ==>
          Delivery(es1[z]) == Delivery(s.es[z])
          && WaitStep(s, t) == s.(es := Remove(es1, z), log := s.log + [Reaped(s.current, s.es[z])]))
      && (z == |es1| ==> WaitStep(s, t) == s.(es := es1[c := BlockOn(es1[c], t)]))
  {
    ZombieUnchanged(s.es, c, s.current, t, 0);
    var es1 := s.es[c := s.es[c].(at := Free)];
    assert es1[c := BlockOn(es1[c], t)] == s.es[c := BlockOn(s.es[c], t)];
  }

  function BlockOn(p: Process, t: Target): Process {
    p.(status := Blocked, channel := Some(ChannelOf(t)), saved := None, at := Waiting(t))
  }

  /** The control field plays no part in the search for a zombie. */
  lemma {:induction false} ZombieUnchanged(es: seq<Process>, c: nat, parent: nat, t: Target, i: nat)
    requires c < |es| && i <= |es|
    ensures FindZombie(es[c := es[c].(at := Free)], parent, t, i) == FindZombie(es, parent, t, i)
    decreases |es| - i
  {
    if i == |es| {
    } else {
      ZombieUnchanged(es, c, parent, t, i + 1);
    }
  }
}

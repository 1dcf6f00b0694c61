/** Process records and the searches the scheduler makes through the process table. */
module Processes {
  import opened Options

  datatype Status = Ready | Running | Blocked | Zombie

  datatype Channel = KeyboardInput | ChildAny | Child(pid: nat)

  /** What wait_for_child was asked for. */
  datatype Target = AnyChild | OneChild(pid: nat)

  /** Where a process is in the scheduler's code, or will be when it next runs. */
  datatype Control =
    | Free                                     // its own code
    | Rewait(target: Target)                   // back in wait_for_child, about to look again
    | Preempting(rip: nat, back: Control)      // sent through the trampoline, rescheduling
    | Resuming(rip: nat, back: Control)        // switched in again, about to take the saved address
    | Blocking                                 // in block_current, rescheduling
    | Waiting(target: Target)                  // in wait_for_child, rescheduling
    | Exiting(posted: bool)                    // in exit_current, before or after the wake-up call

  datatype Process = Process(pid: nat, parent: Option<nat>, status: Status, channel: Option<Channel>, code: Option<int>,
    idle: bool, saved: Option<nat>, at: Control)

  /** `matches_event`. */
  predicate Matches(channel: Channel, event: Channel) {
    match (channel, event)
    case (KeyboardInput, KeyboardInput) => true
    case (ChildAny, Child(_)) => true
    case (Child(c), Child(e)) => c == e
    case _ => false
  }

  function ChannelOf(t: Target): Channel {
    match t
    case AnyChild => ChildAny
    case OneChild(c) => Child(c)
  }

  // ---------------------------------------------------------------- searches

  /** `find_index_by_pid`, from i on; the length when there is none. */
  function Find(es: seq<Process>, pid: nat, i: nat): (r: nat)
    requires i <= |es|
    ensures i <= r <= |es| && (r < |es| ==> es[r].pid == pid)
    ensures forall j :: i <= j < r ==> es[j].pid != pid
    decreases |es| - i
  {
    if i == |es| || es[i].pid == pid then i else Find(es, pid, i + 1)
  }

  predicate IsChild(p: Process, parent: nat, t: Target) {
    p.parent == Some(parent) && (t.OneChild? ==> p.pid == t.pid)
  }

  predicate IsZombieChild(p: Process, parent: nat, t: Target) {
    IsChild(p, parent, t) && p.status.Zombie?
  }

  /** `has_child`. */
  function FindChild(es: seq<Process>, parent: nat, t: Target, i: nat): (r: nat)
    requires i <= |es|
    ensures i <= r <= |es| && (r < |es| ==> IsChild(es[r], parent, t))
    ensures forall j :: i <= j < r ==> !IsChild(es[j], parent, t)
    decreases |es| - i
  {
    if i == |es| || IsChild(es[i], parent, t) then i else FindChild(es, parent, t, i + 1)
  }

  /** The entry `take_zombie_child` picks. */
  function FindZombie(es: seq<Process>, parent: nat, t: Target, i: nat): (r: nat)
    requires i <= |es|
    ensures i <= r <= |es| && (r < |es| ==> IsZombieChild(es[r], parent, t))
    ensures forall j :: i <= j < r ==> !IsZombieChild(es[j], parent, t)
    decreases |es| - i
  {
    if i == |es| || IsZombieChild(es[i], parent, t) then i else FindZombie(es, parent, t, i + 1)
  }

  /** `remove_index`: the last entry takes the place of the removed one. */
  function Remove(es: seq<Process>, i: nat): seq<Process>
    requires i < |es|
  {
    es[i := es[|es| - 1]][..|es| - 1]
  }

  /** `wake_channel` on one process. */
  function WakeOne(p: Process, event: Channel): Process {
    if p.status.Blocked? && p.channel.Some? && Matches(p.channel.value, event)
    then p.(status := Ready, channel := None, saved := None) else p
  }

  function Wake(es: seq<Process>, event: Channel): (r: seq<Process>)
    ensures |r| == |es| && forall i :: 0 <= i < |es| ==> r[i] == WakeOne(es[i], event)
  {
    if es == [] then [] else Wake(es[..|es| - 1], event) + [WakeOne(es[|es| - 1], event)]
  }

  // ---------------------------------------------------------------- round robin

  /** i modulo n, for i below 2n. */
  function Wrap(i: nat, n: nat): nat { if i >= n then i - n else i }

  predicate Runnable(p: Process) { p.status.Ready? && !p.idle }
  predicate Spare(p: Process) { p.idle && (p.status.Ready? || p.status.Running?) }

  /** The loop of `next_ready_index`. */
  function Scan(es: seq<Process>, index: nat, left: nat, spare: Option<nat>): Option<nat>
    requires left <= |es| && (left > 0 ==> index < |es|)
    decreases left
  {
    if left == 0 then spare
    else if Runnable(es[index]) then Some(index)
    else Scan(es, Wrap(index + 1, |es|), left - 1, if spare.None? && Spare(es[index]) then Some(index) else spare)
  }

  function NextReady(es: seq<Process>, start: Option<nat>): Option<nat>
    requires start.Some? ==> start.value < |es|
  {
    Scan(es, After(start, |es|), |es|, None)
  }

  /** Where the search begins: behind the current entry. */
  function After(start: Option<nat>, n: nat): nat {
    if start.Some? then Wrap(start.value + 1, n) else 0
  }

  /** The entry k places on. */
  function Ahead(es: seq<Process>, from: nat, k: nat): Process
    requires from < |es| && k < |es|
  {
    es[Wrap(from + k, |es|)]
  }

  /** How far entry i lies ahead. */
  function Distance(from: nat, i: nat, n: nat): (d: nat)
    requires from < n && i < n
    ensures d < n && Wrap(from + d, n) == i
  {
    if i >= from then i - from else i + n - from
  }

  /** The scan stops at the first runnable entry; failing that it gives an idle one. */
  lemma {:induction false} ScanFinds(es: seq<Process>, index: nat, left: nat, spare: Option<nat>) returns (k: nat)
    requires left <= |es| && index < |es|
    ensures k <= left && forall j :: 0 <= j < k ==> !Runnable(Ahead(es, index, j))
    ensures k < left ==> Runnable(Ahead(es, index, k)) && Scan(es, index, left, spare) == Some(Wrap(index + k, |es|))
    ensures k == left ==> SpareFound(es, index, left, spare, Scan(es, index, left, spare))
    decreases left
  {
    if left == 0 || Runnable(es[index]) {
      k := 0;
    } else {
      var next, keep := Wrap(index + 1, |es|), if spare.None? && Spare(es[index]) then Some(index) else spare;
      var k1 := ScanFinds(es, next, left - 1, keep);
      k := k1 + 1;
      forall j | 0 <= j < k ensures !Runnable(Ahead(es, index, j)) {
        if j > 0 {
          assert Ahead(es, index, j) == Ahead(es, next, j - 1);
        }
      }
      if k < left {
        assert Ahead(es, index, k) == Ahead(es, next, k1);
      } else {
        SpareStep(es, index, left, spare, Scan(es, index, left, spare));
      }
    }
  }

  /** The first idle entry that can be run lies j places on. */
  ghost predicate FirstSpare(es: seq<Process>, index: nat, j: int, r: nat)
    requires index < |es|
  {
    && 0 <= j < |es| && r == Wrap(index + j, |es|) && Spare(es[r])
    && forall i :: 0 <= i < j ==> !Spare(Ahead(es, index, i))
  }

  /** What the scan returns when nothing is runnable: the spare entry it had, or the first idle one. */
  ghost predicate SpareFound(es: seq<Process>, index: nat, left: nat, spare: Option<nat>, r: Option<nat>)
    requires left <= |es| && index < |es|
  {
    && (spare.Some? ==> r == spare)
    && (spare.None? && r.Some? ==> exists j :: FirstSpare(es, index, j, r.value))
    && (spare.None? && r.None? ==> forall j :: 0 <= j < left ==> !Spare(Ahead(es, index, j)))
  }

  lemma {:induction false} FirstSpareStep(es: seq<Process>, index: nat, j: nat, r: nat)
    requires index < |es| && !Spare(es[index]) && FirstSpare(es, Wrap(index + 1, |es|), j, r)
    ensures FirstSpare(es, index, j + 1, r)
  {
    var next := Wrap(index + 1, |es|);
    forall i | 0 <= i < j + 1 ensures !Spare(Ahead(es, index, i)) {
      if i > 0 {
        assert Ahead(es, index, i) == Ahead(es, next, i - 1);
      }
    }
  }

  lemma {:induction false} SpareStep(es: seq<Process>, index: nat, left: nat, spare: Option<nat>, r: Option<nat>)
    requires 0 < left <= |es| && index < |es|
    requires var keep := if spare.None? && Spare(es[index]) then Some(index) else spare;
      SpareFound(es, Wrap(index + 1, |es|), left - 1, keep, r)
    ensures SpareFound(es, index, left, spare, r)
  {
    var next := Wrap(index + 1, |es|);
    if spare.None? && Spare(es[index]) {
      assert FirstSpare(es, index, 0, index);
    } else if spare.None? && r.Some? {
      var j :| FirstSpare(es, next, j, r.value);
      FirstSpareStep(es, index, j, r.value);
    } else if spare.None? {
      forall j | 0 <= j < left ensures !Spare(Ahead(es, index, j)) {
        if j > 0 {
          assert Ahead(es, index, j) == Ahead(es, next, j - 1);
        }
      }
    }
  }

  /** next_ready_index gives the first runnable entry in cyclic order; an idle one only when nothing is
      runnable; and nothing only when there is neither. */
  lemma {:induction false} NextReadyFinds(es: seq<Process>, start: Option<nat>) returns (k: nat)
    requires es != [] && (start.Some? ==> start.value < |es|)
    ensures var from, r := After(start, |es|), NextReady(es, start);
      && from < |es| && k <= |es| && (forall j :: 0 <= j < k ==> !Runnable(Ahead(es, from, j)))
      && (k < |es| ==> r == Some(Wrap(from + k, |es|)) && Runnable(es[r.value]))
      && (k == |es| ==> (forall i :: 0 <= i < |es| ==> !Runnable(es[i])))
      && (k == |es| && r.Some? ==> exists j :: FirstSpare(es, from, j, r.value))
      && (k == |es| && r.None? ==> (forall i :: 0 <= i < |es| ==> !Spare(es[i])))
  {
    var from := After(start, |es|);
    k := ScanFinds(es, from, |es|, None);
    if k == |es| {
      forall i | 0 <= i < |es| ensures !Runnable(es[i]) && (NextReady(es, start).None? ==> !Spare(es[i])) {
        assert es[i] == Ahead(es, from, Distance(from, i, |es|));
      }
    }
  }

  /** How many entries are looked at before entry i, the search beginning behind `start`. */
  function Before(start: Option<nat>, i: nat, n: nat): int {
    if start.None? then i else if i > start.value then i - start.value - 1 else i + n - start.value - 1
  }

  lemma {:induction false} BeforeAhead(es: seq<Process>, start: Option<nat>, i: nat, j: nat)
    requires i < |es| && j < |es| && (start.Some? ==> start.value < |es|) && i == Wrap(After(start, |es|) + j, |es|)
    ensures Before(start, i, |es|) == j && Ahead(es, After(start, |es|), j) == es[i]
  {
  }

  /** The choice, from the records alone: the first in turn that may be run; if there is none, the first idle entry in
      turn; if there is none either, nothing. */
  lemma {:induction false} NextReadyExactly(es: seq<Process>, start: Option<nat>)
    requires es != [] && (start.Some? ==> start.value < |es|)
    ensures match NextReady(es, start)
      case None => forall i :: 0 <= i < |es| ==> es[i].status != Ready && !(es[i].idle && es[i].status == Running)
      case Some(r) =>
        && r < |es| && (es[r].status == Ready || (es[r].idle && es[r].status == Running))
        && (forall i :: 0 <= i < |es| && es[i].status == Ready && !es[i].idle
              ==> !es[r].idle && Before(start, r, |es|) <= Before(start, i, |es|))
        && (forall i :: 0 <= i < |es| && es[i].idle && (es[i].status == Ready || es[i].status == Running)
              ==> !es[r].idle || Before(start, r, |es|) <= Before(start, i, |es|))
  {
    var k := NextReadyFinds(es, start);
    var from, r := After(start, |es|), NextReady(es, start);
    if r.Some? {
      var d := k;
      if k == |es| {
        var j :| FirstSpare(es, from, j, r.value);
        d := j;
      }
      BeforeAhead(es, start, r.value, d);
      forall i | 0 <= i < |es| && Before(start, i, |es|) < d
        ensures if k < |es| then !Runnable(es[i]) else !Spare(es[i])
      {
        BeforeAhead(es, start, i, Distance(from, i, |es|));
      }
    }
  }
}

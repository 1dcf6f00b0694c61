/** Reachable states in which a wake-up has been lost: on a given child, and on the keyboard. */
module LostWake {
  import opened Options
  import opened Processes
  import opened Scheduler
  import opened SchedulerInvariant
  import opened SchedulerProgress

  const IDLE := NewProcess(1, None, true)
  const PARENT := NewProcess(2, None, false)
  const CHILD := NewProcess(3, Some(2), false)
  const ASLEEP := PARENT.(status := Blocked, channel := Some(Child(3)), at := Waiting(OneChild(3)))

  function S1(): State { State([IDLE, PARENT], 3, 0, map[], []) }
  function S2(): State { State([IDLE, PARENT.(status := Running)], 3, 2, map[], []) }
  function S3(): State { State([IDLE, PARENT.(status := Running), CHILD], 4, 2, map[], []) }
  function S4(): State { State([IDLE, ASLEEP, CHILD], 4, 2, map[], []) }
  function S5(): State { State([IDLE, ASLEEP.(at := Rewait(OneChild(3))), CHILD.(status := Running)], 4, 3, map[], []) }
  function S6(): State {
    State([IDLE, ASLEEP.(at := Rewait(OneChild(3))), ExitOne(CHILD, 0)], 4, 3, map[3 := 0], [])
  }
  function S7(): State {
    State([IDLE, ASLEEP.(at := Rewait(OneChild(3))), ExitOne(CHILD, 0).(at := Exiting(true))], 4, 3, map[3 := 0], [])
  }

  lemma Step1()
    ensures Enabled(Boot(), Spawn(true)) && Next(Boot(), Spawn(true)) == S1()
  {
  }

  lemma Step2()
    ensures Enabled(S1(), Reschedule) && Next(S1(), Reschedule) == S2()
  {
    var es := S1().es;
    assert Find(es, 0, 1) == 2;
    assert Cur(S1()) == 2;
    assert Scan(es, 1, 1, Some(0)) == Some(1);
    assert NextReady(es, None) == Some(1);
  }

  lemma Step3()
    ensures Enabled(S2(), Spawn(true)) && Next(S2(), Spawn(true)) == S3()
  {
    assert Cur(S2()) == 1;
  }

  lemma Step4()
    ensures Enabled(S3(), Wait(OneChild(3))) && Next(S3(), Wait(OneChild(3))) == S4()
  {
    var es := S3().es;
    assert Cur(S3()) == 1;
    assert FindChild(es, 2, OneChild(3), 0) == 2 by {
      assert IsChild(es[2], 2, OneChild(3));
    }
    assert FindZombie(es, 2, OneChild(3), 0) == 3;
  }

  lemma Step5()
    ensures Enabled(S4(), Reschedule) && Next(S4(), Reschedule) == S5()
  {
    var es := S4().es;
    assert Cur(S4()) == 1;
    assert Runnable(es[2]);
    assert NextReady(es, Some(1)) == Some(2);
  }

  lemma Step6()
    ensures Enabled(S5(), Exit(0)) && Next(S5(), Exit(0)) == S6()
  {
    assert Find(S5().es, 3, 2) == 2;
    assert Cur(S5()) == 2;
  }

  lemma Step7()
    ensures Enabled(S6(), Post) && Next(S6(), Post) == S7()
  {
    assert Find(S6().es, 3, 2) == 2;
    assert Cur(S6()) == 2;
    assert Wake(S6().es, Child(2)) == S6().es;
  }

  function K3(): State { State([IDLE, BlockOne(PARENT, KeyboardInput)], 3, 2, map[], []) }
  function K4(): State { State([IDLE, PARENT.(at := Blocking)], 3, 2, map[], []) }

  lemma Key3()
    ensures Enabled(S2(), Block) && Next(S2(), Block) == K3()
  {
    assert Cur(S2()) == 1;
  }

  lemma Key4()
    ensures Enabled(K3(), WakeKeyboard) && Next(K3(), WakeKeyboard) == K4()
  {
    assert Wake(K3().es, KeyboardInput) == K4().es;
  }

  lemma Key4Spins()
    ensures Spinning(K4())
  {
    assert Cur(K4()) == 1;
  }

  lemma Then(s: State, op: Op, s': State, ops: seq<Op>)
    requires Enabled(s, op) && Next(s, op) == s' && Possible(s', ops)
    ensures Possible(s, [op] + ops) && Run(s, [op] + ops) == Run(s', ops)
  {
    assert ([op] + ops)[1..] == ops;
  }

  /** Process 2 blocks on the keyboard, and the key comes before it has left the CPU: it spins for good. */
  lemma {:induction false} SpinReached() returns (ops: seq<Op>)
    ensures Possible(Boot(), ops) && Spinning(Run(Boot(), ops))
  {
    Step1(); Step2(); Key3(); Key4();
    Key4Spins();
    ops := [];
    Then(K3(), WakeKeyboard, K4(), ops);
    ops := [WakeKeyboard] + ops;
    Then(S2(), Block, K3(), ops);
    ops := [Block] + ops;
    Then(S1(), Reschedule, S2(), ops);
    ops := [Reschedule] + ops;
    Then(Boot(), Spawn(true), S1(), ops);
    ops := [Spawn(true)] + ops;
  }

  /** Process 2 waits for its child 3; 3 exits and posts; 2 sleeps on, for good. */
  lemma {:induction false} TargetedWakeLost() returns (ops: seq<Op>)
    ensures Possible(Boot(), ops)
    ensures var s := Run(Boot(), ops);
      && |s.es| == 3 && s.es[1].status.Blocked? && s.es[1].channel == Some(Child(3))
      && s.es[2].pid == 3 && s.es[2].parent == Some(s.es[1].pid) && s.es[2].status.Zombie?
        && s.es[2].at == Exiting(true)
      && Stranded(s, 1, 3)
  {
    Step1(); Step2(); Step3(); Step4(); Step5(); Step6(); Step7();
    ops := [];
    Then(S6(), Post, S7(), ops);
    ops := [Post] + ops;
    Then(S5(), Exit(0), S6(), ops);
    ops := [Exit(0)] + ops;
    Then(S4(), Reschedule, S5(), ops);
    ops := [Reschedule] + ops;
    Then(S3(), Wait(OneChild(3)), S4(), ops);
    ops := [Wait(OneChild(3))] + ops;
    Then(S2(), Spawn(true), S3(), ops);
    ops := [Spawn(true)] + ops;
    Then(S1(), Reschedule, S2(), ops);
    ops := [Reschedule] + ops;
    Then(Boot(), Spawn(true), S1(), ops);
    ops := [Spawn(true)] + ops;
  }
}

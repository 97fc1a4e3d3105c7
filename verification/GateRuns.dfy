/**
 * What the gate allows: threads that call the hook from inside the detour, to every depth and in
 * any combination, and an uninstall that sleeps until the last of them has left.
 */
module GateRuns {
  import opened Gates

  // ----- at any moment of any run

  /** A thread that runs can call the hook whenever it is installed, whatever guards it has. */
  lemma CanAlwaysEnter(s: System, run: seq<Action>, t: nat)
    requires Possible(s, run) && After(s, run).uninstaller == Installed
    requires t < |After(s, run).threads| && After(s, run).threads[t].pc == Running
    ensures var now, longer := After(s, run), run + [Call(t), Enter(t)];
            && Possible(s, longer)
            && After(s, longer) == now.(numActive := now.numActive + 1,
                                        threads := now.threads[t := Thread(now.threads[t].guards + 1, Running)])
  {
    hide Possible, After;
    var now := After(s, run);
    var ts, g := now.threads, now.threads[t].guards;
    var longer := RunStepTo(s, run, now, Call(t), now.(threads := ts[t := Thread(g, Jumped)]));
    longer := RunStepTo(s, longer, now.(threads := ts[t := Thread(g, Jumped)]), Enter(t),
                        now.(numActive := now.numActive + 1, threads := ts[t := Thread(g + 1, Running)]));
    hide Enabled, Next;
    assert longer == run + [Call(t), Enter(t)];
  }

  /** A thread that runs and has a guard can give it up at any moment, and goes on if others remain. */
  lemma CanAlwaysLeave(s: System, run: seq<Action>, t: nat)
    requires Possible(s, run) && After(s, run).numActive > 1
    requires t < |After(s, run).threads| && After(s, run).threads[t].pc == Running
    requires After(s, run).threads[t].guards > 0
    ensures var now, longer := After(s, run), run + [Exit(t), Return(t)];
            && Possible(s, longer)
            && After(s, longer) == now.(numActive := now.numActive - 1,
                                        threads := now.threads[t := Thread(now.threads[t].guards - 1, Running)])
  {
    hide Possible, After;
    var now := After(s, run);
    var ts, g := now.threads, now.threads[t].guards;
    var fewer := now.(numActive := now.numActive - 1);
    var longer := RunStepTo(s, run, now, Exit(t), fewer.(threads := ts[t := Thread(g - 1, Returning)]));
    longer := RunStepTo(s, longer, fewer.(threads := ts[t := Thread(g - 1, Returning)]), Return(t),
                        fewer.(threads := ts[t := Thread(g - 1, Running)]));
    hide Enabled, Next;
    assert longer == run + [Exit(t), Return(t)];
  }

  /** The last guard is given up by notifying, if the mutex is free; a sleeping uninstall wakes. */
  lemma CanLeaveLast(s: System, run: seq<Action>, t: nat)
    requires Possible(s, run) && After(s, run).numActive == 1 && After(s, run).condMutex == Free
    requires t < |After(s, run).threads| && After(s, run).threads[t] == Thread(1, Running)
    ensures var now, longer := After(s, run), run + [Exit(t), Lock(t), Notify(t), Unlock(t), Return(t)];
            && Possible(s, longer)
            && After(s, longer)
               == System(0, Free, now.threads[t := Thread(0, Running)],
                         if now.uninstaller == Asleep then Waking else now.uninstaller)
  {
    hide Possible, After;
    var now := After(s, run);
    var ts := now.threads;
    var woken := if now.uninstaller == Asleep then Waking else now.uninstaller;
    var r := RunStepTo(s, run, now, Exit(t), System(0, Free, ts[t := Thread(0, MustNotify)], now.uninstaller));
    r := RunStepTo(s, r, System(0, Free, ts[t := Thread(0, MustNotify)], now.uninstaller), Lock(t),
                   System(0, HeldByThread(t), ts[t := Thread(0, Notifying)], now.uninstaller));
    r := RunStepTo(s, r, System(0, HeldByThread(t), ts[t := Thread(0, Notifying)], now.uninstaller), Notify(t),
                   System(0, HeldByThread(t), ts[t := Thread(0, Notified)], woken));
    r := RunStepTo(s, r, System(0, HeldByThread(t), ts[t := Thread(0, Notified)], woken), Unlock(t),
                   System(0, Free, ts[t := Thread(0, Returning)], woken));
    r := RunStepTo(s, r, System(0, Free, ts[t := Thread(0, Returning)], woken), Return(t),
                   System(0, Free, ts[t := Thread(0, Running)], woken));
    hide Enabled, Next;
    assert r == run + [Exit(t), Lock(t), Notify(t), Unlock(t), Return(t)];
  }

  /** The hook can be installed and its bytes restored at any moment, whoever is in it. */
  lemma CanAlwaysSwitch(s: System, run: seq<Action>)
    requires Possible(s, run)
    ensures After(s, run).uninstaller == Returned ==>
              Possible(s, run + [Install]) && After(s, run + [Install]) == After(s, run).(uninstaller := Installed)
    ensures After(s, run).uninstaller == Installed ==>
              Possible(s, run + [Restore]) && After(s, run + [Restore]) == After(s, run).(uninstaller := Restored)
  {
    hide Possible, After;
    if After(s, run).uninstaller == Returned { RunStep(s, run, Install); }
    if After(s, run).uninstaller == Installed { RunStep(s, run, Restore); }
  }

  /** A spurious wakeup while calls are active can happen, and leads back to sleep. */
  lemma SpuriousWakeupIsHarmless(s: System, run: seq<Action>)
    requires Possible(s, run) && After(s, run).uninstaller == Asleep
    requires After(s, run).condMutex == Free && After(s, run).numActive > 0
    ensures var longer := run + [WakeSpuriously, LockWait, Test, Park];
            Possible(s, longer) && After(s, longer) == After(s, run)
  {
    hide Possible, After;
    var now := After(s, run);
    var longer := RunStepTo(s, run, now, WakeSpuriously, now.(uninstaller := Waking));
    longer := RunStepTo(s, longer, now.(uninstaller := Waking), LockWait,
                        now.(uninstaller := Testing, condMutex := HeldByUninstaller));
    longer := RunStepTo(s, longer, now.(uninstaller := Testing, condMutex := HeldByUninstaller), Test,
                        now.(uninstaller := Parking, condMutex := HeldByUninstaller));
    longer := RunStepTo(s, longer, now.(uninstaller := Parking, condMutex := HeldByUninstaller), Park, now);
    hide Enabled, Next;
    assert longer == run + [WakeSpuriously, LockWait, Test, Park];
  }

  /**
   * A thread cannot move exactly when it is out of the hook and the hook is not installed, or when
   * it waits for the mutex while somebody holds it.
   */
  lemma ThreadStandsExactlyWhen(s: System, t: nat)
    requires t < |s.threads|
    ensures (forall a | IsBy(a, t) :: !Enabled(s, a))
       <==> (s.threads[t] == Thread(0, Running) && s.uninstaller != Installed)
            || (s.threads[t].pc == MustNotify && s.condMutex != Free)
  {
    var a := match s.threads[t].pc
      case Running => if s.threads[t].guards > 0 then Exit(t) else Call(t)
      case Jumped => Enter(t)
      case MustNotify => Lock(t)
      case Notifying => Notify(t)
      case Notified => Unlock(t)
      case Returning => Return(t);
    assert IsBy(a, t);
  }

  // ----- every combination of depths

  /** Thread `t` is `depths[t]` calls deep in the hook. */
  function AtDepths(depths: seq<nat>): (threads: seq<Thread>)
    ensures |threads| == |depths|
    ensures forall t: nat | t < |depths| :: threads[t] == Thread(depths[t], Running)
  {
    seq(|depths|, t requires 0 <= t < |depths| => Thread(depths[t], Running))
  }

  function Sum(depths: seq<nat>): nat {
    if depths == [] then 0 else depths[0] + Sum(depths[1..])
  }

  function Zeros(n: nat): (depths: seq<nat>)
    ensures |depths| == n && forall t: nat | t < n :: depths[t] == 0
  {
    seq(n, _ => 0)
  }

  lemma {:induction false} SumUpdate(depths: seq<nat>, t: nat, d: nat)
    requires t < |depths|
    ensures Sum(depths[t := d]) == Sum(depths) - depths[t] + d
  {
    if t > 0 {
      SumUpdate(depths[1..], t - 1, d);
      assert depths[t := d][1..] == depths[1..][t - 1 := d];
    } else {
      assert depths[t := d][1..] == depths[1..];
    }
  }

  lemma {:induction false} SumZero(depths: seq<nat>)
    ensures Sum(depths) == 0 <==> depths == Zeros(|depths|)
  {
    if depths != [] {
      SumZero(depths[1..]);
      if Sum(depths) == 0 {
        forall t: nat | t < |depths| ensures depths[t] == 0 {
          if t > 0 { assert depths[1..][t - 1] == Zeros(|depths| - 1)[t - 1]; }
        }
      }
      assert depths == Zeros(|depths|) ==> depths[1..] == Zeros(|depths| - 1) && depths[0] == 0;
    }
  }

  /** `n` threads that have called nothing. */
  function Idle(n: nat): System {
    System(0, Free, AtDepths(Zeros(n)), Returned)
  }

  /** `n` threads, thread `t` being `depths[t]` calls deep, with the uninstaller at `u`. */
  function Deep(depths: seq<nat>, u: Uninstaller): System {
    System(Sum(depths), Free, AtDepths(depths), u)
  }

  lemma OneDeeper(s: System, run: seq<Action>, depths: seq<nat>, t: nat) returns (longer: seq<Action>)
    requires t < |depths| && Possible(s, run) && After(s, run) == Deep(depths, Installed)
    ensures Possible(s, longer) && After(s, longer) == Deep(depths[t := depths[t] + 1], Installed)
  {
    longer := run + [Call(t), Enter(t)];
    CanAlwaysEnter(s, run, t);
    hide Possible, After;
    SumUpdate(depths, t, depths[t] + 1);
    assert AtDepths(depths)[t := Thread(depths[t] + 1, Running)] == AtDepths(depths[t := depths[t] + 1]);
  }

  lemma InstallOnly(n: nat) returns (run: seq<Action>)
    ensures Possible(Idle(n), run) && After(Idle(n), run) == Deep(Zeros(n), Installed)
  {
    EmptyRun(Idle(n));
    SumZero(Zeros(n));
    run := RunStepTo(Idle(n), [], Idle(n), Install, Deep(Zeros(n), Installed));
  }

  /** Every combination of depths is reached by some run. */
  lemma {:induction false} EveryDepthIsReached(depths: seq<nat>) returns (run: seq<Action>)
    ensures Initial(Idle(|depths|)) && Possible(Idle(|depths|), run)
    ensures After(Idle(|depths|), run) == Deep(depths, Installed)
    decreases Sum(depths)
  {
    hide Possible, After, Enabled, Next;
    var s := Idle(|depths|);
    SumZero(depths);
    if Sum(depths) == 0 {
      run := InstallOnly(|depths|);
    } else {
      var t: nat :| t < |depths| && depths[t] > 0;
      var fewer := depths[t := depths[t] - 1];
      SumUpdate(depths, t, depths[t] - 1);
      var shorter := EveryDepthIsReached(fewer);
      run := OneDeeper(s, shorter, fewer, t);
      assert fewer[t := fewer[t] + 1] == depths;
    }
  }

  /** Only threads that are in the hook move, and only outwards. */
  predicate OnlyLeaving(run: seq<Action>) {
    forall a | a in run :: a.Exit? || a.Lock? || a.Notify? || a.Unlock? || a.Return?
  }

  /** From every combination of depths all threads can leave, and a sleeping uninstall is woken. */
  lemma {:induction false} EveryDepthIsLeft(s: System, run: seq<Action>, depths: seq<nat>, u: Uninstaller)
    returns (out: seq<Action>)
    requires Possible(s, run) && After(s, run) == Deep(depths, u) && Sum(depths) > 0
    ensures OnlyLeaving(out) && Possible(s, run + out)
    ensures After(s, run + out) == Deep(Zeros(|depths|), if u == Asleep then Waking else u)
    decreases Sum(depths)
  {
    hide Possible, After, Enabled, Next;
    SumZero(depths);
    var t: nat :| t < |depths| && depths[t] > 0;
    var fewer := depths[t := depths[t] - 1];
    SumUpdate(depths, t, depths[t] - 1);
    assert AtDepths(depths)[t := Thread(depths[t] - 1, Running)] == AtDepths(fewer);
    SumUpdate(depths, t, 0);
    if Sum(depths) == 1 {
      CanLeaveLast(s, run, t);
      out := [Exit(t), Lock(t), Notify(t), Unlock(t), Return(t)];
      SumZero(fewer);
    } else {
      CanAlwaysLeave(s, run, t);
      var first := [Exit(t), Return(t)];
      var rest := EveryDepthIsLeft(s, run + first, fewer, u);
      out := first + rest;
      assert run + first + rest == run + out;
    }
  }

  /**
   * Recursion happens at every depth: some run leads a thread from outside the hook to `n` nested
   * calls, with the counter at `n`, and on from there, without another call, out of all of them.
   */
  lemma RecursionAtEveryDepth(n: nat) returns (run: seq<Action>, out: seq<Action>)
    ensures Initial(Idle(1)) && Possible(Idle(1), run) && OnlyLeaving(out) && Possible(Idle(1), run + out)
    ensures After(Idle(1), run) == System(n, Free, [Thread(n, Running)], Installed)
    ensures After(Idle(1), run + out) == System(0, Free, [Thread(0, Running)], Installed)
  {
    hide Possible, After;
    run := EveryDepthIsReached([n]);
    assert Sum([n]) == n + Sum([]);
    assert AtDepths([n]) == [Thread(n, Running)] && AtDepths([0]) == [Thread(0, Running)];
    assert Zeros(1) == [0];
    out := [];
    if n > 0 {
      out := EveryDepthIsLeft(Idle(1), run, [n], Installed);
      SumZero([0]);
    } else {
      assert run + out == run;
    }
  }

  lemma FallsAsleep(s: System, run: seq<Action>, depths: seq<nat>) returns (longer: seq<Action>)
    requires Possible(s, run) && After(s, run) == Deep(depths, Installed) && Sum(depths) > 0
    ensures longer == run + [Restore, Check, LockWait, Test, Park] && Possible(s, longer)
    ensures After(s, longer) == Deep(depths, Asleep)
  {
    hide Possible, After, AtDepths, Sum;
    var d := Deep(depths, Asleep);
    longer := RunStepTo(s, run, Deep(depths, Installed), Restore, Deep(depths, Restored));
    longer := RunStepTo(s, longer, Deep(depths, Restored), Check, Deep(depths, Locking));
    longer := RunStepTo(s, longer, Deep(depths, Locking), LockWait,
                        d.(uninstaller := Testing, condMutex := HeldByUninstaller));
    longer := RunStepTo(s, longer, d.(uninstaller := Testing, condMutex := HeldByUninstaller), Test,
                        d.(uninstaller := Parking, condMutex := HeldByUninstaller));
    longer := RunStepTo(s, longer, d.(uninstaller := Parking, condMutex := HeldByUninstaller), Park, d);
    hide Enabled, Next;
    assert longer == run + [Restore, Check, LockWait, Test, Park];
  }

  lemma WakesUp(s: System, run: seq<Action>, n: nat) returns (longer: seq<Action>)
    requires Possible(s, run) && After(s, run) == Deep(Zeros(n), Waking)
    ensures longer == run + [LockWait, Test, Leave] && Possible(s, longer) && After(s, longer) == Idle(n)
  {
    hide Possible, After, AtDepths;
    SumZero(Zeros(n));
    hide Sum;
    var d := Idle(n);
    longer := RunStepTo(s, run, Deep(Zeros(n), Waking), LockWait,
                        d.(uninstaller := Testing, condMutex := HeldByUninstaller));
    longer := RunStepTo(s, longer, d.(uninstaller := Testing, condMutex := HeldByUninstaller), Test,
                        d.(uninstaller := Leaving, condMutex := HeldByUninstaller));
    longer := RunStepTo(s, longer, d.(uninstaller := Leaving, condMutex := HeldByUninstaller), Leave, d);
    hide Enabled, Next;
    assert longer == run + [LockWait, Test, Leave];
  }

  /**
   * Uninstall waits as it should: from every combination of depths some run lets it fall asleep,
   * then all threads leave, the last one wakes it, and it returns with nobody in the hook.
   */
  lemma UninstallSleepsAndReturns(depths: seq<nat>) returns (before: seq<Action>, out: seq<Action>)
    requires Sum(depths) > 0
    ensures var s := Idle(|depths|);
            var asleep := before + [Restore, Check, LockWait, Test, Park];
            && Initial(s) && Possible(s, asleep) && After(s, asleep) == Deep(depths, Asleep)
            && OnlyLeaving(out) && Possible(s, asleep + out + [LockWait, Test, Leave])
            && After(s, asleep + out + [LockWait, Test, Leave]) == s
  {
    hide Possible, After, Enabled, Next, Deep, Idle;
    before := EveryDepthIsReached(depths);
    var asleep := FallsAsleep(Idle(|depths|), before, depths);
    out := EveryDepthIsLeft(Idle(|depths|), asleep, depths, Asleep);
    var all := WakesUp(Idle(|depths|), asleep + out, |depths|);
  }
}

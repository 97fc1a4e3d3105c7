/**
 * `AtomicCallGate` and blocking uninstall, as threads taking atomic steps in any order.
 * Every thread may call the hooked function, and from inside the detour call it again.
 */
module Gates {
  /** Where a thread is. Its live ScopeGuards are counted apart. */
  datatype Pc =
    | Running     // in the detour's body or the original if it has a guard, else out of the hook
    | Jumped      // has taken the patched jump, has not run on_enter_call yet
    | MustNotify  // has decremented the counter to zero, has not locked cond_mutex yet
    | Notifying   // holds cond_mutex, has not called notify_all yet
    | Notified    // holds cond_mutex, about to release it
    | Returning   // its guard is gone; the rest of on_exit_call and of the detour is to be run

  datatype Thread = Thread(guards: nat, pc: Pc)

  datatype Uninstaller =
    | Installed   // the patch is in place
    | Restored    // the original bytes are back; about to read num_active()
    | Locking     // num_active() was positive; about to lock cond_mutex in wait()
    | Testing     // holds cond_mutex, about to evaluate the predicate
    | Parking     // the predicate was false; about to release cond_mutex and sleep
    | Asleep
    | Waking      // notified, or woken spuriously; about to lock cond_mutex again
    | Leaving     // the predicate was true; about to release cond_mutex
    | Returned    // uninstall is over

  datatype Holder = Free | HeldByThread(t: nat) | HeldByUninstaller

  datatype System = System(
    numActive: int,      // num_active_calls
    condMutex: Holder,   // cond_mutex
    threads: seq<Thread>,
    uninstaller: Uninstaller)

  datatype Action =
    | Call(t: nat) | Enter(t: nat) | Exit(t: nat)
    | Lock(t: nat) | Notify(t: nat) | Unlock(t: nat) | Return(t: nat)
    | Install | Restore | Check | LockWait | Test | Park | WakeSpuriously | Leave

  predicate At(s: System, t: nat, pc: Pc) {
    t < |s.threads| && s.threads[t].pc == pc
  }

  predicate Enabled(s: System, a: Action) {
    match a
    case Call(t) => At(s, t, Running) && s.uninstaller == Installed
    case Enter(t) => At(s, t, Jumped)
    case Exit(t) => At(s, t, Running) && s.threads[t].guards > 0
    case Lock(t) => At(s, t, MustNotify) && s.condMutex == Free
    case Notify(t) => At(s, t, Notifying)
    case Unlock(t) => At(s, t, Notified)
    case Return(t) => At(s, t, Returning)
    case Install => s.uninstaller == Returned
    case Restore => s.uninstaller == Installed
    case Check => s.uninstaller == Restored
    case LockWait => s.uninstaller in {Locking, Waking} && s.condMutex == Free
    case Test => s.uninstaller == Testing
    case Park => s.uninstaller == Parking
    case WakeSpuriously => s.uninstaller == Asleep
    case Leave => s.uninstaller == Leaving
  }

  function SetThread(s: System, t: nat, guards: nat, pc: Pc): System
    requires t < |s.threads|
  {
    s.(threads := s.threads[t := Thread(guards, pc)])
  }

  function Next(s: System, a: Action): System
    requires Enabled(s, a)
  {
    match a
    case Call(t) => SetThread(s, t, s.threads[t].guards, Jumped)
    case Enter(t) => SetThread(s, t, s.threads[t].guards + 1, Running).(numActive := s.numActive + 1)
    case Exit(t) =>
      var remaining := s.numActive - 1;
      SetThread(s, t, s.threads[t].guards - 1, if remaining == 0 then MustNotify else Returning)
        .(numActive := remaining)
    case Lock(t) => SetThread(s, t, s.threads[t].guards, Notifying).(condMutex := HeldByThread(t))
    case Notify(t) =>
      SetThread(s, t, s.threads[t].guards, Notified)
        .(uninstaller := if s.uninstaller == Asleep then Waking else s.uninstaller)
    case Unlock(t) => SetThread(s, t, s.threads[t].guards, Returning).(condMutex := Free)
    case Return(t) => SetThread(s, t, s.threads[t].guards, Running)
    case Install => s.(uninstaller := Installed)
    case Restore => s.(uninstaller := Restored)
    case Check => s.(uninstaller := if s.numActive > 0 then Locking else Returned)
    case LockWait => s.(uninstaller := Testing, condMutex := HeldByUninstaller)
    case Test => s.(uninstaller := if s.numActive == 0 then Leaving else Parking)
    case Park => s.(uninstaller := Asleep, condMutex := Free)
    case WakeSpuriously => s.(uninstaller := Waking)
    case Leave => s.(uninstaller := Returned, condMutex := Free)
  }

  /** Every action of `run` is enabled when its turn comes. */
  predicate Possible(s: System, run: seq<Action>)
    decreases run
  {
    run == [] || (Enabled(s, run[0]) && Possible(Next(s, run[0]), run[1..]))
  }

  function After(s: System, run: seq<Action>): System
    requires Possible(s, run)
    decreases run
  {
    if run == [] then s else After(Next(s, run[0]), run[1..])
  }

  /** Nobody has called anything and the hook is not installed. */
  predicate Initial(s: System) {
    && s.numActive == 0 && s.condMutex == Free && s.uninstaller == Returned
    && forall t: nat | t < |s.threads| :: s.threads[t] == Thread(0, Running)
  }

  /** The live ScopeGuards of all threads. */
  function LiveGuards(threads: seq<Thread>): nat {
    if threads == [] then 0 else threads[0].guards + LiveGuards(threads[1..])
  }

  /** Some thread has decremented the counter to zero and has not notified yet. */
  ghost predicate NotificationPending(s: System) {
    exists t: nat :: At(s, t, MustNotify) || At(s, t, Notifying)
  }

  ghost predicate Conserved(s: System) {
    s.numActive == LiveGuards(s.threads)
  }

  ghost predicate MutexOwned(s: System) {
    && (forall t: nat {:trigger s.threads[t]} | t < |s.threads| ::
          s.threads[t].pc in {Notifying, Notified} <==> s.condMutex == HeldByThread(t))
    && (s.condMutex.HeldByThread? ==> s.condMutex.t < |s.threads|)
    && (s.uninstaller in {Testing, Parking, Leaving} <==> s.condMutex == HeldByUninstaller)
  }

  /** A waiter that sleeps, or is about to, while the counter is zero will be notified. */
  ghost predicate NoLostWakeup(s: System) {
    s.uninstaller in {Parking, Asleep} && s.numActive == 0 ==> NotificationPending(s)
  }

  /** Has decremented the counter to zero, and is not done with the mutex. */
  predicate IsLeaving(pc: Pc) {
    pc in {MustNotify, Notifying, Notified}
  }

  /** A thread that is to notify has no guard left. */
  ghost predicate LeavingHasNoGuard(s: System) {
    forall t: nat {:trigger s.threads[t]} | t < |s.threads| :: IsLeaving(s.threads[t].pc) ==> s.threads[t].guards == 0
  }

  ghost predicate Inv(s: System) {
    Conserved(s) && MutexOwned(s) && NoLostWakeup(s) && LeavingHasNoGuard(s)
  }

  // ----- the invariant, over every run

  lemma {:induction false} LiveGuardsUpdate(threads: seq<Thread>, t: nat, th: Thread)
    requires t < |threads|
    ensures LiveGuards(threads[t := th]) == LiveGuards(threads) - threads[t].guards + th.guards
    ensures LiveGuards(threads) >= threads[t].guards
  {
    if t > 0 {
      LiveGuardsUpdate(threads[1..], t - 1, th);
      assert threads[t := th][1..] == threads[1..][t - 1 := th];
    } else {
      assert threads[t := th][1..] == threads[1..];
    }
  }

  lemma {:induction false} NoLiveGuards(threads: seq<Thread>)
    ensures LiveGuards(threads) == 0 <==> forall t: nat | t < |threads| :: threads[t].guards == 0
  {
    if threads != [] {
      NoLiveGuards(threads[1..]);
      assert forall t: nat | 0 < t < |threads| :: threads[t] == threads[1..][t - 1];
    }
  }

  lemma NextConserves(s: System, a: Action)
    requires Conserved(s) && Enabled(s, a)
    ensures Conserved(Next(s, a))
  {
    match a {
      case Call(t) => LiveGuardsUpdate(s.threads, t, Next(s, a).threads[t]);
      case Enter(t) => LiveGuardsUpdate(s.threads, t, Next(s, a).threads[t]);
      case Exit(t) => LiveGuardsUpdate(s.threads, t, Next(s, a).threads[t]);
      case Lock(t) => LiveGuardsUpdate(s.threads, t, Next(s, a).threads[t]);
      case Notify(t) => LiveGuardsUpdate(s.threads, t, Next(s, a).threads[t]);
      case Unlock(t) => LiveGuardsUpdate(s.threads, t, Next(s, a).threads[t]);
      case Return(t) => LiveGuardsUpdate(s.threads, t, Next(s, a).threads[t]);
      case _ =>
    }
  }

  lemma NextKeepsWakeup(s: System, a: Action)
    requires Inv(s) && Enabled(s, a)
    ensures NoLostWakeup(Next(s, a))
  {
    var s' := Next(s, a);
    if s'.uninstaller in {Parking, Asleep} && s'.numActive == 0 {
      if a.Exit? {
        assert At(s', a.t, MustNotify);
      } else if s.numActive == 0 {
        var t: nat :| At(s, t, MustNotify) || At(s, t, Notifying);
        assert At(s', t, MustNotify) || At(s', t, Notifying);
      }
    }
  }

  lemma NextKeepsNoGuard(s: System, a: Action)
    requires Inv(s) && Enabled(s, a)
    ensures LeavingHasNoGuard(Next(s, a))
  {
    if a.Exit? {
      NextConserves(s, a);
      LiveGuardsUpdate(Next(s, a).threads, a.t, Next(s, a).threads[a.t]);
    }
  }

  lemma NextKeepsInv(s: System, a: Action)
    requires Inv(s) && Enabled(s, a)
    ensures Inv(Next(s, a))
  {
    NextConserves(s, a);
    NextKeepsWakeup(s, a);
    NextKeepsNoGuard(s, a);
    hide LiveGuards;
  }

  lemma {:induction false} RunKeepsInv(s: System, run: seq<Action>)
    requires Inv(s) && Possible(s, run)
    ensures Inv(After(s, run))
    decreases run
  {
    if run != [] {
      NextKeepsInv(s, run[0]);
      RunKeepsInv(Next(s, run[0]), run[1..]);
    }
  }

  /**
   * In every reachable state the counter is the number of live guards, so it never underflows
   * and reads zero exactly when no guard is live; and no wakeup is ever lost.
   */
  lemma Reachable(s: System, run: seq<Action>)
    requires Initial(s) && Possible(s, run)
    ensures var s' := After(s, run);
            && s'.numActive == LiveGuards(s'.threads) >= 0
            && (s'.numActive == 0 <==> forall t: nat | t < |s'.threads| :: s'.threads[t].guards == 0)
            && (s'.uninstaller == Asleep && s'.numActive == 0 ==> NotificationPending(s'))
            && Inv(s')
  {
    NoLiveGuards(s.threads);
    RunKeepsInv(s, run);
    NoLiveGuards(After(s, run).threads);
  }

  // ----- uninstall returns

  /** The original bytes are back and uninstall has not returned. */
  predicate Uninstalling(s: System) {
    s.uninstaller !in {Installed, Returned}
  }

  ghost predicate NobodyJumped(s: System) {
    forall t: nat {:trigger s.threads[t]} | t < |s.threads| :: s.threads[t].pc != Jumped
  }

  /** No guard is live and none is on its way. */
  ghost predicate Drained(s: System) {
    Inv(s) && Uninstalling(s) && s.numActive == 0 && NobodyJumped(s)
  }

  function ThreadRank(th: Thread): nat {
    match th.pc
    case MustNotify => 4
    case Notifying => 3
    case Notified => 2
    case Returning => 1
    case Running | Jumped => 0
  }

  function Total(weight: Thread -> nat, threads: seq<Thread>): nat {
    if threads == [] then 0 else weight(threads[0]) + Total(weight, threads[1..])
  }

  lemma {:induction false} TotalUpdate(weight: Thread -> nat, threads: seq<Thread>, t: nat, th: Thread)
    requires t < |threads|
    ensures Total(weight, threads[t := th]) == Total(weight, threads) - weight(threads[t]) + weight(th)
  {
    if t > 0 {
      TotalUpdate(weight, threads[1..], t - 1, th);
      assert threads[t := th][1..] == threads[1..][t - 1 := th];
    } else {
      assert threads[t := th][1..] == threads[1..];
    }
  }

  /** A bound on the steps that are left until uninstall returns, once drained. */
  function Rank(s: System): nat {
    Total(ThreadRank, s.threads) +
    match s.uninstaller
    case Parking => 5
    case Asleep => 4
    case Locking | Waking => 3
    case Testing => 2
    case Restored | Leaving => 1
    case Installed | Returned => 0
  }

  lemma DrainedStep(s: System, a: Action)
    requires Drained(s) && Enabled(s, a)
    ensures Rank(Next(s, a)) < Rank(s)
    ensures Next(s, a).uninstaller == Returned || Drained(Next(s, a))
  {
    NoLiveGuards(s.threads);
    NextKeepsInv(s, a);
    assert !a.Call? && !a.Enter? && !a.Exit?;
    hide Inv, LiveGuards;
    if a.Lock? || a.Notify? || a.Unlock? || a.Return? {
      TotalUpdate(ThreadRank, s.threads, a.t, Next(s, a).threads[a.t]);
    }
  }

  /** Some thread that has a guard, or is on its way out, can take a step. */
  lemma ThreadCanStep(s: System, t: nat)
    requires Inv(s) && s.condMutex != HeldByUninstaller && t < |s.threads|
    requires s.threads[t].guards > 0 || IsLeaving(s.threads[t].pc)
    ensures exists a :: Enabled(s, a) && a != WakeSpuriously
  {
    if s.condMutex.HeldByThread? {
      var u := s.condMutex.t;
      assert s.threads[u].pc in {Notifying, Notified};
      assert Enabled(s, if s.threads[u].pc == Notifying then Notify(u) else Unlock(u));
    } else {
      match s.threads[t].pc {
        case Running => assert Enabled(s, Exit(t));
        case Jumped => assert Enabled(s, Enter(t));
        case Returning => assert Enabled(s, Return(t));
        case MustNotify => assert Enabled(s, Lock(t));
        case _ =>
      }
    }
  }

  /** While uninstall has not returned something can happen, even without spurious wakeups. */
  lemma NeverStuck(s: System)
    requires Inv(s) && Uninstalling(s)
    ensures exists a :: Enabled(s, a) && a != WakeSpuriously
  {
    match s.uninstaller {
      case Restored => assert Enabled(s, Check);
      case Testing => assert Enabled(s, Test);
      case Parking => assert Enabled(s, Park);
      case Leaving => assert Enabled(s, Leave);
      case Asleep =>
        NoLiveGuards(s.threads);
        var t: nat :| t < |s.threads| && (s.threads[t].guards > 0 || IsLeaving(s.threads[t].pc));
        ThreadCanStep(s, t);
      case Locking | Waking =>
        if s.condMutex.HeldByThread? {
          ThreadCanStep(s, s.condMutex.t);
        } else {
          assert Enabled(s, LockWait);
        }
    }
  }

  /** Uninstall has not returned before any of the actions. */
  predicate StaysUninstalling(s: System, run: seq<Action>)
    requires Possible(s, run)
    decreases run
  {
    run == [] || (Uninstalling(s) && StaysUninstalling(Next(s, run[0]), run[1..]))
  }

  /**
   * Once no guard is live and none is on its way, uninstall returns: whatever the scheduler
   * does, at most `Rank(s)` steps are possible before it has returned, and until then there
   * always is one.
   */
  lemma {:induction false} UninstallReturns(s: System, run: seq<Action>)
    requires Drained(s) && Possible(s, run) && StaysUninstalling(s, run)
    ensures |run| <= Rank(s)
    ensures Uninstalling(After(s, run)) ==> exists a :: Enabled(After(s, run), a) && a != WakeSpuriously
    decreases run
  {
    if run == [] {
      NeverStuck(s);
    } else {
      var s' := Next(s, run[0]);
      DrainedStep(s, run[0]);
      if s'.uninstaller == Returned {
        assert run[1..] == [] && After(s', []) == s' && After(s, run) == s';
      } else {
        UninstallReturns(s', run[1..]);
      }
    }
  }

  // ----- uninstall returns, however many calls are active

  function ThreadWork(th: Thread): nat {
    12 * th.guards +
    match th.pc
    case Jumped => 14
    case MustNotify => 11
    case Notifying => 10
    case Notified => 2
    case Returning => 1
    case Running => 0
  }

  /** A bound on the steps until uninstall returns, spurious wakeups not counted. */
  function Work(s: System): nat {
    Total(ThreadWork, s.threads) +
    match s.uninstaller
    case Restored => 6
    case Locking => 5
    case Waking => 4
    case Testing => 3
    case Parking => 2
    case Asleep | Leaving => 1
    case Installed | Returned => 0
  }

  function SpuriousWakeups(run: seq<Action>): nat {
    if run == [] then 0 else (if run[0] == WakeSpuriously then 1 else 0) + SpuriousWakeups(run[1..])
  }

  lemma ThreadDoesWork(s: System, a: Action)
    requires LeavingHasNoGuard(s) && Enabled(s, a) && Uninstalling(s)
    requires a.Enter? || a.Exit? || a.Lock? || a.Notify? || a.Unlock? || a.Return?
    ensures Work(Next(s, a)) < Work(s)
  {
    TotalUpdate(ThreadWork, s.threads, a.t, Next(s, a).threads[a.t]);
  }

  lemma StepDoesWork(s: System, a: Action)
    requires Inv(s) && Uninstalling(s) && Enabled(s, a)
    ensures Work(Next(s, a)) < Work(s) + if a == WakeSpuriously then 4 else 0
    ensures Inv(Next(s, a)) && (Uninstalling(Next(s, a)) || Next(s, a).uninstaller == Returned)
  {
    NextKeepsInv(s, a);
    if a.Enter? || a.Exit? || a.Lock? || a.Notify? || a.Unlock? || a.Return? {
      ThreadDoesWork(s, a);
    }
    hide Inv, Total;
  }

  /**
   * From every reachable state in which uninstall is under way: whatever the scheduler does,
   * only `Work(s)` steps and four for each spurious wakeup are possible before uninstall has
   * returned, and until then there always is one. So if calls leave the detour, it returns.
   */
  lemma {:induction false} UninstallTerminates(s: System, run: seq<Action>)
    requires Inv(s) && Possible(s, run) && Uninstalling(s) && StaysUninstalling(s, run)
    ensures |run| <= Work(s) + 4 * SpuriousWakeups(run)
    ensures Uninstalling(After(s, run)) ==> exists a :: Enabled(After(s, run), a) && a != WakeSpuriously
    decreases run
  {
    if run == [] {
      NeverStuck(s);
    } else {
      var s' := Next(s, run[0]);
      StepDoesWork(s, run[0]);
      if s'.uninstaller == Returned {
        assert run[1..] == [] && After(s', []) == s' && After(s, run) == s';
      } else {
        UninstallTerminates(s', run[1..]);
      }
    }
  }

  predicate IsBy(a: Action, t: nat) {
    && (a.Call? || a.Enter? || a.Exit? || a.Lock? || a.Notify? || a.Unlock? || a.Return?)
    && a.t == t
  }

  /** No action of `run` is thread `t`'s. */
  predicate NotBy(t: nat, run: seq<Action>) {
    forall a | a in run :: !IsBy(a, t)
  }

  /**
   * A guard that is never given up keeps uninstall from returning: so does the guard of the
   * uninstalling thread itself, when uninstall is called from inside the detour.
   */
  lemma {:induction false} HeldGuardBlocks(s: System, t: nat, run: seq<Action>)
    requires Inv(s) && Uninstalling(s) && s.uninstaller != Leaving
    requires t < |s.threads| && s.threads[t].guards > 0
    requires Possible(s, run) && NotBy(t, run)
    ensures Uninstalling(After(s, run))
    decreases run
  {
    if run != [] {
      NoLiveGuards(s.threads);
      NextKeepsInv(s, run[0]);
      assert run[0] in run;
      HeldGuardBlocks(Next(s, run[0]), t, run[1..]);
    }
  }

  // ----- what is true when it has returned

  /** The next load of the counter will let uninstall return. */
  predicate SeesZero(s: System) {
    s.numActive == 0 && s.uninstaller in {Restored, Testing}
  }

  /** Between the bytes being restored and uninstall returning, the counter was seen zero. */
  lemma {:induction false} ReturnsOnlyAfterZero(s: System, run: seq<Action>) returns (k: nat)
    requires Inv(s) && Uninstalling(s) && s.uninstaller != Leaving
    requires Possible(s, run) && After(s, run).uninstaller == Returned
    ensures k < |run| && Possible(s, run[..k]) && SeesZero(After(s, run[..k]))
    ensures Possible(After(s, run[..k]), run[k..])
    ensures After(After(s, run[..k]), run[k..]) == After(s, run)
    decreases run
  {
    if SeesZero(s) {
      k := 0;
      assert run[..0] == [] && run[0..] == run;
    } else {
      var s' := Next(s, run[0]);
      NextKeepsInv(s, run[0]);
      var k' := ReturnsOnlyAfterZero(s', run[1..]);
      k := k' + 1;
      assert run[..k][1..] == run[1..][..k'] && run[k..] == run[1..][k'..];
    }
  }

  /** From `z` on, only threads that had already jumped can have, or get, a guard. */
  ghost predicate OnlyJumpedEnter(z: System, s: System) {
    && |s.threads| == |z.threads|
    && s.uninstaller != Installed
    && forall t: nat {:trigger s.threads[t]} | t < |s.threads| ::
         if s.threads[t].guards > 0 || s.threads[t].pc == Jumped
         then z.threads[t].pc == Jumped && s.threads[t].guards + (if s.threads[t].pc == Jumped then 1 else 0) == 1
         else true
  }

  lemma {:induction false} StaysOnlyJumped(z: System, s: System, run: seq<Action>)
    requires OnlyJumpedEnter(z, s) && Possible(s, run) && Install !in run
    ensures OnlyJumpedEnter(z, After(s, run))
    decreases run
  {
    if run != [] {
      StaysOnlyJumped(z, Next(s, run[0]), run[1..]);
    }
  }

  /** After `k` actions of `run` the counter is zero, and bounds who has a guard in `now`. */
  ghost predicate ZeroInstant(s: System, run: seq<Action>, k: nat, now: System) {
    && k < |run| && Possible(s, run[..k])
    && var z := After(s, run[..k]);
       && z.numActive == 0 && Uninstalling(z) && |now.threads| == |z.threads|
       && forall t: nat {:trigger now.threads[t]} | t < |now.threads| ::
            now.threads[t].guards > 0 || now.threads[t].pc == Jumped ==>
              z.threads[t].pc == Jumped && now.threads[t].guards <= 1
  }

  /**
   * Uninstall safety. When uninstall has returned, and for as long as the hook is not installed
   * again, there was an instant after the bytes were restored at which the counter was zero,
   * and a thread that now has a guard had at that instant taken the patched jump without
   * having entered the gate. Each such thread has one guard, and nobody else has any.
   */
  lemma UninstallSafety(s: System, run: seq<Action>, later: seq<Action>)
    requires Inv(s) && s.uninstaller == Restored
    requires Possible(s, run) && Install !in run && After(s, run).uninstaller == Returned
    requires Possible(After(s, run), later) && Install !in later
    ensures exists k: nat :: ZeroInstant(s, run, k, After(After(s, run), later))
  {
    var k := ReturnsOnlyAfterZero(s, run);
    var z := After(s, run[..k]);
    RunKeepsInv(s, run[..k]);
    NoLiveGuards(z.threads);
    StaysOnlyJumped(z, z, run[k..]);
    StaysOnlyJumped(z, After(s, run), later);
    assert ZeroInstant(s, run, k, After(After(s, run), later));
  }

  lemma {:induction false} RunStep(s: System, run: seq<Action>, a: Action)
    requires Possible(s, run) && Enabled(After(s, run), a)
    ensures Possible(s, run + [a]) && After(s, run + [a]) == Next(After(s, run), a)
    decreases run
  {
    if run == [] {
      assert (run + [a])[1..] == [];
    } else {
      RunStep(Next(s, run[0]), run[1..], a);
      assert (run + [a])[1..] == run[1..] + [a];
    }
  }

  /**
   * From the instant the counter is seen zero, no thread holds a guard again, until the hook is
   * installed anew, exactly when no thread had just taken the patched jump.
   */
  lemma SafeExactlyWhenNobodyJumped(z: System)
    requires Inv(z) && SeesZero(z)
    ensures (forall run | Possible(z, run) && Install !in run :: LiveGuards(After(z, run).threads) == 0)
       <==> NobodyJumped(z)
  {
    NoLiveGuards(z.threads);
    if NobodyJumped(z) {
      forall run | Possible(z, run) && Install !in run ensures LiveGuards(After(z, run).threads) == 0 {
        StaysOnlyJumped(z, z, run);
        NoLiveGuards(After(z, run).threads);
      }
    } else {
      var t: nat :| t < |z.threads| && z.threads[t].pc == Jumped;
      var run := [Enter(t)];
      RunStep(z, [], Enter(t));
      assert [] + [Enter(t)] == run;
      var s := After(z, run);
      NoLiveGuards(s.threads);
      assert s.threads[t].guards > 0;
    }
  }

  /** Every thread has left the hook: no guard, and nothing to run in the gate or the detour. */
  ghost predicate EverybodyIsOut(s: System) {
    forall t: nat {:trigger s.threads[t]} | t < |s.threads| :: s.threads[t] == Thread(0, Running)
  }

  lemma {:induction false} OutStaysOut(s: System, run: seq<Action>)
    requires EverybodyIsOut(s) && s.uninstaller != Installed && Possible(s, run) && Install !in run
    ensures EverybodyIsOut(After(s, run))
    decreases run
  {
    if run != [] {
      OutStaysOut(Next(s, run[0]), run[1..]);
    }
  }

  /** Whenever uninstall has returned, every thread has left the hook. */
  ghost predicate ReturnsSafely(s: System) {
    forall run | Possible(s, run) && Install !in run && After(s, run).uninstaller == Returned ::
      EverybodyIsOut(After(s, run))
  }

  /** Uninstall can return from `s` without any thread having taken a step. */
  lemma ReturnsAtOnce(s: System) returns (run: seq<Action>)
    requires SeesZero(s)
    ensures Possible(s, run) && Install !in run
    ensures After(s, run).uninstaller == Returned && After(s, run).threads == s.threads
  {
    if s.uninstaller == Restored {
      RunStep(s, [], Check);
      run := [] + [Check];
    } else {
      RunStep(s, [], Test);
      RunStep(s, [] + [Test], Leave);
      run := [] + [Test] + [Leave];
    }
  }

  /**
   * At the instant the counter is seen zero: no thread is anywhere in the hook when uninstall
   * has returned exactly when none was at that instant. A thread that has jumped and not
   * entered, has decremented and not notified, or has not returned from the detour yet, is in
   * it although the counter is zero.
   */
  lemma SafeExactlyWhenEverybodyIsOut(z: System)
    requires Inv(z) && SeesZero(z)
    ensures ReturnsSafely(z) <==> EverybodyIsOut(z)
  {
    if EverybodyIsOut(z) {
      forall run | Possible(z, run) && Install !in run ensures EverybodyIsOut(After(z, run)) {
        OutStaysOut(z, run);
      }
    } else {
      var run := ReturnsAtOnce(z);
      assert !EverybodyIsOut(After(z, run));
    }
  }

  /** One step nearer to a zero counter, with somebody still in the hook. */
  lemma StepTowardsZero(s: System) returns (a: Action)
    requires Inv(s) && s.uninstaller == Restored && s.numActive > 0
    ensures a != Install && Enabled(s, a)
    ensures Next(s, a).uninstaller == Restored && !EverybodyIsOut(Next(s, a))
  {
    NoLiveGuards(s.threads);
    var t: nat :| t < |s.threads| && s.threads[t].guards > 0;
    a := match s.threads[t].pc
      case Jumped => Enter(t)
      case Returning => Return(t)
      case _ => Exit(t);
    var s' := Next(s, a);
    NextConserves(s, a);
    NoLiveGuards(s'.threads);
    if s'.numActive > 0 {
      var u: nat :| u < |s'.threads| && s'.threads[u].guards > 0;
    } else {
      assert s'.threads[t].pc == MustNotify;
    }
  }

  /** If anybody is in the hook when the bytes are restored, uninstall can return too early. */
  lemma {:induction false} EarlyReturn(s: System) returns (run: seq<Action>)
    requires Inv(s) && s.uninstaller == Restored && !EverybodyIsOut(s)
    ensures Possible(s, run) && Install !in run
    ensures After(s, run).uninstaller == Returned && !EverybodyIsOut(After(s, run))
    decreases Work(s)
  {
    if s.numActive == 0 {
      run := ReturnsAtOnce(s);
    } else {
      var a := StepTowardsZero(s);
      StepDoesWork(s, a);
      var rest := EarlyReturn(Next(s, a));
      run := [a] + rest;
      assert run[1..] == rest;
    }
  }

  /**
   * Blocking uninstall, from the moment the bytes are restored, leaves no thread in the hook
   * under every schedule exactly when no thread was in it at that moment: waiting for the
   * counter never makes up for a thread that was.
   */
  lemma UninstallSafeExactlyWhen(s: System)
    requires Inv(s) && s.uninstaller == Restored
    ensures ReturnsSafely(s) <==> EverybodyIsOut(s)
  {
    if EverybodyIsOut(s) {
      forall run | Possible(s, run) && Install !in run ensures EverybodyIsOut(After(s, run)) {
        OutStaysOut(s, run);
      }
    } else {
      var run := EarlyReturn(s);
      assert !EverybodyIsOut(After(s, run));
    }
  }

  const ONE_IDLE_THREAD := System(0, Free, [Thread(0, Running)], Returned)

  lemma EmptyRun(s: System)
    ensures Possible(s, []) && After(s, []) == s
  {}

  /** One more action, from the known state `s'` to the known state `s''`. */
  lemma RunStepTo(s: System, run: seq<Action>, s': System, a: Action, s'': System) returns (longer: seq<Action>)
    requires Possible(s, run) && After(s, run) == s'
    requires Enabled(s', a) && Next(s', a) == s''
    ensures longer == run + [a] && Possible(s, longer) && After(s, longer) == s''
  {
    RunStep(s, run, a);
    longer := run + [a];
  }

  function OneThread(numActive: int, th: Thread, uninstaller: Uninstaller): System {
    System(numActive, Free, [th], uninstaller)
  }

  /** A run in which one call of the hook has come as far as decrementing the counter. */
  lemma RunToExit() returns (run: seq<Action>)
    ensures run == [Install, Call(0), Enter(0), Exit(0)] && Possible(ONE_IDLE_THREAD, run)
    ensures After(ONE_IDLE_THREAD, run) == OneThread(0, Thread(0, MustNotify), Installed)
  {
    hide Possible, After;
    var s := ONE_IDLE_THREAD;
    EmptyRun(s);
    var s1, s2 := OneThread(0, Thread(0, Running), Installed), OneThread(0, Thread(0, Jumped), Installed);
    var s3, s4 := OneThread(1, Thread(1, Running), Installed), OneThread(0, Thread(0, MustNotify), Installed);
    run := RunStepTo(s, [], s, Install, s1);
    run := RunStepTo(s, run, s1, Call(0), s2);
    run := RunStepTo(s, run, s2, Enter(0), s3);
    run := RunStepTo(s, run, s3, Exit(0), s4);
  }

  /** The first window, reached: uninstall has returned and a thread holds a guard. */
  lemma ReturnedWhileInsideDetour()
    ensures var run := [Install, Call(0), Restore, Check, Enter(0)];
            && Initial(ONE_IDLE_THREAD) && Possible(ONE_IDLE_THREAD, run)
            && After(ONE_IDLE_THREAD, run) == OneThread(1, Thread(1, Running), Returned)
  {
    hide Possible, After;
    var s := ONE_IDLE_THREAD;
    EmptyRun(s);
    var s1, jumped := OneThread(0, Thread(0, Running), Installed), Thread(0, Jumped);
    var run := RunStepTo(s, [], s, Install, s1);
    run := RunStepTo(s, run, s1, Call(0), OneThread(0, jumped, Installed));
    run := RunStepTo(s, run, OneThread(0, jumped, Installed), Restore, OneThread(0, jumped, Restored));
    run := RunStepTo(s, run, OneThread(0, jumped, Restored), Check, OneThread(0, jumped, Returned));
    run := RunStepTo(s, run, OneThread(0, jumped, Returned), Enter(0), OneThread(1, Thread(1, Running), Returned));
    assert run == [Install, Call(0), Restore, Check, Enter(0)];
  }

  /** The second window: uninstall has returned and a thread is still to lock the gate's mutex. */
  lemma ReturnedBeforeNotification()
    ensures var run := [Install, Call(0), Enter(0), Exit(0), Restore, Check];
            && Initial(ONE_IDLE_THREAD) && Possible(ONE_IDLE_THREAD, run)
            && After(ONE_IDLE_THREAD, run) == OneThread(0, Thread(0, MustNotify), Returned)
  {
    hide Possible, After;
    var s, th := ONE_IDLE_THREAD, Thread(0, MustNotify);
    var run := RunToExit();
    run := RunStepTo(s, run, OneThread(0, th, Installed), Restore, OneThread(0, th, Restored));
    run := RunStepTo(s, run, OneThread(0, th, Restored), Check, OneThread(0, th, Returned));
    assert run == [Install, Call(0), Enter(0), Exit(0), Restore, Check];
  }

  /** The third window: uninstall has returned and a thread has yet to return from the detour. */
  lemma ReturnedBeforeReturning()
    ensures var run := [Install, Call(0), Enter(0), Exit(0), Lock(0), Notify(0), Unlock(0), Restore, Check];
            && Initial(ONE_IDLE_THREAD) && Possible(ONE_IDLE_THREAD, run)
            && After(ONE_IDLE_THREAD, run) == OneThread(0, Thread(0, Returning), Returned)
  {
    hide Possible, After;
    var s, th := ONE_IDLE_THREAD, Thread(0, Returning);
    var held := OneThread(0, Thread(0, Notifying), Installed).(condMutex := HeldByThread(0));
    var told := OneThread(0, Thread(0, Notified), Installed).(condMutex := HeldByThread(0));
    var run := RunToExit();
    run := RunStepTo(s, run, OneThread(0, Thread(0, MustNotify), Installed), Lock(0), held);
    run := RunStepTo(s, run, held, Notify(0), told);
    run := RunStepTo(s, run, told, Unlock(0), OneThread(0, th, Installed));
    run := RunStepTo(s, run, OneThread(0, th, Installed), Restore, OneThread(0, th, Restored));
    run := RunStepTo(s, run, OneThread(0, th, Restored), Check, OneThread(0, th, Returned));
    assert run == [Install, Call(0), Enter(0), Exit(0), Lock(0), Notify(0), Unlock(0), Restore, Check];
  }
}

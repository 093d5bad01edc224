/** With a fair scheduler every hand-off completes: main gets back to accept. */
module Fairness {
  import opened Strings
  import opened HandOff

  /** `accept` may block for ever, so main is not counted on there. */
  predicate Enabled(s: State, a: Actor) {
    match a
    case Main => !s.pc.Accept? && MainStep(s, 0, false).Some?
    case Thread(t) => t < |s.handlers| && HandlerStep(s, t).Some?
    case _ => false
  }

  ghost predicate EnabledAgain(run: nat -> State, a: Actor, i: nat) {
    exists k: nat :: k >= i && Enabled(run(k), a)
  }

  ghost predicate Taken(who: nat -> Actor, a: Actor, i: nat) {
    exists k: nat :: k >= i && who(k) == a
  }

  /** If the actor is enabled again and again, it gets to act. */
  ghost predicate FairTo(run: nat -> State, who: nat -> Actor, a: Actor) {
    forall i: nat :: (forall j: nat :: j >= i ==> EnabledAgain(run, a, j)) ==> Taken(who, a, i)
  }

  ghost predicate Fair(run: nat -> State, who: nat -> Actor) {
    forall a :: FairTo(run, who, a)
  }

  lemma {:induction false} FirstAction(who: nat -> Actor, a: Actor, i: nat, k: nat) returns (j: nat)
    requires i <= k && who(k) == a
    ensures i <= j && who(j) == a && forall m: nat | i <= m < j :: who(m) != a
    decreases k - i
  {
    if who(i) == a {
      j := i;
    } else {
      j := FirstAction(who, a, i + 1, k);
    }
  }

  // ----- the handler -----

  function HandlerRank(h: Handler): nat {
    match h.pc
    case WantsLock => 5
    case Copies => 4
    case Clears => 3
    case Signals => 2
    case Unlocks => 1
    case Runs => 0
  }

  function Newest(s: State): Actor {
    if s.handlers == [] then Nothing else Thread(|s.handlers| - 1)
  }

  predicate Busy(s: State) {
    InHandOff(s) && s.handlers != [] && !Last(s).pc.Runs?
  }

  /** Every older handler is through with its prologue and does not hold the mutex. */
  lemma {:induction false} OnlyNewest(s: State)
    requires Inv(s)
    ensures forall t | 0 <= t < |s.handlers| && !s.handlers[t].pc.Runs? :: t == |s.handlers| - 1
    ensures s.mutex.ByHandler? ==> s.handlers != [] && s.mutex.t == |s.handlers| - 1 && HoldsMutex(Last(s))
  {
    forall t | 0 <= t < |s.handlers|
      ensures !s.handlers[t].pc.Runs? ==> t == |s.handlers| - 1
      ensures s.mutex == ByHandler(t) ==> HoldsMutex(s.handlers[t])
    {
      assert HandlerOk(s, t);
    }
  }

  lemma {:induction false} NewestActs(s: State, s': State)
    requires Inv(s) && Busy(s) && Acts(s, Newest(s), s')
    ensures InHandOff(s') && |s'.handlers| == |s.handlers| && HandlerRank(Last(s')) < HandlerRank(Last(s))
  {
  }

  lemma {:induction false} OthersAct(s: State, a: Actor, s': State)
    requires Inv(s) && Busy(s) && a != Newest(s) && Acts(s, a, s')
    ensures Busy(s') && Last(s') == Last(s) && Newest(s') == Newest(s)
  {
    OnlyNewest(s);
    assert HandlerOk(s, |s.handlers| - 1);
  }

  /** Until it acts, the newest handler stays where it is and main stays in the hand-off. */
  lemma {:induction false} StaysBusy(run: nat -> State, who: nat -> Actor, i: nat, j: nat)
    requires IsRun(run, who) && Busy(run(i)) && i <= j
    requires forall m: nat | i <= m < j :: who(m) != Newest(run(i))
    ensures Busy(run(j)) && Last(run(j)) == Last(run(i)) && Newest(run(j)) == Newest(run(i))
    decreases j
  {
    if i < j {
      StaysBusy(run, who, i, j - 1);
      AlwaysInv(run, who, j - 1);
      assert Acts(run(j - 1), who(j - 1), run(j - 1 + 1));
      OthersAct(run(j - 1), who(j - 1), run(j));
    }
  }

  /** Even for a newest handler that is starved of the mutex, the mutex gets free again and again as
      long as main gets its turns: main, if it has it, finds not_finished set and goes to sleep. */
  lemma {:induction false} MutexGetsFree(run: nat -> State, who: nat -> Actor, i: nat, j: nat)
    requires IsRun(run, who) && FairTo(run, who, Main) && Busy(run(i)) && i <= j
    requires Last(run(i)).pc.WantsLock?
    requires forall m: nat | i <= m :: who(m) != Newest(run(i))
    ensures exists k: nat :: j <= k && run(k).mutex == Nobody
  {
    hide Inv, Acts, Enabled, Busy;
    if forall m: nat | j <= m :: run(m).mutex != Nobody {
      forall m: nat | j <= m
        ensures run(m).pc.Check? && run(m).notFinished && EnabledAgain(run, Main, m)
      {
        StaysBusy(run, who, i, m);
        AlwaysInv(run, who, m);
        MainHasMutex(run(m));
      }
      assert Taken(who, Main, j);
      var m: nat :| m >= j && who(m) == Main;
      GoesToSleep(run(m), run(m + 1));
      assert false;
    }
  }

  lemma {:induction false} MainHasMutex(s: State)
    requires Inv(s) && Busy(s) && Last(s).pc.WantsLock? && s.mutex != Nobody
    ensures s.pc.Check? && s.notFinished && Enabled(s, Main)
  {
    OnlyNewest(s);
  }

  lemma {:induction false} GoesToSleep(s: State, s': State)
    requires s.pc.Check? && s.notFinished && Acts(s, Main, s')
    ensures s'.mutex == Nobody
  {
  }

  lemma {:induction false} NewestGetsToAct(run: nat -> State, who: nat -> Actor, i: nat)
    requires IsRun(run, who) && Fair(run, who) && Busy(run(i))
    ensures Taken(who, Newest(run(i)), i)
  {
    var a := Newest(run(i));
    assert FairTo(run, who, Main) && FairTo(run, who, a);
    if !Taken(who, a, i) {
      forall j: nat | j >= i
        ensures EnabledAgain(run, a, j)
      {
        StaysBusy(run, who, i, j);
        AlwaysInv(run, who, j);
        if Last(run(i)).pc.WantsLock? {
          MutexGetsFree(run, who, i, j);
          var k: nat :| j <= k && run(k).mutex == Nobody;
          StaysBusy(run, who, i, k);
          assert Enabled(run(k), a);
        } else {
          assert Enabled(run(j), a);
        }
      }
    }
  }

  // ----- main -----

  function MainRank(s: State): nat {
    match s.pc
    case WantLock | WantRelock | Asleep => 4
    case Check => 3
    case SetTrue => 2
    case Unlock => 1
    case _ => 0
  }

  /** The handler is through; only main still has to finish. */
  predicate Finishing(s: State) {
    Last(s).pc.Runs? && (InHandOff(s) || s.pc.SetTrue? || s.pc.Unlock?)
  }

  lemma {:induction false} FinishingStep(s: State, a: Actor, s': State)
    requires Inv(s) && Finishing(s) && Acts(s, a, s')
    ensures Enabled(s, Main)
    ensures a != Main ==> s' == s
    ensures a == Main ==> (Finishing(s') || s'.pc.Accept?) && MainRank(s') < MainRank(s)
  {
    OnlyNewest(s);
  }

  lemma {:induction false} StaysFinishing(run: nat -> State, who: nat -> Actor, i: nat, j: nat)
    requires IsRun(run, who) && Finishing(run(i)) && i <= j
    requires forall m: nat | i <= m < j :: who(m) != Main
    ensures run(j) == run(i)
    decreases j
  {
    if i < j {
      StaysFinishing(run, who, i, j - 1);
      AlwaysInv(run, who, j - 1);
      assert Acts(run(j - 1), who(j - 1), run(j - 1 + 1));
      FinishingStep(run(j - 1), who(j - 1), run(j));
    }
  }

  lemma {:induction false} MainGetsToAct(run: nat -> State, who: nat -> Actor, i: nat)
    requires IsRun(run, who) && Fair(run, who) && Finishing(run(i))
    ensures Taken(who, Main, i)
  {
    assert FairTo(run, who, Main);
    if !Taken(who, Main, i) {
      forall j: nat | j >= i
        ensures EnabledAgain(run, Main, j)
      {
        StaysFinishing(run, who, i, j);
        AlwaysInv(run, who, j);
        assert Acts(run(j), who(j), run(j + 1));
        FinishingStep(run(j), who(j), run(j + 1));
      }
    }
  }

  // ----- main result -----

  /** With fair scheduling, whatever spurious wakeups occur, main returns to accept after every
      successful thread creation. */
  lemma {:induction false} HandOffCompletes(run: nat -> State, who: nat -> Actor, i: nat) returns (j: nat)
    requires IsRun(run, who) && Fair(run, who)
    requires InHandOff(run(i)) || Finishing(run(i))
    ensures j > i && run(j).pc.Accept?
    decreases HandlerRank(Last(run(i))), MainRank(run(i))
  {
    AlwaysInv(run, who, i);
    if Busy(run(i)) {
      var a := Newest(run(i));
      NewestGetsToAct(run, who, i);
      var k: nat :| k >= i && who(k) == a;
      var m := FirstAction(who, a, i, k);
      StaysBusy(run, who, i, m);
      AlwaysInv(run, who, m);
      assert Acts(run(m), who(m), run(m + 1));
      NewestActs(run(m), run(m + 1));
      j := HandOffCompletes(run, who, m + 1);
    } else {
      MainGetsToAct(run, who, i);
      var k: nat :| k >= i && who(k) == Main;
      var m := FirstAction(who, Main, i, k);
      StaysFinishing(run, who, i, m);
      assert Acts(run(m), who(m), run(m + 1));
      FinishingStep(run(m), Main, run(m + 1));
      if run(m + 1).pc.Accept? {
        j := m + 1;
      } else {
        AlwaysInv(run, who, m + 1);
        StepKeepsHandler(run(m), run(m + 1));
        j := HandOffCompletes(run, who, m + 1);
      }
    }
  }

  lemma {:induction false} StepKeepsHandler(s: State, s': State)
    requires Inv(s) && Finishing(s) && Acts(s, Main, s')
    ensures HandlerRank(Last(s')) == HandlerRank(Last(s))
  {
  }

  predicate Creating(s: State) {
    s.pc.Create?
  }

  lemma {:induction false} CreatingStep(s: State, a: Actor, s': State)
    requires Inv(s) && Creating(s) && Acts(s, a, s')
    ensures Enabled(s, Main)
    ensures a != Main ==> Creating(s')
    ensures a == Main ==> s'.pc.Accept? || InHandOff(s')
  {
    OnlyNewest(s);
  }

  lemma {:induction false} StaysCreating(run: nat -> State, who: nat -> Actor, i: nat, j: nat)
    requires IsRun(run, who) && Creating(run(i)) && i <= j
    requires forall m: nat | i <= m < j :: who(m) != Main
    ensures Creating(run(j)) && Enabled(run(j), Main)
    decreases j
  {
    hide Acts, Inv, Creating, Enabled;
    if i < j {
      StaysCreating(run, who, i, j - 1);
      AlwaysInv(run, who, j - 1);
      assert Acts(run(j - 1), who(j - 1), run(j - 1 + 1));
      CreatingStep(run(j - 1), who(j - 1), run(j));
    }
    AlwaysInv(run, who, j);
    assert Acts(run(j), who(j), run(j + 1));
    CreatingStep(run(j), who(j), run(j + 1));
  }

  /** With fair scheduling main comes back to accept from everywhere, failed thread creations included,
      unless accept itself has failed. */
  lemma {:induction false} MainAcceptsAgain(run: nat -> State, who: nat -> Actor, i: nat) returns (j: nat)
    requires IsRun(run, who) && Fair(run, who) && run(i).sc != -1
    ensures j >= i && run(j).pc.Accept?
  {
    hide Acts, Enabled, Busy;
    AlwaysInv(run, who, i);
    if run(i).pc.Accept? {
      j := i;
    } else if run(i).pc.Create? {
      assert FairTo(run, who, Main);
      if !Taken(who, Main, i) {
        forall k: nat | k >= i
          ensures EnabledAgain(run, Main, k)
        {
          StaysCreating(run, who, i, k);
        }
      }
      var k: nat :| k >= i && who(k) == Main;
      var m := FirstAction(who, Main, i, k);
      StaysCreating(run, who, i, m);
      AlwaysInv(run, who, m);
      assert Acts(run(m), who(m), run(m + 1));
      CreatingStep(run(m), Main, run(m + 1));
      j := m + 1;
      if !run(j).pc.Accept? {
        j := HandOffCompletes(run, who, j);
      }
    } else {
      AwayFromAccept(run(i));
      j := HandOffCompletes(run, who, i);
    }
  }

  lemma {:induction false} AwayFromAccept(s: State)
    requires Inv(s) && !s.pc.Accept? && !s.pc.Create? && !s.pc.Stopped?
    ensures InHandOff(s) || Finishing(s)
  {
    if s.handlers != [] {
      assert HandlerOk(s, |s.handlers| - 1);
    }
  }

  // ----- fairness is needed -----

  /** Main accepts, creates a thread that never moves, and is woken spuriously for ever. */
  function Starved(i: nat): State {
    var s := State(Accept, 3, true, Nobody, [Handler(WantsLock, 3, None)]);
    if i == 0 then Start
    else if i == 1 then Start.(sc := 3, pc := Create)
    else if i == 2 then s.(pc := WantLock)
    else if i % 3 == 0 then s.(pc := Check, mutex := ByMain)
    else if i % 3 == 1 then s.(pc := Asleep)
    else s.(pc := WantRelock)
  }

  function Starving(i: nat): Actor {
    if i > 3 && i % 3 == 1 then SpuriousWakeup else Main
  }

  /** A scheduler that is fair to main but not to the handler can keep main from ever accepting again. */
  lemma {:induction false} HandlerMustGetItsTurn() returns (run: nat -> State, who: nat -> Actor)
    ensures IsRun(run, who) && FairTo(run, who, Main)
    ensures Busy(run(2)) && Last(run(2)).pc.WantsLock? && forall m: nat :: who(m) != Newest(run(2))
    ensures forall j: nat | j >= 2 :: InHandOff(run(j))
  {
    run, who := (i: nat) => Starved(i), (i: nat) => Starving(i);
    assert Start.handlers + Starved(2).handlers == Starved(2).handlers;
    forall i: nat
      ensures Acts(run(i), who(i), run(i + 1))
    {
      if who(i).Main? {
        assert MainStep(run(i), 3, true) == Some(run(i + 1));
      }
    }
    forall i: nat
      ensures Taken(who, Main, i)
    {
      assert 3 * i >= i && who(3 * i) == Main;
    }
  }
}

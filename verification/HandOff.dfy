/** The accept loop of server/servidor.c passes the address of its one descriptor variable to each new
    handler thread, and must not overwrite it before that thread has copied it. */
module HandOff {
  import opened Strings

  /** Where `main` stands in its loop. */
  datatype MainPc =
    | Accept                 // about to call accept
    | Create                 // accept has returned into sc
    | WantLock | Check       // about to lock; locked, testing not_finished
    | Asleep | WantRelock    // inside pthread_cond_wait: sleeping, or woken and wanting the mutex
    | SetTrue | Unlock       // not_finished = true; about to unlock
    | Stopped                // accept failed

  /** Where a handler stands in its prologue. */
  datatype HandlerPc = WantsLock | Copies | Clears | Signals | Unlocks | Runs

  /** `accepted` is a ghost: the descriptor accept returned for this thread. */
  datatype Handler = Handler(pc: HandlerPc, accepted: int, sc: Option<int>)

  datatype Holder = Nobody | ByMain | ByHandler(t: nat)

  datatype State = State(pc: MainPc, sc: int, notFinished: bool, mutex: Holder, handlers: seq<Handler>)

  const Start := State(Accept, 0, true, Nobody, [])

  /** One step of main. `fd` is what accept returns, `created` whether pthread_create succeeds. */
  function MainStep(s: State, fd: int, created: bool): Option<State> {
    match s.pc
    case Accept => Some(s.(sc := fd, pc := if fd == -1 then Stopped else Create))
    case Create =>
      Some(if created then s.(pc := WantLock, handlers := s.handlers + [Handler(WantsLock, s.sc, None)])
           else s.(pc := Accept))
    case WantLock => if s.mutex.Nobody? then Some(s.(pc := Check, mutex := ByMain)) else None
    case Check => Some(if s.notFinished then s.(pc := Asleep, mutex := Nobody) else s.(pc := SetTrue))
    case Asleep => None
    case WantRelock => if s.mutex.Nobody? then Some(s.(pc := Check, mutex := ByMain)) else None
    case SetTrue => Some(s.(notFinished := true, pc := Unlock))
    case Unlock => Some(s.(mutex := Nobody, pc := Accept))
    case Stopped => None
  }

  function Moved(s: State, t: nat, pc: HandlerPc): State
    requires t < |s.handlers|
  {
    s.(handlers := s.handlers[t := s.handlers[t].(pc := pc)])
  }

  /** One step of handler t. */
  function HandlerStep(s: State, t: nat): Option<State>
    requires t < |s.handlers|
  {
    var h := s.handlers[t];
    match h.pc
    case WantsLock => if s.mutex.Nobody? then Some(Moved(s, t, Copies).(mutex := ByHandler(t))) else None
    case Copies => Some(s.(handlers := s.handlers[t := h.(pc := Clears, sc := Some(s.sc))]))
    case Clears => Some(Moved(s, t, Signals).(notFinished := false))
    case Signals => Some(Moved(s, t, Unlocks).(pc := if s.pc.Asleep? then WantRelock else s.pc))
    case Unlocks => Some(Moved(s, t, Runs).(mutex := Nobody))
    case Runs => None
  }

  datatype Actor = Main | Thread(t: nat) | SpuriousWakeup | Nothing

  ghost predicate Acts(s: State, a: Actor, s': State) {
    match a
    case Main => exists fd, created :: MainStep(s, fd, created) == Some(s')
    case Thread(t) => t < |s.handlers| && HandlerStep(s, t) == Some(s')
    case SpuriousWakeup => s.pc.Asleep? && s' == s.(pc := WantRelock)
    case Nothing => s' == s
  }

  // ----- the invariant -----

  predicate HoldsMutex(h: Handler) {
    h.pc.Copies? || h.pc.Clears? || h.pc.Signals? || h.pc.Unlocks?
  }

  predicate Copied(h: Handler) {
    !h.pc.WantsLock? && !h.pc.Copies?
  }

  /** The thread has still to clear not_finished. */
  predicate Owes(h: Handler) {
    h.pc.WantsLock? || h.pc.Copies? || h.pc.Clears?
  }

  predicate InHandOff(s: State) {
    s.pc.WantLock? || s.pc.Check? || s.pc.Asleep? || s.pc.WantRelock?
  }

  predicate HandlerOk(s: State, t: nat)
    requires t < |s.handlers|
  {
    var h := s.handlers[t];
    && (HoldsMutex(h) <==> s.mutex == ByHandler(t))
    && (if Copied(h) then h.sc == Some(h.accepted) else h.accepted == s.sc)
    && (!h.pc.Runs? ==> InHandOff(s) && t == |s.handlers| - 1)
  }

  predicate Inv(s: State) {
    && (forall t: nat | t < |s.handlers| :: HandlerOk(s, t))
    && (s.mutex == ByMain <==> s.pc.Check? || s.pc.SetTrue? || s.pc.Unlock?)
    && (s.mutex.ByHandler? ==> s.mutex.t < |s.handlers|)
    && (InHandOff(s) ==> s.handlers != [] && (s.notFinished <==> Owes(Last(s))))
    && (!InHandOff(s) ==> (s.notFinished <==> !s.pc.SetTrue?))
    && (s.pc.Asleep? ==> Owes(Last(s)) || Last(s).pc.Signals?)
    && (s.pc.Stopped? <==> s.sc == -1)
  }

  /** The newest handler. */
  function Last(s: State): Handler {
    if s.handlers == [] then Handler(Runs, 0, None) else s.handlers[|s.handlers| - 1]
  }

  lemma {:induction false} ThreadKeepsInv(s: State, u: nat, s': State)
    requires Inv(s) && u < |s.handlers| && HandlerStep(s, u) == Some(s')
    ensures Inv(s')
  {
    assert HandlerOk(s, |s.handlers| - 1) && HandlerOk(s, u);
    forall t: nat | t < |s'.handlers|
      ensures HandlerOk(s', t)
    {
      assert HandlerOk(s, t);
    }
  }

  lemma {:induction false} ActsKeepsInv(s: State, a: Actor, s': State)
    requires Inv(s) && Acts(s, a, s')
    ensures Inv(s')
  {
    hide HandlerStep;
    if a.Thread? {
      ThreadKeepsInv(s, a.t, s');
      return;
    }
    if s.handlers != [] {
      assert HandlerOk(s, |s.handlers| - 1);
    }
    forall t: nat | t < |s'.handlers|
      ensures HandlerOk(s', t)
    {
      assert t < |s.handlers| ==> HandlerOk(s, t);
    }
  }

  /** A run of the system: any actor may take any enabled step at any time. */
  ghost predicate IsRun(run: nat -> State, who: nat -> Actor) {
    run(0) == Start && forall i: nat :: Acts(run(i), who(i), run(i + 1))
  }

  lemma {:induction false} AlwaysInv(run: nat -> State, who: nat -> Actor, i: nat)
    requires IsRun(run, who)
    ensures Inv(run(i))
  {
    if i > 0 {
      AlwaysInv(run, who, i - 1);
      ActsKeepsInv(run(i - 1), who(i - 1), run(i - 1 + 1));
    }
  }

  // ----- safety -----

  /** In every interleaving, spurious wakeups and failed creations included: at most one thread has not
      copied its descriptor; none has when main is about to accept, or about to create the next; every
      thread that has copied one has the descriptor accepted for it; and main stops only when accept
      has failed. */
  lemma {:induction false} HandOffIsSafe(run: nat -> State, who: nat -> Actor, i: nat)
    requires IsRun(run, who)
    ensures
      var s := run(i);
      && (forall t, u | 0 <= t < |s.handlers| && 0 <= u < |s.handlers| ::
            !Copied(s.handlers[t]) && !Copied(s.handlers[u]) ==> t == u)
      && (s.pc.Accept? || s.pc.Create? ==> forall t | 0 <= t < |s.handlers| :: Copied(s.handlers[t]))
      && (forall t | 0 <= t < |s.handlers| && Copied(s.handlers[t]) :: s.handlers[t].sc == Some(s.handlers[t].accepted))
      && (s.pc.Stopped? <==> s.sc == -1)
  {
    AlwaysInv(run, who, i);
    var s := run(i);
    forall t | 0 <= t < |s.handlers|
      ensures Copied(s.handlers[t]) || (InHandOff(s) && t == |s.handlers| - 1)
      ensures Copied(s.handlers[t]) ==> s.handlers[t].sc == Some(s.handlers[t].accepted)
    {
      assert HandlerOk(s, t);
    }
  }

  /** No wakeup is lost: while main sleeps, some created thread has still to signal, and it does so
      after clearing not_finished. */
  lemma {:induction false} NoLostWakeup(run: nat -> State, who: nat -> Actor, i: nat)
    requires IsRun(run, who) && run(i).pc.Asleep?
    ensures
      var s := run(i);
      exists t :: 0 <= t < |s.handlers| &&
        (if s.notFinished then Owes(s.handlers[t]) else s.handlers[t].pc.Signals? && s.mutex == ByHandler(t))
  {
    AlwaysInv(run, who, i);
    var s := run(i);
    assert HandlerOk(s, |s.handlers| - 1);
  }
}

/** All interleavings of calls into server/list.c, and the proof that they are linearizable. */
module Threads {
  import opened Strings
  import opened Registry
  import opened Locking

  /** Where a call stands between invocation and return. */
  datatype Pc =
    | Enter                      // about to lock
    | TestInit                   // locked: if (!inited_list)
    | Leave                      // about to unlock and call init_list
    | InitLock                   // init_list: about to lock
    | InitTest                   // locked: if (inited_list)
    | InitList                   // messages = NULL
    | InitFlag                   // inited_list = 1
    | InitUnlock                 // about to unlock
    | Relock                     // about to lock again
    | Body(frame: Frame)         // locked: walking and editing
    | Exit(reply: Reply)         // about to unlock and return
    | Done(reply: Reply)

  /** A call in progress or returned. `since` and `at` only serve the proof: the length of the log when
      the call was made, and its own place in the log. */
  datatype Call = Call(op: Op, pc: Pc, since: nat, at: nat)

  /** The globals of list.c, the calls so far, and the log of operations in order of each one's last
      acquisition of the mutex. */
  datatype State = State(
    holder: Option<nat>, inited: bool, users: seq<User>,
    calls: seq<Call>, log: seq<Op>, order: seq<nat>)

  const Start := State(None, false, [], [], [], [])

  predicate Holding(pc: Pc) {
    pc.TestInit? || pc.Leave? || pc.InitTest? || pc.InitList? || pc.InitFlag? || pc.InitUnlock? || pc.Body? || pc.Exit?
  }

  /** The call has taken the mutex for the last time. */
  predicate Logged(pc: Pc) {
    pc.Body? || pc.Exit? || pc.Done?
  }

  function At(s: State, t: nat, pc: Pc): State
    requires t < |s.calls|
  {
    s.(calls := s.calls[t := s.calls[t].(pc := pc)])
  }

  /** The last acquisition: from here on the operation's place in the order is fixed. */
  function Begin(s: State, t: nat): State
    requires t < |s.calls|
  {
    s.(holder := Some(t),
       calls := s.calls[t := s.calls[t].(pc := Body(Scan(0)), at := |s.log|)],
       log := s.log + [s.calls[t].op],
       order := s.order + [t])
  }

  /** The next step of call t; None when it waits for the mutex or has returned. */
  function Advance(s: State, t: nat): Option<State>
    requires t < |s.calls|
  {
    var c := s.calls[t];
    match c.pc
    case Enter =>
      if s.holder.Some? then None
      else if c.op.Mutates() then Some(At(s, t, TestInit).(holder := Some(t)))
      else Some(Begin(s, t))
    case TestInit => Some(if s.inited then Begin(s, t) else At(s, t, Leave))
    case Leave => Some(At(s, t, InitLock).(holder := None))
    case InitLock => if s.holder.Some? then None else Some(At(s, t, InitTest).(holder := Some(t)))
    case InitTest => Some(At(s, t, if s.inited then InitUnlock else InitList))
    case InitList => Some(At(s, t, InitFlag).(users := []))
    case InitFlag => Some(At(s, t, InitUnlock).(inited := true))
    case InitUnlock => Some(At(s, t, Relock).(holder := None))
    case Relock => if s.holder.Some? then None else Some(Begin(s, t))
    case Body(fr) =>
      var (users, p) := BodyStep(s.users, c.op, fr);
      Some(At(s, t, if p.Going? then Body(p.frame) else Exit(p.reply)).(users := users))
    case Exit(reply) => Some(At(s, t, Done(reply)).(holder := None))
    case Done(_) => None
  }

  /** A handler thread makes a new call. */
  function Invoke(s: State, op: Op): State {
    s.(calls := s.calls + [Call(op, Enter, |s.log|, 0)])
  }

  ghost predicate Next(s: State, s': State) {
    || (exists op :: s' == Invoke(s, op))
    || (exists t: nat :: t < |s.calls| && Advance(s, t) == Some(s'))
  }

  ghost predicate Execution(run: seq<State>) {
    && run != [] && run[0] == Start
    && forall i | 0 < i < |run| :: Next(run[i - 1], run[i])
  }

  // ----- the invariant -----

  /** Call t took the mutex for the last time as the k-th. */
  predicate LoggedAt(s: State, t: nat, k: nat) {
    t < |s.calls| && Logged(s.calls[t].pc) && s.calls[t].at == k
  }

  predicate LogOk(s: State) {
    |s.order| == |s.log| && forall k | 0 <= k < |s.log| :: LoggedAt(s, s.order[k], k)
  }

  /** Frames a listing goes through. */
  predicate ReadsOnly(fr: Frame) {
    fr.Scan? || fr.TestIp? || fr.Collect? || fr.ScanTarget? || fr.Copy?
  }

  predicate CallOk(s: State, t: nat)
    requires t < |s.calls| && |s.order| == |s.log|
  {
    var c := s.calls[t];
    && c.since <= |s.log|
    && (Holding(c.pc) ==> s.holder == Some(t))
    && (c.pc.InitList? || c.pc.InitFlag? ==> !s.inited)
    && (c.pc.InitUnlock? || c.pc.Relock? || (c.pc.Body? && c.op.Mutates()) ==> s.inited)
    && (c.pc.Body? && !c.op.Mutates() ==> ReadsOnly(c.pc.frame))
    && (Logged(c.pc) ==>
          c.since <= c.at < |s.log| && s.log[c.at] == c.op && s.order[c.at] == t)
    && (c.pc.Exit? || c.pc.Done? ==> c.pc.reply == ReplyAt(s.log, c.at))
  }

  /** The list is the run of the log, or, while the last call in the log is at work, will be so when it
      finishes; and then its reply will be the run's. */
  predicate ListOk(s: State) {
    if s.holder.Some? && s.holder.value < |s.calls| && s.calls[s.holder.value].pc.Body? then
      var c := s.calls[s.holder.value];
      c.at == |s.log| - 1 && Completion(s.users, c.op, c.pc.frame) == (Run(s.log), ReplyAt(s.log, c.at))
    else
      s.users == Run(s.log)
  }

  predicate Inv(s: State) {
    && LogOk(s)
    && (forall t: nat | t < |s.calls| :: CallOk(s, t))
    && (s.holder.Some? ==> s.holder.value < |s.calls| && Holding(s.calls[s.holder.value].pc))
    && ListOk(s)
    && (!s.inited ==> s.users == [])
  }

  lemma {:induction false} BeginKeepsInv(s: State, t: nat)
    requires Inv(s) && t < |s.calls| && !Logged(s.calls[t].pc)
    requires s.holder == None || s.holder == Some(t)
    requires s.calls[t].op.Mutates() ==> s.inited
    ensures Inv(Begin(s, t))
  {
    hide Apply, Completion, BodyStep, Run, ReplyAt;
    var s', op := Begin(s, t), s.calls[t].op;
    RunSnoc(s.log, op);
    StepsAddUp(s.users, op);
    assert CallOk(s, t);
    forall u: nat | u < |s.calls|
      ensures CallOk(s', u)
    {
      assert CallOk(s, u);
    }
  }

  lemma {:induction false} BodyKeepsInv(s: State, t: nat, s': State)
    requires Inv(s) && t < |s.calls| && s.calls[t].pc.Body? && Advance(s, t) == Some(s')
    ensures Inv(s')
  {
    hide Apply, Completion, BodyStep, Run, ReplyAt;
    StepOn(s.users, s.calls[t].op, s.calls[t].pc.frame);
    assert CallOk(s, t);
    assert s.holder == Some(t) && s.calls[t].at == |s.log| - 1;
    var c, c' := s.calls[t], s'.calls[t];
    var (r', p) := BodyStep(s.users, c.op, c.pc.frame);
    assert p.Finished? ==> c'.pc == Exit(p.reply) && (r', p.reply) == (Run(s.log), ReplyAt(s.log, c.at));
    ListingsOnlyRead(s.users, s.calls[t].op, s.calls[t].pc.frame);
    forall u: nat | u < |s.calls|
      ensures CallOk(s', u)
    {
      assert CallOk(s, u);
    }
  }

  lemma {:induction false} ListingsOnlyRead(r: seq<User>, op: Op, fr: Frame)
    ensures !op.Mutates() && ReadsOnly(fr) ==>
      var (r', p) := BodyStep(r, op, fr);
      r' == r && (p.Going? ==> ReadsOnly(p.frame))
  {
  }

  /** Steps outside the body that only move a call along, take or release the mutex, or set the
      flag. */
  lemma {:induction false} MoveKeepsInv(s: State, t: nat, pc: Pc, holder: Option<nat>, inited: bool)
    requires Inv(s) && t < |s.calls| && !Logged(s.calls[t].pc) && !Logged(pc)
    requires s.holder == None || s.holder == Some(t)
    requires holder == if Holding(pc) then Some(t) else None
    requires s.inited ==> inited
    requires pc.InitUnlock? || pc.Relock? ==> inited
    requires pc.InitList? || pc.InitFlag? ==> !inited
    requires inited && !s.inited ==> s.holder == Some(t)
    ensures Inv(At(s, t, pc).(holder := holder, inited := inited))
  {
    hide Apply, Completion, Run, ReplyAt;
    var s' := At(s, t, pc).(holder := holder, inited := inited);
    forall u: nat | u < |s.calls|
      ensures CallOk(s', u)
    {
      assert CallOk(s, u);
    }
  }

  lemma {:induction false} ExitKeepsInv(s: State, t: nat, s': State)
    requires Inv(s) && t < |s.calls| && s.calls[t].pc.Exit? && Advance(s, t) == Some(s')
    ensures Inv(s')
  {
    hide Apply, Completion, Run, ReplyAt, BodyStep, Begin;
    assert CallOk(s, t);
    forall u: nat | u < |s.calls|
      ensures CallOk(s', u)
    {
      assert CallOk(s, u);
    }
  }

  lemma {:induction false} AdvanceKeepsInv(s: State, t: nat, s': State)
    requires Inv(s) && t < |s.calls| && Advance(s, t) == Some(s')
    ensures Inv(s')
  {
    hide Apply, Completion, BodyStep, Run, ReplyAt, Begin, ListOk;
    var c := s.calls[t];
    assert CallOk(s, t);
    match c.pc
    case Enter => if c.op.Mutates() { MoveKeepsInv(s, t, TestInit, Some(t), s.inited); } else { BeginKeepsInv(s, t); }
    case TestInit => if s.inited { BeginKeepsInv(s, t); } else { MoveKeepsInv(s, t, Leave, Some(t), s.inited); }
    case Leave => MoveKeepsInv(s, t, InitLock, None, s.inited);
    case InitLock => MoveKeepsInv(s, t, InitTest, Some(t), s.inited);
    case InitTest => MoveKeepsInv(s, t, if s.inited then InitUnlock else InitList, Some(t), s.inited);
    case InitList => MoveKeepsInv(s, t, InitFlag, Some(t), s.inited);
    case InitFlag => MoveKeepsInv(s, t, InitUnlock, Some(t), true);
    case InitUnlock => MoveKeepsInv(s, t, Relock, None, s.inited);
    case Relock => BeginKeepsInv(s, t);
    case Body(_) => BodyKeepsInv(s, t, s');
    case Exit(_) => ExitKeepsInv(s, t, s');
  }

  lemma {:induction false} InvokeKeepsInv(s: State, op: Op)
    requires Inv(s)
    ensures Inv(Invoke(s, op))
  {
    hide Apply, Completion, Run, ReplyAt;
    var s' := Invoke(s, op);
    forall u: nat | u < |s'.calls|
      ensures CallOk(s', u)
    {
      assert u < |s.calls| ==> CallOk(s, u);
    }
  }

  lemma {:induction false} AlwaysInv(run: seq<State>, i: nat)
    requires Execution(run) && i < |run|
    ensures Inv(run[i])
  {
    hide Advance, Invoke, LogOk, ListOk, CallOk;
    if i == 0 {
      StartIsOk();
    } else {
      AlwaysInv(run, i - 1);
      var s, s' := run[i - 1], run[i];
      if exists op :: s' == Invoke(s, op) {
        var op :| s' == Invoke(s, op);
        InvokeKeepsInv(s, op);
      } else {
        var t: nat :| t < |s.calls| && Advance(s, t) == Some(s');
        AdvanceKeepsInv(s, t, s');
      }
    }
  }

  lemma {:induction false} StartIsOk()
    ensures Inv(Start)
  {
  }

  // ----- main results -----

  /** Linearizability. In every state of every interleaving, every returned call has the reply a
      sequential run of the log gives it at its place in the log; the places of the log belong one to
      one to the calls that have taken the mutex for the last time; and while no operation is between
      that and its unlock, the list is exactly what the run leaves. */
  lemma {:induction false} Linearizable(run: seq<State>, i: nat)
    requires Execution(run) && i < |run|
    ensures
      var s := run[i];
      && (forall t | 0 <= t < |s.calls| && Logged(s.calls[t].pc) ::
            var c := s.calls[t];
            c.at < |s.log| && s.log[c.at] == c.op && (c.pc.Done? ==> c.pc.reply == ReplyAt(s.log, c.at)))
      && (forall t, u | 0 <= t < u < |s.calls| && Logged(s.calls[t].pc) && Logged(s.calls[u].pc) ::
            s.calls[t].at != s.calls[u].at)
      && |s.order| == |s.log| && (forall k | 0 <= k < |s.log| :: LoggedAt(s, s.order[k], k))
      && ((forall t | 0 <= t < |s.calls| :: !s.calls[t].pc.Body?) ==> s.users == Run(s.log))
  {
    hide Run, ReplyAt, Completion, Advance, Invoke;
    AlwaysInv(run, i);
    var s := run[i];
    forall t | 0 <= t < |s.calls| && Logged(s.calls[t].pc)
      ensures
        var c := s.calls[t];
        && c.at < |s.log| && s.log[c.at] == c.op && s.order[c.at] == t
        && (c.pc.Done? ==> c.pc.reply == ReplyAt(s.log, c.at))
    {
      assert CallOk(s, t);
    }
  }

  predicate Continues(c: Call, c': Call) {
    && c'.since == c.since
    && (Logged(c.pc) ==> Logged(c'.pc) && c'.at == c.at)
    && (c.pc.Done? ==> c' == c)
  }

  lemma {:induction false} AdvanceOnward(s: State, t: nat, s': State)
    requires t < |s.calls| && Advance(s, t) == Some(s')
    ensures |s'.calls| == |s.calls| && s.log <= s'.log && Continues(s.calls[t], s'.calls[t])
    ensures forall u | 0 <= u < |s.calls| && u != t :: s'.calls[u] == s.calls[u]
  {
    hide BodyStep;
  }

  lemma {:induction false} Onward(s: State, s': State)
    requires Next(s, s')
    ensures |s.calls| <= |s'.calls| && s.log <= s'.log
    ensures forall t | 0 <= t < |s.calls| :: Continues(s.calls[t], s'.calls[t])
    ensures forall t | |s.calls| <= t < |s'.calls| :: s'.calls[t].since >= |s.log|
  {
    hide Advance;
    if !exists op :: s' == Invoke(s, op) {
      var t: nat :| t < |s.calls| && Advance(s, t) == Some(s');
      AdvanceOnward(s, t, s');
    }
  }

  /** What has been logged and returned stays so. */
  lemma {:induction false} Lasting(run: seq<State>, i: nat, j: nat)
    requires Execution(run) && i <= j < |run|
    ensures |run[i].calls| <= |run[j].calls| && run[i].log <= run[j].log
    ensures forall t | 0 <= t < |run[i].calls| && run[i].calls[t].pc.Done? :: run[j].calls[t] == run[i].calls[t]
    ensures forall t | |run[i].calls| <= t < |run[j].calls| :: run[j].calls[t].since >= |run[i].log|
    decreases j
  {
    hide Next;
    if i < j {
      Lasting(run, i, j - 1);
      assert Next(run[j - 1], run[j]);
      Onward(run[j - 1], run[j]);
    }
  }

  /** The log respects real time: a call that had returned before another one was made comes before
      it, and keeps its reply. */
  lemma {:induction false} RealTimeOrder(run: seq<State>, i: nat, j: nat, t: nat, u: nat)
    requires Execution(run) && i <= j < |run|
    requires t < |run[i].calls| && run[i].calls[t].pc.Done?
    requires |run[i].calls| <= u < |run[j].calls| && Logged(run[j].calls[u].pc)
    ensures run[j].calls[t] == run[i].calls[t] && run[j].calls[t].at < run[j].calls[u].at
  {
    Lasting(run, i, j);
    AlwaysInv(run, i); AlwaysInv(run, j);
    assert CallOk(run[i], t) && CallOk(run[j], u);
  }

  /** The initialisation never throws a user away: whenever some call is about to set the head to NULL
      it already is. */
  lemma {:induction false} InitDiscardsNothing(run: seq<State>, i: nat, t: nat)
    requires Execution(run) && i < |run| && t < |run[i].calls| && run[i].calls[t].pc.InitList?
    ensures run[i].users == []
  {
    AlwaysInv(run, i);
    assert CallOk(run[i], t);
  }

  /** Mutual exclusion, and no deadlock: unless every call has returned, some call can step. */
  lemma {:induction false} NeverStuck(run: seq<State>, i: nat)
    requires Execution(run) && i < |run|
    ensures
      var s := run[i];
      && (forall t, u | 0 <= t < |s.calls| && 0 <= u < |s.calls| && Holding(s.calls[t].pc) && Holding(s.calls[u].pc) ::
            t == u)
      && ((exists t :: 0 <= t < |s.calls| && !s.calls[t].pc.Done?) ==>
            exists t: nat :: t < |s.calls| && Advance(s, t).Some?)
  {
    AlwaysInv(run, i);
    var s := run[i];
    forall t, u | 0 <= t < |s.calls| && 0 <= u < |s.calls| && Holding(s.calls[t].pc) && Holding(s.calls[u].pc)
      ensures t == u
    {
      assert CallOk(s, t) && CallOk(s, u);
    }
    if t: nat :| t < |s.calls| && !s.calls[t].pc.Done? {
      if s.holder.Some? {
        assert Advance(s, s.holder.value).Some?;
      } else {
        assert Advance(s, t).Some?;
      }
    }
  }
}

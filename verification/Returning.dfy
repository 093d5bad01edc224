/** With a fair scheduler every call into server/list.c returns, however many other calls are made. */
module Returning {
  import opened Strings
  import opened Registry
  import opened Locking
  import opened Threads

  datatype Actor = Step(t: nat) | NewCall(op: Op) | Nothing

  ghost predicate Acts(s: State, a: Actor, s': State) {
    match a
    case Step(t) => t < |s.calls| && Advance(s, t) == Some(s')
    case NewCall(op) => s' == Invoke(s, op)
    case Nothing => s' == s
  }

  ghost predicate IsRun(run: nat -> State, who: nat -> Actor) {
    run(0) == Start && forall i: nat :: Acts(run(i), who(i), run(i + 1))
  }

  predicate Enabled(s: State, t: nat) {
    t < |s.calls| && Advance(s, t).Some?
  }

  ghost predicate EnabledAgain(run: nat -> State, t: nat, i: nat) {
    exists k: nat :: k >= i && Enabled(run(k), t)
  }

  ghost predicate Taken(who: nat -> Actor, t: nat, i: nat) {
    exists k: nat :: k >= i && who(k) == Step(t)
  }

  /** A call that can step again and again gets to step. */
  ghost predicate Fair(run: nat -> State, who: nat -> Actor) {
    forall t: nat, i: nat :: (forall j: nat :: j >= i ==> EnabledAgain(run, t, j)) ==> Taken(who, t, i)
  }

  lemma {:induction false} AlwaysInv(run: nat -> State, who: nat -> Actor, i: nat)
    requires IsRun(run, who)
    ensures Inv(run(i))
  {
    hide Inv, Advance, Invoke;
    if i == 0 {
      StartIsOk();
    } else {
      AlwaysInv(run, who, i - 1);
      assert Acts(run(i - 1), who(i - 1), run(i - 1 + 1));
      match who(i - 1)
      case Step(t) => AdvanceKeepsInv(run(i - 1), t, run(i));
      case NewCall(op) => InvokeKeepsInv(run(i - 1), op);
      case Nothing =>
    }
  }

  lemma {:induction false} FirstStep(who: nat -> Actor, t: nat, i: nat, k: nat) returns (j: nat)
    requires i <= k && who(k) == Step(t)
    ensures i <= j && who(j) == Step(t) && forall m: nat | i <= m < j :: who(m) != Step(t)
    decreases k - i
  {
    if who(i) == Step(t) {
      j := i;
    } else {
      j := FirstStep(who, t, i + 1, k);
    }
  }

  // ----- how far a call still has to go -----

  function PcRank(pc: Pc): nat {
    match pc
    case Enter => 11
    case TestInit => 10
    case Leave => 9
    case InitLock => 8
    case InitTest => 7
    case InitList => 6
    case InitFlag => 5
    case InitUnlock => 4
    case Relock => 3
    case Body(_) => 2
    case Exit(_) => 1
    case Done(_) => 0
  }

  function FrameRank(pc: Pc): nat {
    if pc.Body? then Phase(pc.frame) else 0
  }

  /** Nodes and files still to be walked in the present phase. */
  function WalkRank(r: seq<User>, pc: Pc): nat {
    if pc.Body? && Left(r, pc.frame) > 0 then Left(r, pc.frame) else 0
  }

  predicate Nearer(s': State, s: State, t: nat)
    requires t < |s.calls| && t < |s'.calls|
  {
    var pc, pc' := s.calls[t].pc, s'.calls[t].pc;
    || PcRank(pc') < PcRank(pc)
    || (PcRank(pc') == PcRank(pc) && FrameRank(pc') < FrameRank(pc))
    || (PcRank(pc') == PcRank(pc) && FrameRank(pc') == FrameRank(pc) && WalkRank(s'.users, pc') < WalkRank(s.users, pc))
  }

  lemma {:induction false} BodyGetsNearer(r: seq<User>, op: Op, fr: Frame)
    ensures
      var (r', p) := BodyStep(r, op, fr);
      p.Going? ==>
        || Phase(p.frame) < Phase(fr)
        || (Phase(p.frame) == Phase(fr) && WalkRank(r', Body(p.frame)) < WalkRank(r, Body(fr)))
  {
    hide InetNtoa, Remove;
  }

  /** A call's own step brings it nearer to its return. It keeps the mutex or gives it back. */
  lemma {:induction false} OwnStep(s: State, t: nat, s': State)
    requires Inv(s) && t < |s.calls| && Advance(s, t) == Some(s')
    ensures t < |s'.calls| && Nearer(s', s, t)
    ensures Holding(s.calls[t].pc) ==> s'.holder == None || (s'.holder == Some(t) && Holding(s'.calls[t].pc))
  {
    hide BodyStep, ListOk, LoggedAt, Left, Phase;
    assert CallOk(s, t);
    if s.calls[t].pc.Body? {
      BodyGetsNearer(s.users, s.calls[t].op, s.calls[t].pc.frame);
    }
  }

  /** What others do leaves a call where it is, and cannot touch the list while it has the mutex. */
  lemma {:induction false} OthersStep(s: State, a: Actor, s': State, t: nat)
    requires Inv(s) && t < |s.calls| && a != Step(t) && Acts(s, a, s')
    ensures t < |s'.calls| && s'.calls[t] == s.calls[t]
    ensures Holding(s.calls[t].pc) ==> s.holder == s'.holder == Some(t) && s'.users == s.users
  {
    hide BodyStep, ListOk, LoggedAt;
    assert CallOk(s, t);
    if a.Step? {
      assert CallOk(s, a.t);
    }
  }

  lemma {:induction false} StaysPut(run: nat -> State, who: nat -> Actor, i: nat, j: nat, t: nat)
    requires IsRun(run, who) && i <= j && t < |run(i).calls|
    requires forall m: nat | i <= m < j :: who(m) != Step(t)
    ensures t < |run(j).calls| && run(j).calls[t] == run(i).calls[t]
    ensures Holding(run(i).calls[t].pc) ==> run(j).holder == Some(t) && run(j).users == run(i).users
    decreases j
  {
    hide Inv, Acts;
    AlwaysInv(run, who, i);
    HolderHolds(run(i), t);
    if i < j {
      StaysPut(run, who, i, j - 1, t);
      AlwaysInv(run, who, j - 1);
      assert Acts(run(j - 1), who(j - 1), run(j - 1 + 1));
      OthersStep(run(j - 1), who(j - 1), run(j), t);
    }
  }

  lemma {:induction false} HolderHolds(s: State, t: nat)
    requires Inv(s) && t < |s.calls|
    ensures Holding(s.calls[t].pc) ==> s.holder == Some(t) && Enabled(s, t)
    ensures !Holding(s.calls[t].pc) && !s.calls[t].pc.Done? && s.holder == None ==> Enabled(s, t)
    ensures s.holder.Some? ==> s.holder.value < |s.calls| && Holding(s.calls[s.holder.value].pc)
  {
    assert CallOk(s, t);
  }

  // ----- the mutex is given back -----

  lemma {:induction false} HolderGetsToStep(run: nat -> State, who: nat -> Actor, i: nat, t: nat)
    requires IsRun(run, who) && Fair(run, who) && t < |run(i).calls| && Holding(run(i).calls[t].pc)
    ensures Taken(who, t, i)
  {
    hide Inv, Acts, Enabled;
    if !Taken(who, t, i) {
      forall j: nat | j >= i
        ensures EnabledAgain(run, t, j)
      {
        StaysPut(run, who, i, j, t);
        AlwaysInv(run, who, j);
        HolderHolds(run(j), t);
      }
    }
  }

  lemma {:induction false} GivenBack(run: nat -> State, who: nat -> Actor, i: nat, t: nat) returns (j: nat)
    requires IsRun(run, who) && Fair(run, who) && t < |run(i).calls| && Holding(run(i).calls[t].pc)
    ensures j > i && run(j).holder == None
    decreases PcRank(run(i).calls[t].pc), FrameRank(run(i).calls[t].pc), WalkRank(run(i).users, run(i).calls[t].pc)
  {
    hide Inv, Advance, Enabled, PcRank, FrameRank, WalkRank;
    HolderGetsToStep(run, who, i, t);
    var k: nat :| k >= i && who(k) == Step(t);
    var m := FirstStep(who, t, i, k);
    StaysPut(run, who, i, m, t);
    AlwaysInv(run, who, m);
    assert Acts(run(m), who(m), run(m + 1));
    OwnStep(run(m), t, run(m + 1));
    j := m + 1;
    if run(j).holder != None {
      j := GivenBack(run, who, j, t);
    }
  }

  // ----- every call returns -----

  lemma {:induction false} GetsToStep(run: nat -> State, who: nat -> Actor, i: nat, t: nat)
    requires IsRun(run, who) && Fair(run, who) && t < |run(i).calls| && !run(i).calls[t].pc.Done?
    ensures Taken(who, t, i)
  {
    hide Inv, Acts, Enabled;
    if Holding(run(i).calls[t].pc) {
      HolderGetsToStep(run, who, i, t);
    } else if !Taken(who, t, i) {
      forall j: nat | j >= i
        ensures EnabledAgain(run, t, j)
      {
        StaysPut(run, who, i, j, t);
        AlwaysInv(run, who, j);
        HolderHolds(run(j), t);
        if run(j).holder.Some? {
          var k := GivenBack(run, who, j, run(j).holder.value);
          StaysPut(run, who, i, k, t);
          AlwaysInv(run, who, k);
          HolderHolds(run(k), t);
        }
      }
    }
  }

  /** With fair scheduling every call that is made returns, whatever other calls are made meanwhile, and
      with the reply that a sequential run gives it. */
  lemma {:induction false} EveryCallReturns(run: nat -> State, who: nat -> Actor, i: nat, t: nat) returns (j: nat)
    requires IsRun(run, who) && Fair(run, who) && t < |run(i).calls|
    ensures j >= i && t < |run(j).calls| && ReturnsRight(run(j), t)
    decreases PcRank(run(i).calls[t].pc), FrameRank(run(i).calls[t].pc), WalkRank(run(i).users, run(i).calls[t].pc)
  {
    hide Inv, Advance, Enabled, PcRank, FrameRank, WalkRank;
    if run(i).calls[t].pc.Done? {
      j := i;
      AlwaysInv(run, who, i);
      DoneIsRight(run(i), t);
    } else {
      GetsToStep(run, who, i, t);
      var k: nat :| k >= i && who(k) == Step(t);
      var m := FirstStep(who, t, i, k);
      StaysPut(run, who, i, m, t);
      AlwaysInv(run, who, m);
      assert Acts(run(m), who(m), run(m + 1));
      OwnStep(run(m), t, run(m + 1));
      WalkOnlyWithMutex(run(i).calls[t].pc, run(i).users, run(m).users);
      j := EveryCallReturns(run, who, m + 1, t);
    }
  }

  predicate ReturnsRight(s: State, t: nat)
    requires t < |s.calls|
  {
    var c := s.calls[t];
    && c.pc.Done? && c.at < |s.log| && s.log[c.at] == c.op
    && c.pc.reply == ReplyAt(s.log, c.at)
  }

  lemma {:induction false} DoneIsRight(s: State, t: nat)
    requires Inv(s) && t < |s.calls| && s.calls[t].pc.Done?
    ensures ReturnsRight(s, t)
  {
    hide ReplyAt;
    assert CallOk(s, t);
  }

  lemma {:induction false} WalkOnlyWithMutex(pc: Pc, r: seq<User>, r': seq<User>)
    requires Holding(pc) ==> r == r'
    ensures WalkRank(r, pc) == WalkRank(r', pc)
  {
  }
}

/** Any sequence of connections, served one after the other: what they make of the directory, and which
    runs of operations they can cause. */
module Traffic {
  import opened Strings
  import opened Registry
  import opened Lines
  import opened Protocol
  import opened LinkedList
  import opened Server

  // ----- every stored string fits its array -----

  predicate Fits(s: Text) {
    |s| < MAX_VALUE_LENGTH && NUL !in s
  }

  predicate UserFits(u: User) {
    Fits(u.name) && Fits(u.ip) && Fits(u.port) && forall f | f in u.files :: Fits(f.name) && Fits(f.description)
  }

  predicate AllFit(r: seq<User>) {
    forall u | u in r :: UserFits(u)
  }

  predicate OpFits(op: Op) {
    Fits(op.user) &&
    match op
    case Connect(_, port, _) => Fits(port)
    case Publish(_, f, d, _) => Fits(f) && Fits(d)
    case _ => true
  }

  lemma {:induction false} ApplyKeepsFit(r: seq<User>, op: Op)
    requires AllFit(r) && OpFits(op)
    ensures AllFit(Apply(r, op).0)
  {
    var r', i := Apply(r, op).0, Find(r, op.user);
    if i < |r| && op.Mutates() && !op.Register? && !op.Unregister? {
      var u, u' := r[i], r'[i];
      assert UserFits(u);
      assert UserFits(u') by {
        if op.Delete? && u' != u {
          assert forall f | f in u'.files :: f in u.files;
        }
      }
      assert r' == r[i := u'];
    }
  }

  /** One connection as the server meets it. `residue` is whatever an aborted read leaves in the
      shared buffer. */
  datatype Visit = Visit(events: seq<Event>, memory: bool, peer: Peer, residue: Text)

  /** The directory and the shared buffer after a sequence of connections. */
  function ServeAll(visits: seq<Visit>): (seq<User>, Text) {
    if visits == [] then ([], [])
    else
      var (r, prior) := ServeAll(visits[..|visits| - 1]);
      var v := visits[|visits| - 1];
      var outcome := Serve(r, prior, v.events, v.memory, v.peer);
      (outcome.r, if outcome.left.Some? then outcome.left.value else v.residue)
  }

  lemma {:induction false} ArgumentsFit(events: seq<Event>, count: nat)
    requires ReadFields(events, count).Some?
    ensures forall f | f in ReadFields(events, count).value :: Fits(f)
    decreases count
  {
    if count > 0 {
      PayloadDelimiterFree(events);
      ArgumentsFit(Rest(events), count - 1);
    }
  }

  lemma {:induction false} ServeKeepsFit(r: seq<User>, prior: Text, events: seq<Event>, memory: bool, peer: Peer)
    requires Good(r) && AllFit(r)
    ensures Good(Serve(r, prior, events, memory, peer).r) && AllFit(Serve(r, prior, events, memory, peer).r)
  {
    hide Apply, ReadFields, Answer, KindOf, Good, AllFit, Fits;
    match ParseRequest(prior, events)
    case Aborted =>
    case Ignored(_) =>
    case Request(kind, fields) =>
      ArgumentsFit(Rest(events), Arity(kind));
      ReadFieldsCount(Rest(events), Arity(kind));
      assert forall k | 0 <= k < |fields| :: fields[k] in fields;
      var op := Operation(kind, fields, memory, peer);
      ApplyKeepsGood(r, op);
      ApplyKeepsFit(r, op);
  }

  /** After any octets from any clients, names are distinct and every stored string is shorter than
      its 256-byte array, so no copy into or out of the registry ever truncates. */
  lemma {:induction false} StoredStringsFit(visits: seq<Visit>)
    ensures Good(ServeAll(visits).0) && AllFit(ServeAll(visits).0)
    ensures forall u | u in ServeAll(visits).0 :: |u.name| < 256 && |u.ip| < 256 && |u.port| < 256
    ensures forall u, f | u in ServeAll(visits).0 && f in u.files :: |f.name| < 256 && |f.description| < 256
  {
    hide Serve;
    if visits != [] {
      var n := |visits| - 1;
      StoredStringsFit(visits[..n]);
      var (r, prior) := ServeAll(visits[..n]);
      var v := visits[n];
      ServeKeepsFit(r, prior, v.events, v.memory, v.peer);
    }
  }

  /** The operation a connection asks for, if its request is one. */
  function Requested(prior: Text, v: Visit): seq<Op> {
    match ParseRequest(prior, v.events)
    case Request(kind, fields) =>
      ReadFieldsCount(Rest(v.events), Arity(kind));
      [Operation(kind, fields, v.memory, v.peer)]
    case _ => []
  }

  function Performed(visits: seq<Visit>): seq<Op> {
    if visits == [] then []
    else
      var front := visits[..|visits| - 1];
      Performed(front) + Requested(ServeAll(front).1, visits[|visits| - 1])
  }

  /** Serving connections is running the operations they ask for, so every statement about runs is a
      statement about traffic. */
  lemma {:induction false} ServedIsRun(visits: seq<Visit>)
    ensures ServeAll(visits).0 == Run(Performed(visits)) && AllFit(Run(Performed(visits)))
  {
    hide Apply, Answer, ReadFields, KindOf, AllFit, Good;
    StoredStringsFit(visits);
    if visits != [] {
      var front := visits[..|visits| - 1];
      ServedIsRun(front);
      var asked := Requested(ServeAll(front).1, visits[|visits| - 1]);
      if asked == [] {
        assert Performed(front) + asked == Performed(front);
      } else {
        RunSnoc(Performed(front), asked[0]);
      }
    }
  }

  // ----- what is sent back -----

  /** What the server sends on each connection. */
  function Answers(visits: seq<Visit>): (texts: seq<Text>)
    ensures |texts| == |visits|
  {
    if visits == [] then []
    else
      var front, v := visits[..|visits| - 1], visits[|visits| - 1];
      var (r, prior) := ServeAll(front);
      Answers(front) + [Serve(r, prior, v.events, v.memory, v.peer).sent]
  }

  lemma {:induction false} AnswersAt(visits: seq<Visit>, n: nat)
    requires n < |visits|
    ensures
      var ((r, prior), v) := (ServeAll(visits[..n]), visits[n]);
      Answers(visits)[n] == Serve(r, prior, v.events, v.memory, v.peer).sent
  {
    hide Serve;
    if n < |visits| - 1 {
      assert visits[..|visits| - 1][..n] == visits[..n];
      AnswersAt(visits[..|visits| - 1], n);
    }
  }

  lemma {:induction false} PerformedPrefix(visits: seq<Visit>, n: nat)
    requires n <= |visits|
    ensures Performed(visits[..n]) <= Performed(visits)
  {
    if n < |visits| {
      PerformedPrefix(visits[..|visits| - 1], n);
      assert visits[..|visits| - 1][..n] == visits[..n];
    } else {
      assert visits[..n] == visits;
    }
  }

  // ----- a client's request reaches the list -----

  lemma {:induction false} TruncatedFields(fields: seq<Text>, k: nat)
    requires k < |fields|
    ensures |AllTruncated(fields)| == |fields| && AllTruncated(fields)[k] == Truncated(fields[k])
  {
    TruncatedCount(fields);
    if k > 0 {
      TruncatedFields(fields[1..], k - 1);
    }
  }

  lemma {:induction false} TruncatedCount(fields: seq<Text>)
    ensures |AllTruncated(fields)| == |fields|
  {
    if fields != [] {
      TruncatedCount(fields[1..]);
    }
  }

  /** A message built by the client from delimiter-free fields makes the server apply the operation
      of that name to those fields, each cut to 255 octets, and answer with its reply, whatever the
      shared buffer held, however the octets arrive and whatever comes after them. */
  lemma {:induction false} MessageIsServed(kind: Kind, fields: seq<Text>, r: seq<User>, prior: Text,
                                           events: seq<Event>, memory: bool, peer: Peer)
    requires |fields| == Arity(kind) && forall f | f in fields :: DelimiterFree(f)
    requires Delivers(events, Message(kind, fields))
    ensures |AllTruncated(fields)| == Arity(kind)
    ensures
      var op := Operation(kind, AllTruncated(fields), memory, peer);
      var outcome := Serve(r, prior, events, memory, peer);
      && outcome.r == Apply(r, op).0 && outcome.sent == Answer(kind, r, op)
      && outcome.left == Some(if kind.KListContent? then AllTruncated(fields)[2] else [])
  {
    TruncatedCount(fields);
    RequestRoundTrip(kind, fields, prior, events);
  }

  // ----- the runs that traffic can cause -----

  predicate Clean(s: Text) {
    |s| < MAX_VALUE_LENGTH && DelimiterFree(s)
  }

  predicate Sendable(op: Op) {
    Clean(op.user) &&
    match op
    case Connect(_, port, _) => Clean(port)
    case Publish(_, f, d, _) => Clean(f) && Clean(d)
    case Delete(_, f) => Clean(f)
    case ListContent(_, target) => Clean(target)
    case _ => true
  }

  function KindFor(op: Op): Kind {
    match op
    case Register(_, _) => KRegister
    case Unregister(_) => KUnregister
    case Connect(_, _, _) => KConnect
    case Disconnect(_) => KDisconnect
    case Publish(_, _, _, _) => KPublish
    case Delete(_, _) => KDelete
    case ListUsers(_) => KListUsers
    case ListContent(_, _) => KListContent
  }

  /** The fields of a request for the operation, with an empty date. */
  function FieldsFor(op: Op): (fields: seq<Text>)
    ensures |fields| == Arity(KindFor(op))
  {
    match op
    case Connect(u, port, _) => [[], u, port]
    case Publish(u, f, d, _) => [[], u, f, d]
    case Delete(u, f) => [[], u, f]
    case ListContent(u, target) => [[], u, target]
    case _ => [[], op.user]
  }

  function VisitFor(op: Op): Visit {
    Visit(Stream(Message(KindFor(op), FieldsFor(op))),
          if op.Register? || op.Publish? then op.memory else true,
          if op.Connect? then op.peer else NoPeer, [])
  }

  lemma {:induction false} CleanFields(fields: seq<Text>)
    requires forall f | f in fields :: Clean(f)
    ensures AllTruncated(fields) == fields && forall f | f in fields :: DelimiterFree(f)
  {
    if fields != [] {
      assert fields[0] in fields && Truncated(fields[0]) == fields[0];
      CleanFields(fields[1..]);
    }
  }

  lemma {:induction false} SendableFields(op: Op)
    requires Sendable(op)
    ensures forall f | f in FieldsFor(op) :: Clean(f)
  {
  }

  lemma {:induction false} VisitAsks(prior: Text, op: Op)
    requires Sendable(op)
    ensures Requested(prior, VisitFor(op)) == [op]
  {
    hide Message, ParseRequest, Clean, AllTruncated, Sendable;
    var kind, fields, v := KindFor(op), FieldsFor(op), VisitFor(op);
    SendableFields(op);
    CleanFields(fields);
    assert DeliversWith(v.events, Message(kind, fields), v.events);
    RequestRoundTrip(kind, fields, prior, v.events);
  }

  lemma {:induction false} ArgumentsClean(events: seq<Event>, count: nat)
    requires ReadFields(events, count).Some?
    ensures forall f | f in ReadFields(events, count).value :: Clean(f)
    decreases count
  {
    if count > 0 {
      PayloadDelimiterFree(events);
      ArgumentsClean(Rest(events), count - 1);
    }
  }

  lemma {:induction false} AsksSendable(prior: Text, v: Visit)
    ensures forall op | op in Requested(prior, v) :: Sendable(op)
  {
    hide ReadFields, KindOf, Clean;
    match ParseRequest(prior, v.events)
    case Request(kind, fields) =>
      ArgumentsClean(Rest(v.events), Arity(kind));
      ReadFieldsCount(Rest(v.events), Arity(kind));
      assert forall k | 0 <= k < |fields| :: fields[k] in fields;
    case _ =>
  }

  lemma {:induction false} TrafficFor(ops: seq<Op>) returns (visits: seq<Visit>)
    requires forall op | op in ops :: Sendable(op)
    ensures Performed(visits) == ops
  {
    hide Requested, VisitFor, Sendable, ServeAll;
    if ops == [] {
      visits := [];
    } else {
      var front := TrafficFor(ops[..|ops| - 1]);
      var op := ops[|ops| - 1];
      visits := front + [VisitFor(op)];
      assert visits[..|visits| - 1] == front;
      VisitAsks(ServeAll(front).1, op);
    }
  }

  lemma {:induction false} PerformedSendable(visits: seq<Visit>)
    ensures forall op | op in Performed(visits) :: Sendable(op)
  {
    if visits != [] {
      var front := visits[..|visits| - 1];
      PerformedSendable(front);
      AsksSendable(ServeAll(front).1, visits[|visits| - 1]);
    }
  }

  /** Traffic can cause exactly the runs whose strings are free of delimiters and shorter than a field,
      with every outcome of malloc and getpeername. */
  lemma {:induction false} ServableRuns(ops: seq<Op>)
    ensures (exists visits :: Performed(visits) == ops) <==> forall op | op in ops :: Sendable(op)
  {
    if visits :| Performed(visits) == ops {
      PerformedSendable(visits);
    }
    if forall op | op in ops :: Sendable(op) {
      var visits := TrafficFor(ops);
    }
  }

  // ----- on the heap -----

  lemma {:induction false} NothingServed()
    ensures ServeAll([]) == ([], [])
  {
  }

  lemma {:induction false} OneMore(seen: seq<Visit>, v: Visit)
    ensures
      var (r, prior) := ServeAll(seen);
      var outcome := Serve(r, prior, v.events, v.memory, v.peer);
      && ServeAll(seen + [v]) == (outcome.r, if outcome.left.Some? then outcome.left.value else v.residue)
      && Answers(seen + [v]) == Answers(seen) + [outcome.sent]
  {
    hide Serve;
    assert (seen + [v])[..|seen|] == seen;
  }

  /** The server from its start: connections served one after the other on one list and through one
      buffer. `scripts` says how the writes of each go, and `seen` is what the visits leave in the
      buffer where a read fails. */
  method ServeConnections(visits: seq<Visit>, scripts: seq<seq<int>>)
      returns (list: UserList, sent: seq<Text>, ghost seen: seq<Visit>)
    requires |scripts| == |visits|
    ensures |sent| == |seen| == |visits|
    ensures forall k | 0 <= k < |visits| :: seen[k] == visits[k].(residue := seen[k].residue)
    ensures list.Valid() && list.contents == ServeAll(seen).0 == Run(Performed(seen)) && AllFit(list.contents)
    ensures forall k | 0 <= k < |visits| && WritesSucceed(scripts[k]) :: sent[k] == Answers(seen)[k]
  {
    hide UserList.Valid, CStr, Serve, AllFit, ServeAll, Answers, Run, Performed;
    NothingServed();
    list := new UserList();
    var buffer := new Octet[MAX_VALUE_LENGTH];
    Zero(buffer);
    sent, seen := [], [];
    for i := 0 to |visits|
      invariant |sent| == |seen| == i
      invariant forall k | 0 <= k < i :: seen[k] == visits[k].(residue := seen[k].residue)
      invariant list.Valid() && fresh(list) && fresh(list.liveUsers) && fresh(list.liveFiles)
      invariant fresh(buffer) && buffer[MAX_VALUE_LENGTH - 1] == NUL
      invariant ServeAll(seen) == (list.contents, CStr(buffer[..]))
      invariant forall k | 0 <= k < i && WritesSucceed(scripts[k]) :: sent[k] == Answers(seen)[k]
    {
      var v := visits[i];
      var sock := new Socket(v.events, scripts[i]);
      TreatRequest(list, sock, buffer, v.memory, v.peer);
      assert sock.outgoing == [] + sock.outgoing;
      ghost var visit := v.(residue := CStr(buffer[..]));
      OneMore(seen, visit);
      sent, seen := sent + [sock.outgoing], seen + [visit];
    }
    ServedIsRun(seen);
  }
}

/** From what a client writes to what a client reads: any sequence of connections, served one after
    the other, seen through the wire. */
module EndToEnd {
  import opened Strings
  import opened Registry
  import opened Lines
  import opened Protocol
  import opened Server
  import opened Traffic
  import opened History
  import opened Client
  import opened Requests
  import Directory

  // ----- codes on the wire -----

  /** The status the client reads is the operation's code as one digit, for codes 0 to 4; the -1 of a
      failed register reads as a slash. */
  lemma {:induction false} StatusReadBack(kind: Kind, r: seq<User>, op: Op)
    ensures
      var code, sent := Apply(r, op).1.code, Answer(kind, r, op);
      && NextField(sent) == Got([48 + code], sent[2..])
      && (code >= 0 ==> NextField(sent).text == Decimal(code))
  {
  }

  // ----- peer lookup -----

  /** What a lookup of `target` ought to find in the directory. */
  function Expected(r: seq<User>, target: Text): Lookup {
    var i := Find(r, target);
    if i == |r| || r[i].ip == [] then Absent
    else match PyInt(r[i].port) case None => LookupRaises case Some(p) => Found(r[i].ip, p)
  }

  /** Position of the target among the contacts, or their number. */
  function Position(cs: seq<Contact>, target: Text): (k: nat)
    ensures k <= |cs|
    ensures k < |cs| ==> cs[k].name == target
    ensures forall j | 0 <= j < k :: cs[j].name != target
  {
    if cs == [] || cs[0].name == target then 0 else 1 + Position(cs[1..], target)
  }

  lemma {:induction false} LookupAtPosition(cs: seq<Contact>, target: Text)
    ensures
      var k := Position(cs, target);
      LookupIn(cs, target) ==
        if exists j :: 0 <= j <= k && j < |cs| && !Readable(cs[j]) then LookupRaises
        else if k == |cs| then Absent
        else match PyInt(cs[k].port) case None => LookupRaises case Some(p) => Found(cs[k].ip, p)
  {
    if cs != [] && Readable(cs[0]) && cs[0].name != target {
      LookupAtPosition(cs[1..], target);
      assert forall j | 1 <= j < |cs| :: cs[j] == cs[1..][j - 1];
      var k := Position(cs, target);
      if exists j :: 0 <= j <= k && j < |cs| && !Readable(cs[j]) {
        var j :| 0 <= j <= k && j < |cs| && !Readable(cs[j]);
        assert !Readable(cs[1..][j - 1]);
      }
    }
  }

  lemma {:induction false} ConnectedFits(r: seq<User>)
    requires AllFit(r)
    ensures AllNulFree(ContactFields(Connected(r)))
  {
    var at := ConnectedPositions(r);
    forall i | 0 <= i < |at|
      ensures
        var c := Connected(r)[i];
        NUL !in c.name && NUL !in c.ip && NUL !in c.port
    {
      assert ContactAt(r, at[i], Connected(r)[i]);
      assert r[at[i]] in r && UserFits(r[at[i]]);
    }
    ContactFieldsFree(Connected(r));
  }

  lemma {:induction false} ContactFieldsFree(cs: seq<Contact>)
    requires forall i | 0 <= i < |cs| :: NUL !in cs[i].name && NUL !in cs[i].ip && NUL !in cs[i].port
    ensures AllNulFree(ContactFields(cs))
  {
    if cs != [] {
      ContactFieldsFree(cs[1..]);
    }
  }

  /** In a good directory the target's position among the contacts is the target's own record. */
  lemma {:induction false} TargetAmongContacts(r: seq<User>, target: Text)
    requires Good(r)
    ensures
      var i, cs := Find(r, target), Connected(r);
      var k := Position(cs, target);
      && (k < |cs| <==> i < |r| && r[i].ip != [])
      && (k < |cs| ==> cs[k] == Contact(target, r[i].ip, r[i].port))
  {
    var cs, i := Connected(r), Find(r, target);
    var at := ConnectedPositions(r);
    var k := Position(cs, target);
    if k < |cs| {
      assert ContactAt(r, at[k], cs[k]);
    } else if i < |r| && r[i].ip != [] {
      Directory.ConnectedMembers(r, Contact(r[i].name, r[i].ip, r[i].port));
      assert false;
    }
  }

  /** No contact up to the target's, or none at all if the target is not connected, holds a character of
      several octets. */
  predicate ReadableUpTo(r: seq<User>, target: Text) {
    var cs := Connected(r);
    forall j | 0 <= j <= Position(cs, target) && j < |cs| :: Readable(cs[j])
  }

  /** A connected user asks LIST_USERS; the client parses the reply for a target. It obtains what the
      directory says of the target if the contacts up to the target's are readable, and raises
      otherwise. */
  lemma {:induction false} PeerLookup(r: seq<User>, asker: Text, target: Text)
    requires Good(r) && AllFit(r)
    requires Apply(r, ListUsers(asker)).1.code == 0
    ensures
      var status := NextField(Answer(KListUsers, r, ListUsers(asker)));
      && status.Got? && status.text == Decimal(0)
      && LookupReply(status.rest, target) == if ReadableUpTo(r, target) then Expected(r, target) else LookupRaises
  {
    var sent, cs := Answer(KListUsers, r, ListUsers(asker)), Connected(r);
    StatusReadBack(KListUsers, r, ListUsers(asker));
    assert Apply(r, ListUsers(asker)).1 == Reply(0, cs, []);
    assert sent == Status(0) + ContactsBody(cs);
    assert sent[2..] == ContactsBody(cs) + [];
    ConnectedFits(r);
    LookupRoundTrip(cs, target, []);
    LookupAtPosition(cs, target);
    TargetAmongContacts(r, target);
  }

  /** The lookup after a whole run: the client finds (ip, p) iff the contacts up to the target's are
      readable and some successful connect of the target from ip, with a port text that reads as p, was
      not followed by a successful connect, disconnect, register or unregister of the target; and it
      finds nobody iff they are readable and there is no such connect at all. */
  lemma {:induction false} LookupAfterRun(ops: seq<Op>, asker: Text, target: Text, ip: Text, p: int)
    requires AllFit(Run(ops)) && ReplyAt(ops + [ListUsers(asker)], |ops|).code == 0
    ensures
      var status := NextField(Answer(KListUsers, Run(ops), ListUsers(asker)));
      && status.Got?
      && (LookupReply(status.rest, target) == Found(ip, p) <==>
           && ReadableUpTo(Run(ops), target)
           && exists port :: PyInt(port) == Some(p) && Lasts(Successes(ops), Online(target, ip, port)))
      && (LookupReply(status.rest, target) == Absent <==>
           ReadableUpTo(Run(ops), target) && !EverOnline(Successes(ops), target))
  {
    hide EverOnline, Run, Successes, Lasts, Find, Connected, ReplyAt, Answer, LookupReply, ReadableUpTo, AllFit, PyInt;
    var r := Run(ops);
    RunIsGood(ops);
    RunSnoc(ops, ListUsers(asker));
    PeerLookup(r, asker, target);
    OnlineFromHistory(ops, target);
    var i := Find(r, target);
    if i < |r| {
      WholeRunHistory(ops, Online(target, r[i].ip, r[i].port));
    }
    forall port | PyInt(port) == Some(p) && Lasts(Successes(ops), Online(target, ip, port))
      ensures Expected(r, target) == Found(ip, p)
    {
      WholeRunHistory(ops, Online(target, ip, port));
    }
  }

  // ----- contents -----

  /** A connected user asks LIST_CONTENT of anyone registered, connected or not; the client shows
      exactly the target's files, newest first, iff all have a name and every character is a single
      octet. */
  lemma {:induction false} ContentAfterRun(ops: seq<Op>, asker: Text, target: Text)
    requires AllFit(Run(ops)) && ReplyAt(ops + [ListContent(asker, target)], |ops|).code == 0
    ensures Find(Run(ops), target) < |Run(ops)|
    ensures
      var files := Run(ops)[Find(Run(ops), target)].files;
      var status := NextField(Answer(KListContent, Run(ops), ListContent(asker, target)));
      && status.Got?
      && (ReadTable(status.rest, 2) == Shown(FileFields(files)) <==>
           AllSingleOctet(FileFields(files)) && forall f | f in files :: f.name != [])
  {
    hide Run, Connected, FileFields, FilesBody, ReadTable, NamedCount, AllFit, AllSingleOctet;
    var r := Run(ops);
    RunSnoc(ops, ListContent(asker, target));
    ContentSent(r, asker, target);
    ContentRoundTrip(r[Find(r, target)].files, []);
  }

  /** What the client has left to read after the status of a successful LIST_CONTENT. */
  lemma {:induction false} ContentSent(r: seq<User>, asker: Text, target: Text)
    requires AllFit(r) && Apply(r, ListContent(asker, target)).1.code == 0
    ensures
      var i := Find(r, target);
      var status := NextField(Answer(KListContent, r, ListContent(asker, target)));
      && i < |r| && Apply(r, ListContent(asker, target)).1 == Reply(0, [], r[i].files)
      && status.Got? && status.rest == FilesBody(r[i].files) + [] && AllNulFree(FileFields(r[i].files))
  {
    hide Connected, FileFields, FilesBody;
    var u, op := r[Find(r, target)], ListContent(asker, target);
    assert u in r && UserFits(u);
    StatusReadBack(KListContent, r, op);
    assert Answer(KListContent, r, op)[2..] == FilesBody(u.files) + [];
    FileFieldsFree(u.files);
  }

  lemma {:induction false} FileFieldsFree(fs: seq<File>)
    requires forall f | f in fs :: NUL !in f.name && NUL !in f.description
    ensures AllNulFree(FileFields(fs))
  {
    if fs != [] {
      assert fs[0] in fs;
      FileFieldsFree(fs[1..]);
    }
  }

  lemma {:induction false} RowOfFile(fs: seq<File>, k: nat)
    requires k < |fs|
    ensures |FileFields(fs)| == 2 * |fs|
    ensures FileFields(fs)[2 * k] == fs[k].name && FileFields(fs)[2 * k + 1] == fs[k].description
  {
    FileFieldsCount(fs);
    if k > 0 {
      RowOfFile(fs[1..], k - 1);
    }
  }

  lemma {:induction false} OneFilePerName(r: seq<User>, u: User)
    requires Good(r) && u in r
    ensures forall k | 0 <= k < |u.files| :: FindFile(u.files, u.files[k].name) == k
  {
  }

  /** A row of the client's table reads (name, description) iff that name was last successfully
      published with that description and has not been deleted, nor its owner reset, since. */
  lemma {:induction false} ShownIffPublished(ops: seq<Op>, target: Text, name: Text, description: Text,
                                             texts: seq<Text>)
    requires Find(Run(ops), target) < |Run(ops)|
    requires texts == FileFields(Run(ops)[Find(Run(ops), target)].files)
    ensures |texts| % 2 == 0
    ensures
      (exists k: nat :: ShowsRow(texts, k, name, description)) <==>
      Lasts(Successes(ops), Listed(target, name, description))
  {
    hide Run, Successes, Lasts, FileFields, FindFile, Find;
    var r := Run(ops);
    var u := r[Find(r, target)];
    RunIsGood(ops);
    OneFilePerName(r, u);
    WholeRunHistory(ops, Listed(target, name, description));
    FileFieldsCount(u.files);
    forall k: nat | k < |u.files|
      ensures texts[2 * k] == u.files[k].name && texts[2 * k + 1] == u.files[k].description
    {
      RowOfFile(u.files, k);
    }
    var k := FindFile(u.files, name);
    if k < |u.files| && u.files[k].description == description {
      assert ShowsRow(texts, k, name, description);
    }
  }

  // ----- through any traffic -----

  /** A fact that holds after the n-th connection, and that none of the later ones undoes, still holds. */
  lemma {:induction false} HoldsSince(visits: seq<Visit>, n: nat, fact: Fact)
    requires n < |visits| && Holds(ServeAll(visits[..n + 1]).0, fact)
    requires LeftAlone(Performed(visits), |Performed(visits[..n + 1])|, fact)
    ensures Holds(ServeAll(visits).0, fact)
  {
    hide Holds, LeftAlone, Run, AllFit, ServeAll, Performed;
    var ops, upto := Performed(visits), visits[..n + 1];
    ServedIsRun(upto); ServedIsRun(visits);
    PerformedPrefix(visits, n + 1);
    assert ops[..|Performed(upto)|] == Performed(upto);
    FactStays(ops, |Performed(upto)|, fact);
  }

  /** The n-th connection's part. */
  lemma {:induction false} ServedAt(visits: seq<Visit>, n: nat)
    requires n < |visits|
    ensures
      var (r, prior) := ServeAll(visits[..n]);
      var outcome := Serve(r, prior, visits[n].events, visits[n].memory, visits[n].peer);
      && Good(r) && ServeAll(visits[..n + 1]).0 == outcome.r && Answers(visits)[n] == outcome.sent
  {
    hide Serve, Good, AllFit, Answers, ServeAll;
    StoredStringsFit(visits[..n]);
    AnswersAt(visits, n);
    assert visits[..n + 1] == visits[..n] + [visits[n]];
    OneMore(visits[..n], visits[n]);
  }

  /** The name and the description typed on a PUBLISH line. */
  function NameOn(line: Text): Text {
    if |Split(line)| >= 3 then Split(line)[1] else []
  }

  function DescriptionOn(line: Text): Text {
    if |Split(line)| >= 3 then Join(Split(line)[2..]) else []
  }

  /** These are the second word of the line and all that follows it. */
  lemma {:induction false} TypedParts(line: Text)
    requires |Split(line)| >= 3
    ensures SPACE !in Split(line)[0] && SPACE !in NameOn(line)
    ensures line == Split(line)[0] + [SPACE] + NameOn(line) + [SPACE] + DescriptionOn(line)
  {
    hide Split, Join;
    EveryPublishLine(line);
  }

  /** The visit is a client's PUBLISH of what was typed on the line. */
  ghost predicate Publishes(v: Visit, date: Text, user: Text, line: Text) {
    && |Split(line)| >= 3
    && Delivers(v.events, Wire("PUBLISH", [date, user, WithoutSpaces(NameOn(line)), DescriptionOn(line)]))
  }

  /** What a successful PUBLISH of the line puts into the directory. */
  function Typed(user: Text, line: Text): (fact: Fact)
    ensures fact.Listed?
  {
    Listed(Truncated(user), NameOn(line), Truncated(DescriptionOn(line)))
  }

  lemma {:induction false} PublishedHolds(r: seq<User>, prior: Text, v: Visit, date: Text, user: Text, line: Text)
    requires Good(r) && DelimiterFree(date) && DelimiterFree(user) && DelimiterFree(line)
    requires |NameOn(line)| <= 255 && Publishes(v, date, user, line)
    requires Serve(r, prior, v.events, v.memory, v.peer).sent == Status(0)
    ensures Holds(Serve(r, prior, v.events, v.memory, v.peer).r, Typed(user, line))
  {
    hide Serve, Holds, SplitAt, JoinWith, Apply, Wire, Delivers, Truncated;
    var name, description := NameOn(line), DescriptionOn(line);
    EveryPublishLine(line);
    assert forall c | c in name || c in description :: c in line;
    PublishIsServed(date, user, name, description, r, prior, v);
    ExceedsExactly(name);
    var op := Publish(Truncated(user), name, Truncated(description), v.memory);
    CodeAnswer(KPublish, r, op);
    HoldsStep(r, op, Typed(user, line));
  }

  /** From the keyboard of one client to the screen of another. A user types a PUBLISH line; the server
      answers 0; other connections follow, none of which successfully deletes or republishes the file
      or registers or unregisters its owner. Then whoever may list the owner's content sees the name
      with the description verbatim, cut to 255 octets, iff the file's place in the listing is below
      the count of named files and the rows up to that count are of single octets. */
  lemma {:induction false} TypedTextIsShown(visits: seq<Visit>, n: nat, date: Text, user: Text, line: Text, asker: Text)
    requires DelimiterFree(date) && DelimiterFree(user) && DelimiterFree(line) && |NameOn(line)| <= 255
    requires n < |visits| && Publishes(visits[n], date, user, line)
    ensures
      var r, fact := ServeAll(visits).0, Typed(user, line);
      && Answers(visits)[n] == Status(0)
      && LeftAlone(Performed(visits), |Performed(visits[..n + 1])|, fact)
      && Apply(r, ListContent(asker, fact.user)).1.code == 0
      ==> (Screens(r, asker, fact) <==> Displayable(r, fact))
  {
    hide Serve, Holds, Typed, Publishes, Apply, LeftAlone, Good, AllFit, Screens, Displayable, NameOn, ServeAll;
    var r, fact := ServeAll(visits).0, Typed(user, line);
    ServedAt(visits, n);
    StoredStringsFit(visits);
    if && Answers(visits)[n] == Status(0)
       && LeftAlone(Performed(visits), |Performed(visits[..n + 1])|, fact)
       && Apply(r, ListContent(asker, fact.user)).1.code == 0 {
      var (before, prior) := ServeAll(visits[..n]);
      PublishedHolds(before, prior, visits[n], date, user, line);
      HoldsSince(visits, n, fact);
      ListingDisplays(r, asker, fact);
    }
  }

  predicate ShowsRow(texts: seq<Text>, k: nat, name: Text, description: Text) {
    2 * k + 1 < |texts| && texts[2 * k] == name && texts[2 * k + 1] == description
  }

  /** The table displayed to the asker has a row for the listed file. */
  ghost predicate Screens(r: seq<User>, asker: Text, fact: Fact)
    requires fact.Listed?
  {
    var status := NextField(Answer(KListContent, r, ListContent(asker, fact.user)));
    status.Got? && match ReadTable(status.rest, 2)
                   case Shown(texts) => exists k: nat :: ShowsRow(texts, k, fact.file, fact.description)
                   case _ => false
  }

  /** The owner's file stands among the first as many as have a name, and these are of single octets. */
  predicate Displayable(r: seq<User>, fact: Fact)
    requires fact.Listed?
  {
    var i := Find(r, fact.user);
    i < |r| &&
    var n := NamedCount(r[i].files);
    FindFile(r[i].files, fact.file) < n && AllSingleOctet(FileFields(r[i].files[..n]))
  }

  lemma {:induction false} ListingDisplays(r: seq<User>, asker: Text, fact: Fact)
    requires fact.Listed? && AllFit(r) && Holds(r, fact)
    requires Apply(r, ListContent(asker, fact.user)).1.code == 0
    ensures Screens(r, asker, fact) <==> Displayable(r, fact)
  {
    hide Apply, AllFit, ReadTable, NextField, Answer, FileFields, AllSingleOctet, FilesBody, Find;
    ContentSent(r, asker, fact.user);
    var fs := r[Find(r, fact.user)].files;
    var n := NamedCount(fs);
    FilesReadBack(fs, []);
    FileFieldsCount(fs[..n]);
    var k := FindFile(fs, fact.file);
    if k < n {
      RowOfFile(fs[..n], k);
      assert ShowsRow(FileFields(fs[..n]), k, fact.file, fact.description);
    }
    if Screens(r, asker, fact) {
      var j: nat :| ShowsRow(FileFields(fs[..n]), j, fact.file, fact.description);
      RowOfFile(fs[..n], j);
      assert fs[j].name == fact.file && k <= j;
    }
  }

  /** What the client has to be told of a peer: an address that reads as the four numbers, and the
      port. */
  predicate FindsPeer(found: Lookup, peer: Peer, port: nat)
    requires peer.Address?
  {
    found.Found? && IsDottedQuad(found.ip, peer.a, peer.b, peer.c, peer.d) && found.port == port
  }

  /** From one client's socket to another's. A user connects and the server answers 0; other
      connections follow, none of which successfully disconnects, reconnects, registers or unregisters
      the user. Then whoever may list the users finds the four numbers of the address the connection
      came from and the port that was bound, iff the contacts up to the user's are readable. */
  lemma {:induction false} BoundPortIsFound(visits: seq<Visit>, n: nat, date: Text, user: Text, port: nat, asker: Text)
    requires DelimiterFree(date) && DelimiterFree(user) && port < 65536 && n < |visits| && visits[n].peer.Address?
    requires Delivers(visits[n].events, Wire("CONNECT", [date, user, Decimal(port)]))
    ensures
      var r, name, peer := ServeAll(visits).0, Truncated(user), visits[n].peer;
      var ip := InetNtoa(peer.a, peer.b, peer.c, peer.d);
      && Answers(visits)[n] == Status(0)
      && LeftAlone(Performed(visits), |Performed(visits[..n + 1])|, Online(name, ip, Decimal(port)))
      && Apply(r, ListUsers(asker)).1.code == 0
      ==>
        var status := NextField(Answer(KListUsers, r, ListUsers(asker)));
        && status.Got?
        && (FindsPeer(LookupReply(status.rest, name), peer, port) <==> ReadableUpTo(r, name))
  {
    hide Serve, Apply, LeftAlone, Good, AllFit, ServeAll, InetNtoa, Decimal, LookupReply, NextField, Answer,
         ReadableUpTo, PyInt, Truncated, Delivers, Wire, Answers, IsDottedQuad;
    var r, name, peer := ServeAll(visits).0, Truncated(user), visits[n].peer;
    var fact := Online(name, InetNtoa(peer.a, peer.b, peer.c, peer.d), Decimal(port));
    ServedAt(visits, n);
    StoredStringsFit(visits);
    if && Answers(visits)[n] == Status(0)
       && LeftAlone(Performed(visits), |Performed(visits[..n + 1])|, fact)
       && Apply(r, ListUsers(asker)).1.code == 0 {
      var (before, prior) := ServeAll(visits[..n]);
      ConnectIsServed(date, user, port, before, prior, visits[n]);
      var op := Connect(name, Decimal(port), peer);
      CodeAnswer(KConnect, before, op);
      HoldsStep(before, op, fact);
      HoldsSince(visits, n, fact);
      PeerLookup(r, asker, name);
      DecimalRoundTrip(port);
    }
  }

  // ----- return codes -----

  /** The texts of a successful listing that the client reads. */
  function Rows(kind: Kind, reply: Reply): seq<Text> {
    match kind
    case KListUsers => ContactFields(reply.contacts)
    case KListContent => FileFields(reply.files[..NamedCount(reply.files)])
    case _ => []
  }

  lemma {:induction false} ListingReadBack(kind: Kind, r: seq<User>, op: Op)
    requires AllFit(r) && Apply(r, op).1.code == 0
    requires (kind.KListUsers? && op.ListUsers?) || (kind.KListContent? && op.ListContent?)
    ensures
      var rows := Rows(kind, Apply(r, op).1);
      ReadTable(Answer(kind, r, op)[2..], Width(kind)) == if AllSingleOctet(rows) then Shown(rows) else Raises
  {
    hide ReadTable, ContactsBody, FilesBody, FileFields, ContactFields, Find, Connected, NamedCount;
    var reply, sent := Apply(r, op).1, Answer(kind, r, op);
    if kind.KListUsers? {
      assert sent[2..] == ContactsBody(reply.contacts) + [];
      ConnectedFits(r);
      ContactsReadBack(reply.contacts, []);
    } else {
      var u := r[Find(r, op.target)];
      assert u in r && UserFits(u);
      FileFieldsFree(u.files);
      assert sent[2..] == FilesBody(reply.files) + [];
      FilesReadBack(reply.files, []);
    }
  }

  /** What the caller of a protocol method is told when the server has served its request: the code of
      the list, 0 to 4 in the order of the enumeration, with two exceptions. A register that ran out
      of memory is a USER_ERROR, and a successful listing is a failure when a text to be shown holds a
      character of several octets. The client never waits for more than it is sent. */
  lemma {:induction false} ClientIsTold(kind: Kind, fields: seq<Text>, r: seq<User>, memory: bool, peer: Peer)
    requires |fields| == Arity(kind) && AllFit(r)
    ensures
      var op := Operation(kind, fields, memory, peer);
      var reply := Apply(r, op).1;
      && -1 <= reply.code <= 4
      && Reported(kind, Answer(kind, r, op)) ==
           Returned(if reply.code == -1 then USER_ERROR
                    else if reply.code == 0 && !AllSingleOctet(Rows(kind, reply)) then
                      if kind.KListUsers? then OTHER_CASES else ANOTHER_CASES
                    else [OK, ERROR, USER_ERROR, OTHER_CASES, ANOTHER_CASES][reply.code])
  {
    hide Answer, InetNtoa, Connected, Remove, ReadTable, AllFit, FileFields, ContactFields;
    var op := Operation(kind, fields, memory, peer);
    CodesInRange(r, op);
    StatusReadBack(kind, r, op);
    if Apply(r, op).1.code == 0 && Width(kind) > 0 {
      ListingReadBack(kind, r, op);
    }
  }

  /** The octets of an answer that the client reads: all but the rows of files that the count leaves
      out. */
  function ReadPart(kind: Kind, r: seq<User>, op: Op): Text {
    CodesInRange(r, op);
    var reply := Apply(r, op).1;
    Status(reply.code) +
    if reply.code != 0 || Width(kind) == 0 then []
    else Framed([Decimal(RowCount(kind, reply))]) + Framed(Rows(kind, reply))
  }

  function RowCount(kind: Kind, reply: Reply): nat {
    if kind.KListUsers? then |reply.contacts| else NamedCount(reply.files)
  }

  lemma {:induction false} ReadPartIsSent(kind: Kind, fields: seq<Text>, r: seq<User>, memory: bool, peer: Peer)
    requires |fields| == Arity(kind)
    ensures
      var op := Operation(kind, fields, memory, peer);
      ReadPart(kind, r, op) <= Answer(kind, r, op)
  {
    hide Apply, Decimal, Framed, FileFields, NamedCount;
    var op := Operation(kind, fields, memory, peer);
    CodesInRange(r, op);
    var fs := Apply(r, op).1.files;
    var k := NamedCount(fs);
    FileFieldsSplit(fs, k);
    FramedAppend(FileFields(fs[..k]), FileFields(fs[k..]));
  }

  lemma {:induction false} CutTableHangs(n: nat, rows: seq<Text>, width: nat, data: Text)
    requires Complete(rows) && |rows| == width * n && data < Framed([Decimal(n)]) + Framed(rows)
    ensures ReadTable(data, width) == Hangs
  {
    hide PyInt, Decimal;
    var count := Decimal(n);
    CountReadBack(n, []);
    FramedOne(count);
    if |data| <= |count| {
      assert data < Framed([count]);
      assert forall c | c in count :: IsDigit(c);
      CutFieldsWait([count], data);
      assert NextFields(data, 1) == Broken(Waits);
      FieldIsExact(data);
    } else {
      var rest := data[|count| + 1..];
      assert data == Framed([count]) + rest && rest < Framed(rows);
      CountReadBack(n, rest);
      CutFieldsWait(rows, rest);
    }
  }

  lemma {:induction false} RowsComplete(kind: Kind, r: seq<User>, op: Op)
    requires AllFit(r) && Apply(r, op).1.code == 0 && AllSingleOctet(Rows(kind, Apply(r, op).1))
    requires (kind.KListUsers? && op.ListUsers?) || (kind.KListContent? && op.ListContent?)
    ensures
      var reply := Apply(r, op).1;
      && Complete(Rows(kind, reply))
      && |Rows(kind, reply)| == Width(kind) * RowCount(kind, reply)
  {
    hide FileFields, ContactFields, Find, Connected, NamedCount, Framed, SingleOctet;
    var reply := Apply(r, op).1;
    if kind.KListUsers? {
      ConnectedFits(r);
      ContactFieldsCount(reply.contacts);
    } else {
      var u, k := r[Find(r, op.target)], NamedCount(reply.files);
      assert u in r && UserFits(u);
      FileFieldsFree(u.files);
      FileFieldsCount(u.files[..k]);
      FileFieldsSplit(u.files, k);
    }
  }

  /** A client whose answer breaks off anywhere waits for the rest: it never takes a part for the whole. */
  lemma {:induction false} CutAnswerIsAwaited(kind: Kind, fields: seq<Text>, r: seq<User>, memory: bool, peer: Peer,
                                              data: Text)
    requires |fields| == Arity(kind) && AllFit(r)
    requires
      var op := Operation(kind, fields, memory, peer);
      data < ReadPart(kind, r, op) && (Apply(r, op).1.code == 0 ==> AllSingleOctet(Rows(kind, Apply(r, op).1)))
    ensures Reported(kind, data) == Stuck
  {
    hide Apply, AllFit, ReadTable, Rows, RowCount, Decimal, Framed;
    var op := Operation(kind, fields, memory, peer);
    var reply := Apply(r, op).1;
    CodesInRange(r, op);
    var status := [48 + reply.code];
    if |data| <= 1 {
      assert data < Framed([status]) by { FramedOne(status); }
      assert status[0] < 128;
      CutFieldsWait([status], data);
      FieldIsExact(data);
      assert NextFields(data, 1) == Broken(Waits);
    } else {
      var rest := data[2..];
      assert data == status + [NUL] + rest;
      FieldReadBack(status, rest);
      RowsComplete(kind, r, op);
      CutTableHangs(RowCount(kind, reply), Rows(kind, reply), Width(kind), rest);
    }
  }
}

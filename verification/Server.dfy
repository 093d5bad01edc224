/** One handler of server/servidor.c running alone: it reads a request through the shared buffer,
    performs it on the list and writes the answer. */
module Server {
  import opened Strings
  import opened Registry
  import opened LinkedList
  import opened Lines
  import opened Protocol
  import Listing

  // ----- reading a request -----

  lemma {:induction false} PayloadDelimiterFree(events: seq<Event>)
    ensures DelimiterFree(Payload(events)) && NUL !in Payload(events)
  {
    if events != [] {
      PayloadDelimiterFree(events[1..]);
    }
  }

  /** What a readLine into a terminated 256-byte buffer leaves there as a C string. */
  lemma {:induction false} LineText(events: seq<Event>, before: Text)
    requires |before| == MAX_VALUE_LENGTH && before[MAX_VALUE_LENGTH - 1] == NUL
    ensures
      var (r, after) := LineResult(events, before, MAX_VALUE_LENGTH);
      && after[MAX_VALUE_LENGTH - 1] == NUL
      && (r < 0 <==> EndingOf(events).ReadFails?)
      && (r >= 0 ==> CStr(after) == Word(CStr(before), events))
  {
    PayloadDelimiterFree(events);
    var p := Truncated(Payload(events));
    var (r, after) := LineResult(events, before, MAX_VALUE_LENGTH);
    if r >= 0 && after != before {
      CStrUnique(after, p);
    } else if r >= 0 && p != [] {
      CStrUnique(after, p);
    } else if r >= 0 && EndingOf(events).Delimited? {
      CStrUnique(after, []);
    }
  }

  method Zero(buffer: array<Octet>)
    requires buffer.Length == MAX_VALUE_LENGTH
    modifies buffer
    ensures CStr(buffer[..]) == [] && buffer[MAX_VALUE_LENGTH - 1] == NUL
  {
    for i := 0 to buffer.Length
      invariant forall j | 0 <= j < i :: buffer[j] == NUL
    {
      buffer[i] := NUL;
    }
    CStrUnique(buffer[..], []);
  }

  /** Clears the buffer, reads a field into it and copies it out. */
  method ReadField(sock: Socket, buffer: array<Octet>) returns (ok: bool, s: CText)
    requires buffer.Length == MAX_VALUE_LENGTH
    modifies sock`incoming, buffer
    ensures sock.incoming == Rest(old(sock.incoming)) && buffer[MAX_VALUE_LENGTH - 1] == NUL
    ensures ok <==> !EndingOf(old(sock.incoming)).ReadFails?
    ensures ok ==> s == Truncated(Payload(old(sock.incoming))) == CStr(buffer[..])
  {
    hide LineResult, CStr;
    Zero(buffer);
    LineText(sock.incoming, buffer[..]);
    PayloadDelimiterFree(sock.incoming);
    TruncatedFits(Payload(sock.incoming));
    var r := sock.ReadLine(buffer, MAX_VALUE_LENGTH);
    if r < 0 {
      return false, [];
    }
    s := CStr(buffer[..]);
    return true, s;
  }

  method ReadArguments(sock: Socket, buffer: array<Octet>, count: nat) returns (fields: Option<seq<CText>>)
    requires buffer.Length == MAX_VALUE_LENGTH && count > 0
    modifies sock`incoming, buffer
    ensures buffer[MAX_VALUE_LENGTH - 1] == NUL
    ensures fields.Some? <==> ReadFields(old(sock.incoming), count).Some?
    ensures fields.Some? ==>
      && fields.value == ReadFields(old(sock.incoming), count).value
      && |fields.value| == count && CStr(buffer[..]) == fields.value[count - 1]
  {
    hide CStr, Truncated;
    var ok, s := ReadField(sock, buffer);
    var got: seq<CText> := [s];
    var k := 1;
    while ok && k < count
      invariant 1 <= k <= count && buffer[MAX_VALUE_LENGTH - 1] == NUL
      invariant ok ==> |got| == k && CStr(buffer[..]) == got[k - 1]
      invariant ok ==> ReadFields(old(sock.incoming), count) == Prepend(got, ReadFields(sock.incoming, count - k))
      invariant !ok ==> ReadFields(old(sock.incoming), count) == None
      decreases count - k
    {
      ghost var before := ReadFields(sock.incoming, count - k);
      ok, s := ReadField(sock, buffer);
      ghost var after := ReadFields(sock.incoming, count - k - 1);
      assert ok ==> before == Prepend([s], after);
      PrependTwice(got, s, after);
      got, k := got + [s], k + 1;
    }
    if !ok {
      return None;
    }
    return Some(got);
  }

  ghost function Prepend(got: seq<Text>, more: Option<seq<Text>>): Option<seq<Text>> {
    if more.None? then None else Some(got + more.value)
  }

  lemma {:induction false} PrependTwice(got: seq<Text>, s: Text, more: Option<seq<Text>>)
    ensures Prepend(got, Prepend([s], more)) == Prepend(got + [s], more)
  {
    if more.Some? {
      assert got + ([s] + more.value) == got + [s] + more.value;
    }
  }

  // ----- answering -----

  /** `send_error`. */
  method SendStatus(sock: Socket, code: int)
    requires -48 <= code < 208
    modifies sock`outgoing, sock`script
    ensures WritesSucceed(old(sock.script)) ==>
      sock.outgoing == old(sock.outgoing) + Status(code) && WritesSucceed(sock.script)
  {
    var _ := sock.SendMessage(Status(code));
  }

  /** Sends a C string with its NUL. */
  method SendText(sock: Socket, s: Text) returns (ok: bool)
    modifies sock`outgoing, sock`script
    ensures WritesSucceed(old(sock.script)) ==>
      ok && sock.outgoing == old(sock.outgoing) + s + [NUL] && WritesSucceed(sock.script)
  {
    var r := sock.SendMessage(s + [NUL]);
    assert sock.outgoing == old(sock.outgoing) + (s + [NUL]) ==> sock.outgoing == old(sock.outgoing) + s + [NUL];
    ok := r == 0;
  }

  method SendContact(sock: Socket, send: Listing.UserRecord, ghost c: Contact) returns (ok: bool)
    requires Listing.HoldsContact(send, c)
    modifies sock`outgoing, sock`script
    ensures WritesSucceed(old(sock.script)) ==>
      && ok && WritesSucceed(sock.script)
      && sock.outgoing == old(sock.outgoing) + Framed([c.name, c.ip, c.port])
  {
    hide CStr;
    FramedThree(old(sock.outgoing), c.name, c.ip, c.port);
    ok := SendText(sock, CStr(send.username.v));
    if !ok {
      return;
    }
    ok := SendText(sock, CStr(send.ip.v));
    if !ok {
      return;
    }
    ok := SendText(sock, CStr(send.port.v));
  }

  lemma {:induction false} FramedThree(out: Text, a: Text, b: Text, c: Text)
    ensures out + a + [NUL] + b + [NUL] + c + [NUL] == out + Framed([a, b, c])
  {
    assert [a, b, c][1..] == [b, c] && [b, c][1..] == [c];
    FramedOne(c);
    assert Framed([a, b, c]) == a + [NUL] + (b + [NUL] + (c + [NUL]));
  }

  /** Walks the response chain for n rows, stepping on while there is a next record. Every field it
      reads has been written. */
  method SendContacts(sock: Socket, head: Listing.UserRecord, n: nat,
                      ghost recs: seq<Listing.UserRecord>, ghost cs: seq<Contact>)
    requires Listing.ContactChain(recs, cs) && 0 < |cs| == n && head == recs[0]
    modifies sock`outgoing, sock`script
    ensures WritesSucceed(old(sock.script)) ==>
      sock.outgoing == old(sock.outgoing) + Framed(ContactFields(cs))
  {
    hide Listing.HoldsContact, Framed, ContactFields;
    var send, i := head, 0;
    assert cs[0..] == cs;
    while i < n
      invariant i <= n && (i < n ==> send == recs[i])
      invariant WritesSucceed(old(sock.script)) ==>
        && WritesSucceed(sock.script)
        && sock.outgoing + Framed(ContactFields(cs[i..])) == old(sock.outgoing) + Framed(ContactFields(cs))
    {
      ghost var out := sock.outgoing;
      FramedRow(out, cs, i);
      ChainRow(recs, cs, i);
      var ok := SendContact(sock, send, cs[i]);
      if !ok {
        return;
      }
      if send.next.v != null {
        send := send.next.v;
      }
      i := i + 1;
    }
    NoRows(cs, i);
  }

  lemma {:induction false} NoRows(cs: seq<Contact>, i: nat)
    requires i == |cs|
    ensures Framed(ContactFields(cs[i..])) == []
  {
  }

  lemma {:induction false} ChainRow(recs: seq<Listing.UserRecord>, cs: seq<Contact>, i: nat)
    requires Listing.ContactChain(recs, cs) && i < |cs|
    ensures Listing.HoldsContact(recs[i], cs[i]) && recs[i].next == Listing.Defined(Listing.UserRecordAt(recs, i + 1))
  {
  }

  lemma {:induction false} FramedRow(out: Text, cs: seq<Contact>, i: nat)
    requires i < |cs|
    ensures
      out + Framed([cs[i].name, cs[i].ip, cs[i].port]) + Framed(ContactFields(cs[i + 1..])) ==
      out + Framed(ContactFields(cs[i..]))
  {
    assert cs[i..][1..] == cs[i + 1..];
    FramedAppend([cs[i].name, cs[i].ip, cs[i].port], ContactFields(cs[i + 1..]));
  }

  method AnswerListUsers(list: UserList, sock: Socket, username: CText)
    requires list.Valid()
    modifies sock`outgoing, sock`script
    ensures list.Valid() && list.contents == old(list.contents)
    ensures WritesSucceed(old(sock.script)) ==>
      sock.outgoing == old(sock.outgoing) + Answer(KListUsers, list.contents, ListUsers(username))
  {
    hide UserList.Valid, Apply, Framed, Decimal, Answer, Status, Listing.ContactChain, Listing.FileChain;
    var respuesta := new Listing.UserRecord.Malloc();
    ContactsAnswer(list.contents, username);
    var code, nUser, recs := Listing.ListUsers(list, username, respuesta);
    SendStatus(sock, code);
    if code != 0 {
      return;
    }
    ghost var cs := Apply(list.contents, ListUsers(username)).1.contacts;
    FramedOne(Decimal(nUser.v));
    var ok := SendText(sock, Decimal(nUser.v));
    if !ok {
      return;
    }
    SendContacts(sock, respuesta, nUser.v, recs, cs);
  }

  function Answer(kind: Kind, r: seq<User>, op: Op): Text {
    CodesInRange(r, op);
    ReplyBytes(kind, Apply(r, op).1)
  }

  lemma {:induction false} ContactsAnswer(r: seq<User>, u: Text)
    ensures
      var reply := Apply(r, ListUsers(u)).1;
      && -1 <= reply.code <= 4
      && Answer(KListUsers, r, ListUsers(u)) ==
           Status(reply.code) + if reply.code == 0 then ContactsBody(reply.contacts) else []
  {
  }

  lemma {:induction false} FilesAnswer(r: seq<User>, u: Text, v: Text)
    ensures
      var reply := Apply(r, ListContent(u, v)).1;
      && -1 <= reply.code <= 4
      && Answer(KListContent, r, ListContent(u, v)) ==
           Status(reply.code) + if reply.code == 0 then FilesBody(reply.files) else []
  {
  }

  lemma {:induction false} FramedOne(s: Text)
    ensures Framed([s]) == s + [NUL]
  {
  }

  method AnswerListContent(list: UserList, sock: Socket, username: CText, username2: CText)
    requires list.Valid()
    modifies sock`outgoing, sock`script
    ensures list.Valid() && list.contents == old(list.contents)
    ensures WritesSucceed(old(sock.script)) ==>
      sock.outgoing == old(sock.outgoing) + Answer(KListContent, list.contents, ListContent(username, username2))
  {
    hide UserList.Valid, Apply, Framed, Decimal, Answer, Status, Listing.ContactChain, Listing.FileChain;
    var respuesta := new Listing.FileRecord.Malloc();
    FilesAnswer(list.contents, username, username2);
    var code, head, recs := Listing.ListContent(list, username, respuesta, username2);
    SendStatus(sock, code);
    if code != 0 {
      return;
    }
    ghost var fs := Apply(list.contents, ListContent(username, username2)).1.files;
    var fileCount := CountNamed(head, recs, fs);
    FramedOne(Decimal(fileCount));
    var ok := SendText(sock, Decimal(fileCount));
    if !ok {
      return;
    }
    SendFiles(sock, head, recs, fs);
  }

  lemma {:induction false} FirstOctet(f: Field)
    ensures CStr(f) == [] <==> f[0] == NUL
  {
  }

  method CountNamed(head: Listing.FileRecord?, ghost recs: seq<Listing.FileRecord>, ghost fs: seq<File>)
      returns (fileCount: nat)
    requires Listing.FileChain(head, recs, fs)
    ensures fileCount == NamedCount(fs)
  {
    hide CStr;
    var countPtr := head;
    ghost var k := 0;
    fileCount := 0;
    assert fs[0..] == fs;
    while countPtr != null
      invariant k <= |recs| && countPtr == Listing.FileRecordAt(recs, k)
      invariant NamedCount(fs) == fileCount + NamedCount(fs[k..])
      decreases |recs| - k
    {
      assert fs[k..][1..] == fs[k + 1..];
      assert Listing.HoldsListed(recs[k], fs[k]);
      FirstOctet(countPtr.filename.v);
      if countPtr.filename.v[0] != NUL {
        fileCount := fileCount + 1;
      }
      countPtr, k := countPtr.next.v, k + 1;
    }
  }

  method SendFiles(sock: Socket, head: Listing.FileRecord?,
                   ghost recs: seq<Listing.FileRecord>, ghost fs: seq<File>)
    requires Listing.FileChain(head, recs, fs)
    modifies sock`outgoing, sock`script
    ensures WritesSucceed(old(sock.script)) ==> sock.outgoing == old(sock.outgoing) + Framed(FileFields(fs))
  {
    hide CStr;
    var sendPtr := head;
    ghost var k := 0;
    assert fs[0..] == fs;
    while sendPtr != null
      invariant k <= |recs| && sendPtr == Listing.FileRecordAt(recs, k)
      invariant WritesSucceed(old(sock.script)) ==>
        && WritesSucceed(sock.script)
        && sock.outgoing + Framed(FileFields(fs[k..])) == old(sock.outgoing) + Framed(FileFields(fs))
      decreases |recs| - k
    {
      assert Listing.HoldsListed(recs[k], fs[k]);
      FramedPair(sock.outgoing, fs, k);
      var ok := SendText(sock, CStr(sendPtr.filename.v));
      if !ok {
        break;
      }
      ok := SendText(sock, CStr(sendPtr.description.v));
      if !ok {
        break;
      }
      sendPtr, k := sendPtr.next.v, k + 1;
    }
  }

  lemma {:induction false} FramedPair(out: Text, fs: seq<File>, i: nat)
    requires i < |fs|
    ensures
      out + fs[i].name + [NUL] + fs[i].description + [NUL] + Framed(FileFields(fs[i + 1..])) ==
      out + Framed(FileFields(fs[i..]))
  {
  }

  // ----- a whole request -----

  /** The six operations that answer with a code alone. */
  method Perform(list: UserList, kind: Kind, fields: seq<CText>, memory: bool, peer: Peer) returns (code: int)
    requires list.Valid() && |fields| == Arity(kind) && !kind.KListUsers? && !kind.KListContent?
    modifies list, list.liveUsers, list.liveFiles
    ensures list.Valid()
    ensures fresh(list.liveUsers - old(list.liveUsers)) && fresh(list.liveFiles - old(list.liveFiles))
    ensures (list.contents, Code(code)) == Apply(old(list.contents), Operation(kind, fields, memory, peer))
  {
    hide UserList.Valid, Apply;
    match kind
    case KRegister => code := list.RegisterUser(fields[1], memory);
    case KUnregister => code := list.UnregisterUser(fields[1]);
    case KConnect => code := list.ConnectUser(peer, fields[2], fields[1]);
    case KPublish => code := list.RegisterFile(fields[1], fields[2], fields[3], memory);
    case KDelete => code := list.UnregisterFile(fields[1], fields[2]);
    case KDisconnect => code := list.DisconnectUser(fields[1]);
  }

  /** Performs a parsed request and answers it. */
  method PerformAndAnswer(list: UserList, sock: Socket, buffer: array<Octet>, kind: Kind, fields: seq<CText>,
                          memory: bool, peer: Peer)
    requires list.Valid() && buffer.Length == MAX_VALUE_LENGTH && buffer[MAX_VALUE_LENGTH - 1] == NUL
    requires |fields| == Arity(kind)
    modifies sock`outgoing, sock`script, buffer, list, list.liveUsers, list.liveFiles
    ensures list.Valid() && buffer[MAX_VALUE_LENGTH - 1] == NUL
    ensures fresh(list.liveUsers - old(list.liveUsers)) && fresh(list.liveFiles - old(list.liveFiles))
    ensures list.contents == Apply(old(list.contents), Operation(kind, fields, memory, peer)).0
    ensures WritesSucceed(old(sock.script)) ==>
      sock.outgoing ==
        old(sock.outgoing) + Answer(kind, old(list.contents), Operation(kind, fields, memory, peer))
    ensures if kind.KListContent? then buffer[..] == old(buffer[..]) else CStr(buffer[..]) == []
  {
    hide UserList.Valid, Apply, CStr, Answer, Status;
    ListingsChangeNothing(list.contents, Operation(kind, fields, memory, peer));
    CodeAnswer(kind, list.contents, Operation(kind, fields, memory, peer));
    if kind.KListUsers? {
      AnswerListUsers(list, sock, fields[1]);
      Zero(buffer);
    } else if kind.KListContent? {
      AnswerListContent(list, sock, fields[1], fields[2]);
    } else {
      var code := Perform(list, kind, fields, memory, peer);
      Zero(buffer);
      SendStatus(sock, code);
    }
  }

  lemma {:induction false} ListingsChangeNothing(r: seq<User>, op: Op)
    ensures !op.Mutates() ==> Apply(r, op).0 == r
  {
  }

  lemma {:induction false} CodeAnswer(kind: Kind, r: seq<User>, op: Op)
    ensures -1 <= Apply(r, op).1.code <= 4
    ensures !kind.KListUsers? && !kind.KListContent? ==> Answer(kind, r, op) == Status(Apply(r, op).1.code)
  {
  }

  /** What a request does to the directory and sends back, and what it leaves in the shared buffer. */
  datatype Outcome = Outcome(r: seq<User>, sent: Text, left: Option<Text>)

  function Serve(r: seq<User>, prior: Text, events: seq<Event>, memory: bool, peer: Peer): Outcome {
    match ParseRequest(prior, events)
    case Aborted => Outcome(r, [], None)
    case Ignored(word) => Outcome(r, [], Some(word))
    case Request(kind, fields) =>
      ReadFieldsCount(Rest(events), Arity(kind));
      var op := Operation(kind, fields, memory, peer);
      Outcome(Apply(r, op).0, Answer(kind, r, op), Some(if kind.KListContent? then fields[2] else []))
  }

  /** The handler performs the request it parsed, and nothing else, on the list; when its writes
      succeed the reply is exactly that operation's. */
  method TreatRequest(list: UserList, sock: Socket, buffer: array<Octet>, memory: bool, peer: Peer)
    requires list.Valid() && buffer.Length == MAX_VALUE_LENGTH && buffer[MAX_VALUE_LENGTH - 1] == NUL
    modifies sock, buffer, list, list.liveUsers, list.liveFiles
    ensures list.Valid() && buffer[MAX_VALUE_LENGTH - 1] == NUL
    ensures fresh(list.liveUsers - old(list.liveUsers)) && fresh(list.liveFiles - old(list.liveFiles))
    ensures
      var outcome := Serve(old(list.contents), CStr(old(buffer[..])), old(sock.incoming), memory, peer);
      && list.contents == outcome.r
      && (WritesSucceed(old(sock.script)) ==> sock.outgoing == old(sock.outgoing) + outcome.sent)
      && (outcome.left.Some? ==> CStr(buffer[..]) == outcome.left.value)
  {
    hide UserList.Valid, Apply, CStr, LineResult, Answer, ReadFields, KindOf;
    assert sock.outgoing + [] == sock.outgoing;
    LineText(sock.incoming, buffer[..]);
    var r := sock.ReadLine(buffer, MAX_VALUE_LENGTH);
    if r < 0 {
      return;
    }
    var kind := KindOf(CStr(buffer[..]));
    if kind.None? {
      return;
    }
    var fields := ReadArguments(sock, buffer, Arity(kind.value));
    if fields.None? {
      return;
    }
    PerformAndAnswer(list, sock, buffer, kind.value, fields.value, memory, peer);
  }
}

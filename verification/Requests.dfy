/** The eight requests spelled out: which words the server knows, where each argument of a request goes,
    and what becomes of requests that are unknown, or cut off by a failing read or an early end. */
module Requests {
  import opened Strings
  import opened Registry
  import opened Lines
  import opened Protocol
  import opened Server
  import opened Client
  import opened Traffic

  // ----- words -----

  function Ascii(s: string): (t: Text)
    ensures |t| == |s| && forall i | 0 <= i < |s| && s[i] < 128 as char :: t[i] == s[i] as int
  {
    seq(|s|, i requires 0 <= i < |s| => if s[i] < 128 as char then s[i] as int else 0)
  }

  /** A request as it is on the wire: a word and fields, each closed by a NUL. */
  function Wire(word: string, fields: seq<Text>): Text {
    Framed([Ascii(word)] + fields)
  }

  lemma {:induction false} Spelling()
    ensures Keyword(KRegister) == Ascii("REGISTER") && Keyword(KUnregister) == Ascii("UNREGISTER")
    ensures Keyword(KConnect) == Ascii("CONNECT") && Keyword(KDisconnect) == Ascii("DISCONNECT")
    ensures Keyword(KPublish) == Ascii("PUBLISH") && Keyword(KDelete) == Ascii("DELETE")
    ensures Keyword(KListUsers) == Ascii("LIST_USERS") && Keyword(KListContent) == Ascii("LIST_CONTENT")
  {
    SpellingOfOthers();
  }

  lemma {:induction false} SpellingOfOthers()
    ensures Keyword(KPublish) == Ascii("PUBLISH") && Keyword(KDelete) == Ascii("DELETE")
    ensures Keyword(KListUsers) == Ascii("LIST_USERS") && Keyword(KListContent) == Ascii("LIST_CONTENT")
  {
  }

  /** What the client writes, word for word. */
  lemma {:induction false} MessagesAreWire(fields: seq<Text>)
    ensures Message(KRegister, fields) == Wire("REGISTER", fields)
    ensures Message(KUnregister, fields) == Wire("UNREGISTER", fields)
    ensures Message(KConnect, fields) == Wire("CONNECT", fields)
    ensures Message(KDisconnect, fields) == Wire("DISCONNECT", fields)
    ensures Message(KPublish, fields) == Wire("PUBLISH", fields)
    ensures Message(KDelete, fields) == Wire("DELETE", fields)
    ensures Message(KListUsers, fields) == Wire("LIST_USERS", fields)
    ensures Message(KListContent, fields) == Wire("LIST_CONTENT", fields)
  {
    hide Framed, Keyword, Ascii;
    Spelling();
  }

  predicate Known(word: Text) {
    word in [Ascii("REGISTER"), Ascii("UNREGISTER"), Ascii("CONNECT"), Ascii("DISCONNECT"),
             Ascii("PUBLISH"), Ascii("DELETE"), Ascii("LIST_USERS"), Ascii("LIST_CONTENT")]
  }

  /** Fields of a request with this word, counting the word. */
  function Needed(word: Text): nat {
    if word == Ascii("PUBLISH") then 5
    else if word in [Ascii("CONNECT"), Ascii("DELETE"), Ascii("LIST_CONTENT")] then 4
    else 3
  }

  lemma {:induction false} KnownKinds(word: Text)
    ensures KindOf(word).Some? <==> Known(word)
    ensures Known(word) ==> 1 + Arity(KindOf(word).value) == Needed(word)
    ensures KindOf(Truncated(word)) == KindOf(word)
  {
    hide Ascii;
    Spelling();
    WordLengths();
    if |word| >= MAX_VALUE_LENGTH {
      assert |Truncated(word)| == 255;
    } else {
      assert Truncated(word) == word;
    }
  }

  lemma {:induction false} WordLengths()
    ensures forall kind :: |Keyword(kind)| < 13
    ensures forall k, k' | Keyword(k) == Keyword(k') :: k == k'
  {
    forall k, k' | Keyword(k) == Keyword(k')
      ensures k == k'
    {
      KeywordsDistinct(k); KeywordsDistinct(k');
    }
  }

  /** A first field that is none of the eight words does nothing and is not answered. An empty
      connection repeats the word the shared buffer held. */
  lemma {:induction false} UnknownWordIsIgnored(r: seq<User>, prior: Text, v: Visit, head: seq<Event>, rest: seq<Event>)
    requires v.events == head + rest && NeverFails(head) && DelimiterFree(Octets(head))
    requires rest == [] || (rest[0].Byte? && IsDelimiter(rest[0].b))
    requires !Known(if rest == [] && Octets(head) == [] then prior else Octets(head))
    ensures
      var word := if rest == [] && Octets(head) == [] then prior else Truncated(Octets(head));
      Serve(r, prior, v.events, v.memory, v.peer) == Outcome(r, [], Some(word)) && Requested(prior, v) == []
  {
    hide KindOf, Known, Needed, Octets, Truncated;
    SplitStream(head, rest);
    KnownKinds(Octets(head)); KnownKinds(prior);
  }

  // ----- requests cut off -----

  /** A request whose reads fail is performed iff it has a known word and every field of it was closed
      before the failure; otherwise nothing happens and nothing is answered. */
  lemma {:induction false} FailingRequest(r: seq<User>, prior: Text, v: Visit, head: seq<Event>, rest: seq<Event>)
    requires v.events == head + [Failed] + rest && NeverFails(head)
    ensures
      var word, closed := UpToDelimiter(Octets(head)), Delimiters(Octets(head));
      var outcome := Serve(r, prior, v.events, v.memory, v.peer);
      && (Requested(prior, v) != [] <==> Known(word) && closed >= Needed(word))
      && (!(Known(word) && closed >= Needed(word)) ==> outcome.r == r && outcome.sent == [])
  {
    hide KindOf, Known, Needed, Octets, Truncated, Delimiters, ReadFields, Apply, Answer;
    var word := UpToDelimiter(Octets(head));
    KnownKinds(word);
    NeedsThree(word);
    if Delimiters(Octets(head)) == 0 {
      OpenFieldFails(head, rest);
    } else {
      assert v.events == head + ([Failed] + rest);
      var more := ClosedField(head, [Failed] + rest);
      assert more + [Failed] + rest == more + ([Failed] + rest);
      if Known(word) {
        FieldsNeedDelimiters(more, rest, Arity(KindOf(word).value));
      }
    }
  }

  lemma {:induction false} NeedsThree(word: Text)
    ensures Needed(word) >= 3
  {
  }

  /** A request that ends early, in contrast, is performed with what has come: the field it breaks off
      in is taken as whole, and the rest are empty. */
  lemma {:induction false} ShortRequest(kind: Kind, prior: Text, events: seq<Event>, fields: seq<Text>, last: Text)
    requires NeverFails(events) && Octets(events) == Message(kind, fields) + last && |fields| < Arity(kind)
    requires DelimiterFree(last) && forall f | f in fields :: DelimiterFree(f)
    ensures ParseRequest(prior, events) ==
      Request(kind, AllTruncated(fields) + [Truncated(last)] + Empties(Arity(kind) - |fields| - 1))
  {
    hide ReadFields, Truncated, AllTruncated;
    var all, tail := [Keyword(kind)] + fields, Framed(fields) + last;
    assert all[1..] == fields;
    KeywordsDistinct(kind);
    assert Octets(events) == Keyword(kind) + [NUL] + tail;
    assert DeliversWith(events, Octets(events), events);
    InterruptsInvisible(events, Keyword(kind), NUL, tail);
    PayloadIsField(events);
    assert Octets(events)[|Keyword(kind)| + 1..] == tail;
    FieldsAtEnd(Rest(events), fields, last, Arity(kind) - |fields| - 1);
  }

  /** So half a name is registered when the client closes in the middle of it. */
  lemma {:induction false} HalfNameIsRegistered(date: Text, part: Text, r: seq<User>, prior: Text, v: Visit)
    requires NeverFails(v.events) && Octets(v.events) == Wire("REGISTER", [date]) + part
    requires DelimiterFree(date) && DelimiterFree(part)
    ensures Requested(prior, v) == [Register(Truncated(part), v.memory)]
  {
    hide Message, Wire, ParseRequest;
    MessagesAreWire([date]);
    ShortRequest(KRegister, prior, v.events, [date], part);
    TruncatedFields([date], 0);
  }

  // ----- arguments -----

  /** The request has the effect of the operation, is answered with its reply, and leaves the given
      string in the shared buffer. */
  predicate Performs(r: seq<User>, prior: Text, v: Visit, kind: Kind, op: Op, left: Text) {
    Serve(r, prior, v.events, v.memory, v.peer) == Outcome(Apply(r, op).0, Answer(kind, r, op), Some(left))
  }

  lemma {:induction false} RegisterIsServed(date: Text, user: Text, r: seq<User>, prior: Text, v: Visit)
    requires DelimiterFree(date) && DelimiterFree(user) && Delivers(v.events, Wire("REGISTER", [date, user]))
    ensures Performs(r, prior, v, KRegister, Register(Truncated(user), v.memory), [])
  {
    Served(KRegister, [date, user], r, prior, v);
  }

  lemma {:induction false} UnregisterIsServed(date: Text, user: Text, r: seq<User>, prior: Text, v: Visit)
    requires DelimiterFree(date) && DelimiterFree(user) && Delivers(v.events, Wire("UNREGISTER", [date, user]))
    ensures Performs(r, prior, v, KUnregister, Unregister(Truncated(user)), [])
  {
    Served(KUnregister, [date, user], r, prior, v);
  }

  lemma {:induction false} DisconnectIsServed(date: Text, user: Text, r: seq<User>, prior: Text, v: Visit)
    requires DelimiterFree(date) && DelimiterFree(user) && Delivers(v.events, Wire("DISCONNECT", [date, user]))
    ensures Performs(r, prior, v, KDisconnect, Disconnect(Truncated(user)), [])
  {
    Served(KDisconnect, [date, user], r, prior, v);
  }

  lemma {:induction false} ListUsersIsServed(date: Text, user: Text, r: seq<User>, prior: Text, v: Visit)
    requires DelimiterFree(date) && DelimiterFree(user) && Delivers(v.events, Wire("LIST_USERS", [date, user]))
    ensures Performs(r, prior, v, KListUsers, ListUsers(Truncated(user)), [])
  {
    Served(KListUsers, [date, user], r, prior, v);
  }

  lemma {:induction false} ListContentIsServed(date: Text, user: Text, target: Text,
                                               r: seq<User>, prior: Text, v: Visit)
    requires DelimiterFree(date) && DelimiterFree(user) && DelimiterFree(target)
    requires Delivers(v.events, Wire("LIST_CONTENT", [date, user, target]))
    ensures Performs(r, prior, v, KListContent, ListContent(Truncated(user), Truncated(target)),
                     Truncated(target))
  {
    Served(KListContent, [date, user, target], r, prior, v);
  }

  /** The port a client has bound arrives whole. */
  lemma {:induction false} ConnectIsServed(date: Text, user: Text, port: nat, r: seq<User>, prior: Text, v: Visit)
    requires DelimiterFree(date) && DelimiterFree(user) && port < 65536
    requires Delivers(v.events, Wire("CONNECT", [date, user, Decimal(port)]))
    ensures Performs(r, prior, v, KConnect, Connect(Truncated(user), Decimal(port), v.peer), [])
  {
    PortWidth(port);
    Served(KConnect, [date, user, Decimal(port)], r, prior, v);
  }

  lemma {:induction false} DeleteIsServed(date: Text, user: Text, name: Text, r: seq<User>, prior: Text, v: Visit)
    requires DelimiterFree(date) && DelimiterFree(user) && DelimiterFree(name)
    requires Delivers(v.events, Wire("DELETE", [date, user, WithoutSpaces(name)]))
    ensures Performs(r, prior, v, KDelete, Delete(Truncated(user), Truncated(WithoutSpaces(name))), [])
  {
    StripKeepsDelimiterFree(name);
    Served(KDelete, [date, user, WithoutSpaces(name)], r, prior, v);
  }

  /** The description goes as it was typed. */
  lemma {:induction false} PublishIsServed(date: Text, user: Text, name: Text, description: Text,
                                           r: seq<User>, prior: Text, v: Visit)
    requires DelimiterFree(date) && DelimiterFree(user) && DelimiterFree(name) && DelimiterFree(description)
    requires Delivers(v.events, Wire("PUBLISH", [date, user, WithoutSpaces(name), description]))
    ensures
      var op := Publish(Truncated(user), Truncated(WithoutSpaces(name)), Truncated(description), v.memory);
      Performs(r, prior, v, KPublish, op, [])
  {
    StripKeepsDelimiterFree(name);
    Served(KPublish, [date, user, WithoutSpaces(name), description], r, prior, v);
  }

  /** The fields as the operation takes them. */
  lemma {:induction false} Served(kind: Kind, fields: seq<Text>, r: seq<User>, prior: Text, v: Visit)
    requires |fields| == Arity(kind) && forall f | f in fields :: DelimiterFree(f)
    requires Delivers(v.events, Wire(WordOf(kind), fields))
    ensures |AllTruncated(fields)| == |fields|
    ensures forall k | 0 <= k < |fields| :: AllTruncated(fields)[k] == Truncated(fields[k])
    ensures Performs(r, prior, v, kind, Operation(kind, AllTruncated(fields), v.memory, v.peer),
                     if kind.KListContent? then AllTruncated(fields)[2] else [])
  {
    hide Serve, Apply, Answer, Operation, Wire, Message;
    MessagesAreWire(fields);
    MessageIsServed(kind, fields, r, prior, v.events, v.memory, v.peer);
    forall k | 0 <= k < |fields|
      ensures AllTruncated(fields)[k] == Truncated(fields[k])
    {
      TruncatedFields(fields, k);
    }
  }

  function WordOf(kind: Kind): string {
    match kind
    case KRegister => "REGISTER"
    case KUnregister => "UNREGISTER"
    case KConnect => "CONNECT"
    case KPublish => "PUBLISH"
    case KDelete => "DELETE"
    case KDisconnect => "DISCONNECT"
    case KListUsers => "LIST_USERS"
    case KListContent => "LIST_CONTENT"
  }

  lemma {:induction false} PortWidth(port: nat)
    requires port < 65536
    ensures Truncated(Decimal(port)) == Decimal(port) && DelimiterFree(Decimal(port))
  {
    var p1 := port / 10;
    var p2 := p1 / 10;
    var p3 := p2 / 10;
    assert p3 / 10 < 10;
    assert |Decimal(p3)| <= 2 && |Decimal(p2)| <= 3 && |Decimal(p1)| <= 4 && |Decimal(port)| <= 5;
    assert forall c | c in Decimal(port) :: IsDigit(c);
  }

  lemma {:induction false} StripKeepsDelimiterFree(s: Text)
    requires DelimiterFree(s)
    ensures DelimiterFree(WithoutSpaces(s))
  {
    if s != [] {
      StripKeepsDelimiterFree(s[1..]);
    }
  }
}

/** The loops of client.py that consume a socket, and the text the shell lets a user type. */
module Client {
  import opened Strings
  import opened Lines
  import opened Protocol

  /** A connected socket: the octets it will still deliver before end of file, the octets sent, and
      whether sending works. */
  class Connection {
    var data: Text
    var sent: Text
    const up: bool

    constructor (octets: Text, up: bool)
      ensures data == octets && sent == [] && this.up == up
    {
      data, sent, this.up := octets, [], up;
    }

    /** `sendall`; false is an exception, after any part of the message. */
    method SendAll(message: Text) returns (ok: bool)
      modifies `sent
      ensures ok == up && (ok ==> sent == old(sent) + message)
    {
      if !up {
        sent := *;
        return false;
      }
      sent := sent + message;
      return true;
    }

    /** `recv(1)`; None is end of file. */
    method Recv() returns (b: Option<Octet>)
      modifies `data
      ensures if old(data) == [] then b == None && data == []
              else b == Some(old(data)[0]) && data == old(data)[1..]
    {
      if data == [] {
        return None;
      }
      b, data := Some(data[0]), data[1..];
    }
  }

  ghost function After(got: Text, r: Reading): Reading {
    if r.Got? then Got(got + r.text, r.rest) else r
  }

  /** `read_response`. At end of file the loop of the original never ends; here it reports Waits. */
  method ReadResponse(c: Connection) returns (r: Reading)
    modifies c`data
    ensures r == NextField(old(c.data))
    ensures r.Got? ==> c.data == r.rest
  {
    var response: Text := [];
    while true
      invariant NextField(old(c.data)) == After(response, NextField(c.data))
      decreases |c.data|
    {
      var b := c.Recv();
      if b.None? {
        return Waits;
      }
      if b.value == NUL {
        return Got(response, c.data);
      }
      if b.value >= 128 {
        return Undecodable;
      }
      ghost var next := NextField(c.data);
      assert next.Got? ==> response + ([b.value] + next.text) == response + [b.value] + next.text;
      response := response + [b.value];
    }
  }

  /** `get_data_by_user`. */
  method GetDataByUser(c: Connection, user: Text) returns (found: Lookup)
    modifies c`data
    ensures found == LookupReply(old(c.data), user)
  {
    var count := ReadResponse(c);
    if count.Undecodable? {
      return LookupRaises;
    }
    if count.Waits? {
      return LookupHangs;
    }
    var numberOfUsers := PyInt(count.text);
    if numberOfUsers.None? {
      return LookupRaises;
    }
    var n := Natural(numberOfUsers.value);
    for i := 0 to n
      invariant LookupReply(old(c.data), user) == LookupAmong(c.data, n - i, user)
    {
      ghost var start := c.data;
      var username := ReadResponse(c);
      if !username.Got? {
        return if username.Undecodable? then LookupRaises else LookupHangs;
      }
      var ip := ReadResponse(c);
      if !ip.Got? {
        return if ip.Undecodable? then LookupRaises else LookupHangs;
      }
      var port := ReadResponse(c);
      if !port.Got? {
        return if port.Undecodable? then LookupRaises else LookupHangs;
      }
      ThreeFields(start, username, ip, port);
      if username.text == user {
        var number := PyInt(port.text);
        return if number.None? then LookupRaises else Found(ip.text, number.value);
      }
    }
    return Absent;
  }

  lemma {:induction false} ThreeFields(data: Text, a: Reading, b: Reading, c: Reading)
    requires a.Got? && b.Got? && c.Got?
    requires a == NextField(data) && b == NextField(a.rest) && c == NextField(b.rest)
    ensures NextFields(data, 3) == Fields([a.text, b.text, c.text], c.rest)
  {
  }

  /** The loops of `listusers` (width 3) and `listcontent` (width 2): the texts they print. */
  method ReadRows(c: Connection, width: nat) returns (table: Table)
    modifies c`data
    ensures table == ReadTable(old(c.data), width)
  {
    var count := ReadResponse(c);
    if !count.Got? {
      return if count.Undecodable? then Raises else Hangs;
    }
    var number := PyInt(count.text);
    if number.None? {
      return Raises;
    }
    var total := width * Natural(number.value);
    var shown: seq<Text> := [];
    for i := 0 to total
      invariant ReadTable(old(c.data), width) == Prefixed(shown, AsTable(NextFields(c.data, total - i)))
    {
      ghost var more := AsTable(NextFields(c.data, total - i));
      var info := ReadResponse(c);
      if !info.Got? {
        return if info.Undecodable? then Raises else Hangs;
      }
      ghost var rest := AsTable(NextFields(c.data, total - i - 1));
      assert rest.Shown? ==> shown + ([info.text] + rest.texts) == shown + [info.text] + rest.texts;
      shown := shown + [info.text];
    }
    assert shown + [] == shown;
    return Shown(shown);
  }

  ghost function Prefixed(shown: seq<Text>, t: Table): Table {
    if t.Shown? then Shown(shown + t.texts) else t
  }

  // ----- the protocol methods -----

  datatype RC = OK | ERROR | USER_ERROR | OTHER_CASES | ANOTHER_CASES

  /** What a protocol method returns when it meets an exception or a reply it does not know. */
  function Fallback(kind: Kind): RC {
    match kind
    case KRegister | KUnregister => USER_ERROR
    case KConnect | KDisconnect | KListUsers => OTHER_CASES
    case KPublish | KDelete | KListContent => ANOTHER_CASES
  }

  /** The branches on the first field of a reply. */
  function ResultOf(kind: Kind, response: Text): RC {
    if response == [48] then OK
    else if response == [49] then ERROR
    else if response == [50] && !kind.KRegister? && !kind.KUnregister? then USER_ERROR
    else if response == [51] && (kind.KPublish? || kind.KDelete? || kind.KListContent?) then OTHER_CASES
    else Fallback(kind)
  }

  /** Columns of the table that follows a successful listing. */
  function Width(kind: Kind): nat {
    match kind
    case KListUsers => 3
    case KListContent => 2
    case _ => 0
  }

  /** A return code, or an endless wait for a reply that broke off. */
  datatype Outcome = Returned(rc: RC) | Stuck

  /** What a client makes of a reply. */
  function Reported(kind: Kind, data: Text): Outcome {
    match NextField(data)
    case Waits => Stuck
    case Undecodable => Returned(Fallback(kind))
    case Got(response, rest) =>
      if response == [48] && Width(kind) > 0 then
        match ReadTable(rest, Width(kind))
        case Shown(_) => Returned(OK)
        case Raises => Returned(Fallback(kind))
        case Hangs => Stuck
      else Returned(ResultOf(kind, response))
  }

  /** A reply that begins with anything but the four digits the client knows, or with a character of
      several octets, is a failure of the method. */
  lemma {:induction false} UnexpectedReply(kind: Kind, data: Text)
    requires NUL in data
    requires CStr(data) !in [[48], [49], [50], [51]]
    ensures kind.KRegister? || kind.KUnregister? ==> Reported(kind, data) == Returned(USER_ERROR)
    ensures kind.KConnect? || kind.KDisconnect? || kind.KListUsers? ==> Reported(kind, data) == Returned(OTHER_CASES)
    ensures kind.KPublish? || kind.KDelete? || kind.KListContent? ==> Reported(kind, data) == Returned(ANOTHER_CASES)
  {
    FieldIsExact(data);
  }

  /** Sends a request and reads the first field of the reply. `date` is what the time service gave;
      Undecodable stands for every exception on the way. */
  method Ask(c: Connection, kind: Kind, date: Option<Text>, args: seq<Text>) returns (r: Reading)
    modifies c
    ensures if date.None? || !c.up then r == Undecodable
            else c.sent == old(c.sent) + Message(kind, [date.value] + args) && r == NextField(old(c.data))
    ensures r.Got? ==> c.data == r.rest
  {
    if date.None? {
      return Undecodable;
    }
    var ok := c.SendAll(Message(kind, [date.value] + args));
    if !ok {
      return Undecodable;
    }
    r := ReadResponse(c);
  }

  /** A whole exchange, with the table of a listing. */
  method Talk(c: Connection, kind: Kind, date: Option<Text>, args: seq<Text>) returns (o: Outcome)
    modifies c
    ensures if date.None? || !c.up then o == Returned(Fallback(kind))
            else c.sent == old(c.sent) + Message(kind, [date.value] + args) && o == Reported(kind, old(c.data))
  {
    var response := Ask(c, kind, date, args);
    if response.Waits? {
      return Stuck;
    }
    if response.Undecodable? {
      return Returned(Fallback(kind));
    }
    if response.text == [48] && Width(kind) > 0 {
      var table := ReadRows(c, Width(kind));
      if table.Hangs? {
        return Stuck;
      }
      return Returned(if table.Shown? then OK else Fallback(kind));
    }
    return Returned(ResultOf(kind, response.text));
  }

  /** A protocol method that got as far as a connection has, from then on, done this exchange: `sent` and
      `data` are what the connection had sent and would deliver before, `failure` what an exception
      gives. The methods below take null for a server that cannot be reached. */
  ghost predicate Exchanged(kind: Kind, failure: RC, args: seq<Text>, c: Connection, date: Option<Text>,
                            sent: Text, data: Text, o: Outcome)
    reads c
  {
    if date.None? || !c.up then o == Returned(failure)
    else c.sent == sent + Message(kind, [date.value] + args) && o == Reported(kind, data)
  }

  /** The class variables of client.py. */
  class Session {
    var connected: bool
    var user: Option<Text>

    /** A client that takes itself for connected knows as whom, so no message lacks a user. */
    predicate Valid()
      reads this
    {
      connected <==> user.Some?
    }

    constructor ()
      ensures Valid() && !connected
    {
      connected, user := false, None;
    }

    method Register(name: Text, c: Connection?, date: Option<Text>) returns (o: Outcome)
      modifies c
      ensures |name| > 255 || c == null ==> o == Returned(USER_ERROR)
      ensures |name| > 255 && c != null ==> c.sent == old(c.sent)
      ensures |name| <= 255 && c != null ==>
        Exchanged(KRegister, USER_ERROR, [name], c, date, old(c.sent), old(c.data), o)
    {
      if ExceedsSize(name) || c == null {
        return Returned(USER_ERROR);
      }
      o := Talk(c, KRegister, date, [name]);
    }

    method Unregister(name: Text, c: Connection?, date: Option<Text>) returns (o: Outcome)
      modifies c
      ensures c == null ==> o == Returned(ERROR)
      ensures c != null ==> Exchanged(KUnregister, USER_ERROR, [name], c, date, old(c.sent), old(c.data), o)
    {
      if c == null {
        return Returned(ERROR);
      }
      o := Talk(c, KUnregister, date, [name]);
    }

    /** `port` is the port the client's own listening socket got. */
    method Connect(name: Text, c: Connection?, date: Option<Text>, port: nat) returns (o: Outcome)
      requires Valid()
      modifies this, c
      ensures Valid()
      ensures old(connected) ==> o == Returned(USER_ERROR) && (c != null ==> c.sent == old(c.sent))
      ensures !old(connected) && c == null ==> o == Returned(OTHER_CASES)
      ensures !old(connected) && c != null ==>
        Exchanged(KConnect, OTHER_CASES, [name, Decimal(port)], c, date, old(c.sent), old(c.data), o)
      ensures if o == Returned(OK) then user == Some(name) else user == old(user)
    {
      if connected {
        return Returned(USER_ERROR);
      }
      if c == null {
        return Returned(OTHER_CASES);
      }
      o := Talk(c, KConnect, date, [name, Decimal(port)]);
      if o == Returned(OK) {
        connected, user := true, Some(name);
      }
    }

    /** `shut` tells whether the listening socket can be shut down. The client forgets its connection
        on any reply at all, whatever it says and whichever user it was about. */
    method Disconnect(name: Text, c: Connection?, date: Option<Text>, shut: bool) returns (o: Outcome)
      requires Valid()
      modifies this, c
      ensures Valid()
      ensures c == null ==> o == Returned(OTHER_CASES)
      ensures c != null && (shut || o != Returned(OTHER_CASES)) ==>
        Exchanged(KDisconnect, OTHER_CASES, [name], c, date, old(c.sent), old(c.data), o)
      ensures if c != null && date.Some? && c.up && NextField(old(c.data)).Got? then user == None
              else user == old(user)
      ensures c != null && date.Some? && c.up && NextField(old(c.data)).Got? && !shut ==>
        o == Returned(if NextField(old(c.data)).text == [48] then OTHER_CASES
                      else ResultOf(KDisconnect, NextField(old(c.data)).text))
    {
      if c == null {
        return Returned(OTHER_CASES);
      }
      var response := Ask(c, KDisconnect, date, [name]);
      if response.Waits? {
        return Stuck;
      }
      if response.Undecodable? {
        return Returned(OTHER_CASES);
      }
      connected, user := false, None;
      if response.text == [48] && !shut {
        return Returned(OTHER_CASES);
      }
      return Returned(ResultOf(KDisconnect, response.text));
    }

    method Publish(fileName: Text, description: Text, c: Connection?, date: Option<Text>) returns (o: Outcome)
      requires Valid()
      modifies c
      ensures |fileName| > 255 ==> o == Returned(ANOTHER_CASES)
      ensures |fileName| <= 255 && !connected ==> o == Returned(USER_ERROR)
      ensures (|fileName| > 255 || !connected) && c != null ==> c.sent == old(c.sent)
      ensures |fileName| <= 255 && connected && c == null ==> o == Returned(ANOTHER_CASES)
      ensures |fileName| <= 255 && connected && c != null ==>
        Exchanged(KPublish, ANOTHER_CASES, [user.value, WithoutSpaces(fileName), description],
                  c, date, old(c.sent), old(c.data), o)
    {
      if ExceedsSize(fileName) {
        return Returned(ANOTHER_CASES);
      }
      if !connected {
        return Returned(USER_ERROR);
      }
      if c == null {
        return Returned(ANOTHER_CASES);
      }
      o := Talk(c, KPublish, date, [user.value, WithoutSpaces(fileName), description]);
    }

    method Delete(fileName: Text, c: Connection?, date: Option<Text>) returns (o: Outcome)
      requires Valid()
      modifies c
      ensures |fileName| > 255 ==> o == Returned(ANOTHER_CASES)
      ensures |fileName| <= 255 && !connected ==> o == Returned(USER_ERROR)
      ensures (|fileName| > 255 || !connected) && c != null ==> c.sent == old(c.sent)
      ensures |fileName| <= 255 && connected && c == null ==> o == Returned(ANOTHER_CASES)
      ensures |fileName| <= 255 && connected && c != null ==>
        Exchanged(KDelete, ANOTHER_CASES, [user.value, WithoutSpaces(fileName)], c, date, old(c.sent), old(c.data), o)
    {
      if ExceedsSize(fileName) {
        return Returned(ANOTHER_CASES);
      }
      if !connected {
        return Returned(USER_ERROR);
      }
      if c == null {
        return Returned(ANOTHER_CASES);
      }
      o := Talk(c, KDelete, date, [user.value, WithoutSpaces(fileName)]);
    }

    method ListUsers(c: Connection?, date: Option<Text>) returns (o: Outcome)
      requires Valid()
      modifies c
      ensures !connected ==> o == Returned(USER_ERROR) && (c != null ==> c.sent == old(c.sent))
      ensures connected && c == null ==> o == Returned(OTHER_CASES)
      ensures connected && c != null ==>
        Exchanged(KListUsers, OTHER_CASES, [user.value], c, date, old(c.sent), old(c.data), o)
    {
      if !connected {
        return Returned(USER_ERROR);
      }
      if c == null {
        return Returned(OTHER_CASES);
      }
      o := Talk(c, KListUsers, date, [user.value]);
    }

    method ListContent(target: Text, c: Connection?, date: Option<Text>) returns (o: Outcome)
      requires Valid()
      modifies c
      ensures !connected ==> o == Returned(USER_ERROR) && (c != null ==> c.sent == old(c.sent))
      ensures connected && c == null ==> o == Returned(ANOTHER_CASES)
      ensures connected && c != null ==>
        Exchanged(KListContent, ANOTHER_CASES, [user.value, target], c, date, old(c.sent), old(c.data), o)
    {
      if !connected {
        return Returned(USER_ERROR);
      }
      if c == null {
        return Returned(ANOTHER_CASES);
      }
      o := Talk(c, KListContent, date, [user.value, target]);
    }
  }

  // ----- names on their way to the server -----

  /** `excede_tamano` on the encoded string. */
  predicate ExceedsSize(s: Text) {
    |s| > 255
  }

  /** The check refuses exactly the texts that do not fit a field of the server. */
  lemma {:induction false} ExceedsExactly(s: Text)
    ensures ExceedsSize(s) <==> |s| >= 256
    ensures ExceedsSize(s) <==> Truncated(s) != s
  {
  }

  /** `fileName.replace(" ", "")`. */
  function WithoutSpaces(s: Text): (t: Text)
    ensures |t| <= |s| && SPACE !in t
    ensures SPACE !in s ==> t == s
  {
    if s == [] then []
    else if s[0] == SPACE then WithoutSpaces(s[1..])
    else [s[0]] + WithoutSpaces(s[1..])
  }

  /** Stretches are stripped each for itself, so what stays keeps its order. */
  lemma {:induction false} SpacesGo(s: Text, t: Text)
    ensures WithoutSpaces(s + t) == WithoutSpaces(s) + WithoutSpaces(t)
  {
    if s == [] {
      assert s + t == t;
    } else {
      assert (s + t)[1..] == s[1..] + t;
      SpacesGo(s[1..], t);
    }
  }

  /** Exactly the spaces go. */
  lemma {:induction false} OthersStay(s: Text)
    ensures multiset(WithoutSpaces(s)) == multiset(s)[SPACE := 0]
  {
    if s != [] {
      OthersStay(s[1..]);
      assert s == [s[0]] + s[1..];
    }
  }

  // ----- typed lines -----

  /** `line.split(" ")`. */
  function Split(line: Text): (words: seq<Text>)
    ensures words != []
  {
    SplitAt(line, SPACE)
  }

  /** `' '.join(words)`. */
  function Join(words: seq<Text>): Text {
    JoinWith(words, SPACE)
  }

  /** A typed line `PUBLISH name description` comes apart into the name and, verbatim, the
      description: repeated, leading and trailing spaces included. */
  lemma {:induction false} PublishLine(command: Text, name: Text, description: Text)
    requires SPACE !in command && SPACE !in name
    ensures
      var line := Split(command + [SPACE] + name + [SPACE] + description);
      |line| >= 3 && line[0] == command && line[1] == name && Join(line[2..]) == description
  {
    hide SplitAt, JoinWith;
    var tail, pieces := name + [SPACE] + description, Split(description);
    assert command + [SPACE] + name + [SPACE] + description == command + [SPACE] + tail;
    assert name + [SPACE] + description == tail;
    SplitFirst(command, SPACE, tail);
    SplitFirst(name, SPACE, description);
    JoinSplit(description, SPACE);
    assert ([command] + ([name] + pieces))[2..] == pieces;
  }

  /** Every line the shell takes as a PUBLISH is of that form, for exactly one name and description. */
  lemma {:induction false} EveryPublishLine(line: Text)
    requires |Split(line)| >= 3
    ensures
      var words := Split(line);
      && SPACE !in words[0] && SPACE !in words[1]
      && line == words[0] + [SPACE] + words[1] + [SPACE] + Join(words[2..])
  {
    hide SplitAt, JoinWith;
    var words := Split(line);
    SplitPieces(line, SPACE);
    JoinSplit(line, SPACE);
    JoinMore(words); JoinMore(words[1..]);
    assert words[1..][1..] == words[2..];
    assert words[0] + [SPACE] + (words[1] + [SPACE] + Join(words[2..])) ==
           words[0] + [SPACE] + words[1] + [SPACE] + Join(words[2..]);
  }

  lemma {:induction false} JoinMore(words: seq<Text>)
    requires |words| >= 2
    ensures Join(words) == words[0] + [SPACE] + Join(words[1..])
  {
  }
}

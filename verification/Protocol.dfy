/** The messages: what client.py writes, how treat_request reads it back field by field, what
    treat_request answers, and how client.py takes the answer apart. */
module Protocol {
  import opened Strings
  import opened Registry
  import opened Lines

  // ----- framing -----

  /** Fields in order, each followed by a NUL. */
  function Framed(fields: seq<Text>): Text {
    if fields == [] then [] else fields[0] + [NUL] + Framed(fields[1..])
  }

  /** What a 256-byte buffer keeps of a field. */
  function Truncated(s: Text): Text {
    s[..Min(|s|, MAX_VALUE_LENGTH - 1)]
  }

  function AllTruncated(fields: seq<Text>): seq<Text> {
    if fields == [] then [] else [Truncated(fields[0])] + AllTruncated(fields[1..])
  }

  lemma {:induction false} TruncatedFits(s: Text)
    requires NUL !in s
    ensures |Truncated(s)| < MAX_VALUE_LENGTH && NUL !in Truncated(s)
    ensures Truncated(s) == s <==> |s| < MAX_VALUE_LENGTH
  {
  }

  // ----- requests -----

  datatype Kind =
    KRegister | KUnregister | KConnect | KPublish | KDelete | KDisconnect | KListUsers | KListContent

  function Keyword(kind: Kind): Text {
    match kind
    case KRegister => [82, 69, 71, 73, 83, 84, 69, 82] // REGISTER
    case KUnregister => [85, 78, 82, 69, 71, 73, 83, 84, 69, 82] // UNREGISTER
    case KConnect => [67, 79, 78, 78, 69, 67, 84] // CONNECT
    case KPublish => [80, 85, 66, 76, 73, 83, 72] // PUBLISH
    case KDelete => [68, 69, 76, 69, 84, 69] // DELETE
    case KDisconnect => [68, 73, 83, 67, 79, 78, 78, 69, 67, 84] // DISCONNECT
    case KListUsers => [76, 73, 83, 84, 95, 85, 83, 69, 82, 83] // LIST_USERS
    case KListContent => [76, 73, 83, 84, 95, 67, 79, 78, 84, 69, 78, 84] // LIST_CONTENT
  }

  /** The first of the eight keywords that equals the word, in the order treat_request tests them. */
  function KindOf(word: Text): Option<Kind> {
    if word == Keyword(KRegister) then Some(KRegister)
    else if word == Keyword(KUnregister) then Some(KUnregister)
    else if word == Keyword(KConnect) then Some(KConnect)
    else if word == Keyword(KPublish) then Some(KPublish)
    else if word == Keyword(KDelete) then Some(KDelete)
    else if word == Keyword(KDisconnect) then Some(KDisconnect)
    else if word == Keyword(KListUsers) then Some(KListUsers)
    else if word == Keyword(KListContent) then Some(KListContent)
    else None
  }

  /** Fields after the keyword: the date, the user, and what the operation needs. */
  function Arity(kind: Kind): nat {
    match kind
    case KConnect | KDelete | KListContent => 3
    case KPublish => 4
    case _ => 2
  }

  /** What the client writes for an operation. */
  function Message(kind: Kind, fields: seq<Text>): Text {
    Framed([Keyword(kind)] + fields)
  }

  datatype Parsed = Aborted | Ignored(word: Text) | Request(kind: Kind, fields: seq<Text>)

  /** `count` successive fields read into zeroed buffers; None when a read fails. */
  function ReadFields(events: seq<Event>, count: nat): Option<seq<Text>>
    decreases count
  {
    if count == 0 then Some([])
    else if EndingOf(events).ReadFails? then None
    else
      var more := ReadFields(Rest(events), count - 1);
      if more.None? then None else Some([Truncated(Payload(events))] + more.value)
  }

  /** `prior` is the string the shared buffer held: a stream that ends at once leaves it there. */
  function Word(prior: Text, events: seq<Event>): Text {
    if EndingOf(events).EndOfFile? && Payload(events) == [] then prior else Truncated(Payload(events))
  }

  function ParseRequest(prior: Text, events: seq<Event>): Parsed {
    if EndingOf(events).ReadFails? then Aborted
    else
      var kind := KindOf(Word(prior, events));
      if kind.None? then Ignored(Word(prior, events))
      else
        var fields := ReadFields(Rest(events), Arity(kind.value));
        if fields.None? then Aborted else Request(kind.value, fields.value)
  }

  lemma {:induction false} ReadFieldsCount(events: seq<Event>, count: nat)
    ensures ReadFields(events, count).Some? ==> |ReadFields(events, count).value| == count
    decreases count
  {
    if count > 0 {
      ReadFieldsCount(Rest(events), count - 1);
    }
  }

  /** The operation a request stands for; `memory` and `peer` are what malloc and getpeername do. */
  function Operation(kind: Kind, fields: seq<Text>, memory: bool, peer: Peer): Op
    requires |fields| == Arity(kind)
  {
    match kind
    case KRegister => Register(fields[1], memory)
    case KUnregister => Unregister(fields[1])
    case KConnect => Connect(fields[1], fields[2], peer)
    case KPublish => Publish(fields[1], fields[2], fields[3], memory)
    case KDelete => Delete(fields[1], fields[2])
    case KDisconnect => Disconnect(fields[1])
    case KListUsers => ListUsers(fields[1])
    case KListContent => ListContent(fields[1], fields[2])
  }

  // ----- framing round trip -----

  lemma {:induction false} KeywordsDistinct(kind: Kind)
    ensures KindOf(Keyword(kind)) == Some(kind)
    ensures DelimiterFree(Keyword(kind)) && Truncated(Keyword(kind)) == Keyword(kind) && Keyword(kind) != []
  {
  }

  /** However the octets arrive and however long the fields are, the server reads back every field,
      truncated to its buffer, and stays aligned on the field boundaries. */
  lemma {:induction false} FieldsRoundTrip(events: seq<Event>, fields: seq<Text>)
    requires Delivers(events, Framed(fields)) && forall f | f in fields :: DelimiterFree(f)
    ensures ReadFields(events, |fields|) == Some(AllTruncated(fields))
    decreases fields
  {
    if fields != [] {
      assert fields[0] in fields;
      assert Framed(fields) == fields[0] + [NUL] + Framed(fields[1..]);
      InterruptsInvisible(events, fields[0], NUL, Framed(fields[1..]));
      FieldsRoundTrip(Rest(events), fields[1..]);
    }
  }

  lemma {:induction false} RequestRoundTrip(kind: Kind, fields: seq<Text>, prior: Text, events: seq<Event>)
    requires |fields| == Arity(kind) && forall f | f in fields :: DelimiterFree(f)
    requires Delivers(events, Message(kind, fields))
    ensures ParseRequest(prior, events) == Request(kind, AllTruncated(fields))
  {
    var all := [Keyword(kind)] + fields;
    assert all[1..] == fields;
    KeywordsDistinct(kind);
    assert Message(kind, fields) == Keyword(kind) + [NUL] + Framed(fields);
    InterruptsInvisible(events, Keyword(kind), NUL, Framed(fields));
    FieldsRoundTrip(Rest(events), fields);
  }

  // ----- requests that fail or end early -----

  /** Before a read fails, a request needs as many delimiters as it has fields. */
  lemma {:induction false} FieldsNeedDelimiters(head: seq<Event>, rest: seq<Event>, count: nat)
    requires NeverFails(head)
    ensures ReadFields(head + [Failed] + rest, count).Some? <==> count <= Delimiters(Octets(head))
    decreases count
  {
    if count > 0 {
      if Delimiters(Octets(head)) == 0 {
        OpenFieldFails(head, rest);
      } else {
        assert head + [Failed] + rest == head + ([Failed] + rest);
        var more := ClosedField(head, [Failed] + rest);
        assert more + [Failed] + rest == more + ([Failed] + rest);
        FieldsNeedDelimiters(more, rest, count - 1);
      }
    }
  }

  function Empties(count: nat): seq<Text> {
    seq(count, _ => [])
  }

  lemma {:induction false} FieldsOfNothing(count: nat)
    ensures ReadFields([], count) == Some(Empties(count))
  {
    assert Truncated([]) == [] && Empties(0) == [];
    if count > 0 {
      FieldsOfNothing(count - 1);
      assert Empties(count) == [[]] + Empties(count - 1);
    }
  }

  /** A stream that ends early is not refused: what has come of the field it breaks off in is taken for
      the whole field, and the fields after it are empty. */
  lemma {:induction false} FieldsAtEnd(events: seq<Event>, fields: seq<Text>, last: Text, missing: nat)
    requires NeverFails(events) && Octets(events) == Framed(fields) + last
    requires DelimiterFree(last) && forall f | f in fields :: DelimiterFree(f)
    ensures ReadFields(events, |fields| + 1 + missing) ==
      Some(AllTruncated(fields) + [Truncated(last)] + Empties(missing))
    decreases fields
  {
    if fields == [] {
      SplitStream(events, []);
      assert events + [] == events && Framed(fields) + last == last;
      FieldsOfNothing(missing);
      assert AllTruncated(fields) + [Truncated(last)] + Empties(missing) == [Truncated(last)] + Empties(missing);
    } else {
      assert fields[0] in fields;
      var tail := Framed(fields[1..]) + last;
      assert Octets(events) == fields[0] + [NUL] + tail;
      assert DeliversWith(events, Octets(events), events);
      InterruptsInvisible(events, fields[0], NUL, tail);
      PayloadIsField(events);
      assert Octets(events)[|fields[0]| + 1..] == tail;
      FieldsAtEnd(Rest(events), fields[1..], last, missing);
      var x, more := Truncated(fields[0]), AllTruncated(fields[1..]);
      assert [x] + (more + [Truncated(last)] + Empties(missing)) == [x] + more + [Truncated(last)] + Empties(missing);
    }
  }

  // ----- replies -----

  /** `send_error`: one character, '0' plus the code, and its NUL. */
  function Status(code: int): Text
    requires -48 <= code < 208
  {
    [48 + code, NUL]
  }

  function ContactFields(cs: seq<Contact>): seq<Text> {
    if cs == [] then [] else [cs[0].name, cs[0].ip, cs[0].port] + ContactFields(cs[1..])
  }

  function FileFields(fs: seq<File>): seq<Text> {
    if fs == [] then [] else [fs[0].name, fs[0].description] + FileFields(fs[1..])
  }

  /** LIST_CONTENT counts only files with a name. */
  function NamedCount(fs: seq<File>): (n: nat)
    ensures n <= |fs|
  {
    if fs == [] then 0 else (if fs[0].name != [] then 1 else 0) + NamedCount(fs[1..])
  }

  function ContactsBody(cs: seq<Contact>): Text {
    Framed([Decimal(|cs|)]) + Framed(ContactFields(cs))
  }

  function FilesBody(fs: seq<File>): Text {
    Framed([Decimal(NamedCount(fs))]) + Framed(FileFields(fs))
  }

  function ReplyBytes(kind: Kind, reply: Reply): Text
    requires -1 <= reply.code <= 4
  {
    Status(reply.code) +
    if reply.code == 0 && kind == KListUsers then ContactsBody(reply.contacts)
    else if reply.code == 0 && kind == KListContent then FilesBody(reply.files)
    else []
  }

  lemma {:induction false} CodesInRange(r: seq<User>, op: Op)
    ensures -1 <= Apply(r, op).1.code <= 4
  {
  }

  // ----- what the client makes of the replies -----

  /** `read_response`: octets up to a NUL, each decoded on its own. Without a NUL it waits forever. */
  datatype Reading = Got(text: Text, rest: Text) | Undecodable | Waits

  function NextField(data: Text): Reading {
    if data == [] then Waits
    else if data[0] == NUL then Got([], data[1..])
    else if data[0] >= 128 then Undecodable
    else
      var r := NextField(data[1..]);
      if r.Got? then Got([data[0]] + r.text, r.rest) else r
  }

  lemma {:induction false} FieldReadBack(f: Text, rest: Text)
    requires NUL !in f
    ensures NextField(f + [NUL] + rest) == if SingleOctet(f) then Got(f, rest) else Undecodable
  {
    var data := f + [NUL] + rest;
    if f == [] {
      assert data[1..] == rest;
    } else {
      assert f[0] in f && data[0] == f[0];
      assert data[1..] == f[1..] + [NUL] + rest;
      FieldReadBack(f[1..], rest);
      assert f == [f[0]] + f[1..];
      assert forall c | c in f[1..] :: c in f;
    }
  }

  /** What comes before the first NUL, all of it, decides: a character of several octets raises, an open
      field waits, and a closed one is read with the NUL. */
  lemma {:induction false} FieldIsExact(data: Text)
    ensures
      var f := CStr(data);
      NextField(data) ==
        if !SingleOctet(f) then Undecodable
        else if NUL !in data then Waits
        else Got(f, data[|f| + 1..])
  {
    if data != [] && data[0] != NUL {
      FieldIsExact(data[1..]);
      var f, g := CStr(data[1..]), CStr(data);
      assert g == [data[0]] + f;
      assert forall c | c in g :: c == data[0] || c in f;
      assert forall c | c in f :: c in g;
      assert data[0] in g && data == [data[0]] + data[1..];
    }
  }

  /** `count` successive fields. */
  datatype Readings = Fields(texts: seq<Text>, rest: Text) | Broken(how: Reading)

  function NextFields(data: Text, count: nat): Readings
    decreases count
  {
    if count == 0 then Fields([], data)
    else
      var r := NextField(data);
      if !r.Got? then Broken(r)
      else
        var more := NextFields(r.rest, count - 1);
        if more.Broken? then more else Fields([r.text] + more.texts, more.rest)
  }

  lemma {:induction false} FieldsReadBack(fields: seq<Text>, rest: Text)
    requires forall f | f in fields :: NUL !in f
    ensures NextFields(Framed(fields) + rest, |fields|) ==
      if (forall f | f in fields :: SingleOctet(f)) then Fields(fields, rest) else Broken(Undecodable)
  {
    if fields != [] {
      assert fields[0] in fields;
      assert Framed(fields) + rest == fields[0] + [NUL] + (Framed(fields[1..]) + rest);
      FieldReadBack(fields[0], Framed(fields[1..]) + rest);
      FieldsReadBack(fields[1..], rest);
      assert forall f | f in fields :: f == fields[0] || f in fields[1..];
    }
  }

  predicate Complete(texts: seq<Text>) {
    forall t | t in texts :: NUL !in t && SingleOctet(t)
  }

  lemma {:induction false} GotField(data: Text)
    requires NextField(data).Got?
    ensures
      var r := NextField(data);
      data == r.text + [NUL] + r.rest && NUL !in r.text && SingleOctet(r.text)
  {
    FieldIsExact(data);
  }

  /** Fields are read iff the data begins with that many complete ones; anything else is broken, and by
      the first thing that is not a complete field. */
  lemma {:induction false} FieldsAreExact(data: Text, count: nat)
    ensures
      var r := NextFields(data, count);
      match r
      case Fields(texts, rest) => |texts| == count && Complete(texts) && data == Framed(texts) + rest
      case Broken(how) => BrokenAfter(data, count, how)
    decreases count
  {
    hide NextField, SingleOctet;
    assert data == Framed([]) + data;
    if count > 0 {
      var r := NextField(data);
      if r.Got? {
        GotField(data);
        FieldsAreExact(r.rest, count - 1);
        var more := NextFields(r.rest, count - 1);
        if more.Fields? {
          assert Framed([r.text] + more.texts) + more.rest == r.text + [NUL] + (Framed(more.texts) + more.rest);
        } else {
          var texts, tail :| |texts| < count - 1 && CompleteBefore(r.rest, texts, tail, more.how);
          assert Framed([r.text] + texts) + tail == r.text + [NUL] + (Framed(texts) + tail);
          assert CompleteBefore(data, [r.text] + texts, tail, more.how);
        }
      } else {
        assert CompleteBefore(data, [], data, r);
      }
    }
  }

  predicate CompleteBefore(data: Text, texts: seq<Text>, tail: Text, how: Reading) {
    Complete(texts) && data == Framed(texts) + tail && NextField(tail) == how && !how.Got?
  }

  ghost predicate BrokenAfter(data: Text, count: nat, how: Reading) {
    exists texts, tail :: |texts| < count && CompleteBefore(data, texts, tail, how)
  }

  /** Of fields that are cut off anywhere, a reader of single octets waits for the rest. */
  lemma {:induction false} CutFieldsWait(fields: seq<Text>, data: Text)
    requires Complete(fields) && data < Framed(fields)
    ensures NextFields(data, |fields|) == Broken(Waits)
  {
    var f, more := fields[0], Framed(fields[1..]);
    assert f in fields && Framed(fields) == f + [NUL] + more;
    FieldIsExact(data);
    if |data| <= |f| {
      assert data == f[..|data|];
      assert forall c | c in data :: c in f;
      CStrUnique(data, data);
    } else {
      assert data == f + [NUL] + data[|f| + 1..];
      FieldReadBack(f, data[|f| + 1..]);
      assert forall t | t in fields[1..] :: t in fields;
      assert data[|f| + 1..] < more;
      CutFieldsWait(fields[1..], data[|f| + 1..]);
    }
  }

  // ----- the client's tables -----

  /** The fields the client reads after a count, an exception, or an endless wait. */
  datatype Table = Shown(texts: seq<Text>) | Raises | Hangs

  function AsTable(r: Readings): Table {
    match r
    case Fields(texts, _) => Shown(texts)
    case Broken(Undecodable) => Raises
    case Broken(_) => Hangs
  }

  function Natural(n: int): nat {
    if n < 0 then 0 else n
  }

  /** The loops of `listusers` and `listcontent`: a count, then that many rows. */
  function ReadTable(data: Text, width: nat): Table {
    var r := NextField(data);
    if !r.Got? then AsTable(Broken(r))
    else
      match PyInt(r.text)
      case None => Raises
      case Some(n) => AsTable(NextFields(r.rest, width * Natural(n)))
  }

  predicate AllSingleOctet(fields: seq<Text>) {
    forall f | f in fields :: SingleOctet(f)
  }

  predicate AllNulFree(fields: seq<Text>) {
    forall f | f in fields :: NUL !in f
  }

  lemma {:induction false} CountReadBack(n: nat, rest: Text)
    ensures NextField(Framed([Decimal(n)]) + rest) == Got(Decimal(n), rest) && PyInt(Decimal(n)) == Some(n)
  {
    assert Framed([Decimal(n)][1..]) == [];
    assert Framed([Decimal(n)]) + rest == Decimal(n) + [NUL] + rest;
    FieldReadBack(Decimal(n), rest);
    DecimalRoundTrip(n);
  }

  lemma {:induction false} ContactFieldsCount(cs: seq<Contact>)
    ensures |ContactFields(cs)| == 3 * |cs|
  {
    if cs != [] {
      ContactFieldsCount(cs[1..]);
    }
  }

  lemma {:induction false} FileFieldsCount(fs: seq<File>)
    ensures |FileFields(fs)| == 2 * |fs|
  {
    if fs != [] {
      FileFieldsCount(fs[1..]);
    }
  }

  lemma {:induction false} FileFieldsSplit(fs: seq<File>, k: nat)
    requires k <= |fs|
    ensures FileFields(fs) == FileFields(fs[..k]) + FileFields(fs[k..])
  {
    if k > 0 {
      assert fs[1..][..k - 1] == fs[..k][1..] && fs[1..][k - 1..] == fs[k..];
      FileFieldsSplit(fs[1..], k - 1);
    } else {
      assert fs[k..] == fs;
    }
  }

  lemma {:induction false} FramedAppend(a: seq<Text>, b: seq<Text>)
    ensures Framed(a + b) == Framed(a) + Framed(b)
  {
    if a == [] {
      assert a + b == b;
    } else {
      assert (a + b)[1..] == a[1..] + b;
      FramedAppend(a[1..], b);
    }
  }

  /** The client shows exactly the contacts the server sent, in order, if every character is a
      single octet; otherwise it raises. */
  lemma {:induction false} ContactsReadBack(cs: seq<Contact>, tail: Text)
    requires AllNulFree(ContactFields(cs))
    ensures ReadTable(ContactsBody(cs) + tail, 3) ==
      if AllSingleOctet(ContactFields(cs)) then Shown(ContactFields(cs)) else Raises
  {
    var body := Framed(ContactFields(cs)) + tail;
    assert ContactsBody(cs) + tail == Framed([Decimal(|cs|)]) + body;
    CountReadBack(|cs|, body);
    ContactFieldsCount(cs);
    FieldsReadBack(ContactFields(cs), tail);
  }

  /** The client shows as many of the files sent as have a name: the count skips files without a
      name, the rows do not. */
  lemma {:induction false} FilesReadBack(fs: seq<File>, tail: Text)
    requires AllNulFree(FileFields(fs))
    ensures
      var shown := FileFields(fs[..NamedCount(fs)]);
      ReadTable(FilesBody(fs) + tail, 2) == if AllSingleOctet(shown) then Shown(shown) else Raises
  {
    var k := NamedCount(fs);
    var shown, hidden := FileFields(fs[..k]), FileFields(fs[k..]);
    FileFieldsSplit(fs, k);
    FramedAppend(shown, hidden);
    assert forall f | f in shown :: f in FileFields(fs);
    var body := Framed(shown) + (Framed(hidden) + tail);
    assert FilesBody(fs) + tail == Framed([Decimal(k)]) + body;
    CountReadBack(k, body);
    FileFieldsCount(fs[..k]);
    FieldsReadBack(shown, Framed(hidden) + tail);
  }

  /** The positions from k on of files that have a name. */
  function Named(fs: seq<File>, k: nat): set<int> {
    set i | k <= i < |fs| && fs[i].name != []
  }

  lemma {:induction false} NamedFrom(fs: seq<File>, k: nat)
    requires k <= |fs|
    ensures NamedCount(fs[k..]) == |Named(fs, k)|
    decreases |fs| - k
  {
    if k < |fs| {
      NamedFrom(fs, k + 1);
      assert fs[k..][1..] == fs[k + 1..];
      assert Named(fs, k) == Named(fs, k + 1) + if fs[k].name != [] then {k} else {};
    }
  }

  /** The count is the number of files that have a name, wherever they stand. */
  lemma {:induction false} NamedCountIs(fs: seq<File>)
    ensures NamedCount(fs) == |set i | 0 <= i < |fs| && fs[i].name != []|
  {
    NamedFrom(fs, 0);
    assert fs[0..] == fs;
    assert Named(fs, 0) == set i | 0 <= i < |fs| && fs[i].name != [];
  }

  lemma {:induction false} NamedCountFull(fs: seq<File>)
    ensures NamedCount(fs) == |fs| <==> forall f | f in fs :: f.name != []
  {
    if fs != [] {
      NamedCountFull(fs[1..]);
      assert forall f | f in fs :: f == fs[0] || f in fs[1..];
      assert forall f | f in fs[1..] :: f in fs;
    }
  }

  /** A LIST_CONTENT comes through whole iff every file has a name and every character is a single
      octet. */
  lemma {:induction false} ContentRoundTrip(fs: seq<File>, tail: Text)
    requires AllNulFree(FileFields(fs))
    ensures ReadTable(FilesBody(fs) + tail, 2) == Shown(FileFields(fs)) <==>
      AllSingleOctet(FileFields(fs)) && forall f | f in fs :: f.name != []
  {
    hide ReadTable;
    var k := NamedCount(fs);
    FilesReadBack(fs, tail);
    FileFieldsCount(fs[..k]); FileFieldsCount(fs);
    NamedCountFull(fs);
    assert fs[..|fs|] == fs;
  }

  // ----- peer lookup -----

  datatype Lookup = Found(ip: Text, port: int) | Absent | LookupRaises | LookupHangs

  /** The loop of `get_data_by_user` with n rows to go. */
  function LookupAmong(data: Text, n: nat, user: Text): Lookup
    decreases n
  {
    if n == 0 then Absent
    else
      var r := NextFields(data, 3);
      match AsTable(r)
      case Raises => LookupRaises
      case Hangs => LookupHangs
      case Shown(t) =>
        NextFieldsCount(data, 3);
        if t[0] == user then (match PyInt(t[2]) case None => LookupRaises case Some(p) => Found(t[1], p))
        else LookupAmong(r.rest, n - 1, user)
  }

  function LookupReply(data: Text, user: Text): Lookup {
    var r := NextField(data);
    match r
    case Undecodable => LookupRaises
    case Waits => LookupHangs
    case Got(t, rest) =>
      match PyInt(t)
      case None => LookupRaises
      case Some(n) => LookupAmong(rest, Natural(n), user)
  }

  lemma {:induction false} NextFieldsCount(data: Text, count: nat)
    ensures NextFields(data, count).Fields? ==> |NextFields(data, count).texts| == count
    decreases count
  {
    if count > 0 && NextField(data).Got? {
      NextFieldsCount(NextField(data).rest, count - 1);
    }
  }

  predicate Readable(c: Contact) {
    SingleOctet(c.name) && SingleOctet(c.ip) && SingleOctet(c.port)
  }

  /** What the lookup should give, straight from the contacts. */
  function LookupIn(cs: seq<Contact>, user: Text): Lookup {
    if cs == [] then Absent
    else if !Readable(cs[0]) then LookupRaises
    else if cs[0].name == user then
      match PyInt(cs[0].port) case None => LookupRaises case Some(p) => Found(cs[0].ip, p)
    else LookupIn(cs[1..], user)
  }

  lemma {:induction false} LookupRows(cs: seq<Contact>, user: Text, tail: Text)
    requires AllNulFree(ContactFields(cs))
    ensures LookupAmong(Framed(ContactFields(cs)) + tail, |cs|, user) == LookupIn(cs, user)
  {
    hide PyInt, SingleOctet, NextField;
    if cs != [] {
      var row, more := [cs[0].name, cs[0].ip, cs[0].port], ContactFields(cs[1..]);
      FramedAppend(row, more);
      assert forall f | f in row + more :: f in ContactFields(cs);
      assert forall f | f in row :: f in row + more;
      assert forall f | f in more :: f in row + more;
      assert Framed(ContactFields(cs)) + tail == Framed(row) + (Framed(more) + tail);
      FieldsReadBack(row, Framed(more) + tail);
      assert row[0] in row && row[1] in row && row[2] in row;
      LookupRows(cs[1..], user, tail);
    }
  }

  /** A listing that breaks off, or becomes unreadable, before the user has been found leaves the client
      as its next row does. */
  lemma {:induction false} LookupRowsCut(cs: seq<Contact>, tail: Text, n: nat, user: Text)
    requires |cs| < n && forall i | 0 <= i < |cs| :: Readable(cs[i]) && cs[i].name != user
    requires AllNulFree(ContactFields(cs)) && NextFields(tail, 3).Broken?
    ensures LookupAmong(Framed(ContactFields(cs)) + tail, n, user) ==
      if NextFields(tail, 3).how.Undecodable? then LookupRaises else LookupHangs
  {
    hide SingleOctet, NextField;
    if cs == [] {
      assert Framed(ContactFields(cs)) + tail == tail;
      FieldsAreExact(tail, 3);
    } else {
      var row, more := [cs[0].name, cs[0].ip, cs[0].port], ContactFields(cs[1..]);
      FramedAppend(row, more);
      assert forall f | f in row + more :: f in ContactFields(cs);
      assert forall f | f in row :: f in row + more;
      assert forall f | f in more :: f in row + more;
      assert Framed(ContactFields(cs)) + tail == Framed(row) + (Framed(more) + tail);
      FieldsReadBack(row, Framed(more) + tail);
      assert Readable(cs[0]);
      LookupRowsCut(cs[1..], tail, n - 1, user);
    }
  }

  /** `get_data_by_user` on a serialised listing is a lookup in the listing, for every listing. */
  lemma {:induction false} LookupRoundTrip(cs: seq<Contact>, user: Text, tail: Text)
    requires AllNulFree(ContactFields(cs))
    ensures LookupReply(ContactsBody(cs) + tail, user) == LookupIn(cs, user)
  {
    var body := Framed(ContactFields(cs)) + tail;
    assert ContactsBody(cs) + tail == Framed([Decimal(|cs|)]) + body;
    CountReadBack(|cs|, body);
    LookupRows(cs, user, tail);
  }
}

/** Runs that clients can cause and in which the reader of a listing is not told what the directory
    holds. */
module Witnesses {
  import opened Strings
  import opened Registry
  import opened Protocol
  import opened Server
  import opened Traffic
  import opened EndToEnd

  const Home := Address(10, 0, 0, 1)
  const Ip := InetNtoa(10, 0, 0, 1)
  const Port := Decimal(80)

  /** The operations can be asked for by clients, all succeed, and they lead to the given directory. */
  ghost predicate Reaches(ops: seq<Op>, r: seq<User>) {
    && (exists visits :: Performed(visits) == ops)
    && (forall k | 0 <= k < |ops| :: ReplyAt(ops, k).code == 0)
    && Run(ops) == r
  }

  lemma {:induction false} ReachesNothing(ops: seq<Op>)
    ensures Reaches(ops[..0], [])
  {
    assert Performed([]) == ops[..0];
  }

  lemma {:induction false} ReachesNext(ops: seq<Op>, k: nat, r: seq<User>, r': seq<User>)
    requires k < |ops| && Reaches(ops[..k], r) && Sendable(ops[k])
    requires Apply(r, ops[k]).0 == r' && Apply(r, ops[k]).1.code == 0
    ensures Reaches(ops[..k + 1], r')
  {
    hide Run, Apply, Sendable, Performed, ReplyAt;
    var front, op := ops[..k], ops[k];
    RunSnoc(front, op);
    var visits :| Performed(visits) == front;
    PerformedSendable(visits);
    assert ops[..k + 1] == front + [op];
    var all := TrafficFor(ops[..k + 1]);
  }

  lemma {:induction false} PortText()
    ensures Port == [56, 48] && PyInt(Port) == Some(80)
  {
    assert Decimal(8) == [48 + 8];
    assert Decimal(80) == Decimal(8) + [48 + 0];
    DecimalRoundTrip(80);
  }

  // ----- a file without a name -----

  const Ana: Text := [97]
  const UnnamedRun := [Register(Ana, true), Connect(Ana, Port, Home),
                       Publish(Ana, [66], [67], true), Publish(Ana, [], [65], true)]
  const AnasFiles := [File([], [65]), File([66], [67])]

  lemma {:induction false} UnnamedRunReaches()
    ensures Reaches(UnnamedRun, [User(Ana, Ip, Port, AnasFiles)])
  {
    hide Reaches, InetNtoa, IsDottedQuad, Decimal, Connected, Remove;
    PortText();
    var r1, r2 := [User(Ana, [], [], [])], [User(Ana, Ip, Port, [])];
    var r3, r4 := [User(Ana, Ip, Port, [File([66], [67])])], [User(Ana, Ip, Port, AnasFiles)];
    var named, both := File([66], [67]), AnasFiles;
    assert [named] + [] == [named] && [both[0]] + [named] == both;
    ReachesNothing(UnnamedRun);
    ReachesNext(UnnamedRun, 0, [], r1);
    ReachesNext(UnnamedRun, 1, r1, r2);
    ReachesNext(UnnamedRun, 2, r2, r3);
    ReachesNext(UnnamedRun, 3, r3, r4);
    assert UnnamedRun[..4] == UnnamedRun;
  }

  lemma {:induction false} OneRowOfTwo()
    ensures NamedCount(AnasFiles) == 1 && FileFields(AnasFiles[..1]) == [[], [65]]
    ensures |FileFields(AnasFiles)| == 4
  {
    assert AnasFiles[1..] == [File([66], [67])] && AnasFiles[1..][1..] == [];
    assert NamedCount(AnasFiles[1..]) == 1;
    assert AnasFiles[..1] == [File([], [65])] && AnasFiles[..1][1..] == [];
    FileFieldsCount(AnasFiles);
  }

  lemma {:induction false} AnaListsHerself()
    ensures
      var r := [User(Ana, Ip, Port, AnasFiles)];
      Find(r, Ana) == 0 && AllFit(r) && Apply(r, ListContent(Ana, Ana)).1.code == 0
  {
    hide InetNtoa, IsDottedQuad, Decimal, Connected;
    PortText();
  }

  /** A user publishes two files, the second without a name. Whoever lists them sees one, the one
      without a name, although the directory holds both. */
  lemma {:induction false} UnnamedFileHidesAnother()
    ensures Reaches(UnnamedRun, [User(Ana, Ip, Port, AnasFiles)])
    ensures
      var status := NextField(Answer(KListContent, Run(UnnamedRun), ListContent(Ana, Ana)));
      status.Got? && ReadTable(status.rest, 2) == Shown([[], [65]]) != Shown(FileFields(AnasFiles))
  {
    hide InetNtoa, IsDottedQuad, Decimal, ReadTable, FilesBody, NamedCount, FileFields, Answer, NextField, Apply,
         AllFit, Run, Performed, Find, ReplyAt;
    UnnamedRunReaches();
    AnaListsHerself();
    ContentSent([User(Ana, Ip, Port, AnasFiles)], Ana, Ana);
    OneRowOfTwo();
    FilesReadBack(AnasFiles, []);
    assert AllSingleOctet([[], [65]]);
  }

  // ----- a name of several octets -----

  const Inaki: Text := [195, 177]
  const PeerRun := [Register(Ana, true), Connect(Ana, Port, Home), Register(Inaki, true), Connect(Inaki, Port, Home)]
  const Both := [User(Inaki, Ip, Port, []), User(Ana, Ip, Port, [])]

  lemma {:induction false} PeerRunReaches()
    ensures Reaches(PeerRun, Both)
  {
    hide Reaches, InetNtoa, IsDottedQuad, Decimal;
    PortText();
    var r1, r2 := [User(Ana, [], [], [])], [User(Ana, Ip, Port, [])];
    var r3 := [User(Inaki, [], [], []), User(Ana, Ip, Port, [])];
    ReachesNothing(PeerRun);
    ReachesNext(PeerRun, 0, [], r1);
    ReachesNext(PeerRun, 1, r1, r2);
    ReachesNext(PeerRun, 2, r2, r3);
    ReachesNext(PeerRun, 3, r3, Both);
    assert PeerRun[..4] == PeerRun;
  }

  /** A user whose name has a character of two octets connects after another one has. The lookup of the
      other one then raises, although the directory knows where to find her. */
  lemma {:induction false} NameOfSeveralOctetsHidesPeer()
    ensures Reaches(PeerRun, Both) && Expected(Both, Ana) == Found(Ip, 80)
    ensures
      var status := NextField(Answer(KListUsers, Both, ListUsers(Ana)));
      status.Got? && LookupReply(status.rest, Ana) == LookupRaises
  {
    hide InetNtoa, IsDottedQuad, Decimal, Reaches, LookupReply, Answer, PyInt;
    PeerRunReaches();
    PortText();
    assert Find(Both, Ana) == 1 by { assert Both[1..][0].name == Ana; }
    assert Good(Both) && AllFit(Both);
    var front := Both[..1];
    assert front[..0] == [] && Connected(front[..0]) == [];
    assert Connected(front) == [Contact(Inaki, Ip, Port)];
    assert Connected(Both)[0] == Contact(Inaki, Ip, Port);
    assert 195 in Inaki;
    assert !Readable(Connected(Both)[0]);
    PeerLookup(Both, Ana, Ana);
  }
}

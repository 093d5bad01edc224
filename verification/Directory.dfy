/** The directory with order forgotten: a map from username to account. It is written without
    positions or list editing, and the list in module Registry refines it. */
module Directory {
  import opened Strings
  import opened Registry

  datatype Account = Account(ip: Text, port: Text, files: map<Text, Text>)

  type Accounts = map<Text, Account>

  datatype Answer = Answer(code: int, contacts: set<Contact>, files: map<Text, Text>)

  function Only(code: int): Answer {
    Answer(code, {}, map[])
  }

  function Effect(m: Accounts, op: Op): (Accounts, Answer) {
    var u := op.user;
    if op.Register? then
      if u in m then (m, Only(1))
      else if !op.memory then (m, Only(-1))
      else (m[u := Account([], [], map[])], Only(0))
    else if u !in m then (m, Only(1))
    else
      var a := m[u];
      var online := a.ip != [];
      match op
      case Unregister(_) => (m - {u}, Only(0))
      case Connect(_, port, peer) =>
        if online then (m, Only(2))
        else if peer.NoPeer? then (m, Only(3))
        else (m[u := a.(ip := InetNtoa(peer.a, peer.b, peer.c, peer.d), port := port)], Only(0))
      case Disconnect(_) =>
        if !online then (m, Only(2)) else (m[u := a.(ip := [], port := [])], Only(0))
      case Publish(_, file, description, memory) =>
        if !online then (m, Only(2))
        else if file in a.files then (m, Only(3))
        else if !memory then (m, Only(4))
        else (m[u := a.(files := a.files[file := description])], Only(0))
      case Delete(_, file) =>
        if !online then (m, Only(2))
        else if file !in a.files then (m, Only(3))
        else (m[u := a.(files := a.files - {file})], Only(0))
      case ListUsers(_) =>
        if !online then (m, Only(2)) else (m, Answer(0, Online(m), map[]))
      case ListContent(_, target) =>
        if !online then (m, Only(2))
        else if target !in m then (m, Only(3))
        else (m, Answer(0, {}, m[target].files))
  }

  function Online(m: Accounts): set<Contact> {
    set u | u in m && m[u].ip != [] :: Contact(u, m[u].ip, m[u].port)
  }

  // ----- abstraction -----

  function FileMap(fs: seq<File>): map<Text, Text> {
    if fs == [] then map[] else FileMap(fs[1..])[fs[0].name := fs[0].description]
  }

  function AccountOf(u: User): Account {
    Account(u.ip, u.port, FileMap(u.files))
  }

  function AsMap(r: seq<User>): Accounts {
    if r == [] then map[] else AsMap(r[1..])[r[0].name := AccountOf(r[0])]
  }

  function AsAnswer(reply: Reply): Answer {
    Answer(reply.code, (set c | c in reply.contacts), FileMap(reply.files))
  }

  lemma {:induction false} FileMapAt(fs: seq<File>, n: Text)
    ensures n in FileMap(fs) <==> FindFile(fs, n) < |fs|
    ensures n in FileMap(fs) ==> FileMap(fs)[n] == fs[FindFile(fs, n)].description
  {
    if fs != [] {
      FileMapAt(fs[1..], n);
    }
  }

  lemma {:induction false} AsMapAt(r: seq<User>, n: Text)
    ensures n in AsMap(r) <==> Find(r, n) < |r|
    ensures n in AsMap(r) ==> AsMap(r)[n] == AccountOf(r[Find(r, n)])
  {
    if r != [] {
      AsMapAt(r[1..], n);
    }
  }

  // In a good registry a user sits at the only position that carries its name.

  lemma {:induction false} FindAt(r: seq<User>, i: nat)
    requires DistinctUsers(r) && i < |r|
    ensures Find(r, r[i].name) == i
  {
  }

  lemma {:induction false} MapOfUpdate(r: seq<User>, i: nat, u: User)
    requires DistinctUsers(r) && i < |r| && u.name == r[i].name
    ensures AsMap(r[i := u]) == AsMap(r)[u.name := AccountOf(u)]
  {
    if i == 0 {
      assert r[0 := u][1..] == r[1..];
    } else {
      assert r[i := u][1..] == r[1..][i - 1 := u];
      MapOfUpdate(r[1..], i - 1, u);
    }
  }

  lemma {:induction false} MapOfRemove(r: seq<User>, i: nat)
    requires DistinctUsers(r) && i < |r|
    ensures AsMap(Remove(r, i)) == AsMap(r) - {r[i].name}
  {
    if i == 0 {
      assert Remove(r, 0) == r[1..];
      AsMapAt(r[1..], r[0].name);
    } else {
      assert Remove(r, i)[1..] == Remove(r[1..], i - 1);
      MapOfRemove(r[1..], i - 1);
    }
  }

  lemma {:induction false} FileMapOfRemove(fs: seq<File>, i: nat)
    requires DistinctFiles(fs) && i < |fs|
    ensures FileMap(Remove(fs, i)) == FileMap(fs) - {fs[i].name}
  {
    if i == 0 {
      assert Remove(fs, 0) == fs[1..];
      FileMapAt(fs[1..], fs[0].name);
    } else {
      assert Remove(fs, i)[1..] == Remove(fs[1..], i - 1);
      FileMapOfRemove(fs[1..], i - 1);
    }
  }

  /** The connected users of the list are the online accounts of the map. */
  lemma {:induction false} ConnectedMembers(r: seq<User>, c: Contact)
    ensures c in Connected(r) <==>
      exists i :: 0 <= i < |r| && r[i].ip != [] && c == Contact(r[i].name, r[i].ip, r[i].port)
  {
    if r != [] {
      var front, u := r[..|r| - 1], r[|r| - 1];
      ConnectedMembers(front, c);
      if c in Connected(r) && c !in Connected(front) {
        assert c == Contact(u.name, u.ip, u.port);
      }
      forall i | 0 <= i < |r| && r[i].ip != [] && c == Contact(r[i].name, r[i].ip, r[i].port)
        ensures c in Connected(r)
      {
        if i < |r| - 1 {
          assert front[i] == r[i];
        }
      }
    }
  }

  lemma {:induction false} OnlineIsConnected(r: seq<User>)
    requires DistinctUsers(r)
    ensures Online(AsMap(r)) == set c | c in Connected(r)
  {
    forall c
      ensures c in Online(AsMap(r)) <==> c in Connected(r)
    {
      ConnectedMembers(r, c);
      AsMapAt(r, c.name);
      if c in Connected(r) {
        var i :| 0 <= i < |r| && r[i].ip != [] && c == Contact(r[i].name, r[i].ip, r[i].port);
        FindAt(r, i);
      }
    }
  }

  // ----- refinement -----

  lemma {:induction false} SessionsRefine(r: seq<User>, op: Op)
    requires Good(r) && (op.Connect? || op.Disconnect?) && Find(r, op.user) < |r|
    ensures AsMap(Apply(r, op).0) == Effect(AsMap(r), op).0
    ensures AsAnswer(Apply(r, op).1) == Effect(AsMap(r), op).1
  {
    hide AsMap, FileMap, InetNtoa;
    var i := Find(r, op.user);
    var u := r[i];
    AsMapAt(r, op.user);
    NoFilesMap();
    MapOfUpdate(r, i, u.(ip := [], port := []));
    if op.Connect? && op.peer.Address? {
      MapOfUpdate(r, i, u.(ip := InetNtoa(op.peer.a, op.peer.b, op.peer.c, op.peer.d), port := op.port));
    }
  }

  lemma {:induction false} PublishRefines(r: seq<User>, op: Op)
    requires Good(r) && op.Publish? && Find(r, op.user) < |r|
    ensures AsMap(Apply(r, op).0) == Effect(AsMap(r), op).0
    ensures AsAnswer(Apply(r, op).1) == Effect(AsMap(r), op).1
  {
    hide AsMap;
    var i := Find(r, op.user);
    var u, f := r[i], File(op.file, op.description);
    AsMapAt(r, op.user);
    FileMapAt(u.files, op.file);
    assert ([f] + u.files)[1..] == u.files;
    MapOfUpdate(r, i, u.(files := [f] + u.files));
  }

  lemma {:induction false} DeleteRefines(r: seq<User>, op: Op)
    requires Good(r) && op.Delete? && Find(r, op.user) < |r|
    ensures AsMap(Apply(r, op).0) == Effect(AsMap(r), op).0
    ensures AsAnswer(Apply(r, op).1) == Effect(AsMap(r), op).1
  {
    hide AsMap, FileMap, Remove;
    var i := Find(r, op.user);
    var u := r[i];
    assert u in r && GoodUser(u);
    var k := FindFile(u.files, op.file);
    AsMapAt(r, op.user);
    NoFilesMap();
    FileMapAt(u.files, op.file);
    if k < |u.files| {
      FileMapOfRemove(u.files, k);
      MapOfUpdate(r, i, u.(files := Remove(u.files, k)));
    }
  }

  lemma {:induction false} NoFilesMap()
    ensures FileMap([]) == map[]
  {
  }

  /** Every operation of the list does to the map exactly what the map specification says, and
      answers with the code and contents it dictates, whatever malloc and getpeername do. */
  lemma {:induction false} ApplyRefinesEffect(r: seq<User>, op: Op)
    requires Good(r)
    ensures AsMap(Apply(r, op).0) == Effect(AsMap(r), op).0
    ensures AsAnswer(Apply(r, op).1) == Effect(AsMap(r), op).1
  {
    hide Remove, InetNtoa, FindFile, FileMap, Online, Connected;
    var i := Find(r, op.user);
    AsMapAt(r, op.user);
    NoFilesMap();
    if i == |r| {
      if op.Register? {
        assert ([User(op.user, [], [], [])] + r)[1..] == r;
      }
    } else if !op.Register? {
      match op
      case Unregister(_) => MapOfRemove(r, i);
      case Connect(_, _, _) => SessionsRefine(r, op);
      case Disconnect(_) => SessionsRefine(r, op);
      case Publish(_, _, _, _) => PublishRefines(r, op);
      case Delete(_, _) => DeleteRefines(r, op);
      case ListUsers(_) => OnlineIsConnected(r);
      case ListContent(_, target) => AsMapAt(r, target);
    }
  }

  function RunMap(ops: seq<Op>): Accounts {
    if ops == [] then map[]
    else Effect(RunMap(ops[..|ops| - 1]), ops[|ops| - 1]).0
  }

  /** After any run the list and the map specification agree, and so do all replies. */
  lemma {:induction false} RunRefinesRunMap(ops: seq<Op>)
    ensures AsMap(Run(ops)) == RunMap(ops)
    ensures forall k | 0 <= k < |ops| ::
      AsAnswer(ReplyAt(ops, k)) == Effect(RunMap(ops[..k]), ops[k]).1
  {
    if ops != [] {
      var front := ops[..|ops| - 1];
      RunRefinesRunMap(front);
      RunIsGood(front);
      ApplyRefinesEffect(Run(front), ops[|ops| - 1]);
      forall k | 0 <= k < |ops|
        ensures AsAnswer(ReplyAt(ops, k)) == Effect(RunMap(ops[..k]), ops[k]).1
      {
        if k < |ops| - 1 {
          assert front[..k] == ops[..k];
          assert ReplyAt(front, k) == ReplyAt(ops, k);
        }
      }
    }
  }

  // ----- independence -----

  /** Mutators of different users commute: either order leaves the same accounts, and each
      operation gets the reply it would have got alone. */
  lemma {:induction false} DifferentUsersCommute(r: seq<User>, a: Op, b: Op)
    requires Good(r) && a.Mutates() && b.Mutates() && a.user != b.user
    ensures
      var ab, ba := Apply(Apply(r, a).0, b), Apply(Apply(r, b).0, a);
      && AsMap(ab.0) == AsMap(ba.0)
      && ab.1.code == Apply(r, b).1.code
      && ba.1.code == Apply(r, a).1.code
  {
    var ra, rb := Apply(r, a).0, Apply(r, b).0;
    ApplyKeepsGood(r, a); ApplyKeepsGood(r, b);
    ApplyRefinesEffect(r, a); ApplyRefinesEffect(r, b);
    ApplyRefinesEffect(ra, b); ApplyRefinesEffect(rb, a);
    EffectsCommute(AsMap(r), a, b);
    CodeSurvives(r, a); CodeSurvives(r, b); CodeSurvives(ra, b); CodeSurvives(rb, a);
  }

  lemma {:induction false} CodeSurvives(r: seq<User>, op: Op)
    ensures AsAnswer(Apply(r, op).1).code == Apply(r, op).1.code
  {
  }

  function Get(m: Accounts, u: Text): Option<Account> {
    if u in m then Some(m[u]) else None
  }

  function Put(m: Accounts, u: Text, a: Option<Account>): Accounts {
    if a.Some? then m[u := a.value] else m - {u}
  }

  /** What a mutator makes of its own user's account, and its answer, looking at no other. */
  function Own(a: Option<Account>, op: Op): (Option<Account>, Answer) {
    var m: Accounts := Put(map[], op.user, a);
    (Get(Effect(m, op).0, op.user), Effect(m, op).1)
  }

  lemma {:induction false} EffectIsLocal(m: Accounts, op: Op)
    requires op.Mutates()
    ensures Effect(m, op).0 == Put(m, op.user, Own(Get(m, op.user), op).0)
    ensures Effect(m, op).1 == Own(Get(m, op.user), op).1
  {
  }

  lemma {:induction false} EffectsCommute(m: Accounts, a: Op, b: Op)
    requires a.Mutates() && b.Mutates() && a.user != b.user
    ensures Effect(Effect(m, a).0, b).0 == Effect(Effect(m, b).0, a).0
    ensures Effect(Effect(m, a).0, b).1 == Effect(m, b).1
    ensures Effect(Effect(m, b).0, a).1 == Effect(m, a).1
  {
    var ma, mb := Effect(m, a).0, Effect(m, b).0;
    EffectIsLocal(m, a); EffectIsLocal(mb, a);
    EffectIsLocal(m, b); EffectIsLocal(ma, b);
    var x, y := Own(Get(m, a.user), a).0, Own(Get(m, b.user), b).0;
    PutsCommute(m, a.user, x, b.user, y);
    assert Get(ma, b.user) == Get(m, b.user);
    assert Get(mb, a.user) == Get(m, a.user);
  }

  lemma {:induction false} PutsCommute(m: Accounts, u: Text, x: Option<Account>, v: Text, y: Option<Account>)
    requires u != v
    ensures Put(Put(m, u, x), v, y) == Put(Put(m, v, y), u, x)
    ensures Get(Put(m, u, x), v) == Get(m, v)
    ensures Get(Put(m, v, y), u) == Get(m, u)
  {
  }
}

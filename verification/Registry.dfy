/** The directory as a value: the list of registered users, newest first, and the effect and
    reply of each of the eight operations of server/list.c. */
module Registry {
  import opened Strings

  datatype File = File(name: Text, description: Text)

  /** A registered user; connected when the ip is not empty. */
  datatype User = User(name: Text, ip: Text, port: Text, files: seq<File>)

  datatype Contact = Contact(name: Text, ip: Text, port: Text)

  /** Outcome of `getpeername`. */
  datatype Peer = Address(a: Octet, b: Octet, c: Octet, d: Octet) | NoPeer

  /** `memory` is the outcome of the operation's `malloc`. */
  datatype Op =
    | Register(user: Text, memory: bool)
    | Unregister(user: Text)
    | Connect(user: Text, port: Text, peer: Peer)
    | Disconnect(user: Text)
    | Publish(user: Text, file: Text, description: Text, memory: bool)
    | Delete(user: Text, file: Text)
    | ListUsers(user: Text)
    | ListContent(user: Text, target: Text)
  {
    predicate Mutates() {
      !ListUsers? && !ListContent?
    }
  }

  /** The return code, and what the two listings hand back with code 0. */
  datatype Reply = Reply(code: int, contacts: seq<Contact>, files: seq<File>)

  function Code(code: int): Reply {
    Reply(code, [], [])
  }

  // ----- searching and editing -----

  /** Position of the user, or the length when there is none. */
  function Find(r: seq<User>, name: Text): (i: nat)
    ensures i <= |r|
    ensures i < |r| ==> r[i].name == name
    ensures forall j | 0 <= j < i :: r[j].name != name
  {
    if r == [] || r[0].name == name then 0 else 1 + Find(r[1..], name)
  }

  function FindFile(fs: seq<File>, name: Text): (i: nat)
    ensures i <= |fs|
    ensures i < |fs| ==> fs[i].name == name
    ensures forall j | 0 <= j < i :: fs[j].name != name
  {
    if fs == [] || fs[0].name == name then 0 else 1 + FindFile(fs[1..], name)
  }

  function Remove<T>(s: seq<T>, i: nat): seq<T>
    requires i < |s|
  {
    s[..i] + s[i + 1..]
  }

  /** The connected users, in registry order. */
  function Connected(r: seq<User>): (cs: seq<Contact>)
    ensures |cs| <= |r|
  {
    if r == [] then []
    else
      var u := r[|r| - 1];
      Connected(r[..|r| - 1]) + if u.ip != [] then [Contact(u.name, u.ip, u.port)] else []
  }

  // ----- the operations -----

  function Apply(r: seq<User>, op: Op): (seq<User>, Reply) {
    var i := Find(r, op.user);
    if op.Register? then
      if i < |r| then (r, Code(1))
      else if !op.memory then (r, Code(-1))
      else ([User(op.user, [], [], [])] + r, Code(0))
    else if i == |r| then (r, Code(1))
    else
      var u := r[i];
      match op
      case Unregister(_) => (Remove(r, i), Code(0))
      case Connect(_, port, peer) =>
        if u.ip != [] then (r, Code(2))
        else if peer.NoPeer? then (r, Code(3))
        else (r[i := u.(ip := InetNtoa(peer.a, peer.b, peer.c, peer.d), port := port)], Code(0))
      case Disconnect(_) =>
        if u.ip == [] then (r, Code(2))
        else (r[i := u.(ip := [], port := [])], Code(0))
      case Publish(_, file, description, memory) =>
        if u.ip == [] then (r, Code(2))
        else if FindFile(u.files, file) < |u.files| then (r, Code(3))
        else if !memory then (r, Code(4))
        else (r[i := u.(files := [File(file, description)] + u.files)], Code(0))
      case Delete(_, file) =>
        var k := FindFile(u.files, file);
        if u.ip == [] then (r, Code(2))
        else if k == |u.files| then (r, Code(3))
        else (r[i := u.(files := Remove(u.files, k))], Code(0))
      case ListUsers(_) =>
        if u.ip == [] then (r, Code(2)) else (r, Reply(0, Connected(r), []))
      case ListContent(_, target) =>
        var t := Find(r, target);
        if u.ip == [] then (r, Code(2))
        else if t == |r| then (r, Code(3))
        else (r, Reply(0, [], r[t].files))
  }

  // ----- what every operation keeps -----

  predicate DistinctUsers(r: seq<User>) {
    forall i, j | 0 <= i < j < |r| :: r[i].name != r[j].name
  }

  predicate DistinctFiles(fs: seq<File>) {
    forall i, j | 0 <= i < j < |fs| :: fs[i].name != fs[j].name
  }

  predicate GoodUser(u: User) {
    DistinctFiles(u.files) && (u.ip == [] ==> u.port == [])
  }

  /** Usernames are distinct, filenames are distinct within a user, and a user without an ip
      has no port. */
  predicate Good(r: seq<User>) {
    DistinctUsers(r) && forall u | u in r :: GoodUser(u)
  }

  lemma {:induction false} ApplyKeepsGood(r: seq<User>, op: Op)
    requires Good(r)
    ensures Good(Apply(r, op).0)
  {
    hide InetNtoa, Connected, FindFile;
    var r' := Apply(r, op).0;
    var i := Find(r, op.user);
    if |r'| == |r| && i < |r| && op.Mutates() && !op.Unregister? {
      var u, u' := r[i], r'[i];
      assert GoodUser(u);
      assert u'.name == u.name && GoodUser(u');
      assert r' == r[i := u'];
    }
  }

  // ----- runs -----

  /** The registry after a whole sequence of operations, starting with no users. */
  function Run(ops: seq<Op>): (r: seq<User>) {
    if ops == [] then []
    else Apply(Run(ops[..|ops| - 1]), ops[|ops| - 1]).0
  }

  /** The reply given to the k-th operation of a run. */
  function ReplyAt(ops: seq<Op>, k: nat): Reply
    requires k < |ops|
  {
    Apply(Run(ops[..k]), ops[k]).1
  }

  lemma {:induction false} RunIsGood(ops: seq<Op>)
    ensures Good(Run(ops))
  {
    if ops != [] {
      RunIsGood(ops[..|ops| - 1]);
      ApplyKeepsGood(Run(ops[..|ops| - 1]), ops[|ops| - 1]);
    }
  }

  lemma {:induction false} RunSnoc(ops: seq<Op>, op: Op)
    ensures Run(ops + [op]) == Apply(Run(ops), op).0
    ensures ReplyAt(ops + [op], |ops|) == Apply(Run(ops), op).1
    ensures forall k | 0 <= k < |ops| :: ReplyAt(ops + [op], k) == ReplyAt(ops, k)
  {
    assert (ops + [op])[..|ops|] == ops;
    forall k | 0 <= k < |ops|
      ensures ReplyAt(ops + [op], k) == ReplyAt(ops, k)
    {
      assert (ops + [op])[..k] == ops[..k];
    }
  }

  // ----- inverses -----

  /** A successful operation followed by its opposite restores the whole registry, order
      included, and the opposite succeeds. */
  lemma {:induction false} OppositesCancel(r: seq<User>, op: Op, undo: Op)
    requires Good(r) && Apply(r, op).1.code == 0
    requires
      || (op.Register? && undo == Unregister(op.user))
      || (op.Publish? && undo == Delete(op.user, op.file))
      || (op.Connect? && undo == Disconnect(op.user))
    ensures Apply(Apply(r, op).0, undo) == (r, Code(0))
  {
    hide InetNtoa, Connected, DistinctUsers, DistinctFiles;
    var r' := Apply(r, op).0;
    var i := Find(r, op.user);
    if op.Register? {
      assert Find(r', op.user) == 0;
      assert Remove(r', 0) == r;
    } else {
      var u, u' := r[i], r'[i];
      assert u in r && GoodUser(u);
      assert Find(r', op.user) == i;
      if op.Publish? {
        assert FindFile(u'.files, op.file) == 0;
        assert Remove(u'.files, 0) == u.files;
        assert u'.(files := u.files) == u;
      } else {
        assert u'.(ip := [], port := []) == u;
      }
      assert r'[i := u] == r;
    }
  }
}

/** What the directory holds after a whole run, told only by which operations succeeded, in which
    order. */
module History {
  import opened Strings
  import opened Registry

  /** The operations of a run that answered 0, in the order they happened. */
  function Successes(ops: seq<Op>): (done: seq<Op>)
    ensures |done| <= |ops|
  {
    if ops == [] then []
    else
      var n := |ops| - 1;
      Successes(ops[..n]) + if ReplyAt(ops, n).code == 0 then [ops[n]] else []
  }

  // ----- facts about the directory, and the operations that make and undo them -----

  datatype Fact =
    | Registered(user: Text)
    | Online(user: Text, ip: Text, port: Text)
    | Listed(user: Text, file: Text, description: Text)

  predicate HoldsOf(u: User, fact: Fact) {
    match fact
    case Registered(_) => true
    case Online(_, ip, port) => u.ip == ip && u.port == port && ip != []
    case Listed(_, f, d) =>
      var k := FindFile(u.files, f);
      k < |u.files| && u.files[k].description == d
  }

  predicate Holds(r: seq<User>, fact: Fact) {
    var i := Find(r, fact.user);
    i < |r| && HoldsOf(r[i], fact)
  }

  predicate Makes(op: Op, fact: Fact) {
    op.user == fact.user &&
    match fact
    case Registered(_) => op.Register?
    case Online(_, ip, port) =>
      && op.Connect? && op.port == port && op.peer.Address?
      && ip == InetNtoa(op.peer.a, op.peer.b, op.peer.c, op.peer.d)
    case Listed(_, f, d) => op.Publish? && op.file == f && op.description == d
  }

  predicate Undoes(op: Op, fact: Fact) {
    op.user == fact.user &&
    match fact
    case Registered(_) => op.Unregister?
    case Online(_, _, _) => op.Register? || op.Unregister? || op.Connect? || op.Disconnect?
    case Listed(_, f, _) =>
      || op.Register? || op.Unregister?
      || (op.Publish? && op.file == f) || (op.Delete? && op.file == f)
  }

  /** Some operation made the fact, and none after it undid it. */
  ghost predicate Lasts(done: seq<Op>, fact: Fact) {
    exists k: nat :: k < |done| && MadeForGood(done, k, fact)
  }

  ghost predicate MadeForGood(done: seq<Op>, k: nat, fact: Fact)
    requires k < |done|
  {
    Makes(done[k], fact) && forall j | k < j < |done| :: !Undoes(done[j], fact)
  }

  lemma {:induction false} LastsSnoc(done: seq<Op>, op: Op, fact: Fact)
    ensures Lasts(done + [op], fact) <==>
      Makes(op, fact) || (Lasts(done, fact) && !Undoes(op, fact))
  {
    var done' := done + [op];
    if Lasts(done', fact) {
      var k: nat :| k < |done'| && MadeForGood(done', k, fact);
      if k < |done| {
        assert forall j | k < j < |done| :: done[j] == done'[j];
        assert MadeForGood(done, k, fact);
        assert done'[|done|] == op;
      }
    }
    if Makes(op, fact) {
      assert MadeForGood(done', |done|, fact);
    }
    if Lasts(done, fact) && !Undoes(op, fact) {
      var k: nat :| k < |done| && MadeForGood(done, k, fact);
      assert MadeForGood(done', k, fact);
    }
  }

  // ----- one step -----

  lemma {:induction false} FindInRemove(r: seq<User>, i: nat, u: Text)
    requires DistinctUsers(r) && i < |r|
    ensures u == r[i].name ==> Find(Remove(r, i), u) == |r| - 1
    ensures u != r[i].name ==>
      var j, j' := Find(r, u), Find(Remove(r, i), u);
      (j == |r| <==> j' == |r| - 1) && (j < |r| ==> Remove(r, i)[j'] == r[j])
  {
    var r' := Remove(r, i);
    var j, j' := Find(r, u), Find(r', u);
    if j < |r| && j != i {
      assert r'[if j < i then j else j - 1] == r[j];
    }
    if j' < |r'| {
      assert r'[j'] == r[if j' < i then j' else j' + 1];
    }
  }

  lemma {:induction false} FindFileInRemove(fs: seq<File>, i: nat, f: Text)
    requires DistinctFiles(fs) && i < |fs|
    ensures f == fs[i].name ==> FindFile(Remove(fs, i), f) == |fs| - 1
    ensures f != fs[i].name ==>
      var j, j' := FindFile(fs, f), FindFile(Remove(fs, i), f);
      (j == |fs| <==> j' == |fs| - 1) && (j < |fs| ==> Remove(fs, i)[j'] == fs[j])
  {
    var fs' := Remove(fs, i);
    var j, j' := FindFile(fs, f), FindFile(fs', f);
    if j < |fs| && j != i {
      assert fs'[if j < i then j else j - 1] == fs[j];
    }
    if j' < |fs'| {
      assert fs'[j'] == fs[if j' < i then j' else j' + 1];
    }
  }

  lemma {:induction false} FailureChangesNothing(r: seq<User>, op: Op)
    requires Apply(r, op).1.code != 0 || !op.Mutates()
    ensures Apply(r, op).0 == r
  {
  }

  /** Operations other than register and unregister edit one record where it stands. */
  lemma {:induction false} EditsInPlace(r: seq<User>, op: Op, u: Text)
    requires !op.Register? && !op.Unregister?
    ensures
      var r' := Apply(r, op).0;
      && |r'| == |r| && Find(r', u) == Find(r, u)
      && forall j | 0 <= j < |r| :: r'[j].name == r[j].name && (r[j].name != op.user ==> r'[j] == r[j])
  {
    hide InetNtoa, FindFile, Connected, Remove;
    var r', i := Apply(r, op).0, Find(r, op.user);
    if i < |r| {
      var u' := r'[i];
      assert r' == r[i := u'] && u'.name == r[i].name;
    }
    SameNamesSameFind(r, r', u);
  }

  lemma {:induction false} SameNamesSameFind(r: seq<User>, r': seq<User>, u: Text)
    requires |r| == |r'| && forall j | 0 <= j < |r| :: r'[j].name == r[j].name
    ensures Find(r', u) == Find(r, u)
  {
  }

  /** An operation of another user leaves a user's record as it was. */
  lemma {:induction false} OthersUntouched(r: seq<User>, op: Op, u: Text)
    requires Good(r) && op.user != u
    ensures
      var r' := Apply(r, op).0;
      var i, i' := Find(r, u), Find(r', u);
      (i < |r| <==> i' < |r'|) && (i < |r| ==> r'[i'] == r[i])
  {
    var r' := Apply(r, op).0;
    if r' != r {
      if op.Register? {
        assert r'[1..] == r;
      } else if op.Unregister? {
        FindInRemove(r, Find(r, op.user), u);
      } else {
        EditsInPlace(r, op, u);
      }
    }
  }

  /** What an operation other than register and unregister makes of its user's record. */
  function Edited(u: User, op: Op): User {
    match op
    case Connect(_, port, peer) =>
      if peer.Address? then u.(ip := InetNtoa(peer.a, peer.b, peer.c, peer.d), port := port) else u
    case Disconnect(_) => u.(ip := [], port := [])
    case Publish(_, file, description, _) => u.(files := [File(file, description)] + u.files)
    case Delete(_, file) =>
      var k := FindFile(u.files, file);
      if k < |u.files| then u.(files := Remove(u.files, k)) else u
    case _ => u
  }

  lemma {:induction false} SuccessEdits(r: seq<User>, op: Op)
    requires !op.Register? && !op.Unregister? && Apply(r, op).1.code == 0
    ensures
      var i := Find(r, op.user);
      i < |r| && Apply(r, op).0 == r[i := Edited(r[i], op)]
  {
  }

  lemma {:induction false} EditedHolds(u: User, op: Op, fact: Fact)
    requires GoodUser(u) && op.user == fact.user && !op.Register? && !op.Unregister?
    requires op.Connect? ==> op.peer.Address?
    ensures HoldsOf(Edited(u, op), fact) <==> Makes(op, fact) || (HoldsOf(u, fact) && !Undoes(op, fact))
  {
    var u' := Edited(u, op);
    if op.Publish? {
      assert u'.files[1..] == u.files;
    } else if op.Delete? && fact.Listed? && FindFile(u.files, op.file) < |u.files| {
      FindFileInRemove(u.files, FindFile(u.files, op.file), fact.file);
    }
  }

  lemma {:induction false} ConnectNeedsAddress(r: seq<User>, op: Op)
    requires op.Connect? && Apply(r, op).1.code == 0
    ensures op.peer.Address?
  {
  }

  lemma {:induction false} RegisterSucceeds(r: seq<User>, op: Op)
    requires op.Register? && Apply(r, op).1.code == 0
    ensures Find(r, op.user) == |r| && Apply(r, op).0 == [User(op.user, [], [], [])] + r
  {
  }

  lemma {:induction false} UnregisterSucceeds(r: seq<User>, op: Op)
    requires op.Unregister? && Apply(r, op).1.code == 0
    ensures Find(r, op.user) < |r| && Apply(r, op).0 == Remove(r, Find(r, op.user))
  {
  }

  /** A successful operation makes the facts it makes, undoes the facts it undoes, and keeps the
      rest. */
  lemma {:induction false} HoldsStep(r: seq<User>, op: Op, fact: Fact)
    requires Good(r) && Apply(r, op).1.code == 0
    ensures Holds(Apply(r, op).0, fact) <==> Makes(op, fact) || (Holds(r, fact) && !Undoes(op, fact))
  {
    hide Apply, Remove, Edited, FindFile, InetNtoa;
    var i := Find(r, fact.user);
    if op.user != fact.user {
      OthersUntouched(r, op, fact.user);
    } else if op.Register? {
      RegisterSucceeds(r, op);
    } else if op.Unregister? {
      UnregisterSucceeds(r, op);
      FindInRemove(r, i, op.user);
      RemoveLength(r, i);
    } else {
      SuccessEdits(r, op);
      EditsInPlace(r, op, op.user);
      assert r[i] in r && GoodUser(r[i]);
      if op.Connect? {
        ConnectNeedsAddress(r, op);
      }
      EditedHolds(r[i], op, fact);
    }
  }

  lemma {:induction false} RemoveLength<T>(s: seq<T>, i: nat)
    requires i < |s|
    ensures |Remove(s, i)| == |s| - 1
  {
  }

  // ----- whole runs -----

  /** After any run, a user is registered, connected at an address, or lists a file with a
      description, iff some successful operation made it so and no later one undid it. */
  lemma {:induction false} WholeRunHistory(ops: seq<Op>, fact: Fact)
    ensures Holds(Run(ops), fact) <==> Lasts(Successes(ops), fact)
  {
    if ops != [] {
      var front, op := ops[..|ops| - 1], ops[|ops| - 1];
      WholeRunHistory(front, fact);
      RunIsGood(front);
      if ReplyAt(ops, |ops| - 1).code == 0 {
        HoldsStep(Run(front), op, fact);
        LastsSnoc(Successes(front), op, fact);
      } else {
        FailureChangesNothing(Run(front), op);
        assert Successes(ops) == Successes(front);
      }
    }
  }

  /** From the m-th operation on, none that succeeds undoes the fact. */
  ghost predicate LeftAlone(ops: seq<Op>, m: nat, fact: Fact) {
    forall k | m <= k < |ops| && ReplyAt(ops, k).code == 0 :: !Undoes(ops[k], fact)
  }

  /** A fact holds until a successful operation undoes it. */
  lemma {:induction false} FactStays(ops: seq<Op>, m: nat, fact: Fact)
    requires m <= |ops| && Holds(Run(ops[..m]), fact) && LeftAlone(ops, m, fact)
    ensures Holds(Run(ops), fact)
  {
    hide Holds, Apply, Undoes, Makes, Run, ReplyAt, Good;
    if m == |ops| {
      assert ops[..m] == ops;
    } else {
      var front, op := ops[..|ops| - 1], ops[|ops| - 1];
      RunSnoc(front, op);
      assert front + [op] == ops && front[..m] == ops[..m];
      FactStays(front, m, fact);
      RunIsGood(front);
      if Apply(Run(front), op).1.code == 0 {
        HoldsStep(Run(front), op, fact);
      } else {
        FailureChangesNothing(Run(front), op);
      }
    }
  }

  // ----- replies -----

  ghost predicate EverOnline(done: seq<Op>, user: Text) {
    exists ip, port :: Lasts(done, Online(user, ip, port))
  }

  ghost predicate EverListed(done: seq<Op>, user: Text, file: Text) {
    exists description :: Lasts(done, Listed(user, file, description))
  }

  /** The code an operation gets after the given successes, told without the list. */
  ghost function CodeAfter(done: seq<Op>, op: Op): int {
    var known, online := Lasts(done, Registered(op.user)), EverOnline(done, op.user);
    match op
    case Register(_, memory) => if known then 1 else if memory then 0 else -1
    case Unregister(_) => if known then 0 else 1
    case Connect(_, _, peer) => if !known then 1 else if online then 2 else if peer.Address? then 0 else 3
    case Disconnect(_) => if !known then 1 else if online then 0 else 2
    case Publish(_, file, _, memory) =>
      if !known then 1 else if !online then 2 else if EverListed(done, op.user, file) then 3
      else if memory then 0 else 4
    case Delete(_, file) =>
      if !known then 1 else if !online then 2 else if EverListed(done, op.user, file) then 0 else 3
    case ListUsers(_) => if !known then 1 else if online then 0 else 2
    case ListContent(_, target) =>
      if !known then 1 else if !online then 2 else if Lasts(done, Registered(target)) then 0 else 3
  }

  lemma {:induction false} OnlineFromHistory(ops: seq<Op>, user: Text)
    ensures
      var i := Find(Run(ops), user);
      EverOnline(Successes(ops), user) <==> i < |Run(ops)| && Run(ops)[i].ip != []
  {
    hide Lasts, Run, Successes, Find;
    var r, i := Run(ops), Find(Run(ops), user);
    if i < |r| && r[i].ip != [] {
      WholeRunHistory(ops, Online(user, r[i].ip, r[i].port));
    }
    forall ip, port | Lasts(Successes(ops), Online(user, ip, port))
      ensures i < |r| && r[i].ip != []
    {
      WholeRunHistory(ops, Online(user, ip, port));
    }
  }

  lemma {:induction false} ListedFromHistory(ops: seq<Op>, user: Text, file: Text)
    requires Find(Run(ops), user) < |Run(ops)|
    ensures
      var fs := Run(ops)[Find(Run(ops), user)].files;
      EverListed(Successes(ops), user, file) <==> FindFile(fs, file) < |fs|
  {
    hide Lasts, Run, Successes, Find, FindFile;
    var fs := Run(ops)[Find(Run(ops), user)].files;
    var k := FindFile(fs, file);
    if k < |fs| {
      WholeRunHistory(ops, Listed(user, file, fs[k].description));
    }
    forall description | Lasts(Successes(ops), Listed(user, file, description))
      ensures k < |fs|
    {
      WholeRunHistory(ops, Listed(user, file, description));
    }
  }

  /** Every return code of a run follows from which operations succeeded before, in which order. */
  lemma {:induction false} RepliesFromHistory(ops: seq<Op>, k: nat)
    requires k < |ops|
    ensures ReplyAt(ops, k).code == CodeAfter(Successes(ops[..k]), ops[k])
  {
    hide Lasts, Run, Successes, Find, FindFile, EverOnline, EverListed, InetNtoa, Connected, Remove;
    var op, before := ops[k], ops[..k];
    WholeRunHistory(before, Registered(op.user));
    OnlineFromHistory(before, op.user);
    if op.ListContent? {
      WholeRunHistory(before, Registered(op.target));
    } else if (op.Publish? || op.Delete?) && Find(Run(before), op.user) < |Run(before)| {
      ListedFromHistory(before, op.user, op.file);
    }
  }

  // ----- order -----

  datatype Mark = OfUser(user: Text) | OfFile(user: Text, file: Text)

  predicate Marks(op: Op, mark: Mark) {
    op.user == mark.user && if mark.OfUser? then op.Register? else op.Publish? && op.file == mark.file
  }

  /** When the user last registered, or the file was last published: the latest such operation,
      counted from 1; 0 when there is none. */
  function Latest(done: seq<Op>, mark: Mark): (n: nat)
    ensures n <= |done|
    ensures n > 0 ==> Marks(done[n - 1], mark)
    ensures forall k | n <= k < |done| :: !Marks(done[k], mark)
  {
    if done == [] then 0
    else if Marks(done[|done| - 1], mark) then |done|
    else Latest(done[..|done| - 1], mark)
  }

  ghost predicate NewestFirst(done: seq<Op>, marks: seq<Mark>) {
    forall i, j | 0 <= i < j < |marks| :: Latest(done, marks[i]) > Latest(done, marks[j])
  }

  function UserMarks(r: seq<User>): (ms: seq<Mark>) {
    seq(|r|, i requires 0 <= i < |r| => OfUser(r[i].name))
  }

  function FileMarks(u: User): (ms: seq<Mark>) {
    seq(|u.files|, i requires 0 <= i < |u.files| => OfFile(u.name, u.files[i].name))
  }

  // The order survives an unrelated operation, a newer entry in front, and a removal.

  lemma {:induction false} OrderKept(done: seq<Op>, op: Op, marks: seq<Mark>)
    requires NewestFirst(done, marks) && forall m | m in marks :: !Marks(op, m)
    ensures NewestFirst(done + [op], marks)
  {
  }

  lemma {:induction false} OrderOfInsert(done: seq<Op>, op: Op, mark: Mark, marks: seq<Mark>)
    requires NewestFirst(done, marks) && mark !in marks && Marks(op, mark)
    requires forall m | m in marks && Marks(op, m) :: m == mark
    ensures NewestFirst(done + [op], [mark] + marks)
  {
  }

  lemma {:induction false} OrderOfRemove(done: seq<Op>, marks: seq<Mark>, k: nat)
    requires NewestFirst(done, marks) && k < |marks|
    ensures NewestFirst(done, Remove(marks, k))
  {
  }

  lemma {:induction false} UsersInOrderStep(done: seq<Op>, r: seq<User>, op: Op)
    requires NewestFirst(done, UserMarks(r)) && Apply(r, op).1.code == 0
    ensures NewestFirst(done + [op], UserMarks(Apply(r, op).0))
  {
    hide InetNtoa, FindFile, Connected;
    var r' := Apply(r, op).0;
    if op.Register? {
      assert UserMarks(r') == [OfUser(op.user)] + UserMarks(r);
      OrderOfInsert(done, op, OfUser(op.user), UserMarks(r));
    } else {
      OrderKept(done, op, UserMarks(r));
      if op.Unregister? {
        var p := Find(r, op.user);
        assert UserMarks(r') == Remove(UserMarks(r), p);
        OrderOfRemove(done + [op], UserMarks(r), p);
      } else {
        EditsInPlace(r, op, op.user);
        assert UserMarks(r') == UserMarks(r);
      }
    }
  }

  /** However many removals and reconnections occurred, the registry is in reverse order of each
      user's latest successful registration. */
  lemma {:induction false} UsersInOrder(ops: seq<Op>)
    ensures NewestFirst(Successes(ops), UserMarks(Run(ops)))
  {
    if ops != [] {
      var front, op := ops[..|ops| - 1], ops[|ops| - 1];
      UsersInOrder(front);
      if ReplyAt(ops, |ops| - 1).code == 0 {
        UsersInOrderStep(Successes(front), Run(front), op);
      } else {
        FailureChangesNothing(Run(front), op);
        assert Successes(ops) == Successes(front);
      }
    }
  }

  lemma {:induction false} OwnFilesInOrder(done: seq<Op>, u: User, op: Op)
    requires u.name == op.user && !op.Register? && !op.Unregister?
    requires op.Publish? ==> FindFile(u.files, op.file) == |u.files|
    requires NewestFirst(done, FileMarks(u))
    ensures NewestFirst(done + [op], FileMarks(Edited(u, op)))
  {
    hide NewestFirst, InetNtoa, Latest, Remove;
    var u' := Edited(u, op);
    if op.Publish? {
      assert FileMarks(u') == [OfFile(u.name, op.file)] + FileMarks(u);
      OrderOfInsert(done, op, OfFile(u.name, op.file), FileMarks(u));
    } else {
      OrderKept(done, op, FileMarks(u));
      if op.Delete? && FindFile(u.files, op.file) < |u.files| {
        var k := FindFile(u.files, op.file);
        MarksOfRemove(u, k);
        OrderOfRemove(done + [op], FileMarks(u), k);
      } else {
        assert FileMarks(u') == FileMarks(u);
      }
    }
  }

  lemma {:induction false} MarksOfRemove(u: User, k: nat)
    requires k < |u.files|
    ensures FileMarks(u.(files := Remove(u.files, k))) == Remove(FileMarks(u), k)
  {
  }

  lemma {:induction false} PublishIsNew(r: seq<User>, op: Op)
    requires op.Publish? && Apply(r, op).1.code == 0
    ensures
      var i := Find(r, op.user);
      i < |r| && FindFile(r[i].files, op.file) == |r[i].files|
  {
  }

  lemma {:induction false} FilesInOrderStep(done: seq<Op>, r: seq<User>, op: Op, i: nat)
    requires Good(r) && Apply(r, op).1.code == 0 && i < |Apply(r, op).0|
    requires forall u | u in r :: NewestFirst(done, FileMarks(u))
    ensures NewestFirst(done + [op], FileMarks(Apply(r, op).0[i]))
  {
    hide Apply, Edited, Latest, FindFile;
    if op.Register? {
      RegisterSucceeds(r, op);
      if i > 0 {
        assert r[i - 1] in r && Find(r, r[i - 1].name) <= i - 1;
        OrderKept(done, op, FileMarks(r[i - 1]));
      }
    } else if op.Unregister? {
      UnregisterSucceeds(r, op);
      var p := Find(r, op.user);
      var j := if i < p then i else i + 1;
      assert r[j] in r && r[j].name != op.user;
      OrderKept(done, op, FileMarks(r[j]));
    } else {
      SuccessEdits(r, op);
      var p := Find(r, op.user);
      assert r[i] in r;
      if i == p {
        if op.Publish? {
          PublishIsNew(r, op);
        }
        OwnFilesInOrder(done, r[i], op);
      } else {
        OrderKept(done, op, FileMarks(r[i]));
      }
    }
  }

  /** The files of every user are in reverse order of their latest successful publication. */
  lemma {:induction false} FilesInOrder(ops: seq<Op>)
    ensures forall u | u in Run(ops) :: NewestFirst(Successes(ops), FileMarks(u))
  {
    if ops != [] {
      var front, op := ops[..|ops| - 1], ops[|ops| - 1];
      FilesInOrder(front);
      RunIsGood(front);
      if ReplyAt(ops, |ops| - 1).code == 0 {
        forall i: nat | i < |Run(ops)|
          ensures NewestFirst(Successes(ops), FileMarks(Run(ops)[i]))
        {
          FilesInOrderStep(Successes(front), Run(front), op, i);
        }
      } else {
        FailureChangesNothing(Run(front), op);
        assert Successes(ops) == Successes(front);
      }
    }
  }

  /** The connected users are a subsequence of the registry. */
  lemma {:induction false} ConnectedPositions(r: seq<User>) returns (at: seq<nat>)
    ensures |at| == |Connected(r)|
    ensures forall i, j | 0 <= i < j < |at| :: at[i] < at[j]
    ensures forall i | 0 <= i < |at| :: ContactAt(r, at[i], Connected(r)[i])
  {
    at := [];
    if r != [] {
      var n := |r| - 1;
      at := ConnectedPositions(r[..n]);
      forall i | 0 <= i < |at|
        ensures at[i] < n && ContactAt(r, at[i], Connected(r[..n])[i])
      {
        assert ContactAt(r[..n], at[i], Connected(r[..n])[i]);
      }
      if r[n].ip != [] {
        at := at + [n];
      }
    }
  }

  predicate ContactAt(r: seq<User>, k: nat, c: Contact) {
    k < |r| && r[k].ip != [] && c == Contact(r[k].name, r[k].ip, r[k].port)
  }

  /** LIST_USERS reports the connected users in reverse order of their latest registration. */
  lemma {:induction false} ContactsNewestFirst(ops: seq<Op>, i: nat, j: nat)
    requires i < j < |Connected(Run(ops))|
    ensures
      var cs, done := Connected(Run(ops)), Successes(ops);
      Latest(done, OfUser(cs[i].name)) > Latest(done, OfUser(cs[j].name))
  {
    var r := Run(ops);
    UsersInOrder(ops);
    var at := ConnectedPositions(r);
    assert ContactAt(r, at[i], Connected(r)[i]) && ContactAt(r, at[j], Connected(r)[j]);
    assert UserMarks(r)[at[i]] == OfUser(Connected(r)[i].name);
    assert UserMarks(r)[at[j]] == OfUser(Connected(r)[j].name);
  }
}

/** Many handler threads inside server/list.c at once. Each call takes the mutex, may have to leave it
    to initialise the list, takes it again, and then walks and edits the list one small step at a
    time. Any call may take the next step. */
module Locking {
  import opened Strings
  import opened Registry

  // ----- one operation, step by step, with the mutex held -----

  /** Where the body of an operation stands, with its local variables. Cursors are positions in the
      list; `previous` is always one behind. */
  datatype Frame =
    | Scan(i: nat)                                 // looking for the user
    | Alloc                                        // malloc of a new user
    | Link(node: User)                             // new node becomes the head
    | SpliceUser(i: nat)                           // previous->next, or the head, skips the node
    | FreeFiles(left: nat)                         // freeing the spliced user's files
    | FreeNode
    | TestIp(i: nat)
    | SetIp(i: nat) | SetPort(i: nat)
    | ClearIp(i: nat) | ClearPort(i: nat)
    | ScanFiles(i: nat, k: nat)                    // looking for the file
    | AllocFile(i: nat) | LinkFile(i: nat)
    | SpliceFile(i: nat, k: nat) | FreeFile
    | Collect(j: nat, contacts: seq<Contact>)      // filling the users' response
    | ScanTarget(j: nat)                           // looking for the user to list
    | Copy(t: nat, k: nat, files: seq<File>)       // filling the files' response

  datatype Progress = Going(frame: Frame) | Finished(reply: Reply)

  /** One step of the body on the list r. */
  function BodyStep(r: seq<User>, op: Op, fr: Frame): (seq<User>, Progress) {
    match fr
    case Scan(i) =>
      if i >= |r| then (r, if op.Register? then Going(Alloc) else Finished(Code(1)))
      else if r[i].name != op.user then (r, Going(Scan(i + 1)))
      else if op.Register? then (r, Finished(Code(1)))
      else if op.Unregister? then (r, Going(SpliceUser(i)))
      else (r, Going(TestIp(i)))
    case Alloc =>
      (r, if op.Register? && op.memory then Going(Link(User(op.user, [], [], []))) else Finished(Code(-1)))
    case Link(node) => ([node] + r, Finished(Code(0)))
    case SpliceUser(i) =>
      if i < |r| then (Remove(r, i), Going(FreeFiles(|r[i].files|))) else (r, Finished(Code(1)))
    case FreeFiles(left) => (r, Going(if left > 0 then FreeFiles(left - 1) else FreeNode))
    case FreeNode => (r, Finished(Code(0)))
    case TestIp(i) =>
      if i >= |r| then (r, Finished(Code(1)))
      else if op.Connect? then
        (r, if r[i].ip != [] then Finished(Code(2)) else if op.peer.NoPeer? then Finished(Code(3)) else Going(SetIp(i)))
      else if r[i].ip == [] then (r, Finished(Code(2)))
      else (r, Going(match op
                     case Disconnect(_) => ClearIp(i)
                     case ListUsers(_) => Collect(0, [])
                     case ListContent(_, _) => ScanTarget(0)
                     case _ => ScanFiles(i, 0)))
    case SetIp(i) =>
      if i < |r| && op.Connect? && op.peer.Address? then
        (r[i := r[i].(ip := InetNtoa(op.peer.a, op.peer.b, op.peer.c, op.peer.d))], Going(SetPort(i)))
      else (r, Finished(Code(3)))
    case SetPort(i) =>
      (if i < |r| && op.Connect? then r[i := r[i].(port := op.port)] else r, Finished(Code(0)))
    case ClearIp(i) => (if i < |r| then r[i := r[i].(ip := [])] else r, Going(ClearPort(i)))
    case ClearPort(i) => (if i < |r| then r[i := r[i].(port := [])] else r, Finished(Code(0)))
    case ScanFiles(i, k) =>
      if i >= |r| || !(op.Publish? || op.Delete?) then (r, Finished(Code(1)))
      else if k >= |r[i].files| then (r, if op.Publish? then Going(AllocFile(i)) else Finished(Code(3)))
      else if r[i].files[k].name != op.file then (r, Going(ScanFiles(i, k + 1)))
      else (r, if op.Publish? then Finished(Code(3)) else Going(SpliceFile(i, k)))
    case AllocFile(i) => (r, if op.Publish? && op.memory then Going(LinkFile(i)) else Finished(Code(4)))
    case LinkFile(i) =>
      (if i < |r| && op.Publish? then r[i := r[i].(files := [File(op.file, op.description)] + r[i].files)] else r,
       Finished(Code(0)))
    case SpliceFile(i, k) =>
      (if i < |r| && k < |r[i].files| then r[i := r[i].(files := Remove(r[i].files, k))] else r, Going(FreeFile))
    case FreeFile => (r, Finished(Code(0)))
    case Collect(j, cs) =>
      if j >= |r| then (r, Finished(Reply(0, cs, [])))
      else (r, Going(Collect(j + 1, cs + if r[j].ip != [] then [Contact(r[j].name, r[j].ip, r[j].port)] else [])))
    case ScanTarget(j) =>
      if j >= |r| || !op.ListContent? then (r, Finished(Code(3)))
      else (r, Going(if r[j].name == op.target then Copy(j, 0, []) else ScanTarget(j + 1)))
    case Copy(t, k, fs) =>
      (r, if t < |r| && k < |r[t].files| then Going(Copy(t, k + 1, fs + [r[t].files[k]]))
          else Finished(Reply(0, [], fs)))
  }

  function Phase(fr: Frame): nat {
    match fr
    case Scan(_) => 9
    case TestIp(_) => 8
    case ScanFiles(_, _) => 7
    case ScanTarget(_) => 7
    case Alloc => 6
    case AllocFile(_) => 6
    case SpliceUser(_) => 6
    case SpliceFile(_, _) => 6
    case Link(_) => 5
    case LinkFile(_) => 5
    case SetIp(_) => 5
    case ClearIp(_) => 5
    case Collect(_, _) => 5
    case Copy(_, _, _) => 5
    case FreeFiles(_) => 5
    case _ => 1
  }

  function Left(r: seq<User>, fr: Frame): int {
    match fr
    case Scan(i) => |r| - i
    case ScanFiles(i, k) => if i < |r| then |r[i].files| - k else 0
    case FreeFiles(left) => left
    case Collect(j, _) => |r| - j
    case ScanTarget(j) => |r| - j
    case Copy(t, k, _) => if t < |r| then |r[t].files| - k else 0
    case _ => 0
  }

  /** The list and reply with which the body will finish if nobody else touches the list. */
  function Completion(r: seq<User>, op: Op, fr: Frame): (seq<User>, Reply)
    decreases Phase(fr), Left(r, fr)
  {
    var (r', p) := BodyStep(r, op, fr);
    if p.Finished? then (r', p.reply) else Completion(r', op, p.frame)
  }

  lemma {:induction false} ScanFinds(r: seq<User>, op: Op, i: nat)
    requires i <= Find(r, op.user)
    ensures Completion(r, op, Scan(i)) == Completion(r, op, Scan(Find(r, op.user)))
    decreases |r| - i
  {
    if i < Find(r, op.user) {
      ScanFinds(r, op, i + 1);
    }
  }

  lemma {:induction false} ScanFindsFile(r: seq<User>, op: Op, i: nat, k: nat)
    requires i < |r| && (op.Publish? || op.Delete?) && k <= FindFile(r[i].files, op.file)
    ensures Completion(r, op, ScanFiles(i, k)) == Completion(r, op, ScanFiles(i, FindFile(r[i].files, op.file)))
    decreases |r[i].files| - k
  {
    if k < FindFile(r[i].files, op.file) {
      ScanFindsFile(r, op, i, k + 1);
    }
  }

  lemma {:induction false} ScanFindsTarget(r: seq<User>, op: Op, j: nat)
    requires op.ListContent? && j <= Find(r, op.target)
    ensures Completion(r, op, ScanTarget(j)) == Completion(r, op, ScanTarget(Find(r, op.target)))
    decreases |r| - j
  {
    if j < Find(r, op.target) {
      ScanFindsTarget(r, op, j + 1);
    }
  }

  lemma {:induction false} FreesAll(r: seq<User>, op: Op, left: nat)
    ensures Completion(r, op, FreeFiles(left)) == (r, Code(0))
  {
    if left > 0 {
      FreesAll(r, op, left - 1);
    } else {
      assert Completion(r, op, FreeNode) == (r, Code(0));
    }
  }

  lemma {:induction false} CollectsConnected(r: seq<User>, op: Op, j: nat)
    requires j <= |r|
    ensures Completion(r, op, Collect(j, Connected(r[..j]))) == (r, Reply(0, Connected(r), []))
    decreases |r| - j
  {
    if j == |r| {
      assert r[..j] == r;
    } else {
      assert r[..j + 1][..j] == r[..j];
      CollectsConnected(r, op, j + 1);
    }
  }

  lemma {:induction false} CopiesFiles(r: seq<User>, op: Op, t: nat, k: nat)
    requires t < |r| && k <= |r[t].files|
    ensures Completion(r, op, Copy(t, k, r[t].files[..k])) == (r, Reply(0, [], r[t].files))
    decreases |r[t].files| - k
  {
    if k == |r[t].files| {
      assert r[t].files[..k] == r[t].files;
    } else {
      assert r[t].files[..k + 1] == r[t].files[..k] + [r[t].files[k]];
      CopiesFiles(r, op, t, k + 1);
    }
  }

  lemma {:induction false} StepOn(r: seq<User>, op: Op, fr: Frame)
    ensures
      var (r', p) := BodyStep(r, op, fr);
      Completion(r, op, fr) == if p.Finished? then (r', p.reply) else Completion(r', op, p.frame)
  {
  }

  lemma {:induction false} SessionSteps(r: seq<User>, op: Op, i: nat)
    requires (op.Connect? || op.Disconnect?) && i == Find(r, op.user) < |r|
    ensures Completion(r, op, TestIp(i)) == Apply(r, op)
  {
    hide Completion, InetNtoa, IsDottedQuad;
    StepOn(r, op, TestIp(i));
    if op.Connect? && r[i].ip == [] && op.peer.Address? {
      var r1 := r[i := r[i].(ip := InetNtoa(op.peer.a, op.peer.b, op.peer.c, op.peer.d))];
      StepOn(r, op, SetIp(i));
      StepOn(r1, op, SetPort(i));
      assert r1[i := r1[i].(port := op.port)] == r[i := r1[i].(port := op.port)];
    } else if op.Disconnect? && r[i].ip != [] {
      var r1 := r[i := r[i].(ip := [])];
      StepOn(r, op, ClearIp(i));
      StepOn(r1, op, ClearPort(i));
      assert r1[i := r1[i].(port := [])] == r[i := r[i].(ip := [], port := [])];
    }
  }

  lemma {:induction false} PublishSteps(r: seq<User>, op: Op, i: nat)
    requires op.Publish? && i == Find(r, op.user) < |r|
    ensures Completion(r, op, TestIp(i)) == Apply(r, op)
  {
    hide Completion, Find, FindFile;
    StepOn(r, op, TestIp(i));
    var k := FindFile(r[i].files, op.file);
    ScanFindsFile(r, op, i, 0);
    StepOn(r, op, ScanFiles(i, k));
    StepOn(r, op, AllocFile(i));
    StepOn(r, op, LinkFile(i));
  }

  lemma {:induction false} DeleteSteps(r: seq<User>, op: Op, i: nat)
    requires op.Delete? && i == Find(r, op.user) < |r|
    ensures Completion(r, op, TestIp(i)) == Apply(r, op)
  {
    hide Completion, Find, FindFile, Remove;
    StepOn(r, op, TestIp(i));
    var k := FindFile(r[i].files, op.file);
    ScanFindsFile(r, op, i, 0);
    StepOn(r, op, ScanFiles(i, k));
    if k < |r[i].files| {
      StepOn(r, op, SpliceFile(i, k));
      StepOn(r[i := r[i].(files := Remove(r[i].files, k))], op, FreeFile);
    }
  }

  lemma {:induction false} ListingSteps(r: seq<User>, op: Op, i: nat)
    requires !op.Mutates() && i == Find(r, op.user) < |r|
    ensures Completion(r, op, TestIp(i)) == Apply(r, op)
  {
    hide Completion;
    StepOn(r, op, TestIp(i));
    if r[i].ip != [] {
      if op.ListUsers? {
        assert r[..0] == [];
        CollectsConnected(r, op, 0);
      } else {
        var t := Find(r, op.target);
        ScanFindsTarget(r, op, 0);
        StepOn(r, op, ScanTarget(t));
        if t < |r| {
          assert r[t].files[..0] == [];
          CopiesFiles(r, op, t, 0);
        }
      }
    }
  }

  /** Left alone, the steps of an operation add up to the operation. */
  lemma {:induction false} StepsAddUp(r: seq<User>, op: Op)
    ensures Completion(r, op, Scan(0)) == Apply(r, op)
  {
    hide Completion;
    var i := Find(r, op.user);
    ScanFinds(r, op, 0);
    StepOn(r, op, Scan(i));
    if op.Register? {
      if i == |r| {
        StepOn(r, op, Alloc);
        StepOn(r, op, Link(User(op.user, [], [], [])));
      }
    } else if i < |r| {
      if op.Unregister? {
        StepOn(r, op, SpliceUser(i));
        FreesAll(Remove(r, i), op, |r[i].files|);
      } else if op.Connect? || op.Disconnect? {
        SessionSteps(r, op, i);
      } else if op.Publish? {
        PublishSteps(r, op, i);
      } else if op.Delete? {
        DeleteSteps(r, op, i);
      } else {
        ListingSteps(r, op, i);
      }
    }
  }
}

/** server/list.c as it stands in memory: users in a singly linked list, each with a singly linked
    list of files, edited in place and freed by hand. */
module LinkedList {
  import opened Strings
  import opened Registry

  class FileNode {
    var filename: Field
    var description: Field
    var next: FileNode?
    ghost var owner: Node?

    /** `malloc`: the fields hold whatever was in memory, and the list has one more record to free. */
    constructor Malloc(list: UserList)
      modifies list`liveFiles
      ensures list.liveFiles == old(list.liveFiles) + {this}
    {
      new;
      list.liveFiles := list.liveFiles + {this};
    }
  }

  class Node {
    var username: Field
    var ip: Field
    var port: Field
    var listFiles: FileNode?
    var next: Node?
    ghost var chain: seq<FileNode>

    constructor Malloc(list: UserList)
      modifies list`liveUsers
      ensures list.liveUsers == old(list.liveUsers) + {this}
    {
      new;
      list.liveUsers := list.liveUsers + {this};
    }
  }

  // ----- abstraction -----

  function NodeAt(spine: seq<Node>, i: nat): Node? {
    if i < |spine| then spine[i] else null
  }

  function FileAt(chain: seq<FileNode>, i: nat): FileNode? {
    if i < |chain| then chain[i] else null
  }

  function Records(chain: seq<FileNode>): set<FileNode> {
    set f | f in chain
  }

  /** The file list hanging from `head` is `chain`: linked in order, without repetition, ending in
      NULL. */
  ghost predicate ChainFrom(head: FileNode?, chain: seq<FileNode>)
    reads chain`next
  {
    && head == FileAt(chain, 0)
    && (forall k {:trigger chain[k].next} | 0 <= k < |chain| :: chain[k].next == FileAt(chain, k + 1))
    && (forall j, k | 0 <= j < k < |chain| :: chain[j] != chain[k])
  }

  ghost predicate OwnsFiles(n: Node, files: set<FileNode>)
    reads n`chain, files
  {
    forall k | 0 <= k < |n.chain| :: n.chain[k] in files && n.chain[k].owner == n
  }

  ghost predicate HoldsFile(f: FileNode, file: File)
    reads f`filename, f`description
  {
    && Terminated(f.filename) && Terminated(f.description)
    && file == File(CStr(f.filename), CStr(f.description))
  }

  /** The record's own strings. */
  ghost predicate HoldsNames(n: Node, u: User)
    reads n`username, n`ip, n`port
  {
    && Terminated(n.username) && Terminated(n.ip) && Terminated(n.port)
    && u.name == CStr(n.username) && u.ip == CStr(n.ip) && u.port == CStr(n.port)
  }

  /** The record and its file list hold the given user, every string terminated. */
  ghost predicate HoldsUser(n: Node, u: User)
    reads n`username, n`ip, n`port, n`listFiles, n`chain, n.chain
  {
    && HoldsNames(n, u)
    && ChainFrom(n.listFiles, n.chain)
    && |u.files| == |n.chain|
    && (forall k | 0 <= k < |n.chain| :: HoldsFile(n.chain[k], u.files[k]))
  }

  lemma {:induction false} RemoveAt<T>(s: seq<T>, i: nat)
    requires i < |s|
    ensures |Remove(s, i)| == |s| - 1
    ensures forall j | 0 <= j < |s| - 1 :: Remove(s, i)[j] == s[if j < i then j else j + 1]
    ensures forall j | 0 <= j < |s| && j != i :: s[j] == Remove(s, i)[if j < i then j else j - 1]
  {
  }

  lemma {:induction false} NodeAtRemove(s: seq<Node>, i: nat)
    requires i < |s|
    ensures forall j: nat :: NodeAt(Remove(s, i), j) == NodeAt(s, if j < i then j else j + 1)
  {
  }

  lemma {:induction false} RegisterEffect(r: seq<User>, u: Text, memory: bool)
    requires Good(r)
    ensures
      var op := Register(u, memory);
      && (Find(r, u) < |r| ==> Apply(r, op) == (r, Code(1)))
      && (Find(r, u) == |r| && !memory ==> Apply(r, op) == (r, Code(-1)))
      && (Find(r, u) == |r| && memory ==>
            Apply(r, op) == ([User(u, [], [], [])] + r, Code(0)) && Good([User(u, [], [], [])] + r))
  {
  }

  lemma {:induction false} PublishEffect(r: seq<User>, u: Text, f: Text, d: Text, memory: bool)
    requires Good(r)
    ensures
      var op, i := Publish(u, f, d, memory), Find(r, u);
      if i == |r| then Apply(r, op) == (r, Code(1))
      else if r[i].ip == [] then Apply(r, op) == (r, Code(2))
      else if FindFile(r[i].files, f) < |r[i].files| then Apply(r, op) == (r, Code(3))
      else if !memory then Apply(r, op) == (r, Code(4))
      else
        var r' := r[i := r[i].(files := [File(f, d)] + r[i].files)];
        Apply(r, op) == (r', Code(0)) && Good(r')
  {
    hide Good;
    ApplyKeepsGood(r, Publish(u, f, d, memory));
  }

  // ----- edits of one record -----

  method SetAddress(n: Node, ip: CText, port: CText, ghost u: User)
    requires HoldsUser(n, u)
    modifies n`ip, n`port
    ensures HoldsUser(n, u.(ip := ip, port := port))
  {
    hide CStr, StrNCpy, ChainFrom, HoldsFile;
    StrNCpyLossless(ip); StrNCpyLossless(port);
    n.ip := StrNCpy(ip);
    n.port := StrNCpy(port);
  }

  method ClearAddress(n: Node, ghost u: User)
    requires HoldsUser(n, u)
    modifies n`ip, n`port
    ensures HoldsUser(n, u.(ip := [], port := []))
  {
    hide CStr, ChainFrom, HoldsFile;
    ClearedField(n.ip); ClearedField(n.port);
    n.ip := n.ip[0 := NUL];
    n.port := n.port[0 := NUL];
  }

  method PushFile(n: Node, f: FileNode, ghost u: User, ghost file: File)
    requires HoldsUser(n, u) && HoldsFile(f, file)
    requires f.next == n.listFiles && f !in n.chain
    modifies n`listFiles, n`chain
    ensures HoldsUser(n, u.(files := [file] + u.files))
    ensures n.chain == [f] + old(n.chain) && n.listFiles == f
  {
    hide HoldsFile;
    n.listFiles := f;
    n.chain := [f] + n.chain;
  }

  /** The walk over one user's files. */
  method FindFileNode(n: Node, file: CText, ghost u: User)
      returns (fileCurrent: FileNode?, filePrevious: FileNode?, ghost k: nat)
    requires HoldsUser(n, u)
    ensures k == FindFile(u.files, file)
    ensures fileCurrent == FileAt(n.chain, FindFile(u.files, file))
    ensures if k == 0 then filePrevious == null else filePrevious == n.chain[k - 1]
  {
    hide CStr, FindFile;
    fileCurrent, filePrevious, k := n.listFiles, null, 0;
    while fileCurrent != null
      invariant k <= |n.chain| && fileCurrent == FileAt(n.chain, k)
      invariant if k == 0 then filePrevious == null else filePrevious == n.chain[k - 1]
      invariant forall j | 0 <= j < k :: u.files[j].name != file
      decreases |n.chain| - k
    {
      assert HoldsFile(n.chain[k], u.files[k]);
      if CStr(fileCurrent.filename) == file {
        return;
      }
      filePrevious := fileCurrent;
      fileCurrent, k := fileCurrent.next, k + 1;
    }
  }

  method SpliceFile(n: Node, filePrevious: FileNode?, fileCurrent: FileNode, ghost k: nat, ghost u: User)
    requires HoldsUser(n, u) && k < |n.chain| && fileCurrent == n.chain[k]
    requires if k == 0 then filePrevious == null else filePrevious == n.chain[k - 1]
    modifies n`listFiles, n`chain, n.chain`next
    ensures HoldsUser(n, u.(files := Remove(u.files, k)))
    ensures n.chain == Remove(old(n.chain), k)
    ensures forall j | 0 <= j < |n.chain| :: n.chain[j] != fileCurrent
  {
    hide HoldsUser, Remove, HoldsFile, ChainFrom;
    HeldChain(n, u);
    RemoveAt(n.chain, k); RemoveAt(u.files, k);
    UnlinkFile(n, filePrevious, fileCurrent, k);
    HeldAfter(n, u, u.(files := Remove(u.files, k)));
  }

  /** One link, or the head, skips the record. */
  method UnlinkFile(n: Node, filePrevious: FileNode?, fileCurrent: FileNode, ghost k: nat)
    requires ChainFrom(n.listFiles, n.chain) && k < |n.chain| && fileCurrent == n.chain[k]
    requires if k == 0 then filePrevious == null else filePrevious == n.chain[k - 1]
    modifies n`listFiles, n`chain, n.chain`next
    ensures ChainFrom(n.listFiles, n.chain) && n.chain == Remove(old(n.chain), k)
    ensures forall j | 0 <= j < |n.chain| :: n.chain[j] != fileCurrent
  {
    hide Remove, FileAt;
    ghost var was := n.chain;
    FileAtRemove(was, k); RemoveAt(was, k);
    if filePrevious != null {
      filePrevious.next := fileCurrent.next;
    } else {
      n.listFiles := fileCurrent.next;
    }
    n.chain := Remove(n.chain, k);
    forall j | 0 <= j < |n.chain|
      ensures n.chain[j].next == FileAt(n.chain, j + 1)
    {
      assert n.chain[j] == was[if j < k then j else j + 1];
    }
  }

  lemma {:induction false} HeldChain(n: Node, u: User)
    requires HoldsUser(n, u)
    ensures |u.files| == |n.chain| && ChainFrom(n.listFiles, n.chain) && HoldsNames(n, u)
    ensures forall j | 0 <= j < |n.chain| :: HoldsFile(n.chain[j], u.files[j])
  {
  }

  lemma {:induction false} HeldAfter(n: Node, u: User, u': User)
    requires HoldsNames(n, u) && u' == u.(files := u'.files) && ChainFrom(n.listFiles, n.chain)
    requires |u'.files| == |n.chain| && forall j | 0 <= j < |n.chain| :: HoldsFile(n.chain[j], u'.files[j])
    ensures HoldsUser(n, u')
  {
  }

  lemma {:induction false} FileAtRemove(s: seq<FileNode>, i: nat)
    requires i < |s|
    ensures forall j: nat :: FileAt(Remove(s, i), j) == FileAt(s, if j < i then j else j + 1)
  {
  }

  /** The globals of list.c. The ghost fields record the list structure, the registry it stands
      for, and which records are allocated and not yet freed. */
  class UserList {
    var messages: Node?
    var initedList: bool
    ghost var spine: seq<Node>
    ghost var contents: seq<User>
    ghost var liveUsers: set<Node>
    ghost var liveFiles: set<FileNode>

    /** The users hang from `messages` in the order of `spine`, without repetition, ending in NULL. */
    ghost predicate Chained()
      reads `messages, `spine, spine`next
    {
      && messages == NodeAt(spine, 0)
      && (forall i, j | 0 <= i < j < |spine| :: spine[i] != spine[j])
      && (forall i {:trigger spine[i].next} | 0 <= i < |spine| :: spine[i].next == NodeAt(spine, i + 1))
    }

    /** The list holds `contents`. Every record on the way is in `users` or `files`, and a file hangs
        from its owner only. */
    ghost predicate Linked(users: set<Node>, files: set<FileNode>)
      reads `messages, `initedList, `spine, `contents, users, files
    {
      && (forall i | 0 <= i < |spine| :: spine[i] in users)
      && Chained()
      && |contents| == |spine|
      && (forall i | 0 <= i < |spine| :: OwnsFiles(spine[i], files))
      && (forall i | 0 <= i < |spine| :: HoldsUser(spine[i], contents[i]))
      && (!initedList ==> spine == [])
    }

    /** Conversely, every one of the given records is still reachable. */
    ghost predicate Reachable(users: set<Node>, files: set<FileNode>)
      reads `spine, users`chain, files`owner
    {
      && (forall n | n in users :: n in spine)
      && (forall f | f in files :: f.owner != null && f.owner in users && f in f.owner.chain)
    }

    /** A record is live exactly when it is reachable, names are distinct and only connected users
        have a port. */
    ghost predicate Valid()
      reads this, liveUsers, liveFiles
    {
      Linked(liveUsers, liveFiles) && Reachable(liveUsers, liveFiles) && Good(contents)
    }

    /** The records of the i-th user's files, in order. */
    ghost function ChainOf(i: nat): seq<FileNode>
      reads `spine, spine`chain
    {
      if i < |spine| then spine[i].chain else []
    }

    /** Conservation: the records allocated and not freed are exactly the users in the list and the
        files hanging from them, and no file hangs twice. */
    lemma {:induction false} LiveIsReachable()
      requires Valid()
      ensures liveUsers == set i | 0 <= i < |spine| :: spine[i]
      ensures liveFiles == set i, k | 0 <= i < |spine| && 0 <= k < |spine[i].chain| :: spine[i].chain[k]
      ensures forall i, j, k, l |
        0 <= i < |spine| && 0 <= j < |spine| && 0 <= k < |spine[i].chain| && 0 <= l < |spine[j].chain| ::
        spine[i].chain[k] == spine[j].chain[l] ==> i == j && k == l
    {
    }

    constructor ()
      ensures Valid() && contents == []
      ensures liveUsers == {} && liveFiles == {}
    {
      messages := null;
      initedList := false;
      spine, contents, liveUsers, liveFiles := [], [], {}, {};
    }

    method InitList()
      requires Valid()
      modifies this
      ensures Valid() && initedList
      ensures contents == old(contents)
      ensures spine == old(spine) && liveUsers == old(liveUsers) && liveFiles == old(liveFiles)
    {
      if initedList {
        return;
      }
      messages := null;
      initedList := true;
    }

    /** `free`: gives back a live record, which may then hold anything. */
    method FreeUser(n: Node)
      requires n in liveUsers
      modifies this`liveUsers, n
      ensures liveUsers == old(liveUsers) - {n}
    {
      n.username, n.ip, n.port, n.listFiles, n.next := *, *, *, *, *;
      liveUsers := liveUsers - {n};
    }

    method FreeFile(f: FileNode)
      requires f in liveFiles
      modifies this`liveFiles, f
      ensures liveFiles == old(liveFiles) - {f}
    {
      f.filename, f.description, f.next := *, *, *;
      liveFiles := liveFiles - {f};
    }

    /** The walk every operation starts with. */
    method FindUser(username: CText) returns (current: Node?, ghost i: nat)
      requires Valid()
      ensures i == Find(contents, username) && |spine| == |contents|
      ensures current == NodeAt(spine, Find(contents, username))
    {
      hide CStr, Find, ChainFrom, HoldsFile, Good;
      current, i := messages, 0;
      while current != null
        invariant i <= |spine| && current == NodeAt(spine, i)
        invariant forall j | 0 <= j < i :: contents[j].name != username
        decreases |spine| - i
      {
        if CStr(current.username) == username {
          assert contents[i].name == username;
          return;
        }
        current, i := current.next, i + 1;
      }
    }

    /** A live record for a user who is not connected, pointing at the current head. */
    method NewUser(username: CText) returns (newNode: Node)
      modifies `liveUsers
      ensures fresh(newNode) && liveUsers == old(liveUsers) + {newNode}
      ensures newNode.next == messages && newNode.chain == []
      ensures HoldsUser(newNode, User(username, [], [], []))
    {
      hide CStr, StrNCpy;
      newNode := new Node.Malloc(this);
      newNode.username := StrNCpy(username);
      ClearedField(newNode.ip); ClearedField(newNode.port); StrNCpyLossless(username);
      newNode.ip := newNode.ip[0 := NUL];
      newNode.port := newNode.port[0 := NUL];
      newNode.listFiles := null;
      newNode.chain := [];
      newNode.next := messages;
    }

    /** Makes the one live record that is not reachable the new head. */
    method LinkUser(newNode: Node, ghost u: User)
      requires newNode in liveUsers && initedList
      requires Linked(liveUsers - {newNode}, liveFiles) && Reachable(liveUsers - {newNode}, liveFiles)
      requires newNode.next == messages && newNode.chain == [] && HoldsUser(newNode, u)
      requires Good([u] + contents)
      modifies `messages, `spine, `contents
      ensures Valid() && messages == newNode
      ensures spine == [newNode] + old(spine) && contents == [u] + old(contents)
    {
      hide HoldsUser, Good;
      messages := newNode;
      spine := [newNode] + spine;
      contents := [u] + contents;
    }

    /** On success exactly one record more is live, the new head; otherwise none is. */
    method RegisterUser(username: CText, memory: bool) returns (code: int)
      requires Valid()
      modifies this
      ensures Valid() && liveFiles == old(liveFiles)
      ensures (contents, Code(code)) == Apply(old(contents), Register(username, memory))
      ensures code != 0 ==> spine == old(spine) && liveUsers == old(liveUsers)
      ensures code == 0 ==>
        && messages != null && fresh(messages)
        && spine == [messages] + old(spine) && liveUsers == old(liveUsers) + {messages}
    {
      hide CStr, Find, Apply, HoldsUser, Good, Linked, Reachable;
      RegisterEffect(contents, username, memory);
      if !initedList {
        InitList();
      }
      var current, i := FindUser(username);
      if current != null {
        return 1;
      }
      if !memory {
        return -1;
      }
      ghost var live := liveUsers;
      var newNode := NewUser(username);
      assert liveUsers - {newNode} == live;
      LinkUser(newNode, User(username, [], [], []));
      return 0;
    }

    /** Frees a whole file list, each record once. */
    method FreeFiles(head: FileNode?, ghost chain: seq<FileNode>)
      requires ChainFrom(head, chain)
      requires forall k | 0 <= k < |chain| :: chain[k] in liveFiles
      modifies this`liveFiles, chain
      ensures liveFiles == old(liveFiles) - Records(chain)
    {
      var fileCurrent := head;
      ghost var k := 0;
      while fileCurrent != null
        invariant k <= |chain| && fileCurrent == FileAt(chain, k)
        invariant forall j | k <= j < |chain| :: chain[j] in liveFiles && chain[j].next == old(chain[j].next)
        invariant liveFiles == old(liveFiles) - Records(chain[..k])
        decreases |chain| - k
      {
        var fileNext := fileCurrent.next;
        FreeFile(fileCurrent);
        assert chain[..k + 1] == chain[..k] + [chain[k]];
        fileCurrent, k := fileNext, k + 1;
      }
      assert chain[..k] == chain;
    }

    /** Takes the i-th user out of the list; the record and its files are still to be freed. */
    method SpliceUser(previous: Node?, current: Node, ghost i: nat)
      requires Chained() && i < |spine| && current == spine[i]
      requires if i == 0 then previous == null else previous == spine[i - 1]
      modifies `messages, `spine, spine`next
      ensures Chained() && spine == Remove(old(spine), i)
      ensures forall j | 0 <= j < |spine| :: spine[j] != current
    {
      hide Remove, NodeAt;
      ghost var was := spine;
      NodeAtRemove(was, i); RemoveAt(was, i);
      if previous != null {
        previous.next := current.next;
      } else {
        messages := current.next;
      }
      spine := Remove(spine, i);
      forall j | 0 <= j < |spine|
        ensures spine[j].next == NodeAt(spine, j + 1)
      {
        assert spine[j] == was[if j < i then j else j + 1];
      }
    }

    /** The other users own none of the i-th user's files. */
    lemma {:induction false} OthersFiles(i: nat)
      requires Linked(liveUsers, liveFiles) && i < |spine|
      ensures forall j | 0 <= j < |spine| && j != i ::
        OwnsFiles(spine[j], liveFiles - Records(spine[i].chain))
    {
    }

    lemma {:induction false} LinkedAt(users: set<Node>, files: set<FileNode>, i: nat)
      requires Linked(users, files) && i < |spine|
      ensures spine[i] in users && HoldsUser(spine[i], contents[i])
      ensures forall j | 0 <= j < |spine| && j != i :: spine[j] != spine[i]
      ensures ChainFrom(spine[i].listFiles, spine[i].chain)
      ensures forall k | 0 <= k < |spine[i].chain| ::
        spine[i].chain[k] in files && spine[i].chain[k].owner == spine[i]
    {
    }

    lemma {:induction false} ReachableWithout(i: nat)
      requires Linked(liveUsers, liveFiles) && Reachable(liveUsers, liveFiles) && i < |spine|
      ensures forall n | n in liveUsers && n != spine[i] :: n in Remove(spine, i)
      ensures forall f | f in liveFiles && f !in spine[i].chain ::
        f.owner != null && f.owner in liveUsers && f.owner != spine[i] && f in f.owner.chain
    {
    }

    /** The list and its contents lose the i-th user, whose record and files are still to be freed. */
    method DetachUser(previous: Node?, current: Node, ghost i: nat)
      requires Linked(liveUsers, liveFiles) && Reachable(liveUsers, liveFiles) && i < |spine| && current == spine[i]
      requires if i == 0 then previous == null else previous == spine[i - 1]
      modifies `messages, `spine, `contents, liveUsers`next
      ensures Linked(liveUsers - {current}, liveFiles - Records(current.chain))
      ensures Reachable(liveUsers - {current}, liveFiles - Records(current.chain))
      ensures contents == Remove(old(contents), i) && spine == Remove(old(spine), i)
    {
      hide HoldsUser, OwnsFiles, Good, Remove, Chained;
      OthersFiles(i);
      ReachableWithout(i);
      RemoveAt(spine, i); RemoveAt(contents, i);
      SpliceUser(previous, current, i);
      contents := Remove(contents, i);
    }

    /** Frees the files of a user taken out of the list, then the record itself. */
    method FreeDetached(current: Node)
      requires Linked(liveUsers - {current}, liveFiles - Records(current.chain))
      requires Reachable(liveUsers - {current}, liveFiles - Records(current.chain))
      requires Good(contents) && current in liveUsers && ChainFrom(current.listFiles, current.chain)
      requires forall k | 0 <= k < |current.chain| :: current.chain[k] in liveFiles
      modifies `liveUsers, `liveFiles, current, current.chain
      ensures Valid()
      ensures liveUsers == old(liveUsers) - {current}
      ensures liveFiles == old(liveFiles) - old(Records(current.chain))
    {
      hide Good, ChainFrom, Linked, Reachable;
      FreeFiles(current.listFiles, current.chain);
      FreeUser(current);
    }

    /** Takes the i-th user out of the list and frees it. */
    method DropUser(previous: Node?, current: Node, ghost i: nat)
      requires Valid() && i < |spine| && current == spine[i]
      requires if i == 0 then previous == null else previous == spine[i - 1]
      requires Good(Remove(contents, i))
      modifies this, liveUsers`next, current, current.chain
      ensures Valid() && contents == Remove(old(contents), i) && spine == Remove(old(spine), i)
      ensures liveUsers == old(liveUsers) - {current}
      ensures liveFiles == old(liveFiles) - old(Records(current.chain))
    {
      hide HoldsUser, Good, Remove, ChainFrom, Linked, Reachable;
      LinkedAt(liveUsers, liveFiles, i);
      DetachUser(previous, current, i);
      FreeDetached(current);
    }

    /** The walk of unregister, which keeps the node before. */
    method FindUserAndPrevious(username: CText) returns (current: Node?, previous: Node?, ghost i: nat)
      requires Valid()
      ensures i == Find(contents, username) && |spine| == |contents|
      ensures current == NodeAt(spine, Find(contents, username))
      ensures previous == if Find(contents, username) == 0 then null else NodeAt(spine, Find(contents, username) - 1)
    {
      hide CStr, Find, ChainFrom, HoldsFile, Good;
      current, previous, i := messages, null, 0;
      while current != null
        invariant i <= |spine| && current == NodeAt(spine, i)
        invariant if i == 0 then previous == null else previous == spine[i - 1]
        invariant forall j | 0 <= j < i :: contents[j].name != username
        decreases |spine| - i
      {
        if CStr(current.username) == username {
          assert contents[i].name == username;
          return;
        }
        previous := current;
        current, i := current.next, i + 1;
      }
    }

    /** On success exactly the user's record and the records of its files have been freed. */
    method UnregisterUser(username: CText) returns (code: int)
      requires Valid()
      modifies this, liveUsers, liveFiles
      ensures Valid()
      ensures (contents, Code(code)) == Apply(old(contents), Unregister(username))
      ensures code != 0 ==> spine == old(spine) && liveUsers == old(liveUsers) && liveFiles == old(liveFiles)
      ensures code == 0 ==>
        var i := Find(old(contents), username);
        && i < |old(spine)| && spine == Remove(old(spine), i)
        && liveUsers == old(liveUsers) - {old(spine)[i]}
        && liveFiles == old(liveFiles) - Records(old(ChainOf(i)))
    {
      hide CStr, Find, HoldsFile, HoldsUser, Good, Linked, Reachable, Remove, ChainFrom;
      ApplyKeepsGood(contents, Unregister(username));
      if !initedList {
        InitList();
      }
      var current, previous, i := FindUserAndPrevious(username);
      if current == null {
        return 1;
      }
      LinkedAt(liveUsers, liveFiles, i);
      DropUser(previous, current, i);
      return 0;
    }

    method ConnectUser(peer: Peer, port: CText, username: CText) returns (code: int)
      requires Valid()
      modifies this, liveUsers
      ensures Valid() && spine == old(spine) && liveUsers == old(liveUsers) && liveFiles == old(liveFiles)
      ensures (contents, Code(code)) == Apply(old(contents), Connect(username, port, peer))
      ensures code == 0 ==>
        var i := Find(old(contents), username);
        && i < |spine| && peer.Address? && CStr(spine[i].port) == port
        && IsDottedQuad(CStr(spine[i].ip), peer.a, peer.b, peer.c, peer.d)
    {
      hide CStr, Find, HoldsUser, HoldsFile, Good, Linked, Reachable, ChainFrom, InetNtoa, IsDottedQuad;
      ApplyKeepsGood(contents, Connect(username, port, peer));
      if !initedList {
        InitList();
      }
      var current, i := FindUser(username);
      if current == null {
        return 1;
      }
      LinkedAt(liveUsers, liveFiles, i);
      HeldAddress(current, contents[i]);
      if CStr(current.ip) != [] {
        return 2;
      }
      if peer.NoPeer? {
        return 3;
      }
      var ip := InetNtoa(peer.a, peer.b, peer.c, peer.d);
      ConnectNode(current, ip, port, i);
      LinkedAt(liveUsers, liveFiles, i);
      HeldAddress(current, contents[i]);
      return 0;
    }

    method DisconnectUser(username: CText) returns (code: int)
      requires Valid()
      modifies this, liveUsers
      ensures Valid() && spine == old(spine) && liveUsers == old(liveUsers) && liveFiles == old(liveFiles)
      ensures (contents, Code(code)) == Apply(old(contents), Disconnect(username))
    {
      hide CStr, Find, HoldsUser, HoldsFile, Good, Linked, Reachable, ChainFrom;
      ApplyKeepsGood(contents, Disconnect(username));
      if !initedList {
        InitList();
      }
      var current, i := FindUser(username);
      if current == null {
        return 1;
      }
      LinkedAt(liveUsers, liveFiles, i);
      HeldAddress(current, contents[i]);
      if CStr(current.ip) == [] {
        return 2;
      }
      DisconnectNode(current, i);
      return 0;
    }

    /** On success exactly one record more is live, the head of the user's files; otherwise none is. */
    method RegisterFile(username: CText, file: CText, description: CText, memory: bool) returns (code: int)
      requires Valid()
      modifies this, liveUsers
      ensures Valid() && spine == old(spine) && liveUsers == old(liveUsers)
      ensures (contents, Code(code)) == Apply(old(contents), Publish(username, file, description, memory))
      ensures code != 0 ==> liveFiles == old(liveFiles)
      ensures code == 0 ==>
        var i := Find(old(contents), username);
        && i < |spine| && spine[i].listFiles != null && fresh(spine[i].listFiles)
        && spine[i].chain == [spine[i].listFiles] + old(ChainOf(i))
        && liveFiles == old(liveFiles) + {spine[i].listFiles}
    {
      hide CStr, Find, FindFile, Apply, HoldsUser, HoldsFile, Good, Linked, Reachable, ChainFrom;
      PublishEffect(contents, username, file, description, memory);
      if !initedList {
        InitList();
      }
      var current, i := FindUser(username);
      if current == null {
        return 1;
      }
      LinkedAt(liveUsers, liveFiles, i);
      HeldAddress(current, contents[i]);
      if CStr(current.ip) == [] {
        return 2;
      }
      var fileCurrent, _, k := FindFileNode(current, file, contents[i]);
      if fileCurrent != null {
        return 3;
      }
      if !memory {
        return 4;
      }
      ghost var live := liveFiles;
      var newFile := NewFile(current, file, description);
      assert liveFiles - {newFile} == live;
      LinkFile(current, newFile, i, File(file, description));
      return 0;
    }

    /** On success exactly the record of that file has been freed. */
    method UnregisterFile(username: CText, file: CText) returns (code: int)
      requires Valid()
      modifies this, liveUsers, liveFiles
      ensures Valid() && spine == old(spine) && liveUsers == old(liveUsers)
      ensures (contents, Code(code)) == Apply(old(contents), Delete(username, file))
      ensures code != 0 ==> liveFiles == old(liveFiles)
      ensures code == 0 ==>
        var i := Find(old(contents), username);
        var was := old(ChainOf(i));
        && i < |spine| && i < |old(contents)|
        && var k := FindFile(old(contents)[i].files, file);
           k < |was| && spine[i].chain == Remove(was, k) && liveFiles == old(liveFiles) - {was[k]}
    {
      hide CStr, Find, FindFile, HoldsUser, HoldsFile, Good, Linked, Reachable, ChainFrom, Remove, Connected, InetNtoa;
      ApplyKeepsGood(contents, Delete(username, file));
      if !initedList {
        InitList();
      }
      var current, i := FindUser(username);
      if current == null {
        return 1;
      }
      LinkedAt(liveUsers, liveFiles, i);
      HeldAddress(current, contents[i]);
      if CStr(current.ip) == [] {
        return 2;
      }
      var fileCurrent, filePrevious, k := FindFileNode(current, file, contents[i]);
      if fileCurrent == null {
        return 3;
      }
      DropFile(current, filePrevious, fileCurrent, i, k);
      return 0;
    }

    method ConnectNode(n: Node, ip: CText, port: CText, ghost i: nat)
      requires Valid() && i < |contents| && i < |spine| && n == spine[i]
      requires Good(contents[i := contents[i].(ip := ip, port := port)])
      modifies `contents, n
      ensures Valid() && contents == old(contents)[i := old(contents)[i].(ip := ip, port := port)]
    {
      hide HoldsUser, HoldsFile, OwnsFiles, Good, Chained, ChainFrom, Reachable;
      LinkedAt(liveUsers, liveFiles, i);
      SetAddress(n, ip, port, contents[i]);
      contents := contents[i := contents[i].(ip := ip, port := port)];
    }

    method DisconnectNode(n: Node, ghost i: nat)
      requires Valid() && i < |contents| && i < |spine| && n == spine[i]
      requires Good(contents[i := contents[i].(ip := [], port := [])])
      modifies `contents, n
      ensures Valid() && contents == old(contents)[i := old(contents)[i].(ip := [], port := [])]
    {
      hide HoldsUser, HoldsFile, OwnsFiles, Good, Chained, ChainFrom, Reachable;
      LinkedAt(liveUsers, liveFiles, i);
      ClearAddress(n, contents[i]);
      contents := contents[i := contents[i].(ip := [], port := [])];
    }

    lemma {:induction false} HeldAddress(n: Node, u: User)
      requires HoldsUser(n, u)
      ensures u.name == CStr(n.username) && u.ip == CStr(n.ip) && u.port == CStr(n.port)
      ensures |u.files| == |n.chain|
    {
    }

    /** A live record for the file, pointing at the current head of the owner's files. */
    method NewFile(owner: Node, file: CText, description: CText) returns (newFile: FileNode)
      modifies `liveFiles
      ensures fresh(newFile) && liveFiles == old(liveFiles) + {newFile}
      ensures newFile.next == owner.listFiles && newFile.owner == owner
      ensures HoldsFile(newFile, File(file, description))
    {
      hide CStr, StrNCpy;
      StrNCpyLossless(file); StrNCpyLossless(description);
      newFile := new FileNode.Malloc(this);
      newFile.filename := StrNCpy(file);
      newFile.description := StrNCpy(description);
      newFile.next := owner.listFiles;
      newFile.owner := owner;
    }

    /** The i-th user's list gains a file at its head. */
    method AttachFile(n: Node, f: FileNode, ghost i: nat, ghost file: File)
      requires f in liveFiles && Linked(liveUsers, liveFiles - {f}) && i < |spine| && n == spine[i]
      requires f.owner == n && f.next == n.listFiles && HoldsFile(f, file)
      modifies `contents, n`listFiles, n`chain
      ensures Linked(liveUsers, liveFiles)
      ensures contents == old(contents)[i := old(contents)[i].(files := [file] + old(contents)[i].files)]
      ensures n.chain == [f] + old(n.chain) && n.listFiles == f
    {
      hide HoldsUser, HoldsFile, Good, Chained, ChainFrom;
      LinkedAt(liveUsers, liveFiles - {f}, i);
      PushFile(n, f, contents[i], file);
      contents := contents[i := contents[i].(files := [file] + contents[i].files)];
    }

    /** Makes the one live file record that is not reachable the head of the i-th user's list. */
    method LinkFile(n: Node, f: FileNode, ghost i: nat, ghost file: File)
      requires f in liveFiles && Linked(liveUsers, liveFiles - {f}) && Reachable(liveUsers, liveFiles - {f})
      requires i < |contents| && i < |spine| && n == spine[i]
      requires f.owner == n && f.next == n.listFiles && HoldsFile(f, file)
      requires Good(contents[i := contents[i].(files := [file] + contents[i].files)])
      modifies `contents, n`listFiles, n`chain
      ensures Valid() && n.chain == [f] + old(n.chain) && n.listFiles == f
      ensures contents == old(contents)[i := old(contents)[i].(files := [file] + old(contents)[i].files)]
    {
      hide HoldsUser, HoldsFile, Good, Linked, ChainFrom;
      LinkedAt(liveUsers, liveFiles - {f}, i);
      AttachFile(n, f, i, file);
    }

    /** The i-th user's list loses its k-th file, whose record is still to be freed. */
    method DetachFile(n: Node, filePrevious: FileNode?, fileCurrent: FileNode, ghost i: nat, ghost k: nat)
      requires Linked(liveUsers, liveFiles) && i < |spine| && n == spine[i]
      requires k < |n.chain| && |n.chain| == |contents[i].files| && fileCurrent == n.chain[k]
      requires if k == 0 then filePrevious == null else filePrevious == n.chain[k - 1]
      modifies `contents, n`listFiles, n`chain, n.chain`next
      ensures Linked(liveUsers, liveFiles - {fileCurrent})
      ensures contents == old(contents)[i := old(contents)[i].(files := Remove(old(contents)[i].files, k))]
      ensures n.chain == Remove(old(n.chain), k)
    {
      hide HoldsUser, HoldsFile, Good, Chained, ChainFrom, Remove;
      LinkedAt(liveUsers, liveFiles, i);
      RemoveAt(n.chain, k);
      SpliceFile(n, filePrevious, fileCurrent, k, contents[i]);
      contents := contents[i := contents[i].(files := Remove(contents[i].files, k))];
    }

    /** Takes the k-th file out of the i-th user's list and frees it. */
    method DropFile(n: Node, filePrevious: FileNode?, fileCurrent: FileNode, ghost i: nat, ghost k: nat)
      requires Valid() && i < |contents| && i < |spine| && n == spine[i]
      requires k < |n.chain| && |n.chain| == |contents[i].files| && fileCurrent == n.chain[k]
      requires if k == 0 then filePrevious == null else filePrevious == n.chain[k - 1]
      requires Good(contents[i := contents[i].(files := Remove(contents[i].files, k))])
      modifies `contents, `liveFiles, n, n.chain
      ensures Valid() && liveFiles == old(liveFiles) - {fileCurrent} && n.chain == Remove(old(n.chain), k)
      ensures contents == old(contents)[i := old(contents)[i].(files := Remove(old(contents)[i].files, k))]
    {
      hide HoldsUser, HoldsFile, Good, Linked, ChainFrom, Remove;
      LinkedAt(liveUsers, liveFiles, i);
      RemoveAt(n.chain, k);
      DetachFile(n, filePrevious, fileCurrent, i, k);
      FreeFile(fileCurrent);
    }
  }
}

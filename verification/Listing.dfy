/** The two listings of server/list.c: chains of response records, filled one step behind the cursor.
    Fresh memory is Undefined, so that reading a field the C code never wrote is an error here. */
module Listing {
  import opened Strings
  import opened Registry
  import opened LinkedList

  datatype Cell<T> = Undefined | Defined(v: T)

  class UserRecord {
    var username: Cell<Field>
    var ip: Cell<Field>
    var port: Cell<Field>
    var next: Cell<UserRecord?>

    constructor Malloc()
      ensures Untouched()
    {
      username, ip, port, next := Undefined, Undefined, Undefined, Undefined;
    }

    predicate Untouched()
      reads this
    {
      username.Undefined? && ip.Undefined? && port.Undefined? && next.Undefined?
    }
  }

  class FileRecord {
    var filename: Cell<Field>
    var description: Cell<Field>
    var next: Cell<FileRecord?>

    constructor Malloc()
      ensures Untouched()
    {
      filename, description, next := Undefined, Undefined, Undefined;
    }

    predicate Untouched()
      reads this
    {
      filename.Undefined? && description.Undefined? && next.Undefined?
    }
  }

  // ----- chains -----

  predicate CellHolds(cell: Cell<Field>, s: Text) {
    cell.Defined? && Terminated(cell.v) && CStr(cell.v) == s
  }

  predicate HoldsContact(rec: UserRecord, c: Contact)
    reads rec
  {
    CellHolds(rec.username, c.name) && CellHolds(rec.ip, c.ip) && CellHolds(rec.port, c.port)
  }

  predicate HoldsListed(rec: FileRecord, f: File)
    reads rec
  {
    CellHolds(rec.filename, f.name) && CellHolds(rec.description, f.description)
  }

  function UserRecordAt(recs: seq<UserRecord>, k: nat): UserRecord? {
    if k < |recs| then recs[k] else null
  }

  function FileRecordAt(recs: seq<FileRecord>, k: nat): FileRecord? {
    if k < |recs| then recs[k] else null
  }

  /** The first |cs| records hold the contacts in order and are linked. At most one more record may
      hang behind them. */
  ghost predicate ContactChain(recs: seq<UserRecord>, cs: seq<Contact>)
    reads recs
  {
    && |cs| <= |recs| <= |cs| + 1
    && (forall k | 0 <= k < |cs| :: HoldsContact(recs[k], cs[k]))
    && (forall k {:trigger recs[k].next} | 0 <= k < |cs| :: recs[k].next == Defined(UserRecordAt(recs, k + 1)))
  }

  /** As ContactChain, for files. */
  ghost predicate FilePrefix(recs: seq<FileRecord>, fs: seq<File>)
    reads recs
  {
    && |fs| <= |recs| <= |fs| + 1
    && (forall k | 0 <= k < |fs| :: HoldsListed(recs[k], fs[k]))
    && (forall k {:trigger recs[k].next} | 0 <= k < |fs| :: recs[k].next == Defined(FileRecordAt(recs, k + 1)))
  }

  /** The records from `head` on hold exactly the files, in order, ending in NULL. */
  ghost predicate FileChain(head: FileRecord?, recs: seq<FileRecord>, fs: seq<File>)
    reads recs
  {
    head == FileRecordAt(recs, 0) && |recs| == |fs| && FilePrefix(recs, fs)
  }

  ghost predicate Distinct<T>(recs: seq<T>) {
    forall j, k | 0 <= j < k < |recs| :: recs[j] != recs[k]
  }

  lemma {:induction false} ConnectedPrefix(r: seq<User>, i: nat)
    requires i < |r|
    ensures
      var u := r[i];
      Connected(r[..i + 1]) == Connected(r[..i]) + if u.ip != [] then [Contact(u.name, u.ip, u.port)] else []
  {
    assert r[..i + 1][..i] == r[..i];
  }

  lemma {:induction false} ListStart(list: UserList)
    requires list.Valid()
    ensures |list.spine| == |list.contents| && list.messages == NodeAt(list.spine, 0)
  {
  }

  lemma {:induction false} HeldText(list: UserList, i: nat)
    requires list.Valid() && i < |list.spine|
    ensures |list.spine| == |list.contents|
    ensures
      var n, u := list.spine[i], list.contents[i];
      && Terminated(n.username) && Terminated(n.ip) && Terminated(n.port)
      && u.name == CStr(n.username) && u.ip == CStr(n.ip) && u.port == CStr(n.port)
      && n.next == NodeAt(list.spine, i + 1)
  {
  }

  // ----- LIST_USERS -----

  /** The count is the number of contacts, at least one, and their chain starts at `head`. */
  ghost predicate ListsContacts(cs: seq<Contact>, n: Cell<nat>, head: UserRecord, recs: seq<UserRecord>)
    reads recs
  {
    && |cs| > 0 && n == Defined(|cs|)
    && ContactChain(recs, cs) && head == recs[0]
  }

  method ListUsers(list: UserList, username: CText, respuesta: UserRecord)
      returns (code: int, nUser: Cell<nat>, ghost recs: seq<UserRecord>)
    requires list.Valid() && respuesta.Untouched()
    modifies respuesta
    ensures list.Valid() && list.contents == old(list.contents)
    ensures code == Apply(list.contents, Op.ListUsers(username)).1.code
    ensures code == 0 ==>
      ListsContacts(Apply(list.contents, Op.ListUsers(username)).1.contacts, nUser, respuesta, recs)
  {
    hide CStr, Good, LinkedList.HoldsUser, Connected, UserList.Linked, UserList.Reachable;
    recs := [respuesta];
    nUser := Undefined;
    var current, i := list.FindUser(username);
    if current == null {
      return 1, nUser, recs;
    }
    HeldText(list, i);
    if CStr(current.ip) == [] {
      return 2, nUser, recs;
    }
    var n;
    n, recs := CopyConnected(list, respuesta);
    SomeConnected(list.contents, i);
    return 0, Defined(n), recs;
  }

  lemma {:induction false} SomeConnected(r: seq<User>, i: nat)
    requires i < |r| && r[i].ip != []
    ensures |Connected(r)| > 0
  {
    if i < |r| - 1 {
      SomeConnected(r[..|r| - 1], i);
    }
  }

  /** Copies the connected users into the chain that starts at `respuesta`. While users remain, the
      cursor is at the chain's last record, allocated and untouched. */
  method CopyConnected(list: UserList, respuesta: UserRecord) returns (n: nat, ghost recs: seq<UserRecord>)
    requires list.Valid() && respuesta.Untouched()
    modifies respuesta
    ensures list.Valid() && list.contents == old(list.contents)
    ensures n == |Connected(list.contents)| && ContactChain(recs, Connected(list.contents))
    ensures |recs| > 0 && recs[0] == respuesta
  {
    hide CStr, CellHolds, UserList.Valid, ContactChain, Distinct;
    ListStart(list);
    NoContacts(respuesta);
    var userCurrent, responseCurrent := list.messages, respuesta;
    ghost var i, cs := 0, Connected(list.contents[..0]);
    n, recs := 0, [respuesta];
    while userCurrent != null
      invariant list.Valid()
      invariant i <= |list.contents| == |list.spine| && userCurrent == NodeAt(list.spine, i)
      invariant cs == Connected(list.contents[..i]) && n == |cs|
      invariant ContactChain(recs, cs) && |recs| > 0 && recs[0] == respuesta
      invariant forall j | 0 < j < |recs| :: fresh(recs[j])
      invariant Distinct(recs)
      invariant userCurrent != null ==>
        |recs| == n + 1 && responseCurrent == recs[n] && responseCurrent.Untouched()
      decreases |list.spine| - i
    {
      HeldText(list, i);
      ConnectedPrefix(list.contents, i);
      if CStr(userCurrent.ip) != [] {
        responseCurrent, recs := AppendContact(recs, cs, responseCurrent, userCurrent);
        cs := Connected(list.contents[..i + 1]);
        n := n + 1;
      }
      assert cs == Connected(list.contents[..i + 1]);
      userCurrent, i := userCurrent.next, i + 1;
    }
    assert list.contents[..i] == list.contents;
  }

  lemma {:induction false} NoContacts(rec: UserRecord)
    ensures ContactChain([rec], []) && Distinct([rec])
  {
  }

  /** Fills the record under the cursor and, when another user follows, allocates the next one. */
  method AppendContact(ghost recs: seq<UserRecord>, ghost cs: seq<Contact>, responseCurrent: UserRecord, n: Node)
      returns (cursor: UserRecord, ghost recs': seq<UserRecord>)
    requires ContactChain(recs, cs) && |recs| == |cs| + 1 && Distinct(recs)
    requires responseCurrent == recs[|cs|] && responseCurrent.Untouched()
    requires Terminated(n.username) && Terminated(n.ip) && Terminated(n.port)
    modifies responseCurrent
    ensures ContactChain(recs', cs + [Contact(CStr(n.username), CStr(n.ip), CStr(n.port))])
    ensures Distinct(recs')
    ensures if n.next == null then recs' == recs else recs' == recs + [cursor] && fresh(cursor) && cursor.Untouched()
  {
    hide CStr, CellHolds;
    cursor, recs' := responseCurrent, recs;
    var next: UserRecord? := null;
    if n.next != null {
      cursor := new UserRecord.Malloc();
      next, recs' := cursor, recs + [cursor];
    }
    FillContact(responseCurrent, n, next);
    ghost var cs' := cs + [Contact(CStr(n.username), CStr(n.ip), CStr(n.port))];
    assert forall k | 0 <= k < |cs| :: HoldsContact(recs'[k], cs'[k]);
  }

  method FillContact(rec: UserRecord, n: Node, next: UserRecord?)
    requires Terminated(n.username) && Terminated(n.ip) && Terminated(n.port)
    modifies rec
    ensures HoldsContact(rec, Contact(CStr(n.username), CStr(n.ip), CStr(n.port)))
    ensures rec.next == Defined(next)
  {
    hide CStr, StrNCpy;
    StrNCpyLossless(CStr(n.username)); StrNCpyLossless(CStr(n.ip)); StrNCpyLossless(CStr(n.port));
    rec.username := Defined(StrNCpy(CStr(n.username)));
    rec.ip := Defined(StrNCpy(CStr(n.ip)));
    rec.port := Defined(StrNCpy(CStr(n.port)));
    rec.next := Defined(next);
  }

  // ----- LIST_CONTENT -----

  /** `head` is the caller's record, or NULL when the target has no files. */
  method ListContent(list: UserList, username: CText, respuesta: FileRecord, username2: CText)
      returns (code: int, head: FileRecord?, ghost recs: seq<FileRecord>)
    requires list.Valid() && respuesta.Untouched()
    modifies respuesta
    ensures list.Valid() && list.contents == old(list.contents)
    ensures code == Apply(list.contents, Op.ListContent(username, username2)).1.code
    ensures code == 0 ==>
      FileChain(head, recs, Apply(list.contents, Op.ListContent(username, username2)).1.files)
  {
    hide CStr, Good, LinkedList.HoldsUser, UserList.Valid, FileChain;
    head, recs := respuesta, [respuesta];
    ListStart(list);
    var current, i := list.FindUser(username);
    if current == null {
      return 1, head, recs;
    }
    HeldText(list, i);
    if CStr(current.ip) == [] {
      return 2, head, recs;
    }
    var targetUser, t := list.FindUser(username2);
    if targetUser == null {
      return 3, head, recs;
    }
    HeldFiles(list, t);
    if targetUser.listFiles == null {
      NoFiles();
      return 0, null, [];
    }
    recs := CopyFiles(targetUser, respuesta, list.contents[t]);
    return 0, head, recs;
  }

  lemma {:induction false} HeldFiles(list: UserList, i: nat)
    requires list.Valid() && i < |list.spine|
    ensures |list.spine| == |list.contents|
    ensures
      var n, u := list.spine[i], list.contents[i];
      LinkedList.HoldsUser(n, u) && (n.listFiles == null <==> u.files == [])
  {
  }

  lemma {:induction false} NoFiles()
    ensures FileChain(null, [], [])
  {
  }

  /** Copies a user's files into the chain that starts at `respuesta`; the cursor is at the chain's
      last record, allocated and untouched, while files remain. */
  method CopyFiles(n: Node, respuesta: FileRecord, ghost u: User) returns (ghost recs: seq<FileRecord>)
    requires LinkedList.HoldsUser(n, u) && n.listFiles != null && respuesta.Untouched()
    modifies respuesta
    ensures FileChain(respuesta, recs, u.files)
  {
    hide CStr, CellHolds, FilePrefix, Distinct;
    var responseCurrent, fileCurrent := respuesta, n.listFiles;
    ghost var k := 0;
    recs := [respuesta];
    FirstFile(respuesta);
    while fileCurrent != null
      invariant k <= |u.files| && fileCurrent == FileAt(n.chain, k)
      invariant FilePrefix(recs, u.files[..k]) && |recs| > 0 && recs[0] == respuesta
      invariant forall j | 0 < j < |recs| :: fresh(recs[j])
      invariant Distinct(recs)
      invariant if fileCurrent == null then |recs| == k
                else |recs| == k + 1 && responseCurrent == recs[k] && responseCurrent.Untouched()
      decreases |u.files| - k
    {
      assert HoldsFile(n.chain[k], u.files[k]);
      responseCurrent, recs := AppendFile(recs, u.files[..k], responseCurrent, fileCurrent);
      assert u.files[..k + 1] == u.files[..k] + [u.files[k]];
      fileCurrent, k := fileCurrent.next, k + 1;
    }
    assert u.files[..k] == u.files;
  }

  lemma {:induction false} FirstFile(rec: FileRecord)
    ensures FilePrefix([rec], []) && Distinct([rec])
  {
  }

  method AppendFile(ghost recs: seq<FileRecord>, ghost fs: seq<File>, responseCurrent: FileRecord, f: FileNode)
      returns (cursor: FileRecord, ghost recs': seq<FileRecord>)
    requires FilePrefix(recs, fs) && |recs| == |fs| + 1 && Distinct(recs)
    requires responseCurrent == recs[|fs|] && responseCurrent.Untouched()
    requires Terminated(f.filename) && Terminated(f.description)
    modifies responseCurrent
    ensures FilePrefix(recs', fs + [File(CStr(f.filename), CStr(f.description))])
    ensures Distinct(recs')
    ensures if f.next == null then recs' == recs else recs' == recs + [cursor] && fresh(cursor) && cursor.Untouched()
  {
    hide CStr, CellHolds;
    cursor, recs' := responseCurrent, recs;
    var next: FileRecord? := null;
    if f.next != null {
      cursor := new FileRecord.Malloc();
      next, recs' := cursor, recs + [cursor];
    }
    FillFile(responseCurrent, f, next);
    ghost var fs' := fs + [File(CStr(f.filename), CStr(f.description))];
    assert forall k | 0 <= k < |fs| :: HoldsListed(recs'[k], fs'[k]);
  }

  method FillFile(rec: FileRecord, f: FileNode, next: FileRecord?)
    requires Terminated(f.filename) && Terminated(f.description)
    modifies rec
    ensures HoldsListed(rec, File(CStr(f.filename), CStr(f.description)))
    ensures rec.next == Defined(next)
  {
    hide CStr, StrNCpy;
    StrNCpyLossless(CStr(f.filename)); StrNCpyLossless(CStr(f.description));
    rec.filename := Defined(StrNCpy(CStr(f.filename)));
    rec.description := Defined(StrNCpy(CStr(f.description)));
    rec.next := Defined(next);
  }
}

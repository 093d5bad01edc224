# A verified model of the file-sharing directory

The repository is a peer-to-peer file-sharing system: a directory server in C that keeps registered users, where they
are connected and which files they publish, and a Python client that talks to it over TCP. This project models the
directory server and the client's side of its protocol in Dafny, and proves what they do over all inputs, all runs and
all interleavings.

`dafny verify dfyconfig.toml` checks everything. Socket reads, writes and interruptions, `malloc`, `getpeername`,
`accept`, `pthread_create`, the date service and the scheduler are inputs that may behave in any way; nothing is assumed
about them except where a statement says so.

| module | models |
|---|---|
| Strings | C strings in 256-byte arrays, `strncpy`, the decimal notation of `snprintf` and `int()` |
| Registry | the directory as a list of users; effect and return code of each of the eight operations (`Apply`) |
| Directory | a map without order that the list refines; independence of different users |
| History | what a whole run leaves behind, told by the operations that succeeded |
| LinkedList | server/list.c in memory: nodes, links, in-place edits, `malloc` and `free`; refines Registry |
| Listing | `list_users` and `list_content`: response chains built behind a cursor, with uninitialised memory visible |
| Locking, Threads, Returning | any number of threads inside list.c, one small step at a time; linearizability and return |
| HandOff, Fairness | the hand-over of the accepted descriptor in server/servidor.c; safety and termination |
| Lines | server/lines.c over a stream of read events and write outcomes |
| Protocol | messages and replies as octets, and their round trips |
| Server | `treat_request`: parse, perform, answer |
| Client | the protocol methods of client.py with the loops that take replies apart, and the typed line |
| Requests | the eight requests spelled out; requests that are unknown, fail or end early |
| Traffic | any sequence of connections, as runs of operations and on the heap; which runs clients can cause |
| EndToEnd | from one client's keyboard to another's screen, through any number of connections |
| Names | under which name the server files what a client publishes |
| Witnesses | runs in which the reader of a listing is not told what the directory holds |

Three descriptions of the directory are kept apart and connected by proof: the heap (LinkedList), the list (Registry)
and the map (Directory). The interleaving model (Threads) and the traffic model (Traffic) both lead back to runs of the
list, so that the statements in History hold of concurrent callers and of octets on the wire alike.

Where code and documentation differ, the model follows the code:

- server/list.h:35 says that `register_user` returns 2 on failures other than a name in use. The code returns -1
  (server/list.c:78), which `send_error` sends as the character `/` (server/servidor.c:69). `Protocol.CodesInRange` and
  `EndToEnd.ClientIsTold` follow that code through to the client.
- `LIST_CONTENT` announces the number of files that have a name but sends them all (server/servidor.c:472-507). A client
  can publish a file without a name, since it removes spaces from names and `PUBLISH` followed by two spaces types an
  empty one. `Witnesses.UnnamedFileHidesAnother` is a run in which the reader then loses a file, and
  `Protocol.ContentRoundTrip` and `EndToEnd.TypedTextIsShown` give the exact conditions.
- A stream that ends at once leaves the buffer of `readLine` as it was (server/lines.c:59-61), so an empty connection
  repeats the word that the previous handler left there. `Protocol.Word` and `Traffic.Visit` carry that string along, and `Requests.UnknownWordIsIgnored` says when nothing
  comes of it. Likewise a request that ends early is performed with what has come of it (`Requests.ShortRequest`), while
  one whose reads fail is not (`Requests.FailingRequest`).
- The client decodes octet by octet (client.py:43), so one connected user whose name has a character of several octets
  makes the lookup of every user listed behind raise. `Witnesses.NameOfSeveralOctetsHidesPeer` is such a run, and
  `EndToEnd.PeerLookup` gives the exact condition.
- The client checks a filename's size only (client.py:64-67). A NUL or newline in it ends the field early, so accepted
  names can be filed as one: `Names.AcceptedNamesCanCollide`, with the exact condition in
  `Names.AcceptedNamesFiledAsOne`.
- `disconnect` forgets the client's connection on any reply, whichever user it concerned (client.py:271-272), and
  `unregister` never does. No agreement between a client's idea of its session and the server's is claimed, because
  there is none.

## Model

| member | source | states |
|---|---|---|
| Registry.ApplyKeepsGood | server/list.c:54-321 | every operation keeps usernames distinct, filenames distinct within a user, and ports only with an address |
| Registry.RunIsGood | server/list.c:54-450 | the same after any sequence of operations |
| Registry.OppositesCancel | server/list.c:85-113 | register then unregister, publish then delete, connect then disconnect restore the whole list, order included, and the second step answers 0 |
| Directory.ApplyRefinesEffect | server/list.c:54-450 | each operation does to the list what a map specification without positions says, and answers with the code and contents the map dictates, for every malloc and getpeername outcome |
| Directory.RunRefinesRunMap | server/list.c:54-450 | list and map agree after any run, and so do all replies in it |
| Directory.OnlineIsConnected | server/list.c:341-359 | the contacts listed are exactly the accounts with an address |
| Directory.MapOfRemove | server/list.c:107-113 | unlinking a user removes exactly that user's account |
| Directory.FileMapOfRemove | server/list.c:296-302 | unlinking a file removes exactly that name |
| Directory.DifferentUsersCommute | server/list.c:54-321 | two mutators on different users leave the same accounts in either order, and neither changes the other's return code |
| Directory.EffectsCommute | server/list.c:54-321 | the same on the map alone |
| History.HoldsStep | server/list.c:54-321 | a successful operation makes the facts it makes, undoes those it undoes and keeps all others |
| History.WholeRunHistory | server/list.c:54-321 | after any run a user is registered, connected at (ip, port), or lists a file with a description, iff some successful operation made that so and no later successful one undid it |
| History.RepliesFromHistory | server/list.c:54-450 | every return code of a run follows from which operations succeeded before, in which order |
| History.OthersUntouched | server/list.c:54-321 | an operation leaves every other user's record as it was |
| History.UsersInOrder | server/list.c:85-86 | after any run the list is in reverse order of latest successful registrations |
| History.FilesInOrder | server/list.c:251-252 | every user's files are in reverse order of their latest successful publications |
| History.ContactsNewestFirst | server/list.c:341-359 | the connected users are listed in reverse order of latest registration, whatever removals and reconnections occurred |
| LinkedList.UserList.LiveIsReachable | server/list.c:75-126 | the records that malloc has given and free has not taken back are exactly those reachable from the head, and no file hangs twice |
| LinkedList.UserList.constructor | server/list.c:8-9 | the zeroed globals are a valid empty directory |
| LinkedList.UserList.InitList | server/list.c:12-24 | sets the flag and leaves the directory as it is |
| LinkedList.UserList.FindUser | server/list.c:64-72 | walks to the only node with the name, or to NULL |
| LinkedList.UserList.RegisterUser | server/list.c:54-90 | the heap goes where Registry.Apply says, with its code; on success exactly one record is allocated and kept, the new head, and otherwise none |
| LinkedList.UserList.FindUserAndPrevious | server/list.c:101-130 | walks to the node with the name, or to NULL, and to the node before |
| LinkedList.UserList.UnregisterUser | server/list.c:92-134 | effect and code of unregister; on success exactly that user's record and the records of its files are freed, each once, and the other nodes stay in their order |
| LinkedList.UserList.DetachUser | server/list.c:106-113 | splices out any node, head included; everything else stays linked and reachable |
| LinkedList.UserList.FreeDetached | server/list.c:115-123 | frees exactly a spliced node and its files |
| LinkedList.UserList.SpliceUser | server/list.c:107-113 | the remaining nodes are linked in their old order |
| LinkedList.UserList.FreeFiles | server/list.c:116-121 | frees every record of a file list once, reading each link before the record goes |
| LinkedList.UserList.ConnectUser | server/list.c:136-175 | effect and code of connect in place, no record allocated or freed; the text stored reads as the four numbers of the address in order |
| LinkedList.UserList.DisconnectUser | server/list.c:177-210 | effect and code of disconnect in place, no record allocated or freed |
| LinkedList.UserList.RegisterFile | server/list.c:212-263 | effect and code of publish; on success exactly one file record is allocated and kept, the head of the user's files, and otherwise none |
| LinkedList.UserList.UnregisterFile | server/list.c:266-321 | effect and code of delete; on success exactly the record of that file is freed, and the others stay in their order |
| LinkedList.UserList.DropFile | server/list.c:294-306 | unlinks any file of a user, first or later, and frees exactly that record |
| LinkedList.FindFileNode | server/list.c:231-240 | finds the file of that name and its predecessor, or reaches the end |
| LinkedList.UnlinkFile | server/list.c:296-302 | the remaining files are linked in their old order |
| LinkedList.PushFile | server/list.c:251-252 | the new file is first and the rest of the user is unchanged |
| LinkedList.SetAddress | server/list.c:160-161 | copying address and port changes nothing else of the user |
| LinkedList.ClearAddress | server/list.c:198-199 | overwriting one octet of each makes address and port empty |
| Listing.ListUsers | server/list.c:323-372 | on success the first n_user records hold the connected users in registry order, at least one; the registry is untouched |
| Listing.CopyConnected | server/list.c:337-361 | while users remain, the cursor is at an allocated, unfilled record; at most one unfilled record trails |
| Listing.AppendContact | server/list.c:343-353 | one contact is added behind the ones already there, which stay as they are |
| Listing.ListContent | server/list.c:374-450 | on success the chain is exactly the target's files in order, connected or not, or NULL when there are none |
| Listing.CopyFiles | server/list.c:428-446 | the chain filled from the caller's record is the whole file list, closed by NULL |
| Listing.AppendFile | server/list.c:434-443 | one file is added behind the ones already there, which stay as they are |
| Locking.StepsAddUp | server/list.c:54-450 | with the mutex held, the single steps of every operation, traversal and partial updates included, add up to its effect and reply |
| Locking.CollectsConnected | server/list.c:341-359 | so does the walk that fills the users' response |
| Locking.ScanFinds | server/list.c:64-72 | so does the walk to a user |
| Threads.AdvanceKeepsInv | server/list.c:54-450 | every step of every thread keeps the invariant |
| Threads.Linearizable | server/list.c:12-24 | in every interleaving, replies and final list are those of a sequential run in the order of each call's last lock, in which every such call has exactly one place |
| Threads.RealTimeOrder | server/list.c:54-450 | that order respects real time, and a reply once given stands |
| Threads.InitDiscardsNothing | server/list.c:12-24 | whoever is about to set the head to NULL finds it NULL |
| Threads.NeverStuck | server/list.c:14-62 | at most one thread is inside, and unless all calls have returned some thread can step |
| Returning.GivenBack | server/list.c:54-450 | under strong fairness whoever has the mutex gives it back |
| Returning.EveryCallReturns | server/list.c:54-450 | under strong fairness every call returns, with its reply in the sequential run, however many others are made meanwhile |
| HandOff.ActsKeepsInv | server/servidor.c:80-84 | every step of main or of a handler keeps the hand-off invariant |
| HandOff.HandOffIsSafe | server/servidor.c:602-619 | at most one thread has not copied its descriptor, none when main is about to accept, and each copies the one accepted for it; main stops only when accept has failed |
| HandOff.NoLostWakeup | server/servidor.c:613-617 | while main sleeps, a created thread has still to clear the flag or, having cleared it, to signal |
| Fairness.MutexGetsFree | server/servidor.c:613-617 | even for a handler starved of the mutex, it gets free again and again as long as main gets its turns, whatever spurious wakeups occur |
| Fairness.HandOffCompletes | server/servidor.c:602-619 | under strong fairness main always returns to accept after creating a thread |
| Fairness.MainAcceptsAgain | server/servidor.c:602-619 | under strong fairness main returns to accept from everywhere, after a failed thread creation too, unless accept has failed |
| Fairness.HandlerMustGetItsTurn | server/servidor.c:602-619 | fairness to main alone is not enough: with spurious wakeups main can wait for ever for a handler that is never scheduled |
| Lines.PayloadIsField | server/lines.c:51-77 | a field is the longest delimiter-free prefix of the octets, and reading it consumes that and its delimiter, wherever reads are interrupted |
| Lines.InterruptsInvisible | server/lines.c:54-56 | a framed text delivered before any failure is read back exactly, and what follows stays in the stream |
| Lines.Socket.ReadLine | server/lines.c:35-78 | keeps the first n-1 octets of the field, terminated, discards the rest, touches no other octet of the buffer, stops right behind the delimiter, and terminates; returns -1 iff a read fails before every delimiter |
| Lines.LineIsKept | server/lines.c:51-77 | the same read off the events: value, buffer and remaining stream for a word followed by a delimiter, a failure or the end |
| Lines.FailureIsSeen | server/lines.c:54-58 | a failed read ends a field iff no delimiter comes before it |
| Lines.FieldIsCut | server/lines.c:65-68 | a text with delimiters in it is read up to the first |
| Lines.Socket.SendMessage | server/lines.c:3-17 | what goes out is a prefix of the message of the length Lines.SendResult gives; all of it when no write fails |
| Lines.SendsAllOrStrictPrefix | server/lines.c:3-17 | 0 means the whole message went out, -1 for a non-empty one a strict prefix, under any short writes |
| Strings.StrNCpyLossless | server/list.c:81 | a 256-byte strncpy keeps terminator and content exactly when the string is shorter than 256 |
| Strings.DecimalRoundTrip | server/servidor.c:377-380 | the count printed by the server is the count the client reads |
| Strings.DigitsCount | client.py:420 | a numeral is read in tens from the left |
| Strings.NoLeadingZero | server/servidor.c:377-380 | a count is printed without leading zeros |
| Strings.PyIntReads | client.py:502-511 | `int()` takes white space around a number and one sign |
| Strings.PyIntRefuses | client.py:502-511 | `int()` raises on an empty text and on any other character |
| Strings.AddressesDistinct | server/list.c:160 | different addresses have different texts |
| Requests.Spelling | client.py:81-464 | the eight words, letter for letter |
| Requests.KnownKinds | server/servidor.c:109-422 | those eight words and no others are known, each with its number of fields |
| Requests.UnknownWordIsIgnored | server/servidor.c:422-518 | any other first field changes nothing and is not answered |
| Requests.FailingRequest | server/servidor.c:101-453 | a request whose reads fail is performed iff its word is known and all its fields were closed before; otherwise nothing changes and nothing is sent |
| Requests.ShortRequest | server/lines.c:59-63 | a request that ends early is performed with the field it breaks off in taken as whole and the others empty |
| Requests.HalfNameIsRegistered | server/lines.c:59-63 | so a name cut off by the end of the stream is registered |
| Requests.RegisterIsServed | server/servidor.c:109-140 | REGISTER takes its user from the second field, whatever the date |
| Requests.UnregisterIsServed | server/servidor.c:141-173 | so does UNREGISTER |
| Requests.DisconnectIsServed | server/servidor.c:306-337 | so does DISCONNECT |
| Requests.ListUsersIsServed | server/servidor.c:338-371 | so does LIST_USERS |
| Requests.ListContentIsServed | server/servidor.c:422-462 | LIST_CONTENT takes the asker from the second field and the target from the third |
| Requests.DeleteIsServed | server/servidor.c:265-305 | DELETE takes its user from the second field and the filename, without spaces, from the third |
| Protocol.KeywordsDistinct | server/servidor.c:109-422 | each keyword is recognised as its own operation |
| Protocol.FieldsRoundTrip | server/servidor.c:220-253 | fields of any length arrive in order, each cut to 255 octets, on aligned boundaries |
| Protocol.RequestRoundTrip | server/servidor.c:101-453 | every message the client builds is parsed as the operation and fields it was built from |
| Protocol.CodesInRange | server/servidor.c:66-75 | every code fits the one character `send_error` makes of it |
| Protocol.FieldReadBack | client.py:37-44 | a NUL-terminated text is read back iff all its characters are single octets, and raises otherwise |
| Protocol.FieldIsExact | client.py:37-44 | on any octets: what comes before the first NUL decides between reading, raising and waiting |
| Protocol.FieldsAreExact | client.py:420-427 | fields are read iff the octets begin with that many complete ones; otherwise the first incomplete one decides |
| Protocol.CutFieldsWait | client.py:37-44 | of fields cut off anywhere, the client waits for the rest |
| Protocol.FieldsNeedDelimiters | server/servidor.c:220-253 | before a failing read, as many fields arrive as delimiters |
| Protocol.FieldsAtEnd | server/lines.c:59-63 | at the end of a stream an open field counts as whole and missing ones as empty |
| Protocol.FieldsReadBack | client.py:37-44 | the same for any sequence of texts |
| Protocol.ContactsReadBack | client.py:420-427 | the client shows exactly the contacts sent, in order, iff all are of single octets |
| Protocol.FilesReadBack | client.py:472-477 | the client shows as many of the files sent, in order, as have a name |
| Protocol.ContentRoundTrip | server/servidor.c:469-507 | a listing comes through whole iff every file has a name and every character is a single octet |
| Protocol.NamedCountIs | server/servidor.c:472-478 | the count sent is the number of positions with a named file, wherever they stand |
| Protocol.NamedCountFull | server/servidor.c:472-478 | it is the number of files sent iff every file has a name |
| Protocol.LookupRoundTrip | client.py:501-515 | parsing a serialised listing for a user is looking the user up in the listing, exceptions included |
| Protocol.LookupRowsCut | client.py:501-515 | a listing that breaks off before the user leaves the client waiting, and does not report the user absent |
| Server.LineText | server/servidor.c:101-104 | what a readLine leaves in the shared buffer as a C string, the leftover of a previous request included |
| Server.ReadField | server/servidor.c:226-229 | a field read into a cleared buffer is the payload cut to 255 octets, as the copy made of it |
| Server.ReadArguments | server/servidor.c:219-253 | the successive fields of a request, or nothing when any read fails |
| Server.SendStatus | server/servidor.c:66-75 | code and NUL go out |
| Server.SendContacts | server/servidor.c:390-419 | the walk sends the contacts in order and reads no field that was not written |
| Server.CountNamed | server/servidor.c:469-478 | counts the files whose name is not empty |
| Server.SendFiles | server/servidor.c:492-507 | sends every file of the chain in order, named or not |
| Server.AnswerListUsers | server/servidor.c:364-419 | code, count and contacts as Protocol.ReplyBytes lays them out |
| Server.AnswerListContent | server/servidor.c:456-507 | code, count and files as Protocol.ReplyBytes lays them out |
| Server.Perform | server/servidor.c:132-329 | the six mutators on the heap, each given its own arguments |
| Server.TreatRequest | server/servidor.c:78-519 | one handler alone performs on the heap exactly the request that Protocol.ParseRequest finds in the stream, or nothing, and sends that operation's reply |
| Client.ReadResponse | client.py:37-44 | reads up to the first NUL, leaves the rest in the stream, stops at a character of several octets |
| Client.GetDataByUser | client.py:501-515 | the loop computes Protocol.LookupReply |
| Client.ReadRows | client.py:420-427 | the listing loops compute Protocol.ReadTable |
| Client.Talk | client.py:409-441 | what is sent, and the code made of the reply, as in Client.Reported |
| Client.Session.Register | client.py:70-103 | a name of more than 255 octets is refused and nothing sent; any other is sent, with message and code |
| Client.Session.Unregister | client.py:107-137 | message and code; without a connection ERROR, unlike the other methods |
| Client.Session.Connect | client.py:194-254 | refused when connected; on OK, and only then, the session belongs to the user |
| Client.Session.Disconnect | client.py:257-297 | any readable reply ends the session, even a refusal; an exception before it does not |
| Client.Session.Publish | client.py:300-346 | refused above 255 octets, then without a connection; never sends without a user; the name goes without spaces |
| Client.Session.Delete | client.py:349-394 | as publish |
| Client.Session.ListUsers | client.py:397-444 | never sends without a user; message and code |
| Client.Session.ListContent | client.py:447-497 | never sends without a user; message and code |
| Client.ExceedsExactly | client.py:64-67 | the check refuses exactly the texts that a field of the server would cut |
| Client.SpacesGo | client.py:320 | removing spaces works stretch by stretch, so the rest keeps its order |
| Client.OthersStay | client.py:320 | exactly the spaces go |
| Client.UnexpectedReply | client.py:94-339 | any reply but the four digits makes the method fail, with its own code |
| Strings.JoinSplit | client.py:612-638 | joining the words of a typed line gives the line back, repeated spaces included |
| Strings.SplitPieces | client.py:612 | no word holds a space |
| Client.PublishLine | client.py:635-639 | a typed PUBLISH yields its name and, verbatim, its description |
| Client.EveryPublishLine | client.py:635-639 | every line taken as a PUBLISH is command, name and description in one way |
| EndToEnd.TypedParts | client.py:635-639 | the name published is the second word of the line and the description all that follows it |
| Traffic.StoredStringsFit | server/lines.c:69-76 | after any octets from any clients every stored string is shorter than its array, so no strncpy truncates |
| Traffic.ServedIsRun | server/servidor.c:602-619 | a sequence of connections is a run of the operations they ask for |
| Traffic.ServableRuns | server/servidor.c:101-508 | clients can cause exactly the runs whose strings have no delimiter and fewer than 256 octets |
| Traffic.ServeConnections | server/servidor.c:78-519 | the heap after any sequence of connections is valid, so nothing has leaked, and holds what the traffic model says; all replies whose writes succeed are as modelled |
| Traffic.MessageIsServed | server/servidor.c:101-508 | a message built by the client from fields without delimiters makes the server apply that operation to those fields, cut to 255 octets, and answer with its reply |
| Requests.PublishIsServed | client.py:316-322 | PUBLISH takes user, filename without spaces and description from the second, third and fourth field, each cut to 255 octets |
| Requests.ConnectIsServed | client.py:213-218 | CONNECT takes user and port from the second and third field, and the port a client bound arrives whole |
| EndToEnd.StatusReadBack | client.py:326-338 | the client reads the code as one digit, or a slash for -1 |
| EndToEnd.ClientIsTold | client.py:326-339 | the code a protocol method returns tells exactly which code the list answered, but for a register out of memory and listings with characters of several octets, and it never waits in vain |
| EndToEnd.CutAnswerIsAwaited | client.py:37-44 | of an answer cut off anywhere the client takes no part for the whole: it waits |
| EndToEnd.PeerLookup | client.py:553-560 | a client's lookup gives what the registry says if the contacts up to the target's are of single octets, and raises otherwise |
| EndToEnd.LookupAfterRun | client.py:501-515 | after any run the lookup finds (ip, p) iff the contacts up to the target's are of single octets and the target's last successful connect was from ip with a port that reads as p and nothing ended it; it finds nobody iff they are and there is no such connect |
| EndToEnd.ContentAfterRun | client.py:472-477 | after any run the client shows exactly the target's files iff all have a name and all characters are single octets |
| EndToEnd.ShownIffPublished | server/list.c:432-446 | a row (name, description) is shown iff that was the last successful publication of the name and nothing undid it |
| EndToEnd.ListingDisplays | client.py:472-477 | a listed file is displayed iff its place is below the count of named files and the rows up to that count are of single octets |
| EndToEnd.TypedTextIsShown | client.py:635-639 | a description typed on one client's PUBLISH line, cut to 255 octets, is displayed to another until it is deleted or its owner leaves, iff that condition holds |
| EndToEnd.BoundPortIsFound | client.py:207-218 | another client's lookup finds the four numbers of the address a user connected from and the port it bound, until the user disconnects or leaves, iff the contacts up to the user's are of single octets |
| Names.FiledUnder | client.py:316-322 | any PUBLISH files the name without its spaces, up to its first delimiter, cut to 255 octets |
| Names.AcceptedNamesFiledAsOne | client.py:64-67 | names that pass the size check are filed as one iff, without spaces, they agree up to the first delimiter; names without spaces and delimiters stay distinct |
| Names.AcceptedNamesCanCollide | client.py:64-67 | two different accepted names that are filed as one |
| Names.LongNamesCollide | client.py:64-67 | without the size check two names free of delimiters can be filed as one |
| Witnesses.UnnamedFileHidesAnother | server/servidor.c:472-507 | a run clients can cause after which a listing hides a named file behind one without a name |
| Witnesses.NameOfSeveralOctetsHidesPeer | client.py:37-44 | a run clients can cause after which a lookup raises although the directory knows the peer |

## Left out

- Pointers in interleavings: Threads works on the list with positions for cursors; that the pointers follow is proved in
  LinkedList for one thread at a time, which the mutex guarantees.
- Handlers sharing `buffer` (server/servidor.c:30): the code does not isolate concurrent parsing, so Server, Traffic and
  EndToEnd take one handler at a time. After an aborted read the buffer's content is arbitrary.
- Server.TreatRequest: what has gone out when a write fails in the middle of a reply is not described beyond
  Lines.Socket.SendMessage.
- Failing `malloc` in `list_users`, `list_content` and for a handler's own buffers: the first two dereference NULL, the
  last ends the thread.
- Freeing of response chains and handler buffers: the code does not free them on every path, so conservation is claimed
  of the records of the directory only.
- `destroy_list` and `recvMessage`: nothing calls them.
- Client.ReadResponse: at end of file the original loops for ever on empty reads; the model reports Waits there.
- Strings.PyInt: numerals of one-octet characters only, which is all `read_response` can deliver.
- Client.Session: `_stop_flag`, the listening thread and its socket, except for whether the socket can be shut down.
- `getfile` after the lookup (when the lookup fails, its `finally` block fails too, since `socketC` is then unassigned,
  client.py:600), `listen_requests`, `leer_archivo`, `save_content`: file transfer between clients.
- The rest of the shell, printed texts and argument parsing: user interface.
- The RPC logger of server_rpc/ and the SOAP time service: neither touches the directory; the date is a field like any
  other, and its absence an exception.
- Setting up sockets and finding the server's address in `main`: calls to the operating system.

# Verified model of study-linux-kernel

A Dafny 4.11 model of the six programs of the repository that contain an algorithm or a protocol, with proofs of what they promise. `dafny verify dfyconfig.toml` checks everything; nothing here runs the C and C++ programs.

| module | models |
|---|---|
| `StringSplit`, `Trimming` | `splitstr` and `strip` |
| `HttpParser`, `HttpMessage`, `HttpRoundTrip` | the two request parsers, and requests printed as RFC 9112 (sections 2.1, 3 and 5) lays them out |
| `HttpResponse`, `Decimal` | `__make_http_response` and decimal text |
| `ResponseQueue`, `CString` | the worker thread of the HTTP server and its response list |
| `HashFunction`, `TableModel`, `HashTable` | the chained hash table, on the heap and as a map, and its cursor |
| `AddressKey`, `Chatroom` | the chat server: address keys, registration, broadcast |
| `ReadyList`, `EdgeLoop` | the growable ready list and the edge-triggered read loop |
| `BroadcastQueue` | the worker thread of the TCP broadcast server |
| `FdSet`, `Ordering` | the descriptor set of both select servers, in ascending order |
| `PipeBarrier` | the fork / close / read-EOF barrier |

Code that changes state is a class or a method with loops, proved against a specification function; the lemmas are about those functions. The edge-triggered loop and the pipe barrier are interleavings of several processes, so they are step systems with lemmas over all runs.

## What is proved

- `splitstr` on every source, every non-empty separator and every budget, overlapping occurrences and the wrapping `size_t` subtraction included. It is the usual leftmost split (a separator flush with the end is not split off), and joining the pieces restores the source, exactly when no two of the occurrences it uses overlap. It is a leftmost split on all sources exactly when the separator has no proper prefix that is also its suffix; `"\r\n\r\n"` has one (`BlankLineOverlaps`).
- `strip` trims both ends, which is what its comment promises, exactly when the text does not hold a single non-blank or holds one that is last and not first. A text such as `"a"` becomes empty (`LoneCharacterIsLost`). The model follows the code.
- What the parser makes of a well-formed request is exact whatever its method token, its fields and its body (`RequestReads`), refusals with partly filled fields included. A token counts as GET or POST when it begins with those letters in either case, and as unknown otherwise (`DeleteIsUnknown`). The request comes back from the parser with exactly its method, resource, query, version, first Host value and body if and only if: there is no empty query, there are at least two header lines (one if there is no body), no header value is empty, the first Host field is spelt `Host` or one so spelt repeats its value (names are case-insensitive in HTTP, but the parser looks up one spelling: `LowerCaseHostIsLost`), a one-character Host value does not follow its colon directly, and the body neither starts with CRLF (unless it is only CRLF) nor holds an empty line before its end. `LeadingCrlfIsLost` is a request whose body is lost.
- In both servers every message is accounted for over all runs, whatever `select` reports and wherever sends fail, and each pass has an exact result: per descriptor number for the response list, per message for the broadcast queue. A writable connection is sent everything queued for it exactly when no send to it fails, and every send of a broadcast message carries the line it was stamped with.
- A response is kept under the descriptor number its request was read from, so the order holds per number. Over one connection, what is sent and then queued is what was queued at its accept and then the answers to its own requests (`ConnectionAccounts`). It is sent answers to its own requests only, in order, exactly when nothing was queued at its accept or nothing is sent; otherwise the first response it gets is the oldest left over. Nothing is queued at the accept exactly when the pass that closed the number before sent everything queued for it and read nothing (`NextHolderExactly`). `LeftOverIsSent` is a run in which a client that sent no request is sent a former client's response.
- A broadcast pass sends every message to the first clients in descriptor order, as many as it has sends left, exactly when no send of the pass fails. Over several such passes, whatever `select` reports in each, a message stamped for n clients goes to exactly the first n writable clients of all those passes together; so it reaches each client it was stamped for once exactly when those n do not repeat and were all connected at the stamping. In every state of the worker this holds of every dropped message none of whose passes had a failing send (`Worker.DroppedAfterOnce`). `TwiceInTwoPasses` is a run in which one of two clients gets the message twice and the other never.
- The hash table refines a map over any sequence of puts, its chains are acyclic and disjoint, and the cursor visits each entry once. The wrapping 32-bit hash equals the exact polynomial modulo 1024.
- In the chat server the table, the descriptor array and the counter agree in every state, and every datagram is sent to every registered client exactly once, to the address its key was printed from; a receiver can read the sender's address and the payload back from it.
- The edge-triggered loop never sleeps on unread data, goes back to `epoll_wait` after at most one read of four bytes, and with a silent writer drains the pipe within a linear number of steps. `remove_file_descriptor` keeps survivors at their old index, so it deletes exactly what was asked for only when the descriptor is in the last entry and in no other; the loop, with its one descriptor, never meets another case.
- The parent of the pipe barrier passes its read only after every child has woken up and closed its write end, or has died, no state deadlocks, and every failure-free run has exactly 5n + 3 events.

## Model

| member | source | states |
|---|---|---|
| StringSplit.SplitStr | study-linux-kernel/socket/socket-server-http-select.cpp:109-133 | the loop appends exactly the pieces between the cuts the window uses, and returns the length of the vector |
| StringSplit.CutsAreTheOccurrences | study-linux-kernel/socket/socket-server-http-select.cpp:113-129 | the cuts are exactly the occurrences that are followed by at least one character, in ascending order |
| StringSplit.WindowIsLeftmostExactly | study-linux-kernel/socket/socket-server-http-select.cpp:109-133 | for every source, separator and budget, the window yields the recursive leftmost split if and only if the cuts it uses do not overlap |
| StringSplit.LeftmostForEverySource | study-linux-kernel/socket/socket-server-http-select.cpp:119-127 | the window is a leftmost split on all sources and budgets if and only if the separator does not overlap itself |
| StringSplit.OverlapCounterexample | study-linux-kernel/socket/socket-server-http-select.cpp:119-127 | for every self-overlapping separator, two copies laid over each other and one more character are split differently |
| StringSplit.JoinRestoresExactly | study-linux-kernel/socket/socket-server-http-select.cpp:109-133 | joining the pieces with the separator restores the source if and only if the cuts used do not overlap |
| StringSplit.SplitJoinIdentity | study-linux-kernel/socket/socket-server-http-select.cpp:109-133 | with cuts that do not overlap: join restores the source, a budget n gives at most n + 1 pieces, and no piece but the last contains the separator |
| Trimming.Strip | study-linux-kernel/socket/socket-server-http-select.cpp:63-107 | both modes against their specifications, the int and size_t arithmetic of the trimming mode included |
| Trimming.DropsBlanksOnly | study-linux-kernel/socket/socket-server-http-select.cpp:92-104 | the other mode drops the four blanks and keeps everything else, in order |
| Trimming.StripTrimsExactly | study-linux-kernel/socket/socket-server-http-select.cpp:70-91 | the trimming mode trims both ends if and only if there is not exactly one non-blank, or it is last and not first |
| Trimming.LoneCharacterIsLost | study-linux-kernel/socket/socket-server-http-select.cpp:72-90 | the text "a" is stripped to nothing |
| HttpParser.ParseHttpRequestHeader | study-linux-kernel/socket/socket-server-http-select.cpp:135-199 | result and header for every head, failures with partly filled headers included |
| HttpParser.ParseFields | study-linux-kernel/socket/socket-server-http-select.cpp:178-198 | the field loop: blank lines skipped, a line without a splitting colon fails, the first value of a name is kept, the host looked up |
| HttpParser.ParseHttpRequest | study-linux-kernel/socket/socket-server-http-select.cpp:201-222 | result and request for every text; the body is set only when the text splits into two parts |
| HttpRoundTrip.RequestReads | study-linux-kernel/socket/socket-server-http-select.cpp:63-222 | for every well-formed request, any method token included, what parsing its text returns and stores: the verdict, the method by its first letters, the target, the version, the host found, and a body only in one piece |
| HttpRoundTrip.MethodByLetters | study-linux-kernel/socket/socket-server-http-select.cpp:155-165 | a token is a GET or a POST exactly when it begins with these letters, each in either case, and unknown otherwise |
| HttpRoundTrip.DeleteIsUnknown | study-linux-kernel/socket/socket-server-http-select.cpp:155-165 | a DELETE is parsed with an unknown method, and "get" as a GET |
| HttpRoundTrip.RequestRoundTrip | study-linux-kernel/socket/socket-server-http-select.cpp:63-222 | for every well-formed request, parsing its text succeeds with exactly its method, resource, query, version, first Host value (the name in any case) and body if and only if the request meets the conditions of `Parsable` |
| HttpRoundTrip.LeadingCrlfIsLost | study-linux-kernel/socket/socket-server-http-select.cpp:201-222 | a well-formed POST whose body starts with CRLF comes back with an empty body |
| HttpRoundTrip.LowerCaseHostIsLost | study-linux-kernel/socket/socket-server-http-select.cpp:178-196 | a well-formed GET whose host field is spelt "host" comes back without a host |
| HttpRoundTrip.HeaderParses | study-linux-kernel/socket/socket-server-http-select.cpp:135-199 | what the header parser returns and stores, on the lines of a head with or without the line left over when there is no body |
| HttpRoundTrip.FieldsParse | study-linux-kernel/socket/socket-server-http-select.cpp:178-194 | the field loop reads every printed header block, whatever blanks surround the values, if and only if no value is empty |
| HttpRoundTrip.FieldParses | study-linux-kernel/socket/socket-server-http-select.cpp:181-193 | one printed header line gives its name and value; a one-character name, or such a value right after the colon, is lost |
| HttpMessage.SplitMessage | study-linux-kernel/socket/socket-server-http-select.cpp:208-219 | the first part of a message is its head, and there are two parts, the second the body, if and only if the body neither starts with CRLF nor holds an inner empty line |
| HttpMessage.BlankLineOverlaps | study-linux-kernel/socket/socket-server-http-select.cpp:209 | the separator of head and body overlaps itself |
| HttpMessage.SplitBlock | study-linux-kernel/socket/socket-server-http-select.cpp:144-148 | splitting CRLF-ended lines followed by more text gives those lines and the split of the rest |
| HttpResponse.ResponseFraming | study-linux-kernel/socket/socket-server-http-select.cpp:247-269 | splitting a response once at the empty line gives its head and its content, or the whole response when the content is empty, for every status and every content type without CR and LF |
| HttpResponse.HeadParses | study-linux-kernel/socket/socket-server-http-select.cpp:247-269 | the head splits into its status line and four lines that this program's own field loop reads back as Server, Content-Type, Content-Length (the content's length in decimal) and Connection |
| HttpResponse.StatusLineParses | study-linux-kernel/socket/socket-server-http-select.cpp:224-252 | cut at its blanks, the status line gives the version, the code in decimal and the description of that code |
| Decimal.DigitsRoundTrip | study-linux-kernel/socket/socket-server-http-select.cpp:251-261 | printing a number in decimal gives digits that stand for that number |
| ResponseQueue.Worker.Pass | study-linux-kernel/socket/socket-server-http-select.cpp:354-410 | one pass, exactly: what is sent, read and queued for each descriptor, the request text cut at its first NUL as the parser sees it, which descriptors are closed, and that no other is touched; logs only grow and the accounting invariant is kept |
| ResponseQueue.Worker.SendQueued | study-linux-kernel/socket/socket-server-http-select.cpp:358-380 | the queued responses of one descriptor leave in order until a send fails, and are erased; no other descriptor's are touched |
| ResponseQueue.Worker.Serve | study-linux-kernel/socket/socket-server-http-select.cpp:355-408 | sending, then receiving, parsing and queueing the response, for one descriptor, and whether it is closed |
| ResponseQueue.Worker.Accept | study-linux-kernel/socket/socket-server-http-select.cpp:478-480 | a descriptor is added between passes and the invariant is kept |
| ResponseQueue.RequestIsAnswered | study-linux-kernel/socket/socket-server-http-select.cpp:384-399 | a well-formed request without NUL, whatever follows behind a NUL, is answered from exactly what the parser reads back of it; one that meets the parser's conditions, as it was sent |
| ResponseQueue.ExchangedInFull | study-linux-kernel/socket/socket-server-http-select.cpp:355-400 | the front of the queue is sent, as much as is taken before a send fails and nothing if not writable, and the answer to what is read is queued behind the rest |
| ResponseQueue.EmptiedExactly | study-linux-kernel/socket/socket-server-http-select.cpp:358-380 | a writable descriptor is sent its whole queue if and only if no send to it fails, and else the front that was taken |
| ResponseQueue.ClosedExactly | study-linux-kernel/socket/socket-server-http-select.cpp:377-408 | a descriptor is closed if and only if something was sent to it or its receive failed |
| ResponseQueue.ExchangeKeepsOrder | study-linux-kernel/socket/socket-server-http-select.cpp:358-400 | after an exchange, responses sent followed by responses queued are the answers to the requests read, in order |
| ResponseQueue.NothingLeftBehind | study-linux-kernel/socket/socket-server-http-select.cpp:358-408 | a pass leaves nothing queued for a descriptor number if and only if everything queued was sent and nothing was read |
| ResponseQueue.ConnectionAccounts | study-linux-kernel/socket/socket-server-http-select.cpp:358-400 | between any two states of a run, what was sent on a descriptor and then what is queued for it at the end are what was queued at the start and then the answers to the requests read in between |
| ResponseQueue.OwnAnswersExactly | study-linux-kernel/socket/socket-server-http-select.cpp:358-400 | a connection is sent answers to its own requests only, a prefix of them, if and only if nothing was queued for its number at its accept or nothing is sent; otherwise its first response is the oldest left over |
| ResponseQueue.NextHolderExactly | study-linux-kernel/socket/socket-server-http-select.cpp:358-408 | the next connection with a closed number is sent only its own answers if and only if the closing pass sent everything queued and read nothing, or nothing is sent to it |
| ResponseQueue.LeftOverIsSent | study-linux-kernel/socket/socket-server-http-select.cpp:358-408 | a run in which a new client without a request is sent the response to a former client's request |
| ResponseQueue.Worker.SentInOrder | study-linux-kernel/socket/socket-server-http-select.cpp:354-409 | in every valid state of the worker, the k-th response sent on a descriptor number is the answer to the k-th request read from it, the request being one in the worker's log |
| HashFunction.HashFunc | study-linux-kernel/dll/common_hashtable_dll.c:9-17 | the wrapping loop and the final remainder give the exact base-31 polynomial of the signed characters modulo 1024 |
| HashFunction.CharCode | study-linux-kernel/dll/common_hashtable_dll.c:12-14 | a character counts as its signed byte: in [-128, 128), congruent modulo 256 |
| HashFunction.Horner | study-linux-kernel/dll/common_hashtable_dll.c:12-15 | appending a character multiplies the polynomial by 31 and adds the character |
| TableModel.RunRefinesLastValue | study-linux-kernel/dll/common_hashtable_dll.c:32-73 | after any sequence of puts, every entry is in its hash's bucket, no key occurs twice, and get returns the value put last, or NULL |
| TableModel.PutIsUpdate | study-linux-kernel/dll/common_hashtable_dll.c:40-61 | a put is an update of the map the table stands for |
| TableModel.GetIsLookup | study-linux-kernel/dll/common_hashtable_dll.c:63-73 | a get is a lookup in that map |
| TableModel.ContentsAreEntries | study-linux-kernel/dll/common_hashtable_dll.c:89-131 | the flattened table has each binding of the map once and nothing else |
| HashTable.Table.constructor | study-linux-kernel/dll/common_hashtable_dll.c:32-37 | the initial table is valid and empty |
| HashTable.Table.NodesApart | study-linux-kernel/dll/common_hashtable_dll.c:40-61 | no node occurs twice, in one chain or in two: chains are acyclic and pairwise disjoint |
| HashTable.Table.HashTablePut | study-linux-kernel/dll/common_hashtable_dll.c:40-61 | the heap table stays valid (acyclic, disjoint chains) and holds exactly the put result |
| HashTable.Table.HashTableGet | study-linux-kernel/dll/common_hashtable_dll.c:63-73 | the walk along the chain returns the value of the key |
| HashTable.Table.NextNode | study-linux-kernel/dll/common_hashtable_dll.c:75-87 | the first non-empty bucket from the start index on, or -1 when there is none |
| HashTable.Table.Begin | study-linux-kernel/dll/common_hashtable_dll.c:89-98 | the cursor stands before the first entry |
| HashTable.Table.Next | study-linux-kernel/dll/common_hashtable_dll.c:110-124 | the cursor moves on by exactly one entry, across empty buckets and past the end |
| HashTable.Table.CurrentValue | study-linux-kernel/dll/common_hashtable_dll.c:126-131 | key and value of the entry the cursor stands before |
| HashTable.Table.Enumerate | study-linux-kernel/dll/common_hashtable_dll.c:89-131 | begin, then next until end, terminates and visits every entry once, in bucket and chain order |
| AddressKey.KeyFits | study-linux-kernel/socket/chatroom_server.c:84-85 | every printed address has at most 21 characters and is not cut by the 32-byte buffer |
| AddressKey.KeyExample | study-linux-kernel/socket/chatroom_server.c:81-85 | the printed form of one address and its key |
| AddressKey.KeyRoundTrip | study-linux-kernel/socket/chatroom_server.c:82-117 | cutting the key at its last colon and parsing both halves gives the address back |
| AddressKey.KeysAreDistinct | study-linux-kernel/socket/chatroom_server.c:84-86 | two addresses have the same key only if they are equal |
| Chatroom.Server.Receive | study-linux-kernel/socket/chatroom_server.c:73-123 | a new sender is registered while fewer than 100 are; a text from which sender and payload can be read back then goes to every registered client exactly once and to nobody else; table, array and counter keep agreeing |
| Chatroom.ChatTextReadsBack | study-linux-kernel/socket/chatroom_server.c:102-104 | cut at its first '>', a text gives the sender's address, and after "> " the payload up to its first NUL |
| Chatroom.Server.Register | study-linux-kernel/socket/chatroom_server.c:82-100 | the registration step on table, array and counter |
| Chatroom.Server.Broadcast | study-linux-kernel/socket/chatroom_server.c:105-122 | one datagram for each table entry, in cursor order, to the address parsed from its key |
| Chatroom.EveryMemberOnce | study-linux-kernel/socket/chatroom_server.c:105-122 | a walk through the table, in whatever bucket order, sends to each registered client once |
| Chatroom.TableAgrees | study-linux-kernel/socket/chatroom_server.c:86-99 | the table has as many keys as there are clients, and each client's key maps to its descriptor and each key belongs to a client |
| Chatroom.LookupFindsMembers | study-linux-kernel/socket/chatroom_server.c:86 | the lookup is not NULL exactly for registered addresses |
| ReadyList.ReadyFds.AddFdToList | study-linux-kernel/io-model/terminal-io-epoll-et.c:44-72 | the list gains the event unless its descriptor is present; descriptors stay distinct, the capacity zero or a power of two, and regrowth has copied less than twice the successful adds |
| ReadyList.ReadyFds.Grow | study-linux-kernel/io-model/terminal-io-epoll-et.c:54-68 | the capacity doubles, to 2 at first, and every entry keeps its place |
| ReadyList.ReadyFds.FdExistList | study-linux-kernel/io-model/terminal-io-epoll-et.c:32-42 | whether the descriptor is in the list |
| ReadyList.ReadyFds.RemoveFileDescriptor | study-linux-kernel/io-model/terminal-io-epoll-et.c:87-115 | on every list, survivors stay at their old index, every entry of the descriptor becomes what the new block held there, the last place falls off; size, cursor and result |
| ReadyList.RemovalIsExactForLast | study-linux-kernel/io-model/terminal-io-epoll-et.c:98-110 | on every list with the descriptor, removal deletes exactly its entries whatever the new block holds if and only if the last entry has the descriptor and no other does |
| EdgeLoop.NoLostWakeup | study-linux-kernel/io-model/terminal-io-epoll-et.c:180-218 | in every reachable state of writer, edge and parent, output and unread bytes make up what was written, and a parent blocked with timeout -1 has printed all of it |
| EdgeLoop.OneReadPerTurn | study-linux-kernel/io-model/terminal-io-epoll-et.c:191-218 | from every reachable state in which the parent calls epoll_wait without blocking, it alone calls it again within six steps, having printed exactly the next four unread bytes or all if fewer, with the list and timeout that follow |
| EdgeLoop.FourBytesPerTurn | study-linux-kernel/io-model/terminal-io-epoll-et.c:191-218 | in every run, however the writer interleaves, at most four bytes are printed for each return to epoll_wait |
| EdgeLoop.StepKeepsInv | study-linux-kernel/io-model/terminal-io-epoll-et.c:191-218 | every step of the writer or the parent keeps unread data noticed: by an edge, a fetched event or the ready list |
| EdgeLoop.ParentMakesProgress | study-linux-kernel/io-model/terminal-io-epoll-et.c:191-218 | every step of the parent lowers a measure of the unread bytes and its position |
| EdgeLoop.SilentWriterDrains | study-linux-kernel/io-model/terminal-io-epoll-et.c:191-218 | from every reachable state with n unread bytes, a silent writer lets the parent output everything, empty its list and return to timeout -1 within 5 * ceil(n / 4) + 14 steps |
| BroadcastQueue.Worker.Pass | study-linux-kernel/socket/socket-server-tcp-select.cpp:32-114 | one turn, exactly: the line read queued with the number of clients, what every message's count, recipients and sent texts become under the given failures, which messages clean-up drops, which clients leave; the balance of every message is kept |
| BroadcastQueue.Worker.SendAll | study-linux-kernel/socket/socket-server-tcp-select.cpp:67-86 | one client gets, from the back, the live messages it takes before a send fails |
| BroadcastQueue.NewestFirst | study-linux-kernel/socket/socket-server-tcp-select.cpp:67-86 | a client gets as many messages as it takes and as are live, and none before every newer live one |
| BroadcastQueue.Worker.EverySendIsTheLine | study-linux-kernel/socket/socket-server-tcp-select.cpp:57-86 | in every valid state, each send of a message, dropped or queued, carried the line it was stamped with, up to its first NUL, and the queued text is that line |
| BroadcastQueue.LineIsStamped | study-linux-kernel/socket/socket-server-tcp-select.cpp:57-61 | after a turn that reads a line, it stands, with the clients connected then, among the records of the messages queued or just dropped |
| BroadcastQueue.OnlyStamps | study-linux-kernel/socket/socket-server-tcp-select.cpp:57-114 | when nobody is writable, a turn only puts the line read behind the other messages, with the number of clients |
| BroadcastQueue.NoneFailsExactly | study-linux-kernel/socket/socket-server-tcp-select.cpp:64-107 | no send of a pass fails if and only if every writable client takes all that is live at its turn |
| BroadcastQueue.WritableAscends | study-linux-kernel/socket/socket-server-tcp-select.cpp:64-66 | the clients offered anything are the connected ones select reports, in descriptor order |
| BroadcastQueue.Worker.OfferAll | study-linux-kernel/socket/socket-server-tcp-select.cpp:64-107 | the loop over the clients, with erasure in place |
| BroadcastQueue.Worker.CleanUp | study-linux-kernel/socket/socket-server-tcp-select.cpp:109-114 | the erasing loop leaves the messages, traces and dropped traces that `Kept` and `Selected` name |
| BroadcastQueue.CleanUpPlaces | study-linux-kernel/socket/socket-server-tcp-select.cpp:109-114 | clean-up keeps exactly the messages with sends left, each beside its trace and in order, and moves the traces of all others to the dropped ones |
| BroadcastQueue.PassConserves | study-linux-kernel/socket/socket-server-tcp-select.cpp:64-107 | with any failures, sends made plus remaining count is the count before, and the count never goes below zero |
| BroadcastQueue.RecipientsAscend | study-linux-kernel/socket/socket-server-tcp-select.cpp:65-107 | in a pass a message reaches each client at most once, in descriptor order |
| BroadcastQueue.FailureFreePass | study-linux-kernel/socket/socket-server-tcp-select.cpp:65-107 | when no send of the pass fails and k clients are writable, a message with count r goes to exactly the first min(r, k) of them and is left with r - min(r, k) |
| BroadcastQueue.FailureFreeExactly | study-linux-kernel/socket/socket-server-tcp-select.cpp:65-107 | every message goes to the first min(r, k) writable clients if and only if no send of the pass fails |
| BroadcastQueue.FullBroadcast | study-linux-kernel/socket/socket-server-tcp-select.cpp:57-114 | when every client is writable and no send fails, a message stamped with their number goes to each once, has nothing left, and its trace is among those clean-up drops |
| BroadcastQueue.ChainSends | study-linux-kernel/socket/socket-server-tcp-select.cpp:57-114 | over any number of passes without a failing send, a message stamped with n goes to exactly the first n writable clients of all the passes together, and the rest of n is left |
| BroadcastQueue.OnceOverChain | study-linux-kernel/socket/socket-server-tcp-select.cpp:57-114 | over such passes it reaches each client it was stamped for once, and nobody else, if and only if at least n clients were writable and the first n of them do not repeat and were stamped for |
| BroadcastQueue.Worker.DroppedAfterOnce | study-linux-kernel/socket/socket-server-tcp-select.cpp:57-114 | in every valid state of the worker, the same if and only if for each dropped message that met no failing send |
| BroadcastQueue.TwiceAndNever | study-linux-kernel/socket/socket-server-tcp-select.cpp:57-114 | two clients, one writable in two passes: over this chain of passes it gets the message twice and the other never |
| BroadcastQueue.TwiceInTwoPasses | study-linux-kernel/socket/socket-server-tcp-select.cpp:57-114 | the worker in that run: both clients stay connected, and the message is dropped having gone to the first of them twice |
| BroadcastQueue.CleanUpBalances | study-linux-kernel/socket/socket-server-tcp-select.cpp:109-114 | a dropped message was sent exactly as often as it was stamped |
| PipeBarrier.BarrierHolds | study-linux-kernel/ipc-pipe/multiprocess-sync.cpp:50-97 | for any number of children and any interleaving, the parent's read can return exactly when all n children have closed their write ends, and once it has returned they all have |
| PipeBarrier.BarrierInEvents | study-linux-kernel/ipc-pipe/multiprocess-sync.cpp:50-97 | in every run, before the event in which the parent's read returns, every one of the n children has woken up and closed its write end, or has died |
| PipeBarrier.NextKeepsInv | study-linux-kernel/ipc-pipe/multiprocess-sync.cpp:50-97 | the kernel's counts of open ends are the parent's plus one per child that holds one |
| PipeBarrier.NoDeadlock | study-linux-kernel/ipc-pipe/multiprocess-sync.cpp:50-97 | a reachable state is over if and only if nothing but a failure can happen |
| PipeBarrier.NextLowersMeasure | study-linux-kernel/ipc-pipe/multiprocess-sync.cpp:50-97 | every event lowers the measure, and one that is no failure by exactly one |
| PipeBarrier.EveryRunFinishes | study-linux-kernel/ipc-pipe/multiprocess-sync.cpp:50-100 | no run is longer than 5n + 3 events; a run without failures is over exactly when it has that many, and the parent has then succeeded |

## Left out

- Sockets, `select`, `epoll_wait`, `fork`, `recv` and `send` themselves: their outcomes are parameters or steps, and readiness is any subset of the descriptors, so the `maxfd` computation is not part of the model.
- File serving and the fixed-size HTML bodies of `make_http_response`: in the worker it is any function from a descriptor and its parsed request to a response text.
- StringSplit.SplitStr: requires a non-empty separator, because the source pops an empty deque for an empty one, and a source shorter than 2^64.
- Trimming.Strip: requires at most 2^31 - 1 characters, because the source keeps positions in an `int`; the parsers inherit this.
- ResponseQueue.Worker.Pass: a receive that fills the buffer and leaves no terminator is not modelled, a short send counts as a send, and response texts hold no NUL.
- HashTable.Table.HashTablePut: keys are strings without a bound of 128 characters and values are integers with 0 as NULL; allocation succeeds.
- HashTable.Table.Enumerate: freeing the cursor is not modelled, and the table does not change during a traversal.
- Chatroom.Server.Receive: the new socket is a fresh positive descriptor, a datagram leaves room for the terminator, and errors that end the program are not modelled; the loop that only prints what the per-client sockets receive is left out.
- AddressKey.KeyRoundTrip: `inet_addr` and `atoi` are modelled on decimal text only; printed addresses never have a leading zero or a sign.
- ReadyList.ReadyFds.AddFdToList: capacities beyond `int` and failing allocations are not modelled; `get_cur_file_descriptor` is never called and is left out.
- EdgeLoop.NoLostWakeup: the write end stays open (a zero-byte read is not EAGAIN, so an ended pipe would keep its entry for ever), and the writer's own read from the terminal is left out.
- BroadcastQueue.Worker.Pass: clients are accepted between passes; one accepted while a pass is under way is not in its descriptor sets and would be served by the next; a line is one read of any length, without the NULs the source pads it with.
- PipeBarrier.BarrierHolds: sleep times are not modelled, a child may wake at any moment.
- The remaining programs of the repository (signal, process, inotify and copy demos, echo servers and clients): input/output with few properties of their own.

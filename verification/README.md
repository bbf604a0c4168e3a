# Peer-to-peer file registry, its peers and the tag counter

This project models, and proves properties of, three programs that share one
protocol family:

- the **registry server** (`program_04/registry.c`): a fixed table of client
  slots, a socket set and counters, published files in heap blocks, and a select
  loop that accepts clients and serves JOIN, PUBLISH and SEARCH;
- the **peers** (`program_03`): the Rust and C packers of PUBLISH, the SEARCH
  exchange, the listener that parses a FETCH request arriving in pieces and sends
  a file in chunks, the two receivers, and the command loop with its listener
  threads;
- the **tag counter** (`program_01/h1-counter.c`): a substring count over
  fixed-size chunks of a stream.

## How it is organised

| file | content |
|---|---|
| `Bytes.dfy`, `Wire.dfy` | byte strings, network order, C strings; the PUBLISH grammar and its parser |
| `RegistryModel.dfy` | the registry as a state machine over kernel events; runs of it |
| `RegistryInvariants.dfy` | what every run keeps: socket bookkeeping and distinct ids |
| `RegistryHistory.dfy` | a description of each connection by its message history, refined by the slot table |
| `RegistrySearch.dfy` | SEARCH answers against brute force and history; replies in step with requests |
| `RegistryWire.dfy` | what each message does and sends back, told in its bytes |
| `RegistryRounds.dfy` | one round of the select loop |
| `RegistryLog.dfy` | the kernel's calls behind a run, which determine it; the calls of one round |
| `RegistryWitness.dfy` | runs, from the start, that end where the intent is not met |
| `CHeap.dfy`, `RegistryMemory.dfy` | heap blocks, who owns them, lists under construction |
| `Kernel.dfy`, `RegistryServer.dfy` | the operating system, and the server class with the source's handlers and loops |
| `Streams.dfy` | a byte stream that arrives in arbitrary pieces |
| `Publish.dfy`, `Search.dfy` | both packers and the PUBLISH round trip; the SEARCH session |
| `FetchRequest.dfy`, `Paths.dfy` | the fragmented request parser; the requested name as a path |
| `FetchTransfer.dfy` | sender, receivers and the whole exchange |
| `PeerThreads.dfy` | the command loop and its listener threads, all interleavings |
| `TagCounter.dfy` | the count and the chunked read loop |

The server is a class whose fields are those of `struct server`; the client
table is an array updated in place, a pointer into it is an index, and file
lists live in a heap of addressed blocks where freeing needs a live block. Each
handler is proved against a function of the state machine. The kernel keeps a
ghost log of what it reported: each `accept` with its descriptor and address,
each `recv` with the bytes it wrote and the rest of the buffer, each `close` and
`pselect` with its outcome, and the memory that was available. The server's
ghost run is exactly the one that this log stands for, and the bytes on each
socket are the replies of that run, so a theorem about runs is a theorem about
what the kernel delivered. The kernel's answers are arbitrary within its
contracts: `accept` returns any descriptor that is not open, `recv` any bytes,
`send` any non-empty part or a failure, `close` success or failure, any string
allocation may fail, and `pselect` fails when a watched descriptor is not open, as
POSIX has it. The peers' streams split their data in any way, and
their writes may fail part of the way.

## Where the code departs from its intent

The model does what the code does, and can be told to do what was meant:
`RegistryModel.Fixes` has a flag for each of the first four departures below,
all off in the code as written, and `FetchTransfer.Slice` one for the first
chunk of a file. The exact conditions on events and runs hold under any setting
of the flags; a theorem that needs a repair names it. For each departure there is
an input on which the code as written fails and a lemma that says exactly when it
does not.

| departure | fails on | exact condition |
|---|---|---|
| a refused connection is registered after its socket is closed (`program_04/registry.c:528-535`); the next pselect then fails and the server shuts down | `RefusedSocketIsRegistered`, `Serve` | `StepKeepsSocketInvExactly`, for whole runs `SocketInvThroughoutExactly` |
| JOIN decides at the first active slot (`program_04/registry.c:639-658`) | `FirstSlotJoinDuplicates` | `FirstSlotJoinExactly`, for whole runs `IdsThroughoutExactly` (ids), `RefinesThroughoutExactly` (history) |
| a freed slot keeps its type (`program_04/registry.c:496-503`) | `ReusedSlotIsJoined` | `StepKeepsIdsExactly`, `AcceptRefinesExactly`, for whole runs `IdsThroughoutExactly`, `RefinesThroughoutExactly` |
| an error reply does not end the request (`program_04/registry.c:838-856`) | `EmptySearchIsAnsweredTwice` | `OneReplyExactly` |
| stored strings have no room for their NUL (`program_04/registry.c:734`), and every accepted string is printed (`program_04/registry.c:749`) | every accepted non-empty list, by `ListKeepsNulExactly` with nothing spared | `ListKeepsNulExactly`; the comparison loop of a search looks at the NUL exactly when it matches (`TextMatches`) |
| a SEARCH without a NUL is printed and looked for (`program_04/registry.c:849-861`, `883`, `902`) | `QueryWithoutNul` | `QueryStaysInsideExactly` |
| a stored prefix of the query matches (`program_04/registry.c:799-816`) | `PrefixAnswersForLongerName` | `ExactOwnerExactly` |
| the first chunk of a file is one byte short (`program_03/src/listener.rs:139`) | every non-empty file | `FetchFile` |
| bytes after the terminator of a FETCH are judged by the split (`program_03/src/listener.rs:57-65`) | every name of at most 99 bytes | `ParseExactly`, `SplitsAgreeExactly` |
| a second REGISTER drops the first listener's handle (`program_03/src/main.rs:206-221`) | `QuickExitState` | `WaitsForAllExactly` |
| occurrences across the boundary of two filled chunks are lost (`program_01/h1-counter.c:183-208`) | every occurrence that straddles a boundary | `FilledTotalExactly`, for the program's needle `TagTotalsExactly` |
| the inner loop of the count skips text (`program_01/h1-counter.c:274-289`) | `DoubledBracketIsMissed`, `AdjacentTagIsMissed` | `CountIsExactly`, for a needle whose first byte does not recur, as in "<h1>" |
| without filling, each read is counted by itself (`program_01/h1-counter.c:212-237`) | `SplitTagIsMissed` | `UnfilledTotalExactly`, for the program's needle `TagTotalsExactly` |

The room for the NUL of stored strings is the one departure that is always
repaired in the model, since reading past a block has no meaning to model.

## Model

| member | source | states |
|---|---|---|
| RegistryInvariants.StepKeepsSocketInvExactly | program_04/registry.c:515-587 | one accept, receive or close keeps slots, `all_socks`, `active_clients`, `max_socket` and the open descriptors consistent, if and only if it is not a refusal at the limit that closes its socket without returning; that leaves a closed descriptor watched |
| RegistryInvariants.ReachableSocketInv | program_04/registry.c:318-326 | in every state reached without such a refusal, and so in all with the returning one, the bookkeeping invariant holds: pairwise distinct open sockets, `active_clients` equal to the number of active slots and below `max_conn`, `max_socket` a bound |
| RegistryInvariants.SocketInvThroughoutExactly | program_04/registry.c:515-587 | over every run, under any repairs, the bookkeeping holds throughout if and only if no refused connection is registered |
| RegistryInvariants.WatchedSockets | program_04/registry.c:318-324 | under the invariant, `all_socks` is the listener plus exactly the sockets of active slots |
| RegistryInvariants.ReachableBound | program_04/registry.c:326-351 | in every state at all `max_socket` covers what is watched, and is the listener or a descriptor that accept has returned |
| RegistryInvariants.FirstSlotJoinExactly | program_04/registry.c:622-660 | with the scan that stops at the first active slot, a JOIN keeps ids distinct if and only if it is refused there or no other joined client has the id |
| RegistryInvariants.StepKeepsIdsExactly | program_04/registry.c:496-661 | under any repairs, a step keeps the ids of joined clients distinct if and only if it neither puts a client into the slot of a joined one while a joined client has id 0, nor accepts a JOIN for the id of another joined client |
| RegistryInvariants.IdsThroughoutExactly | program_04/registry.c:496-661 | over every run, under any repairs, ids stay distinct throughout if and only if every event satisfies that |
| RegistryInvariants.ReachableIds | program_04/registry.c:609-661 | in every reachable state joined live clients have pairwise distinct ids, through rejoining, disconnects and reuse of slots, with the full scan and the reset type |
| RegistryHistory.SlotsRefineHistory | program_04/registry.c:485-787 | for every clean run, and so for every run with the repairs, the slot table refines the description by history: an active slot for each live connection, its id from the latest accepted JOIN or 0, its names from the latest accepted PUBLISH, its address from its accept |
| RegistryHistory.AcceptRefinesExactly | program_04/registry.c:496-564 | under any repairs, an accept keeps the table a refinement of the history if and only if at the limit it registers nothing, and below it the slot it fills has type Unknown |
| RegistryHistory.MessageRefinesExactly | program_04/registry.c:609-787 | under any repairs, a message keeps it a refinement if and only if it is no JOIN that the table accepts although a client has the id, except from the joined client that already has it |
| RegistryHistory.RefinesThroughoutExactly | program_04/registry.c:485-787 | over every run, under any repairs, the table refines the history throughout if and only if every accept and JOIN is clean in that sense |
| RegistryHistory.TakenThroughout | program_04/registry.c:485-787 | over every run, under any repairs, until a refused connection is registered: the active slots are those of the live connections, each with the address of its accept, the id of the latest JOIN and the list of the latest PUBLISH since that accept which the registry took; nothing is left of an earlier occupant of the slot |
| RegistryHistory.LatestTaken | program_04/registry.c:763-769 | such a list is that of a PUBLISH of the connection itself, taken while its slot counted as joined, with no other taken one, accept or close of it since; without one it is empty |
| RegistryHistory.LatestTakenJoin | program_04/registry.c:655-656 | the id taken from a connection is that of a JOIN of its own that the registry took, with no other taken one, accept or close of it since, or 0 |
| RegistryHistory.LatestAccept | program_04/registry.c:515-561 | the address of a connection is that of its latest accept |
| RegistryHistory.LatestArrival | program_04/registry.c:515-587 | a descriptor is live if and only if its latest accept, with no close since, was below the limit of one less than the slots |
| RegistryHistory.LatestPublish | program_04/registry.c:763-769 | the names of a connection are those of an accepted PUBLISH of its own with no accepted PUBLISH, accept or close of it since, or empty when there is none |
| RegistryHistory.LatestJoin | program_04/registry.c:655-656 | the id of a connection is that of an accepted JOIN of its own with no accepted JOIN, accept or close of it since, or 0 when there is none |
| RegistryRounds.OtherRecordKept | program_04/registry.c:351-380 | under any repairs, an event of one descriptor leaves the record of every other watched open descriptor as it was |
| RegistryRounds.RoundAccepts | program_04/registry.c:351-380 | accepting in a round, refusals included, keeps the round's invariant: a descriptor that accept returns is not among those still to come |
| RegistryRounds.RoundHandles | program_04/registry.c:351-380 | under any repairs, handling a ready descriptor keeps the round's invariant: ready descriptors below it handled once each in ascending order on their own records, those above still watched with their records unchanged |
| RegistryRounds.RoundEnds | program_04/registry.c:351-380 | when the loop passes `max_socket`, the descriptors handled are exactly the snapshot without the listener, and all that is watched is open, with the bookkeeping intact, if and only if the round registered no refused connection |
| RegistrySearch.AnswerTells | program_04/registry.c:879-908 | a reply has ten bytes: the id most significant first, the address and the port of the owner, or ten zeros when there is none or it is not IPv4 |
| RegistrySearch.AnswerIsBruteForce | program_04/registry.c:858-908 | a reply is the computed one if and only if its bytes tell the lowest active slot holding a C-string prefix of the query, or are ten zeros when there is none or the address is not IPv4 |
| RegistrySearch.SearchAgreesWithTaken | program_04/registry.c:789-908 | over every run, under any repairs, until a refused connection is registered: the answer names a live connection whose latest list, of those the registry took, holds the query, with its id and address, in the lowest such slot; all zero if no live connection's does. Lists of departed connections and superseded ones never answer |
| RegistrySearch.TakenIsHistory | program_04/registry.c:609-787 | over every clean run, the lists and ids that the registry took are those that the messages alone say are accepted |
| RegistrySearch.SearchAgreesWithHistory | program_04/registry.c:789-908 | over every clean run, and so over every run with the repairs, the answer is decided by the messages alone: it names a live connection whose latest PUBLISH holds the query, with the id and address its history gives, in the lowest such slot; all zero if no live connection does |
| RegistrySearch.MatchIsEquality | program_04/registry.c:799-818 | when a list holds no proper prefix of the query, matching is equality |
| RegistrySearch.ExactOwnerExactly | program_04/registry.c:789-822 | the answering slot is the first one holding the very name if and only if no earlier slot holds a proper prefix of it |
| RegistryMemory.ListKeepsNulExactly | program_04/registry.c:669-753 | for every accepted PUBLISH, all its strings keep their NUL inside their blocks if and only if the list is empty or blocks have a byte more than the string; the source's have none |
| RegistryMemory.OwnedKeepNul | program_04/registry.c:734-744 | each string block that a client owns in the model is its name with one byte spared, so its NUL is inside |
| RegistrySearch.OneReplyExactly | program_04/registry.c:824-915 | ten bytes per answerable SEARCH and none otherwise, if and only if errors end the request or the request is well formed |
| RegistrySearch.QueryStaysInsideExactly | program_04/registry.c:832-908 | a request that is looked for has its NUL inside the receive buffer if and only if errors end the request or some byte after the command is 0 |
| RegistrySearch.SearchRequestAnswered | program_04/registry.c:830-915 | a terminated ASCII name of at most 98 bytes gets exactly the answer for it, whatever else the buffer holds and with or without the repair; a longer one gets no reply |
| RegistrySearch.RepliesInStep | program_04/registry.c:824-915 | over any session of searches by a client that has joined, amid any other events, as written and under any repairs, the bytes sent to it are the answers to its requests, ten bytes each, in order |
| RegistrySearch.ReadyKept | program_04/registry.c:351-661 | no event but its own close takes a joined client's descriptor or its joined state from it, under any repairs |
| RegistryWitness.RefusedSocketIsRegistered | program_04/registry.c:528-563 | with the refusal as written and a table of any size, as many accepts as there are slots leave a closed descriptor watched and the table full |
| RegistryWitness.FirstSlotJoinDuplicates | program_04/registry.c:639-658 | with the scan as written and a table of four or more slots, a run from the start in which a third client joins with the second one's id |
| RegistryWitness.EmptySearchIsAnsweredTwice | program_04/registry.c:849-856 | with the error replies as written, a run from the start in which a SEARCH with an empty payload is answered with twenty bytes |
| RegistryWitness.QueryWithoutNul | program_04/registry.c:849-861 | with the error replies as written, a run from the start whose last SEARCH is looked for without a NUL anywhere in the receive buffer |
| RegistryWitness.ReusedSlotIsJoined | program_04/registry.c:496-503 | with the type not reset and a table of two or more slots, a connection that never joined is taken as joined when it reuses the slot of one that had |
| RegistryWitness.PrefixAnswersForLongerName | program_04/registry.c:799-816 | under any repairs, a run from the start in which "a" and "ab" are published by two clients and the search for "ab" names the one that has "a" |
| RegistryLog.LogDeterminesRun | program_04/registry.c:331-381 | the calls that the kernel reported determine the run: two runs with the same calls are equal |
| RegistryLog.ReceivesSince | program_04/registry.c:351-380 | between two points of a run the receives in the kernel's log are the client events of the run, in order |
| RegistryMemory.ReplaceOwned | program_04/registry.c:485-503 | replacing the blocks of one client keeps the live blocks the disjoint union of what the clients own, and changes no other client's names |
| RegistryMemory.BuildingUndone | program_04/registry.c:755-762 | freeing what a failed PUBLISH had allocated restores the heap exactly: nothing leaks |
| RegistryMemory.BuildingAdopted | program_04/registry.c:763-769 | after the old list is freed, the new one belongs to the client, holds exactly the names read, and conservation holds |
| RegistryMemory.NobodyOwns | program_04/registry.c:387-397 | without active clients no block is live |
| CHeap.Heap.FreeList | program_04/registry.c:485-490 | frees each string of a list once and then the list, and nothing else |
| RegistryServer.Server.constructor | program_04/registry.c:274-326 | the initial server is the initial state of the machine with 50 slots and 10 files, no blocks, the listener watched, the log empty |
| RegistryServer.Server.ClearClientFiles | program_04/registry.c:485-494 | frees exactly the blocks the client owned and nulls its list pointer |
| RegistryServer.Server.ClearClient | program_04/registry.c:496-503 | the slot becomes the cleared slot and conservation holds |
| RegistryServer.Server.ServerAccept | program_04/registry.c:515-564 | one call of accept; the run continues with the very descriptor and address that the kernel logged, the state is the machine's step for them, and nothing changes when accept fails |
| RegistryServer.Server.Admit | program_04/registry.c:528-563 | the refusal at the limit, one close, and the registration otherwise, or also after the close as written: the state is the machine's after the accept |
| RegistryServer.Server.AddClient | program_04/registry.c:549-563 | registers the socket and fills the lowest free slot |
| RegistryServer.Server.IdRefused | program_04/registry.c:622-660 | the scan refuses an id exactly when the machine does not accept it |
| RegistryServer.Server.HandleJoin | program_04/registry.c:609-661 | the table after a JOIN is the machine's |
| RegistryWire.JoinBytes | program_04/registry.c:609-661 | first byte 0: nothing changes unless the message has five bytes; with five, the id is the big-endian number in the last four, an accepted JOIN stores it and joins, an id that no active client has is accepted and one that the scan finds is not |
| RegistryWire.OtherCommandsChangeNothing | program_04/registry.c:593-606 | a message whose first byte is above 1 changes nothing in the table |
| RegistryServer.Server.ScanString | program_04/registry.c:708-732 | finds the C string at a position, and its NUL if and only if it is ASCII and terminated within the length |
| RegistryServer.Server.ReadNames | program_04/registry.c:691-753 | the reading loop leaves a list of the decoded strings, complete if and only if the payload decodes and memory suffices; the remaining length never underflows |
| RegistryServer.Server.HandlePublish | program_04/registry.c:663-787 | the table after a PUBLISH is the machine's, and the heap is conserved on success, rejection and failed allocation |
| RegistryWire.PublishBytes | program_04/registry.c:663-787 | first byte 1, from a joined client: with 5 to 1199 bytes and a big-endian count in bytes 1 to 4, that many strings of bytes 1 to 127, each with a 0 after it, are stored if `max_files` and memory allow them; every other message changes nothing |
| RegistryWire.EncodedBytes | program_03/src/publish.rs:66-84 | the encoding of names is each of them with a 0 after it |
| RegistryServer.Server.TextMatches | program_04/registry.c:792-816 | the comparison loop decides whether the stored name is a prefix of the C string of the query, inside both buffers, and looks at the stored NUL if and only if it is |
| RegistryServer.Server.SearchClientFiles | program_04/registry.c:789-822 | a client is found if and only if one of its names is a prefix of the query |
| RegistryServer.Server.FindOwner | program_04/registry.c:858-877 | the scan stops at the lowest active slot that holds a match |
| RegistryServer.Server.SendBytes | program_04/registry.c:980-994 | sends all the bytes in order whatever parts the kernel takes, or a prefix when it fails |
| RegistryServer.Server.ReportErrors | program_04/registry.c:837-856 | ten zero bytes for each payload byte of 128 or more and for a missing NUL, or ten once and a stop when errors end the request; all that is sent is zero |
| RegistryServer.Server.HandleSearch | program_04/registry.c:824-915 | the bytes sent are the machine's replies, or a prefix of them when a send fails |
| RegistryWire.SearchBytes | program_04/registry.c:824-915 | first byte 2: of a joined client's request of at most 100 bytes, ten zeros are sent for each payload byte of 128 or more and ten when its last byte is not 0, and then the ten bytes of the brute-force answer for the text up to the first 0 in the 2048 bytes of the buffer; with the repair ten zeros end a request with errors; no other message is answered |
| RegistryServer.Server.DropClient | program_04/registry.c:572-587 | after a logged receive without bytes, one logged close of that descriptor and the machine's close step |
| RegistryServer.Server.TakeMessage | program_04/registry.c:593-606 | after a logged receive, the run continues with exactly the received bytes and the rest of the buffer, and table, heap and replies are the machine's for them, whatever allocations fail |
| RegistryServer.Server.HandleClient | program_04/registry.c:566-607 | one receive on the client's descriptor is logged first, and the run continues with one event that holds what it delivered, in a buffer of 2048 bytes |
| RegistryServer.Server.FindCurrent | program_04/registry.c:359-372 | the lookup by socket returns the lowest active slot on it |
| RegistryServer.Server.SelectRound | program_04/registry.c:351-380 | as written and under any repairs, a round terminates although `max_socket` can rise; the receives in the kernel's log since its start are the snapshot's descriptors without the listener, once each in ascending order, with one accept if the listener was ready; each client event falls on that client's own record; the unknown-descriptor branch is not reached; afterwards all that is watched is open if and only if no refused connection was registered |
| RegistryServer.Server.Guarantees | program_04/registry.c:331-381 | of the only run that the kernel's log stands for: bookkeeping, table contents, distinct ids and refinement of history hold under their exact conditions on the run, always with the repairs, and the heap is conserved always |
| RegistryServer.Server.Shutdown | program_04/registry.c:383-397 | closes the listener and each active client's socket once, in slot order; a descriptor stays open if and only if no logged close of it succeeded; no client is active and no block is live |
| RegistryServer.SocksFromAre | program_04/registry.c:387-397 | the sockets closed after the listener are those of exactly the active clients, one for each |
| RegistryServer.Server.WaitOnce | program_04/registry.c:331-380 | one pselect, which fails if a watched descriptor is closed, and unless it failed one round that receives once from each descriptor it reported |
| RegistryServer.Server.Serve | program_04/registry.c:331-402 | as written and under any repairs, for any number of rounds: whenever a pselect succeeds the bookkeeping holds of the run that the log so far stands for, and the table holds what was taken from the live connections; after it each ready descriptor is received from exactly once, the last round included; a round that registers a refused connection makes the next pselect fail and the server shut down, and nothing but a failing pselect ends the loop early; then the listener and each client's socket are closed once and no file storage is live |
| Wire.PublishGrammar | program_04/registry.c:669-753 | the parser returns a list if and only if the payload has 4 to 1198 bytes, its first four are the number of names within the limit, most significant first, and these follow as NUL-terminated ASCII strings, with any tail |
| Wire.PublicationUnique | program_04/registry.c:683-753 | a payload stands for at most one list |
| Publish.PublishAcceptedExactly | program_04/registry.c:663-787 | for a joined client with memory, a PUBLISH stores the list its payload stands for, and leaves the previous list untouched when it stands for none |
| Publish.LongestFittingUnique | program_03/src/publish.rs:73-76 | the longest prefix of a list that fits a buffer is unique, so the packers are fully specified |
| Publish.LongestIsLongest | program_03/src/publish.rs:73-76 | taking names in order until one does not fit gives the longest prefix whose encoding fits |
| Publish.AsciiOnlyPlaces | program_03/src/publish.rs:61-64 | the names considered are those whose bytes are all below 128, in the directory's order |
| Publish.PackRust | program_03/src/publish.rs:16-91 | the message is the header and encoding of the longest prefix of the ASCII names that fits 1200 bytes, the NULs supplied by the zero fill; in bytes 1, 0, 0, the count in two bytes, and each name with a 0 after it |
| Publish.PackC | program_03/peer.c:44-89 | the message is the header and encoding of the longest prefix of the names that leaves one byte of 1200 unused, in the same bytes |
| Publish.PackedListStored | program_04/registry.c:663-787 | a packed message replaces a joined client's list under those same conditions and otherwise changes nothing |
| Publish.PackedListParses | program_04/registry.c:669-753 | a packed list is recovered if and only if it has at most `max_files` names, all ASCII, in at most 1199 bytes; otherwise it is refused |
| Publish.RustRoundTrip | program_03/src/publish.rs:16-91 | a joined client's table entry becomes exactly the packed list if there are at most `max_files` names and the message is not 1200 bytes long; otherwise nothing changes |
| Publish.CRoundTrip | program_03/peer.c:44-89 | the C message always meets the size bound, so it is stored if and only if there are at most `max_files` names and all are ASCII |
| Search.NamedRequest | program_03/src/search.rs:9-11 | the zeroed buffer holds the command, the name and its NUL |
| Search.SearchRegistry | program_03/src/search.rs:8-32 | writes exactly 2, the name and 0, or a proper beginning of it and fails without reading; then, for every split of the reply, decodes the first ten bytes (id, address and port, most significant first; none if the first four are 0) and leaves the rest unread, failing if and only if fewer arrive |
| Search.DecodedAnswer | program_03/src/search.rs:21-31 | decoding an answer gives the owner's id, address and port, read from its two octets, if and only if the owner is on IPv4 with a non-zero id |
| Search.SearchSession | program_03/src/search.rs:8-32 | over a whole session, as written and under any repairs, when the registry received any first part of the requests: the i-th search decodes the registry's answer to the i-th request if that reached it and fails otherwise; the requests are written in order, a failing write ends the session there, after the full requests before it; nothing is left over when no more were received than written |
| FetchRequest.ScanBuffer | program_03/src/listener.rs:49-72 | the loop over one read agrees with the piece-wise definition |
| FetchRequest.ReadAction | program_03/src/listener.rs:24-96 | the reading loop over any pieces agrees with the parser's definition on pieces, in every error |
| FetchRequest.GetAction | program_03/src/listener.rs:24-96 | the parser over any pieces: nothing on an empty stream, a refusal for every first byte but 3; a refusal is answered with the one byte 2 for a first byte above 4, 3 for another that is not 3, and 5 for too much data, unless that write fails, and nothing else is written |
| FetchRequest.TerminatedExactly | program_03/src/listener.rs:41-88 | for any text without a 0, any bytes after its terminator and any split, the name is the text unless the string is exactly full (100, 200, 400 bytes of UTF-8 and so on) before one of its characters or the terminator, or no read ends right after that: then TOO_MUCH_DATA |
| FetchRequest.UnterminatedExactly | program_03/src/listener.rs:41-88 | for any text without a 0 that ends before its terminator and any split: the text is fetched when the peer closes, a broken connection is an error, and it is TOO_MUCH_DATA if the string is exactly full before one of its characters |
| FetchRequest.UnterminatedName | program_03/src/listener.rs:41-88 | an ASCII name without terminator is fetched up to 100 bytes when the peer closes, is a read error when the connection breaks, and TOO_MUCH_DATA above that |
| FetchRequest.ParseIgnoresSplit | program_03/src/listener.rs:41-88 | every split of an encoded request gives the name if it has at most 99 bytes and TOO_MUCH_DATA otherwise |
| FetchRequest.ParseExactly | program_03/src/listener.rs:41-88 | for any bytes after the terminator and any split, the request is the name if and only if it has at most 99 bytes and a read ends right after the terminator, and TOO_MUCH_DATA otherwise |
| FetchRequest.SplitsAgreeExactly | program_03/src/listener.rs:57-65 | all splits of a request into reads that fit the buffer give the same result if and only if the name has more than 99 bytes or nothing follows the terminator |
| Paths.ResolvePath | program_03/src/listener.rs:100-113 | the loop over the components gives the ordinary segments of the name, or a refusal |
| Paths.RefusedExactly | program_03/src/listener.rs:100-113 | a name is refused if and only if it starts with a slash or has two dots between slashes or ends |
| Paths.ResolvedPlaces | program_03/src/listener.rs:100-113 | the parts of a path are whole stretches of the name between slashes or ends, in its order, and only the empty ones, "." and ".." are left out |
| Paths.SegmentsJoin | program_03/src/listener.rs:100-113 | the segments joined by slashes are the name, and there is one more of them than slashes |
| Paths.ResolvedStaysBelow | program_03/src/listener.rs:100-113 | a resolved path consists of ordinary segments: none is empty, ".", ".." or has a slash |
| Paths.PlainNameResolves | program_03/src/listener.rs:100-113 | a name that is one ordinary segment is its own path |
| FetchTransfer.HandleFetch | program_03/src/listener.rs:126-155 | for every sequence of read sizes, sends the status byte and the file, without the last byte of the first read as written, and only the status byte for an empty file; a beginning of that when a write fails |
| FetchTransfer.TransferBytes | program_03/src/listener.rs:126-155 | in bytes: nothing when the first read fails, 0 alone for an empty file, else 0 and the content, of which as written exactly the last byte of the first read is missing |
| FetchTransfer.FirstReadIs | program_03/src/listener.rs:126-136 | the first read takes at most 2047 bytes, beside the status byte |
| FetchTransfer.CopyIsExactly | program_03/src/listener.rs:131-144 | the delivered content is the file if and only if the slice is the intended one or the file is empty; otherwise exactly one byte is lost, the last of the first read, and all others are in place |
| FetchTransfer.ReceiveRust | program_03/src/fetch.rs:60-86 | for every split, the file is the stream without its status byte, and empty streams and non-zero statuses are refused |
| FetchTransfer.ReceiveC | program_03/peer.c:260-288 | for every split, the file is the stream without its first byte |
| FetchTransfer.HandleConn | program_03/src/listener.rs:100-173 | one connection: parse, resolve the path, open, then the file or the code of the refusal, INVALID_DATA and ERROR included; a beginning of that answer when a write fails |
| FetchTransfer.ReplyBytes | program_03/src/listener.rs:100-173 | the answers in bytes: 2, 3 and 5 for refusals, 6 for a path that is refused, 1 for one that cannot be opened, 0 and the file otherwise, nothing to an empty request |
| FetchTransfer.FetchFile | program_03/src/fetch.rs:51-86 | the whole exchange over any splits: without failing writes it completes if and only if the name has at most 99 bytes and its path can be opened, and the copy is then the shared file if and only if the slice is the intended one or the file is empty; else the fetch fails with the listener's code, and after a failing write the copy is a beginning of what is delivered |
| PeerThreads.CommandLoop | program_03/src/main.rs:162-278 | the loop's variables are those of the machine after the commands, whichever of them fail before or at their write, and nothing is sent before a successful JOIN or REGISTER |
| PeerThreads.CommandsExactly | program_03/src/main.rs:162-278 | the trace holds all that the commands before the first exit call for and nothing else, in their order and once: 0 for JOIN, 4 for a bound REGISTER, and after an admitted one 1 for a listed PUBLISH, 2 for a named SEARCH or FETCH and 3 right after it for a found and reached one; joined, left, the listeners started and the handle kept follow from the commands too |
| PeerThreads.EveryInterleaving | program_03/src/main.rs:162-290 | over all interleavings: the gate holds, each listener accepts at most one connection after the flag is cleared, and main passes the join only when that listener has left its loop |
| PeerThreads.ListenersStay | program_03/src/listener.rs:188-232 | over all interleavings: while the flag is set a listener has left its loop if and only if one of its accepts failed, and the count of late connections is the number accepted after the flag was cleared |
| PeerThreads.ListenerTurns | program_03/src/listener.rs:188-232 | whatever the flag, a would-block and the end of a connection lead back to its test, a failed accept out of the loop, and a connection to serving it |
| PeerThreads.ListenerGoesOn | program_03/src/listener.rs:188-232 | while the flag is set, a listener at its test goes on to accept, and comes back to its accept after a would-block and after serving a connection |
| PeerThreads.SomeRunServes | program_03/src/listener.rs:188-232 | for every n there is a run in which one listener serves n connections and is at its accept again |
| PeerThreads.LateConnection | program_03/src/listener.rs:188-232 | there is a run in which a listener accepts a connection after the flag was cleared, so the bound of one is met |
| PeerThreads.ListenerWindsDown | program_03/src/listener.rs:188-232 | once the flag is cleared every step of a listener brings it closer to its end, three steps at most |
| PeerThreads.QuickExitState | program_03/src/main.rs:206-221 | with two or more REGISTERs there is a run that finishes while an earlier listener is still in its loop |
| PeerThreads.WaitsForAllExactly | program_03/src/main.rs:286-290 | main waits for every listener in all runs if and only if at most one was started |
| TagCounter.CountOccurrences | program_01/h1-counter.c:261-292 | counts exactly the occurrences that no earlier candidate swallows, reading only the first `haystack_len` bytes |
| TagCounter.CountedAreDisjoint | program_01/h1-counter.c:273-289 | the counted positions are genuine occurrences, pairwise disjoint |
| TagCounter.SwallowedIsOddChain | program_01/h1-counter.c:273-289 | for a needle whose first byte does not recur, a place where it can begin is passed over if and only if an odd chain of touching beginnings of the needle ends there, as read from the text alone |
| TagCounter.MissedExactly | program_01/h1-counter.c:273-289 | an occurrence is missed if and only if an odd chain of touching beginnings ends at it |
| TagCounter.CountIsExactly | program_01/h1-counter.c:273-289 | the count is the number of occurrences with an even chain, and so of all occurrences if and only if no chain is odd |
| TagCounter.TagCountIsExactly | program_01/h1-counter.c:170-172 | the same for the program's own needle, of every text |
| TagCounter.SpacedIsExact | program_01/h1-counter.c:261-292 | with first characters more than the needle's length apart the count is the number of occurrences |
| TagCounter.DoubledBracketIsMissed | program_01/h1-counter.c:274-289 | a needle right after its own first byte, as in "<<h1>", is not counted |
| TagCounter.AdjacentTagIsMissed | program_01/h1-counter.c:274-289 | of two adjacent needles, as in "<h1><h1>", only the first is counted |
| TagCounter.ChunkedTotal | program_01/h1-counter.c:183-251 | with spacing, the chunked total is the number of occurrences that straddle no chunk boundary, short of all of them by at most one for each internal boundary |
| TagCounter.ChunkedNeverOver | program_01/h1-counter.c:183-251 | for every text the chunked total is at most the number of occurrences that lie within one chunk |
| TagCounter.CountTags | program_01/h1-counter.c:170-254 | in fill mode the tag total is the sum over consecutive chunks and the byte total the stream's length, for every split and either ending; without it each read is a chunk |
| TagCounter.PartsCount | program_01/h1-counter.c:212-237 | with spacing, counting any parts of a text one by one gives the number of occurrences that lie within one part |
| TagCounter.PartsTotalExactly | program_01/h1-counter.c:212-237 | for a needle whose first byte does not recur, and any parts of any text: counting them one by one gives the occurrences that lie within one part and have an even chain there, and all occurrences if and only if that is so of each |
| TagCounter.ReadsAre | program_01/h1-counter.c:212-237 | pieces that fit the buffer are the reads, and of a longer one the first read takes what fits |
| TagCounter.ChunksAre | program_01/h1-counter.c:183-211 | the chunks are full buffers, but for the last |
| TagCounter.ChunksAreParts | program_01/h1-counter.c:183-251 | put together the chunks are the text, and the total with filling is that of counting them one by one |
| TagCounter.UnfilledTotalExactly | program_01/h1-counter.c:212-237 | the total without filling, of any text in any reads, is that for the reads |
| TagCounter.FilledTotalExactly | program_01/h1-counter.c:183-211 | the total with filling, of any text and buffer size, is that for the chunks |
| TagCounter.TagTotalsExactly | program_01/h1-counter.c:170-254 | both for the program's own needle, of every stream |
| TagCounter.SpacedUnfilledTotal | program_01/h1-counter.c:212-237 | without filling, and with spacing, the total is the number of occurrences that straddle no read, and exact if and only if none does |
| TagCounter.SplitTagIsMissed | program_01/h1-counter.c:212-237 | without filling, one tag is counted when it arrives in one read and not when it arrives in two |
| Streams.Stream.WriteAll | program_03/src/listener.rs:139-150 | writes all of the data, or fails after a proper beginning of it |
| Streams.Stream.Fill | program_01/h1-counter.c:185-208 | fills a buffer with the next bytes in order, or stops short exactly at the end of the data |

## Left out

- Address lookup, binding, connecting, socket options and argument parsing: calls into the system with no property of their own.
- Logging, printing, signal masks and the output file: formatting only.
- REGISTER at the registry: `program_04/registry.c` does not handle it. The peer's command is modelled as a send that starts a listener.
- Requests that span several receives at the registry: the source assumes a whole request per `recv`, and each received buffer is one message here.
- Waits as events of a run: the state machine's runs are the accepts, receives and closes. Its whole-run conditions therefore also speak of runs that go on after a refused connection was registered, which the server, as `RegistryServer.Server.Serve` states, does not do past that round.
- Descriptors beyond the capacity of `fd_set`, and descriptors below 3: standard input, output and error are taken to be open when the server starts.
- RegistryServer.Server.ReadNames: takes the allocation of the list itself to succeed, as the source does; each string allocation may fail.
- RegistryServer.Server.Shutdown: the block holding the client table is not part of the heap model.
- Client records: `struct client` is a value in an array that is updated in place, not an object, as in the source, where the table is one block and pointers into it are positions.
- TagCounter.CountTags: needs a positive buffer size; with size 0 the source's fill mode loops for ever without reading.
- FetchRequest.GetAction: takes the string's capacity as exactly 100 and its growth as doubling.
- FetchTransfer.HandleConn: opening a file is a lookup by resolved path, without links, devices or directories, and the file is read without errors there (HandleFetch itself covers a failing read). The request arrives without a read error; GetAction covers one.
- RegistryServer.Server.TakeMessage: which allocations fail is a number the kernel reports for each message, of strings that can still be allocated.
- TagCounter.CountIsExactly: is about needles whose first byte does not recur, which holds of the source's only needle; for other needles CountOccurrences and CountedAreDisjoint say what is counted. The same holds for TagCounter.PartsTotalExactly.
- RegistryServer.Server.HandleSearch: the query ends with the receive buffer when the buffer has no NUL after the command; what lies behind the buffer is not modelled.
- RegistryHistory.TakenThroughout: says nothing of runs that go on after a refused connection was registered, when a closed descriptor number can be given to a second connection.
- Publish.PackRust: the directory is an arbitrary sequence of names; metadata checks and unreadable entries are not modelled. The same holds for Publish.PackC.
- PeerThreads.EveryInterleaving: the flag behaves as if all threads saw its accesses in one order; the source asks for relaxed ordering.
- The program_02 peers, the labs and the socket tools: smaller duplicates of the code above.

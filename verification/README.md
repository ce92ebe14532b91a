# Models and proofs for the EMS network test suite

EMS drives UEFI network tests from a host: it moves files to the station under test
(EFTP), lets Tcl scripts define types and exchange typed values with the station (RIVL),
filters and builds packets, and reports the results. This project models six of its parts
and proves what they promise. Each part has its own files.

**EFTP, file transfer over raw Ethernet** (`EftpSession`, `EftpFile`, `EftpInbox`, `EftpRead`,
`EftpReadProgress`, `EftpReadAgain`, `EftpReadRecovery`, `EftpWrite`, `EftpWriteProgress`,
`EftpWriteInTurn`, `EftpDispatch`, `EftpQueue`, `EftpPool`). The packet handlers of the two
strategies and the send loop are methods on session state. They are proved to do what a step
function says, and that function is interleaved with an honest peer, the dispatcher, and a
network that loses, repeats and reorders packets. The event that a delivered packet sets is part
of the state: a wait of the sender ends early only when it is set, and uses it up. A request that
comes again after a session has ended opens another one. Files and blocks have any size. Block
numbers are kept as true integers by the server and travel in 16 bits; the peer compares the
number it expects with the 16-bit number it sees. A reading peer may be told of the end of the
file, and may count everything on the link as lost and still get the next packet; a writing peer
may send a block at any time, or each one only after the block before it was acknowledged. The
table of sessions is proved to be what the history of captured packets says. The queue is also
modelled down to the steps between taking the mutex, testing the list and waiting for the event.
The pool is modelled as linked nodes and as a transition system over all nodes that were ever
made.

**RIVL, types and values** (`RivlRows`, `RivlLayout`, `RivlTypedef`, `RivlWalk`, `RivlNames`,
`RivlPlace`, `RivlValue`, `RivlGetVar`, `RivlText`, `RivlPath`, `RivlFetch`). The layout loops
are modelled with their 32-bit arithmetic, next to the exact layout that they are meant to
compute; the two agree exactly when the definition is small enough, and then the layout is
ordered, disjoint and tight. Each definition is made under the pack value that was in force then.
Encoding, byte swapping and decoding are loops over digits. The recursive walk of `GetVar` is a
method that sets variables, and the round trip places the encoded leaves at their offsets in
arbitrary padding and reads them back by the walk. A name is read from its characters, and
fetching part of a variable by name is compared with fetching the whole.

**RIVL, variables and scopes** (`RivlScope`, `RivlVar`). The store is a list of heap nodes that
carries a second chain for every scope, and a stack of scopes; every command is proved to do what
a function on values says, and that function is then reasoned about over runs and compared with
what the history of commands says.

**Packet filter** (`PktPattern`, `PktGrammar`, `PktNots`). The two-stack operator-precedence
loop, on arrays of 256 entries, is proved against a scan with nested frames, the scan against a
recursive account of what comes out of every expression, runs of NOT included, and that against
the meaning of expressions. Comparisons are truth values.

**Checksums** (`Checksum`, `Crc`). The accumulating loops with their 32-bit wrap-around are
proved against the end-around-carry sum of RFC 1071 (pseudo-header: section 8.1 of RFC 8200), and
the table-driven CRC against the bit-serial CRC-32 of section 3.2.9 of IEEE 802.3.

**DHCP options and the test report** (`Dhcp`, `DhcpInclude`, `Turns`, `LogReport`,
`LogReportList`). The option cursor works on a buffer with a position and a signed remaining
length. The report aggregator is a pair of doubly linked list levels on the heap, proved against
the history of recorded cases.

`Basics` and `Runs` hold what several parts share; `Runs` says what a run of a transition system
is and what can be reached by one.

## Where the code does less than it seems to

These are proved as lemmas, each with the exact condition or with a concrete input:

- A read or write transfer can be completed if and only if the file has at most 65535 blocks,
  from every state of every run, if need be in a further session
  (`EftpReadAgain.CompletesFromEveryState`, `EftpWriteProgress.CompletesFromEveryState`).
- A read session counts a block whose packet the link layer has refused, and never sends it
  again; an open session can be carried to its end if and only if that has not happened to
  the block that the peer needs next (`EftpReadProgress.CompletesFromOpenStates`,
  `EftpReadProgress.FailedWriteStallsTheSession`).
- Though all that is on the link may be lost for good, a read session can send the block that
  the peer needs next once more, exactly unless it has counted that block without ever putting
  it on the link (`EftpReadRecovery.OffersAgainExactly`). The end of a file is announced unless
  a queued acknowledgement that is ahead, or the request for an empty file, closes the session
  without a word, or the link layer refuses the packet (`EftpReadRecovery.ToldExactly`,
  `EftpReadRecovery.EndIsAnnounced`).
- A write session can always go on if the peer sends its blocks unasked
  (`EftpWriteProgress.CompletesFromOpenStates`). A peer that waits for each acknowledgement gets
  on exactly unless the session has put nothing on the link, has nothing left to answer, and no
  block was ever sent; one refused packet gets it there, as the repeated request is dropped
  while the session lives (`EftpWriteInTurn.ToldExactly`,
  `EftpWriteInTurn.RefusedAckStallsTheSession`).
- A repeated write request truncates the file, even a completed one; nothing else loses stored
  bytes (`EftpWrite.LosesExactlyByOpening`, `EftpWriteProgress.CompletedFileIsLostByARequest`).
- An acknowledgement is ahead of the server only in a session that a repeated request has
  opened, exactly when the peer has, or can take, more than that session has counted; some run
  gets there if and only if the file has a second block
  (`EftpReadAgain.AheadExactlyWhenBehind`, `EftpReadAgain.AheadIffTwoBlocks`).
- Addresses are compared as strings, so stations whose addresses agree up to a zero byte share
  a session (`EftpDispatch.AddressesShareASession`).
- The send loop shares the event of the queue, so a packet that arrives while the sender
  waits ends that wait, and the signal is gone before the packet is taken; the queue test at
  the head of `EmsEftpSessionPktGet` is what saves it (`EftpQueue.SignalMayBeSpentByTheSender`,
  `EftpQueue.FifoAndNoLostWakeUp`).
- A struct of 2^32 bytes or more wraps around and overlaps itself (`RivlPlace.HugeArrayOverlaps`,
  `RivlLayout.ContainedIffFits`).
- A NOT behind a NOT makes the nearest operand or dummy below it false, and a run of NOTs
  negates once. A pattern that opens with two NOTs pops an empty stack. Any other one comes to
  the value it is written for, whatever its comparisons come to, if and only if no right operand
  opens with two NOTs (parentheses aside) and the even runs of NOT cancel out along every
  chain of NOTs and parentheses: `NOT ( NOT NOT NOT b )` and
  `NOT ( NOT NOT ( NOT NOT b ) )` are right, `a AND NOT NOT b` is false
  (`PktGrammar.EvaluatorComputes`, `PktNots.RightExactly`, `PktNots.TwoNotsInFourPlaces`).
- Element 0 of an array member cannot be fetched by its own name
  (`RivlFetch.LeafByText`), and other subscripts are not compared with the length
  (`RivlPath.SubscriptsAreNotChecked`).
- The deferred checksum is right exactly while 32 bits hold the plain sum; the eager one is
  right for every length (`Checksum.EagerFoldingMatchesDeferred`,
  `Checksum.SplitChecksumIsWholeChecksum`).
- An empty chunk at an odd offset adds the byte behind it to the TCP checksum, which is then
  the right one exactly when the 32-bit sum has wrapped around as often as the added bytes are
  worth (and is not 0 unless they are); while it does not wrap, exactly when they are 0
  (`Checksum.StrayChecksumIsRight`, `Checksum.EmptyPayloadBehindOddLength`).
- Padding before the DHCP end option, and a last option without a value that nothing
  follows, make the whole payload invalid (`Dhcp.RefusedEndings`). A length byte of 128 or
  more is read as negative and leaves the cursor in front of the value: further back, at the
  option (254), or one byte on (255) (`Dhcp.LongLengthMisplacesCursor`). The counting loop then
  ends within one pass more than the payload has bytes, or never (`Dhcp.CountingEndsInTimeOrNever`,
  `Dhcp.EndlessAt254`).
- Only the first option of a code is compared when option lists are. The comparison is the
  subset test if and only if options of the same code are the same
  (`DhcpInclude.SubsetExactlyForOneOptionPerCode`, `DhcpInclude.RepeatedCodeIsMissed`).

## Model

| member | source | states |
|---|---|---|
| `EftpSession.SendLoopIsARun` | EMS/Src/EmsEftp/EmsEftpSession.c:938-965 | whatever the outcomes of the waits, the loop takes accepted small steps only, and they end where the loop leaves the session, so the interleaved model misses no behaviour of the loop |
| `EftpSession.AfterTimeout` | EMS/Src/EmsEftp/EmsEftpSession.c:938-965 | one unanswered write followed by the remaining rounds is the same as the whole loop |
| `EftpSession.UnansweredTwice` | EMS/Src/EmsEftp/EmsEftpSession.c:938-965 | a packet that nobody answers is on the link twice and the session closed; an answer to the first or the second write leaves it open with one or two copies |
| `EftpSession.Session.constructor` | EMS/Src/EmsEftp/EmsEftpSession.c:1083-1150 | a fresh session is ESTABLISHED with nothing sent |
| `EftpSession.Session.SilentShutdown` | EMS/Src/EmsEftp/EmsEftpSession.c:995-1016 | the state becomes CLOSED and nothing else changes |
| `EftpSession.Session.LoudShutdown` | EMS/Src/EmsEftp/EmsEftpSession.c:970-991 | the state becomes CLOSING and nothing else changes |
| `EftpSession.Session.SendData` | EMS/Src/EmsEftp/EmsEftpSession.c:910-966 | the packet goes out once for every unanswered round up to the limit, is remembered for resending, and the session closes exactly when no round was answered |
| `EftpSession.Session.ResendData` | EMS/Src/EmsEftp/EmsEftpSession.c:886-906 | the last packet goes out again in the same way |
| `EftpFile.WriteAtEnd` | EMS/Src/EmsEftp/EmsEftpWrqStrategy.c:162-170 | writing at the end of what is stored appends, however much of the data is accepted |
| `EftpFile.WriteThenRead` | EMS/Src/EmsEftp/EmsEftpWrqStrategy.c:162-170 | what was written is read back, everything else stays, and a gap is zero |
| `EftpFile.NextBlock` | EMS/Src/EmsEftp/EmsEftpRrqStrategy.c:231-244 | reading one block at block size times n yields block n+1, and appending it to the first n blocks yields the first n+1 |
| `EftpFile.BlocksGrow` | EMS/Src/EmsEftp/EmsEftpRrqStrategy.c:231-244 | fewer blocks are a prefix of more blocks |
| `EftpRead.RrqStrategy.constructor` | EMS/Src/EmsEftp/EmsEftpRrqStrategy.c:112-130 | the strategy starts before the first block |
| `EftpRead.RrqStrategy.HandlePkt` | EMS/Src/EmsEftp/EmsEftpRrqStrategy.c:156-276 | the handler, send loop included, does what the step function says on every packet kind and every sequence of wait outcomes |
| `EftpRead.ServeKeepsInv` | EMS/Src/EmsEftp/EmsEftpRrqStrategy.c:170-270 | handling any packet of the queue keeps: the peer holds a prefix, the server is at most one block ahead, every numbered packet carries the block of its number, and no session reaches CLOSING |
| `EftpRead.PeerTakeKeepsInv` | EMS/Src/EmsEftp/EmsEftpRrqStrategy.c:228-244 | taking any packet that this or a former session sent keeps the same invariant |
| `EftpRead.StepKeepsInv` | EMS/Src/EmsEftp/EmsEftpRrqStrategy.c:133-276 | every step of server, peer, dispatcher and network keeps it, the end of a session and the opening of the next included |
| `EftpRead.RunKeepsInv` | EMS/Src/EmsEftp/EmsEftpRrqStrategy.c:133-276 | every run keeps it |
| `EftpRead.ReadTransferIsSafe` | EMS/Src/EmsEftp/EmsEftpRrqStrategy.c:170-270 | over every run with loss, repetition and reordering, over any number of sessions, for files of any size: the peer's file is a prefix of the server's; the server is at most one block ahead, and in the first session never behind; the error packet is never sent; the session closes at the end of the file, by whichever branch, only when the peer holds everything; an acknowledgement is ahead only in a later session, and only of blocks that the peer holds |
| `EftpRead.AckBeyondEnd` | EMS/Src/EmsEftp/EmsEftpRrqStrategy.c:194-226 | for any session and any acknowledgement, whoever sent it: the session starts to close with an error packet if and only if the number is ahead and the block before it is not in the file, and repeats the packet until two writes in a row are not answered |
| `EftpReadProgress.ServeGoesOn` | EMS/Src/EmsEftp/EmsEftpRrqStrategy.c:170-270 | in an open session the handler closes the session only when the peer holds the whole file, and an acknowledgement of the last counted block makes it offer the next one |
| `EftpReadProgress.Advances` | EMS/Src/EmsEftp/EmsEftpRrqStrategy.c:170-270 | from every open state in which the next block is not lost, the peer can come to hold any number of blocks that can be numbered, or else the transfer is completed; the sender is woken by a delivered packet each time it waits |
| `EftpReadProgress.LostForever` | EMS/Src/EmsEftp/EmsEftpRrqStrategy.c:228-267 | once the block that the peer needs is counted but not on the link and not about to be, the session takes the peer no further |
| `EftpReadProgress.HoldsFromOpenStates` | EMS/Src/EmsEftp/EmsEftpRrqStrategy.c:170-270 | from every such state the peer can come to hold n blocks in this session if and only if it holds them, or the file has them, n is at most 65535, and the next block is not lost |
| `EftpReadProgress.CompletesFromOpenStates` | EMS/Src/EmsEftp/EmsEftpRrqStrategy.c:170-270 | from every reachable state with an open session and nothing queued that closes it, this session can complete the transfer if and only if the file has at most 65535 blocks and that block is not lost |
| `EftpReadProgress.OnlyFailedWritesLose` | EMS/Src/EmsEftp/EmsEftpSession.c:938-946 | in runs without a refused packet no block is ever lost, over any number of sessions |
| `EftpReadProgress.FailedWriteStallsTheSession` | EMS/Src/EmsEftp/EmsEftpSession.c:938-946 | one refused packet, at the first block, leaves an open session that cannot complete the transfer; without one every open session can |
| `EftpReadAgain.Restarts` | EMS/Src/EmsEftp/EmsEftpSession.c:673-701 | from every reachable state the session can be brought to its end and another one opened |
| `EftpReadAgain.CompletesFromEveryState` | EMS/Src/EmsEftp/EmsEftpRrqStrategy.c:170-270 | from every state of every run a continuation completes the transfer if and only if the file has at most 65535 blocks |
| `EftpReadAgain.HoldsFromEveryState` | EMS/Src/EmsEftp/EmsEftpRrqStrategy.c:170-270 | from every state of every run the peer can come to hold n blocks if and only if the file has them and n is at most 65535 |
| `EftpReadAgain.NeverAhead` | EMS/Src/EmsEftp/EmsEftpRrqStrategy.c:194-226 | a session that has counted all that the peer has, or can take from former sessions, never meets an acknowledgement that is ahead |
| `EftpReadAgain.AheadExactlyWhenBehind` | EMS/Src/EmsEftp/EmsEftpRrqStrategy.c:194-226 | an open session with an empty queue can meet one if and only if it has not; the first session never does |
| `EftpReadAgain.AheadIffTwoBlocks` | EMS/Src/EmsEftp/EmsEftpRrqStrategy.c:194-226 | some run meets one if and only if the file has a second block |
| `EftpReadRecovery.OffersAgain` | EMS/Src/EmsEftp/EmsEftpRrqStrategy.c:265-268 | from every such state some continuation puts the block that the peer needs on the link once more |
| `EftpReadRecovery.ForgottenForever` | EMS/Src/EmsEftp/EmsEftpRrqStrategy.c:265-268 | a block that the session has counted without ever putting it on the link, and is not about to, never comes on the link in this session |
| `EftpReadRecovery.OffersAgainExactly` | EMS/Src/EmsEftp/EmsEftpRrqStrategy.c:228-268 | recovery from loss: from every reachable open state, without a further session and though no packet on the link counts any more, the link can gain a packet with the block the peer needs if and only if the file has it, its number has 16 bits and it is not forgotten like that; a block that this session has put on the link never is |
| `EftpReadRecovery.Tells` | EMS/Src/EmsEftp/EmsEftpRrqStrategy.c:245-263 | an open session that is not silent can complete the transfer and put the OACK with the next number behind the last block |
| `EftpReadRecovery.ToldExactly` | EMS/Src/EmsEftp/EmsEftpRrqStrategy.c:194-263 | from every reachable open state the session can complete the transfer and tell the peer so if and only if the file has at most 65535 blocks, the next block is not lost, and nothing that is queued closes the session without a word; in the first session that is the case for an empty file only |
| `EftpReadRecovery.EndIsAnnounced` | EMS/Src/EmsEftp/EmsEftpRrqStrategy.c:245-263 | a session that has met the acknowledgement of the last block, and to which the link layer has refused nothing since, has the OACK as its last packet on the link whenever its thread is free again, and the peer holds the whole file |
| `EftpWrite.WrqStrategy.constructor` | EMS/Src/EmsEftp/EmsEftpWrqStrategy.c:85-101 | the strategy starts with an empty file |
| `EftpWrite.WrqStrategy.HandlePkt` | EMS/Src/EmsEftp/EmsEftpWrqStrategy.c:127-184 | the handler does what the step function says on every packet, on every amount of data the file accepts and every sequence of wait outcomes |
| `EftpWrite.StoringABlock` | EMS/Src/EmsEftp/EmsEftpWrqStrategy.c:139-177 | storing block n behind n-1 blocks yields n blocks, or the accepted part of it |
| `EftpWrite.ServeKeepsInv` | EMS/Src/EmsEftp/EmsEftpWrqStrategy.c:139-177 | handling any packet of the queue keeps the invariant below |
| `EftpWrite.StepKeepsInv` | EMS/Src/EmsEftp/EmsEftpWrqStrategy.c:104-184 | every step, the opening of further sessions included, keeps: what is stored are the first NextBlkNo-1 blocks, acknowledgements of a session never decrease, none is ahead of what it has stored |
| `EftpWrite.RunKeepsInv` | EMS/Src/EmsEftp/EmsEftpWrqStrategy.c:104-184 | every run keeps it |
| `EftpWrite.WriteTransferIsSafe` | EMS/Src/EmsEftp/EmsEftpWrqStrategy.c:139-177 | over every run, over any number of sessions: the stored file is the first NextBlkNo-1 blocks of the peer's file, or that plus a partial block in a closed session; a session acknowledges n only after it has stored blocks 1..n; its acknowledgements never decrease |
| `EftpWrite.LosesExactlyByOpening` | EMS/Src/EmsEftp/EmsEftpWrqStrategy.c:85-101 | a step loses stored bytes if and only if it opens a session while something is stored |
| `EftpWrite.StoredGrowsInSession` | EMS/Src/EmsEftp/EmsEftpWrqStrategy.c:139-177 | within a session nothing that is stored is ever lost |
| `EftpWriteProgress.Advances` | EMS/Src/EmsEftp/EmsEftpWrqStrategy.c:127-184 | from every open state the session can store any number of blocks that the file has and that can be numbered; the sender is woken by a delivered packet each time it waits |
| `EftpWriteProgress.Acknowledges` | EMS/Src/EmsEftp/EmsEftpWrqStrategy.c:127-184 | once all blocks are stored any packet makes the session acknowledge the last one, refused acknowledgements included |
| `EftpWriteProgress.StoresFromOpenStates` | EMS/Src/EmsEftp/EmsEftpWrqStrategy.c:127-184 | from every reachable state with an open session and nothing queued that closes it, this session can store n blocks if and only if the file has them and n is at most 65535 |
| `EftpWriteProgress.CompletesFromOpenStates` | EMS/Src/EmsEftp/EmsEftpWrqStrategy.c:127-184 | from every such state this session can complete the transfer if and only if the file has at most 65535 blocks |
| `EftpWriteProgress.CompletesFromEveryState` | EMS/Src/EmsEftp/EmsEftpWrqStrategy.c:127-184 | from every state of every run a continuation completes the transfer if and only if the file has at most 65535 blocks |
| `EftpWriteProgress.CompletedFileIsLostByARequest` | EMS/Src/EmsEftp/EmsEftpWrqStrategy.c:85-101 | a completed file stays as it is in every continuation that opens no session, and there is always one that opens one and leaves nothing of it |
| `EftpWriteInTurn.UnheardForever` | EMS/Src/EmsEftp/EmsEftp.c:265-283 | a session that nobody has heard of stays so for as long as it lives: the peer waits and its repeated request is dropped |
| `EftpWriteInTurn.AdvancesInTurn` | EMS/Src/EmsEftp/EmsEftpWrqStrategy.c:127-184 | any other open session stores and acknowledges any number of blocks of a peer that sends block k only behind the acknowledgement of k-1 |
| `EftpWriteInTurn.ToldExactly` | EMS/Src/EmsEftp/EmsEftpWrqStrategy.c:127-184 | from every state of every run with an open session, such a peer can have n blocks stored and acknowledged in this session if and only if the file has them, n is at most 65535 and the session was heard of |
| `EftpWriteInTurn.CompletesInTurn` | EMS/Src/EmsEftp/EmsEftpWrqStrategy.c:127-184 | and the transfer completed if and only if the file has at most 65535 blocks and the session was heard of |
| `EftpWriteInTurn.CompletesInTurnFromEveryState` | EMS/Src/EmsEftp/EmsEftpWrqStrategy.c:127-184 | from every state of every run such a peer can complete the transfer, if need be in another session, if and only if the file has at most 65535 blocks |
| `EftpWriteInTurn.OnlyRefusedAcksAreUnheard` | EMS/Src/EmsEftp/EmsEftpSession.c:938-946 | in runs in which the link layer refuses nothing every open session is heard of |
| `EftpWriteInTurn.RefusedAckStallsTheSession` | EMS/Src/EmsEftp/EmsEftpSession.c:938-946 | three steps, one of them a refused packet, lead to an open session that such a peer cannot use |
| `EftpDispatch.StepKeepsInv` | EMS/Src/EmsEftp/EmsEftp.c:247-304 | a captured packet or the end of a session keeps: every live session was given a request first and no other request |
| `EftpDispatch.RequestReachesSessionFirstAndOnce` | EMS/Src/EmsEftp/EmsEftp.c:267-303 | for every sequence of captured packets and ended sessions, a session sees its request first and never another one, and no more sessions live than the limit |
| `EftpDispatch.RunsUnlessUnknown` | EMS/Src/EmsEftp/EmsEftp.c:293-296 | the dispatcher runs on if and only if no packet with an operation code that it does not know was captured |
| `EftpDispatch.TableIsHistory` | EMS/Src/EmsEftp/EmsEftp.c:264-296 | after every sequence of events, read off the events alone: a session is alive for a key if and only if a request of that key was accepted (none alive for it, fewer than six alive) and none has ended since; its stream is that request followed by exactly the data, acknowledgement and error packets captured since from stations with that key, in order |
| `EftpDispatch.AddressesShareASession` | EMS/Src/EmsEftp/EmsEftpSession.c:395-399 | two stations are served as one if and only if their addresses agree up to a zero byte or altogether |
| `EftpQueue.StepKeepsInv` | EMS/Src/EmsEftp/EmsEftpSession.c:427-506 | every step of dispatcher, service thread and sender keeps: a nonempty queue implies a set event wherever the service thread is about to wait |
| `EftpQueue.FifoAndNoLostWakeUp` | EMS/Src/EmsEftp/EmsEftpSession.c:427-506 | under every interleaving: packets taken followed by packets queued are the packets put, the counter is the queue length, and the service thread never waits on a nonempty queue without a signal |
| `EftpQueue.DispatcherLeaves` | EMS/Src/EmsEftp/EmsEftpSession.c:427-461 | the dispatcher can always finish its insertion |
| `EftpQueue.QueuedPacketIsServed` | EMS/Src/EmsEftp/EmsEftpSession.c:464-506 | from every reachable state with a queued packet and a service thread inside PktGet, at most six steps lead to the oldest packet being taken |
| `EftpQueue.SignalMayBeSpentByTheSender` | EMS/Src/EmsEftp/EmsEftpSession.c:938-965 | there is a run in which the queue is not empty and the event is not set: the sender's wait has consumed the signal |
| `EftpPool.PktPool.constructor` | EMS/Src/EmsEftp/EmsEftpSession.c:120-140 | the pool starts empty |
| `EftpPool.PktPool.PutOnePkt` | EMS/Src/EmsEftp/EmsEftpSession.c:199-216 | the node becomes the head of the acyclic pool list, or is freed when the pool is full |
| `EftpPool.PktPool.PutMassPkt` | EMS/Src/EmsEftp/EmsEftpSession.c:242-264 | a whole list goes in front of the pool list in its order, or is freed node by node; the lists stay acyclic and the size is the length |
| `EftpPool.PktPool.Get` | EMS/Src/EmsEftp/EmsEftpSession.c:287-302 | the head of the pool is handed out, or a new node when the pool is empty |
| `EftpPool.PktQueue.Put` | EMS/Src/EmsEftp/EmsEftpSession.c:432-452 | the packet becomes the last of the queue |
| `EftpPool.PktQueue.Get` | EMS/Src/EmsEftp/EmsEftpSession.c:485-505 | the oldest packet is taken out |
| `EftpPool.PktQueue.Delete` | EMS/Src/EmsEftp/EmsEftpSession.c:554-569 | the queue is empty afterwards and its packets are in the pool or freed |
| `EftpPool.StepMoves` | EMS/Src/EmsEftp/EmsEftpSession.c:199-302 | after a step a node is where the step has moved it and nowhere else |
| `EftpPool.StepKeepsPlaces` | EMS/Src/EmsEftp/EmsEftpSession.c:199-302 | every step keeps each node in exactly one place |
| `EftpPool.StepKeepsLists` | EMS/Src/EmsEftp/EmsEftpSession.c:204-263 | every step keeps the counters equal to the list lengths and the lists free of repetition |
| `EftpPool.PacketsAreConserved` | EMS/Src/EmsEftp/EmsEftpSession.c:204-301 | in every reachable state each node is in exactly one of pool, one session queue, a thread's hands or freed, and sizes are list lengths |
| `RivlRows.RoundUpExact` | EMS/Src/EmsRivl/EmsRivlTypedef.c:344-351 | rounding up yields the least multiple of the alignment at or after a number |
| `RivlRows.FitsAgrees` | EMS/Src/EmsRivl/EmsRivlTypedef.c:324-403 | while the exact layout stays below 2^32 the 32-bit layout is the exact one |
| `RivlRows.InOrderAgrees` | EMS/Src/EmsRivl/EmsRivlTypedef.c:324-403 | a 32-bit layout whose members are in order has not wrapped |
| `RivlRows.StructFitsIffInOrder` | EMS/Src/EmsRivl/EmsRivlTypedef.c:324-434 | the members of a struct lie in order inside its size if and only if the exact size is below 2^32 |
| `RivlRows.WidestIsMaximum` | EMS/Src/EmsRivl/EmsRivlTypedef.c:373-376 | the size of a union before padding is the largest member's |
| `RivlRows.UnionFitsIffContained` | EMS/Src/EmsRivl/EmsRivlTypedef.c:373-434 | the members of a union lie inside its size if and only if the exact size is below 2^32 |
| `RivlLayout.Find` | EMS/Src/EmsRivl/EmsRivlType.c:65-95 | a definition of that name, or none exactly when there is none |
| `RivlLayout.FindInPrefix` | EMS/Src/EmsRivl/EmsRivlType.c:65-95 | later definitions do not change what a name means |
| `RivlLayout.ContainedIffFits` | EMS/Src/EmsRivl/EmsRivlTypedef.c:279-434 | the computed member ranges are ordered, disjoint and inside the size if and only if the meant layout is smaller than 2^32 bytes |
| `RivlLayout.FittingLayoutIsTight` | EMS/Src/EmsRivl/EmsRivlTypedef.c:324-434 | then each offset is the least multiple of the member's alignment at or after the previous end, union members start at 0, and trailing padding is smaller than the alignment |
| `RivlLayout.NextMember` | EMS/Src/EmsRivl/EmsRivlTypedef.c:324-434 | the room between the start of a member and of the next one, or the end, is that of its elements, a pointer taking the pointer size whatever it points to, and less than one more alignment |
| `RivlLayout.AlignIsPacked` | EMS/Src/EmsRivl/EmsRivlTypedef.c:305-315 | the alignment is at most the pack value, no member is aligned more strictly unless it is the pack value, and it is the pack value or some member's |
| `RivlLayout.PackedEndsWithMember` | EMS/Src/EmsRivl/EmsRivlTypedef.c:428-434 | under Pack 1 a definition that fits ends exactly where its last member ends, or in a union its longest |
| `RivlLayout.DefaultAlignIsLargest` | EMS/Src/EmsRivl/EmsRivlTypedef.c:305-315 | under the default it has the largest alignment of its members |
| `RivlTypedef.NewDefIsBuilt` | EMS/Src/EmsRivl/EmsRivlTypedef.c:244-438 | a new definition, under whatever pack value, keeps the registry one in which every type was computed from earlier ones |
| `RivlTypedef.NewDefAgain` | EMS/Src/EmsRivl/EmsRivlTypedef.c:316-434 | laying out the members of a definition again, offsets filled in, gives the same definition |
| `RivlTypedef.Rivl.constructor` | EMS/Src/EmsRivl/EmsRivlTypedef.c:97 | no types yet, and the default pack value |
| `RivlTypedef.Rivl.Pack` | EMS/Src/EmsRivl/EmsRivlTypedef.c:112-162 | sets the pack value to the default or to 1, ignores any other, and leaves every type as it is |
| `RivlTypedef.Rivl.HasDuplicate` | EMS/Src/EmsRivl/EmsRivlTypedef.c:261-273 | true exactly when two members share a name |
| `RivlTypedef.Rivl.CountAndAlign` | EMS/Src/EmsRivl/EmsRivlTypedef.c:279-313 | refuses exactly the definitions with an unknown type, and otherwise yields leaf count modulo 2^32 and largest alignment |
| `RivlTypedef.Rivl.SetOffsets` | EMS/Src/EmsRivl/EmsRivlTypedef.c:316-403 | fills in the offset of every pair and changes nothing else of it |
| `RivlTypedef.Rivl.TypeDef` | EMS/Src/EmsRivl/EmsRivlTypedef.c:189-479 | appends exactly the computed definition, whose alignment is the strictest of its members' cut down to the pack value, or refuses (a name that is too long, taken or a basic type's, no members, a repeated member, an unknown type) and leaves the registry as it was |
| `RivlTypedef.KnownIsAligned` | EMS/Src/EmsRivl/EmsRivlTypedef.c:283-315 | every known type has an alignment of 1, 2, 4 or 8 |
| `RivlWalk.WellFormedIsRanked` | EMS/Src/EmsRivl/EmsRivlTypedef.c:283-315 | types refer to earlier types only, so the walk terminates for every registry that definitions build, under pack values that change between them or not |
| `RivlWalk.TotalMemberNumIsLeafCount` | EMS/Src/EmsRivl/EmsRivlTypedef.c:283-304 | the recorded number of members is the number of leaves modulo 2^32 |
| `RivlWalk.WalkSetsTotalMemberNum` | EMS/Src/EmsRivl/EmsRivlGetVar.c:568-629 | the walk sets exactly that many variables |
| `RivlNames.DecimalIsInjective` | EMS/Src/EmsRivl/EmsRivlGetVar.c:613-614 | different indices print differently |
| `RivlWalk.DecimalIsNumeral` | EMS/Src/EmsRivl/EmsRivlGetVar.c:512 | a printed index consists of the digits 0 to 9 without a leading zero, and its value by character codes is the index |
| `RivlWalk.NumeralIsDecimal` | EMS/Src/EmsRivl/EmsRivlGetVar.c:512 | there is no other way to write it |
| `RivlWalk.ElementsOfBasic` | EMS/Src/EmsRivl/EmsRivlGetVar.c:510-520 | element i of an array of a basic type is the variable name(i), read at i times the size |
| `RivlNames.DifferentMembers` | EMS/Src/EmsRivl/EmsRivlGetVar.c:569-570 | names below different members never coincide when member names contain neither '.' nor '(' |
| `RivlNames.DifferentIndices` | EMS/Src/EmsRivl/EmsRivlGetVar.c:613-625 | names below different elements never coincide |
| `RivlNames.WalkNamesAreDistinct` | EMS/Src/EmsRivl/EmsRivlGetVar.c:568-629 | all variables that a walk sets have different names, for variables that are arrays themselves as well |
| `RivlPlace.SizeIsMultiple` | EMS/Src/EmsRivl/EmsRivlTypedef.c:428-434 | the size of a type is a multiple of its alignment |
| `RivlPlace.UnpackedIsRoomy` | EMS/Src/EmsRivl/EmsRivlTypedef.c:305-315 | a type made with the pack value 8 out of such types is aligned at least as strictly as its members, at every depth |
| `RivlPlace.LeavesAreNaturallyAligned` | EMS/Src/EmsRivl/EmsRivlTypedef.c:344-434 | when the type and all types inside it were made with the pack value 8, or none is aligned more loosely than its members, the absolute offset of every leaf of a variable, an array or not, at every depth, unions and arrays included, is a multiple of its size, whatever other types are in the registry |
| `RivlPlace.WalkOneTiled` | EMS/Src/EmsRivl/EmsRivlGetVar.c:568-629 | the leaves of a struct value occupy disjoint ranges in order inside its size |
| `RivlPlace.VariableTiled` | EMS/Src/EmsRivl/EmsRivlGetVar.c:562-630 | the same for a variable, which may be an array |
| `RivlPlace.DefinedIsContainedIffFits` | EMS/Src/EmsRivl/EmsRivlTypedef.c:324-434 | for every type of a registry the ranges are contained if and only if the layout that was meant for it, under the pack value of its definition, is smaller than 2^32 bytes |
| `RivlPlace.HugeArrayOverlaps` | EMS/Src/EmsRivl/EmsRivlTypedef.c:334-360 | a concrete struct of more than 2^32 bytes whose second member overlaps the first |
| `RivlValue.SwapInPlace` | EMS/Src/EmsRivl/EmsRivlEndian.c:149-178 | the bytes end up in reverse order |
| `RivlValue.Swap64` | EMS/Src/EmsRivl/EmsRivlEndian.c:149-178 | the number whose bytes are reversed |
| `RivlValue.SwapsAsWritten` | EMS/Src/EmsRivl/EmsRivlEndian.c:84-128 | the shift-and-or expressions of the 16- and 32-bit swaps reverse the bytes |
| `RivlValue.SwapTwice` | EMS/Src/EmsRivl/EmsRivlEndian.c:66-178 | swapping twice is the identity |
| `RivlValue.ParseHex` | EMS/Src/EmsUtility/EmsUtilityString.c:64-96 | parsing printed digits yields the number |
| `RivlValue.EncodedInMemoryOrder` | EMS/Src/EmsRivl/EmsRivlInterType.c:230-582 | the digits of an encoded value are those of its bytes in little-endian memory order |
| `RivlValue.ValueRoundTrip` | EMS/Src/EmsRivl/EmsRivlInterType.c:230-582 | decoding the encoding of any value in range yields the value, for every basic type |
| `RivlGetVar.ConvertINT32` | EMS/Src/EmsRivl/EmsRivlInterType.c:1341-1384 | the accumulating loop with its 32-bit wrap decodes eight digits |
| `RivlGetVar.ConvertINT64` | EMS/Src/EmsRivl/EmsRivlInterType.c:1387-1439 | the accumulating loop with its 64-bit wrap decodes sixteen digits |
| `RivlGetVar.Convert` | EMS/Src/EmsRivl/EmsRivlInterType.c:1154-1439 | every conversion decodes the digits of its type |
| `RivlGetVar.Validate` | EMS/Src/EmsRivl/EmsRivlInterType.c:230-582 | a list is refused when it is longer than the variable or an item is out of range, and otherwise item i stands at the digits behind those of the i items before it |
| `RivlGetVar.EncodedInOrder` | EMS/Src/EmsRivl/EmsRivlInterType.c:340-341 | the encoded list has the digits of every item, each at its place |
| `RivlGetVar.ListRoundTrip` | EMS/Src/EmsRivl/EmsRivlInterType.c:340-341 | walking what was encoded for a list sets name(i) to item i for every i |
| `RivlGetVar.Interp.ParseByIType` | EMS/Src/EmsRivl/EmsRivlGetVar.c:489-525 | sets one variable for every element, decoded from its place in the buffer |
| `RivlGetVar.Interp.ParseByEType` | EMS/Src/EmsRivl/EmsRivlGetVar.c:562-630 | sets exactly the variables of the walk, each decoded from the digits at its offset |
| `RivlGetVar.FilledIsRead` | EMS/Src/EmsRivl/EmsRivlGetVar.c:568-629 | in a buffer with all leaves placed, every leaf reads back its own digits |
| `RivlGetVar.MemoryDecodes` | EMS/Src/EmsRivl/EmsRivlGetVar.c:568-629 | decoding all leaves of such a buffer yields all values |
| `RivlGetVar.WholeValueRoundTrip` | EMS/Src/EmsRivl/EmsRivlGetVar.c:454-630 | for every variable, an array or not, of every struct type without unions and pointers whose layout fits and every assignment of leaves in range: placing each encoding at its offset in arbitrary padding and walking it sets every leaf variable to its value |
| `RivlPath.LeafHasPath` | EMS/Src/EmsRivl/EmsRivlGetVar.c:568-629 | every variable of the walk has a path of members and subscripts that leads to its offset and type and spells its name |
| `RivlPath.PathHasLeaf` | EMS/Src/EmsRivl/EmsRivlGetVar.c:568-629 | every path that leads to a leaf has its variable in the walk |
| `RivlText.AsciiStringToUint32` | EMS/Src/EmsUtility/EmsUtilityString.c:187-224 | the accumulating loops, decimal, hexadecimal and negative, yield the number at the front and how many characters it takes, in 32 bits |
| `RivlText.IsDefineArray` | EMS/Src/EmsRivl/EmsRivlUtil.c:88-122 | a part with a subscript is its name and one number up to the closing parenthesis, or malformed |
| `RivlText.PartIsRead` | EMS/Src/EmsRivl/EmsRivlUtil.c:88-122 | what is printed for a name and an index below 2^32 reads back as them |
| `RivlText.NameIsRead` | EMS/Src/EmsRivl/EmsRivlGetVar.c:338-345 | a part that is printed behind a dot is the last part that is read |
| `RivlPath.FindByVariableName` | EMS/Src/EmsRivl/EmsRivlGetVar.c:334-452 | the scan over the characters of a name does what the recursive resolution of its parts says, and follows a null pointer if and only if a dot stands behind a variable of a basic type and the next part does not have the subscript 0 |
| `RivlPath.LeafPathResolves` | EMS/Src/EmsRivl/EmsRivlGetVar.c:392-445 | the path of a leaf resolves to its type if and only if no member subscript is 0 |
| `RivlPath.WalkedLeafResolves` | EMS/Src/EmsRivl/EmsRivlGetVar.c:392-445 | a variable that the walk sets can be fetched by its own name if and only if no member subscript in it is 0 |
| `RivlPath.SubscriptsAreNotChecked` | EMS/Src/EmsRivl/EmsRivlGetVar.c:407-434 | replacing a nonzero subscript by any other one gives the same resolution |
| `RivlFetch.Fetched` | EMS/Src/EmsRivl/EmsRivlGetVar.c:367-445 | what a path leads to, a whole array included, has exactly the variables that the whole has below that name, each at the same place |
| `RivlFetch.FetchByText` | EMS/Src/EmsRivl/EmsRivlGetVar.c:334-630 | when names contain none of '.', '(' and ')': fetching any part of a variable by the text of its name sets exactly the variables that fetching the whole variable sets with names below that text, each from the same place |
| `RivlFetch.LeafByText` | EMS/Src/EmsRivl/EmsRivlGetVar.c:334-630 | every variable that the walk sets can be fetched by the text of its own name, and is then the only one that is set, if and only if no subscript behind its first part is 0 |
| `RivlFetch.NamesAsText` | EMS/Src/EmsRivl/EmsRivlGetVar.c:569-614 | v.b(12) and w(0), printed and read |
| `RivlScope.StepKeepsScoped` | EMS/Src/EmsRivl/EmsRivlNameScope.c:95-214 | every command keeps names distinct, scopes live, and outer variables before inner ones |
| `RivlScope.RunKeepsScoped` | EMS/Src/EmsRivl/EmsRivlNameScope.c:95-214 | this holds after every run of declare, delete, BeginScope and EndScope |
| `RivlScope.OuterRun` | EMS/Src/EmsRivl/EmsRivlNameScope.c:180-214 | during a run inside a scope the outer variables change only by being deleted |
| `RivlScope.ScopeLeavesOuterVariables` | EMS/Src/EmsRivl/EmsRivlNameScope.c:180-214 | BeginScope, any run that stays inside, and EndScope leave exactly the outer variables that the run did not delete, in their old order; without deletions the state is restored |
| `RivlScope.StoreIsHistory` | EMS/Src/EmsRivl/EmsRivlNameScope.c:95-214 | after every run, read off the commands alone: the declared variables are those whose declaration found the name free and since then neither a deletion of the name or of all, nor the end of their scope, in the order declared, each with the number of scopes then open |
| `RivlVar.Rivl.constructor` | EMS/Src/EmsRivl/EmsRivlNameScope.c:67-68 | nothing declared, no scope open |
| `RivlVar.Rivl.FindByName` | EMS/Src/EmsRivl/EmsRivlVar.c:58-89 | the node of that name, or null exactly when there is none |
| `RivlVar.Rivl.GetByScope` | EMS/Src/EmsRivl/EmsRivlVar.c:284-316 | the first variable of the scope in list order, null for the global scope |
| `RivlVar.AppendingLinksTheLast` | EMS/Src/EmsRivl/EmsRivlVar.c:258-275 | appending a variable makes it the follower of the last one of its scope and of no other |
| `RivlVar.DroppingRelinks` | EMS/Src/EmsRivl/EmsRivlVar.c:128-153 | removing a variable hands its follower to its predecessor in the scope and changes no other chain |
| `RivlVar.RightForTheRest` | EMS/Src/EmsRivl/EmsRivlVar.c:128-153 | once a node is skipped in both chains, both are right for the other nodes |
| `RivlVar.Rivl.LinkByScope` | EMS/Src/EmsRivl/EmsRivlVar.c:264-269 | the node is hung behind the last of its scope |
| `RivlVar.Rivl.Add` | EMS/Src/EmsRivl/EmsRivlVar.c:237-278 | both chains are right again with the node at the end |
| `RivlVar.Rivl.Declare` | EMS/Src/EmsRivl/EmsRivlInterType.c:1072-1092 | refuses a taken name, otherwise appends a variable of the innermost scope |
| `RivlVar.Rivl.Unlink` | EMS/Src/EmsRivl/EmsRivlVar.c:131-137 | the named node is off the list and every other link is as before; nothing changes when there is none |
| `RivlVar.Rivl.UnlinkByScope` | EMS/Src/EmsRivl/EmsRivlVar.c:141-146 | the node is out of the chain of its scope and every other chain is as before |
| `RivlVar.Rivl.RemoveByName` | EMS/Src/EmsRivl/EmsRivlVar.c:92-150 | exactly that node is gone and both chains are right for the rest; says when a list has no such name, where the code destroys a pointer that was never set |
| `RivlVar.Rivl.DelVar` | EMS/Src/EmsRivl/EmsRivlRemoteDel.c:195-223 | refuses an unknown name, otherwise removes exactly that variable |
| `RivlVar.Rivl.DestroyAll` | EMS/Src/EmsRivl/EmsRivlVar.c:205-234 | no variable is left |
| `RivlVar.Rivl.BeginScope` | EMS/Src/EmsRivl/EmsRivlNameScope.c:95-115 | refuses a name of 128 characters or more, otherwise pushes the scope; says when the stack of 512 is full and the code writes behind it |
| `RivlVar.Rivl.ChainNames` | EMS/Src/EmsRivl/EmsRivlNameScope.c:182-197 | the chain names exactly the variables of the scope in their order |
| `RivlVar.Rivl.DeleteFirst` | EMS/Src/EmsRivl/EmsRivlNameScope.c:199-209 | one variable of the scope is removed and the walk goes on with the next one |
| `RivlVar.Rivl.DeleteChain` | EMS/Src/EmsRivl/EmsRivlNameScope.c:199-209 | exactly the variables of other scopes remain in their old order |
| `RivlVar.Rivl.EndScope` | EMS/Src/EmsRivl/EmsRivlNameScope.c:151-214 | refuses a name that is not the innermost scope's; otherwise tells the station all names of the scope, removes exactly its variables and pops it |
| `PktPattern.Evaluator.Reduce` | EMS/Src/EmsPacket/EmsPktPattern.c:718-724 | one operator and two operands are replaced by the result |
| `PktPattern.Evaluator.TakeToken` | EMS/Src/EmsPacket/EmsPktPattern.c:709-751 | one pass of the loop does what the pass function says on the stacks |
| `PktPattern.Evaluator.Validate` | EMS/Src/EmsPacket/EmsPktPattern.c:683-754 | the loop terminates, keeps both stacks inside their 256 entries for every sequence of fewer tokens, and ends with the outcome of the run function and the value left on top |
| `PktPattern.CloseFrame` | EMS/Src/EmsPacket/EmsPktPattern.c:717-724 | in front of an operator that cannot go on, NOT and then the pending binary operator are applied |
| `PktPattern.OnSecondNot` | EMS/Src/EmsPacket/EmsPktPattern.c:716-733 | a NOT behind a NOT makes the last operand or dummy below them false and changes nothing else, or pops an empty stack when there is none |
| `PktPattern.NoClosingOnStack` | EMS/Src/EmsPacket/EmsPktPattern.c:731-747 | a closing parenthesis never comes on the operator stack |
| `PktPattern.MachineFollowsScan` | EMS/Src/EmsPacket/EmsPktPattern.c:709-753 | from every state of the scan, for every token sequence without a misplaced token, the two-stack machine reaches the answer of the scan: value, mismatch, or a pop of an empty stack |
| `PktGrammar.EvaluatorComputes` | EMS/Src/EmsPacket/EmsPktPattern.c:709-753 | for every expression, with any number of NOTs before its operands: a pop of an empty stack exactly when it strikes what stands before it, otherwise only '#' on one stack and exactly the recursively computed value on the other |
| `PktGrammar.EvaluatorMeansGrammar` | EMS/Src/EmsPacket/EmsPktPattern.c:709-753 | for every expression without a NOT behind a NOT that value is the one the expression is written for, NOT binding tightest, AND and OR grouped to the left |
| `PktGrammar.ScanVerdict` | EMS/Src/EmsPacket/EmsPktPattern.c:709-753 | from every state of the scan, an infix sequence, NOT behind NOT included, is never malformed; it starves exactly when nothing is pending and two NOTs come next, and else yields a value exactly when its parentheses match those still open |
| `PktGrammar.RejectsExactlyMismatchedParentheses` | EMS/Src/EmsPacket/EmsPktPattern.c:735-742 | for every infix sequence: an empty stack is popped if and only if it opens with two NOTs (parentheses aside), otherwise the error value is returned if and only if the parentheses do not match, otherwise one operand is left |
| `PktGrammar.AcceptsExactlyTheGrammar` | EMS/Src/EmsPacket/EmsPktPattern.c:709-753 | an infix sequence is accepted if and only if it writes an expression that does not open with two NOTs, and the result is what the expression comes to |
| `PktNots.RightMeans` | EMS/Src/EmsPacket/EmsPktPattern.c:709-753 | when no right operand strikes its left one and even runs of NOT cancel out along every chain, what comes out is the value of the expression |
| `PktNots.Differing` | EMS/Src/EmsPacket/EmsPktPattern.c:709-753 | every other expression comes to a wrong value for some outcomes of its comparisons |
| `PktNots.RightExactly` | EMS/Src/EmsPacket/EmsPktPattern.c:709-753 | the evaluator returns the value of an expression for all outcomes of its comparisons if and only if it does not open with two NOTs and meets that condition |
| `PktNots.TwoNotsInFourPlaces` | EMS/Src/EmsPacket/EmsPktPattern.c:716-733 | four patterns with NOT behind NOT: one pops an empty stack, one loses its left operand, two are right |
| `Checksum.OnesSumIsFolded` | EMS/Src/EmsProtocol/EmsProtoIpv6.c:646-655 | the end-around-carry sum of all words is the plain sum with its carries folded |
| `Checksum.CheckSum16` | EMS/Src/EmsProtocol/EmsProtoIpv6.c:626-655 | the folding loop returns the complement of the folded sum |
| `Checksum.EftpChecksum` | EMS/Src/EmsEftp/EmsEftpSession.c:609-650 | for every buffer, the complement of the one's complement sum of its words |
| `Checksum.BufSum16` | EMS/Src/EmsProtocol/EmsProtoIpv6.c:578-623 | the bytes weighted by the parity of their offset, modulo 2^32, and the byte behind an empty buffer at an odd offset |
| `Checksum.ByteSumSplits` | EMS/Src/EmsProtocol/EmsProtoTcp.c:607-656 | the sum of a message is the sum of its chunks with running offset, odd chunks included |
| `Checksum.ByteSumIsWordTotal` | EMS/Src/EmsProtocol/EmsProtoIpv6.c:607-622 | at offset 0 it is the sum of the big-endian words, the last byte padded |
| `Checksum.PHeaderSum16` | EMS/Src/EmsProtocol/EmsProtoIpv6.c:529-575 | the words of both addresses, protocol and length, modulo 2^32 |
| `Checksum.Tcp6CheckSum` | EMS/Src/EmsProtocol/EmsProtoTcp.c:567-657 | header, options and payload of any lengths are summed as one message, onto which the bytes behind empty chunks at odd offsets are added |
| `Checksum.WholePacket` | EMS/Src/EmsProtocol/EmsProtoTcp.c:599-657 | options and payload that are not empty are summed behind the header in this order, with nothing else |
| `Checksum.StrayBytesSpoil` | EMS/Src/EmsProtocol/EmsProtoIpv6.c:607-612 | the 32-bit sum with stray bytes in it folds to the word of the sum without them if and only if it has wrapped around as often as they are worth, and is not 0 unless they are |
| `Checksum.StrayChecksumIsRight` | EMS/Src/EmsProtocol/EmsProtoTcp.c:599-657 | what the code computes with stray bytes is the RFC 1071 checksum if and only if that holds, which is that they are 0 while 32 bits hold the sum |
| `Checksum.EmptyPayloadBehindOddLength` | EMS/Src/EmsProtocol/EmsProtoTcp.c:639-655 | an empty payload behind one byte of header: the checksum is right if and only if the byte behind it is 0; and a sum of 2^32 + 5 comes right with a stray byte of 1 |
| `Checksum.Udp6CheckSum` | EMS/Src/EmsProtocol/EmsProtoUdp.c:430-490 | the same for a UDP packet |
| `Checksum.PseudoHeaderTotal` | EMS/Src/EmsProtocol/EmsProtoIpv6.c:570-572 | adding the length as one number folds to the same as the bytes of the RFC 8200 pseudo-header |
| `Checksum.SplitChecksumIsWholeChecksum` | EMS/Src/EmsProtocol/EmsProtoTcp.c:599-657 | the computed checksum is the RFC 1071 checksum of pseudo-header and message if and only if the plain sum fits 32 bits |
| `Checksum.TotalIsBounded` | EMS/Src/EmsProtocol/EmsProtoTcp.c:599-657 | it fits for every message of up to 130000 bytes |
| `Checksum.StoredChecksumVerifies` | EMS/Src/EmsProtocol/EmsProtoTcp.c:330-355 | with the checksum stored in the zeroed, even-aligned field the whole packet sums to all ones |
| `Checksum.EagerFoldingMatchesDeferred` | EMS/Src/EmsEftp/EmsEftpSession.c:634-649 | eager and deferred folding agree if and only if the plain sum fits 32 bits; it does for 65537 words, and not for 65538 words of ones |
| `Crc.CrcTable` | EMS/Src/EmsEftp/EmsEftpSession.c:72-110 | each of the 256 entries is its index shifted out bit by bit |
| `Crc.FeedsAreShifts` | EMS/Src/EmsEftp/EmsEftpSession.c:599-603 | feeding bits one by one is putting them into the register and shifting |
| `Crc.ShiftsApart` | EMS/Src/EmsEftp/EmsEftpSession.c:599-603 | only the low byte of the register meets the polynomial in eight shifts |
| `Crc.ByteAtATime` | EMS/Src/EmsEftp/EmsEftpSession.c:599-603 | one table step feeds the eight bits of a byte |
| `Crc.CalCrc` | EMS/Src/EmsEftp/EmsEftpSession.c:571-607 | for every byte string the loop returns the bit-serial CRC-32 |
| `Crc.BurstReachesRegister` | EMS/Src/EmsEftp/EmsEftpSession.c:599-603 | two different strings of up to 32 bits leave different registers |
| `Crc.BurstIsDetected` | EMS/Src/EmsEftp/EmsEftpSession.c:595-606 | messages that differ, and only within 32 consecutive bits, have different CRCs |
| `Crc.TrailerIsChecked` | EMS/Src/EmsEftp/EmsEftpSession.c:595-606 | 32 more bits behind a message leave 0xDEBB20E3 in the register if and only if they are its CRC, lowest bit first |
| `Crc.NothingHasCrcZero` | EMS/Src/EmsEftp/EmsEftpSession.c:595-606 | the register starts with what it is complemented with |
| `Crc.BitOrder` | EMS/Src/EmsEftp/EmsEftpSession.c:599-603 | bytes go in in their order, and of each byte the lowest bit first |
| `Dhcp.GetNextOption` | EMS/Src/EmsProtocol/EmsProtoDhcp.c:850-909 | the loop skips padding and finds the option, moving position and remaining length as the cursor function says |
| `Dhcp.CountOptions` | EMS/Src/EmsProtocol/EmsProtoDhcp.c:796-821 | for every payload on which the loop ends: accepts, refuses or leaves the payload at its front exactly as the passes of the cursor do, and counts the passes that find an option |
| `Dhcp.UnpackDhcpPayload` | EMS/Src/EmsProtocol/EmsProtoDhcp.c:763-838 | the filling pass, which restarts with the whole length each time, finds exactly the options that were counted, in order; without a length byte of 128 or more they are the options of the payload |
| `Dhcp.CountingEndsInTimeOrNever` | EMS/Src/EmsProtocol/EmsProtoDhcp.c:803-821 | the counting loop ends if and only if it ends within one pass more than the payload has bytes |
| `Turns.EndsInTimeOrNever` | EMS/Src/EmsProtocol/EmsProtoDhcp.c:803-821 | a loop over so many places ends if and only if it ends within as many passes |
| `Dhcp.UnpackedByPasses` | EMS/Src/EmsProtocol/EmsProtoDhcp.c:796-837 | without a length byte of 128 or more the loop ends, accepts exactly what unpacks, and its entries are the unpacked options |
| `Dhcp.WrittenIsUnpacked` | EMS/Src/EmsProtocol/EmsProtoDhcp.c:796-837 | options with codes other than 0 and lengths below 128, padded in front or not, with an end option, padding or nothing behind, unpack to themselves |
| `Dhcp.UnpackedIsWritten` | EMS/Src/EmsProtocol/EmsProtoDhcp.c:796-837 | every payload that unpacks was written that way |
| `Dhcp.AcceptsExactlyProperOptions` | EMS/Src/EmsProtocol/EmsProtoDhcp.c:796-837 | a payload unpacks if and only if it is such a sequence, and yields exactly its options; where no length byte of 128 or more is met, that is when it is accepted |
| `Dhcp.RefusedEndings` | EMS/Src/EmsProtocol/EmsProtoDhcp.c:809-818 | padding before the end option, or an unfollowed last option without value, makes any payload invalid |
| `Dhcp.LongLengthMisplacesCursor` | EMS/Src/EmsProtocol/EmsProtoDhcp.c:901-908 | the cursor moves behind the option if and only if the length byte is below 128, backwards if and only if it is from 128 to 253, stays where it is if and only if it is 254, and moves one byte on if and only if it is 255 |
| `Dhcp.EndlessAt254` | EMS/Src/EmsProtocol/EmsProtoDhcp.c:803-821 | a first option with the length byte 254 keeps the counting loop going forever |
| `DhcpInclude.DhcpOptionListInclude` | EMS/Src/EmsProtocol/EmsProtoDhcp.c:948-982 | true exactly when the list is not longer and each of its options equals the first one of its code in the other |
| `DhcpInclude.FirstStandsFirst` | EMS/Src/EmsProtocol/EmsProtoDhcp.c:955-975 | the first option of a code is the one with no option of that code before it |
| `DhcpInclude.IncludedIsSubset` | EMS/Src/EmsProtocol/EmsProtoDhcp.c:911-922 | inclusion implies a subset that is not longer, and is implied by it when the list has one option per code |
| `DhcpInclude.RepeatedCodeIsMissed` | EMS/Src/EmsProtocol/EmsProtoDhcp.c:962-971 | of two different options with one code at least one is reported missing from the list that holds both |
| `DhcpInclude.SubsetExactlyForOneOptionPerCode` | EMS/Src/EmsProtocol/EmsProtoDhcp.c:948-982 | inclusion is the subset test, for all lists that are not longer and for all lists without a repeated code, if and only if options of the same code are the same |
| `LogReport.ItemsAfterRecord` | EMS/Src/EmsLog/EmsLogReport.c:781-919 | a record changes the item of its own category, creates it when it is new, and leaves the others |
| `LogReport.AfterIsHistory` | EMS/Src/EmsLog/EmsLogReport.c:781-919 | after every history the items and totals are those read off the history |
| `LogReport.CategoriesAreDistinct` | EMS/Src/EmsLog/EmsLogReport.c:781-786 | every recorded category occurs, and once |
| `LogReport.CategoriesInOrder` | EMS/Src/EmsLog/EmsLogReport.c:781-869 | categories recorded later come later |
| `LogReport.CasesInOrder` | EMS/Src/EmsLog/EmsLogReport.c:801-835 | cases recorded later come later, and counts add up |
| `LogReport.ReportIsHistory` | EMS/Src/EmsLog/EmsLogReport.c:973-1135 | the report lists categories in the order first recorded with their counts, the totals, and all failed and passed cases in the order recorded |
| `LogReport.TotalsAreSums` | EMS/Src/EmsLog/EmsLogReport.c:801-822 | each total is the sum over the categories |
| `LogReportList.Push` | EMS/Src/EmsLog/EmsLogReport.c:861-867 | the new entry is in front, `Prev` still inverts `Next` |
| `LogReportList.Last` | EMS/Src/EmsLog/EmsLogReport.c:973-978 | the walk ends at the oldest entry |
| `LogReportList.ReportItem.Add` | EMS/Src/EmsLog/EmsLogReport.c:801-835 | the case is counted and listed by its status, counts stay list lengths |
| `LogReportList.ReportItem.FailedWalk` | EMS/Src/EmsLog/EmsLogReport.c:1046-1076 | the failed cases of an item, oldest first |
| `LogReportList.ReportItem.PassedWalk` | EMS/Src/EmsLog/EmsLogReport.c:1102-1132 | the passed cases of an item, oldest first |
| `LogReportList.ReportInfo.FindItem` | EMS/Src/EmsLog/EmsLogReport.c:781-786 | the item of the category, or none when there is none |
| `LogReportList.ReportInfo.PushItem` | EMS/Src/EmsLog/EmsLogReport.c:845-869 | a new item in front, the others untouched |
| `LogReportList.ReportInfo.AddTo` | EMS/Src/EmsLog/EmsLogReport.c:801-835 | one item gains the case and no other item notices |
| `LogReportList.ReportInfo.CountCase` | EMS/Src/EmsLog/EmsLogReport.c:801-837 | the item and the totals count the case, an unknown status is refused |
| `LogReportList.ReportInfo.SetReportItem` | EMS/Src/EmsLog/EmsLogReport.c:761-920 | recording does what the function on values says, a new category with an unknown status included |
| `LogReportList.ReportInfo.SummaryWalk` | EMS/Src/EmsLog/EmsLogReport.c:973-1004 | one line for each category, the first recorded first |
| `LogReportList.ReportInfo.FailWalk` | EMS/Src/EmsLog/EmsLogReport.c:1036-1079 | the failed cases of all categories |
| `LogReportList.ReportInfo.PassWalk` | EMS/Src/EmsLog/EmsLogReport.c:1092-1135 | the passed cases of all categories |
| `LogReportList.ReportInfo.GetReportInfo` | EMS/Src/EmsLog/EmsLogReport.c:944-1135 | the lines of the report |
| `LogReportList.GenerateReport` | EMS/Src/EmsLog/EmsLogReport.c:687-720 | recording any history and reporting it yields exactly the lines that the history describes |

## Left out

- Files, network capture, Win32 threads and handles, Tcl glue, the RPC transport and logging: I/O. File contents are byte sequences, wait outcomes and accepted write lengths are parameters, Tcl variables are a map.
- The linked session table of EFTP: opening a session clears its link after it was inserted (EMS/Src/EmsEftp/EmsEftpSession.c:1083), so the lists are only right while one session lives. Sessions are a map from what the comparison sees of a MAC address to packets; the sessions of one transfer follow one another.
- The checksum and CRC trailer of EFTP packets as it is assembled: it covers half of the length and fields that are not filled in yet. Both functions are modelled on arbitrary input.
- The address of the pool and queue nodes after they were freed, and out-of-memory: every allocation succeeds.
- CHAR8, CHAR16 and pointer values, the decimal and hexadecimal input syntax of values (a parsed number or truth value is taken), and the text that a decoded value is shown as.
- Splitting the text of a definition into type and name pairs; parsed members are taken. `INTN` is Int32 or Int64 for a whole run. The table of the basic types' names is a parameter of the registry.
- Variables that are pointers in `RivlTypeFindByVariableName`, and the character in front of an empty part of a name, which the code looks at.
- RivlNames.WalkNamesAreDistinct: prints indices as natural numbers, while the code prints indices of 2^31 and above as negative ones.
- `DelType`, `SetTargetBits` in mid-run and `EmsClearLocalScope`: each breaks what the other commands rely on.
- What the code does after it has followed a null pointer, destroyed a pointer that was never set, written behind the stack of scopes or read in front of a DHCP payload; the methods say when that happens and the model changes nothing then.
- Dhcp.CountOptions: requires that the loop ends, because a method has to, and so does `Dhcp.UnpackDhcpPayload`; on which payloads it does is stated apart.
- RivlGetVar.Interp.ParseByEType: takes the place of a digit as twice an offset in natural numbers, while the code computes it in 32 bits; the two differ for layouts of 2^31 bytes and more, which no message has room for.
- The error text of EndScope, which for a wrong name at depth 1 reads the name of the global scope that is not there.
- PktPattern.Evaluator.Validate: takes tokens and the truth of each comparison; lexing, field lookup and the limit of the pattern's length in characters are not modelled. The error value -1 is its own outcome, although a caller that tests it as a Boolean takes it for true.
- The conversion of IPv6 addresses to network order, which depends on the host; sixteen bytes in network order are taken. The rule that UDP sends 0xFFFF for a checksum of 0 is not in the code.
- `DhcpBuildOption` and its table of validators, GUID printing and parsing, and the fixed-length buffers that names are copied into: field by field copies.
- Freeing the lists after the report was written, and its column headings.
- Packet creation and unpacking for ARP, Ethernet, ICMP, IGMP and IP: field copies.

# Verification models

This project models the algorithmic cores of the repository and proves them correct. The
repository holds several independent programs; each part below names the one it models.

- **Compressed radix tree as a priority queue** (`A6/radix.c`): `Words`, `Ordering`, `RadixTree`,
  `TreeMemory`, `NodeWords`, `RadixProgram`. A tree is a value in which every node carries its
  address; a node is four words of the block the allocator handed out for it, the last two being
  counts or child pointers, and every access to a node is a load or store of such a word.
  `AddNumber` is the loop over pointers to node pointers, proved with the path
  walked so far as a context around the current subtree. The program as a whole refines a
  sorted list, and its nodes are exactly the allocator's live blocks at every moment.
- **Small-block allocator** (`A6/lib.c`): `SmallBlocks` is the heap as a value, `AllocatorCode`
  the code over a word-addressed memory in which free lists are linked through the blocks.
- **Plain trie** (`A5/resources/tiny_riscv/radix.c`): `PlainTrie`, the simple form the compressed tree is
  compared with, and `PlainProgram`, its code over nodes in memory.
- **Job queue and worker pool** (`A2/job_queue.c`, `A2/fibs.c`): `JobQueue` is the ring buffer, each method being
  one stretch of code under the mutex; `WorkerPool` interleaves those stretches for one
  pushing thread and any number of workers, with sleeping, broadcast and spurious wakeups.
- **Address table** (`A5/src/assembly.c`): `AssemblyTable`, linear probing over four slots and rehashing until
  everything fits.
- **SHA-256** (`A4/src/sha256.c`, of which `A3/src/sha256.c` is a copy): `Sha256Spec` states FIPS 180-4, `Sha256Code` is the
  streaming code on a little-endian host. The statement is itself pinned down: `Sha256Bits` says what
  its functions do to every bit, `Sha256Constants` (over the first 64 primes, `Primes`) that its
  constants are the roots the standard names, and `Sha256Example` that the digest of "abc" is the known one.
- **Peer protocol** (`A4/python/first_peer/peer.py`): `PeerBlocks` is cutting, shuffling, framing and reassembling a
  payload; `Membership` is registering with one bootstrap peer and informing the others.
- **Paged memory** (`A5/src/memory.c`): `PagedMemory`.
- **Buffered reader** (`A4/src/compsys_helpers.c`): `BufferedReader`.

`Options` and `Arithmetic` hold an option type and facts about remainders.

Conventions. Words are 32-bit bit-vectors wherever masks or wrap-around matter: a number with
its top bit clear is a non-negative `int`. Structural proofs hide the bit-level definitions and
use the lemmas of `Words`. Randomness (the shuffle), short reads, interruptions, scheduling and
the checksum of the peer protocol are parameters or nondeterministic choices, so every claim
holds for all of them. Preconditions stand for what the C code leaves undefined: a request whose
rounded size overflows `int`, releasing a pointer that is not live, a negative code address
(the remainder would be negative), a line buffer of length zero, pushing to a destroyed queue,
and, over a whole session of the buffered reader, a request whose size is negative as an `int`.

Where code and comments disagree the code is followed: the header of the job queue says that
`job_queue_pop` returns -1 once `job_queue_destroy` has been called, but the code first
hands out the jobs that still wait (`A2/job_queue.h:33-36`, `A2/job_queue.c:71-74`), and so does the model.

Some claims hold only under a condition, which is then exact. The worker pool can hang if and only if the queue has
capacity zero and there is a job (`WorkerPool.HangsOnlyWithoutRoom`). A peer address survives
its 16-byte field if and only if it fits and has no zero byte at its ends
(`PeerBlocks.IpSurvives`, `PeerBlocks.HostsRoundTrip`). A peer network becomes complete if and
only if its addresses are such that the bootstrap peer accepts and lists them unchanged
(`Membership.QuietMeansComplete`): a host of 17 bytes is silently cut, an empty host or a zero
port is declined, and one host with a colon stops all later registrations. A buffered request
is served in full if and only if its size survives the conversion to `int` or the stream ends
before that matters (`BufferedReader.GotInFull`). The plain trie sorts its input if and only if
no number has its highest bit set (`PlainTrie.LowIsSame`). After an error of the descriptor the
bytes a buffered read already moved to the caller's buffer are not counted (`BufferedReader.Reader.ReadN`).

## Model

| member | source | states |
|---|---|---|
| RadixProgram.RadixProgram.Process | A6/radix.c:238-275 | for every stream of commands, however it is cut into reads, the output of the command loop with its 100-element batches is that of a sorted priority queue, and after the cleanup the allocator has no live block |
| RadixProgram.RadixProgram.ProcessPiece | A6/radix.c:244-270 | the numbers of one read, in turn, have on output and tree the effect of the queue commands |
| RadixProgram.RadixProgram.TakeBatches | A6/radix.c:246-263 | a take of N outputs the min(N, size) smallest numbers and leaves exactly the others; it ends even when the tree runs empty |
| RadixProgram.RadixProgram.AddNumber | A6/radix.c:57-114 | the walk keeps the tree invariant and the correspondence of nodes, links and live blocks; the enumeration becomes the old one with the number in its sorted place, and the tree is the recursive insertion into the old one |
| RadixProgram.RadixProgram.SearchDifference | A6/radix.c:74-75 | the search for the most significant difference stops, at a set bit with no set bit above it |
| RadixProgram.RadixProgram.Inject | A6/radix.c:76-91 | the injected node replaces the subtree in its slot, links it and a new leaf on opposite sides, and changes nothing else |
| RadixProgram.RadixProgram.CreateLeaf | A6/radix.c:47-54 | a new leaf at an unused address counts the number once; all other nodes stay |
| RadixProgram.RadixProgram.TakeNumbers2 | A6/radix.c:172-203 | writes exactly the first min(room, size) numbers of the subtree, leaves the pruned rest in the slot, and gives back exactly the nodes that became empty |
| RadixProgram.RadixProgram.TakeLeaf | A6/radix.c:176-190 | the two counting loops at a leaf take its even number before its odd one, and release the leaf when both counts are zero |
| RadixProgram.RadixProgram.TakeInner | A6/radix.c:191-200 | taking from both subtrees in turn and releasing the node exactly when both are gone |
| RadixProgram.RadixProgram.TakeNumbers | A6/radix.c:205-209 | the taken numbers are a prefix of the sorted enumeration, the tree enumerates the rest, and the root is null exactly when nothing is left |
| RadixProgram.RadixProgram.ReleaseTree | A6/radix.c:212-220 | gives back every node of the subtree once |
| RadixProgram.RadixProgram.StoreField | A6/radix.c:4-10 | writing one field of a node changes that field in the words of its block, no other node and nothing of the allocator |
| RadixProgram.RadixProgram.AllocateNode | A6/radix.c:48 | a new node is a block not in use before; every other node keeps its words |
| RadixProgram.RadixProgram.ReleaseNode | A6/radix.c:186-199 | a released node is gone; every other node keeps its words |
| NodeWords.StoreInMemory | A6/radix.c:4-10 | the four words of different nodes never overlap, so a store into one node leaves all others as they are |
| NodeWords.AllocatedInMemory | A6/radix.c:47-48 | a block for a request of sizeof(struct node) has room for the four words, apart from those of all other nodes |
| RadixTree.EarlyReturnSame | A6/radix.c:68-93 | returning early with the leaf in place builds the same tree as leaving the side empty and going round the loop once more, as the comments describe the earlier form |
| RadixTree.InOrderSorted | A6/radix.c:35-54 | the branch bits make the enumeration of any tree satisfying the invariant ascending |
| RadixTree.InsertInv | A6/radix.c:57-114 | inserting keeps one-hot positions falling along paths, prefix agreement, sides decided by the branch bit, no empty leaf, no childless node |
| RadixTree.InsertContents | A6/radix.c:57-114 | inserting adds one occurrence of the number and nothing else |
| RadixTree.BranchInv | A6/radix.c:68-93 | where number and subtree first differ, the injected branch satisfies the invariant, with the new leaf on its side or with nothing there |
| RadixTree.NoMismatchAgrees | A6/radix.c:69-96 | an empty masked difference means the number agrees with the whole subtree above the node's position |
| RadixTree.RemoveInOrder | A6/radix.c:172-203 | taking k numbers drops exactly the first k of the enumeration |
| RadixTree.RemoveValid | A6/radix.c:172-203 | taking keeps the tree invariant |
| Words.TopDifferenceFound | A6/radix.c:74-75 | the position found is the highest set bit of the difference |
| Words.LowerBitsSelect | A6/radix.c:36-41 | the masks built by subtraction and complement select exactly the positions below, and from, the given one |
| Words.HigherBitsSelect | A6/radix.c:38-43 | the masks built by negation select exactly the positions above, and up to, the given one |
| Words.BitRangeSelects | A6/radix.c:44-45 | the range mask excludes its low position and includes its high one |
| Ordering.TakeGetsSmallest | A6/radix.c:245-263 | in the queue a take yields as many numbers as asked for or all, ascending, none larger than one that stays |
| Ordering.NothingLost | A6/radix.c:244-270 | over any command stream every number added is either output once or still waiting |
| Ordering.ServeAllSorted | A6/radix.c:244-270 | the queue stays sorted over any command stream |
| Ordering.AddMeaning | A6/radix.c:265-269 | a word below 2^31 outputs nothing and joins the queue, which stays sorted |
| Ordering.TakeMeaning | A6/radix.c:247-254 | for 1 <= N <= 2^31 - 1 the word 2^32 - N has its highest bit set and, on a sorted queue, outputs the first min(N, size) numbers, none larger than one that stays |
| Ordering.LeastTakesNothing | A6/radix.c:247-249 | the least int, whose negation is itself, takes nothing |
| Ordering.ServeInTurn | A6/radix.c:244-270 | a command stream in two parts is the first part and then the second from the queue it left, with the outputs in that order |
| Words.OrderIsNumeric | A6/radix.c:35-54 | the order in which the tree enumerates is that of the values of the words as binary numbers |
| TreeMemory.StoreLinked | A6/radix.c:58-64 | a store through a pointer to a node pointer replaces that one link and leaves everything around it linked as before |
| TreeMemory.PlugLinked | A6/radix.c:57-64 | memory holds the surroundings of a slot and the subtree in it exactly when it holds the whole tree |
| PlainTrie.SameEnumeration | A5/resources/tiny_riscv/radix.c:15-60 | after every sequence of adds, the compressed tree (with any node addresses) and the plain 31-level trie enumerate the same list |
| PlainTrie.AddIsQueueAdd | A5/resources/tiny_riscv/radix.c:15-39 | adding to the plain trie puts the number in its place of the printed list |
| PlainTrie.LowPrinted | A5/resources/tiny_riscv/radix.c:15-60 | after any sequence of adds the trie prints the lower 31 bits of the numbers, sorted |
| PlainTrie.LowIsSame | A5/resources/tiny_riscv/radix.c:13-24 | these are the numbers themselves if and only if none has its highest bit set |
| PlainTrie.LowIs | A5/resources/tiny_riscv/radix.c:13-24 | the lower 31 bits are the number without its highest bit |
| PlainProgram.PlainProgram.AddNumber | A5/resources/tiny_riscv/radix.c:15-39 | the loop over all 31 levels, creating missing nodes in place, does to the trie in memory what the recursive insertion does to the trie |
| PlainProgram.PlainProgram.PrintNumbers2 | A5/resources/tiny_riscv/radix.c:41-60 | prints the enumeration of the trie in memory |
| PlainProgram.PlainProgram.ReleaseTree | A5/resources/tiny_riscv/radix.c:66-74 | gives back every node of the subtree once |
| PlainProgram.PlainProgram.SortNumbers | A5/resources/tiny_riscv/radix.c:76-89 | adding numbers and printing them sorts their lower 31 bits, all memory is given back, and it sorts the numbers if and only if none has its highest bit set |
| PlainTrie.PrintedSorted | A5/resources/tiny_riscv/radix.c:41-60 | the plain trie prints in ascending order |
| SmallBlocks.AllocateInv | A6/lib.c:146-191 | a served request gets an aligned pointer not in use before, into a block of its rounded size inside the used area, with room for the request; other requests get null and change nothing; the heap invariant holds |
| SmallBlocks.ReleaseInv | A6/lib.c:193-201 | releasing a live pointer keeps the heap invariant |
| SmallBlocks.ReleaseThenAllocate | A6/lib.c:185-201 | a release followed by an allocation of the same rounded size returns the same pointer and restores the heap |
| SmallBlocks.UsedExactlyOnce | A6/lib.c:168-184 | free and live blocks cover every address of the used area exactly once and no other address |
| SmallBlocks.BlocksDisjoint | A6/lib.c:174-184 | two blocks with a common address are the same block |
| SmallBlocks.CarveInv | A6/lib.c:168-184 | carving a chunk keeps exact tiling, classes and distinctness |
| SmallBlocks.Run | A6/lib.c:141-201 | the heap invariant holds after every run of requests and releases of live pointers |
| SmallBlocks.RoundUpOk | A6/lib.c:152-160 | the rounded size is a whole number of steps below the largest class, and less than one step more than request and header |
| SmallBlocks.ServedExactly | A6/lib.c:148-165 | in any state satisfying the invariant a request gets a pointer if and only if its size is between 1 and 4084 |
| SmallBlocks.WhichBlock | A6/lib.c:155-190 | the class is the request and four bytes more in units of eight, rounded up; the block is the first free one of its class, or the first of a new chunk of 96 bytes for the least class and ten blocks for every other |
| AllocatorCode.RequestsThatFit | A6/lib.c:154-160 | the precondition on the request says exactly that its rounded size is an int |
| AllocatorCode.Allocator.constructor | A6/lib.c:141-144 | the heap starts empty |
| AllocatorCode.Allocator.SplitChunk | A6/lib.c:174-183 | the splitting loop links all blocks of a chunk in address order and writes nothing below it |
| AllocatorCode.Allocator.AllocateChunk | A6/lib.c:167-184 | a refill turns an empty list into the blocks of one new chunk |
| AllocatorCode.Allocator.Allocate | A6/lib.c:146-191 | memory, headers and free space follow the heap operation: every list stays an acyclic null-ended chain, every live block carries its size, and no payload word of a live block changes |
| AllocatorCode.Allocator.Release | A6/lib.c:193-201 | the size word leads back to the right class; links, headers and all remaining payloads are kept |
| AllocatorCode.Allocator.Store | A6/lib.c:188-190 | no write inside the payload of a live pointer disturbs the allocator |
| JobQueue.JobQueue.constructor | A2/job_queue.c:7-20 | a new queue is empty, neither destroyed nor freed |
| JobQueue.JobQueue.Push | A2/job_queue.c:46-62 | one round of push sleeps exactly when the queue is full and otherwise appends the job |
| JobQueue.JobQueue.Pop | A2/job_queue.c:64-89 | one round of pop sleeps exactly when the queue is empty and not destroyed, fails exactly when it is empty and destroyed, and otherwise returns and removes the oldest job |
| JobQueue.JobQueue.Destroy | A2/job_queue.c:22-34 | destroy raises the flag, and frees the array at once exactly when no job waits |
| JobQueue.JobQueue.DestroyCheck | A2/job_queue.c:27-34 | each later round frees the array exactly when no job waits |
| JobQueue.JobQueue.HeadPosition | A2/job_queue.c:54-56 | the head is where the tail gets after filled steps around the ring |
| JobQueue.Completed | A2/job_queue.c:46-89 | for any interleaving of completed pushes and pops, the jobs popped followed by those waiting are those waiting before followed by those pushed |
| JobQueue.CompletedJobs | A2/job_queue.c:46-62 | the jobs pushed are those of the push operations, in order |
| JobQueue.EveryPopServed | A2/job_queue.c:64-89 | when no pop comes before its job, every pop gets one, and together they get the earliest jobs in order |
| WorkerPool.StartInv | A2/fibs.c:90-102 | the program starts in a state satisfying the invariant |
| WorkerPool.InvNext | A2/job_queue.c:22-89 | every step of every thread, spurious wakeups included, keeps order and account of the jobs, leaves nobody asleep whose condition holds, and keeps the order of shutdown |
| WorkerPool.NoDeadlock | A2/fibs.c:54-121 | with room for a job and a worker, some thread can go on in every state that is not the end |
| WorkerPool.FreedIsFinal | A2/job_queue.c:31-34 | once the array is freed no step of any thread touches the queue |
| WorkerPool.DoneMeansProcessed | A2/fibs.c:107-120 | at the end every job has been processed exactly once, jobs were popped in order, and all workers have left |
| WorkerPool.MeasureDecreases | A2/job_queue.c:22-89 | every step but a spurious wakeup decreases an explicit measure |
| WorkerPool.RunsAreFinite | A2/fibs.c:54-121 | no run without spurious wakeups is longer than the measure of its start |
| WorkerPool.MaximalRunsFinish | A2/fibs.c:90-121 | every run of the program that cannot be continued has processed each job once, freed the queue and seen all workers leave |
| WorkerPool.HangsOnlyWithoutRoom | A2/job_queue.c:50-52 | with at least one worker, some run hangs if and only if the capacity is zero and there is a job |
| AssemblyTable.Assembly.Set | A5/src/assembly.c:87-105 | after any number of rehashes the table is the old map with the address set; the retry loop ends; the size never exceeds twice the bound on addresses unless it already did |
| AssemblyTable.Assembly.Get | A5/src/assembly.c:107-113 | returns the text last set, or the empty string |
| AssemblyTable.Assembly.GrowAndRehash | A5/src/assembly.c:53-85 | ends with a larger table that represents the same map, each entry within four wrapped probes of home; the retries end because a table larger than all addresses fits them |
| AssemblyTable.Assembly.FindEntry | A5/src/assembly.c:23-36 | four probes find the address exactly when the table holds it |
| AssemblyTable.Assembly.FindEmpty | A5/src/assembly.c:38-51 | the first free slot of the four probed, all probed before it being taken, or all four are taken |
| AssemblyTable.Assembly.constructor | A5/src/assembly.c:115-123 | a new table is the empty map |
| AssemblyTable.FullMeansSmall | A5/src/assembly.c:92-98 | when the home slot of a missing address is taken, the table is not larger than all addresses |
| AssemblyTable.StoreNewHome | A5/src/assembly.c:69-79 | in a table larger than all its addresses every entry is at its home slot |
| AssemblyTable.NotFoundAbsent | A5/src/assembly.c:26-35 | an address not met in its four probes is nowhere in the table |
| AssemblyTable.ProbesInTurn | A5/src/assembly.c:23-36 | the slots an entry may lie in are the four from the remainder of its address on, around the end of the table |
| Sha256Code.Context.Final | A4/src/sha256.c:395-424 | whatever pieces the message came in, the digest is that of FIPS 180-4 and whole blocks have been hashed |
| Sha256Code.Context.Update | A4/src/sha256.c:320-393 | appends the data to the message taken in, in any cutting, keeping hash value, buffer and bit count those of the message |
| Sha256Code.Context.PadMessage | A4/src/sha256.c:402-409 | the two updates append exactly the padding of section 5.1.1 of FIPS 180-4 |
| Sha256Code.PaddingParts | A4/src/sha256.c:402-404 | between 1 and 64 padding bytes, then the length, make up that padding |
| Sha256Code.LengthStored | A4/src/sha256.c:116-121 | the swapped length as the little-endian host stores it is the length most significant byte first |
| Sha256Code.Context.Guts | A4/src/sha256.c:211-318 | the block function is the hash step of section 6.2.2 of FIPS 180-4 |
| Sha256Code.Context.Schedule | A4/src/sha256.c:221-237 | the four moving pointers compute the message schedule |
| Sha256Code.AllRounds | A4/src/sha256.c:239-265 | sixteen times four macro rounds with moving pointers are the 64 rounds |
| Sha256Code.ChForm | A4/src/sha256.c:64 | the three-operation form of Ch is the standard's function |
| Sha256Code.MajForm | A4/src/sha256.c:65 | the form of Maj with ors is the standard's function |
| Sha256Code.DoRoundIsRound | A4/src/sha256.c:71-82 | the round macro is the standard's round |
| Sha256Code.SwapLoaded | A4/src/sha256.c:112-113 | loading a word on a little-endian host and swapping it gives the big-endian word |
| Sha256Code.Context.WriteHash | A4/src/sha256.c:411-423 | the digest bytes are the hash words, most significant byte first |
| Sha256Code.Context.constructor | A4/src/sha256.c:181-198 | a new context has taken in the empty message and holds the initial hash value |
| Sha256Spec.ZeroBytesLeast | A4/src/sha256.c:402-404 | no smaller number of zero bytes leaves room for the length at the end of a block |
| Sha256Constants.KIsCubeRoot | A4/src/sha256.c:84-101 | entry t of the round constants is, for the t-th prime p and n the integer cube root of p * 2^96, the low word of n |
| Sha256Constants.H0IsSquareRoot | A4/src/sha256.c:181-198 | entry t of the initial hash value is, for the t-th prime p and n the integer square root of p * 2^64, the low word of n |
| Primes.NthPrime | A4/src/sha256.c:84-101 | a prime with t < 64 primes below it is entry t of the table of primes |
| Sha256Bits.BigSigma0Bits | A4/src/sha256.c:66 | bit i of the result is the exclusive or of bits i + 2, i + 13 and i + 22 modulo 32 |
| Sha256Bits.BigSigma1Bits | A4/src/sha256.c:67 | bit i of the result is the exclusive or of bits i + 6, i + 11 and i + 25 modulo 32 |
| Sha256Bits.Sigma0Bits | A4/src/sha256.c:68 | bit i of the result is the exclusive or of bits i + 7 and i + 18 modulo 32 and of bit i + 3, if there is one |
| Sha256Bits.Sigma1Bits | A4/src/sha256.c:69 | bit i of the result is the exclusive or of bits i + 17 and i + 19 modulo 32 and of bit i + 10, if there is one |
| Sha256Bits.ChBits | A4/src/sha256.c:64 | every bit is that of y where x has a one and that of z where it has a zero |
| Sha256Bits.MajBits | A4/src/sha256.c:65 | every bit is the majority of the three |
| Sha256Example.DigestOfAbc | A4/src/sha256.c:320-424 | the digest of the three bytes of abc is the 32 bytes the standard's example gives, through all 64 rounds |
| PeerBlocks.TransferDelivers | A4/python/first_peer/peer.py:401-549 | for every payload, the empty one included, and every permutation of its blocks, the receiver returns the payload, finds its total checksum right and takes exactly the sent frames off the stream |
| PeerBlocks.AnyTotal | A4/python/first_peer/peer.py:543-546 | the receiver finds the total checksum of the last reply right if and only if it is that of the payload |
| PeerBlocks.CorruptIsRefused | A4/python/first_peer/peer.py:520-525 | a first block whose bytes do not have the checksum sent with them is refused, for any such stream |
| PeerBlocks.ShortIsBroken | A4/python/first_peer/peer.py:490-518 | a stream that ends within its first frame, or whose first block index is not below the number of blocks, raises |
| PeerBlocks.ErrorsAreRefused | A4/python/first_peer/peer.py:509-518 | any other status is refused at the first frame |
| PeerBlocks.SplitBlocks | A4/python/first_peer/peer.py:406-426 | the splitting loop yields the consecutive stretches of the payload, one empty block for an empty payload |
| PeerBlocks.AllPiecesAreData | A4/python/first_peer/peer.py:419-426 | the stretches in order are the payload |
| PeerBlocks.BuildAndSendResponses | A4/python/first_peer/peer.py:387-444 | what is sent is one frame for each block of the payload, in the shuffled order |
| PeerBlocks.EveryFrame | A4/python/first_peer/peer.py:401-441 | the frame at position j of the stream is that of block j, with the number of all blocks and the checksum of the whole payload in each |
| PeerBlocks.FramesJoin | A4/python/first_peer/peer.py:431-443 | the frames of blocks one after another are those of the first part followed by those of the second |
| PeerBlocks.FrameLayout | A4/python/first_peer/peer.py:686-711 | length, status, block number, number of blocks, checksum of the block, total checksum and block are at bytes 0, 4, 8, 12, 16, 48 and 80 |
| PeerBlocks.ReplyFields | A4/python/first_peer/peer.py:714-752 | the fields are read from the same places |
| PeerBlocks.UnpackWeighs | A4/python/first_peer/peer.py:723-734 | a field of four bytes is read as the sum of byte i times 256^(3-i) |
| PeerBlocks.PieceIs | A4/python/first_peer/peer.py:419-426 | block i is bytes 8116 * i to 8116 * (i + 1) of the payload; all but the last are full, and the last is not empty unless the payload is |
| PeerBlocks.CountIs | A4/python/first_peer/peer.py:409-416 | the number of blocks is the least that holds the payload, and one for an empty payload |
| PeerBlocks.SendToServer | A4/python/first_peer/peer.py:490-548 | the receiving loop has the outcome of reading replies off the stream one by one, for every stream |
| PeerBlocks.PermutationIsShuffled | A4/python/first_peer/peer.py:428-429 | shuffling loses and repeats no block |
| PeerBlocks.ParseAssembled | A4/python/first_peer/peer.py:686-752 | a frame in front of any stream is read back field by field and nothing beyond it |
| PeerBlocks.MessageRoundTrip | A4/python/first_peer/peer.py:631-683 | a request is read back field by field, the address as its field keeps it |
| PeerBlocks.MessageLayout | A4/python/first_peer/peer.py:643-652 | host, port, command, length and body are at bytes 0, 16, 20, 24 and 28 |
| PeerBlocks.IpFieldBytes | A4/python/first_peer/peer.py:643-646 | byte i of a host's field is that of the host, or zero past its end |
| PeerBlocks.StripIs | A4/python/first_peer/peer.py:665-681 | reading a field takes all zero bytes off both of its ends and nothing else |
| PeerBlocks.IpSurvives | A4/python/first_peer/peer.py:643-681 | an address is read back unchanged if and only if it fits its field and has no zero byte at its ends |
| PeerBlocks.HostsRoundTrip | A4/python/first_peer/peer.py:223-229 | the list sent to a registering peer is read back as it was if and only if every address in it survives its field |
| PeerBlocks.HostsKept | A4/python/first_peer/peer.py:599-608 | entry by entry, the list is read back as the fields keep it |
| PeerBlocks.HostLayout | A4/python/first_peer/peer.py:225-229 | an entry of the list is 20 bytes, the host in the first 16 and the port in the last four |
| PeerBlocks.KeptTwice | A4/python/first_peer/peer.py:643-681 | an address that has been over the wire once is not changed by going over it again |
| PeerBlocks.AnswerArrives | A4/python/first_peer/peer.py:223-236 | encoded, cut, shuffled, framed, received and decoded, the bootstrap's list arrives as the fields keep it, and nothing beyond it is taken off the stream |
| Membership.RequestArrives | A4/python/first_peer/peer.py:631-683 | a request to register arrives with the address as its field keeps it |
| Membership.InformArrives | A4/python/first_peer/peer.py:248-263 | an inform message arrives with the one address it is about, as its field keeps it |
| Membership.Inadmissible | A4/python/first_peer/peer.py:193-205 | an empty host or a port of zero is declined with status 3, and the list stays as it is |
| Membership.AlreadyListed | A4/python/first_peer/peer.py:211-219 | an admissible address on the list is declined with status 2, and the list stays as it is |
| Membership.NewlyListed | A4/python/first_peer/peer.py:221-233 | a new admissible address goes to the end of the list; if every address on it is free of colons the answer decodes to the whole list in order, as the fields keep it, and otherwise the registration ends with status 4 |
| Membership.TargetsInOrder | A4/python/first_peer/peer.py:245-255 | those told about a new peer are, in list order, all entries other than the teller and the new one before the first entry with a colon or nobody listening |
| Membership.Peer.Register | A4/python/first_peer/peer.py:193-233 | an empty host, a port zero and a listed address are declined without effect; otherwise the address is appended once and the answer is the whole list, unless a listed address cannot be split, which raises with the address already on the list; the reused variables hold the new address afterwards |
| Membership.Peer.InformOthers | A4/python/first_peer/peer.py:242-269 | every listed peer but the teller and the new one is called about the new one, in list order up to the first that cannot be split or reached |
| Membership.Peer.AddToNetwork | A4/python/first_peer/peer.py:281-308 | an inform adds the address decoded from it once; one too short for an address raises and adds nothing |
| Membership.Peer.MergeReply | A4/python/first_peer/peer.py:597-615 | every whole entry of the answer is added once; a cut entry raises after that |
| Membership.InitialInv | A4/python/first_peer/peer.py:836 | a network of the bootstrap peer alone satisfies the invariant |
| Membership.InvNext | A4/python/first_peer/peer.py:193-308 | every interleaving of registrations, answers and informs keeps lists free of duplicates and of addresses nobody registered, and, with proper addresses, every registered peer known to, or on its way to, every other |
| Membership.QuietMeansComplete | A4/python/first_peer/peer.py:193-308 | with nothing in flight every peer's list holds every started peer exactly once and nobody else if and only if the bootstrap peer is alone, or all hosts survive their field and have no colon, and all hosts but the bootstrap's are non-empty and their ports not zero |
| Membership.ImproperIncomplete | A4/python/first_peer/peer.py:193-233 | with an address that breaks that condition among two peers or more, the lists are not complete in any reachable state, quiet or not |
| Membership.DeliveryDecreases | A4/python/first_peer/peer.py:235-264 | every step but a new peer starting leaves less to be done |
| Membership.RunsDrain | A4/python/first_peer/peer.py:193-308 | as long as no new peer starts, every run is bounded by the work in flight where it begins, and the peers stay the same |
| Membership.MaximalRunsComplete | A4/python/first_peer/peer.py:193-308 | every run that only a starting peer could continue ends with complete lists exactly under that condition |
| Membership.NetworksComplete | A4/python/first_peer/peer.py:193-308 | the same for every run from the bootstrap peer alone, with any starts and any interleaving |
| Membership.FailingHosts | A4/python/first_peer/peer.py:193-205 | one host of each kind that does not get through: empty, without port, with a colon, too long, with a zero byte at its end, and what becomes of each |
| Membership.DeclinedRun | A4/python/first_peer/peer.py:193-220 | a declined peer ends up quiet, knowing itself only |
| Membership.RenamedRun | A4/python/first_peer/peer.py:193-264 | a peer whose address is changed on the way ends up quiet, listed under a name that is no peer's, which its own list then holds beside its real one |
| PagedMemory.Memory.constructor | A5/src/memory.c:10-13 | all 2^32 bytes start out zero |
| PagedMemory.Memory.GetPage | A5/src/memory.c:25-33 | allocating a page changes no word anyone can read |
| PagedMemory.Memory.WriteWord | A5/src/memory.c:35-44 | an aligned word write changes exactly its four bytes, in little-endian order; an unaligned one is refused and changes nothing |
| PagedMemory.Memory.WriteHalf | A5/src/memory.c:46-59 | the same for halfwords |
| PagedMemory.Memory.WriteByte | A5/src/memory.c:61-80 | a byte write changes exactly its byte |
| PagedMemory.Memory.ReadWord | A5/src/memory.c:82-91 | reads four bytes and changes none |
| PagedMemory.Memory.ReadHalf | A5/src/memory.c:93-106 | reads two bytes, zero-extended, and changes none |
| PagedMemory.Memory.ReadByte | A5/src/memory.c:108-128 | reads one byte, zero-extended, and changes none |
| PagedMemory.WithByteLanes | A5/src/memory.c:65-79 | masking and shifting a byte into a word changes its own lane and no other |
| PagedMemory.WithHalfLanes | A5/src/memory.c:55-58 | masking and shifting a halfword into a word changes its two lanes and no other |
| PagedMemory.CellsDistinct | A5/src/memory.c:27-43 | addresses share a cell of the page table if and only if they lie in the same word |
| PagedMemory.WriteThenReadWord | A5/src/memory.c:35-91 | an aligned word is read as it was written |
| PagedMemory.WriteThenReadHalf | A5/src/memory.c:46-106 | an aligned halfword is read as the low 16 bits written |
| PagedMemory.WriteThenReadByte | A5/src/memory.c:61-128 | a byte is read as the low eight bits written |
| PagedMemory.LaneBits | A5/src/memory.c:108-128 | bit i of byte k of a word is its bit 8 * k + i |
| PagedMemory.HalfBack | A5/src/memory.c:102-105 | the first two bytes of a word, put together as a halfword, are its low 16 bits |
| PagedMemory.WordOfHalves | A5/src/memory.c:82-106 | the four bytes of a word are its lower halfword and, 16 bits up, its upper one |
| BufferedReader.Reader.Read | A4/src/compsys_helpers.c:11-35 | hands out between one byte and n bytes of the stream, none only at its end and fewer than n only when that empties the buffer, and keeps the rest, however the descriptor delivers or interrupts; n converted to int being zero hands out nothing, and being negative is a copy of negative length |
| BufferedReader.Reader.ReadN | A4/src/compsys_helpers.c:96-111 | returns exactly as many bytes as RequestGets says, in order, and faults exactly when the first copy would have negative length; an error is reported only if the descriptor fails |
| BufferedReader.GotInFull | A4/src/compsys_helpers.c:28-30 | the next n bytes, or all there are, are returned if and only if n is below 2^31, or the stream is empty, or the low 32 bits of n are below 2^31 and the stream holds no more bytes than they say |
| BufferedReader.RequestGets | A4/src/compsys_helpers.c:28-30 | with the low 32 bits of the size below 2^31, that many bytes or all there are; otherwise nothing of an empty stream and a fault on any other |
| BufferedReader.LargeRequests | A4/src/compsys_helpers.c:28-30 | requests for 2^32 and 2^31 bytes are not: one looks like the end of the stream, the other copies a negative length |
| BufferedReader.Reader.ReadLine | A4/src/compsys_helpers.c:116-138 | returns exactly the next line, or as much of it as fits |
| BufferedReader.LineMeaning | A4/src/compsys_helpers.c:121-137 | a line ends at its only newline, at the bound or at the end of the stream |
| BufferedReader.PiecesAreConsecutive | A4/src/compsys_helpers.c:86-138 | the pieces cut off by any sequence of requests are consecutive from the front of the stream |
| BufferedReader.Session | A4/src/compsys_helpers.c:86-138 | for any mixture of the two calls the pieces depend on the stream alone, and pieces and remainder make up the stream |

## Left out

- `malloc`, `calloc` and heap exhaustion: allocation always succeeds, and addresses, free space, leaf counts and table sizes are unbounded integers. `AssemblyTable.Assembly.Set` bounds the table size by twice the address bound, so with addresses below 2^30 it stays an `int`.
- `A6/radix.c:256-259`: a write is complete; the retry does not advance the buffer, so a short write would repeat numbers.
- `A6/lib.c:15-128`: system calls, number formatting and parsing.
- PlainProgram.PlainProgram.AddNumber: a new node gets any unused address; the allocator beside the plain trie, which starts over at every call, is not modelled.
- WorkerPool.InvNext: destroying the mutex and the condition variables is not modelled, because workers still lock the mutex afterwards; freeing the array is.
- WorkerPool.RunsAreFinite: a thread that sleeps may wake up spuriously without bound, so runs with such wakeups have no length bound; the invariant and the absence of deadlock include them.
- `A5/src/assembly.c:125-138`: deleting the table.
- `burnStack`, the fast-copy variant and the big-endian variants of `A4/src/sha256.c`.
- Sockets: `recv` returns all bytes asked for if the stream has them. In `PeerBlocks` a stream that ends early and a block index out of range are outcomes of their own.
- Text encodings in `A4/python/first_peer/peer.py`: addresses are sequences of one-byte characters.
- File serving, pruning by time stamps and configuration in `A4/python/first_peer/peer.py`.
- Membership.QuietMeansComplete: no message is lost, no entry is pruned, a started peer listens at the address it was configured with, and all peers register with the same bootstrap peer; a port of 2^32 or more, which raises before anything is sent, is outside the model.
- BufferedReader.Reader.ReadN: after a failure of the descriptor the number of bytes already copied is lost, as in the code.
- `A4/src/compsys_helpers.c:37-81` and `140-240`: unbuffered reading and writing, and opening sockets.
- The other assignments: file type guessing (`A0`), indexes over records (`A1`), histograms (`A2/fhistogram-mt.c`), the C client (`A3/src/networking.c`), the C peer (`A4/src/peer.c`) and the instruction simulator (`A5/src/simulate.c`).

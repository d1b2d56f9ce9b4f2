# d-chat: the replicated hash chain, verified in Dafny

Each d-chat node keeps a hash chain of blocks in a SQLite table, one block a message. A sender builds a
block on its tip, offers it to every peer in turn and stores it if nobody refused. A node that starts up
pages in the blocks it misses from one trusted host. This project models that chain and its commit and
sync protocol, and proves what it guarantees: on one node, over every interleaving of the client and
server threads of any number of nodes, and over whole sequences of sends.

Check it with `dafny verify dfyconfig.toml` (Dafny 4.11).

| file | what it models |
|---|---|
| `Hex.dfy` | `toHex`, `fromHex` |
| `Blocks.dfy` | blocks, canonical text, hashes, the cryptography they are given |
| `Chain.dfy` | valid chains as sequences; what a hash says about the history before it |
| `ChainDB.dfy` | the `blocks` table with ids and a UNIQUE hash; class `Repo` over it |
| `TextMessages.dfy` | peers, text messages, their encrypted form |
| `BlockchainService.dfy` | making, validating and storing blocks; class `Service` |
| `Protocol.dfy` | the commit protocol as a state machine; exclusivity of commits |
| `Validity.dfy` | exactly when chains stay valid |
| `Agreement.dfy` | ids, quorums, divergence over whole runs |
| `Witnesses.dfy` | runs that show which hypotheses are needed, and blocks to run them on |
| `PeerService.dfy` | the peer list and its pages; class `Peers` |
| `ChatApplication.dfy` | start-up: paging, batch validation, insertion; class `Application` |
| `Messages.dfy` | the `messages` table and the check of a chat against the chain |
| `Sending.dfy` | offers and broadcasts; the broadcast is a run of the protocol |
| `Broadcasts.dfy` | what one broadcast leaves behind at every node, exactly |
| `Delivery.dfy` | a whole send, alone, among other threads and in sequence; class `Cluster` |

## How to read the results

**Cryptography is a parameter.** A value of type `Crypto` holds the digest (any function into 32 bytes)
and the signature and encryption operations. `Lawful` is what matching keys promise; `LawsAreConsistent`
shows that a scheme like the test suite's satisfies it.

**"Or two blocks clash."** No digest into 32 bytes is injective, so a statement such as "or there are two
texts with one hash" would always be true and say nothing. Where a result needs hashes to tell blocks
apart, its alternative is a `Clash` between two blocks *of the chains or the run it speaks about*:
different canonical texts, one hash (by `ClashIsDigestCollision`, one digest).

**Sameness across nodes** is sameness of hashes and canonical texts. The hash does not cover the signature.

**The state machine.** A step belongs to one thread of one node, and every interleaving is a run. The code's
`insertBlock` is two separately locked database calls, a look-up of children and an INSERT, and so it is
here: a node's client and server threads can both be between them. Blocks may reach a server from anywhere,
at any time, and either thread may give up at any point. A commit is a send whose `storeAndBroadcastBlock`
returned true; its audience is the sender and the peers that answered. A peer that cannot be reached counts
as agreeing but is not in it.

**Valid chains.** Exclusivity of commits needs nothing of the chains. All chains of a run end valid exactly
when no INSERT of it stores a new block whose parent already has a child (`ValidUnlessForked`); this
covers nodes that start empty. The results on quorums and divergence are about runs that end with valid
chains, hence about exactly the runs without such an INSERT; `ForkHealsDivergence` shows that divergence
needs it. A node that starts non-empty and whose threads do not overlap in `insertBlock` never forks
(`StaleInsertsHarmless`).

**Where the code is not what its names or its documentation suggest**

- An empty node accepts a first batch whose first block names any parent (`EmptyNodeAcceptsOrphan`).
  `BatchIsWholeChain` says exactly when an accepted batch extends the chain validly.
- The guard "one child per parent" is off for the parent "0": an empty node can end with two first blocks
  (`EmptyChainForks`), and two empty nodes can both commit with each in the other's audience
  (`BothCommitOnZero`); on "0" exclusivity costs one of the two a valid chain (`CommitExclusivity`).
- `insertBlock` is not atomic: both threads of a node can pass its check and both insert (`OverlapForks`).
  A node that forked can take up a diverged node's blocks again (`ForkHealsDivergence`).
- A server that has validated a block may find another one stored before it inserts, and still acknowledges:
  two sends with a common acknowledger can both commit different blocks on one parent (`LateInsertSplits`).
  Their senders' chains lie on one line exactly when the acknowledger stored the lower block
  (`QuorumIntersectionExactly`).
- `removeMessageByBlockHashOrId` never removes by id: the DELETE by block hash succeeds even when it
  deletes nothing.
- The look-up of a non-tip parent in `validateIncomingBlock` never saves a block; it only picks the error.
- The 32-bit paging loops do not end for counts above 2^32 - 4 (`LoopsEndExactly`).
- One broadcast from equal chains can leave nodes apart on both paths: a peer that took the block before a
  later one refused keeps it, and an unreachable peer counts as agreeing, so the sender stores without it.
  `EqualChainsExactly` says exactly when chains stay equal. A block left behind makes every later broadcast
  on the old tip abort that can reach its holder (`OrphanBlocksSends`).
- A sender in its own peer list can abort and keep the block; the promise "all or nothing" holds exactly for
  senders that are not (`KeptExactly`, `AllOrNothingExactly`).
- The payload hash is that of the text up to its first NUL, so the chain does not protect what stands behind
  one (`BlockProtectsMessage`).
- At start-up the counts come from the trusted host that answers last (`LastAnswerStands`) and the pages
  from the one that answered first.
- The canonical text is ambiguous about where the payload hash ends and the author key begins; it is
  unambiguous exactly when neither holds a '|' (`UniquelyReadableExactly`).

## Model

| member | source | states |
|---|---|---|
| Protocol.CommitExclusivity | src/infra/network/TCPClient.cpp:109-138 | In every interleaving, of look-ups and INSERTs too, two sends on one parent never both commit with each sender in the other's audience, or two blocks of the run clash; except on "0", and then one of the two senders ends with an invalid chain |
| Protocol.SafeRun | src/domain/blockchain/BlockchainService.cpp:100-154 | The invariant behind it: acknowledgements and commits are in order, and commits and attempts whose look-up found no child exclude one another, through every run, or two blocks clash |
| Protocol.PassedLookUp | src/infra/blockchain/ChainDB.cpp:37-49 | A look-up that finds no child at a node: nobody with the node in its audience has committed, or looked before it, on this parent; on "0", where nothing is looked up, a child is in the way |
| Protocol.ChildAfterInsert | src/infra/blockchain/ChainDB.cpp:51-62 | After an INSERT, rejected or not, the parent has a child, or the block clashes with a stored one: what an acknowledgement is worth although the result is ignored |
| Protocol.NewCommitOk | src/domain/blockchain/BlockchainService.cpp:121-127 | A commit finds everyone in its audience with a child of its parent |
| Protocol.ClientGivesUp | src/infra/network/TCPClient.cpp:100-160 | A client busy with a block, sent or not, can give up at any point, and nothing changes but its being busy |
| Protocol.ServerGivesUp | src/domain/blockchain/BlockchainService.cpp:157-168 | So can a server busy with a request |
| Protocol.ServerInserts | src/domain/blockchain/BlockchainService.cpp:153-154 | A server's INSERT puts the block at the tip unless its hash is taken, and is acknowledged either way |
| Protocol.ClientInserts | src/domain/blockchain/BlockchainService.cpp:121-127 | A client's INSERT commits exactly when the hash is not taken, with the sender and the peers that answered as audience |
| Protocol.Phases | src/infra/network/TCPClient.cpp:81-143 | A client has one send at a time and takes it through its phases in order with one block, every peer asked before the look-up; a server one request; tables change by INSERTs only |
| Protocol.ValidatesExactly | src/domain/blockchain/BlockchainService.cpp:211-249 | A server's validation succeeds exactly when the extended chain is valid, the hash new and the time at most 300000 ms ahead of its clock |
| Protocol.ServerIgnoresClient | src/infra/blockchain/ChainDB.cpp:35-63 | What a node's server may do, and does to the table, does not depend on the node's client |
| Protocol.ClientIgnoresServer | src/infra/blockchain/ChainDB.cpp:35-63 | And the reverse |
| Protocol.ValidIsSound | src/domain/blockchain/BlockchainService.cpp:173-209 | Every chain that passes validateLocalChain may start a run: its blocks are self-consistent and name "0" or a hash as parent |
| Validity.ValidUnlessForked | src/infra/blockchain/ChainDB.cpp:35-63 | From valid chains, empty ones included, in every interleaving: all chains end valid exactly when no INSERT of the run stores a new block whose parent, "0" included, already has a child |
| Validity.InsertKeepsValid | src/infra/blockchain/ChainDB.cpp:51-62 | The INSERT of a block on "0" or on a stored block keeps a valid chain valid exactly when the parent has no child or UNIQUE rejects the block |
| Validity.StaleInsertsHarmless | src/domain/blockchain/BlockchainService.cpp:79-154 | From non-empty valid chains, when a node's threads do not overlap in insertBlock, every chain only grows at its end and always passes validateLocalChain, however stale a block is when it is inserted |
| Validity.SteadyRun | src/infra/blockchain/ChainDB.cpp:35-63 | The invariant behind it: what a look-up found still holds at the INSERT, in every reachable state |
| Agreement.QuorumIntersectionExactly | src/domain/blockchain/BlockchainService.cpp:107-154 | In every run that ends with valid chains, two committed blocks whose audiences share a node stand right above their parents' heights in that node's chain, their senders' chains agree below the lower one, and up to it exactly when the shared node has stored it (at one height: when both are the same); or two blocks clash |
| Agreement.QuorumIntersection | src/domain/blockchain/BlockchainService.cpp:141-154 | Where no server acknowledges a block its insertBlock refused, both blocks lie on the valid chain of every node their audiences share, and the senders' chains agree up to the lower one |
| Agreement.HeldRun | src/domain/blockchain/BlockchainService.cpp:153-154 | Where no server acknowledges a block its insertBlock refused, whoever acknowledged or committed a block has it, in every reachable state |
| Witnesses.LateInsertSplits | src/domain/blockchain/BlockchainService.cpp:141-154 | A run with valid chains in which a server validates, its node stores another block, and the server acknowledges: both sends commit with the node in both audiences, and the chains part at the block |
| Agreement.IdsStayConsecutive | src/infra/blockchain/ChainDB.cpp:19-63 | In every run ids without gaps keep none exactly when the engine consumes no id for a rejected INSERT |
| Agreement.RejectedHasChild | src/infra/blockchain/ChainDB.cpp:51-62 | An INSERT that UNIQUE rejects finds a child of its parent, which its look-up did not, or two blocks clash |
| Agreement.NoGapsOneAtATime | src/infra/blockchain/ChainDB.cpp:19-63 | From non-empty valid chains with threads that do not overlap in insertBlock, ids have no gaps whatever a rejection would do to the counter, or two blocks clash |
| Agreement.DivergenceIsPermanent | src/domain/blockchain/BlockchainService.cpp:224-246 | Once two nodes' hashes differ at a height they differ there for ever, and in every run that ends with valid chains the blocks made or accepted by both are exactly those both had already, sends in flight included, or two blocks clash |
| Agreement.DivergedAudienceAborts | src/infra/network/TCPClient.cpp:137-143 | After a divergence, in every run that ends with valid chains, no send commits with both sides in its audience unless both had taken its block before, or two blocks clash |
| Agreement.AnchoredRun | src/domain/blockchain/BlockchainService.cpp:79-98 | In every reachable state whoever made or accepted a block on a parent other than "0" has its parent |
| Agreement.ParentFixesHeight | src/domain/blockchain/BlockchainService.cpp:181-202 | A block of a valid chain stands where its parent stands in any other valid chain, over equal hashes, and the other chain has it exactly when it has its hash there, or the chains clash |
| Witnesses.EmptyChainForks | src/infra/blockchain/ChainDB.cpp:37 | A run of an empty node, without overlap, that ends with two blocks on "0" and an invalid chain |
| Witnesses.BothCommitOnZero | src/infra/blockchain/ChainDB.cpp:37 | A run of two empty nodes that both commit on "0" with each in the other's audience |
| Witnesses.OverlapForks | src/infra/blockchain/ChainDB.cpp:37-62 | A run in which both threads of a node look for a child of the tip before either inserts: both blocks are stored and the chain is invalid |
| Witnesses.ForkHealsDivergence | src/infra/blockchain/ChainDB.cpp:37-62 | A run in which a node forks and takes the tip of a diverged node behind its own block; then both accept the same new block |
| Witnesses.TipBlocksExist | src/domain/blockchain/BlockchainService.cpp:79-98 | A lawful scheme and blocks of it on which these runs on a non-empty chain happen |
| Witnesses.FirstBlocksExist | src/domain/blockchain/BlockchainService.cpp:79-98 | A lawful scheme and two first blocks of it on which the runs on "0" happen |
| Chain.HashFixesHistory | src/domain/blockchain/BlockchainService.cpp:181-202 | Two valid chains that share a hash hold it at one height and have the same canonical texts and hashes all the way down, or two of their blocks clash |
| Chain.NoRepeatedHash | src/domain/blockchain/BlockchainService.cpp:181-202 | No valid chain repeats a hash, or two of its own blocks clash |
| Chain.ChildlessIsTip | src/infra/blockchain/ChainDB.cpp:37-49 | In a valid chain with unique hashes exactly the tip has no child, so the one-child check is a compare-and-swap on the tip |
| Chain.FreshOnTip | src/domain/blockchain/BlockchainService.cpp:242-246 | A valid block on the tip carries a new hash or clashes with the holder of that hash |
| Chain.ValidAppend | src/domain/blockchain/BlockchainService.cpp:183-202 | A chain plus a block is valid exactly when the chain is and the block is self-consistent and names its tip |
| Blocks.CanonicalTimestamp | src/domain/blockchain/Block.cpp:46-51 | The canonical text always determines the timestamp |
| Blocks.CanonicalParent | src/domain/blockchain/Block.cpp:46-51 | With '\|'-free parents the text determines parent and timestamp |
| Blocks.CanonicalContent | src/domain/blockchain/Block.cpp:46-51 | With '\|'-free parents and payload hashes, equal texts mean equal content and the reverse, whatever the author key holds |
| Blocks.UniquelyReadableExactly | src/domain/blockchain/Block.cpp:46-51 | A block's text belongs to its content alone exactly when payload hash and author key are free of '\|' |
| Blocks.CanonicalOrder | src/domain/blockchain/Block.cpp:46-51 | The fields in order, for a sample time: parent, payload hash, author key, decimal time |
| Blocks.DecimalRoundTrip | src/domain/blockchain/Block.cpp:49 | The decimal timestamp reads back as the number and holds no '\|' |
| Blocks.ComputeHash | src/domain/blockchain/Block.cpp:53-57 | Sets the hash to the hash of the canonical text, which does not depend on the hash field |
| Blocks.Sha256Shape | src/utils/sha256.hpp:10-16 | A hash has 64 characters, none of them '\|', and is never "0" |
| Blocks.ClashIsDigestCollision | src/utils/sha256.hpp:10-16 | Two blocks' hashes clash exactly when their digests collide |
| Hex.ToHex | src/utils/hex.hpp:9-15 | The loop yields two digits a byte, in order |
| Hex.FromHex | src/utils/hex.hpp:17-27 | The loop decodes pair by pair as std::stoi does, with its exception as None |
| Hex.HexTextShape | src/utils/hex.hpp:9-15 | Twice as many characters as bytes, all lower-case hexadecimal |
| Hex.HexTextAt | src/utils/hex.hpp:9-15 | Every byte stands at its place as two lower-case digits, high digit first |
| Hex.StoiPairs | src/utils/hex.hpp:17-27 | What std::stoi makes of pairs that toHex never writes: upper case, blank, sign, a non-digit, an odd last character |
| Hex.HexRoundTrip | src/utils/hex.hpp:9-27 | fromHex undoes toHex |
| ChainDB.Repo.InsertBlock | src/infra/blockchain/ChainDB.cpp:35-63 | The row goes in under the next id exactly when no row has its hash and, unless its parent is "0", none has its parent; otherwise no row changes |
| ChainDB.InsertAppends | src/infra/blockchain/ChainDB.cpp:19-63 | An insert appends its block or leaves the list alone, keeps ids increasing and hashes unique, and succeeds exactly when no child and no equal hash is there |
| ChainDB.Repo.FindTip | src/infra/blockchain/ChainDB.cpp:184-204 | The last block, or the default block whose hash "0" is the tip hash of an empty chain |
| ChainDB.Repo.HasBlock | src/infra/blockchain/ChainDB.cpp:221-233 | True exactly when some row has the hash |
| ChainDB.Repo.FindBlockByHash | src/infra/blockchain/ChainDB.cpp:65-86 | Finds a stored block with the hash exactly when there is one, otherwise leaves the default block |
| ChainDB.Repo.LoadAllBlocks | src/infra/blockchain/ChainDB.cpp:235-245 | The blocks in id order |
| ChainDB.Repo.GetBlocksByIndexRange | src/infra/blockchain/ChainDB.cpp:88-135 | LIMIT/OFFSET from the start for "0", otherwise the first rows from the id after the named block plus start; nothing for an unknown hash |
| ChainDB.Repo.CountBlocksAfterHash | src/infra/blockchain/ChainDB.cpp:137-182 | Rows above the block's id, or all rows for "0" and for an unknown hash, cut to 32 bits |
| ChainDB.BlockRangeIsSlice | src/infra/blockchain/ChainDB.cpp:105-134 | With consecutive ids the range after block k is the clipped slice of the list from k + 1 + start |
| ChainDB.RangesAreSlicesExactly | src/infra/blockchain/ChainDB.cpp:123-134 | All ranges are the slices they mean exactly when no id is skipped |
| ChainDB.MissingAfterIsSuffix | src/infra/blockchain/ChainDB.cpp:150-181 | With consecutive ids the missing count is the length of the suffix after the block below 2^32 rows, and in general that with id and count cut to 32 bits |
| ChainDB.UnknownHash | src/infra/blockchain/ChainDB.cpp:121 | For an unknown hash every page is empty although the whole table is reported missing |
| BlockchainService.IncrementalIsWholeChain | src/domain/blockchain/BlockchainService.cpp:211-249 | A block is accepted exactly when the extended chain is valid, its hash is new and its time is at most 300000 ms ahead of the clock (64-bit sum); then the insert cannot fail; without a clash the new hash is implied |
| BlockchainService.SeparateReads | src/domain/blockchain/BlockchainService.cpp:224-246 | With the chain growing between validateIncomingBlock's look-ups, a block is accepted exactly when it was acceptable at findTip and its hash is still new at the last look-up, so the step of the machine is at findTip |
| BlockchainService.BatchIsWholeChain | src/domain/blockchain/BlockchainService.cpp:251-305 | A batch that extends the chain validly is accepted; an accepted one does so exactly when the node has a chain or the batch starts at "0" |
| BlockchainService.EmptyNodeAcceptsOrphan | src/domain/blockchain/BlockchainService.cpp:269-272 | An empty node accepts a lone valid block with any parent |
| BlockchainService.AcceptedBatchIsStored | src/app/ChatApplication.cpp:371-378 | Validate-then-insert yields the chain followed by the batch, or two of their blocks clash |
| BlockchainService.InsertAllAppends | src/app/ChatApplication.cpp:374-377 | When the joint chain is valid and repeats no hash every insert of the loop takes effect, in order |
| BlockchainService.NewBlockValid | src/domain/blockchain/BlockchainService.cpp:79-98 | With matching keys a new block passes validateSingleBlock and compareBlockWithMessage |
| BlockchainService.BlockProtectsMessage | src/domain/blockchain/BlockchainService.cpp:307-342 | The block made for a message matches another one exactly when author and time are the same and the texts up to their first NUL have one digest |
| BlockchainService.Service.ValidateSingleBlock | src/domain/blockchain/BlockchainService.cpp:30-49 | No error exactly when the signature verifies and the stored hash is the computed one; a bad signature is reported first |
| BlockchainService.Service.CreateBlockFromMessage | src/domain/blockchain/BlockchainService.cpp:79-98 | The block on the current tip for this message, signed over its canonical text |
| BlockchainService.Service.ValidateLocalChain | src/domain/blockchain/BlockchainService.cpp:173-209 | True exactly when every block names the hash before it, the first "0", and is self-consistent |
| BlockchainService.Service.ValidateIncomingBlock | src/domain/blockchain/BlockchainService.cpp:211-249 | Succeeds exactly for a self-consistent block on the tip with a new hash and a time not too far ahead; exactly when each of the six errors is given; "too far" is more than 300000 ms until the clock wraps |
| BlockchainService.Service.OnIncomingBlock | src/domain/blockchain/BlockchainService.cpp:130-169 | Refused blocks and requests that are no block change nothing; accepted ones are inserted and acknowledged whatever the insert says |
| BlockchainService.Service.AddNewBlockRange | src/domain/blockchain/BlockchainService.cpp:73-77 | Appends a page to the pending blocks |
| BlockchainService.Service.ValidateNewBlocks | src/domain/blockchain/BlockchainService.cpp:251-305 | True exactly when the pending blocks are linked, start at a local tip if there is one, and are self-consistent |
| BlockchainService.Service.InsertNewBlocks | src/app/ChatApplication.cpp:373-377 | Inserts the pending blocks one by one, results ignored |
| BlockchainService.Service.CompareBlockWithMessage | src/domain/blockchain/BlockchainService.cpp:307-342 | True exactly when author, time, the hash of the text up to its first NUL, and the signature match |
| ChatApplication.LoopsEndExactly | src/app/ChatApplication.cpp:350-368 | Both 32-bit paging loops end exactly when the count is at most 2^32 - 4 |
| ChatApplication.PagingSurvivesGrowth | src/app/ChatApplication.cpp:359-368 | Pages taken while the server's chain grows form one gap-free, repeat-free run after the client's tip, at least as long as reported and at most rounded up to whole pages, which validateNewBlocks accepts |
| ChatApplication.StartupSyncIsExact | src/app/ChatApplication.cpp:359-384 | Against one unchanging valid server chain, the local chain ends with the server's hashes when it is a prefix of it and is left alone otherwise, and is valid, or two blocks of the two chains clash |
| ChatApplication.SyncIsSafe | src/app/ChatApplication.cpp:371-382 | Whatever pages come, a node with a chain, or one answered from "0" on, stores the whole batch when the joint chain is valid and nothing when it is not, or two of its blocks clash |
| ChatApplication.EmptySyncIsSafe | src/app/ChatApplication.cpp:371-382 | An empty node stores nothing unless the blocks are self-consistent and in a row, then only blocks of the batch, and all of them in order unless a hash comes twice or the first parent is one of them |
| ChatApplication.LastAnswerStands | src/domain/chat/ChatService.cpp:90-101 | Hosts join the list in the order of their answers and the counts of the last answer stand |
| ChatApplication.OneHostChain | src/app/ChatApplication.cpp:359-384 | The count in the answer of a single unchanging host brings the client to the result of StartupSyncIsExact |
| ChatApplication.OneHostPeers | src/app/ChatApplication.cpp:346-357 | And its peer count makes the client's list the host followed by all the host's other peers but the client |
| ChatApplication.KnownTipIsPrefix | src/domain/chat/ChatService.cpp:76-80 | A server knows the client's tip exactly when the client's chain is a prefix of its own, or their blocks clash |
| ChatApplication.PeerPagingIsComplete | src/app/ChatApplication.cpp:346-357 | Against a server list that grows while it is paged, the client ends with its list followed, in order, by the server's peers that are neither itself nor known: all reported ones and those that joined in time for the last page, without duplicates |
| ChatApplication.Application.Init | src/app/ChatApplication.cpp:300-385 | The peer list after greeting the trusted hosts, paging and greeting all peers; the new table as a function of the old one and the pages, unchanged when the batch is refused; whether the local chain was valid and the batch stored |
| ChatApplication.Application.Greet | src/infra/network/TCPClient.cpp:27-40 | Each host that answers joins the peer list in order; the counts are those of the last answer, 0 without any |
| ChatApplication.Application.RequestBlocks | src/app/ChatApplication.cpp:359-368 | The loop collects the pages in order |
| ChatApplication.Application.RequestPeers | src/app/ChatApplication.cpp:346-357 | The loop adds the pages' peers in order |
| ChatApplication.Server.AnswerConnect | src/domain/chat/ChatService.cpp:65-88 | The client joins the peer list before it is counted; the missing count is that of the client's tip; both go into the answer |
| ChatApplication.Server.AnswerBlockRange | src/domain/chat/ChatService.cpp:193-209 | A page is the range query of the table |
| PeerService.Peers.AddPeer | src/domain/peer/PeerService.cpp:59-64 | Appends an unknown peer, keeps the list duplicate-free |
| PeerService.Peers.RemovePeer | src/domain/peer/PeerService.cpp:66-71 | Removes the first occurrence and nothing else; a duplicate-free list loses the peer |
| PeerService.Peers.GetPeer | src/domain/peer/PeerService.cpp:39-43 | The peer at the index, or the range exception as None |
| PeerService.Peers.AnswerPage | src/domain/chat/ChatService.cpp:131-160 | The positions of the page, clipped to the list, without the requester |
| PeerService.PageWraps | src/domain/chat/ChatService.cpp:131-160 | A page whose end does not fit into 32 bits is empty |
| PeerService.Peers.AddPage | src/domain/chat/ChatService.cpp:162-172 | Adds the page's peers one by one |
| PeerService.AddAllAppends | src/domain/peer/PeerService.cpp:59-64 | Adding a duplicate-free list appends exactly its unknown members, in order |
| TextMessages.SerializeRoundTrip | src/infra/message/TextMessage.cpp:31-77 | With matching keys both ends read back the message that was sent |
| TextMessages.ReadsExactly | src/infra/message/TextMessage.cpp:31-60 | A text is read exactly when it decrypts and its author's key verifies the signature of the plain text |
| Messages.MessageStore.InsertSecretMessage | src/infra/message/MessageDB.cpp:101-115 | Appends the row unless its message id is taken |
| Messages.MessageStore.FindBlockHashByMessageId | src/infra/message/MessageDB.cpp:83-99 | The block hash recorded for the message id, if there is a row |
| Messages.MessageStore.RemoveMessageByBlockHashOrId | src/domain/message/MessageService.cpp:70-75 | Deletes the rows of the block hash and always reports success; the removal by id never happens |
| Messages.RemoveKeepsOthers | src/infra/message/MessageDB.cpp:117-120 | Deleting by block hash keeps exactly the rows of other blocks |
| Messages.RecordStays | src/infra/message/MessageDB.cpp:101-120 | A message's row outlives every other insert and every removal for another block |
| Messages.StandsUntilRemoved | src/infra/message/MessageDB.cpp:101-120 | Over any sequence of inserts and removals a message's row stands exactly when the messages of its block are not removed |
| Messages.FindInvalidChatMessageIDs | src/domain/message/MessageService.cpp:35-61 | Lists, in order, the ids of the messages without a matching row, block and content |
| Messages.ListedExactly | src/domain/message/MessageService.cpp:35-61 | An id is listed exactly when a message with that id fails the check |
| Messages.InvalidExactly | src/domain/message/MessageService.cpp:35-61 | An id is listed exactly when a message with it has no block hash, no row with that hash, or no block in the chain that has the hash and matches |
| Messages.ForgeryIsListed | src/domain/message/MessageService.cpp:35-61 | A message that claims the block of another passes exactly when author and time are that one's and the texts up to their first NUL have one digest |
| Messages.ReadBackExactly | src/infra/message/TextMessage.cpp:31-60 | A stored message reads back as sent when cipher and signature hold and shows as crashed otherwise |
| Messages.MessageWithBlockIsOk | src/domain/message/MessageService.cpp:48-60 | A message whose block is in the chain and whose row stands passes at both ends |
| Sending.BroadcastIsProtocolRun | src/domain/blockchain/BlockchainService.cpp:100-128 | The sequential broadcast is a legal run of the state machine with the same tables at the end and a commit on record exactly when it returns true |
| Delivery.SendIsProtocolRun | src/infra/network/TCPClient.cpp:81-160 | A whole sendSecretMessage, also one that cannot send its text, is a legal run of the state machine: same tables, an idle client, and a commit on record exactly when it succeeds |
| Sending.OfferIsRun | src/infra/network/TCPClient.cpp:109-135 | One offer is a legal run: on to the next peer when unreachable or answered "{}", giving up otherwise |
| Delivery.SendIsAllOrNothing | src/infra/network/TCPClient.cpp:100-157 | A completed send, with nothing else in between, leaves the block in the sender's chain and the message at both ends, or no such block and no message with its hash at either end; or the block clashes with the sender's chain |
| Delivery.AllOrNothingExactly | src/infra/network/TCPClient.cpp:100-157 | A send is all or nothing whatever the network does exactly when the sender is not in its own peer list |
| Delivery.SendKeepsMessages | src/infra/network/TCPClient.cpp:100-157 | Whatever happens, a send touches no messages but the sender's and the receiver's, adds only its own row there, and removes none but rows of its own block, and only when it aborts |
| Delivery.SendKeepsChains | src/infra/network/TCPClient.cpp:100-157 | It touches no keys, no peer lists, and no chains but those of the sender and its peers |
| Delivery.RecordedExactly | src/infra/network/TCPClient.cpp:100-157 | After a send the message is on record at the sender exactly when it was committed, and at another receiver exactly when its handler ran and no notice of an abort reached it |
| Delivery.TextStoredExactly | src/domain/chat/ChatService.cpp:103-128 | A receiver stores a new text exactly when it decrypts and its author's key verifies it, and changes nothing otherwise |
| Delivery.InterleavedSendIsAllOrNothing | src/infra/network/TCPClient.cpp:100-157 | A send among any steps of any threads, with its own insert and, unless it commits, its own removal among any other traffic in both message tables: in the end the block is in the sender's chain and its row stands at both ends, or the block is not there and no row mentions it at either end; the sender's own server takes no block with this hash and the notice of an abort arrives |
| Delivery.MadeIsUnderway | src/domain/blockchain/BlockchainService.cpp:79-98 | A block made on a valid chain is such a send, or it clashes with the chain |
| Messages.RowOrNothing | src/infra/message/MessageDB.cpp:101-120 | Over the life of a message in one table its row stands in the end when its send committed, and otherwise no row mentions its block |
| Delivery.SerialAgreement | src/infra/network/TCPClient.cpp:81-143 | In a full mesh with equal chains and good clocks every send of a serial run commits, and all chains stay equal and valid and grow by one a send; or a made block clashes |
| Delivery.SerialSend | src/infra/network/TCPClient.cpp:81-143 | One such send commits and leaves every node with the block |
| Broadcasts.BroadcastReachesAll | src/domain/blockchain/BlockchainService.cpp:107-127 | When every peer has the chain and answers, sender and all asked peers end with the chain plus the block |
| Broadcasts.AnswersInTime | src/domain/blockchain/BlockchainService.cpp:218 | Before clocks wrap, answering peers have good clocks exactly when none is more than 300000 ms behind the timestamp |
| Broadcasts.BroadcastAtSender | src/domain/blockchain/BlockchainService.cpp:107-127 | A sender not asked itself ends with its chain plus the block when the broadcast reports success, and with its chain otherwise |
| Broadcasts.BroadcastTouches | src/domain/blockchain/BlockchainService.cpp:107-127 | A broadcast changes nothing but the chains of the sender and of the asked peers |
| Broadcasts.StoredExactly | src/domain/blockchain/BlockchainService.cpp:107-127 | From equal chains the sender stores exactly when every peer is unreachable or answers with a good clock, and otherwise keeps its chain |
| Broadcasts.TakenExactly | src/infra/network/TCPClient.cpp:109-135 | Peer k ends with the block exactly when every peer before it let the loop go on and it got the block with a good clock, and otherwise keeps its chain |
| Broadcasts.EqualChainsExactly | src/domain/blockchain/BlockchainService.cpp:107-127 | From equal chains one broadcast leaves the sender and all asked peers with equal chains exactly when every peer answers with a good clock, or the first peer that can be reached does not get the block or refuses it for its time |
| Broadcasts.StaleIsNotStored | src/domain/blockchain/BlockchainService.cpp:107-119 | No broadcast stores its block while a reachable asked peer has another tip than the block's parent |
| Broadcasts.OrphanBlocksSends | src/domain/blockchain/BlockchainService.cpp:107-119 | After a peer took a block, whatever became of its broadcast, every later broadcast of a block on the old tip that can reach this peer aborts, whoever sends it |
| Broadcasts.KeptExactly | src/domain/blockchain/BlockchainService.cpp:107-127 | A broadcast that aborts leaves its sender's chain alone, whatever the network does, exactly when the sender is not in its own peer list |
| Broadcasts.StoredHasBlock | src/domain/blockchain/BlockchainService.cpp:121-127 | A sender that reports success has the block, also when it was asked itself |
| Delivery.StoredMessageExactly | src/domain/message/MessageService.cpp:35-61 | Once a message's block is in a node's chain and its row in the node's table, at either end, a chat that shows the message lists it as invalid, in any later state of any run, exactly when the messages of its block were removed |
| Delivery.CommittedMessageExactly | src/domain/message/MessageService.cpp:35-61 | After a committed send, at the sender and at a receiver that has the block, the message reads back intact from the table and in every later state of every run is listed as invalid exactly when the messages of its block were removed |
| Delivery.CommitLeaves | src/infra/network/TCPClient.cpp:100-138 | A committed send leaves its block at the sender and at both ends a row with the right columns that reads back as the message |
| Delivery.Cluster.OfferBlock | src/infra/network/TCPClient.cpp:109-135 | Nothing changes but the peer's table, and that exactly when the request reaches it and it accepts; the loop goes on exactly when the peer is unreachable or accepts and answers |
| Delivery.Cluster.StoreAndBroadcastBlock | src/domain/blockchain/BlockchainService.cpp:100-128 | The nodes after the broadcast; success means the block is in the sender's chain |
| Delivery.Cluster.SendSecretMessage | src/infra/network/TCPClient.cpp:81-160 | The nodes after the whole send, on the commit and on the abort path; what it leaves alone at every node; all or nothing for a deliverable message of a sender that is not its own peer |

## Left out

- Sockets, threads, buffer sizes and the "Message is too big" exception: what remains is which requests were sent, handled and answered.
- SHA-256, OpenSSL, uuids and the wall clock: parameters. A crypto call that throws during validation is modelled as a signature that does not verify.
- SQLite: tables are sequences of rows. Bound texts with an embedded NUL, which SQLite would store cut short, and timestamps from 2^63 on, which it would store as floating point, are not modelled.
- Nodes as objects: the distributed part keeps node states as values in a map, so update in place and aliasing between nodes are not captured. Single-node components are classes.
- An exception during start-up paging: the first host that answered the greeting answers every page, with the list and the table it has then.
- ChatApplication.Application.Init: does not cover a missing or peer count above 2^32 - 4, because its loops never end there.
- JSON parsing of messages and blocks, and dispatch by message type: a request that is not a block is one `Malformed` case.
- findChatMessages' query and its sort by time: only the decryption of one stored message is modelled.
- removeMessageById and PeerDB: the first is never reached, the second is a thin wrapper.
- The `/send all` loop, disconnection messages and the console: user interface and plain calls of what is modelled.

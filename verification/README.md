# Verified models of a schnorr-mpc node

A Dafny project that models the parts of the node whose correctness is hardest to see, and proves what they promise.
Each part has two layers: functions and state machines on values, about which the theorems are stated, and classes,
loops and arrays in the form the program has, proved to compute those functions.

* Shared definitions: byte strings, 64-bit words, options and finite sets (`Bytes`, `Words`, `Common`).
* RLP codec (`Rlp*`): the encoder with its deferred list headers, the stream decoder with its stack, and that
  they are inverse to each other in both directions (Appendix B of the Ethereum Yellow Paper).
* Sparse bitset compression (`Bitset`): a bijection between byte strings and what the decoder accepts.
* Event feed (`Feed`, `FeedSend`): delivery to subscribers that come and go while a value is being sent.
* Peer-to-peer server and dial scheduler (`Dial`, `DialPolicy`, `DialHistory`, `DialState`, `Server`, `ServerLoop`): a
  state machine over the run loop and the goroutines it talks to, with limits and bookkeeping proved over all runs.
* RLPx framing (`ByteXor`, `Rlpx`, `Lockstep`, `RlpxLink`, `RlpxFrameRW`): two endpoints that stay in lockstep.
* Sub-protocol matching (`Lex`, `Match`, `MatchLoop`): both peers compute the same message code ranges.
* RPC client dispatch (`Rpc`, `RpcStops`, `RpcClient`): what happens on every response channel over all runs,
  and exactly when the loop waits for good.
* Ring signatures, one-time addresses, residue recombination and base58 (`Modular`, `RingSign`, `Garner`, `Base58`,
  `Base58Loop`).
* Account cache, wallets and account manager (`Accounts`, `AccountFiles`, `Wallets`, `AccountViews`, `AccountsLoop`).

Inputs the program takes from outside are parameters: random numbers, times, the order in which maps are walked, the
nodes a discovery table returns, the results of handshakes. Keccak, the key stream and block cipher, key agreement,
snappy and the elliptic curve are arbitrary functions with the laws stated where they are used; `RingSign.IntegersModN`
shows that the group laws have a model. Integers are unbounded except where the program's width matters: 64-bit sizes
and offsets, the 32-bit frame size and the 24-bit frame header wrap around or are checked as in the code.

Some promises do not hold as one might expect. They are stated exactly instead, each with an input or a run that shows
the failure:

* A payload whose 32-bit size wraps around together with its code is framed with a wrong header (`Rlpx.HeaderSizeExact`,
  `Rlpx.HugeMessageWraps`).
* Message codes 1 and 2 of the first sub-protocol are taken for disconnect and ping, since 0x11 and 0x12 lie in the range
  that starts at 16 (`Match.DeliveryExact`, `Match.FirstProtocolLosesCodes`); for the same reason pongs are handed to
  sub-protocols (`Match.BaseCodesHandedOn`). Code ranges beyond 2^64 are not routed (`Match.RoutingExact`,
  `Match.LongProtocolUnreachable`).
* A read error that arrives while a new connection is taken is dropped, and requests go on waiting (`Rpc.ReadLoopEnds`,
  `RpcStops.ReconnectLeavesRequestWaiting`). If a batch arrives instead, or if a read error arrives while a subscription
  is being ended, the dispatch loop stops for good (`RpcStops.StuckExact`, `RpcStops.ReconnectGetsStuck`,
  `RpcStops.UnsubscribeGetsStuck`).
* A wallet whose URL now belongs to another address is lost by one refresh (`Wallets.RefreshExact`,
  `Wallets.ReboundUrlLosesWallet`), and with several accounts under one URL perhaps by all
  (`Wallets.RefreshTimesExact`, `Wallets.RefreshNeverHelps`). The manager may then drop another wallet of the URL
  (`Wallets.ManagerExact`, `Wallets.ManagerDropsAnother`).
* Deleting an account by its file can miss it: with distinct paths exactly if the paths do not ascend, and otherwise as
  the route of the bisection decides (`AccountFiles.DistinctFoundExact`, `AccountFiles.FoundExact`,
  `AccountFiles.TwoSchemesNotFound`).
* Decompression accepts inputs that compression never produces (`Bitset.DecompressCanonical`,
  `Bitset.UncompressedNotCanonical`).

## Model

| member | source | states |
|---|---|---|
| `Bytes.ValueOfBigEndian` | rlp/encode.go:593-657 | The shortest big-endian form of a number reads back as that number and starts with no zero byte. |
| `Bytes.BigEndianOfValue` | rlp/decode.go:972-996 | A byte string without a leading zero, which readUint demands, is the shortest form of its own value. |
| `RlpFlat.DeferredHeadersEncode` | rlp/encode.go:215-250 | For every list of nested items, the flat string data with the list headers written aside (offset and payload size each) assembles to the recursive RLP encoding. |
| `RlpFlat.FlatSize` | rlp/encode.go:221-232 | Flat data plus the sizes of the deferred headers of an item is exactly the size of its encoding. |
| `RlpFlat.FlatHeadsInOrder` | rlp/encode.go:215-228 | The deferred headers of an item come in order of their offsets and stay within the string data, although list ends are handled inside out. |
| `RlpEncode.IntSize` | rlp/encode.go:651-657 | The loop counts exactly the bytes of the shortest big-endian form. |
| `RlpEncode.PutInt` | rlp/encode.go:593-648 | Writes the shortest big-endian form of the number into the buffer, returns its length, and touches nothing else. |
| `RlpEncode.PutHead` | rlp/encode.go:152-161 | Writes exactly the string or list header of the specification, and returns its length. |
| `RlpEncode.IntBytesMinimal` | rlp/encode.go:593-648 | The byte-by-byte shifts of putint give the shortest big-endian form. |
| `RlpEncode.Encbuf.EncodeStringHeader` | rlp/encode.go:194-203 | Appends exactly the header for a string of the given size. |
| `RlpEncode.Encbuf.EncodeString` | rlp/encode.go:205-213 | Appends the specification encoding of a byte string; a single small byte is its own encoding. |
| `RlpEncode.Encbuf.WriteUint` | rlp/encode.go:397-411 | Appends the encoding of the number as a byte string without leading zeros. |
| `RlpEncode.Encbuf.List` | rlp/encode.go:215-219 | Opens a list: a new header object with the current offset and the size written so far. |
| `RlpEncode.Encbuf.ListEnd` | rlp/encode.go:221-228 | Closes a list: the header object gets the payload size, and the size of its own header is added to the total. |
| `RlpEncode.Encbuf.WriteItem` | rlp/encode.go:498-532 | Writing one item adds exactly its flat data, its deferred headers and their sizes to the buffer, for every nested item. |
| `RlpEncode.Encbuf.ToBytes` | rlp/encode.go:234-250 | The assembled output is the concatenated recursive encodings of the written items, and fills the array of size() bytes exactly. |
| `RlpEncode.EncodeToBytes` | rlp/encode.go:99-107 | Encoding one item through the buffer gives its recursive RLP encoding. |
| `RlpEncode.EncReader.Next` | rlp/encode.go:312-344 | Hands out the next piece of string data or header without changing what is left to read; empty only at the end. |
| `RlpEncode.EncReader.Read` | rlp/encode.go:287-308 | Fills any buffer with the next bytes of the encoding, in order, and reports the end exactly when everything left did fit. |
| `RlpDecode.ReadKindSound` | rlp/decode.go:910-970 | An accepted header is the canonical header of the kind and size it reports. |
| `RlpDecode.ReadKindComplete` | rlp/decode.go:910-970 | Every canonical header is accepted with its kind and size. |
| `RlpDecode.NextKindSound` | rlp/decode.go:877-908 | A kind and size reported outside or inside lists belong to a canonical header whose value fits what encloses it. |
| `RlpRoundTrip.DecodeItemSound` | rlp/decode.go:495-517 | Whatever decodeInterface accepts, anywhere in a stream, is the encoding of the item it returns, and exactly that is consumed. |
| `RlpRoundTrip.DecodeElemsSound` | rlp/decode.go:322-349 | The elements read up to the end of a list are encoded by exactly the bytes of that list. |
| `RlpRoundTrip.DecodeItemComplete` | rlp/decode.go:495-517 | Where the encoding of an item lies ahead, that item is decoded and the stream is left right behind it. |
| `RlpRoundTrip.DecodeBytesExact` | rlp/decode.go:119-129 | A byte string decodes to an item if and only if it is that item's encoding. |
| `RlpRoundTrip.RoundTrip` | rlp/decode.go:119-129 | Decoding the encoding of any item gives the item back, with no list open and no input left. |
| `RlpRoundTrip.DecodeInjective` | rlp/decode.go:119-129 | No two byte strings decode to the same item. |
| `RlpRoundTrip.PrefixFree` | rlp/decode.go:119-129 | No encoding is a proper prefix of another. |
| `RlpStreamRuns.RunKeepsValid` | rlp/decode.go:764-795 | After every sequence of stream calls, failing or not, every open list has pos within size, together with the list nested in it. |
| `RlpStreamRuns.ReadsStayInside` | rlp/decode.go:1024-1042 | No call reads beyond the end of any list that stays open. |
| `RlpStreamRuns.RawIsWhatWasRead` | rlp/decode.go:679-701 | A raw value is byte for byte what was consumed, although its header is written anew. |
| `RlpStreamRuns.UintSound` | rlp/decode.go:710-741 | An accepted integer is the canonical encoding of its value and fits the width asked for. |
| `RlpStreamRuns.UintComplete` | rlp/decode.go:710-741 | The canonical encoding of every integer of that width is accepted. |
| `RlpReader.Stream.WillRead` | rlp/decode.go:1024-1042 | The limit checks and counter updates before a read, as the stream function says. |
| `RlpReader.Stream.ReadFull` | rlp/decode.go:998-1011 | The loop over partial reads delivers all requested bytes or an error, as the stream function says. |
| `RlpReader.Stream.ReadUint` | rlp/decode.go:972-996 | Reads a big-endian integer through the scratch buffer and refuses leading zeros, as the stream function says. |
| `RlpReader.Stream.ReadKind` | rlp/decode.go:910-970 | The tag byte is taken apart into kind and size, as the stream function says. |
| `RlpReader.Stream.NextKind` | rlp/decode.go:877-908 | The cached header or a newly read one, with the size checks, as the stream function says. |
| `RlpReader.Stream.OpenList` | rlp/decode.go:764-776 | Opening a list pushes a position, as the stream function says. |
| `RlpReader.Stream.CloseList` | rlp/decode.go:780-795 | Closing a list is refused before its end, and charges the enclosing list, as the stream function says. |
| `RlpReader.Stream.NextBytes` | rlp/decode.go:655-676 | Reads a byte string and refuses non-canonical single bytes, as the stream function says. |
| `RlpReader.Stream.NextRaw` | rlp/decode.go:679-701 | Reads a raw value and puts its header in front, as the stream function says. |
| `RlpReader.Stream.NextUint` | rlp/decode.go:710-741 | Reads an integer with its three kinds of errors, as the stream function says. |
| `RlpReader.Stream.DecodeElems` | rlp/decode.go:322-349 | The loop that collects elements until the end of the list, as the stream function says. |
| `RlpReader.DecodeBytes` | rlp/decode.go:119-129 | The whole decoder in its imperative form accepts a byte string with an item if and only if it is that item's encoding. |
| `Bitset.DecodeExact` | common/bitutil/compress.go:115-170 | A byte string decodes to an output of a given length if and only if it is the encoding of that output: the code is a bijection onto what it accepts. |
| `Bitset.DecodePartialSound` | common/bitutil/compress.go:130-170 | A successful partial decoding consumed exactly the encoding of its output. |
| `Bitset.DecodePartialExact` | common/bitutil/compress.go:130-170 | An encoding is decoded from the front of any input and used up exactly, unless it is empty and a nonzero byte follows; then it is not. |
| `Bitset.CompressRoundTrip` | common/bitutil/compress.go:60-112 | Decompressing compressed data gives the data back, also when compression was skipped. |
| `Bitset.UncompressedNotCanonical` | common/bitutil/compress.go:102-112 | Decompression also accepts data that compression would not have produced: an input that shows it. |
| `Bitset.DecompressCanonical` | common/bitutil/compress.go:60-112 | Compressing what was decompressed gives the input back exactly if the input is shorter than the output or would not have been shortened. |
| `Bitset.BitsetEncodeBytes` | common/bitutil/compress.go:71-97 | The loop that collects nonzero bytes and marks them, applied recursively, computes the encoding. |
| `Bitset.BitsetDecodePartialBytes` | common/bitutil/compress.go:130-170 | The loop that distributes bytes by their marks computes the decoding, its consumed length and its errors. |
| `Bitset.CompressBytes` | common/bitutil/compress.go:60-67 | Picks the encoding only if it is shorter. |
| `Bitset.DecompressBytes` | common/bitutil/compress.go:102-112 | Takes data of the target size as it is, decodes shorter data, refuses longer data. |
| `Feed.StepKeepsInv` | event/feed.go:104-185 | Every subscription, removal and delivery, in any order, keeps the case list split into unserved front and served rest behind index zero, and the channels balanced. |
| `Feed.RunKeepsInv` | event/feed.go:104-185 | Over every run of subscriptions, sends and removals the case list keeps its shape and the channels stay balanced. |
| `Feed.CasesAreSubscriptions` | event/feed.go:73-125 | In every run the channels in inbox and case list are, with multiplicity, those of the subscriptions that have not been removed. |
| `Feed.RemovalFindsItsCase` | event/feed.go:104-125 | In every run a removal taken by the idle feed or by a running send finds its channel at an index of at least one. |
| `Feed.SendDeliversOnce` | event/feed.go:129-185 | One send under any interleaving: each channel gets the value once for each subscription present at the start, less those removed before their turn; the result counts exactly the deliveries. |
| `Feed.SendProgress` | event/feed.go:129-185 | Every delivery or removal during a send shrinks the case list or its unserved front. |
| `FeedSend.FindIn` | event/feed.go:208-215 | Returns the first index with the channel, or minus one if there is none. |
| `FeedSend.DeleteIn` | event/feed.go:218-220 | Deletes one case and keeps the order of the others. |
| `FeedSend.DeactivateIn` | event/feed.go:223-227 | Swaps a served case behind the unserved front. |
| `FeedSend.Feed.Subscribe` | event/feed.go:73-93 | Appends the new channel to the inbox. |
| `FeedSend.Feed.RemoveFromInbox` | event/feed.go:104-113 | A channel still in the inbox is removed there. |
| `FeedSend.Feed.RemoveFromCases` | event/feed.go:114-124 | Without a send in progress the case is found and deleted. |
| `FeedSend.Feed.RemoveWhileSending` | event/feed.go:164-172 | The running send deletes the case from both views of the aliased slice, served or not. |
| `FeedSend.Feed.Send` | event/feed.go:129-185 | The send loop with tries, selects and removals: it ends with every case served or removed, the count right, and the invariant of the feed kept. |
| `Server.StepKeepsInv` | p2p/server.go:598-710 | Every select case, and every move of the goroutines around the loop, keeps dialing map and tasks, limits, counters, channel, peers and history in step. |
| `Server.ReachableInv` | p2p/server.go:547-710 | These invariants hold in every state that any run of the loop can reach. |
| `Server.DynamicLimit` | p2p/server.go:588-596 | Over every run, the nodes connected as dynamic or being dialed as dynamic never exceed maxDialedConns, also while a node is both. |
| `Server.AdmissionLimits` | p2p/server.go:735-773 | Before shutdown inboundCount is the number of inbound peers; untrusted inbound peers never exceed maxInboundConns, and peers that are neither trusted, static nor storeman never exceed MaxPeers. |
| `Server.DialingIsTasks` | p2p/server.go:553-596 | In every reachable state a node is being dialed exactly if one queued or running task dials it, no two tasks dial the same node, and no such node is in the history. |
| `Server.TaskdoneNeverBlocks` | p2p/server.go:553-586 | At most 37 tasks run, and a task that finishes always finds room in the taskdone channel. |
| `Server.HistoryAddIsNew` | p2p/server.go:653-659 | A finished dial is never in the history already, so that no node gets two entries. |
| `Server.NoEarlyRedial` | p2p/dial.go:229-344 | A node is dialed again only more than 30 seconds after its last dial finished, unless it was removed from the history; and never while it is connected. |
| `Server.ShutdownDrains` | p2p/server.go:712-733 | After quit every drop removes exactly one peer, nothing is added, and the map is empty exactly when no peer runs any more. |
| `Server.AdmitLimits` | p2p/server.go:745-758 | Accepting a connection that passes the checks keeps the inbound and total limits. |
| `Server.AdmitDyn` | p2p/server.go:673-692 | Admitting a dialed connection does not raise the dynamic count: it was counted while it was being dialed. |
| `Server.AdmitKeeps` | p2p/server.go:673-692 | Admission keeps the counter, the limits and the match of peer map and running peers. |
| `Server.DropKeeps` | p2p/server.go:701-708 | Dropping a peer keeps the counter, the limits and the match of peer map and running peers. |
| `Server.TaskDoneKeeps` | p2p/server.go:653-659 | Taking a finished task keeps dialing map, tasks, channel and history in step. |
| `Server.ScheduleKeeps` | p2p/server.go:588-596 | Starting queued tasks and asking the dialer for new ones keeps all invariants of the loop, for every order of map iteration. |
| `Server.NodeChangeKeeps` | p2p/server.go:606-647 | Adding and removing static or storeman nodes keeps all invariants. |
| `Server.StartInv` | p2p/dial.go:131-159 | The initial dial state, with static and storeman nodes loaded, satisfies the invariants. |
| `Dial.NewTasksKeeps` | p2p/dial.go:199-313 | One call of newTasks, for every iteration order and table contents: the dialing map stays the image of the tasks, the dynamic limit holds, only unconnected nodes outside the history are added, and only barred static or storeman nodes are given up. |
| `Dial.KeptAreDialed` | p2p/dial.go:232-260 | After a call no static or storeman node is missed: each is being dialed, connected, in the history, or was given up as barred. |
| `Dial.AddDialKeeps` | p2p/dial.go:205-214 | Adding one dial that passes the checks keeps dialing map and tasks in step and the dynamic limit. |
| `Dial.DialBufferedKeeps` | p2p/dial.go:289-296 | The loop over the lookup buffer keeps dialing map and tasks in step and the dynamic limit. |
| `DialPolicy.FreeSlotMeansLookup` | p2p/dial.go:287-301 | While a dynamic slot is free after a call, every lookup result has been tried and a lookup is running. |
| `DialPolicy.LoopKeepsTicking` | p2p/dial.go:303-310 | If nothing runs and nothing is issued, the history is empty; the timer issued otherwise runs exactly to the first expiry. |
| `DialPolicy.BootnodeTakesItsTurn` | p2p/dial.go:262-274 | Exactly when there are no peers, a slot is free and 20 seconds have passed, the first bootnode is tried and goes to the end of the queue. |
| `Dial.SomeChoice` | p2p/dial.go:199-313 | For every dialer an iteration order and a first entry exist, so the scheduling step can always happen. |
| `DialHistory.Up` | p2p/dial.go:461-463 | Sifting up restores the heap and keeps the entries, as a multiset. |
| `DialHistory.Down` | p2p/dial.go:482-486 | Sifting down restores the heap, or leaves it untouched with the children in order. |
| `DialHistory.RemoveAt` | p2p/dial.go:465-486 | Taking out any entry leaves a heap of exactly the others. |
| `DialHistory.RootIsFirst` | p2p/dial.go:458-460 | In a heap no entry expires before the one at index zero. |
| `DialHistory.RepresentsAdd` | p2p/dial.go:461-463 | Adding a node that is not in the history keeps one entry for each node. |
| `DialHistory.RepresentsExpire` | p2p/dial.go:482-486 | Expiry keeps one entry for each node and leaves exactly the nodes not before the time. |
| `DialHistory.DialHistory.Min` | p2p/dial.go:458-460 | Returns an entry that expires first. |
| `DialHistory.DialHistory.Add` | p2p/dial.go:461-463 | Adds one entry and keeps the heap. |
| `DialHistory.DialHistory.Remove` | p2p/dial.go:465-473 | Removes one entry of the node if there is one, says whether there was, and keeps the heap. |
| `DialHistory.DialHistory.Contains` | p2p/dial.go:474-481 | True exactly if the node has an entry. |
| `DialHistory.DialHistory.Expire` | p2p/dial.go:482-486 | Leaves exactly the entries that do not expire before the time, with multiplicity. |
| `DialState.CountDynamic` | p2p/dial.go:216-227 | Walking over a map counts its dynamic entries. |
| `DialState.DialState.constructor` | p2p/dial.go:131-159 | Loads static nodes and those storeman nodes that have an address, as the function on values says. |
| `DialState.DialState.CheckDial` | p2p/dial.go:323-338 | The five reasons not to dial a node, in their order. |
| `DialState.DialState.AddStatic` | p2p/dial.go:163-167 | Adds or replaces a static node. |
| `DialState.DialState.RemoveStatic` | p2p/dial.go:169-175 | Removes a static node and its history entry. |
| `DialState.DialState.AddStoreman` | p2p/dial.go:177-190 | Adds a storeman node, but forgets one that comes back with another text form; an incomplete node's text is its identity only. |
| `DialState.DialState.RemoveStoreman` | p2p/dial.go:192-197 | Removes a storeman node and its history entry. |
| `DialState.DialState.TaskDone` | p2p/dial.go:340-349 | A finished dial leaves the dialing map and gets one more heap entry, so that each node has one exactly if it had none; a finished lookup fills the buffer. |
| `DialState.DialState.RedialKept` | p2p/dial.go:232-260 | The loop over the static or storeman map, in any order, is the function on values for that order. |
| `DialState.DialState.TryBootnode` | p2p/dial.go:262-274 | The bootnode fallback. |
| `DialState.DialState.DialRandom` | p2p/dial.go:276-286 | At most half of the needed dials come from the table. |
| `DialState.DialState.DialLookupBuffer` | p2p/dial.go:287-296 | Takes nodes off the buffer while dials are needed. |
| `DialState.DialState.NewTasks` | p2p/dial.go:199-313 | The whole method returns the tasks and leaves the state that the function on values gives, for some possible iteration order. |
| `ServerLoop.ServerLoop.StartTasks` | p2p/server.go:574-586 | Starts tasks up to 37 and returns the rest in order. |
| `ServerLoop.ServerLoop.DelTask` | p2p/server.go:565-573 | Removes the first occurrence of a task. |
| `ServerLoop.ServerLoop.Schedule` | p2p/server.go:588-596 | One round of scheduling is the step of the state machine. |
| `ServerLoop.ServerLoop.TaskDone` | p2p/server.go:653-659 | Handling a finished task is the step of the state machine; the history keeps one entry for each node exactly if the node had none. |
| `ServerLoop.ServerLoop.AddStatic` | p2p/server.go:606-623 | Adding a node, as storeman if it is configured as one and as static otherwise, is the step of the state machine. |
| `ServerLoop.ServerLoop.RemoveStatic` | p2p/server.go:625-647 | Removing a node is the step of the state machine; the first configured storeman stays, and a disconnect is requested exactly if the node is a peer. |
| `ServerLoop.ServerLoop.PostHandshake` | p2p/server.go:660-672 | The trusted flag is set first; the connection passes exactly if it is not connected, not ourselves and within the limits, which trusted ones always are. |
| `ServerLoop.ServerLoop.AddPeer` | p2p/server.go:673-700 | A useful connection becomes a peer exactly if it passes the same checks against the peers of that moment. |
| `ServerLoop.ServerLoop.DelPeer` | p2p/server.go:701-708 | A dropped peer leaves the map, and the inbound count unless the server is stopping. |
| `RlpxLink.RlpxLockstep` | p2p/rlpx.go:600-720 | After a handshake, for every interleaving of writes and reads in both directions: messages arrive in order and unharmed, no authentication check fails, and after each frame read the reader's cipher position and hash state are those the writer had after writing it. |
| `RlpxLink.SecretsAgree` | p2p/rlpx.go:242-271 | Initiator and responder derive the same keys, and each one's egress hash is the other's ingress hash. |
| `Rlpx.MessageReadBack` | p2p/rlpx.go:600-720 | A message written is read back, plain or compressed, from any input it starts, and both ends move to the same state. |
| `Rlpx.OpenSealed` | p2p/rlpx.go:614-692 | Opening a frame gives its content and passes both authentication checks. |
| `Rlpx.Int24RoundTrip` | p2p/rlpx.go:734-742 | The three-byte frame size reads back. |
| `Rlpx.XoredTwice` | p2p/rlpx.go:622-692 | Decryption at the same key stream position undoes encryption. |
| `Rlpx.DecodeContentExact` | p2p/rlpx.go:692-698 | The message code in front of the payload is read back and the rest is the payload. |
| `Rlpx.RefusedUnchanged` | p2p/rlpx.go:600-619 | A refused message leaves cipher and hash as they were. |
| `Rlpx.HugeMessageWraps` | p2p/rlpx.go:609-616 | A message of 2^32 - 1 payload bytes is accepted and goes out under the frame size zero. |
| `Rlpx.HeaderSizeExact` | p2p/rlpx.go:614-619 | For a payload of the announced 32-bit size: the header is right exactly if code and payload together stay below 2^32; beyond, the sum wraps around and the message is accepted all the same. |
| `Lockstep.LinkIsFaithful` | p2p/rlpx.go:600-720 | Any codec that reads back single messages keeps two endpoints in step, message by message, under every interleaving. |
| `RlpxFrameRW.XorKeyStream` | p2p/rlpx.go:622-690 | The in-place loop is the key stream applied to the front of the buffer, the rest untouched. |
| `RlpxFrameRW.Reseed` | p2p/rlpx.go:722-732 | The loop over the cipher block is the hash update, and the tag its first 16 bytes. |
| `RlpxFrameRW.SealHeader` | p2p/rlpx.go:614-622 | The header is put together in the buffer and encrypted in place. |
| `RlpxFrameRW.FrameRW.constructor` | p2p/rlpx.go:578-598 | Both cipher streams start at zero, with the hashes of the secrets. |
| `RlpxFrameRW.FrameRW.Write` | p2p/rlpx.go:600-651 | Writes exactly the frame of the message to the connection, or nothing if it is refused. |
| `RlpxFrameRW.FrameRW.Read` | p2p/rlpx.go:653-720 | Reads one message with all its error cases, and leaves the connection right behind it. |
| `Match.PeersAgree` | p2p/peer.go:312-334 | Two peers that match each other's capabilities compute the same protocols with the same offsets, if a protocol version both offer has the same length on both. |
| `Match.HighestShared` | p2p/peer.go:312-334 | A name is matched exactly if both sides share a version of it, and the highest shared version is chosen. |
| `Match.MatchIsRanges` | p2p/peer.go:312-334 | Giving back the codes of older versions amounts to consecutive ranges from 16 on, one for each chosen protocol in the order of names. |
| `Match.PlaceWinners` | p2p/peer.go:321-327 | Matching all shared versions in order is the same as matching only the highest of each name. |
| `Match.RoutingExact` | p2p/peer.go:364-371 | Every code of every protocol is given to that protocol and no other, if and only if 16 plus all lengths stays below 2^64. |
| `Match.CrossingLost` | p2p/peer.go:364-371 | If 16 plus all lengths reaches 2^64, some protocol does not even get its first code. |
| `Match.DeliveryExact` | p2p/peer.go:269-410 | A message reaches the same protocol of the other peer under its own code, and no other protocol, except for the absolute codes 0x11 and 0x12. |
| `Match.FirstProtocolLosesCodes` | p2p/peer.go:269-279 | The first protocol always starts at 16: its code 1 goes out as disconnect exactly if it has more than one code, its code 2 as ping exactly if it has more than two, and neither is ever handed to it. |
| `Match.LongProtocolUnreachable` | p2p/peer.go:364-371 | With one protocol of 2^64 - 1 codes, code 0 reaches nobody. |
| `Match.HandedOnExact` | p2p/peer.go:269-297 | A code from 16 on is handed to a protocol exactly if it lies in the ranges given out and is neither ping nor disconnect. |
| `Match.BaseCodesHandedOn` | p2p/peer.go:269-297 | Of the base protocol's own codes the handshake is handed on exactly if any code was given out, the pong exactly if more than three were, the other two never. |
| `Match.PongReachesFirst` | p2p/peer.go:269-297 | Every pong reaches the first protocol as its own code 3, exactly if that protocol has more than three codes. |
| `MatchLoop.SortCaps` | p2p/peer.go:313-313 | Sorting in place gives the sorted list of the capabilities. |
| `MatchLoop.SortSorts` | p2p/protocol.go:75-81 | The sorted capability list is in the order of names and versions. |
| `MatchLoop.SortPermutes` | p2p/protocol.go:75-81 | The sorted capability list is a permutation of the given one. |
| `MatchLoop.MatchInOrder` | p2p/peer.go:314-333 | The two nested loops with the offset going back and forth compute the matching. |
| `MatchLoop.MatchCaps` | p2p/peer.go:312-334 | The whole method: capabilities sorted in place, matched by the loops. |
| `MatchLoop.GetProto` | p2p/peer.go:364-371 | Returns a protocol that accepts the code, or none if no protocol does. |
| `MatchLoop.CountMatchingProtocols` | p2p/peer.go:299-309 | Returns the number of pairs of a capability and a protocol of the same name and version; it is zero exactly if nothing matches. |
| `Rpc.StepKeepsInv` | rpc/client.go:499-566 | Every case of the dispatch loop and every step of the read loop, the writer and those who end subscriptions keeps the history of every response channel sound and every request accounted for. |
| `Rpc.ReachableInv` | rpc/client.go:474-566 | The same in every reachable state. |
| `Rpc.ChannelSafety` | rpc/client.go:606-630 | On the channel of every accepted request: at most one message for each id, never more than its buffer, at most one close, and nothing after it. |
| `Rpc.BatchDelivered` | rpc/client.go:505-524 | Each reply of a batch finds an open channel with room, so the loop neither panics nor blocks anywhere in the batch. |
| `Rpc.NothingLost` | rpc/client.go:569-586 | In every reachable state a request is answered in full, closed or withdrawn exactly if none of its ids is registered. |
| `Rpc.ReadLoopEnds` | rpc/client.go:526-542 | A read error received by the loop settles all requests; one received while a new connection is taken changes none, and then all but the one being written are settled exactly if no other is registered. |
| `Rpc.QuitSettlesAll` | rpc/client.go:483-502 | From the moment the loop begins to quit every accepted request is settled; once the subscriptions are ended none is left. |
| `Rpc.GoesOnWaiting` | rpc/client.go:499-566 | Over every run: an unsettled request stays so until the loop receives a read error, the client is closed, one of its ids is answered, or its own write fails. |
| `RpcStops.StuckExact` | rpc/client.go:474-566 | In no run does the loop do anything again exactly if it has returned, if it takes a connection while the old read loop offers a batch, or if it ends a subscription whose own end waits for the send lock or for the loop to receive a new connection. |
| `RpcStops.TakingCompletes` | rpc/client.go:532-541 | Some run completes the taking of a new connection exactly if the old read loop does not offer a batch. |
| `RpcStops.ClosingCompletes` | rpc/client.go:582-586 | Some run ends all known subscriptions exactly if none of them is held up by its own end. |
| `RpcStops.DrainCompletes` | rpc/client.go:484-497 | After that some run always completes quitting: batches are received too until the read loop has failed. |
| `RpcStops.ReconnectLeavesRequestWaiting` | rpc/client.go:532-541 | A reachable run in which the read error is dropped and a request other than the one being written goes on waiting. |
| `RpcStops.ReconnectGetsStuck` | rpc/client.go:532-541 | A reachable run after which the loop never does anything although a request waits. |
| `RpcStops.UnsubscribeGetsStuck` | rpc/client.go:712-728 | A reachable run in which an unsubscription holds the subscription while it waits for the loop, and the loop waits for the subscription after a read error. |
| `RpcClient.Client.Accept` | rpc/client.go:544-550 | Registers all ids of a request, also of one that ends a subscription, and takes the send lock. |
| `RpcClient.Client.SendDone` | rpc/client.go:552-563 | A failed write deregisters the request's ids; the lock is released. |
| `RpcClient.Client.Response` | rpc/client.go:606-630 | Forwards a reply, or closes the channel of a subscription request and starts it. |
| `RpcClient.Client.Messages` | rpc/client.go:505-524 | Handles the messages of a batch in order. |
| `RpcClient.Client.CloseWaiting` | rpc/client.go:569-581 | Each registered request is closed once, however many ids it has. |
| `RpcClient.Client.ReadError` | rpc/client.go:526-530 | Closes everything registered, marks the read loop gone and begins to end the subscriptions. |
| `RpcClient.Client.Reconnected` | rpc/client.go:532-541 | Reads the new connection at once if no read loop runs, and otherwise waits for the error of the old one. |
| `RpcClient.Client.Taken` | rpc/client.go:535-541 | Drops the error of the old connection and reads the new one; no request changes. |
| `RpcClient.Client.Close` | rpc/client.go:483-502 | Closes everything registered on quit and begins to end the subscriptions. |
| `RpcClient.Client.NextSub` | rpc/client.go:582-585 | Takes the next known subscription out of the map. |
| `RpcClient.Client.QuitSub` | rpc/client.go:712-728 | Ends it, which is possible only if nobody else is ending it. |
| `RpcClient.Client.CloseDone` | rpc/client.go:485-501 | Goes back to select without a read loop, on to emptying the read channels, or returns. |
| `RpcClient.ForwardInOrder` | rpc/client.go:743-780 | A subscriber gets the values in order and without a gap up to the first quit or the first value that does not unmarshal, or up to the first that finds 8000 buffered. |
| `RingSign.SignatureVerifies` | crypto/crypto.go:434-622 | Every signature made with the private key of the first public key verifies, for every ring size, place, nonces, challenges, message and hash function. |
| `RingSign.LeftAgrees` | crypto/crypto.go:484-586 | Signing and verifying hash the same left points at every place. |
| `RingSign.RightAgrees` | crypto/crypto.go:512-606 | Signing and verifying hash the same right points at every place. |
| `RingSign.SumAgrees` | crypto/crypto.go:502-584 | The signer's challenge completes the sum of challenges modulo the group order. |
| `RingSign.IntegersModN` | crypto/crypto.go:418-425 | The laws assumed of the group have a model: the integers modulo any positive number. |
| `RingSign.AbsorbLeft` | crypto/crypto.go:484-510 | The first loop accumulates the challenge sum and the bytes of the left points. |
| `RingSign.AbsorbRight` | crypto/crypto.go:512-528 | The second loop accumulates the bytes of the right points. |
| `RingSign.RingSign` | crypto/crypto.go:434-535 | Refuses an empty ring, otherwise swaps the key in place and returns the signature, which verifies if the key is the signer's. |
| `RingSign.VerifyRingSign` | crypto/crypto.go:539-622 | Accepts exactly the signatures whose hash is the sum of their challenges, after the length checks. |
| `RingSign.OneTimeKeyAgreement` | crypto/crypto.go:626-730 | The receiver recognises a one-time key made for them, and its computed private key belongs to it. |
| `RingSign.OneTimeKeySigns` | crypto/crypto.go:434-730 | A signature made with the computed one-time private key verifies, in any ring. |
| `Garner.Recombine` | crypto/crypto.go:361-385 | The recombination loop gives a number with all the residues, below the product of the moduli. |
| `Garner.FirstTwo` | crypto/crypto.go:362-371 | The first two residues are combined. |
| `Base58.EncodeDecode` | crypto/crypto.go:789-847 | Every byte string survives encoding and decoding, leading zeros included. |
| `Base58.DecodeEncode` | crypto/crypto.go:789-847 | A text survives decoding and encoding exactly if all its characters are in the alphabet. |
| `Base58.LetterDigit` | crypto/crypto.go:733-773 | Alphabet and digit table are inverse to each other. |
| `Base58Loop.DecodeText` | crypto/crypto.go:789-818 | The loop from the last character on computes the decoding. |
| `Base58Loop.EncodeBytes` | crypto/crypto.go:821-847 | The division loop, the leading ones and the reversal in place compute the encoding. |
| `AccountViews.StepKeepsInv` | accounts/keystore/account_cache.go:118-161 | Every addition, deletion and refresh keeps the lists sorted and the index exact, and leaves the number of other wallets that the manager lists under a URL. |
| `AccountViews.RunKeepsInv` | accounts/keystore/keystore.go:137-178 | The same over every run, with any accounts. |
| `AccountViews.RefreshAfterRun` | accounts/keystore/keystore.go:137-178 | After every run a refresh makes the wallets equal to the accounts exactly if at every URL one of the two lists begins with the other. |
| `AccountViews.ViewsAgree` | accounts/keystore/keystore.go:137-178 | After any run in which URLs name fixed addresses one refresh makes the wallets equal to the strictly sorted account list; the manager lists exactly these under the keystore's URLs and what it listed at the start under all others. |
| `AccountViews.ThreeEqual` | accounts/manager.go:97-106 | With no other backend, wallets, accounts and the manager's list are then equal. |
| `AccountFiles.FoundExact` | accounts/keystore/account_cache.go:147-161 | On every list, a path is found if and only if some place has it and every place that bisection looks at on its way there lies on the right side of the path. |
| `AccountFiles.EndsExact` | accounts/keystore/account_cache.go:150-150 | Bisection ends at a place exactly if every place on the way there, which only the length decides, sends it the right way. |
| `AccountFiles.DistinctFoundExact` | accounts/keystore/account_cache.go:147-161 | With distinct paths every account is found by its path if and only if the paths ascend. |
| `AccountFiles.AscendingFound` | accounts/keystore/account_cache.go:147-161 | If the paths ascend, also with repetitions, a path is found exactly if an account has it. |
| `AccountFiles.NoneSkippedFound` | accounts/keystore/account_cache.go:147-161 | If no path of the list lies before the first, after the last or between two neighbours, every account is found. |
| `AccountFiles.OneSchemeAscends` | accounts/keystore/account_cache.go:48-52 | In a list sorted by URLs of one scheme the paths ascend. |
| `AccountFiles.TwoSchemesNotFound` | accounts/keystore/account_cache.go:147-161 | A sorted list with two schemes in which neither account is found by its path. |
| `AccountFiles.TwicePathFound` | accounts/keystore/account_cache.go:147-161 | A sorted list with one path twice in which all are found although the paths do not ascend and one is skipped. |
| `Accounts.AddOk` | accounts/keystore/account_cache.go:118-131 | Adding any account, also one whose URL is there already, adds it once unless it is found in its place, changes no other account, and keeps the list sorted and the index by address exact. |
| `Accounts.DeleteOk` | accounts/keystore/account_cache.go:134-144 | Deleting takes out one occurrence if there is one and nothing else, and keeps order and index. |
| `Accounts.DeleteByFileOk` | accounts/keystore/account_cache.go:147-161 | Deleting by file takes out the one account where the search ends if it has the path, and otherwise changes nothing; order and index are kept. |
| `Wallets.RefreshUnder` | accounts/keystore/keystore.go:137-178 | What a refresh makes of the wallets under each URL, for any sorted lists. |
| `Wallets.RefreshExact` | accounts/keystore/keystore.go:137-178 | One refresh makes the wallets equal to the accounts if and only if at every URL one of the two lists begins with the other. |
| `Wallets.SecondRefreshExact` | accounts/keystore/keystore.go:137-178 | Two refreshes do if and only if at every URL the first wallet that does not fit is not among the accounts still to come there. |
| `Wallets.RefreshTimesExact` | accounts/keystore/keystore.go:137-178 | The same holds of any number of refreshes from two on: what two do not bring back, none does. |
| `Wallets.ReboundUrlLosesWallet` | accounts/keystore/keystore.go:160-165 | An input on which a refresh drops a wallet and leaves its account without one. |
| `Wallets.RefreshNeverHelps` | accounts/keystore/keystore.go:160-165 | Two accounts under one URL, where refreshing changes nothing however often it is done. |
| `Wallets.MergeExact` | accounts/manager.go:184-194 | Merging puts a wallet in front of those with its URL, keeps the order, and changes nothing under any other URL. |
| `Wallets.DropExact` | accounts/manager.go:198-208 | Dropping takes out the first wallet with the URL and nothing else; with none there, another is lost exactly if one has a larger URL. |
| `Wallets.ManagerUnder` | accounts/manager.go:97-106 | What the manager's list becomes under each URL when it applies the events of a refresh in order, whatever else it lists. |
| `Wallets.ManagerExact` | accounts/manager.go:97-106 | It then lists the refreshed wallets and the same others if and only if the wallets that leave were the first of its list under the URL. |
| `Wallets.ManagerCounts` | accounts/manager.go:97-106 | It always lists as many others under each URL as before. |
| `Wallets.ManagerDropsAnother` | accounts/manager.go:198-208 | An input on which another wallet of the same URL is dropped. |
| `AccountsLoop.Search` | accounts/keystore/account_cache.go:122-122 | Bisection finds the first place whose URL is not smaller. |
| `AccountsLoop.SearchPath` | accounts/keystore/account_cache.go:150-150 | Returns the place where bisection by path ends, on any list. |
| `AccountsLoop.Remove` | accounts/keystore/account_cache.go:163-170 | Removes the first occurrence. |
| `AccountsLoop.AccountCache.Add` | accounts/keystore/account_cache.go:118-131 | Inserts by bisection and files the account, as the function on values says, and keeps the list sorted and the index exact. |
| `AccountsLoop.AccountCache.Find` | accounts/keystore/account_cache.go:175-214 | Completes a bare file name; returns one with the URL if there is one, else the only one that fits; no match only if none fits; ambiguous, with all that fit in order, only if several do. |
| `AccountsLoop.AccountCache.Delete` | accounts/keystore/account_cache.go:134-144 | Deletes from list and index as the function on values says, and keeps the list sorted and the index exact. |
| `AccountsLoop.AccountCache.DeleteByFile` | accounts/keystore/account_cache.go:147-161 | Deletes at the place where bisection by path ends, exactly if that has the path, and keeps the list sorted and the index exact. |
| `AccountsLoop.KeyStore.RefreshWallets` | accounts/keystore/keystore.go:137-178 | The nested loops that consume the old wallets compute the new ones and the events. |
| `AccountsLoop.Manager.Update` | accounts/manager.go:97-106 | One event, applied by bisection, keeps the list sorted. |

## Left out

- Type-driven encoding and decoding in `rlp` (structs, tags, optional fields, big integers, the slice-based helpers of `rlp/raw.go`): only untyped items and unsigned integers are modelled.
- `encbuf.toWriter`: it writes the same pieces as `toBytes` to an output stream.
- Multi-party computation under `storeman`: message plumbing around a distributor that is not part of this model.
- Elliptic curve arithmetic, hashing, ciphers, key encapsulation and snappy themselves: represented by functions with laws; point additions that are undefined in affine coordinates are ordinary group operations here.
- Networking, discovery, NAT, the HTTP transport of the RPC client, JSON parsing and reflection.
- Blocking and scheduling of goroutines: each select is a step that may happen whenever it is enabled; liveness is not claimed, except that sends terminate step by step, that channels with a proved bound never block, and where a theorem says which runs exist.
- `Feed.Send` with subscribers of different element types, and the panics on wrong channel types.
- Nil arguments of the signature functions, which are refused before anything is computed.
- File scanning and the reload throttle of the account cache, and how a directory and a file name are joined, which is a function here.
- Startup of the account manager, where subscription and first listing may race, and concurrent refreshes: events are applied in order from an agreeing start.
- Refreshing the snappy flag of a connection while messages are on the way: it is fixed for a run.
- The address of a running dial task: a resolved node keeps its identity, as the node table promises for a lookup by identity. Whether the map of kept nodes still holds that task, or a later one for the same node, is left open: both are steps.
- Wrap-around of the 32-bit request counter: request ids are distinct.
- Blinding and the power computations of RSA decryption: `Garner.Recombine` starts from the residues.
- DialHistory.Up, DialHistory.Down and DialHistory.RemoveAt: model the heap operations of Go's standard library that the history calls, since they are what keeps it a heap.
- MatchLoop.SortCaps: sorts by insertion; the library sort used by the program is only required to give a sorted permutation, and `Match.PeersAgree` holds for every sorted list.
- RlpxLink.RlpxLockstep: covers messages given with their true size whose frame size does not wrap around; `Rlpx.HeaderSizeExact` says what happens otherwise.
- AccountViews.ViewsAgree: is about runs in which a URL always names the same address; `AccountViews.RefreshAfterRun` is about all runs.

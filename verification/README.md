# Verified models of ZBProxy

Dafny models of the parts of ZBProxy whose correctness cannot be read off one function, with proofs.
`dafny verify dfyconfig.toml` checks everything.

**Domain matcher** (`Words`, `ByteSelect`, `Bitmap`, `Select`, `Bytes`, `Trie`, `TrieMeaning`,
`SuccinctSet`, `Lookup`, `Rules`, `Sorting`, `Matcher`). Domains and suffixes are reversed, marked, sorted
and packed breadth-first into a bitmap trie that is walked with rank and select only. The chain of proofs
goes from machine words (popcount narrowing, the 256 x 8 byte table, the sampled indexes) over the trie
(queue nodes are in bijection with the prefixes of the keys; where each node's section stands) to the
question a caller asks: does this name match the rules? Words are 64-bit vectors and index entries are
32-bit; every array access and every conversion is proved to be in range.

**Tunnel stream** (`Endpoint`, `EndpointMeaning`, `Session`, `Tunnel`, `TunnelRuns`, `TunnelCloses`,
`Numbers`, `FrameCodec`, `TunnelWire`). `Session` is the session object with its fields and buffers
updated in place; each method is proved to do what a function of `Endpoint` says, and `EndpointMeaning`
says in literal field values what those functions come to. `Tunnel` puts two such ends and a network that
loses, repeats and reorders frames into one transition system. Its invariant is kept by every step, so the
results of `TunnelRuns` hold in every reachable state: prefix safety, the window bounds, no lost wake-ups,
a bounded time-out, that both streams can always still be finished, and (`TunnelCloses`) that a FIN, a RST
or a close is seen and stays seen.

**Peekable connection and codecs** (`Buffers`, `Delimiters`, `CachedConn`, `StreamRuns`, `VarInt`,
`Int32`, `VarIntDigits`, `Items`, `Packets`, `PacketConn`, `Proxy`, `ProxyFormat`, `Sniff`, `LoginStart`,
`Outbound`). The cursor buffer and the recording connection are classes. A connection's bytes arrive in
pieces that an arbitrary script decides; results are stated against the whole stream, and where the pieces
do show, exactly when. On top of it stand Minecraft VarInts (an int32 is its 32 bits), typed packet items,
length-prefixed packets, PROXY protocol headers of version 2, and the way of a login from the client's
first byte to the server's.

**Transport selector** (`Selector`). The object with its counters and flags against the whole history of
probe outcomes.

Where the code does something its users would not expect, the model keeps the code and says exactly
when:

- `common/domain/set.go:72-83`: a query of a newline followed by a root domain is answered true
  (`Matcher.StrayExactly`; an input in `Matcher.StrayQuery`).
- `common/domain/builder.go:17-35`: `MatcherBuilder` does not lower-case, `Match` does, so a name is
  matched by some query exactly when it has no capital letter (`Matcher.CapitalsExactly`; an input in
  `Matcher.CapitalName`).
- `common/mcprotocol/varint.go:88-91`: a sixth byte is accepted although `MaxVarIntLen` is five
  (`VarInt.ReadEnds`; an input in `VarInt.SixBytes`).
- `common/mcprotocol/packet.go:126-206`: a list comes back exactly when it has no negative or oversized
  `int` and no empty string (`Items.AllBack`; an input in `Items.MinusOne`).
- `common/bufio/cached.go:77-95`: with several delimiters the one found can depend on how the network cuts
  the stream; all cuts agree exactly when one was already held, or the one first in argument order among
  those that occur ends first (`Delimiters.CutsAgreeExactly`; an input of the PROXY protocol reader in
  `StreamRuns.UnknownDependsOnTheCut`).
- `common/bufio/cached.go:36-58`: a `Read` can lose what does not fit the 4096-byte cache; it is safe under
  every cut exactly when bytes are held, or the request fits, or what is still to come does
  (`CachedConn.CachedConn.Read` with `StreamRuns.SafeForEveryCut`; an input in `StreamRuns.LosingRead`).
- `protocol/minecraft/outbound.go:513-535`: a rewritten handshake is one that the sniffer itself would
  refuse exactly when its host is empty or its packet longer than 264 bytes (`Sniff.BuiltParses`; an input
  for each in `Sniff.EmptyHost` and `Sniff.LongHost`).
- `protocol/minecraft/sniff.go:134-157`: lengths in the signature data of versions 759 and 760 are not
  checked, and where they lead outside the packet the code panics; the model gives the result `Overran`
  exactly then (`LoginStart.OverranExactly`, and on whole streams `Outbound.PanicsExactly`; an input in
  `LoginStart.NothingSigned`, as a whole client in `Outbound.PanickingClient`).

What the models assume of their callers and of the machine:

- Matcher: at least one rule; suffixes are not empty; names are ASCII with every byte above 13; the
  label bitmap is shorter than 2^31 bits (twice the bytes of all keys plus 65 is at most 2^31). Queries
  may be any ASCII string.
- Tunnel: fewer than 2^32 frames each way (the sequence comparisons at
  `common/udptunnel/session.go:160` and `:174` do not wrap); `int` has 64 bits; one reader and one
  writer a session; the clock is read once a call and does not go back.
- Buffers: `cap` and `len` of the backing slice are equal; what `Extend` and `ExtendHeader` take is
  there, as the code would panic otherwise.
- Outbound: the rewritten handshake fits the 8192-byte buffer.

## Model

| member | source | states |
|---|---|---|
| `Matcher.NewMatcherAnswers` | common/domain/matcher.go:13-42 | end to end: for all lists of ASCII names and every ASCII query, the packed trie says true exactly when the query equals a domain, ends with a dotted suffix, or equals or ends with `.`+suffix, the letters A to Z (65 to 90) read as a to z (97 to 122) on both sides, or is a newline followed by a root domain (the one deviation, and none for queries that start otherwise) |
| `Matcher.CaseDoesNotMatter` | common/domain/matcher.go:13-42 | adding 32 to any bytes from 65 to 90, in the query or in the lists, leaves every promised answer as it was |
| `Matcher.NewMatcher` | common/domain/matcher.go:13-38 | what is packed is the key set of the rules kept when each lower-cased name keeps the role it was first given, suffixes first |
| `Matcher.NewMatcherMeaning` | common/domain/matcher.go:13-38 | dropping a domain whose name was already a suffix loses nothing: the rules kept accept exactly what the two lists promise |
| `Matcher.Match` | common/domain/matcher.go:40-42 | for any packed rule set the answer is true if and only if a rule accepts the lower-cased query or it is the stray newline query |
| `Matcher.StrayQuery` | common/domain/set.go:72-83 | counterexample: with the suffix `a`, the query newline+`a` is answered true though no rule accepts it |
| `Matcher.StrayExactly` | common/domain/set.go:72-83 | a query is stray exactly when it is a newline and then the name of a root domain among the rules |
| `Matcher.StrayNeedsNewline` | common/domain/set.go:72-83 | what a caller can check: no query that starts with another byte is stray, so NewMatcherAnswers then keeps its promise |
| `Matcher.StrayMeaning` | common/domain/set.go:72-83 | the deviation said about the caller's own list of suffixes, both directions |
| `Matcher.CapitalsNeverMatch` | common/domain/builder.go:17-35 | the builder keeps case while queries are lower-cased, so a name with a capital letter answers no query at all |
| `Matcher.CapitalsExactly` | common/domain/builder.go:17-35 | some query is accepted by a rule if and only if its name has no capital letter |
| `Matcher.CapitalName` | common/domain/builder.go:29-35 | concretely: the domain `A` accepts no query, not even `A` |
| `Matcher.FirstRolesExactly` | common/domain/builder.go:17-35 | a rule is kept if and only if it is the first one added under its name |
| `Matcher.AcceptedByFirst` | common/domain/builder.go:17-40 | the rules kept accept a query if and only if the first rule of some name does |
| `Matcher.BuilderAnswers` | common/domain/builder.go:17-40 | end to end for the builder: Build and then Match answers by each string in its first-added role, and the stray newline |
| `Matcher.FirstRolesAre` | common/domain/builder.go:17-35 | the rules kept are rules that were added, and every name added is kept |
| `Matcher.MatcherBuilder.constructor` | common/domain/builder.go:10-15 | a new builder has been given no rule |
| `Matcher.MatcherBuilder.AddDomainSuffix` | common/domain/builder.go:17-27 | the history of calls grows by this suffix; the shared `seen` map and the key list stay right for it |
| `Matcher.MatcherBuilder.AddDomain` | common/domain/builder.go:29-35 | the same for a domain |
| `Matcher.MatcherBuilder.Build` | common/domain/builder.go:37-40 | what is packed is the key set of each name in its first-added role, and the builder stays usable |
| `Matcher.ReverseDomain` | common/domain/matcher.go:44-53 | filling the buffer from the back gives the byte-reversed name |
| `Matcher.ReverseDomainMarked` | common/domain/matcher.go:55-77 | the same with the marker as last byte |
| `Rules.KeyAnswersRule` | common/domain/matcher.go:44-77 | one key answers a reversed query exactly when its rule accepts the query, or the query is the rule's stray one |
| `Rules.KeysAnswerRules` | common/domain/matcher.go:40-42 | the same for a whole key set |
| `Rules.KeyOfInjective` | common/domain/builder.go:17-35 | rules of different names never share a key, whatever their roles |
| `Rules.KeysAreWellFormed` | common/domain/matcher.go:55-77 | the keys of any rules meet what the walk needs: markers only end keys, everything else sorts above them, no key has both markers |
| `Sorting.SortedKeeps` | common/domain/builder.go:38 | sorting keeps the strings, and distinct strings come out strictly increasing |
| `Lookup.Has` | common/domain/set.go:46-84 | the walk by rank and select answers true if and only if the key is stored, or some stem of it is stored with the prefix marker, or with the root marker at a dot or the end; every array access is in bounds and the walk ends |
| `Lookup.HasHere` | common/domain/set.go:72-83 | the part after the key is used up, against the same meaning |
| `Lookup.SelectFindsStart` | common/domain/set.go:70 | the one selected for node n is the last bit before node n's section |
| `Lookup.PositionOfChild` | common/domain/set.go:51-67 | a zero at position pos of node n's section belongs to child pos + 1 - n, and the section ends at its one |
| `SuccinctSet.NewSuccinctSet` | common/domain/set.go:18-44 | for every strictly increasing non-empty key list the packed words, labels and indexes encode the key trie; at most one label per key byte; the queue loop ends because the bytes still to distribute run out |
| `SuccinctSet.RankAtStart` | common/domain/set.go:18-44 | exactly n ones stand before node n's section of the label bitmap |
| `SuccinctSet.RankInSection` | common/domain/set.go:18-44 | inside node n's section the rank is n, and its only one is its last bit |
| `Trie.LastIsLeaf` | common/domain/set.go:23-41 | the last node queued stands for a key, so the last leaf bit is set and every later leaf access is in bounds |
| `Trie.AddChild` | common/domain/set.go:31-38 | a run of keys with the same next byte becomes a child with a label above its sisters' |
| `TrieMeaning.NodeFor` | common/domain/set.go:18-44 | every prefix of a key has a node, whose range is exactly the keys with that prefix |
| `TrieMeaning.NodeRepresents` | common/domain/set.go:18-44 | every node stands for a prefix of some key |
| `TrieMeaning.NodeUnique` | common/domain/set.go:18-44 | no two nodes stand for the same prefix: with the two rows above, nodes and distinct prefixes are in bijection |
| `TrieMeaning.ChildRepresents` | common/domain/set.go:31-38 | label c leads from the node of p to node c, which stands for p + label c |
| `TrieMeaning.LeafIsKey` | common/domain/set.go:26-30 | a node is a leaf exactly when its prefix is a key |
| `Select.Select32R64` | common/domain/set.go:141-183 | the result is the one with exactly i ones before it, and the second result is where the next one stands (or the end): the sampled index, the popcount narrowing and the byte table refine a linear scan |
| `Select.SelectInWord` | common/domain/set.go:149-170 | the 32/16/8-bit narrowing and the table find the ith one of a word |
| `Select.NextOne` | common/domain/set.go:171-182 | the first one after a bit, across words |
| `Bitmap.Rank64` | common/domain/set.go:111-118 | the number of ones before i, and bit i |
| `Bitmap.IndexRank64` | common/domain/set.go:120-139 | one entry a word: the ones before it |
| `Bitmap.IndexSelect32R64` | common/domain/set.go:185-202 | entry k is where one number 32k stands |
| `Bitmap.SelectUnique` | common/domain/set.go:141-183 | a one is determined by its rank, so select inverts rank |
| `Bitmap.RankMonotone` | common/domain/set.go:111-118 | rank grows with the position, by at most one a bit, and strictly past a one |
| `Bitmap.SetBit` | common/domain/set.go:86-91 | exactly bit i is or-ed in, and the bitmap grows by whole zero words |
| `Bitmap.GetBitIs` | common/domain/set.go:93-95 | getBit is non-zero exactly when the bit is on |
| `Bitmap.InitMasks` | common/domain/set.go:214-224 | the mask tables hold the masks their names say |
| `ByteSelect.InitSelectLookup` | common/domain/set.go:228-240 | entry 8b + j of the table is where the jth one of byte b stands, for all 2048 entries |
| `TunnelRuns.StreamsAreKept` | common/udptunnel/session.go:107-261 | over every run of two sessions and a network that loses, repeats and reorders: bytes read plus `readBuf` at one end are a prefix of the bytes queued at the other, and every valid `recvBuf[k]` is the payload sent as `recvNext`+k |
| `TunnelRuns.WindowsAreKept` | common/udptunnel/session.go:154-227 | in every reachable state the send slots are exactly [base, `sendNext`) with base <= peer `recvNext` <= `sendNext` <= base+32, so no DATA frame ever lies past the receiver's window |
| `TunnelRuns.WakeupsAreKept` | common/udptunnel/session.go:68-73 | no lost wake-ups: a blocked reader without a token has nothing to read, no EOF and an open session; a blocked writer without one faces a full window, or a close between its two sections |
| `TunnelRuns.TimeoutBounded` | common/udptunnel/session.go:263-289 | `rto` stays between 200 and 2000 milliseconds |
| `TunnelRuns.AlwaysFinishable` | common/udptunnel/session.go:107-293 | from every reachable state with both sessions open, even after the network drops everything, some finite schedule of ticks and arrivals delivers all that was written, both ways, and empties the slots |
| `TunnelRuns.Finish` | common/udptunnel/session.go:107-293 | the same from any state the invariant allows |
| `TunnelCloses.FinEndsReads` | common/udptunnel/session.go:131-137 | once a FIN has reached an open end, whatever happens after it: a blocked reader has its token, and a read does not wait, gives as much as is held and there is room for, and with nothing held gives EOF |
| `TunnelCloses.CloseIsSeen` | common/udptunnel/session.go:307-316 | close at one end puts a FIN into the network; after its arrival at the open peer, whatever happens, the peer is at EOF and its reader has its token |
| `TunnelCloses.ResetCloses` | common/udptunnel/session.go:138-142 | after a RST, whatever happens: the session is closed, flags set, and a blocked reader and a blocked writer have their tokens |
| `TunnelCloses.CloseEnds` | common/udptunnel/session.go:307-322 | after the second section of close the same holds at the end that closed |
| `TunnelCloses.SynackOpens` | common/udptunnel/session.go:143-145 | a SYNACK opens the handshake for good |
| `Tunnel.StepKeeps` | common/udptunnel/session.go:107-322 | every step of either end, and of the network, keeps the whole invariant |
| `Tunnel.UnackedSlots` | common/udptunnel/session.go:154-171 | a cumulative ACK drops exactly the slots below it and leaves the rest contiguous |
| `Tunnel.StoreKeeps` | common/udptunnel/session.go:173-198 | a genuine DATA frame keeps the receiver's promise, and the one waited for moves the cursor on |
| `Tunnel.ReceiveKeeps` | common/udptunnel/session.go:107-152 | any genuine frame keeps it, and a reader with something new to see has its token |
| `EndpointMeaning.FrameMeans` | common/udptunnel/session.go:107-152 | what each frame type does to each flag and token: RST (6) closes and sets all of them, FIN (5) sets EOF and the reader's token, SYNACK (2) opens the handshake, SYNACK and ACK (4) wake the writer, only DATA (3) touches the receive side; a closed session ignores everything |
| `EndpointMeaning.AckMeans` | common/udptunnel/session.go:118-122 | frames of types 2 to 5, and no others, drop the slots below their acknowledgement; if any goes, the timeout is 200 again and the writer has its token |
| `EndpointMeaning.StoreMeans` | common/udptunnel/session.go:173-186 | data behind the cursor or 32 and more ahead of it changes nothing; in between it waits in its own place, the first to arrive staying |
| `EndpointMeaning.AnswerMeans` | common/udptunnel/session.go:124-137 | DATA and FIN are answered with one ACK of the cursor they leave, nothing else is |
| `EndpointMeaning.TickMeans` | common/udptunnel/session.go:263-293 | exactly the slots last sent at least `rto` ago are sent again and touched, and if there are any the timeout doubles, to at most 2000 |
| `EndpointMeaning.ReadMeans` | common/udptunnel/session.go:238-261 | a read waits exactly with nothing to read, no EOF and an open session; otherwise it takes as much of `readBuf` as there is room for, and no byte is lost |
| `EndpointMeaning.CloseMeans` | common/udptunnel/session.go:295-322 | close first stops writes and sends a FIN with the cursor, and then sets every flag and both tokens |
| `Session.Session.constructor` | common/udptunnel/session.go:47-60 | a new session is the initial state of the protocol model, with its peer and clock |
| `Session.Session.FilterSlots` | common/udptunnel/session.go:158-165 | the in-place filter leaves exactly the unacknowledged slots in front |
| `Session.Session.ConsumeAckLocked` | common/udptunnel/session.go:154-171 | the acknowledgement does to the fields what the protocol model says |
| `Session.Session.StoreDataLocked` | common/udptunnel/session.go:173-198 | the buffer arrays, moved down in place, follow the protocol model |
| `Session.Session.ForceCloseLocked` | common/udptunnel/session.go:295-305 | all flags and both tokens are set, once, and no other field changes |
| `Session.Session.Handle` | common/udptunnel/session.go:118-151 | new state and answered frames are those of the protocol model |
| `Session.Session.OnPacket` | common/udptunnel/session.go:107-152 | the fields after a frame, by its type: FIN gives EOF and the reader's token, RST closes with all flags and tokens, SYNACK opens the handshake, an acknowledgement drops slots and resets the timeout, DATA and FIN are answered with the new cursor; peer address and time of the last frame are updated while the session is open, and the closing callback runs exactly when this frame closed it |
| `Session.Session.RetransmitTick` | common/udptunnel/session.go:263-293 | exactly the slots due are sent again, with the cursor, and stamped; the timeout then doubles, to at most 2000, and otherwise stays |
| `Session.Session.Write` | common/udptunnel/session.go:200-236 | up to its next wait: pieces of 1200 bytes and a last shorter one spell exactly the bytes reported as taken, one frame and one slot each with consecutive numbers; it waits only with 32 slots in flight, and fails as closed exactly when the session is closed or closing and nothing was taken |
| `Session.Session.Read` | common/udptunnel/session.go:238-261 | it waits exactly when there is nothing to read, no EOF and the session is open; with nothing to read otherwise it reports EOF; else it hands over the front of `readBuf`, as much as there is room for, and keeps the rest |
| `Session.Session.StartClosing` | common/udptunnel/session.go:307-316 | the first locked section of close: no more writes, and a FIN with the receive cursor, unless the session is closed |
| `Session.MoveDown` | common/udptunnel/session.go:187-195 | copy of an array onto itself one place down, with the last entry cleared |
| `FrameCodec.ParseOfWire` | common/udptunnel/frame.go:25-76 | a frame encoded and followed by any bytes decodes to itself, for payloads up to 1200 bytes |
| `FrameCodec.WireOfParse` | common/udptunnel/frame.go:49-76 | an accepted datagram re-encodes to its own first 22 + len bytes |
| `FrameCodec.WireInjective` | common/udptunnel/frame.go:25-46 | different frames have different datagrams |
| `FrameCodec.ParsesExactly` | common/udptunnel/frame.go:49-76 | a datagram is accepted exactly when it starts with 42 5A 01 and holds the payload of at most 1200 bytes whose length stands at offset 20; each field is read from its own offset, lowest byte first; and which error every other datagram gets |
| `FrameCodec.WireBytes` | common/udptunnel/frame.go:25-46 | an encoded frame has its fields at these offsets |
| `FrameCodec.Encode` | common/udptunnel/frame.go:25-46 | refused exactly when the payload is too long; otherwise the layout, in the caller's buffer when it is large enough |
| `FrameCodec.Decode` | common/udptunnel/frame.go:49-76 | the caller's frame is filled exactly when the datagram is accepted, and untouched otherwise |
| `TunnelWire.NetworkSurvivesWire` | common/udptunnel/frame.go:25-76 | every frame any run puts into the network fits the format and decodes to itself |
| `Numbers.LittleEndianRoundTrip` | common/udptunnel/frame.go:36-43 | fixed-width little-endian numbers read back as written |
| `CachedConn.CachedConn.constructor` | common/bufio/cached.go:23-30 | a new connection has consumed and held nothing |
| `CachedConn.CachedConn.Read` | common/bufio/cached.go:36-58 | the bytes returned are the stream at the cursor, EOF only at its end; the short-buffer error comes exactly when nothing is held and the connection hands over more than there is room for, and then exactly the excess is lost; never when something is held, the request fits or what is there fits, and otherwise always when all of it arrives at once |
| `StreamRuns.SafeForEveryCut` | common/bufio/cached.go:40-56 | a read is safe under every cut if and only if it asks for no more than fits or no more is to come |
| `StreamRuns.LosingRead` | common/bufio/cached.go:40-56 | concretely: 4097 bytes read at once lose the last one |
| `CachedConn.CachedConn.Peek` | common/bufio/cached.go:60-75 | succeeds exactly when the stream has n more bytes the cache can hold, and then returns those |
| `CachedConn.CachedConn.PeekUntil` | common/bufio/cached.go:77-95 | which delimiter is found is the one the search finds for this cut of the stream; it is at its own first occurrence; nothing is found exactly when no delimiter occurs in what can be held |
| `Delimiters.FindAny` | common/bufio/cached.go:84-88 | in one held piece the first delimiter in argument order is found, at its first place |
| `Delimiters.CutsAgreeExactly` | common/bufio/cached.go:77-95 | every cut of a stream finds the same delimiter if and only if one was held already, or of those that occur the first in argument order ends first |
| `Delimiters.EveryCutFinds` | common/bufio/cached.go:77-95 | in that case every cut finds that one, the earliest |
| `Delimiters.CutsDiffer` | common/bufio/cached.go:77-95 | in every other case two cuts that find different ones: all at once, and a piece ending with the earlier delimiter |
| `StreamRuns.UnknownDependsOnTheCut` | common/proxyprotocol/server_v1.go:28 | concretely: on `UNKNOWN`, a line end and a payload with a space, the search for a space or a line end finds the space when all arrives at once and the line end when a piece ends there |
| `CachedConn.CachedConn.Rewind` | common/bufio/cached.go:97-101 | the cursor moves, the bytes held stay |
| `CachedConn.CachedConn.CurrentPosition` | common/bufio/cached.go:108-113 | the number of bytes consumed, or -1 before the cache exists |
| `StreamRuns.Converse` | common/bufio/cached.go:36-113 | any sequence of reads of any size, single-byte reads, peeks, searches for one delimiter and rewinds: every answer is one the stream allows at the cursor, up to and after a short-buffer error; without reads of any size the answers are a function of the stream alone |
| `StreamRuns.BytesAreTheStream` | common/bufio/cached.go:36-113 | over all such runs, every slice returned is the stream where the cursor was |
| `StreamRuns.SettledByTheStream` | common/bufio/cached.go:36-113 | runs without reads of any size have exactly one possible list of answers |
| `StreamRuns.CutsDoNotMatter` | common/bufio/cached.go:36-113 | two connections with the same stream cut up differently give the same answers to requests other than reads of any size |
| `Buffers.Buffer.Write` | common/buf/buffer.go:75-85 | as much as fits is appended; an error only from a full buffer |
| `Buffers.Buffer.Extend` | common/buf/buffer.go:57-65 | the end moves by n |
| `Buffers.Buffer.ExtendHeader` | common/buf/buffer.go:87-93 | the start moves back by n |
| `Buffers.Buffer.WriteByte` | common/buf/buffer.go:95-102 | one byte appended, or a short-buffer error and no change |
| `Buffers.Buffer.ReadOnceFrom` | common/buf/buffer.go:104-111 | one read into the free space |
| `Buffers.Buffer.ReadAtLeastFrom` | common/buf/buffer.go:113-123 | bytes taken off the connection are appended; succeeds exactly when min fit and are there, and with min of zero or less makes one read |
| `Buffers.Buffer.ReadFullFrom` | common/buf/buffer.go:125-132 | exactly size bytes move from the connection to the buffer, or an error |
| `Buffers.Buffer.WriteZeroN` | common/buf/buffer.go:177-186 | n zeros appended, given the one spare byte the code also clears |
| `Buffers.Buffer.ReadByte` | common/buf/buffer.go:188-196 | the byte at the cursor, or EOF |
| `Buffers.Buffer.Read` | common/buf/buffer.go:198-205 | the bytes at the cursor, at most as many as asked |
| `Buffers.Buffer.Peek` | common/buf/buffer.go:207-217 | n bytes and the cursor past them, or an error and no change; negative n is refused |
| `VarInt.PackedIsEncoded` | common/mcprotocol/varint.go:40-67 | for every int32 the branch-and-pack form is the simple base-128 loop |
| `VarInt.PutVarInt` | common/mcprotocol/varint.go:40-67 | writes exactly that encoding and touches no other byte |
| `VarInt.VarIntLenIs` | common/mcprotocol/varint.go:69-84 | the computed length is the encoding's length, one to five |
| `VarIntDigits.VarIntIs` | common/mcprotocol/varint.go:40-67 | the VarInt of any int is its value modulo 2^32 in base-128 digits, lowest first, 128 added to each but the last |
| `VarInt.ReadOfEncoded` | common/mcprotocol/varint.go:86-104 | reading an encoding followed by any bytes gives the value and consumes exactly the encoding |
| `VarInt.ReadEnds` | common/mcprotocol/varint.go:86-104 | exactly when a read succeeds, runs short or is refused; a sixth byte is accepted, against `MaxVarIntLen` |
| `VarInt.SixBytes` | common/mcprotocol/varint.go:86-104 | concretely: five bytes 0x80 and a zero are read as a number of six bytes |
| `Int32.ValueOfToInt32` | common/mcprotocol/varint.go:18-24 | an int that fits an int32 survives the conversion to bits and back |
| `Packets.WriteVarInt` | common/mcprotocol/varint.go:33-36 | appends exactly the encoding to a buffer |
| `Items.AllBack` | common/mcprotocol/packet.go:126-206 | `Scan` of a list written by `WriteToPacket` gives the list back and leaves what follows, if and only if no item is an empty string or an int outside 32 unsigned bits |
| `Items.OneBack` | common/mcprotocol/packet.go:126-206 | the same for one item, and a non-invertible item never comes back as itself |
| `Items.ItemBytes` | common/mcprotocol/packet.go:126-165 | booleans, sized integers (highest byte first) and strings (a VarInt length in front) byte by byte |
| `Items.MinusOne` | common/mcprotocol/packet.go:143-144 | concretely: an int of -1 comes back as 4294967295 |
| `Packets.WriteToPacket` | common/mcprotocol/packet.go:126-165 | appends the items' encodings in order |
| `Packets.Scan` | common/mcprotocol/packet.go:167-206 | the items, the error and the bytes left are those of the list scanner |
| `Packets.ReadLimitedString` | common/mcprotocol/packet.go:87-104 | length, limit and short-packet cases, and the cursor after the string |
| `Packets.ReadVarIntFrom` | common/mcprotocol/varint.go:86-104 | the byte-by-byte loop on a buffer computes the reading function |
| `PacketConn.WritePacket` | common/mcprotocol/conn.go:56-61 | one packet goes out and the buffer is left with its headroom |
| `PacketConn.WriteVectorizedPacket` | common/mcprotocol/conn.go:68-80 | the buffer and the parts go out as the one packet of their concatenation |
| `PacketConn.AppendPacketLength` | common/mcprotocol/conn.go:82-85 | the length goes right in front of the contents |
| `PacketConn.PacketBytes` | common/mcprotocol/conn.go:56-85 | in front of a packet's contents stands their length alone, as a VarInt |
| `PacketConn.ReadLimitedPacket` | common/mcprotocol/conn.go:27-46 | when it succeeds, and which error is given exactly when; on success exactly one packet is consumed |
| `PacketConn.WritePackets` | common/mcprotocol/conn.go:56-80 | any mix of WritePacket and WriteVectorizedPacket puts the stream of the contents on the connection |
| `PacketConn.SendAndReceive` | common/mcprotocol/conn.go:27-80 | such a mix, sent over a connection that cuts it up in any way, is received as the same contents in order, with the bytes after it untouched |
| `PacketConn.ReadPackets` | common/mcprotocol/conn.go:27-46 | a stream of packets is read back in order, and not one byte beyond it is consumed |
| `Sniff.SniffHandshake` | protocol/minecraft/sniff.go:25-87 | fields, error and recorded position are those of the handshake parser on the bytes ahead, however they arrive |
| `Sniff.SniffContent` | protocol/minecraft/sniff.go:39-85 | the metadata holds exactly what the packet says |
| `Sniff.BuiltParses` | protocol/minecraft/outbound.go:529-535 | for every built handshake followed by anything: refused over 264 bytes, refused with version 0, an empty host or port 0, and otherwise sniffed as built with its length |
| `Sniff.HandshakeBytes` | protocol/minecraft/outbound.go:529-535 | every built handshake byte by byte: 0, version and host length as VarInts, host, port highest byte first, intent |
| `Sniff.TakenRanges` | protocol/minecraft/sniff.go:39-85 | whatever is taken for a handshake starts with packet number 0 and has a positive version, a host, a port from 1 to 65535 and an intent from 1 to 3 |
| `Sniff.ChosenIsSent` | protocol/minecraft/outbound.go:513-528 | the host sent is the configured name, the target address where that is empty, or without hostname rewriting the name a rule gave, or else the client's name up to its first NUL; behind it the client's suffix unless dropped; the port is the one a rule gave, or else the client's |
| `Sniff.NameIsFound` | protocol/minecraft/outbound.go:513-524 | a name from the settings or a rule that has no NUL is what the server finds up to the first NUL of the host |
| `Sniff.SuffixKept` | protocol/minecraft/outbound.go:522-524 | where the mod-loader suffix is kept, the server finds the chosen name before the first NUL and the client's own suffix behind it, if and only if the chosen name has no NUL |
| `Sniff.EmptyHost` | protocol/minecraft/outbound.go:513-524 | concretely: a client that names only a suffix is accepted, and settings that drop suffixes send an empty host, which is refused |
| `Sniff.LongHost` | protocol/minecraft/outbound.go:513-518 | concretely: a configured name of 300 bytes makes a packet that is refused for its length |
| `Sniff.UntouchedHost` | protocol/minecraft/outbound.go:513-524 | with nothing rewritten the server is told exactly the client's host, mod-loader suffix included |
| `Sniff.Metadata.CleanOriginDestination` | adapter/metadata.go:60-63 | the host up to its first NUL |
| `Sniff.Metadata.FMLMarkup` | adapter/metadata.go:65-70 | what follows the first NUL, cached or not |
| `Outbound.PickHost` | protocol/minecraft/outbound.go:513-524 | for every client and all settings the host is the one `Sniff.SentAs` calls for: configured, target address, given by a rule, or the client's, and the suffix |
| `Outbound.BuildHandshake` | protocol/minecraft/outbound.go:529-535 | the buffer holds one handshake packet with the chosen host, port and intent |
| `Outbound.SendLogin` | protocol/minecraft/outbound.go:513-546 | the server gets one handshake with that host, the rule's port if there is one, the client's version and intent 2, and then exactly the cached client bytes after its own; the cache is used up |
| `Outbound.ForwardLogin` | protocol/minecraft/outbound.go:513-546 | a whole login: exactly when handshake and Login Start are accepted, the server gets the handshake with host and port as `Sniff.SentAs` says and the client's bytes from the recorded position on, and otherwise nothing; and what a sniffer makes of that handshake |
| `Outbound.SniffClient` | protocol/minecraft/sniff.go:17-168 | the whole sniffer: its result, the metadata, the recorded position and the cursor, as a function of the bytes ahead |
| `Outbound.PanicsExactly` | protocol/minecraft/sniff.go:17-168 | over all client streams: the sniffer panics if and only if a handshake of version 759 or 760 other than a status request is followed by a whole packet with a name and signature data that leads outside it |
| `Outbound.PanickingClient` | protocol/minecraft/sniff.go:17-168 | concretely: such a client's whole stream, cut in any way, run through the sniffer |
| `LoginStart.SniffLoginStart` | protocol/minecraft/sniff.go:108-164 | packet ID, a name of 1 to 16 bytes and the UUID by protocol version, with the error of each step |
| `LoginStart.SniffUuid` | protocol/minecraft/sniff.go:122-164 | the cursor and field updates of the four layouts compute the function that the two results on written and on panicking packets are about |
| `LoginStart.AdvanceSignature` | protocol/minecraft/sniff.go:140-156 | the cursor moves over timestamp, key and signature, and where a move leaves the packet is told from where a length cannot be read |
| `LoginStart.WrittenIsRead` | protocol/minecraft/sniff.go:108-164 | a Login Start packet written by a client of any version, with or without signature data and UUID, is read as the name and UUID written; it is refused exactly when the name is empty or longer than 16, or versions 761 to 763 leave the flag out |
| `LoginStart.AnyTail` | protocol/minecraft/sniff.go:122-164 | whatever follows the name and the signature data, byte for byte of the UUID: from version 764 on exactly 16 bytes are it; from 759 to 763 up to 16 bytes behind a flag of 1 replace as many of its bytes; everything else leaves it, and only 761 to 763 refuse a missing flag |
| `LoginStart.SignedThenFlag` | protocol/minecraft/sniff.go:140-156 | well-formed signature data is passed over exactly, up to the flag behind it |
| `LoginStart.OverranExactly` | protocol/minecraft/sniff.go:134-157 | a packet makes the code panic if and only if its version is 759 or 760, a name was read, signature data is announced, and fewer than eight bytes follow, or the key's length leads outside the packet, or the signature's does behind a key inside it; so no other version can |
| `LoginStart.NothingSigned` | protocol/minecraft/sniff.go:134-140 | concretely: a name and announced signature data that is not there |
| `Outbound.SendStatus` | protocol/minecraft/outbound.go:343-393 | the client's status request is skipped, and a handshake with host and port as `Sniff.SentAs` says, intent 1, and a request of our own go out together; and what a sniffer makes of them |
| `Outbound.RewrittenParses` | protocol/minecraft/outbound.go:513-535 | for any rewritten handshake in front of any bytes, what a sniffer makes of it: the values sent, or the error of the value it refuses |
| `Proxy.ParseOfHeader` | common/proxyprotocol/server_v2.go:15-110 | every header that can be written is read back before any payload: same command and transport byte, the source with IPv4-mapped addresses unmapped, and the length consumed (section 2.2 of the HAProxy PROXY protocol specification) |
| `Proxy.SourceReceived` | common/proxyprotocol/server_v2.go:98 | a written source ::ffff:a.b.c.d is received as a.b.c.d with its port, every other source as itself |
| `ProxyFormat.ReadsExactly` | common/proxyprotocol/server_v2.go:15-110 | the reader takes exactly the byte strings that section 2.2 of the HAProxy PROXY protocol specification calls headers with an IPv4 or IPv6 block (or LOCAL), and gives the source standing in those bytes |
| `ProxyFormat.RefusedExactly` | common/proxyprotocol/server.go:33-53 | every byte string that is not a header is refused with the error of the first thing that is wrong: cut short, other first bytes, version 1, another version, command or family, a Unix socket |
| `ProxyFormat.WritesExactly` | common/proxyprotocol/client_v2.go:14-82 | every header written byte by byte, and the error for every header that is not |
| `Proxy.WriteHeader2` | common/proxyprotocol/client_v2.go:14-82 | the header goes out whole, or nothing does and the error is the right one |
| `Proxy.ReadHeader` | common/proxyprotocol/server.go:33-53 | the two-stage identity match and the header, on bytes arriving in any pieces |
| `Proxy.ReadHeader2` | common/proxyprotocol/server_v2.go:15-110 | result and cursor are those of the parser |
| `Proxy.ReadWritten` | common/proxyprotocol/server.go:33-53 | writer and reader together: the source read is the one written, an IPv4-mapped one as IPv4, and the cursor is left at the first payload byte |
| `Selector.Selector.constructor` | common/transportselect/selector.go:58-81 | the initial choice for each mode |
| `Selector.Selector.Preferred` | common/transportselect/selector.go:84-97 | fixed modes answer themselves; in auto mode the choice kept |
| `Selector.Selector.ProbeOnce` | common/transportselect/selector.go:158-204 | after any history: a configured path is up exactly when one of its last three rounds succeeded; a path alone up is preferred, of two the one faster by five milliseconds, and with less between them the choice stays |
| `Selector.RecentlyUpIs` | common/transportselect/selector.go:161-188 | a counter of misses below three with a success before it is the same as a success in the last three rounds |
| `Selector.PreferredIsUsable` | common/transportselect/selector.go:206-236 | over every history a configured path is preferred whenever one exists, and never a down path beside one that is up |
| `Selector.QuietHoldsChoice` | common/transportselect/selector.go:223-234 | while both paths stay up and under five milliseconds apart the choice never changes |
| `Selector.SwitchNeedsGap` | common/transportselect/selector.go:223-234 | over any stretch of rounds with both paths up, a choice other than the one before it was made in a round with a gap of five milliseconds toward it |
| `Selector.LastRoundDecides` | common/transportselect/selector.go:206-236 | over every history: with both paths up and a gap of five milliseconds the faster one is preferred, with less the choice before; otherwise the one that is up, or TCP before UDP as configured |
| `Selector.BackToTcp` | common/transportselect/selector.go:220-234 | concretely: 20 and 10 milliseconds give UDP, and then 10 and 30 give TCP again |
| `Selector.Run` | common/transportselect/selector.go:115-128 | the loop over any outcomes ends in the choice the history calls for, by the rule of the last round |

## Left out

- Matcher names outside ASCII: `strings.ToLower` and rune-wise reversal are modelled on ASCII, where reversal is byte reversal.
- An empty list of rules: `newSuccinctSet` reads its first key before it checks that there is one.
- `sort.Strings` is an insertion sort (`Sorting.Sorted`); only its result matters to the matchers.
- Sequence numbers that wrap: `Tunnel.Do` refuses to queue a frame beyond 2^32, where the code's comparisons stop being meaningful.
- Delivery after FIN, RST or close: `close` abandons unacknowledged frames and FIN sets EOF at once, so only prefix safety is claimed there; `TunnelRuns.AlwaysFinishable` asks for open sessions.
- `TunnelRuns.AlwaysFinishable` shows that a schedule exists; it does not say that a network will follow it.
- Session.Session.Write: it is one caller's locked sections up to the next wait, without other sections in between (`Tunnel.Do` interleaves them, one chunk a step); a send that fails is not an error here but a frame the network dropped.
- A frame the code sends after unlocking is in the model's network from the locked section on; a frame whose sending fails is one the network dropped.
- Two readers or two writers on one session, which share one wake-up token, and interleavings inside a locked section.
- The listener's and the dialer's session tables, the handshake timing and the idle sweep: bookkeeping and system calls; what they trigger is the `Abort` and `Control` steps.
- `Conn.Read` with a deadline is the reader of the model whose wait can end early (`StopReading`); a deadline that interrupts a write does not exist in the code either.
- Connection errors other than end of stream, and read deadlines of sniffers.
- `Buffer.WriteTo`, `CopyConn` and `CopyBuffer`: `WriteTo` does not advance the cursor, so there is nothing exact to claim about a copy from a non-empty cache.
- Slices returned by `Peek` and `Extend` are values and indexes here: aliasing with the buffer is not captured.
- `Scan` and `WriteToPacket` on byte slices, chat messages and JSON: the code does not invert the first and the rest is library encoding. Sized signed integers are carried as their two's complement bits.
- Buffers.Buffer.WriteZeroN: not for a range that ends at the capacity, where the code's loop runs one byte past the slice and panics.
- Packets.WriteToPacket: only for lists that fit the buffer; otherwise the code panics or stops in the middle of the list, by item type.
- Packets.Scan: says nothing of the targets already filled when an error stops it.
- Access lists, player limits, kick and MOTD messages around the handshake construction.
- The transfer intent: the code closes such connections without sending anything.
- Proxy.ReadHeader: a version 1 identity ends in an error value; parsing such a header rests on library address parsing.
- The metadata `HandleConnection` fills in, and IPv6 zones.
- Network probes and the probing interval: `Selector.Selector.ProbeOnce` takes their outcomes as parameters.
- Router rules, string sets, IP sets, access control, SOCKS, configuration and the buffer allocator: short case analyses or library parsing.

# P2P-Simulator in Dafny

A model of the core of P2P-Simulator, a Java simulator of peer-to-peer networks with a
demonstration distributed hashtable running on top.

- The **network** (`Network`, `Node`, `Link`) registers nodes, gates every send on both
  endpoints being registered and running, and creates links lazily. Each link and each
  node's download limit is a token bucket, and a transmission arrives at the later of
  the two completion times. Transmissions queue by arrival time, and one pass of the
  network thread hands every due, undropped one to its running receiver.
- The **hashtable node** (`HashNode`) places nodes and keys on [0, 1). It routes fetches
  and stores to the closest node it knows and remembers who asked for a key it had to
  fetch. It also builds a joining node's peer slots by fanning out peer requests over
  its own peers and merging the answers slot by slot towards fixed target positions.
- The **serialisation** classes are `ByteStream` (big-endian bytes of Java primitives and
  strings in a growable buffer) and `BitStream` (bit-level reading and writing over a
  growable byte list). `ByteStream` is the wire format of every hashtable message.
- The **record cache** (`Cache`) is an LRU cache: a hash table plus a doubly linked queue
  of nodes.

The modules follow the Java classes:

| module (file) | models |
|---|---|
| `JavaInt` (java_int.dfy) | Java integer widths, two's complement, 32-bit wrap-around, big-endian bytes, `null` as `Option` |
| `ByteStreams` (byte_stream.dfy) | `ByteStream` as a class over an `array<uint8>` |
| `BitStreams` (bit_stream.dfy) | `ByteList` and `BitStream` as classes over an `array<bv8>` |
| `LruCache` (cache.dfy) | `Cache` and its `QueueNode`s as linked objects, with a ghost queue |
| `FlowControl` (flow.dfy) | the token-bucket rule that `Node.updateFlow`/`sendTime` and `Link.updateFlow`/`sendTime` share |
| `Simulator` (simulator.dfy) | `Node`, `Link`, `Network` and `Transmission` |
| `PeerAlgorithms` (peers.dfy) | `Peer`, `getPeerTargets`, `PeerNominate`, `mergePeers`, the `peer_list` projection, the nearest-node scan and the fan-out ranges |
| `Wire` (wire.dfy) | the hashtable messages as sequences of `ByteStream` fields, with `make*` encoders and the matching readers |
| `Dht` (hash_node.dfy) | `HashNode` and `PeerFan` as classes; what a node sends is appended to `outbox` |

Java `float` and `double` values are reals. A Java `String` is a sequence of 16-bit code
units. Java integer overflow is written out for `requestID++`, `responses++`, the
`(short)` casts and `readUnsignedInt`'s shifts.

Where the code and its own comments point different ways, the model follows the code:
- `mergePeers` (HashNode.java:398-410): the comment at line 402 says the closest to
  the target wins. On a tie the code takes the second array's slot (`B`).
- `updatePeerList` (HashNode.java:334-344): the comment at line 31 promises a
  `peer_list` with "no nulls or duplicates". The code compares each slot with the
  previous *array slot* only, so a peer can repeat across an empty slot.
- `processRequest` (HashNode.java:118-132): the branch at lines 129-131 that adds a
  second requester cannot be reached, because it sits under the test at line 120 that
  the key is not pending. A second fetch of a pending key is therefore not remembered.
- `processPeerResponse` (HashNode.java:266-272): a completed fan is sent on, and then
  `remove(cpos)` looks up a Float key in a map keyed by Integer, so the fan stays
  pending.

The last two are under Findings. `Dht.HashNode.ProcessMessage` dispatches to the handlers
as written. `Dht.HashNode.ProcessMessageCorrected` dispatches to the corrected ones.

## Model

| member | source | states |
|---|---|---|
| JavaInt.SignedOfUnsigned | ByteStream.java:79 | the `(short)` reinterpretation of a value's low bytes gives back any value of that width |
| JavaInt.UnsignedOfSigned | ByteStream.java:89-90 | masking a signed value to its width gives back the unsigned bytes it came from |
| JavaInt.Wrap32Double | BitStream.java:40 | `(n << 1) \| b` on a wrapped int equals wrapping the exact `2n + b` |
| JavaInt.FromBigEndianOf | ByteStream.java:96-100 | reading n big-endian bytes of u gives u modulo 256^n |
| JavaInt.BigEndianAt | ByteStream.java:107-110 | byte k of the big-endian encoding is u / 256^(n-1-k) % 256, most significant first |
| JavaInt.GrowToTwice | BitStream.java:81-83 | growing a buffer by doubling for one index and then a later one equals growing it for the later one |
| ByteStreams.ShortRoundTrip | ByteStream.java:78-93 | readShort of writeShort's two bytes returns the short |
| ByteStreams.IntRoundTrip | ByteStream.java:96-113 | readInt of writeInt's four bytes returns the int |
| ByteStreams.LongRoundTrip | ByteStream.java:116-145 | readLong of writeLong's eight bytes returns the long |
| ByteStreams.ShortBytesMostSignificantFirst | ByteStream.java:89-90 | the two bytes are the high then the low byte of the unsigned value |
| ByteStreams.IntBytesMostSignificantFirst | ByteStream.java:107-110 | the four bytes are the unsigned value's bytes from the most significant down |
| ByteStreams.LongBytesMostSignificantFirst | ByteStream.java:135-142 | the eight bytes are the unsigned value's bytes from the most significant down |
| ByteStreams.CharsRoundTrip | ByteStream.java:221-224 | reading the units written as `(short)c` gives back every char |
| ByteStreams.NullRoundTrip | ByteStream.java:230-233 | null is written as the int 0 alone, and reads back as "" |
| ByteStreams.CharsStringRoundTrip | ByteStream.java:219-240 | writeString writes the length and then 2 bytes per char, and readString reads the string back |
| ByteStreams.NullStringIsEmptyString | ByteStream.java:229-233 | null and "" are written as the same bytes |
| ByteStreams.StringReadBack | ByteStream.java:219-226 | on bytes that start with a written string, readString's length is in bounds and the chars it reads are that string ("" for null) |
| ByteStreams.ByteStream.OfSize | ByteStream.java:16-18 | a zeroed buffer of the given size, with nothing written |
| ByteStreams.ByteStream.constructor | ByteStream.java:20-22 | a zeroed buffer of 100 bytes, with nothing written |
| ByteStreams.ByteStream.Wrap | ByteStream.java:24-28 | wraps the given array: `filledsize` and `writepointer` at its end, `readpointer` 0 |
| ByteStreams.ByteStream.Copy | ByteStream.java:30-38 | a fresh array with the same bytes, and the same three counters |
| ByteStreams.ByteStream.DoubleLength | ByteStream.java:264-270 | a fresh array twice as long, the old bytes followed by zeros, counters unchanged |
| ByteStreams.ByteStream.ExtendToLength | ByteStream.java:253-261 | the array grows to the new length only when that is longer, keeping the bytes and zero-filling |
| ByteStreams.ByteStream.ClearExtraSpace | ByteStream.java:273-279 | the array is cut to exactly the filled bytes |
| ByteStreams.ByteStream.GetBytes | ByteStream.java:282-288 | a fresh copy of exactly the filled bytes |
| ByteStreams.ByteStream.Append | ByteStream.java:291-302 | the buffer becomes this stream's filled bytes followed by the other's, with `writepointer` at the end |
| ByteStreams.ByteStream.ReadStream | ByteStream.java:307-314 | a fresh stream wrapping the next `length` bytes, and `readpointer` moves past them |
| ByteStreams.ByteStream.ReadByte | ByteStream.java:62-66 | the signed byte at `readpointer`, which advances by 1 |
| ByteStreams.ByteStream.ReadShort | ByteStream.java:78-82 | the big-endian short at `readpointer`, which advances by 2 |
| ByteStreams.ByteStream.ReadInt | ByteStream.java:96-100 | the big-endian int at `readpointer`, which advances by 4 |
| ByteStreams.ByteStream.ReadLong | ByteStream.java:116-128 | the big-endian long at `readpointer`, which advances by 8 |
| ByteStreams.ByteStream.ReadString | ByteStream.java:219-226 | reads an int length n and then n chars, one per 2-byte unit, advancing 4 + 2n |
| ByteStreams.ByteStream.ReadUnits | ByteStream.java:221-224 | the `length` chars of the next 2 * length bytes |
| ByteStreams.ByteStream.WriteByte | ByteStream.java:68-75 | the byte is written at `writepointer` after at most one doubling, `writepointer` advances, and filled is the furthest written |
| ByteStreams.ByteStream.WriteShort | ByteStream.java:85-93 | the two big-endian bytes are written at `writepointer`, which advances by 2, and filled is the furthest written |
| ByteStreams.ByteStream.WriteInt | ByteStream.java:103-113 | the four big-endian bytes are written at `writepointer`, which advances by 4, and filled is the furthest written |
| ByteStreams.ByteStream.WriteLong | ByteStream.java:131-145 | the eight big-endian bytes are written at `writepointer`, which advances by 8, and filled is the furthest written |
| ByteStreams.ByteStream.WriteString | ByteStream.java:229-240 | the string's encoding (length, then units; null as length 0) is written at `writepointer` |
| ByteStreams.ByteStream.WriteUnits | ByteStream.java:236-239 | each char is written as one big-endian short, in order |
| ByteStreams.ByteStream.WriteUnit | ByteStream.java:237-239 | one pass of the char loop: unit k lands as a big-endian short after the first k, and writepointer advances by 2 |
| ByteStreams.ByteStream.ReadByteAt | ByteStream.java:158-160 | the signed byte at index k |
| ByteStreams.ByteStream.ReadShortAt | ByteStream.java:173-177 | the big-endian short at rp; no counter moves |
| ByteStreams.ByteStream.ReadIntAt | ByteStream.java:190-194 | the big-endian int at rp; no counter moves |
| ByteStreams.ByteStream.WriteByteAt | ByteStream.java:163-170 | the byte is written at wp, both positions stay, and filled reaches wp + 1 |
| ByteStreams.ByteStream.WriteShortAt | ByteStream.java:180-187 | the two bytes are written at wp, and filled only reaches wp, not wp + 2, as written |
| ByteStreams.ByteStream.WriteIntAt | ByteStream.java:197-206 | the four bytes are written at wp, and filled reaches wp + 4 |
| ByteStreams.StringThroughStream | ByteStream.java:218-240 | on a fresh stream, writeString then readString returns the string, and "" for null |
| ByteStreams.IntThroughStream | ByteStream.java:190-194 | readInt at the position writeInt wrote to returns the int |
| BitStreams.MaskIsShift | BitStream.java:85 | the mask of bit i is `1 << i` |
| BitStreams.BitIsShift | BitStream.java:25 | the bit read is `(b >> i) & 1` |
| BitStreams.ShiftMaskIsDivMod | BitStream.java:14-33 | for a non-negative counter, `x >> 3` and `x & 7` are `x / 8` and `x % 8`, so readBit and readBit(loc) address the bit readBitsimple does |
| BitStreams.SetBitSame | BitStream.java:85 | `b - (b & mask) + (v << bit)` holds v at that bit |
| BitStreams.SetBitOther | BitStream.java:85 | the same store leaves every other bit of the byte as it was |
| BitStreams.FromMsbBits | BitStream.java:36-46 | shifting in the n low bits of u, most significant first, rebuilds u modulo 2^n |
| BitStreams.UnsignedIntBitsAreLowBits | BitStream.java:90-94 | writeUnsignedInt writes bits `(i >> k) & 1` for k from bits-1 down to 0, which are the n low bits of i's unsigned value |
| BitStreams.UnsignedRoundTrip | BitStream.java:36-46 | readUnsignedInt of writeUnsignedInt gives i modulo 2^n for n ≤ 31, and i itself for n = 32 |
| BitStreams.JavaAbs | BitStream.java:103 | Math.abs is non-negative and ±i except at the minimum int |
| BitStreams.SignedRoundTrip | BitStream.java:51-59 | readSignedInt of writeSignedInt gives i back when \|i\| < 2^n, for every int at 32 bits (Integer.MIN_VALUE too), and the sign bit is 1 exactly when i > 0 |
| BitStreams.ByteList.OfSize | BitStream.java:217-219 | a zeroed array of the given size, with size 0 |
| BitStreams.ByteList.constructor | BitStream.java:221-223 | a zeroed array of 100 bytes, with size 0 |
| BitStreams.ByteList.Wrap | BitStream.java:225-228 | wraps the array, with size its length |
| BitStreams.ByteList.Set | BitStream.java:241-244 | stores the byte, and size becomes k when k is larger (not k + 1) |
| BitStreams.ByteList.ExtendToLength | BitStream.java:246-254 | grows only to a longer length, keeping the bytes and zero-filling |
| BitStreams.ByteList.DoubleLength | BitStream.java:256-262 | a fresh array of twice the length, the bytes followed by zeros |
| BitStreams.WroteBitAppends | BitStream.java:78-87 | writing a bit at the write counter extends the written bits by exactly that bit |
| BitStreams.WroteBitKeeps | BitStream.java:78-87 | writing a bit leaves every earlier bit as it was |
| BitStreams.BitStream.constructor | BitStream.java:9-11 | an empty stream over a fresh 100-byte list of zero bytes with size 0, with both counters 0 |
| BitStreams.BitStream.ReadBit | BitStream.java:24-28 | the bit at the read counter, and the counter advances by 1 |
| BitStreams.BitStream.ReadBitAt | BitStream.java:31-33 | the bit at loc, 0 or 1 |
| BitStreams.BitStream.WriteBit | BitStream.java:78-87 | the list doubles until the byte exists, the bit is stored there, size becomes that byte's index when larger, the written bits grow by exactly it, and every later bit keeps its old value (0 in the grown part) |
| BitStreams.BitStream.WriteUnsignedInt | BitStream.java:90-94 | appends the `bits` low bits of i, most significant first; the list has doubled until the last byte written fits, size is raised to that byte, and every bit past the new write counter keeps its old value |
| BitStreams.BitStream.ReadUnsignedInt | BitStream.java:36-46 | the next `bits` bits shifted in as a wrapping int, or 0 reading nothing when bits ≤ 0 |
| BitStreams.BitStream.WriteSignedInt | BitStream.java:98-104 | appends the sign bit (1 when positive) and then \|i\|'s low bits, with the same growth, size and untouched-tail guarantees as writeUnsignedInt |
| BitStreams.BitStream.ReadSignedInt | BitStream.java:51-59 | reads a sign bit and then the magnitude, negated when the sign bit is 0 |
| BitStreams.BitStream.AppendBitStream | BitStream.java:107-112 | the other stream's written bits are appended, with the same growth, size and untouched-tail guarantees, and its read counter ends at its write counter |
| BitStreams.BitStream.ReadSubStream | BitStream.java:117-124 | a fresh stream holding the next min(bits, unread) bits, past which the read counter moves; its 100-byte list has doubled until the last bit fits, its size is that byte's index, and every bit past its write counter is 0 |
| BitStreams.BitStream.MoveBit | BitStream.java:120-122 | one pass of the loop `s.writeBit(readBit())` (and of `this.writeBit(o.readBit())` in appendBitStream): the read counter advances by one and s ends as the loop left it, its written bits extended by the next bit read, its growth and size as writeBit sets them, and its tail untouched since the loop began |
| BitStreams.BitStream.MoveBits | BitStream.java:109-111 | the loop of appendBitStream and readSubStream: the next n bits read here (none when n ≤ 0) are appended to s, which grows, raises its size and keeps its tail as a run of writeBit calls does |
| BitStreams.ByteList.DoubleUntil | BitStream.java:81-83 | the doubling loop of writeBit: the array has grown to GrowTo(length, index), keeping the bytes and zero-filling |
| BitStreams.WroteBitUntouched | BitStream.java:78-87 | a bit written leaves every later bit of the list as it was, and 0 where the list grew |
| BitStreams.UntouchedTrans | BitStream.java:90-94 | two writes in a row, the second ending at or past the first, leave everything past the second as it was before the first |
| BitStreams.GrewTrans | BitStream.java:81-83 | growing and raising the size for one run of writes then another is growing and raising it for both together |
| BitStreams.Tracked | BitStream.java:90-94 | a writer's growth, size and untouched tail so far, followed by one more write, are its growth, size and tail up to that write |
| BitStreams.UntouchedZeros | BitStream.java:117-124 | a stream that began as zero bytes and was only written up to w has only zero bits from w on |
| BitStreams.WroteNextBit | BitStream.java:90-94 | writing bit k of i extends the bits written so far by the next bit of UnsignedIntBits |
| BitStreams.SignThenMagnitude | BitStream.java:98-104 | the sign bit followed by the magnitude bits is SignedIntBits |
| BitStreams.MovedOneMore | BitStream.java:109-111 | moving one more bit extends the bits moved so far by it |
| BitStreams.UnsignedThroughStream | BitStream.java:90-94 | an n-bit unsigned write then read of a fresh stream gives i mod 2^n |
| BitStreams.SignedThroughStream | BitStream.java:98-104 | an n-bit signed write then read of a fresh stream gives i back, for n up to 32 |
| BitStreams.BitThroughStream | BitStream.java:78-87 | a written bit reads back |
| LruCache.QueueNode.constructor | Cache.java:68-70 | an unlinked node holding the key |
| LruCache.Cache.constructor | Cache.java:57-60 | an empty cache of the given capacity |
| LruCache.Cache.OrderHoldsTableKeys | Cache.java:50-52 | the queue holds each table key exactly once, and nothing else |
| LruCache.Cache.FilledIsSize | Cache.java:55 | `filled` counts the table's entries |
| LruCache.Cache.RemoveFromQueue | Cache.java:72-79 | the node is unlinked from the queue, its neighbours are joined, and head or tail follow |
| LruCache.Cache.RemoveFromTable | Cache.java:81-83 | the node's key leaves the table |
| LruCache.Cache.LinkAtHead | Cache.java:122-126 | the node becomes the head of the queue, and the tail when the queue was empty |
| LruCache.Cache.MoveToHead | Cache.java:100-104 | the accessed key moves to the front of the access order |
| LruCache.Cache.Get | Cache.java:96-106 | a miss returns null and changes nothing; a hit returns the record and moves the key to the front, keeping the cache well-formed |
| LruCache.Cache.GetAsWritten | Cache.java:96-106 | returns the record or null, and a hit on a one-entry cache leaves `tail` null |
| LruCache.Cache.Put | Cache.java:110-137 | a present key gets the new record in place; a new key goes to the front, and the least recently used key is evicted when the capacity is exceeded |
| LruCache.Cache.Replace | Cache.java:113-114 | the record changes and the order does not |
| LruCache.Cache.Add | Cache.java:116-135 | the new key goes to the front, and the last key is evicted past capacity |
| LruCache.Cache.Insert | Cache.java:117-127 | a fresh node for the key at the head, with filled one larger |
| LruCache.Cache.EvictTail | Cache.java:129-135 | the last key of the order leaves both the queue and the table |
| LruCache.Cache.UnlinkTail | Cache.java:130-134 | the last node is unlinked and filled drops by one |
| FlowControl.RefilledCapped | Node.java:84-90 | the refilled flow never exceeds the maximum, and it is the maximum exactly when the uncapped refill reaches it |
| FlowControl.RefilledGrows | Network.java:204-210 | moving time forward never lowers the flow unless the cap applies |
| FlowControl.RefilledTwice | Node.java:84-90 | two refills in a row equal one over the whole span when the cap did not apply in between |
| FlowControl.WaitBounds | Node.java:77-82 | the wait is never negative, is zero exactly when the bucket holds the size, and otherwise refills exactly the missing flow |
| FlowControl.WaitMonotone | Network.java:213-219 | a larger message never waits less |
| Simulator.LinkKeyShared | Network.java:95 | the links key `from + "-" + to` is shared by two different pairs when an address contains '-' |
| Simulator.LinkKeyInjective | Network.java:77 | with no '-' in from-addresses, the links key names one pair |
| Simulator.InsertByArrivalAdds | Network.java:107 | queueing adds exactly the transmission |
| Simulator.InsertByArrivalSorted | Network.java:259-261 | queueing keeps the queue ordered by exact arrival time, which stands for the queue's comparator |
| Simulator.InsertedAt | Network.java:107 | the new transmission sits behind every one arriving no later, and the rest keep their order |
| Simulator.DueExactly | Network.java:141 | on an ordered queue, the due front is exactly the transmissions arriving before the time |
| Simulator.DeliveriesFrom | Network.java:143-147 | a node is handed exactly the undropped transmissions addressed to it |
| Simulator.DeliveriesNone | Network.java:144-145 | a node nobody addresses receives nothing |
| Simulator.Node.constructor | Node.java:28-31 | a running node with an empty message queue and no network |
| Simulator.Node.Receive | Node.java:33-36 | the message is queued at the back |
| Simulator.Node.Send | Node.java:39-43 | outside a network nothing is sent; inside one, the transmission, the link and the receiver's bucket are as sendMessage leaves them, every other link and node keeps its flow and times, and only the fields sendMessage writes may change |
| Simulator.Node.Stop | Node.java:52-54 | the node is stopped |
| Simulator.Node.UpdateFlow | Node.java:84-90 | the flow is refilled up to `time` and capped, and `time` becomes the last update |
| Simulator.Node.SendTime | Node.java:77-82 | the arrival is the request time plus the wait for the refilled bucket, and the whole size is debited |
| Simulator.Link.constructor | Network.java:194-202 | a link with the given latency, rate and maximum, and a full bucket |
| Simulator.Link.UpdateFlow | Network.java:204-210 | the flow is refilled up to `time` and capped |
| Simulator.Link.SendTime | Network.java:213-219 | the arrival is the request time plus the latency plus the wait; the size is debited and the arrival remembered |
| Simulator.Network.constructor | Network.java:39-56 | an empty, running network with the given defaults |
| Simulator.Network.AddNode | Network.java:60-72 | the node is registered under its address at (x, y), with a full bucket of 10 × rate |
| Simulator.Network.SetLink | Network.java:76-78 | the pair gets a fresh link with the given latency and rate and a maximum of 10 × rate |
| Simulator.Network.DistanceUnknown | Network.java:177-178 | an unregistered endpoint is at distance 99999999 (10^8 once converted to float) |
| Simulator.Network.DistanceSymmetric | Network.java:174-182 | distance does not depend on direction |
| Simulator.Network.LinkFor | Network.java:95-101 | an existing link is reused; a missing one is created with the default rate and a latency of distance × latency per distance plus a random share of the maximum (the state `LinkOnSend` names), and no other pair shares the link object |
| Simulator.Network.SendMessage | Network.java:92-109 | a transmission is queued exactly when both endpoints are running; it arrives at the later of the link's and the receiver's completion times, never before sent time plus latency, and is dropped as the draw says. The link found or created (`LinkOnSend`) has its bucket refilled to the send time and debited by the size, its last arrival is send time plus latency plus the wait, and the receiver's bucket is debited at the send time. Every other link and node keeps its flow and times |
| Simulator.Network.Transmit | Network.java:102-107 | the link's and the receiver's buckets are debited at the send time, and the transmission, arriving at the later of the two completions and no earlier than the latency, is queued by arrival |
| Simulator.Network.Stop | Network.java:112-118 | every node and the network are stopped |
| Simulator.Network.StopNode | Network.java:121-123 | the named node is stopped |
| Simulator.Network.RandomNode | Network.java:128-135 | "" when there are no nodes; otherwise the iterator is advanced `(int)(size × draw)` times and the address it then hands out is returned |
| Simulator.FloorBelow | Network.java:130 | that index is always a valid one |
| Simulator.Network.DeliveryPass | Network.java:141-148 | the due front leaves the queue, and every running node receives its undropped messages from it, in order |
| Simulator.Network.DeliverHead | Network.java:142-147 | one poll delivers the head to its receiver only |
| PeerAlgorithms.TargetsShape | HashNode.java:383-394 | the two middle targets are the center, the ends are halfway to 0 and to 1, and each inner target is halfway from its outer neighbour to the center |
| PeerAlgorithms.TargetGaps | HashNode.java:389-392 | the k-th target from either end is (1/2)^(k+1) of the way from the center to that end |
| PeerAlgorithms.TargetsExample | HashNode.java:431-436 | targets around 0.5 at depth 2 are 0.25, 0.375, 0.5, 0.5, 0.625, 0.75 |
| PeerAlgorithms.PeerTargets | HashNode.java:383-394 | the loop builds exactly the target array |
| PeerAlgorithms.NominatedSlots | HashNode.java:415-428 | a lower peer fills exactly the lower half of the slots, a higher one the upper half, and one at the center none |
| PeerAlgorithms.PeerNominate | HashNode.java:415-428 | the loops build exactly the nominated slots |
| PeerAlgorithms.MergedSlots | HashNode.java:398-412 | each merged slot comes from A or B: the non-null one, else A when strictly closer to the slot's target, and B on a tie |
| PeerAlgorithms.MergedSelf | HashNode.java:398-412 | merging an even-length array with itself changes nothing |
| PeerAlgorithms.MergedOddLast | HashNode.java:399-401 | for an odd length, the last slot has no target and is always null |
| PeerAlgorithms.MergePeers | HashNode.java:398-412 | the loop builds exactly the merged array |
| PeerAlgorithms.PeerListFromSlots | HashNode.java:334-343 | every listed peer occupies a slot |
| PeerAlgorithms.PeerListReady | HashNode.java:56-58 | the list is non-empty exactly when some slot holds a peer |
| PeerAlgorithms.PeerListLast | HashNode.java:334-343 | with every slot filled, the last slot's peer ends the list |
| PeerAlgorithms.PeerListNoAdjacentRepeats | HashNode.java:338 | with every slot filled, no two adjacent list entries have the same address |
| PeerAlgorithms.PeerListRepeatsAcrossNull | HashNode.java:338 | a peer repeated across an empty slot is listed twice |
| PeerAlgorithms.NearestIsFirstClosest | HashNode.java:103-112 | the scan picks a closest node; the node itself wins every tie, and the earliest of equally close peers wins |
| PeerAlgorithms.FanRangeWithin | HashNode.java:198-215 | a peer's share lies within the requested range and on the peer's side of the midpoint between it and this node |
| Wire.MakeRequestBytes | HashNode.java:278-283 | a request is the type byte 1 followed by the key as writeString writes it |
| Wire.RequestRoundTrip | HashNode.java:278-283 | a request reads back its key |
| Wire.ResponseRoundTrip | HashNode.java:286-292 | a response reads back its key, and a missing value as "" |
| Wire.StoreRequestRoundTrip | HashNode.java:295-301 | a store request reads back its key and value, "" for null |
| Wire.PeerRequestRoundTrip | HashNode.java:304-313 | a peer request reads back the joining node, its position, the range and the request number |
| Wire.PeerFieldsRoundTrip | HashNode.java:322-329 | a slot array whose peers have non-empty addresses reads back slot by slot |
| Wire.PeerResponseRoundTrip | HashNode.java:316-331 | a peer response with fewer than 2^15 named slots reads back its target, number and slots |
| Wire.FieldRoundTrip | ByteStream.java:62-227 | readByte, readShort, readInt, readFloat and readString, applied at the bytes writeByte, writeShort, writeInt, writeFloat and writeString lay down, return the field and consume exactly its bytes |
| Wire.BytesRoundTrip | ByteStream.java:62-227 | the bytes of a whole message, read field by field with the ByteStream reads of the fields' kinds, give back the message |
| Wire.PeerResponseBytesRoundTrip | HashNode.java:243-258 | processPeerResponse's reads over the bytes makePeerResponse writes return the target, the request number and every slot |
| Wire.EmptyAddressMisreads | HashNode.java:251-255 | a peer with the empty address reads back as an empty slot, and the fields after it misalign |
| Dht.Get | HashNode.java:117 | the value is present exactly when the key is stored |
| Dht.OwnerIsClosest | HashNode.java:103-115 | a node keeps a key when no peer is strictly closer, and otherwise names a strictly closer peer that is as close as any |
| Dht.SecondRequesterDropped | HashNode.java:120-131 | as written, after requests for one key from a and then b, only a is recorded and b never receives the response |
| Dht.PendRemembers | HashNode.java:124-131 | with the intended bookkeeping, every requester of a pending key is recorded in order, and other keys keep theirs |
| Dht.RelayedReachesRequesters | HashNode.java:145-147 | the response is relayed to every recorded requester and to nobody else |
| Dht.StoreThenFetch | HashNode.java:117-118 | a value the owner stored is what its response to a fetch carries |
| Dht.FanOutExactly | HashNode.java:197-226 | the fan-out sends one request to every peer whose share is non-empty, and nothing else |
| Dht.FanMessageWithin | HashNode.java:218-221 | the request sent on reads back as a non-empty part of the requested range, for the same joining node, under this node's number |
| Dht.ReadPeerArray | HashNode.java:249-256 | the loop reads exactly the slots the message encodes |
| Dht.PeerFan.constructor | HashNode.java:354-362 | a fan expecting `fanout` answers, with this node as the only candidate |
| Dht.PeerFan.HandleResponse | HashNode.java:366-370 | the answer is merged into the candidates, the count goes up with Java int wrap-around, and the fan is done once the count reaches the requests |
| Dht.HashNode.constructor | HashNode.java:40-53 | no peers, empty tables, a peer request for [0, 1] numbered 0 sent to `connect`, and the next number 1 |
| Dht.HashNode.Ready | HashNode.java:56-58 | ready exactly when some slot holds a peer |
| Dht.HashNode.Send | Node.java:39-42 | the message is appended to the outbox, addressed to `to` |
| Dht.HashNode.UpdatePeerList | HashNode.java:334-343 | peer_list becomes the projection of the slots |
| Dht.HashNode.NearestTo | HashNode.java:103-112 | the scan returns the owner's address |
| Dht.HashNode.ProcessRequestAsWritten | HashNode.java:95-133 | ends in `RequestHandled`: the owner answers from its table and records nothing; otherwise the request is forwarded unless the key is pending, and only a first requester is recorded |
| Dht.HashNode.ProcessRequest | HashNode.java:95-133 | ends in `RequestHandled` as corrected: as written, except that a requester of a pending key is appended to its requesters |
| Dht.HashNode.ProcessResponse | HashNode.java:136-149 | ends in `ResponseHandled`: the key's requesters are forgotten, each gets the response in order, and an unasked-for response is dropped |
| Dht.HashNode.ProcessStoreRequest | HashNode.java:152-179 | ends in `StoreHandled`: the owner stores the value; any other node keeps its table and forwards the request unchanged to the owner |
| Dht.HashNode.SendFanOut | HashNode.java:197-226 | the loop sends exactly the fan-out, in peer order, and counts it |
| Dht.HashNode.ProcessPeerRequest | HashNode.java:184-240 | ends in `PeerRequestHandled`: with nothing fanned out, this node alone answers; otherwise a fresh fan is recorded under the current number, which then wraps up by one; either way the joining node is merged into the slots |
| Dht.HashNode.Answer | HashNode.java:229-236 | the no-fan answer or the fan record, as in processPeerRequest |
| Dht.HashNode.RecordFan | HashNode.java:234-235 | a fresh fan under the current request number, which then increments with wrap-around |
| Dht.HashNode.MergeJoining | HashNode.java:238-239 | the slots become the merge with the joining node's nomination, and peer_list follows |
| Dht.HashNode.ProcessPeerResponseAsWritten | HashNode.java:243-275 | ends in `PeerResponseHandled`: an answer for a fan is merged and, once complete, sent on, but the fan stays pending, and every other fan is kept; an answer under no pending number replaces the slots when it is this node's own and is dropped otherwise, with every fan's best peers and count kept (`FansKept`) |
| Dht.HashNode.ProcessPeerResponse | HashNode.java:243-275 | ends in `PeerResponseHandled` as corrected: as written, except that a completed fan is removed under its request number |
| Dht.HashNode.ProcessMessage | HashNode.java:73-92 | dispatches on the type byte to the handlers as written and ends in the handler's state (`RequestHandled`, `ResponseHandled`, `StoreHandled`, `PeerRequestHandled`, `PeerResponseHandled`); every field a type's handler leaves alone keeps its value, the fans for every type but PEERRESPONSE, so an unknown type changes nothing |
| Dht.HashNode.ProcessMessageCorrected | HashNode.java:73-92 | the same dispatch and frame with the corrected handlers: a second requester of a pending key is remembered, and a completed fan is removed |
| Dht.HashNode.ProcessKeyMessage | HashNode.java:76-84 | a REQUEST, RESPONSE or STOREREQUEST ends in its handler's state (processRequest as written or corrected), with the request number, the slots, peer_list and every fan kept |
| Dht.HashNode.ProcessPeerMessage | HashNode.java:85-91 | a PEERREQUEST or PEERRESPONSE ends in its handler's state (processPeerResponse as written or corrected), with the table and the pending requests kept, and every fan kept by a PEERREQUEST |

## Left out

- Threads: `Network.run`, `HashNode.run` and the sleeps. One `DeliveryPass` is one pass of the network's loop, and a node processes its messages one call at a time.
- Clocks: `Network.getTime`, `Node.getTime` and the per-node clock offset. The clock readings `SendMessage` uses are parameters.
- Randomness: `java.util.Random`. Its draws (link latency, drop chance, `RandomNode`) are parameters, and so is the iteration order of the node table.
- `getPosition`: a seeded `Random` over `String.hashCode`. It is the `positionOf` function given to a `HashNode`.
- `Math.sqrt` in `distance`: a platform call, given to the `Network` as `sqrt`.
- IEEE floats: flows, times and positions are reals, so single- and double-precision rounding is not modelled.
- `readFloat`/`writeFloat` (ByteStream.java:148-155, 209-216) and `Float.floatToIntBits`: a float field of a message carries its real value. `Wire.Bytes` takes the bit pattern as the `floatBits` parameter, and `Wire.ReadField` takes `Float.intBitsToFloat` as `floatOf`.
- Drawing (`draw` in `Node`, `Network`, `Link`, `Transmission`), logging (`println`), and the file `read`/`write` and `main` methods of `ByteStream` and `BitStream`: I/O.
- `Cache.toString` and `Cache.main`: printing.
- `ByteStream(BitStream)`, `converttobits`, `readBitsimple` and `writeBitSimple`: the conversions between the two streams, and the unoptimised duplicates of `readBit`/`writeBit`.
- Simple accessors with no logic of their own (`filledSize`, `arraySize`, `ByteList.get`, `filledsize`, `arraysize`) are read as fields.
- Overflow of buffer positions and counters (`readpointer`, `writecounter`, `filled`, `size` and the like) is not modelled: they are unbounded, since reaching 2^31 takes a buffer of gigabytes.
- Constructor sizing of Java's `HashMap` is not part of this model.
- `Message.java`, `ClientNode.java`, `TestNode.java` and the GUI test classes are not part of this model.
- Message sends of a `HashNode` are appended to its `outbox` rather than passed to the network. The `net.addNode` call of its constructor is left to the caller.
- Java exceptions are preconditions (array index out of range, negative array size, `NullPointerException`, a missing map entry): `ByteStream` reads past the buffer, a write more than one doubling past the end, `mergePeers` on arrays too short for their targets (so processing a peer request needs a slot array of length at least 2 with at most 8 targets, and a fan's answer needs at least 8 slots), `Network.stop(node)` for an unknown address, and malformed messages.
- Rates: the refill rates given to the `Network` constructor, `AddNode`, `SetLink`, `Network.Valid`, `Node.SendTime`, `Link.SendTime` and `FlowControl.Wait` are required to be positive. Java accepts zero or a negative rate, where a zero rate makes arrival times infinite or NaN; the repository's test programs pass positive rates.
- `Transmission.compareTo` (Network.java:259-261) returns `(int)(10000 * Δ)`. Its truncation is not modelled, so two arrivals less than 1/10000 apart count as equal there but are kept in exact arrival order here.
- BitStreams.BitStream.WriteBit: requires a non-empty byte list. On an empty one (`new ByteList(0)`, or one wrapping an empty array) the loop at BitStream.java:81-83 doubles a length of 0 forever, and a method that does not terminate is not modelled.
- BitStreams.BitStream.AppendBitStream: requires another stream with its own byte list. `s.appendBitStream(s)` (BitStream.java:107-112) never ends, because each `writeBit` raises the `o.writecounter` the loop runs up to. Two streams sharing one byte list would also read bits they are writing; that aliasing is not modelled.

## Findings

| source | as written | input that shows it | evidently intended | confidence | as-written member | corrected member |
|---|---|---|---|---|---|---|
| Cache.java:96-106 | `get` unlinks the node (head and tail become null in a one-entry cache) and relinks it at the head without restoring `tail` | capacity 1: `put(a)`, `get(a)`, `put(b)`. `tail` is null, so `put` makes the new node `b` the tail and then evicts `b` instead of `a` | a hit moves the key to the front and leaves the tail on the least recently used node | not executed | LruCache.Cache.GetAsWritten | LruCache.Cache.Get |
| HashNode.java:120-131 | a request for a key that is already pending is neither forwarded nor recorded; the `requesters.add(from)` branch at lines 129-131 is unreachable | two requests for the same key this node does not own, from a and then b, before the response. Only a receives the response | the second requester is appended to the key's requesters and also receives the response | not executed | Dht.HashNode.ProcessRequestAsWritten | Dht.HashNode.ProcessRequest |
| HashNode.java:271 | `pending_peer_request.remove(cpos)` removes a Float key from a map keyed by Integer, so a completed fan is never removed | a fan expecting one answer that then receives two answers for its number: it answers its requester twice | the completed fan is removed under its request number | not executed | Dht.HashNode.ProcessPeerResponseAsWritten | Dht.HashNode.ProcessPeerResponse |

`Dht.SecondRequesterDropped` exhibits the second row on the pending-request bookkeeping as
written, and `Dht.PendRemembers` states the intended bookkeeping.

# A verified model of the distributed key-value store's core

This project models, in Dafny, the deterministic heart of a distributed key-value store written in Java. Servers share a ring of hash values. Each key belongs to the server at or after the key's hash on that ring, either under a consistent-hash ring or under Chord with finger tables and successor lists. Each server keeps its pairs in a B-tree whose nodes hold fixed-size chunks, with an LFU cache in front. A command processor decides, request by request, whether the server is responsible, whether it is write-locked and whether the write is replicated. Around that core sit:

- the server's state machine;
- the classification of peers by the request they send;
- the storage that wraps requests into messages for a remote server;
- the simulator's client counters;
- the plotting script's series transforms.

Everything is written as immutable datatypes and pure functions, plus a few methods where the source loops. The contracts are stated against independent reference definitions:

- the in-order sequence of a B-tree node;
- the ring positions a range covers;
- the clockwise distance between hashes;
- the descending frequency order of the cache list;
- the mean of a ten-row window.

Modules follow the source's classes:

| module | file | source class |
|---|---|---|
| Wrappers | wrappers.dfy | optional values and results |
| Text | text.dfy | the Java string and integer parsing the code relies on |
| Messages | messages.dfy | `StatusType` and `KVMessage` |
| NetworkLocations | network_location.dfy | `NetworkLocation`, `NetworkLocationImpl` |
| Hashing | hashing.dfy | `HashingAlgorithm` |
| SortedMaps | sorted_map.dfy | the `TreeMap` operations the hash rings use |
| RingRanges | ring_range.dfy | `RingRangeImpl` |
| HashRings | hash_ring.dfy | `PrecedingResponsibilityHashRing` |
| ChordRing | chord.dfy | the pure parts of `Chord` |
| ChordSuccessors | successor_list.dfy | `ChordSuccessorList` |
| Chunks | chunk.dfy | `ChunkImpl` |
| PairSequences | pair_seq.dfy | sorted pair sequences used to state B-tree contents |
| BTreeNodes, BTreeRemoval | btree_node.dfy, btree_remove.dfy | `PersistentBTreeNode` |
| BTrees | btree.dfy | `PersistentBTree` |
| BTreeStorages | btree_storage.dfy | `BTreePersistentStorage` |
| LfuCaches | lfu_cache.dfy | `LFUCache` |
| CachedStorages | cached_storage.dfy | `CachedPersistentStorage` |
| StorageCommandProcessors | command_processor.dfy | `StorageCommandProcessor` |
| ServerStates | server_state.dfy | `AbstractServerState` |
| PeerAuthentication | peer_auth.dfy | `PeerAuthenticator`, `PeerType` |
| WrappingStorages | wrapping_storage.dfy | the shared `WrappingPersistentStorage` |
| ClientStatistics | client_stats.dfy | the simulator's `ClientStats` |
| Plotting | plotting.dfy | `misc/plotting.py` |

Where the code and its documentation or tests disagree, the model follows the code. Each such case is modelled twice under "## Findings": once as written, and once corrected. The rest of the model uses the corrected form.

- The B-tree node class lives in the older `persistentStorage` package. Its `remove` returns nothing, while the tree in the newer package expects a boolean. The tree's contract is taken from `PersistentBTree` and its tests. Whether a key was deleted is read off the node's contents before the removal.
- `PeerAuthenticator` was written against an older status enumeration. It has no case for PUT_SERVER_OWNER or DELETE_SERVER, and the model answers None for those two.

## Model

| member | source | states |
|---|---|---|
| RingRanges.NumberOfElements | src/main/java/de/tum/i13/shared/hashing/RingRangeImpl.java:51-59 | a plain range counts end - start + 1 positions and a wrapping one (max - start + 1) + (end + 1); a valid range counts between 1 and max + 1 |
| RingRanges.NumberOfElementsCountsMembers | src/main/java/de/tum/i13/shared/hashing/RingRangeImpl.java:51-59 | for a valid range the count is exactly the number of ring positions 0..max the range covers |
| RingRanges.Contains | src/main/java/de/tum/i13/shared/hashing/RingRangeImpl.java:61-69 | fails exactly for a value above max; otherwise answers yes iff the value is in start..end, or, for a wrapping range, in start..max or 0..end |
| RingRanges.ComputeDifference | src/main/java/de/tum/i13/shared/hashing/RingRangeImpl.java:71-102 | as written: a range over a different hashing algorithm is rejected first, and otherwise it fails exactly when an end of the other range is above max; at most two ranges; both ends inside give [e + 1, s - 1] when this range wraps and [start, s - 1], [e + 1, end] when it does not, whether or not the other range wraps; only the start inside gives [start, s - 1], only the end inside [e + 1, end], neither no range |
| RingRanges.ComputeDifferenceAgreesWithPassingTests | src/test/java/de/tum/i13/shared/hashing/RingRangeImplTest.java:142-212 | the code's results on the six test cases it passes (overlaps on either side of a wrapping and a plain range) |
| RingRanges.NestedInWrappingRangeCounterexample | src/main/java/de/tum/i13/shared/hashing/RingRangeImpl.java:76-84 | 77..11 minus 90..3 on 0..100 gives the single range 4..89, which covers 50, a position outside 77..11 |
| RingRanges.NestedInWrappingRangeLeaksGap | src/main/java/de/tum/i13/shared/hashing/RingRangeImpl.java:77-84 | as written, for every wrapping range nested in a wrapping range past both its ends: the one returned piece covers every position between this range's end and start, none of which is in this range |
| RingRanges.OverlapBothEndsCounterexample | src/main/java/de/tum/i13/shared/hashing/RingRangeImpl.java:84-89 | 9..66 minus 44..21 gives 9..43 and 22..66, which cover 10 and 50, both inside the range removed |
| RingRanges.SharedStartCounterexample | src/main/java/de/tum/i13/shared/hashing/RingRangeImpl.java:85-89 | 9..66 minus 9..20 yields the piece 9..8, which wraps and covers every position of the ring |
| RingRanges.DisjointCounterexample | src/main/java/de/tum/i13/shared/hashing/RingRangeImpl.java:99-101 | 9..66 minus the disjoint 70..80 gives no range although position 9 is still in the difference |
| RingRanges.Difference | src/main/java/de/tum/i13/shared/hashing/RingRangeImpl.java:71-102 | the corrected difference: at most two valid ranges |
| RingRanges.DifferenceMembership | src/main/java/de/tum/i13/shared/hashing/RingRangeImpl.java:71-102 | a position lies in some range of the corrected difference iff it lies in this range and not in the other |
| RingRanges.DifferenceMatchesTests | src/test/java/de/tum/i13/shared/hashing/RingRangeImplTest.java:132-220 | the corrected difference gives every result the tests expect, including 77..89 and 4..11 for 77..11 minus 90..3, and 22..43 for 9..66 minus 44..21 |
| ChordRing.BetweenIsClockwiseInterval | src/main/java/de/tum/i13/server/kvchord/Chord.java:434-457 | an included bound equal to the key answers yes; otherwise the key must differ from both bounds and, with equal bounds meaning the whole ring, lie strictly closer clockwise to the lower bound than the upper bound is |
| ChordRing.OpenBoundsExcluded | src/main/java/de/tum/i13/server/kvchord/Chord.java:441-447 | with both bounds excluded, neither bound lies between, and with equal bounds every other key does |
| ChordRing.FingerKeysAsWritten | src/main/java/de/tum/i13/server/kvchord/Chord.java:408-416 | as written: tableSize keys, key i being (ownHash + 2^i) mod max |
| ChordRing.FingerKeysAsWrittenCounterexample | src/main/java/de/tum/i13/server/kvchord/Chord.java:413 | with max 255 and own hash 254 the first finger lands at 0, two steps away instead of one, and no finger can ever land on 255 |
| ChordRing.FingerKeys | src/main/java/de/tum/i13/server/kvchord/Chord.java:408-416 | the corrected keys: tableSize keys, each a position in 0..max |
| ChordRing.FingerKeyDistance | src/main/java/de/tum/i13/server/kvchord/Chord.java:411-414 | corrected finger i lies exactly 2^i steps clockwise from the node's own position |
| ChordRing.PutAll | src/main/java/de/tum/i13/server/kvchord/Chord.java:414-415 | putting one location under a list of keys keeps the table sorted |
| ChordRing.GetAfterPutAll | src/main/java/de/tum/i13/server/kvchord/Chord.java:414-415 | afterwards exactly the listed keys map to the location and every other key keeps its entry |
| ChordRing.InitFingers | src/main/java/de/tum/i13/server/kvchord/Chord.java:408-420 | the finger keys are the corrected keys, every one of them and the node's own hash map to the node, nothing else is in the table, and the cursor is 0 |
| ChordRing.AdvanceUpdateCursor | src/main/java/de/tum/i13/server/kvchord/Chord.java:422-432 | a cursor below the key count returns the finger at the cursor and moves from i to i + 1; a cursor at the key count restarts, returns the first finger and moves to 1; the finger comes with its table entry, and keys and table are unchanged |
| ChordRing.AdvanceIndex | src/main/java/de/tum/i13/server/kvchord/Chord.java:422-432 | after n advances from a fresh cursor the cursor stands at ((n - 1) mod count) + 1 |
| ChordRing.AdvanceCycles | src/main/java/de/tum/i13/server/kvchord/Chord.java:422-432 | the n-th advance from a fresh cursor repairs finger n mod count: the cursor cycles through every finger in order |
| ChordRing.LastPassing | src/main/java/de/tum/i13/server/kvchord/Chord.java:200-212 | the entry found, if any, passes the test |
| ChordRing.LastPassingIsLast | src/main/java/de/tum/i13/server/kvchord/Chord.java:200-212 | no later entry passes the test, and none at all passes when nothing is found |
| ChordRing.ClosestPrecedingFinger | src/main/java/de/tum/i13/server/kvchord/Chord.java:200-215 | the node itself when no finger lies strictly between the node and the key; otherwise the finger with the largest key that does |
| ChordRing.ClosestPrecedingFingerIsSelfOnlyWhenNoneQualifies | src/main/java/de/tum/i13/server/kvchord/Chord.java:200-215 | the node never qualifies, so the answer is the node itself iff no finger qualifies |
| ChordRing.Notify | src/main/java/de/tum/i13/server/kvchord/Chord.java:222-234 | the new predecessor is the peer or the old one, and always the peer when there was none |
| ChordRing.NotifyAdoptsCloserPeer | src/main/java/de/tum/i13/server/kvchord/Chord.java:222-234 | the peer is adopted iff there is no predecessor or the peer lies strictly between predecessor and node going clockwise |
| ChordRing.IsReplicationActive | src/main/java/de/tum/i13/server/kvchord/Chord.java:536-538 | off when no replicas are configured; otherwise on iff at least that many successors are known |
| ChordSuccessors.NewSuccessorList | src/main/java/de/tum/i13/server/kvchord/ChordSuccessorList.java:34-44 | a new list is empty and shares the given finger table |
| ChordSuccessors.GetFirst | src/main/java/de/tum/i13/server/kvchord/ChordSuccessorList.java:53-58 | the successor, or the null location for an empty list |
| ChordSuccessors.GetPrefix | src/main/java/de/tum/i13/server/kvchord/ChordSuccessorList.java:60-66 | fails with IllegalArgumentException iff n is negative; otherwise a prefix of the list of length min(n, size) |
| ChordSuccessors.Shift | src/main/java/de/tum/i13/server/kvchord/ChordSuccessorList.java:68-86 | an empty list is unchanged and gives the null location; otherwise the head is removed and returned, and the table loses the hashes of the removed node and of the new first successor while every other key keeps its node |
| ChordSuccessors.SetFirst | src/main/java/de/tum/i13/server/kvchord/ChordSuccessorList.java:88-110 | the new node is first; on an empty list it is the only one, the table is untouched and nothing is returned; otherwise the tail is kept, the old head is returned, its hash leaves the table and every other key keeps its node |
| ChordSuccessors.GetFirstAfterSetFirst | src/main/java/de/tum/i13/server/kvchord/ChordSuccessorList.java:88-110 | reading the successor after setting it gives the node just set, with the list's length kept or 1 |
| ChordSuccessors.ShiftAfterSetFirst | src/main/java/de/tum/i13/server/kvchord/ChordSuccessorList.java:68-110 | shifting after setting the successor returns the node just set and leaves the old tail |
| ChordSuccessors.RemoveFirst | src/main/java/de/tum/i13/server/kvchord/ChordSuccessorList.java:123 | a missing node leaves the list as it is; otherwise exactly its first occurrence is removed |
| ChordSuccessors.Refill | src/main/java/de/tum/i13/server/kvchord/ChordSuccessorList.java:138-145 | a prefix of the input of at most room nodes, without the node itself, stopped only by the room, the input's end or the node itself |
| ChordSuccessors.RefillIsUnique | src/main/java/de/tum/i13/server/kvchord/ChordSuccessorList.java:138-145 | any prefix that meets the loop's stopping rule is the refill |
| ChordSuccessors.RemoveHashes | src/main/java/de/tum/i13/server/kvchord/ChordSuccessorList.java:133-136 | the table keeps its order, loses exactly the hashes of the removed nodes, and every other key keeps its node |
| ChordSuccessors.PutHashesIfAbsent | src/main/java/de/tum/i13/server/kvchord/ChordSuccessorList.java:143-144 | the table keeps its order and gains exactly the hashes of the added nodes; a key already present keeps its node, and a new key maps to the first added node with that hash |
| ChordSuccessors.FirstWithHashIsFirst | src/main/java/de/tum/i13/server/kvchord/ChordSuccessorList.java:143-144 | the node a run of put-if-absent leaves under a new hash exists exactly when some added node has that hash, and it is the earliest such node |
| ChordSuccessors.Rewrite | src/main/java/de/tum/i13/server/kvchord/ChordSuccessorList.java:128-149 | the successor is kept and the tail is the refill; under each key the table holds its old node unless an old tail node had that hash, and otherwise the first new tail node with that hash, if any |
| ChordSuccessors.UpdateAsWritten | src/main/java/de/tum/i13/server/kvchord/ChordSuccessorList.java:112-155 | as written: empty input changes nothing; a capacity below 1 or an empty list throws IllegalArgumentException; otherwise the list is kept exactly when its tail equals the first capacity − 1 input nodes with the node itself removed once, and is rewritten by the refill otherwise |
| ChordSuccessors.UpdateShortcutKeepsStaleEntry | src/main/java/de/tum/i13/server/kvchord/ChordSuccessorList.java:118-127 | with capacity 4, list [h, a, b] and input [a, own, b], the shortcut keeps b although the rewrite would leave [h, a] |
| ChordSuccessors.Update | src/main/java/de/tum/i13/server/kvchord/ChordSuccessorList.java:112-155 | corrected: fails exactly for non-empty input with capacity below 1 or an empty list; otherwise the list is what the rewrite produces |
| ChordSuccessors.UpdateShape | src/main/java/de/tum/i13/server/kvchord/ChordSuccessorList.java:133-149 | after an update the successor is kept, at most tableSize nodes are held, the node itself is not in the tail, and the tail follows the input up to where the loop stopped |
| ChordSuccessors.UpdateFingerTable | src/main/java/de/tum/i13/server/kvchord/ChordSuccessorList.java:133-145 | an update that rewrites the list drops exactly the old tail's hashes from the table and adds the new tail's; surviving keys keep their node and each freed or new key maps to the first new tail node with its hash |
| ChordSuccessors.UpdateIdempotent | src/main/java/de/tum/i13/server/kvchord/ChordSuccessorList.java:112-155 | updating a second time with the same input changes nothing |
| NetworkLocations.MakeLocation | src/main/java/de/tum/i13/shared/net/NetworkLocationImpl.java:21-29 | succeeds exactly for a present address and a port in 0..65535, storing both unchanged; a missing address is the null-address error |
| NetworkLocations.SameLocationIsEquality | src/main/java/de/tum/i13/shared/net/NetworkLocationImpl.java:50-55 | two locations are equal exactly when their ports and addresses are |
| NetworkLocations.PackedString | src/main/java/de/tum/i13/shared/net/NetworkLocation.java:39-41 | the packed form begins with the address followed by a colon |
| NetworkLocations.Display | src/main/java/de/tum/i13/shared/net/NetworkLocationImpl.java:63-65 | the display form is the class name with the packed form in braces |
| NetworkLocations.ExtractLocation | src/main/java/de/tum/i13/shared/net/NetworkLocation.java:28-37 | a text that does not split into exactly two fields is an illegal argument; with two fields, a NumberFormatException exactly when the second does not parse as an int, and otherwise a location exactly when that int is a port in 0..65535, with the first field as address and the parsed int as port |
| NetworkLocations.LeadingZeroPort | src/main/java/de/tum/i13/shared/net/NetworkLocation.java:34-36 | "h:080" is read as host h, port 80, since the port text goes through Integer.parseInt |
| NetworkLocations.ExtractPackedString | src/main/java/de/tum/i13/shared/net/NetworkLocation.java:28-41 | packing a valid location whose address has no colon and extracting it again gives back the same location |
| NetworkLocations.NoColonIsRejected | src/main/java/de/tum/i13/shared/net/NetworkLocation.java:28-32 | a text without a colon is rejected as an illegal argument |
| NetworkLocations.ExtractIgnoresTrailingColon | src/main/java/de/tum/i13/shared/net/NetworkLocation.java:28-37 | one trailing colon after the packed form is ignored, because the split drops trailing empty fields |
| Hashing.Hash | src/main/java/de/tum/i13/shared/hashing/HashingAlgorithm.java:83-104 | every hash lies in 0..max of its algorithm |
| Hashing.HashLocation | src/main/java/de/tum/i13/shared/hashing/HashingAlgorithm.java:95-97 | a location hashes, through its address:port text, into 0..max |
| Hashing.DistinctLocationsHashDistinctStrings | src/main/java/de/tum/i13/shared/hashing/HashingAlgorithm.java:95-97 | distinct valid locations (addresses without colons) hash distinct texts, so a location collision is a string collision |
| Hashing.NatToHex | src/main/java/de/tum/i13/shared/hashing/HashingAlgorithm.java:27-29 | the hex form of a natural number is non-empty, lower-case, and without a leading zero unless the number is 0 |
| Hashing.HashToHex | src/main/java/de/tum/i13/shared/hashing/HashingAlgorithm.java:27-29 | the hex form is non-empty, all lower-case digits for a non-negative hash and signed with a minus for a negative one |
| Hashing.HashToHexWithPrefix | src/main/java/de/tum/i13/shared/hashing/HashingAlgorithm.java:37-39 | the prefixed form is "0x" followed by the plain hex form |
| Hashing.HexRoundTrip | src/main/java/de/tum/i13/shared/hashing/HashingAlgorithm.java:27-52 | every hash, printed in hex and converted back, is recovered |
| Hashing.HexWithPrefixRoundTrip | src/main/java/de/tum/i13/shared/hashing/HashingAlgorithm.java:37-52 | every hash, printed with the "0x" prefix and converted back, is recovered |
| Hashing.PadLeftZeros | src/main/java/de/tum/i13/shared/hashing/HashingAlgorithm.java:61-72 | a text at least as long as the length is returned unchanged; a shorter one is padded to exactly the length; the result ends with the input and has only zeros before it |
| Hashing.PadLeftZerosLoop | src/main/java/de/tum/i13/shared/hashing/HashingAlgorithm.java:61-72 | the builder loop produces exactly the padded text |
| Hashing.PaddedHexParsesBack | src/main/java/de/tum/i13/shared/hashing/HashingAlgorithm.java:47-72 | zero-padding the hex form of a hash to any length still converts back to the same hash |
| HashRings.ResponsibleEntry | src/main/java/de/tum/i13/shared/hashing/PrecedingResponsibilityHashRing.java:34-37 | there is a responsible position exactly when the ring is non-empty, and it is one of the ring's positions |
| HashRings.ResponsibleLocation | src/main/java/de/tum/i13/shared/hashing/PrecedingResponsibilityHashRing.java:30-38 | a key has a responsible location exactly when some location is on the ring |
| HashRings.ResponsibleIsNearestClockwise | src/main/java/de/tum/i13/shared/hashing/PrecedingResponsibilityHashRing.java:30-38 | the responsible position is the nearest position clockwise from the key's hash, and carries the location stored there |
| HashRings.HashAtPositionIsOwnedByIt | src/main/java/de/tum/i13/shared/hashing/PrecedingResponsibilityHashRing.java:30-38 | a key whose hash equals a server's position belongs to that server |
| HashRings.AddLocation | src/main/java/de/tum/i13/shared/hashing/PrecedingResponsibilityHashRing.java:40-53 | the location is stored at its hash and every other position is unchanged; a collision is reported exactly when the hash was already taken |
| HashRings.RemoveLocation | src/main/java/de/tum/i13/shared/hashing/PrecedingResponsibilityHashRing.java:55-61 | only the entry at the location's hash disappears; every other position keeps its location |
| HashRings.RemoveKeepsOtherResponsibilities | src/main/java/de/tum/i13/shared/hashing/PrecedingResponsibilityHashRing.java:30-61 | removing a server leaves every hash another server owned with that same server |
| Chunks.NewChunk | src/main/java/de/tum/i13/server/persistentstorage/btree/chunk/ChunkImpl.java:27-29 | a new chunk has 2t - 1 slots, all empty, and holds no pairs |
| Chunks.ChunkOf | src/main/java/de/tum/i13/server/persistentstorage/btree/chunk/ChunkImpl.java:57-61 | fails exactly when more pairs are given than a chunk has slots; otherwise the chunk has 2t - 1 slots and holds exactly the given pairs, in order, at its front |
| Chunks.CountIsElements | src/main/java/de/tum/i13/server/persistentstorage/btree/chunk/ChunkImpl.java:171-181 | the count of occupied slots of a packed chunk is the number of its pairs |
| Chunks.FindIndexOfFirstGreaterThen | src/main/java/de/tum/i13/server/persistentstorage/btree/chunk/ChunkImpl.java:70-77 | the index is at most the count; every pair before it has a key below the given key, and the pair at it (if any) does not |
| Chunks.FindIndexSplitsSortedKeys | src/main/java/de/tum/i13/server/persistentstorage/btree/chunk/ChunkImpl.java:70-77 | on sorted pairs, a pair's key is below the given key exactly when the pair sits before the returned index |
| Chunks.SetSlot | src/main/java/de/tum/i13/server/persistentstorage/btree/chunk/ChunkImpl.java:97-99 | the slot takes the pair, the previous content is returned and every other slot is unchanged |
| Chunks.RemoveSlot | src/main/java/de/tum/i13/server/persistentstorage/btree/chunk/ChunkImpl.java:108-112 | the slot is emptied, its previous content is returned and every other slot is unchanged |
| Chunks.SetUndoesRemove | src/main/java/de/tum/i13/server/persistentstorage/btree/chunk/ChunkImpl.java:97-112 | putting a removed pair back into its slot restores the chunk |
| Chunks.RemoveLastKeepsPacked | src/main/java/de/tum/i13/server/persistentstorage/btree/chunk/ChunkImpl.java:108-112 | removing the last pair of a packed chunk leaves it packed with that pair gone |
| Chunks.ShiftRightOne | src/main/java/de/tum/i13/server/persistentstorage/btree/chunk/ChunkImpl.java:119-126 | a start at or past the count changes nothing; otherwise the pairs from the start on move one slot right and the start slot becomes empty |
| Chunks.ShiftRightThenSetInserts | src/main/java/de/tum/i13/server/persistentstorage/btree/chunk/ChunkImpl.java:97-126 | shifting right at a position and filling the gap inserts the pair at that position of the packed pairs |
| Chunks.ShiftLeftOne | src/main/java/de/tum/i13/server/persistentstorage/btree/chunk/ChunkImpl.java:134-140 | the slots after the start move one place left over it and the last slot becomes empty |
| Chunks.ShiftLeftDeletes | src/main/java/de/tum/i13/server/persistentstorage/btree/chunk/ChunkImpl.java:134-140 | on a packed chunk, shifting left at a pair's position deletes exactly that pair and keeps the chunk packed |
| Chunks.ShiftLeftUndoesShiftRight | src/main/java/de/tum/i13/server/persistentstorage/btree/chunk/ChunkImpl.java:119-140 | shifting left undoes a shift right at the same position |
| Chunks.ShiftRightOneAfterFirstGreaterThan | src/main/java/de/tum/i13/server/persistentstorage/btree/chunk/ChunkImpl.java:149-164 | every pair above the key moves one slot right; the returned slot is the position of an equal key, else the slot just after the last pair not above the key |
| Chunks.InsertSlotSplitsKeys | src/main/java/de/tum/i13/server/persistentstorage/btree/chunk/ChunkImpl.java:149-164 | for an absent key on sorted pairs, the returned slot splits the keys below the key from those above it, and the shift is a right shift at that slot |
| Chunks.InsertSlotIsOrderedPosition | src/main/java/de/tum/i13/server/persistentstorage/btree/chunk/ChunkImpl.java:149-164 | filling the returned slot inserts the pair at its ordered position and the pairs stay sorted |
| BTreeNodes.SearchFindsInOrder | src/main/java/de/tum/i13/server/persistentStorage/btree/PersistentBTreeNode.java:93-125 | on a valid subtree with sorted contents, the search returns exactly the value the key has in the subtree's in-order pairs, and nothing when the key is absent |
| BTreeNodes.SearchAndInsert | src/main/java/de/tum/i13/server/persistentStorage/btree/PersistentBTreeNode.java:127-129 | the value returned is the one the search finds before the replacement, and every node keeps its number of pairs and children |
| BTreeNodes.SearchAndInsertReplaces | src/main/java/de/tum/i13/server/persistentStorage/btree/PersistentBTreeNode.java:93-129 | replacing in place keeps the subtree valid and changes only the value of the pair with that key, if the subtree holds one |
| BTreeNodes.SplitChild | src/main/java/de/tum/i13/server/persistentStorage/btree/PersistentBTreeNode.java:187-241 | the parent gains the child's middle pair at index i and a new child i + 1; both halves hold t - 1 pairs; the parent's other pairs and children keep their order, those after i moving up by one |
| BTreeNodes.SplitChildKeepsInOrder | src/main/java/de/tum/i13/server/persistentStorage/btree/PersistentBTreeNode.java:187-241 | splitting a full child leaves the subtree's in-order pairs unchanged |
| BTreeNodes.SplitChildKeepsValid | src/main/java/de/tum/i13/server/persistentStorage/btree/PersistentBTreeNode.java:187-241 | splitting a full child of a node that is not full keeps the subtree valid |
| BTreeNodes.LeafInsert | src/main/java/de/tum/i13/server/persistentStorage/btree/PersistentBTreeNode.java:141-153 | corrected leaf branch: the pair lands at its ordered position and the pairs stay sorted |
| BTreeNodes.LeafInsertAsWritten | src/main/java/de/tum/i13/server/persistentStorage/btree/PersistentBTreeNode.java:141-153 | as written: the new pair is written one slot past the slot the shift returns, and the write fails exactly when that is past the last slot |
| BTreeNodes.LeafInsertAsWrittenLosesPair | src/main/java/de/tum/i13/server/persistentStorage/btree/PersistentBTreeNode.java:146-149 | as written, inserting a key below the only pair of a leaf overwrites that pair and leaves slot 0 empty |
| BTreeNodes.LeafInsertBelowOnlyPair | src/main/java/de/tum/i13/server/persistentStorage/btree/PersistentBTreeNode.java:141-153 | corrected, the same insertion gives the new pair followed by the old one |
| BTreeNodes.InsertBracket | src/main/java/de/tum/i13/server/persistentStorage/btree/PersistentBTreeNode.java:159-163 | the child chosen by scanning down from the last pair lies between a separating pair below the key and one above it |
| BTreeNodes.PrepareDescent | src/main/java/de/tum/i13/server/persistentStorage/btree/PersistentBTreeNode.java:154-180 | the descent step keeps the subtree valid with the same in-order pairs and adds at most one pair; the chosen child is not full and lies between separating pairs below and above the key |
| BTreeNodes.SplitDescent | src/main/java/de/tum/i13/server/persistentStorage/btree/PersistentBTreeNode.java:166-179 | after splitting the full child, the half on the key's side of the new middle pair is chosen; it is not full and is bracketed around the key |
| BTreeNodes.InsertNonFull | src/main/java/de/tum/i13/server/persistentStorage/btree/PersistentBTreeNode.java:134-183 | inserting into a node that is not full keeps the subtree valid, adds at most one pair to the node, and its in-order pairs become the sorted insertion of the new pair |
| BTreeRemoval.RightmostPair | src/main/java/de/tum/i13/server/persistentStorage/btree/PersistentBTreeNode.java:364-373 | the predecessor found by following the last children down is the last pair of the subtree in order |
| BTreeRemoval.LeftmostPair | src/main/java/de/tum/i13/server/persistentStorage/btree/PersistentBTreeNode.java:375-385 | the successor found by following the first children down is the first pair of the subtree in order |
| BTreeRemoval.RemoveFromLeaf | src/main/java/de/tum/i13/server/persistentStorage/btree/PersistentBTreeNode.java:301-319 | removing pair idx from a leaf leaves exactly the pairs before and after it, in order |
| BTreeRemoval.BorrowFromPrev | src/main/java/de/tum/i13/server/persistentStorage/btree/PersistentBTreeNode.java:414-461 | borrowing from the previous sibling keeps the subtree valid with the same in-order pairs and the same number of separating pairs, and child idx gains one pair |
| BTreeRemoval.BorrowFromNext | src/main/java/de/tum/i13/server/persistentStorage/btree/PersistentBTreeNode.java:465-510 | borrowing from the next sibling keeps the subtree valid with the same in-order pairs and the same number of separating pairs, and child idx gains one pair |
| BTreeRemoval.Merge | src/main/java/de/tum/i13/server/persistentStorage/btree/PersistentBTreeNode.java:514-568 | merging keeps the subtree valid with the same in-order pairs; the parent loses one pair and the merged child holds 2t - 1 pairs: the left child's, the separating pair, then the right child's |
| BTreeRemoval.Fill | src/main/java/de/tum/i13/server/persistentStorage/btree/PersistentBTreeNode.java:388-410 | filling keeps the subtree valid with the same in-order pairs, loses at most one separating pair, and leaves the child the key was under (or, after merging the last child, its left neighbour) with at least t pairs |
| BTreeRemoval.FillRoutes | src/main/java/de/tum/i13/server/persistentStorage/btree/PersistentBTreeNode.java:388-410 | after the fill, that child still lies between separating pairs below and above the key |
| BTreeRemoval.RemoveFromNonLeaf | src/main/java/de/tum/i13/server/persistentStorage/btree/PersistentBTreeNode.java:322-361 | removing an inner node's pair keeps the subtree valid and the node loses at most one pair |
| BTreeRemoval.RemoveFromNonLeafDeletes | src/main/java/de/tum/i13/server/persistentStorage/btree/PersistentBTreeNode.java:322-361 | removing an inner node's pair, through its predecessor, its successor or a merge, deletes exactly that pair from the subtree's in-order pairs |
| BTreeRemoval.Remove | src/main/java/de/tum/i13/server/persistentStorage/btree/PersistentBTreeNode.java:256-298 | removal keeps the subtree valid and the node loses at most one pair |
| BTreeRemoval.RemoveDeletes | src/main/java/de/tum/i13/server/persistentStorage/btree/PersistentBTreeNode.java:256-298 | removal deletes exactly the pairs with the key from the subtree's in-order pairs, and changes nothing else |
| BTreeRemoval.DescendDeletes | src/main/java/de/tum/i13/server/persistentStorage/btree/PersistentBTreeNode.java:270-296 | a key that is not among an inner node's pairs is removed from the child it routes to, after that child is filled if it is poor |
| BTrees.Create | src/main/java/de/tum/i13/server/persistentstorage/btree/PersistentBTree.java:50-57 | succeeds exactly for a minimum degree of at least 2, with an empty, open, well-formed tree |
| BTrees.CreateWithRoot | src/main/java/de/tum/i13/server/persistentstorage/btree/PersistentBTree.java:71-79 | succeeds exactly for a minimum degree of at least 2, with an open tree holding the given root's pairs |
| BTrees.Search | src/main/java/de/tum/i13/server/persistentstorage/btree/PersistentBTree.java:136-156 | a closed tree refuses; otherwise the result is the value the key has in the tree's contents, nothing when absent or when the tree is empty |
| BTrees.SplitRoot | src/main/java/de/tum/i13/server/persistentstorage/btree/PersistentBTree.java:289-297 | the new root over the split full root is valid one level higher, holds one pair and two children of t - 1 pairs each, and keeps the contents |
| BTrees.InsertFull | src/main/java/de/tum/i13/server/persistentstorage/btree/PersistentBTree.java:289-310 | inserting under a full root gives a valid root one level higher, holding one pair, whose contents are the sorted insertion of the new pair |
| BTrees.Insert | src/main/java/de/tum/i13/server/persistentstorage/btree/PersistentBTree.java:168-217 | a closed tree refuses; otherwise the tree stays well-formed, the returned previous value is the key's value before, and the contents get the new value for a present key or the pair inserted in order for an absent one |
| BTrees.Remove | src/main/java/de/tum/i13/server/persistentstorage/btree/PersistentBTree.java:90-124 | a closed tree refuses; otherwise the tree stays well-formed, the result says whether the key was present, and the contents lose exactly the pairs with that key |
| BTrees.Close | src/main/java/de/tum/i13/server/persistentstorage/btree/PersistentBTree.java:233-238 | closing marks the tree closed and keeps its contents |
| BTrees.Reopen | src/main/java/de/tum/i13/server/persistentstorage/btree/PersistentBTree.java:243-249 | reopening a closed tree marks it open and keeps its contents; reopening a tree that is not closed fails with an illegal-monitor-state error, because the write lock it releases is not held |
| BTrees.SearchAfterInsert | src/main/java/de/tum/i13/server/persistentstorage/btree/PersistentBTree.java:136-217 | after an insert the key finds the new value and every other key what it found before |
| BTrees.SearchAfterRemove | src/main/java/de/tum/i13/server/persistentstorage/btree/PersistentBTree.java:90-156 | after a removal the key finds nothing and every other key what it found before |
| BTrees.RemoveUndoesInsert | src/main/java/de/tum/i13/server/persistentstorage/btree/PersistentBTree.java:90-217 | removing a key just inserted into a tree without it reports it found and gives back the same contents |
| BTrees.FullRootGrows | src/main/java/de/tum/i13/server/persistentstorage/btree/PersistentBTree.java:201-205 | inserting a new key under a full root makes the tree exactly one level higher |
| BTrees.ClosedRefuses | src/main/java/de/tum/i13/server/persistentstorage/btree/PersistentBTree.java:233-249 | on a closed tree search, insert and remove are all refused; reopening succeeds, a search then sees the old contents, and closing and reopening an open tree gives it back unchanged |
| BTreeStorages.TreeKey | src/main/java/de/tum/i13/server/persistentstorage/btree/BTreePersistentStorage.java:66 | the tree key of a client key is its hash printed in lower-case hexadecimal |
| BTreeStorages.Open | src/main/java/de/tum/i13/server/persistentstorage/btree/BTreePersistentStorage.java:40-53 | opening fails exactly for a minimum degree below 2; the tree holds the loaded root's pairs when loading succeeded and is empty when it failed |
| BTreeStorages.Get | src/main/java/de/tum/i13/server/persistentstorage/btree/BTreePersistentStorage.java:61-77 | fails exactly on a closed tree; a miss is GET_ERROR with the key, a hit is GET_SUCCESS with the stored original key and value |
| BTreeStorages.Put | src/main/java/de/tum/i13/server/persistentstorage/btree/BTreePersistentStorage.java:80-112 | fails exactly on a closed tree; a delete reports DELETE_SUCCESS exactly when the key was stored and DELETE_ERROR otherwise; a put reports PUT_UPDATE exactly when a different value was stored and PUT_SUCCESS otherwise |
| BTreeStorages.CloseStorage | src/main/java/de/tum/i13/server/persistentstorage/btree/BTreePersistentStorage.java:119-121 | closing keeps the contents and makes gets and puts fail |
| BTreeStorages.ReopenStorage | src/main/java/de/tum/i13/server/persistentstorage/btree/BTreePersistentStorage.java:126-128 | reopening a closed storage keeps the contents and accepts gets and puts again; reopening one that is not closed fails with the tree's illegal-monitor-state error |
| BTreeStorages.GetAfterPut | src/main/java/de/tum/i13/server/persistentstorage/btree/BTreePersistentStorage.java:61-112 | a put followed by a get of the same key finds that key and value |
| BTreeStorages.GetAfterDelete | src/main/java/de/tum/i13/server/persistentstorage/btree/BTreePersistentStorage.java:61-112 | a delete followed by a get of the same key misses |
| BTreeStorages.PutKeepsOtherKeys | src/main/java/de/tum/i13/server/persistentstorage/btree/BTreePersistentStorage.java:61-112 | a put or delete leaves a get of any key with a different hash unchanged |
| BTreeStorages.PutTwiceIsSuccess | src/main/java/de/tum/i13/server/persistentstorage/btree/BTreePersistentStorage.java:95-107 | putting a value that is already stored reports PUT_SUCCESS and changes nothing a get sees |
| LfuCaches.New | src/main/java/de/tum/i13/server/cache/LFUCache.java:55-61 | succeeds exactly for a positive capacity, with an empty cache whose bookkeeping holds |
| LfuCaches.Promote | src/main/java/de/tum/i13/server/cache/LFUCache.java:77-88 | a hit's move up keeps the bookkeeping, every key's value and the list's length |
| LfuCaches.PromoteCounts | src/main/java/de/tum/i13/server/cache/LFUCache.java:77 | a move up counts the moved key once more and leaves every other count alone |
| LfuCaches.GetAsWritten | src/main/java/de/tum/i13/server/cache/LFUCache.java:64-93 | as written: a miss gives GET_ERROR and changes nothing; a hit gives GET_SUCCESS with the cached value, counts one more read of that key only, and keeps the bookkeeping and all values |
| LfuCaches.GetAsWrittenBreaksOrder | src/main/java/de/tum/i13/server/cache/LFUCache.java:79-89 | as written, reading the last of three equally read keys moves it one place only, behind a key read less often, so the list is no longer in descending count order |
| LfuCaches.Get | src/main/java/de/tum/i13/server/cache/LFUCache.java:64-93 | corrected: a miss gives GET_ERROR and changes nothing; a hit gives GET_SUCCESS with the cached value and keeps the bookkeeping and all values |
| LfuCaches.GetCounts | src/main/java/de/tum/i13/server/cache/LFUCache.java:77 | the corrected get counts one more read of the key it finds and leaves every other count alone |
| LfuCaches.GetKeepsDescending | src/main/java/de/tum/i13/server/cache/LFUCache.java:45-49 | the corrected get keeps the list in descending count order |
| LfuCaches.Put | src/main/java/de/tum/i13/server/cache/LFUCache.java:96-119 | a missing value is rejected; a cached key gets the new value and PUT_UPDATE, a new key is stored with PUT_SUCCESS; only the last entry of a full cache is evicted, and every other key keeps its value |
| LfuCaches.PutKeepsDescending | src/main/java/de/tum/i13/server/cache/LFUCache.java:106-116 | a put keeps the list in descending count order, a new key entering last with count 0 |
| LfuCaches.GetAfterPut | src/main/java/de/tum/i13/server/cache/LFUCache.java:64-119 | a get right after a put finds the value put, and the cache never grows past its capacity |
| LfuCaches.EvictsLeastFrequent | src/main/java/de/tum/i13/server/cache/LFUCache.java:112-115 | in a descending list, the entry a full cache evicts is one of those read least often |
| LfuCaches.Invalidate | src/main/java/de/tum/i13/server/cache/CachedPersistentStorage.java:121 | dropping a key from the cache removes exactly that key and keeps every other key's value and count |
| LfuCaches.InvalidateKeepsDescending | src/main/java/de/tum/i13/server/cache/CachedPersistentStorage.java:121 | dropping a key keeps the list in descending count order |
| CachedStorages.Open | src/main/java/de/tum/i13/server/cache/CachedPersistentStorage.java:32-44 | succeeds exactly for a positive cache size, with an empty cache of that size; anything else is an illegal argument |
| CachedStorages.FinalizePut | src/main/java/de/tum/i13/server/cache/CachedPersistentStorage.java:72-103 | a status other than PUT_SUCCESS, PUT_UPDATE or PUT_ERROR throws; PUT_ERROR is passed on with the cache untouched; a success puts the value into the cache and passes the storage's status on |
| CachedStorages.FinalizeDeleteAsWritten | src/main/java/de/tum/i13/server/cache/CachedPersistentStorage.java:108-133 | as written: an unexpected status throws, DELETE_ERROR is passed on, and DELETE_SUCCESS always fails, because the cache rejects the missing value |
| CachedStorages.DeleteAsWrittenFails | src/main/java/de/tum/i13/server/cache/CachedPersistentStorage.java:108-133 | as written, deleting a key the storage holds fails after the storage has already deleted it |
| CachedStorages.FinalizeDelete | src/main/java/de/tum/i13/server/cache/CachedPersistentStorage.java:108-133 | corrected: DELETE_SUCCESS drops exactly that key from the cache and is passed on; the other outcomes are as written |
| CachedStorages.Put | src/main/java/de/tum/i13/server/cache/CachedPersistentStorage.java:47-67 | a storage exception becomes a put exception; otherwise the delete or put path decides, and the cache's bookkeeping and size are kept |
| CachedStorages.UpdateCache | src/main/java/de/tum/i13/server/cache/CachedPersistentStorage.java:196-213 | a missing storage value is rejected; otherwise the value is cached and returned as GET_SUCCESS, and no other key changes |
| CachedStorages.HandleMiss | src/main/java/de/tum/i13/server/cache/CachedPersistentStorage.java:161-191 | a storage exception or an unexpected status is a get exception; GET_ERROR is passed on; GET_SUCCESS fills the cache |
| CachedStorages.Get | src/main/java/de/tum/i13/server/cache/CachedPersistentStorage.java:136-156 | a cache hit answers with the cached value and keeps every value; a miss goes to the storage |
| CachedStorages.HitIgnoresStorage | src/main/java/de/tum/i13/server/cache/CachedPersistentStorage.java:140-144 | a cache hit gives the same answer whatever the storage would reply, a throw included |
| CachedStorages.GetMatchesStore | src/main/java/de/tum/i13/server/cache/CachedPersistentStorage.java:136-191 | over a storage the cache agrees with, a get answers exactly what the storage would, and the cache still agrees with it |
| CachedStorages.PutMatchesStore | src/main/java/de/tum/i13/server/cache/CachedPersistentStorage.java:47-133 | over a storage the cache agrees with, a corrected put or delete answers what the storage answered, and the cache still agrees with the updated storage |
| CachedStorages.PutAsWritten | src/main/java/de/tum/i13/server/cache/CachedPersistentStorage.java:47-67 | as written: a storage exception becomes a put exception; otherwise the reply's status goes through the delete path as written or the put path |
| StorageCommandProcessors.PutWithoutChecks | src/main/java/de/tum/i13/server/cmdproc/StorageCommandProcessor.java:102-122 | the storage is always asked; a storage exception becomes DELETE_ERROR for a delete and PUT_ERROR for a put, otherwise the storage's reply is returned; replication happens exactly when the storage replied, it is not avoided, and it is forced or replication is active and the write succeeded |
| StorageCommandProcessors.PutChecked | src/main/java/de/tum/i13/server/cmdproc/StorageCommandProcessor.java:84-100 | a failed responsibility check answers ERROR, a server not responsible answers SERVER_NOT_RESPONSIBLE, a write-locked server SERVER_WRITE_LOCK; the storage is asked exactly when the server is responsible and can write |
| StorageCommandProcessors.GetChecked | src/main/java/de/tum/i13/server/cmdproc/StorageCommandProcessor.java:52-69 | a read never replicates; a failed responsibility check answers ERROR, a server not responsible SERVER_NOT_RESPONSIBLE, both without asking the storage; otherwise the storage's reply, or GET_ERROR with the key when it throws |
| StorageCommandProcessors.Process | src/main/java/de/tum/i13/server/cmdproc/StorageCommandProcessor.java:34-122 | exactly the six request statuses are answered; PUT and DELETE reach the storage iff the server is write-responsible and writable, otherwise answering ERROR, SERVER_NOT_RESPONSIBLE or SERVER_WRITE_LOCK, and replicate iff replication is active and the storage reported a successful write; GET never replicates and reaches the storage iff read-responsible; PUT_SERVER, PUT_SERVER_OWNER and DELETE_SERVER always reach the storage and only an answered PUT_SERVER_OWNER replicates; a storage reply is passed back, and a throwing storage gives GET_ERROR, DELETE_ERROR for a delete or missing value, or PUT_ERROR |
| StorageCommandProcessors.WriteLockBlocksClientWrites | src/main/java/de/tum/i13/server/cmdproc/StorageCommandProcessor.java:84-100 | a write-locked server leaves the storage untouched and replicates nothing, answering an error, not responsible, or write lock |
| StorageCommandProcessors.ClientWriteReplicatesOnlySuccess | src/main/java/de/tum/i13/server/cmdproc/StorageCommandProcessor.java:84-122 | a client's write replicates exactly when the storage was asked, replication is active and the storage reported a successful write |
| StorageCommandProcessors.CheckedMatchesUnchecked | src/main/java/de/tum/i13/server/cmdproc/StorageCommandProcessor.java:94-96 | a responsible, writable server answers a client write exactly as the unchecked path with no forcing and no avoiding |
| StorageCommandProcessors.ServerWritesAlwaysReachStorage | src/main/java/de/tum/i13/server/cmdproc/StorageCommandProcessor.java:37-39 | server-to-server writes reach the storage in every server state, and only an owner's put that the storage answered replicates |
| ServerStates.Init | src/main/java/de/tum/i13/server/state/AbstractServerState.java:26-28 | a new server is in the given start state with nothing queued for deletion |
| ServerStates.Stop | src/main/java/de/tum/i13/server/state/AbstractServerState.java:59-62 | after stop the server is stopped, neither active nor shut down, still accepts writes, and keeps its delete queue |
| ServerStates.WriteLockServer | src/main/java/de/tum/i13/server/state/AbstractServerState.java:64-67 | after a write lock the server refuses writes and is neither active, stopped nor shut down; the delete queue is kept |
| ServerStates.ShutdownServer | src/main/java/de/tum/i13/server/state/AbstractServerState.java:69-72 | after shutdown the server is shutting down, neither active nor stopped, still accepts writes, and keeps its delete queue |
| ServerStates.Start | src/main/java/de/tum/i13/server/state/AbstractServerState.java:74-77 | after start the server is active, neither stopped nor shut down, accepts writes again, and keeps its delete queue |
| ServerStates.ExactlyOneHolds | src/main/java/de/tum/i13/server/state/AbstractServerState.java:39-57 | stopped, shut down and active exclude one another, and a server refuses writes exactly when it is none of the three |
| ServerStates.LastControlWins | src/main/java/de/tum/i13/server/state/AbstractServerState.java:59-77 | the last control operation decides the state, whatever came before |
| ServerStates.ExecuteStoredDeletes | src/main/java/de/tum/i13/server/state/AbstractServerState.java:84-94 | a key leaves the storage exactly when one of its queued deletes does not throw, no other key or value changes, the state is kept and the queue is emptied |
| PeerAuthentication.Authenticate | src/main/java/de/tum/i13/server/kv/PeerAuthenticator.java:74-89 | a status is unclassified exactly when it is one of the two later replication statuses, and reveals a client exactly when it is GET, PUT, KEYRANGE or DELETE |
| PeerAuthentication.AuthenticateControlPeers | src/main/java/de/tum/i13/server/kv/PeerAuthenticator.java:85-87 | exactly the configuration service's control messages reveal the service, and exactly ERROR and the state-string response reveal any peer |
| PeerAuthentication.GreetAndBypassAreComplementary | src/main/java/de/tum/i13/server/kv/PeerAuthenticator.java:16-34 | only a client needs a greet, and a peer may bypass a stopped server exactly when it needs no greet |
| PeerAuthentication.GreetIffClientRequest | src/main/java/de/tum/i13/server/kv/PeerAuthenticator.java:74-89 | every classified status has a peer type; it is greeted exactly for a client request and may bypass a stopped server exactly otherwise |
| WrappingStorages.Latin1Byte | src/main/java/de/tum/i13/shared/Constants.java:12 | a character below 256 becomes its own byte and any other becomes '?' |
| WrappingStorages.Latin1 | src/main/java/de/tum/i13/shared/persistentstorage/WrappingPersistentStorage.java:92-94 | the encoding has one byte per character, each that character's byte |
| WrappingStorages.ByteLengthIsLength | src/main/java/de/tum/i13/shared/persistentstorage/WrappingPersistentStorage.java:92-94 | the byte length the size checks measure is the number of characters |
| WrappingStorages.New | src/main/java/de/tum/i13/shared/persistentstorage/WrappingPersistentStorage.java:40-53 | a storage built without a mode uses the client mode, otherwise the given one |
| WrappingStorages.SetMessageMode | src/main/java/de/tum/i13/shared/persistentstorage/WrappingPersistentStorage.java:175-177 | the storage takes the given mode |
| WrappingStorages.GetRequest | src/main/java/de/tum/i13/shared/persistentstorage/WrappingPersistentStorage.java:56-64 | a key of 20 bytes or more is a get exception; any shorter key is sent as a GET of that key |
| WrappingStorages.PutRequest | src/main/java/de/tum/i13/shared/persistentstorage/WrappingPersistentStorage.java:73-108 | the request is sent exactly when the key is under 20 bytes and a value is under 120 KiB; it carries the key and value, with the put or delete status of the storage's mode; anything else is a put exception |
| WrappingStorages.GetRemote | src/main/java/de/tum/i13/shared/persistentstorage/WrappingPersistentStorage.java:56-70 | a get succeeds exactly when the request is sent and the reply arrives, and returns that reply |
| WrappingStorages.PutRemote | src/main/java/de/tum/i13/shared/persistentstorage/WrappingPersistentStorage.java:73-116 | a put succeeds exactly when the request is sent and the reply arrives, and returns that reply; a failure is a put exception |
| WrappingStorages.GetRange | src/main/java/de/tum/i13/shared/persistentstorage/WrappingPersistentStorage.java:155-157 | a remote storage returns no pairs for any range |
| WrappingStorages.RequestsAreHandled | src/main/java/de/tum/i13/shared/persistentstorage/WrappingPersistentStorage.java:159-173 | every request a wrapping storage sends is one the command processor handles: a client's takes the checked write path, a server's the unchecked path that avoids replication, and an owner's put the unchecked path that forces it |
| WrappingStorages.OwnerDeleteDoesNotReplicate | src/main/java/de/tum/i13/shared/persistentstorage/WrappingPersistentStorage.java:167-173 | an owner's delete is sent as DELETE_SERVER, so the receiving server does not replicate it |
| ClientStatistics.Wrap32 | src/main/java/de/tum/i13/simulator/events/ClientStats.java:13-18 | the wrapped value is a Java int, equal to the input when that is already in range and congruent to it modulo 2^32 |
| ClientStatistics.Reset | src/main/java/de/tum/i13/simulator/events/ClientStats.java:44-54 | after a reset every counter is zero |
| ClientStatistics.Record | src/main/java/de/tum/i13/simulator/events/ClientStats.java:26-42 | recording keeps every counter a Java int; without overflow the operation's count goes up by one and its fail count by one exactly when it failed, and nothing else changes |
| ClientStatistics.Add | src/main/java/de/tum/i13/simulator/events/ClientStats.java:65-75 | each counter of the sum is the wrapped sum of the two counters |
| ClientStatistics.TotalSuccIsSuccesses | src/main/java/de/tum/i13/simulator/events/ClientStats.java:89 | the CSV's totalSucc, evaluated step by step in int arithmetic, is the number of successful operations wrapped once to 32 bits |
| ClientStatistics.TotalSuccExact | src/main/java/de/tum/i13/simulator/events/ClientStats.java:89 | while the successes fit in an int and no fail count exceeds its count, totalSucc is exactly the number of successful operations and never negative |
| ClientStatistics.RecordKeepsFailBounded | src/main/java/de/tum/i13/simulator/events/ClientStats.java:26-42 | recording an operation whose count does not overflow keeps every fail count within its count |
| ClientStatistics.AddKeepsFailBounded | src/main/java/de/tum/i13/simulator/events/ClientStats.java:65-75 | adding two counter sets without overflow keeps every fail count within its count and adds the successes |
| ClientStatistics.RecordOverflowWraps | src/main/java/de/tum/i13/simulator/events/ClientStats.java:26-30 | a put count at Integer.MAX_VALUE wraps to Integer.MIN_VALUE, below its own fail count |
| Plotting.Truncate | misc/plotting.py:24 | the table is cut to its first 1239 rows, or kept whole when shorter |
| Plotting.MovingAverage | misc/plotting.py:25 | the running-sum computation yields, row by row, the reference ten-row mean: undefined before the tenth row, then the mean of the last ten totals |
| Plotting.WindowStep | misc/plotting.py:25 | one step of the running sum gives the mean at that row and the sum of the next window |
| Plotting.Failures | misc/plotting.py:37 | the failures of each row are its failed gets, puts and deletes added up |
| Plotting.MarkersExactly | misc/plotting.py:26-28 | a time step is a marker of an event exactly when some row with that time step has that event |
| Plotting.MarkersCount | misc/plotting.py:26-28 | there are as many markers as rows with that event |
| Plotting.VLines | misc/plotting.py:11-16 | one vertical line per time step, in order, and only the first carries the legend label |
| Plotting.Prepare | misc/plotting.py:23-41 | everything plotted comes from the truncated table: time steps, the moving average of totalSucc, the failure sums, and the three event markers |

## Left out

- Sockets, message framing, the ECS and Chord messaging threads, and the client libraries with their retries are left out. They are I/O. The wrapping storage takes the remote reply as a parameter.
- Disk persistence of B-tree nodes and chunks, the transaction handler and change listeners are left out. Chunk storage is an in-memory field of the node.
- Locks, `synchronized` blocks, threads and logging are left out. Every operation is modelled as one atomic step.
- The listeners Chord and the successor list notify are left out. They only observe the state.
- MD5 and the other digest algorithms are left out. The hash is an uninterpreted function from strings to 0..max; only the fact that it stays in range is assumed of it, as a requirement.
- The LRU and FIFO cache strategies are left out, because only the LFU cache is modelled. The cached storage is stated over that cache.
- `replicateOperation`'s per-replica threads are left out. The command processor reports whether it would replicate, not the messages it sends.
- The timing fields of `ClientStats` are left out. They are floating-point durations and do not take part in the counters' arithmetic.
- The matplotlib drawing calls and CSV reading in `misc/plotting.py` are left out. The model produces the series and line positions that would be drawn.
- BTreeStorages.Open: a root loaded from disk is trusted, so the tree invariant is promised only for a freshly created tree.
- BTrees.Reopen: only a closed flag is kept, not the hold count of the reentrant write lock; after two closes the source's first reopen marks the tree open while the lock stays held and its second reopen succeeds, whereas the model's second reopen reports the illegal-monitor-state error. A reopen from a thread other than the one that closed is concurrency and is not modelled.
- BTreeStorages.ReopenStorage: inherits the lock hold-count simplification of BTrees.Reopen.
- Text.Less: orders texts by code point, where Java's compareTo orders UTF-16 code units; the two differ only between a supplementary character and U+E000..U+FFFF, and the B-tree storage keys its tree by the ASCII hexadecimal form of a key's hash, so no key it stores is ordered differently; a B-tree used directly with such texts would order them as this model does, not as the source.
- Hashing.ParseHex: accepts only ASCII hexadecimal digits; the JDK's BigInteger parser also accepts fullwidth letters and the decimal digits of other scripts, which are rejected here.
- Chunks.ShiftRightOne: requires a free last slot. The source throws `IndexOutOfBoundsException` on a full chunk, and no caller shifts a full one.
- ClientStatistics.RecordKeepsFailBounded: requires that the counters do not overflow 32 bits. ClientStatistics.RecordOverflowWraps shows what a wrap does to the bound.
- ClientStatistics.AddKeepsFailBounded: requires that the sums do not overflow 32 bits, for the same reason.
- PeerAuthentication.Authenticate: answers `None` for PUT_SERVER_OWNER and DELETE_SERVER, because the authenticator has no case for them.
- Chunks.ShiftRightOneAfterFirstGreaterThan: requires a free last slot. The source throws `IndexOutOfBoundsException` through `shiftRightOne` on a full chunk, and no caller inserts into a full one.
- NetworkLocations.ExtractLocation: the port is parsed with the ASCII digits 0-9 only. `Integer.parseInt` also accepts the decimal digits of other Unicode scripts, such as Arabic-Indic digits, because it goes through `Character.digit`. The model rejects such a port with NumberFormatException, since the Unicode digit tables are not modelled.
- LfuCaches.Get: the access count is an unbounded integer. Java's `int` count wraps to a negative value after 2^31 - 1 reads of one key, which would reorder the list; the model assumes no key is read that often.
- LfuCaches.GetAsWritten: the same unbounded access count as LfuCaches.Get, for the same reason.
- LfuCaches.Put: a new key enters with count 0 behind every other key. That keeps the order only while no count has wrapped negative, which, as for LfuCaches.Get, the unbounded counts never do.
- Plotting.MovingAverage: the mean is exact arithmetic over `real`. pandas computes `rolling(10).mean()` in rounded float64, so the plotted values can differ from the model's in the last bits.
- LfuCaches.Invalidate has no counterpart in the source. It is the cache removal that the corrected delete path of CachedStorages.FinalizeDelete needs.

## Findings

| source | as written | input that shows it | evidently intended | confidence | as-written member | corrected member |
|---|---|---|---|---|---|---|
| src/main/java/de/tum/i13/shared/hashing/RingRangeImpl.java:71-102 | when both ends of the other range lie inside this range, the result depends only on whether this range wraps, not on whether the other range wraps | 77..11 minus 90..3 on the ring 0..100 gives 4..89, which covers 50 although 50 is not in 77..11 (the source's test expects 77..89 and 4..11) | the positions of this range that are not in the other range | not executed | RingRanges.NestedInWrappingRangeCounterexample | RingRanges.DifferenceMembership |
| src/main/java/de/tum/i13/shared/hashing/RingRangeImpl.java:84-89 | when both ends of the other range lie inside a range that does not wrap, the code cuts the pieces before the other's start and after its end, even when the other range wraps and so covers everything outside those two pieces | 9..66 minus 44..21 on the ring 0..100 gives 9..43 and 22..66, which cover 10 and 50, both inside 44..21 (the source's test expects 22..43) | the positions of this range that are not in the other range | not executed | RingRanges.OverlapBothEndsCounterexample | RingRanges.DifferenceMembership |
| src/main/java/de/tum/i13/shared/hashing/RingRangeImpl.java:85-89 | the piece before the other range's start is built even when both ranges start at the same position | 9..66 minus 9..20 on the ring 0..100 gives the pieces 9..8 and 21..66, and 9..8 wraps and so covers the whole ring | no piece before the start when the starts coincide, leaving 21..66 | not executed | RingRanges.SharedStartCounterexample | RingRanges.DifferenceMembership |
| src/main/java/de/tum/i13/shared/hashing/RingRangeImpl.java:99-101 | when neither end of the other range lies inside this range, the code returns no range | 9..66 minus 70..80 on the ring 0..100 gives nothing, although 9 is in 9..66 and not in 70..80 | this range itself, when the other range does not cover it | not executed | RingRanges.DisjointCounterexample | RingRanges.DifferenceMembership |
| src/main/java/de/tum/i13/server/kvchord/Chord.java:408-420 | finger keys are own hash plus 2^i taken modulo max | own hash 254 on the ring 0..255: the first finger is 0, two steps away instead of one, and no finger can ever be 255 | own hash plus 2^i taken modulo max + 1, the ring's size | not executed | ChordRing.FingerKeysAsWrittenCounterexample | ChordRing.FingerKeyDistance |
| src/main/java/de/tum/i13/server/kvchord/ChordSuccessorList.java:112-124 | the update is skipped when the current tail equals the input's prefix with the node itself removed | capacity 4, list [h, a, b] and input [a, own, b]: the list stays [h, a, b], but the refill stops at own and gives [h, a] | skip the update only when the rewrite would leave the list unchanged | not executed | ChordSuccessors.UpdateShortcutKeepsStaleEntry | ChordSuccessors.UpdateIdempotent |
| src/main/java/de/tum/i13/server/cache/LFUCache.java:79-89 | a get swaps the entry with its left neighbour at most once | three keys read twice each, then "c" read: the list becomes a:2, c:3, b:2, which is not in descending frequency order | move the entry left past every entry with a lower frequency | not executed | LfuCaches.GetAsWrittenBreaksOrder | LfuCaches.GetKeepsDescending |
| src/main/java/de/tum/i13/server/cache/CachedPersistentStorage.java:108-133 | a successful delete calls `cache.put(key, null)`, which the cache rejects for a null value | any key held by the storage and deleted through the cached storage | a successful delete drops the key from the cache | not executed | CachedStorages.DeleteAsWrittenFails | CachedStorages.PutMatchesStore |
| src/main/java/de/tum/i13/server/persistentStorage/btree/PersistentBTreeNode.java:142-150 | a leaf writes the new pair at the returned insert slot plus one | a leaf holding only x, with t at least 2, and a key below x: x is lost and slot 0 is left empty | write the pair at the insert slot itself | not executed | BTreeNodes.LeafInsertAsWrittenLosesPair | BTreeNodes.LeafInsertBelowOnlyPair |

# SunPush utility layer: a Dafny model

SunPush is a push-message server; what it computes sits in its utility layer. This project models that layer's
data structures and codecs and proves what they promise.

- **Intrusive lists in flat memory** (`WordMemory`, `ListRuns`, `NodePayload`, `IntrusiveList`). `nList` casts the
  addresses of its `head` and `tail` words to nodes, so its two sentinels overlap and share one null word. Memory is one
  array of words; the overlap is modelled as it is. Any number of lists and nodes live in the same memory, and the words
  are proved to behave as disjoint sequences.
- **Hash table** (`HashTable`): buckets are such lists, side by side in the same memory, searched from the head by name
  (sptrunk/Common/Utility/nstrlist.h:81-94).
- **Serializer** (`Wire`, `WireLaws`, `ByteBuffer`): wire types nest freely (integers, bool, strings, vectors, lists,
  maps). A map is a sequence of entries sorted by the order `std::map` uses, which is proved to be a strict total order.
- **Pooled list** (`BandPool`, `MemoryPool`, `PoolRuns`, `ListOutcomes`, `NodeChain`, `PooledList`, `PooledListRuns`):
  `CList` over `CMemoryPoolFactory` (`Initialize`, `Alloc` and `Free` at
  sptrunk/Common/Utility/MemoryPoolFactory.h:28-44, 56-78 and 79-99) over chained `CMemTypeBand`s.
- **Scrambler** (`Scrambler`, `ScramblerLaws`): `MessageEncrypt`, its key schedule, its XOR chain in full and in reduced
  form, and the streams of two parties.
- **String replacement** (`Replace`): `ReplaceAllDistinct`.

The classes (`Memory`, `Table`, `ByteBuffer`, `TypeBand`, `MemoryPoolFactory`, `CList`, `MessageEncrypt`,
`MutableString`) update fields and arrays where the C++ does; each method is tied to a function of the old state, and
the theorems are about those functions.

Where the code differs from what one would expect of it, the model follows the code:

- `ASSERT` in `ByteBuffer::append` only reports and goes on (sptrunk/Common/Utility/CheckAndAssert_t.h:53), so the model
  has no size limit there and the results hold for every size. The `assert`s of the lists and the bound of `put` are
  preconditions, or, in `ListRuns`, explicit failures.
- A string with a NUL inside, or a container of more than 1024 entries, is written in full but not read back;
  `Wire.RoundTripExactlyWhenSendable` gives the exact condition.
- `hash` overflows its `int` on some strings of every length from 4104 on and on none shorter. A sum that wraps to a
  negative number can give a negative index; `HashTable.InTableExactly` gives the exact condition.
- `CList::m_nCount` is a `short`; it is the length exactly up to 32767 elements, and wraps beyond.
- `CList::DeleteAt` between the ends removes the element after the one asked for, and dereferences null at the index
  before the tail; `ListOutcomes.DeleteAtMeetsPurposeExactly` says when it does what it is for.
- `CList::InsertpAfter` behind any element but the head and the tail leaves two wrong `pPrev` links, after which backward
  iteration never ends; behind a head that is not the tail it dereferences null.

Platform: little endian, two's complement, signed `char`, 8-bit bytes, 32-bit `int` and `DWORD`, as in the Win32 builds.

## Model

| member | source | states |
|---|---|---|
| `WordMemory.PlacesApart` | sptrunk/Common/Utility/nlist.h:39-44 | Although the two sentinels overlap, no `succ` word or `pred` word on any list's path is shared with another place of any list |
| `WordMemory.LinkKeepsInv` | sptrunk/Common/Utility/nnode.h:114-142 | Linking a free node between neighbours inserts it into that list's sequence and keeps every list and every free node well formed |
| `WordMemory.UnlinkKeepsInv` | sptrunk/Common/Utility/nnode.h:147-158 | Removing a member removes it from its sequence, leaves it with null links, and keeps everything else well formed |
| `WordMemory.UnlinkUndoesLink` | sptrunk/Common/Utility/nnode.h:114-158 | Inserting a free node anywhere, next to a sentinel or not, and then removing it restores the memory word for word |
| `WordMemory.LinkUndoesUnlink` | sptrunk/Common/Utility/nnode.h:131-158 | Removing a member and inserting it again after its saved predecessor restores the memory word for word |
| `ListRuns.SuccWordMeans` | sptrunk/Common/Utility/nnode.h:135 | The assertion `pred->succ` passes exactly on head sentinels and members |
| `ListRuns.PredWordMeans` | sptrunk/Common/Utility/nnode.h:118 | The assertion `succ->pred` passes exactly on members and tail sentinels |
| `ListRuns.IsLinkedMeans` | sptrunk/Common/Utility/nnode.h:188-198 | A node's `succ` is nonzero exactly while it is a member of some list |
| `ListRuns.WalksSpellTheList` | sptrunk/Common/Utility/nlist.h:73-101 | The `succ` walk from `head` spells the sequence, the `pred` walk from `tailpred` its exact reverse, and both stop by themselves |
| `ListRuns.MemoryDeterminesLists` | sptrunk/Common/Utility/nlist.h:30-32 | The words alone determine the contents of every list |
| `ListRuns.StepAgrees` | sptrunk/Common/Utility/nlist.h:107-165 | Each operation on words and on sequences gives the same result, fails its assertion in the same cases, and keeps the invariant |
| `ListRuns.RunAgrees` | sptrunk/Common/Utility/nlist.h:39-165 | The same over every run on any number of lists and nodes, including runs that construct new ones |
| `ListRuns.DrainReturnsAll` | sptrunk/Common/Utility/nlist.h:51-54 | Draining with RemHead returns the members in order and reaches the state the destructor asserts |
| `ListRuns.InsertLeavesOthers` | sptrunk/Common/Utility/nnode.h:114-142 | Insertion into one list changes no word of another list or its members |
| `ListRuns.RemoveLeavesOthers` | sptrunk/Common/Utility/nnode.h:147-158 | Removal from one list changes no word of another list or its members |
| `NodePayload.StepKeepsPtrs` | sptrunk/Common/Utility/nnode.h:114-185 | One operation of any kind: the user data of a node that exists changes only by SetPtr on that node |
| `NodePayload.NewNodeHoldsPtr` | sptrunk/Common/Utility/nnode.h:54-61 | A node holds the user data it was constructed with |
| `NodePayload.RunKeepsPtrs` | sptrunk/Common/Utility/nnode.h:54-185 | Over every run: the user data of every node there was or was constructed is what its construction or SetPtr last gave it, and otherwise as before |
| `NodePayload.RunLeavesRest` | sptrunk/Common/Utility/nlist.h:39-165 | Over every run, no word changes that is not part of a list or a node |
| `IntrusiveList.Memory.NewNode` | sptrunk/Common/Utility/nnode.h:54-61 | In place: a node with null links and the given user data, disjoint from all there was and in no list; all other user data is kept |
| `IntrusiveList.Memory.NewList` | sptrunk/Common/Utility/nlist.h:39-44 | In place: the overlaid sentinels of an empty list, disjoint from all there was; all user data is kept |
| `IntrusiveList.Memory.InsertBefore` | sptrunk/Common/Utility/nnode.h:114-125 | In place: one step of `ListRuns`, and the place of the new node in its sequence; all user data is kept |
| `IntrusiveList.Memory.InsertAfter` | sptrunk/Common/Utility/nnode.h:131-142 | In place: one step of `ListRuns`, and the place of the new node in its sequence; all user data is kept |
| `IntrusiveList.Memory.Remove` | sptrunk/Common/Utility/nnode.h:147-158 | In place: one step of `ListRuns`, and the member that left its sequence; all user data is kept |
| `IntrusiveList.Memory.AddHead` | sptrunk/Common/Utility/nlist.h:107-112 | The sequence gains the node in front, through the cast address of `head`; all user data is kept |
| `IntrusiveList.Memory.AddTail` | sptrunk/Common/Utility/nlist.h:118-123 | The sequence gains the node at the end, through the cast address of `tail`; all user data is kept |
| `IntrusiveList.Memory.RemHead` | sptrunk/Common/Utility/nlist.h:132-144 | Returns and removes the first member, its user data and all other kept; returns null and changes no word on an empty list |
| `IntrusiveList.Memory.RemTail` | sptrunk/Common/Utility/nlist.h:153-165 | Returns and removes the last member, its user data and all other kept; returns null and changes no word on an empty list |
| `IntrusiveList.Memory.IsEmpty` | sptrunk/Common/Utility/nlist.h:60-65 | True exactly on the empty sequence |
| `IntrusiveList.Memory.GetHead` | sptrunk/Common/Utility/nlist.h:71-83 | The first member, null if there is none |
| `IntrusiveList.Memory.GetTail` | sptrunk/Common/Utility/nlist.h:89-101 | The last member, null if there is none |
| `IntrusiveList.Memory.GetSucc` | sptrunk/Common/Utility/nnode.h:81-90 | The next member of the list the node is in, null after the last |
| `IntrusiveList.Memory.GetPred` | sptrunk/Common/Utility/nnode.h:99-108 | The previous member, null before the first |
| `IntrusiveList.Memory.IsLinked` | sptrunk/Common/Utility/nnode.h:188-198 | True exactly for members of some list |
| `IntrusiveList.Memory.SetPtr` | sptrunk/Common/Utility/nnode.h:164-169 | Sets the node's user data and no other word; every list stays as it is |
| `IntrusiveList.Memory.GetPtr` | sptrunk/Common/Utility/nnode.h:175-180 | Reads the node's user data |
| `HashTable.Hash` | sptrunk/Common/Utility/nhashtable.h:47-54 | For every string: the loop, wrapping at every step, gives the weighted sum wrapped once and divided with truncation |
| `HashTable.WeightedAppend` | sptrunk/Common/Utility/nhashtable.h:52 | A character at the end adds its value times the new length; with the empty string this determines the sum |
| `HashTable.NoOverflowExactly` | sptrunk/Common/Utility/nhashtable.h:51-52 | Every product, partial sum and factor of the loop is an `int` if and only if the whole sum is |
| `HashTable.InTableExactly` | sptrunk/Common/Utility/nhashtable.h:53 | The index for every string from the sum modulo 2^32, and that it is one of the table if and only if that is below 2^31 or the table's size divides its distance to 2^32 |
| `HashTable.IndexOutsideTable` | sptrunk/Common/Utility/nhashtable.h:53 | A string of 4104 characters whose index in a table of 1000 is -996 |
| `HashTable.ShortStringsHash` | sptrunk/Common/Utility/nhashtable.h:47-54 | At most 4103 characters: the sum is at most 255 L (L + 1) / 2 and below 2^31, so nothing overflows |
| `HashTable.LongStringsMayOverflow` | sptrunk/Common/Utility/nhashtable.h:52 | At every length from 4104 on, some step on some string leaves the range of `int` |
| `HashTable.BucketSearchIsEnough` | sptrunk/Common/Utility/nhashtable.h:72-76 | The first match in the name's bucket is the first match among all nodes |
| `HashTable.FirstNamedMeans` | sptrunk/Common/Utility/nhashtable.h:75 | The linear search gives the earliest node with the name, and null exactly when no node has it |
| `HashTable.Table.Add` | sptrunk/Common/Utility/nhashtable.h:61-65 | For a name whose index is in the table, the node becomes the newest of all added; every bucket still holds exactly its nodes, newest first; all user data is kept |
| `HashTable.Table.Find` | sptrunk/Common/Utility/nhashtable.h:72-76 | For a name whose index is in the table, returns what a newest-first search over everything ever added returns |
| `Wire.Trichotomy` | sptrunk/Common/Utility/ByteBuffer.h:510-519 | The key order that fixes a map's iteration order compares any two different values |
| `Wire.Transitive` | sptrunk/Common/Utility/ByteBuffer.h:510-519 | The key order is transitive, through strings, pairs and containers |
| `Wire.InsertKeepsSorted` | sptrunk/Common/Utility/ByteBuffer.h:537 | Inserting an entry, or dropping it because its key is there, keeps a map sorted by key |
| `Wire.SortedRebuilt` | sptrunk/Common/Utility/ByteBuffer.h:532-538 | Re-inserting a map's entries in the order they were written rebuilds the map |
| `Wire.LittleEndianInverse` | sptrunk/Common/Utility/ByteBuffer.h:287-298 | Reading back n bytes of a number gives the number modulo 256^n |
| `Wire.RoundTrip` | sptrunk/Common/Utility/ByteBuffer.h:126-232 | For every nested wire type and sendable value: reading returns the value and stops exactly behind its encoding, whatever surrounds it |
| `Wire.PrefixFree` | sptrunk/Common/Utility/ByteBuffer.h:446-540 | No encoding of a type is a proper prefix of another; encodings are injective |
| `Wire.DecodeGivesValue` | sptrunk/Common/Utility/ByteBuffer.h:457-540 | Any bytes, any cursor: the result is a value of the type, the cursor does not move back, and below 4 GiB the result is sendable |
| `Wire.ReadCharsBounds` | sptrunk/Common/Utility/ByteBuffer.h:213-232 | A decoded string has no NUL and is no longer than its header says or the bytes remaining allow |
| `Wire.DecodeEncodeDecode` | sptrunk/Common/Utility/ByteBuffer.h:457-540 | Decoding, encoding and decoding again equals decoding once |
| `Wire.RoundTripExactlyWhenSendable` | sptrunk/Common/Utility/ByteBuffer.h:213-232 | A value survives the wire if and only if every string in it is NUL-free and short enough for its header and every container has at most 1024 entries |
| `Wire.NulCutsString` | sptrunk/Common/Utility/ByteBuffer.h:224-225 | Any string with a NUL inside comes back cut at the first NUL, the cursor stopping inside its encoding |
| `Wire.LargeContainerIsLost` | sptrunk/Common/Utility/ByteBuffer.h:457-540 | Any vector, list or map of more than 1024 entries comes back empty, the cursor stopping before its entries |
| `WireLaws.OrderMeans` | sptrunk/Common/Utility/ByteBuffer.h:510-519 | The key order: integers by size, false before true, strings and containers by their first difference (characters unsigned) or as prefixes, pairs by first and then second component |
| `WireLaws.MapLookup` | sptrunk/Common/Utility/ByteBuffer.h:532-538 | For any pairs inserted in any order and any key: a linear search in the map finds what a linear search in the pairs finds first, and nothing exactly when that finds nothing; the keys ascend strictly |
| `WireLaws.MapReadsFirstPairs` | sptrunk/Common/Utility/ByteBuffer.h:521-540 | Any bytes read as a map and as a vector of pairs: the same end, for every key the first pair with it, in strictly ascending order |
| `WireLaws.IntegerKeysAscend` | sptrunk/Common/Utility/ByteBuffer.h:521-540 | A map with integer keys read from any bytes: the numbers ascend strictly |
| `WireLaws.MapTypeExactly` | sptrunk/Common/Utility/ByteBuffer.h:510-519 | A sequence is a map's value if and only if it consists of pairs of the two types whose first components ascend strictly |
| `WireLaws.BooleanIsByte` | sptrunk/Common/Utility/ByteBuffer.h:58-62 | A bool's encoding is that of the uint8 0 or 1 |
| `WireLaws.IntegerBytes` | sptrunk/Common/Utility/ByteBuffer.h:65-112 | Byte k of an integer's encoding is the number, modulo the type's range, divided by 256^k, modulo 256 |
| `WireLaws.IntegerSizes` | sptrunk/Common/Utility/ByteBuffer.h:65-112 | The eight integer types have exactly the C++ ranges, and encodings of 1, 2, 4 and 8 bytes |
| `WireLaws.TextIsVector` | sptrunk/Common/Utility/ByteBuffer.h:126-133 | A string's encoding is that of the vector of uint8 of its characters followed by 0 |
| `WireLaws.VectorLayout` | sptrunk/Common/Utility/ByteBuffer.h:446-455 | A vector's encoding begins with its count as a uint32, and what follows is compositional: nothing for no entry, the entry's encoding for one, one part after the other for two parts |
| `WireLaws.ContainersAlike` | sptrunk/Common/Utility/ByteBuffer.h:478-519 | Lists and maps are encoded as the vector of their entries, and a pair as its components in order |
| `WireLaws.UnsignedReadsBytes` | sptrunk/Common/Utility/ByteBuffer.h:287-298 | From any bytes: an integer read in full has exactly those bytes as its base-256 digits; otherwise it is 0; the cursor moves by its size |
| `WireLaws.SignedReadsUnsigned` | sptrunk/Common/Utility/ByteBuffer.h:145-205 | From any bytes: a signed integer is the number of its range congruent to the unsigned one, and a bool is true exactly when the int8 there is positive |
| `WireLaws.TextReadsToNul` | sptrunk/Common/Utility/ByteBuffer.h:213-232 | From any bytes: a string is the longest NUL-free run of the bytes behind its header within its length, and where the cursor stops |
| `WireLaws.VectorReadsInSequence` | sptrunk/Common/Utility/ByteBuffer.h:457-508 | From any bytes: a vector or list with a header up to 1024 has that many entries, each read where the one before ended, and with a greater one none; a pair is read in order |
| `WireLaws.WithinLimitsSurvives` | sptrunk/Common/Utility/ByteBuffer.h:457-540 | A container of up to 1024 sendable entries and a NUL-free string below 4 GiB come back, whatever follows |
| `ByteBuffer.ByteBuffer.Append` | sptrunk/Common/Utility/ByteBuffer.h:346-357 | Appends exactly the bytes and keeps the write cursor at the end |
| `ByteBuffer.ByteBuffer.Write` | sptrunk/Common/Utility/ByteBuffer.h:446-519 | operator<< of any nested type appends exactly the encoding |
| `ByteBuffer.ByteBuffer.Read` | sptrunk/Common/Utility/ByteBuffer.h:457-540 | operator>> of any nested type, on any storage, delivers the decoding, moves the read cursor to its end and changes nothing else |
| `ByteBuffer.ByteBuffer.ReadText` | sptrunk/Common/Utility/ByteBuffer.h:213-232 | The character loop stops at the declared length or the first NUL |
| `ByteBuffer.ByteBuffer.ReadMap` | sptrunk/Common/Utility/ByteBuffer.h:521-540 | Inserting entries as they are read equals inserting the decoded sequence; for every key the map has the first of the pairs with it, and its keys ascend strictly |
| `ByteBuffer.ScalarIsBlock` | sptrunk/Common/Utility/ByteBuffer.h:287-313 | The two read primitives agree for every position and size: an integer is what its bytes, read as a block, stand for, also when too few are left |
| `ByteBuffer.PassBlock` | sptrunk/Common/Utility/ByteBuffer.h:300-357 | On a real buffer with nothing unread, an appended block of any length is what the block read returns, and again nothing is unread |
| `ByteBuffer.ByteBuffer.Put` | sptrunk/Common/Utility/ByteBuffer.h:364-368 | Byte by byte: the source stands at the position, every other byte and the size are as before |
| `ByteBuffer.BufferIsQueue` | sptrunk/Common/Utility/ByteBuffer.h:279-285 | Every interleaving of matching writes and reads delivers the values first in, first out |
| `ByteBuffer.DriveBuffer` | sptrunk/Common/Utility/ByteBuffer.h:446-540 | The same on a real buffer: over every such run of its writers and readers the values delivered are the queue's, and what is left unread is what is left in the queue |
| `ByteBuffer.PutChangesOneField` | sptrunk/Common/Utility/ByteBuffer.h:364-368 | Whatever `Put` of an equally long encoding over field i leaves, it is the encoding with that field changed and no other |
| `ByteBuffer.PutFits` | sptrunk/Common/Utility/ByteBuffer.h:52-55 | For every integer or boolean field, the encoding of another value of its type is equally long and `Put` stays inside the storage |
| `ByteBuffer.PutAndReadBack` | sptrunk/Common/Utility/ByteBuffer.h:52-55 | On real buffers: fields of any types written, a fixed-width one put over, all read back; that one is the new value and every other as written |
| `BandPool.AllocKeepsInv` | sptrunk/Common/Utility/MemBand.h:223-264 | Alloc hands out an object nobody holds; bands newer than the one in use stay full, older ones empty; a band is added exactly when every object is out |
| `BandPool.FreeKeepsInv` | sptrunk/Common/Utility/MemBand.h:266-274 | An outstanding object always finds room, in the band in use or the next older one; none is dropped or held twice |
| `BandPool.AllocReturnsLastFreed` | sptrunk/Common/Utility/MemBand.h:254-274 | The next Alloc returns the object just freed and restores every band |
| `MemoryPool.TypeBand.AlloObject` | sptrunk/Common/Utility/MemBand.h:254-264 | Pops the free stack; on an empty band the wrapped index is reset and null returned |
| `MemoryPool.TypeBand.FreeObject` | sptrunk/Common/Utility/MemBand.h:266-274 | Pushes onto the free stack, refused exactly when it is full |
| `MemoryPool.Prepend` | sptrunk/Common/Utility/MemBand.h:235-238 | A new band in front keeps the chain doubly linked |
| `MemoryPool.MemoryPoolFactory.Alloc` | sptrunk/Common/Utility/MemBand.h:223-264 | In place, with the branches of MemoryPoolFactory.h:56-78: never null, and the pool afterwards is `BandPool.Alloc` of the pool before |
| `MemoryPool.MemoryPoolFactory.Free` | sptrunk/Common/Utility/MemBand.h:266-274 | In place, with the branches of MemoryPoolFactory.h:79-99: the pool afterwards is `BandPool.Free` of the pool before, with the node no longer outstanding |
| `MemoryPool.MemoryPoolFactory.GetAvailableNumberOfTypes` | sptrunk/Common/Utility/MemBand.h:208-211 | The free indices summed along the chain of bands in a DWORD (the loop of MemoryPoolFactory.h:123-133) are all objects less the outstanding ones, modulo 2^32 |
| `MemoryPool.MemoryPoolFactory.constructor` | sptrunk/Common/Utility/MemBand.h:223-241 | After Initialize (MemoryPoolFactory.h:28-44): exactly the basic number of objects, all free, and the extension given or, for 0, half the basic size and one |
| `MemoryPool.MemoryPoolFactory.ObjectsCounted` | sptrunk/Common/Utility/MemBand.h:223-241 | At any time the pool owns its basic size and one extension for every further band |
| `PoolRuns.DrivePool` | sptrunk/Common/Utility/MemBand.h:208-274 | A real pool over every run of Alloc and Free: it owns the least number of the form basic + k extensions that covers the most objects ever held at once, and the free count is that less what is held, modulo 2^32 |
| `PoolRuns.LeastIsUnique` | sptrunk/Common/Utility/MemBand.h:223-241 | There is only one such number |
| `PoolRuns.ElevenOfTen` | sptrunk/Common/Utility/MemBand.h:208-241 | A pool begun with ten and the default extension has five free objects after eleven allocations |
| `NodeChain.LinkBetween` | sptrunk/Common/Utility/List.h:191-197 | Splicing a node in keeps `pNext` and `pPrev` mutually inverse along the longer sequence |
| `NodeChain.UnlinkBetween` | sptrunk/Common/Utility/List.h:329-330 | Unlinking a middle node keeps them mutually inverse along the shorter sequence |
| `ListOutcomes.CountIsLength` | sptrunk/Common/Utility/List.h:57 | The wrapping count is the number of -32768..32767 congruent to the length modulo 65536; it equals the length exactly up to 32767 elements |
| `PooledList.CList.AddHead` | sptrunk/Common/Utility/List.h:65-85 | The element and its node go to the front; outstanding nodes remain exactly the list's nodes |
| `PooledList.CList.AddTail` | sptrunk/Common/Utility/List.h:120-139 | The element and its node go to the end; outstanding nodes remain exactly the list's nodes |
| `PooledList.CList.DeleteHead` | sptrunk/Common/Utility/List.h:88-113 | Returns and removes the first element and frees its node; 0 on an empty list |
| `PooledList.CList.DeleteTail` | sptrunk/Common/Utility/List.h:142-175 | Returns and removes the last element and frees its node; 0 on an empty list |
| `PooledList.CList.InsertBefore` | sptrunk/Common/Utility/List.h:180-202 | For every index, in place: null is dereferenced exactly for a negative index and for one behind the last element (0 excepted), and otherwise the element stands at the index, all others in order around it |
| `ListOutcomes.InsertBeforeExactly` | sptrunk/Common/Utility/List.h:180-202 | For every list, element and index: exactly when null is dereferenced, and otherwise the resulting sequence place by place |
| `NodeChain.LinkAfter` | sptrunk/Common/Utility/List.h:219-224 | The four link writes of InsertpAfter: every `pNext` is right along the longer sequence, the `pPrev` of the node before the place leads forward and that of the node behind the new one skips it |
| `PooledList.CList.InsertpAfter` | sptrunk/Common/Utility/List.h:205-229 | For every index and length, in place: the list is well formed with the element at the end, or it carries the element in the right place with exactly those two wrong back links and is not well formed, or null is dereferenced |
| `ListOutcomes.InsertpAfterMeetsPurposeExactly` | sptrunk/Common/Utility/List.h:205-229 | For every list, element and index in it: inserted behind that index if and only if the tail branch is taken and all elements from there on equal the new one |
| `ListOutcomes.InsertpAfterInCountRange` | sptrunk/Common/Utility/List.h:205-229 | Up to 32767 elements: right exactly behind the tail; back links broken exactly behind a middle element; null dereferenced exactly behind a head that is not the tail |
| `ListOutcomes.InsertpAfterExamples` | sptrunk/Common/Utility/List.h:211-224 | A list and index for which the back links break, and one for which null is dereferenced |
| `ListOutcomes.InsertpAfterExactly` | sptrunk/Common/Utility/List.h:205-229 | For every index and up to 32767 elements: exactly when null is dereferenced, otherwise the forward sequence place by place, and the back links right exactly behind the tail |
| `PooledListRuns.BrokenStillForward` | sptrunk/Common/Utility/List.h:219-224 | After such a break, forward iteration still yields exactly the elements |
| `PooledListRuns.CollectBackwardBroken` | sptrunk/Common/Utility/List.h:273-287 | After such a break, with the real GetPrevPos: after any number of calls from the last position there is still a position |
| `PooledList.CList.DeletePos` | sptrunk/Common/Utility/List.h:307-339 | Removes exactly the element at the position; the position moves to the new head or to the preceding node; null is dereferenced exactly for a null position on a nonempty list |
| `ListOutcomes.DeletePosExactly` | sptrunk/Common/Utility/List.h:249-339 | For the position at any index: exactly when null is dereferenced, and otherwise what is returned and the resulting sequence place by place |
| `PooledList.CList.DeleteAll` | sptrunk/Common/Utility/List.h:383-395 | The list is empty and no node is outstanding |
| `PooledListRuns.DriveList` | sptrunk/Common/Utility/List.h:64-395 | A real list over every run of AddHead, AddTail, DeleteHead, DeleteTail, InsertBefore, DeleteAt, DeletePos and DeleteAll with any arguments: every result, the elements and the point of a null dereference are those of the run on a plain sequence; the list stays well formed and exactly its nodes are out of the pool |
| `PooledListRuns.DriveAndClear` | sptrunk/Common/Utility/List.h:383-395 | After any run without a null dereference, and DeleteAll, no node is out of the pool |
| `PooledList.CList.DeleteAt` | sptrunk/Common/Utility/List.h:356-380 | For every index and length, in place: which element goes and is returned, and when null is dereferenced instead, the list being then as before |
| `ListOutcomes.DeleteAtMeetsPurposeExactly` | sptrunk/Common/Utility/List.h:356-380 | For every list and index in it: the element asked for is returned and removed if and only if it is the head, or the tail branch is taken and all from there on are equal, or it has two successors and equals the first |
| `ListOutcomes.DeleteAtInCountRange` | sptrunk/Common/Utility/List.h:356-380 | Up to 32767 elements: right exactly at the ends and where two successors follow and the first is equal; null dereferenced exactly at the index before the tail, unless that is the head |
| `ListOutcomes.DeleteAtExamples` | sptrunk/Common/Utility/List.h:362-369 | A list and index for which the wrong element goes, and one for which null is dereferenced |
| `ListOutcomes.DeleteAtCrashesExactly` | sptrunk/Common/Utility/List.h:356-380 | For every index, in the list or not, and up to 32767 elements: exactly when null is dereferenced, and otherwise what is returned and the resulting sequence place by place |
| `PooledList.CList.GetPosIndex` | sptrunk/Common/Utility/List.h:236-246 | The place of a position, -1 for anything that is not one |
| `PooledList.CList.GetIndexPos` | sptrunk/Common/Utility/List.h:249-256 | The position at an index, null beyond the end, the head for a negative index |
| `PooledList.PositionsInvert` | sptrunk/Common/Utility/List.h:236-256 | The two are mutual inverses on valid indices and positions |
| `PooledList.CList.GetNextPos` | sptrunk/Common/Utility/List.h:290-304 | The element at a position and the following position |
| `PooledList.CList.GetPrevPos` | sptrunk/Common/Utility/List.h:273-287 | The element at a position and the preceding position |
| `PooledListRuns.TraversalsYieldElements` | sptrunk/Common/Utility/List.h:273-304 | Following `pNext` yields the elements, following `pPrev` their reverse, and both then stop |
| `PooledListRuns.CollectForward` | sptrunk/Common/Utility/List.h:290-304 | The loop over the real GetNextPos ends and yields exactly the elements |
| `PooledListRuns.CollectBackward` | sptrunk/Common/Utility/List.h:273-287 | The loop over the real GetPrevPos ends and yields exactly their reverse |
| `Scrambler.LowMeans` | sptrunk/Common/AdvanceLib/Socket/MessageEncrypt.cpp:64 | XOR with an `int` uses it modulo 256 |
| `Scrambler.ShiftedNarrow` | sptrunk/Common/AdvanceLib/Socket/MessageEncrypt.cpp:38-53 | The shifts on a wide word, cut back, are the eight-bit rotations |
| `Scrambler.RotationsCancel` | sptrunk/Common/AdvanceLib/Socket/MessageEncrypt.cpp:38-53 | The two rotations undo each other for every count |
| `Scrambler.QuotientsVanish` | sptrunk/Common/AdvanceLib/Socket/MessageEncrypt.cpp:76 | Every quotient by 0x233fedf is 0 for byte-valued tables, so its line changes nothing |
| `Scrambler.TermsFitInt` | sptrunk/Common/AdvanceLib/Socket/MessageEncrypt.cpp:63-117 | For byte-valued tables and digits no term, product, sum or quotient of the chain, nor the rotation count, leaves `int` |
| `Scrambler.KeyFitsInt` | sptrunk/Common/AdvanceLib/Socket/MessageEncrypt.cpp:22 | For byte-valued keys no part of the key polynomial leaves `int` |
| `Scrambler.XorChain` | sptrunk/Common/AdvanceLib/Socket/MessageEncrypt.cpp:147-198 | The line-by-line conditional chain is XOR with one mask byte independent of the data (one method stands for both directions; that lines 63-114 and 147-198 agree is a reading of the source, not a theorem) |
| `Scrambler.OntoIsOneMask` | sptrunk/Common/AdvanceLib/Socket/MessageEncrypt.cpp:63-114 | Any chain of XORs onto a byte is one XOR |
| `ScramblerLaws.Conditions` | sptrunk/Common/AdvanceLib/Socket/MessageEncrypt.cpp:72-104 | The three bit tests as conditions on remainders |
| `ScramblerLaws.MaskReduced` | sptrunk/Common/AdvanceLib/Socket/MessageEncrypt.cpp:63-114 | The mask in reduced form, with factors and constants modulo 256: the first two groups mostly cancel, the third and fourth exclude each other |
| `ScramblerLaws.CodedExactly` | sptrunk/Common/AdvanceLib/Socket/MessageEncrypt.cpp:63-117 | At position p1 + 256 p2 the keys are entry p1 of table 1 and entry p2 of table 2; the byte is XORed with the reduced mask and rotated left by their sum and 6, modulo 8, or the reverse |
| `ScramblerLaws.CallExactly` | sptrunk/Common/AdvanceLib/Socket/MessageEncrypt.cpp:56-221 | One call of Encrypt or Decrypt on a real object: every byte up to the length is that byte at its position, all others are kept, and where the position ends |
| `ScramblerLaws.FirstByte` | sptrunk/Common/AdvanceLib/Socket/MessageEncrypt.cpp:56-137 | The first byte a new object encrypts, 0x41, becomes 0x5c |
| `Scrambler.CallRecovered` | sptrunk/Common/AdvanceLib/Socket/MessageEncrypt.cpp:56-221 | For all tables, positions and buffers, decrypting undoes encrypting and encrypting undoes decrypting |
| `Scrambler.ChunkingInvisible` | sptrunk/Common/AdvanceLib/Socket/MessageEncrypt.cpp:119-133 | Moving calls on chunks produce what one call on the whole stream would, and end where it would |
| `Scrambler.StreamRecovered` | sptrunk/Common/AdvanceLib/Socket/MessageEncrypt.cpp:56-221 | Any chunking by the sender, any other by the receiver: the plaintext is recovered and both end at the same position |
| `Scrambler.Exchange` | sptrunk/Common/AdvanceLib/Socket/MessageEncrypt.cpp:56-221 | Two real objects with equal tables and positions: whatever chunks one encrypts and however the bytes arrive, the other decrypts the plaintext and both are at the same position again |
| `Scrambler.CryptChunks` | sptrunk/Common/AdvanceLib/Socket/MessageEncrypt.cpp:56-221 | One real object called chunk after chunk produces the chunked stream and ends at its end position |
| `Scrambler.RunCalls` | sptrunk/Common/AdvanceLib/Socket/MessageEncrypt.cpp:56-221 | One real object over any calls in either direction, moving or not: every result, and the position as start plus moved bytes modulo 65536 |
| `Scrambler.PositionCountsMovedBytes` | sptrunk/Common/AdvanceLib/Socket/MessageEncrypt.cpp:119-133 | Over any run the position is its start plus the bytes of the moving calls modulo 65536 |
| `Scrambler.ReduceOnce` | sptrunk/Common/AdvanceLib/Socket/MessageEncrypt.cpp:22 | Reducing the key polynomial's argument first does not change its value modulo 256 |
| `Scrambler.PassUndoesItself` | sptrunk/Common/AdvanceLib/Socket/MessageEncrypt.cpp:231-258 | push_stack3 cancels push_stack2, and each pop undoes its push |
| `Scrambler.PassesCommute` | sptrunk/Common/AdvanceLib/Socket/MessageEncrypt.cpp:224-244 | The passes commute |
| `Scrambler.MessageEncrypt.Generate` | sptrunk/Common/AdvanceLib/Socket/MessageEncrypt.cpp:17-30 | Entry i of a table is the i-th unreduced integer iterate reduced once modulo 256 |
| `Scrambler.MessageEncrypt.InitKey` | sptrunk/Common/AdvanceLib/Socket/MessageEncrypt.cpp:15-36 | After generation the net change to table 1 is the first pass alone; table 2 is untouched |
| `Scrambler.MessageEncrypt.PushPass` | sptrunk/Common/AdvanceLib/Socket/MessageEncrypt.cpp:224-244 | In place: exactly the touched entries absorb their partners in table 2 |
| `ScramblerLaws.PushedEntries` | sptrunk/Common/AdvanceLib/Socket/MessageEncrypt.cpp:224-244 | A pass entry by entry: exactly every fourth entry from the start absorbs the entry of table 2 two places further on |
| `ScramblerLaws.GeneratedRecurrence` | sptrunk/Common/AdvanceLib/Socket/MessageEncrypt.cpp:17-30 | Every generated table begins with the first code, and each entry is the key polynomial of the one before modulo 256 |
| `ScramblerLaws.GeneratedTables` | sptrunk/Common/AdvanceLib/Socket/MessageEncrypt.h:3-10 | With the program's keys both generated tables are constant, 71 and 102, from entry 3 on |
| `ScramblerLaws.NewTables` | sptrunk/Common/AdvanceLib/Socket/MessageEncrypt.cpp:4-36 | Every entry of both tables of every new object |
| `Scrambler.MessageEncrypt.Advance` | sptrunk/Common/AdvanceLib/Socket/MessageEncrypt.cpp:119-126 | Both digits stay in 0..255 and their number grows by one modulo 65536 |
| `Scrambler.MessageEncrypt.Encrypt` | sptrunk/Common/AdvanceLib/Socket/MessageEncrypt.cpp:56-137 | In place: the first bytes become the encrypted stream, the rest stay; the position moves only if asked |
| `Scrambler.MessageEncrypt.Decrypt` | sptrunk/Common/AdvanceLib/Socket/MessageEncrypt.cpp:139-221 | In place: the first bytes become the decrypted stream, the rest stay; the position moves only if asked |
| `Replace.ReplacedBySelf` | sptrunk/Common/Utility/Global.cpp:19-20 | The early return for equal values is sound |
| `Replace.ReplacedExchangesGlue` | sptrunk/Common/Utility/Global.cpp:22-32 | Cut at its occurrences, the string joined with the old value is the original and joined with the new value is the result |
| `Replace.PiecesAreLeftmost` | sptrunk/Common/Utility/Global.cpp:24 | Each cut is at the leftmost occurrence, and after the last piece there is none |
| `Replace.OccursMeans` | sptrunk/Common/Utility/Global.cpp:24 | The value occurs at a place if and only if the string is some prefix of that length, the value, and some rest |
| `Replace.ReplacedFirst` | sptrunk/Common/Utility/Global.cpp:22-32 | Kept up to the first occurrence, that one exchanged, and the same again behind it |
| `Replace.MutableString.ReplaceAllDistinct` | sptrunk/Common/Utility/Global.cpp:14-35 | In place, terminating for every pair of values: the leftmost non-overlapping replacement of the original string, inserted text never rescanned |

## Left out

- The disabled `CMemBand` (sptrunk/Common/Utility/MemBand.h:41-184, under `#if 0`): the band invariants are proved of the live `CMemoryPoolFactory` instead.
- `CList::GetAt`, `GetAtPos`, `GetCount`, `SetPtr`, `GetPtr`, `SetName`: plain field reads and writes beside what is modelled.
- HashTable.Table.Add: what follows when the index is not in the table; the code then accesses memory outside its array.
- HashTable.Table.Find: the same.
- PooledList.CList.DeleteAt: what follows a null dereference.
- PooledList.CList.DeletePos: a position that is a node of no list or of another one.
- PooledList.CList.InsertBefore: what follows a null dereference, and what the code does to the pool and to a node just before it.
- PooledList.CList.InsertpAfter: the same; and what the other operations do to a list whose back links it has broken.
- MemoryPool.MemoryPoolFactory.Alloc: the null result of a pool that was never initialized, `Release`, and a second `Initialize` are not modelled; nor is an allocation failure of the system.
- `CMemoryPoolFactory` is instantiated at the list's node type only; the guard bytes of debug builds are not modelled.
- Destruction of lists and nodes: that their assertions pass is covered by `DrainReturnsAll`, `IsEmpty` and `IsLinked`; reuse of their storage is not modelled.
- ByteBuffer.ByteBuffer.Read: the wrap-around of a 32-bit cursor after billions of reads past the end is not modelled.
- `float` and `double` (opaque 4- and 8-byte patterns, like the unsigned integers of those widths), `hexlike`, `reverse`, self-append and the raw cursor setters of `ByteBuffer`.
- Replace.MutableString.ReplaceAllDistinct: passing the string itself as one of the two values (aliasing) is not modelled.
- The exception handlers and unused parameters of `MessageEncrypt`, and any claim about its strength.
- `MemoryCache.h` and `MemoryPool.h` (unfinished), locking, sockets, sessions, console, timers, database and file reading: system calls or easy wrappers.

# Storage, queues, JSON and number kernels, modelled and proved

A Dafny 4.11 model of four parts of the repository, with proofs of what each part is for. `dafny verify dfyconfig.toml`
checks all of it.

**Storage and the map on it.** `FileStorage` hands out blocks of one file, first fit, with a 16-byte header before each
block. The file is a byte string with POSIX seek, write and truncate; a hole reads as zero. The class's `Valid()` says
two things: the bookkeeping is well formed (used and free blocks tile the file, both free indexes describe the same
blocks, no two free blocks touch, the last block is used), and every header on disk says what the bookkeeping says.
`Blocks()` is the heap a user sees, handle to bytes; `StorageRuns` is about whole runs of calls on it. `FileHashMap` is
a class on that heap; its `Map()` is a finite map of byte strings, and its `Valid()` holds the chains, the role of
every live block and what is written in each. `MapIterator` walks it. `FileFormats` says byte by byte what lies where
in the files of both.

**Queues.** `BufferList` is a byte ring of length-prefixed records, `ArrayList` a ring of elements, and the message queue of
`MSGQueueForProc` is a state machine whose processes interleave byte by byte.

**JSON.** The vendored reader twice, as a recursive class and as a table-driven pushdown class, each proved against a
function of the text; the two functions are proved to agree. That function is then held against the grammar of RFC 4627,
written down apart from it in `JsonNumbers`, `JsonStrings`, `JsonGaps` and `JsonSyntax`: which texts are taken, what events
they give, and why the others are refused. The writer as a class with its level stack, and the two round trips between
writer and reader. JSON Pointer (RFC 6901) with UTF-8 validation (section 4 of RFC 3629), held against the forms of those
standards in `PointerForms`. The repository's own parser as a class with an explicit stack and one flat hash table, the
linked-list hash map under it, and the piece allocator under that; `BasicLayout` has the documents that it reads, with the
blanks where it takes them.

**Numbers.** The digit generation of Grisu2, multi-limb integers and guarded integer literals, on integers and words that
wrap where the machine's do.

Where the source changes state, the model does: each class has the source's fields, and each method says what the new state
is as a function of the old one. The lemmas are about those functions. Results that a reader may not expect:

* `BlockRuns.FreeWidth`: `Free` keeps offsets in `unsigned int` (src/FileStorage/FileStorage.hpp:349-351). It does its job
  if and only if the region given back ends below 4 GiB. `BlockRuns.WideFree` is one block that is not given back.
* `Storage.FileStorage.Write` takes `lenOfData - pos` in `unsigned int` (src/FileStorage/FileStorage.hpp:171). Up to the
  end of the block nothing but that block changes; behind it the bytes go where other blocks are, and `Storage.WriteAstray`
  is such a write. It leaves another block alone if and only if it writes there what stands there
  (`Storage.AstrayLeaves`).
* `StorageRuns.LastWritten`: in every run of allocations, frees, writes, reads and reopenings, each byte that a read
  returns is the one last written there through the same live handle, whatever came between.
* `HashIterator.MapIterator.Walk`: the walk misses entries if and only if the empty key has an empty value and `malloc(0)`
  gives a null pointer; iteration then takes that entry for the end, as in `HashIterator.MissedEntry`.
* `BufferLists.BufferList.PopFront`: the list stays consistent if and only if the caller's buffer was not too small. The
  code gives the four prefix bytes back before it refuses, as in `BufferLists.TooSmall`. `PushBack` is safe but for lists of
  less than four bytes, where a length just below 2^32 gets past both of its tests.
* `ArrayLists.ArrayList.PopAll` leaves `beginIndex` at -1 where `endIndex` is 0, and `ArrayLists.Overrun` is a concrete list
  for one element that then takes two. `PushBack` and `PushAll` say exactly when that happens. With more than one element
  too many, `PushAll` copies a negative number of bytes: `ArrayLists.OverrunAll` has all three outcomes.
* `JsonPushdown.Agree`: the two readers differ in nothing but one error code. For a document that begins with a comma, a
  colon or a closing bracket or brace, the pushdown reader reports an empty document, the recursive one an invalid value.
* `JsonSound.DocumentIff`: the reader takes exactly the texts of the grammar in section 2 of RFC 4627, with comments and
  commas before a closing bracket where the flags allow them, up to a first NUL; `JsonFailures.DocumentFails` says of every
  other text where it is stuck, by its error code. A lone low surrogate is taken, as in the code (`JsonStrings.PieceOk`).
* A raw number is written as a quoted string (rapidjson/writer.h:195-200), so it reads back as a string;
  `JsonRoundTrip.RoundTrip` says so through `ScalarEvent`.
* `PointerForms.PointerRefused`: every text that is no JSON pointer is refused with the code and at the offset that the
  standards' own parts give it. A percent-encoded solidus is taken as part of a name, since names are told apart first.
* `PointerIndex.MissedWrap`: the test for a wrap of an array index (rapidjson/pointer.h:969) lets 10000000000 pass as
  1410065408. `PointerIndex.LargeIndex` says exactly which numbers from 2^32 on are told from an index.
* `BasicRun.Parses`: blanks are skipped in the repository's own parser where `BasicLayout.MembersText` has them and nowhere
  else: not before an element, and not between a nested container and the comma behind it.
* `BasicRead.NameReadIff` and `BasicRead.StringReadIff`: the repository's own parser does not know escapes. Which names and
  strings it reads back whole is stated exactly; `BasicRun.ColonThrows` and `BasicRun.CommaCrashes` are two that it does
  not.
* `BasicRun.ParsedRefines` holds for every parser, however many container ids it has used up: they wrap at 2^32, and
  `BasicIds.FillRenamed` shows that the table is then the same one with the ids renamed.
* `BigIntegers.BigInteger.ShiftLeft`, under the source's own assertion, writes one limb behind the array if and only if it
  shifts by bits and the limbs moved end at the capacity, as in `BigIntegers.LastLimb`; `AppendDecimal64` says for which
  numbers that happens to it.
* `BigIntegers.BigInteger.Difference` is right if and only if no limb of the smaller number that is all ones is borrowed
  from (rapidjson/internal/biginteger.h:195-198 does not see that borrow). `Borrows.LostExample` is such a pair of numbers.
* `DigitGeneration.Shortest`: no decimal with fewer digits lies in the interval Grisu2 is given, except that the fraction
  loop passes over one that is exactly the lower end (rapidjson/internal/dtoa.h:103 compares with `<`, line 87 with `<=`).
  `DigitGeneration.PassedOver` is 1.5 at the lower end of such an interval.

## Model

| member | source | states |
|---|---|---|
| BlockIndex.AllocatedWellFormed | src/FileStorage/FileStorage.hpp:249-342 | allocating, by an exact fit, by splitting off the upper end of a free block or at the end of the file, keeps the tiling and both indexes |
| BlockIndex.ReleasedKeepsWellFormed | src/FileStorage/FileStorage.hpp:344-421 | freeing, with both merges and the cut at the tail, keeps them; an unknown handle changes nothing |
| BlockRuns.EveryRunWellFormed | src/FileStorage/FileStorage.hpp:249-421 | every run of allocations and frees from the empty file keeps the invariant |
| BlockRuns.EveryOffsetInOneBlock | src/FileStorage/FileStorage.hpp:249-421 | no gap and no overlap: each offset from 24 to the end belongs to exactly one block, used or free |
| BlockRuns.GrantedWhere | src/FileStorage/FileStorage.hpp:249-342 | which block is handed out: the end of the lowest free block longer than the data and a header, or the whole of the lowest that is just as long, whichever comes first; and one at the end of the file where there is neither |
| BlockRuns.FreeThenUsed | src/FileStorage/FileStorage.hpp:344-421 | a used block begins where a free one ends, and each free block has its own |
| BlockRuns.FreeFewerThanUsed | src/FileStorage/FileStorage.hpp:344-421 | free blocks never outnumber used ones |
| BlockRuns.FreeWidth | src/FileStorage/FileStorage.hpp:347-419 | the code with its 32-bit locals frees as intended if and only if the merged region ends below 2^32 |
| BlockRuns.WideFree | src/FileStorage/FileStorage.hpp:347-419 | a block of 2^32 - 1 bytes, allocated in an empty file and freed: the file is not cut back |
| Reload.LoadAllWellFormed | src/FileStorage/FileStorage.hpp:508-599 | whatever chain of headers a file holds, with adjacent or trailing free blocks, loading it ends in a well-formed state |
| LoadKeeps.LoadKeepsUsed | src/FileStorage/FileStorage.hpp:508-599 | and the used map is exactly the used headers of the chain, with every one of their bytes unchanged and still in the file |
| Reload.LoadRestores | src/FileStorage/FileStorage.hpp:536-597 | walking the headers from any block on rebuilds the rest of the bookkeeping, block by block |
| Reload.ReloadIsIdentity | src/FileStorage/FileStorage.hpp:508-599 | walking the headers of a well-formed file rebuilds the used map, both free indexes and the end exactly |
| LoadFile.ReloadKeepsFile | src/FileStorage/FileStorage.hpp:508-599 | and changes no byte of the file |
| Disk.BlockRoundTrip | src/FileStorage/FileStorage.hpp:27-32 | a header reads back as it was written |
| FileFormats.LEByte | src/FileStorage/FileStorage.hpp:22-32 | byte k of a stored word is its k-th from the least significant |
| FileFormats.HeaderBytes | src/FileStorage/FileStorage.hpp:27-32 | where in a header's sixteen bytes the offset, the length and the state lie |
| FileFormats.HeadBytes | src/FileStorage/FileStorage.hpp:17-25 | a file begins with its twelve check characters, and has the end of its last block at 16 |
| DiskSteps.AllocatedSeen | src/FileStorage/FileStorage.hpp:278-341 | after an allocation every header on disk agrees with the bookkeeping again and no byte of an older block's data has changed |
| DiskSteps.MergedSeen | src/FileStorage/FileStorage.hpp:355-403 | the same for a free that leaves a free block |
| Storage.FileStorage.constructor | src/FileStorage/FileStorage.hpp:38-57 | opening walks a known file, whose used headers become the live blocks with their bytes, and replaces an unknown one by an empty storage |
| Storage.FileStorage.Reopen | src/FileStorage/FileStorage.hpp:508-599 | closing and opening again changes neither the bookkeeping nor the file |
| Storage.FileStorage.LoadStorageFile | src/FileStorage/FileStorage.hpp:508-599 | the load loop computes the functions that the reload lemmas are about; the live blocks are the used headers of the chain, with their bytes |
| Storage.FileStorage.MergeNeighbours | src/FileStorage/FileStorage.hpp:355-371 | the two merges, in the code's order and width |
| Storage.FileStorage.Release | src/FileStorage/FileStorage.hpp:347-419 | the body of Free moves the file and the bookkeeping together |
| Storage.FileStorage.Free | src/FileStorage/FileStorage.hpp:344-421 | the handle is gone, every other block keeps its bytes, the file does not grow, the invariant stays |
| Storage.FileStorage.TakeFree | src/FileStorage/FileStorage.hpp:258-318 | a free block is taken whole, or its upper end is |
| Storage.FileStorage.Extend | src/FileStorage/FileStorage.hpp:319-341 | a block is added at the end |
| Storage.FileStorage.Allocate | src/FileStorage/FileStorage.hpp:249-342 | a new handle with a block of the size asked for; every other block keeps its bytes |
| Storage.FileStorage.Read | src/FileStorage/FileStorage.hpp:59-151 | inside the block, exactly its bytes from there on, cut at its end and at the end of the file; behind its end, the bytes of other blocks; the error codes otherwise |
| Storage.FileStorage.Write | src/FileStorage/FileStorage.hpp:153-239 | inside the block, changes just those bytes of that block, no header and no other block; behind its end, the bytes at that place of the file, whosever they are; the error codes otherwise |
| Storage.WriteAstray | src/FileStorage/FileStorage.hpp:171-176 | two blocks of four bytes: a write to the first at position 20 is taken and changes the second |
| Storage.AstrayLeaves | src/FileStorage/FileStorage.hpp:171-176 | such a write leaves another block as it was, header and data, if and only if it writes there the bytes that stand there |
| Storage.FileStorage.Fset | src/FileStorage/FileStorage.hpp:423-443 | fills the block and nothing else; an unknown handle changes nothing |
| Storage.FileStorage.Size | src/FileStorage/FileStorage.hpp:445-461 | the length of the block, 0 for an unknown handle |
| Storage.FileStorage.ClearFile | src/FileStorage/FileStorage.hpp:463-481 | an empty storage |
| StorageRuns.LastWritten | src/FileStorage/FileStorage.hpp:59-239 | in every run, byte by byte: a read returns what was last written there through the same live handle, whatever allocations, frees, truncations, reopenings and writes elsewhere have come between |
| StorageRuns.WrittenReads | src/FileStorage/FileStorage.hpp:59-239 | so a read inside the place of one write returns all of that part of it, if nothing has touched what is read |
| StorageRuns.Perform | src/FileStorage/FileStorage.hpp:59-599 | any calls of allocate, Free, write, read and reopening make such a run, each returning what its contract says |
| HashIndex.NodeRoundTrip | src/FileStrHashMap/FileStrHashMap.hpp:28-34 | a node's block reads back as the node |
| HashIndex.LVRead | src/FileStrHashMap/FileStrHashMap.hpp:22-26 | a length-and-bytes block gives back its length and bytes |
| HashIndex.BucketsRoundTrip | src/FileStrHashMap/FileStrHashMap.hpp:479-537 | the bucket array reads back from its block |
| HashIndex.InfoRoundTrip | src/FileStrHashMap/FileStrHashMap.hpp:14-20 | the map-info block reads back |
| FileFormats.NodeBytes | src/FileStrHashMap/FileStrHashMap.hpp:28-34 | a node is three handles of eight bytes: key, value, next |
| FileFormats.InfoBytes | src/FileStrHashMap/FileStrHashMap.hpp:14-20 | the map info has the bucket handle at 16, their number at 24 and the number of keys at 32 |
| FileFormats.BucketBytes | src/FileStrHashMap/FileStrHashMap.hpp:479-537 | bucket i lies at 8 * i |
| FileFormats.HashExamples | src/FileStrHashMap/FileStrHashMap.hpp:539-555 | the hashes of five keys, a char below zero at either parity among them |
| HashIndex.EmptyMapOk | src/FileStrHashMap/FileStrHashMap.hpp:503-537 | the two blocks that CreateMap writes are an empty map |
| HashOk.OverwriteOk | src/FileStrHashMap/FileStrHashMap.hpp:139-178 | replacing a value block keeps chains, roles and contents consistent |
| HashOk.InsertFirstOk | src/FileStrHashMap/FileStrHashMap.hpp:196-224 | so does a new head of a bucket |
| HashOk.InsertLastOk | src/FileStrHashMap/FileStrHashMap.hpp:196-224 | so does a new last node of a chain |
| HashOk.DeleteFirstOk | src/FileStrHashMap/FileStrHashMap.hpp:290-375 | so does taking the first node out |
| HashOk.DeleteInnerOk | src/FileStrHashMap/FileStrHashMap.hpp:290-375 | so does taking a later node out behind its predecessor |
| HashMap.FileHashMap.constructor | src/FileStrHashMap/FileStrHashMap.hpp:91-120 | a file that holds a map opens as that map and is not changed; any other becomes an empty map |
| HashMap.FileHashMap.ApHash | src/FileStrHashMap/FileStrHashMap.hpp:539-555 | the hash of the whole key on 32-bit words, reduced to a bucket |
| HashMap.FileHashMap.Find | src/FileStrHashMap/FileStrHashMap.hpp:229-288 | the first sizeOfValue bytes of the value of the key, and nothing for an absent key |
| HashMap.FileHashMap.Overwrite | src/FileStrHashMap/FileStrHashMap.hpp:139-178 | the key's value is replaced, nothing else |
| HashMap.FileHashMap.AddFirst | src/FileStrHashMap/FileStrHashMap.hpp:196-224 | a new key in an empty bucket |
| HashMap.FileHashMap.AddLast | src/FileStrHashMap/FileStrHashMap.hpp:196-224 | a new key behind the last node of a chain |
| HashMap.FileHashMap.Add | src/FileStrHashMap/FileStrHashMap.hpp:122-225 | the map with that key set to that value |
| HashMap.FileHashMap.DelFirst | src/FileStrHashMap/FileStrHashMap.hpp:290-375 | the first key of a bucket goes |
| HashMap.FileHashMap.DelInner | src/FileStrHashMap/FileStrHashMap.hpp:290-375 | a later key of a bucket goes |
| HashMap.FileHashMap.Del | src/FileStrHashMap/FileStrHashMap.hpp:290-375 | the map without that key, whether or not it was there |
| HashMap.FileHashMap.Size | src/FileStrHashMap/FileStrHashMap.hpp:378-383 | the number of keys |
| HashMap.FileHashMap.LoadMap | src/FileStrHashMap/FileStrHashMap.hpp:479-501 | exactly a file with the map's mark loads, and as the map it holds |
| HashMap.FileHashMap.CreateMap | src/FileStrHashMap/FileStrHashMap.hpp:503-537 | an empty map in a storage of known size |
| HashMap.FileHashMap.EmptyLeavesNothing | src/FileStrHashMap/FileStrHashMap.hpp:290-375 | an empty map, however it came to be empty, takes the room it took just after CreateMap |
| HashMap.FileHashMap.Reload | src/FileStrHashMap/FileStrHashMap.hpp:91-120 | closing, opening and loading again gives the same map |
| HashMap.FileHashMap.Perform | src/FileStrHashMap/FileStrHashMap.hpp:91-375 | any run of add, del and reopening refines the same run on a finite map, and leaks nothing if it empties it |
| HashIterator.MapIterator.ReadBlock | src/FileStrHashMap/FileStrHashMap.hpp:426-476 | the key and value of the entry at a place of the walk, and the place behind it |
| HashIterator.MapIterator.Begin | src/FileStrHashMap/FileStrHashMap.hpp:385-419 | the first entry of the walk |
| HashIterator.MapIterator.Next | src/FileStrHashMap/FileStrHashMap.hpp:59-66 | the next one, over the end of a chain to the next bucket in use |
| HashIterator.MapIterator.OrderKeys | src/FileStrHashMap/FileStrHashMap.hpp:385-476 | the order of the walk has every key of the map once, bucket by bucket |
| HashIterator.MapIterator.Walk | src/FileStrHashMap/FileStrHashMap.hpp:59-74 | begin() to end() meets each entry at most once with its value, and all of them if and only if no entry looks like the end |
| HashIterator.MissedEntry | src/FileStrHashMap/FileStrHashMap.hpp:59-74 | a map of one entry whose walk meets none |
| BufferLists.BufferList.constructor | src/BufferList/BufferList.cpp:27-44 | an empty queue |
| BufferLists.BufferList.PushBack | src/BufferList/BufferList.cpp:145-199 | a record that fits is enqueued whole, prefix and payload wrapping where they must; another is refused and nothing changes; and exactly when both unsigned tests wrap and the buffer is overrun |
| BufferLists.BufferList.ReadLen | src/BufferList/BufferList.cpp:56-97 | the prefix, wrapped or not, is the length of the front record |
| BufferLists.BufferList.PopFront | src/BufferList/BufferList.cpp:46-143 | the front record comes out whole; consistency survives if and only if the caller's buffer is large enough |
| BufferLists.TooSmall | src/BufferList/BufferList.cpp:100-112 | a record of two bytes and a buffer of one: the record stays, and the list counts four bytes too much room |
| Rings.WrittenRing | src/BufferList/BufferList.cpp:145-199 | bytes written where a ring's contents end extend the contents and spoil none of them |
| ArrayLists.ArrayList.constructor | src/ArrayList/ArrayList.hpp:16-23 | an empty queue of that capacity |
| ArrayLists.ArrayList.Full | src/ArrayList/ArrayList.hpp:60-70 | true if and only if the queue is full, except that it is never true while beginIndex is -1 |
| ArrayLists.ArrayList.Empty | src/ArrayList/ArrayList.hpp:72-82 | true if and only if the queue is empty |
| ArrayLists.ArrayList.Size | src/ArrayList/ArrayList.hpp:84-95 | the number of elements in every position of the indexes |
| ArrayLists.ArrayList.PushBack | src/ArrayList/ArrayList.hpp:97-111 | enqueues or refuses, and exactly when it overruns the queue |
| ArrayLists.ArrayList.PopFront | src/ArrayList/ArrayList.hpp:113-126 | dequeues the oldest, and brings beginIndex back into the ring |
| ArrayLists.ArrayList.PushAll | src/ArrayList/ArrayList.hpp:128-183 | from every state: as many as there is room for, in order, and how many are left over, in every wrap case; with beginIndex at -1 if and only if all of them fit, else an overrun or a copy of negative size |
| ArrayLists.ArrayList.PopAll | src/ArrayList/ArrayList.hpp:185-204 | everything, in order; the ring stays proper if and only if endIndex is not 0 |
| ArrayLists.Overrun | src/ArrayList/ArrayList.hpp:201-201 | four calls after which a list for one element has been overrun |
| ArrayLists.OverrunAll | src/ArrayList/ArrayList.hpp:146-181 | a list for one element, emptied by pop_all: push_all of one is right, of two overruns it, of three copies a negative size |
| SlotProtocol.InitOk | src/IPC/MSGQueueForProc.hpp:184-215 | the initialised queues satisfy the invariant |
| SlotProtocol.StepConserves | src/IPC/MSGQueueForProc.hpp:237-300 | every step keeps each slot number in exactly one place |
| SlotProtocol.StepKeeps | src/IPC/MSGQueueForProc.hpp:237-300 | every step of every process keeps the whole invariant, partial copies included |
| SlotProtocol.Exclusive | src/IPC/MSGQueueForProc.hpp:237-300 | a slot in one process's hands is in no queue and in no other process's |
| SlotProtocol.SentIsGiven | src/IPC/MSGQueueForProc.hpp:279-300 | what has been sent is, message by message and in order, the data with which each sender's latest slot was taken before it handed it over, told from the steps alone |
| SlotProtocol.EveryInterleaving | src/IPC/MSGQueueForProc.hpp:184-300 | in every interleaving: slots conserved, hand-over never blocked, the messages sent are those that the callers of send gave, whole; every message taken is in one receiver's hands or delivered, none twice, and they are taken in the order sent; each delivery is as long as the block size or the length asked for, whichever is less, and begins with the whole message or is that much of it |
| SlotProtocol.SomethingEnabled | src/IPC/MSGQueueForProc.hpp:237-300 | nothing is ever stuck: a process that holds a slot can always go on, and when none does, any process can send or receive |
| JsonReader.Reader.SkipWhitespaceAndComments | src/Json/tests/rapidjson/reader.h:708-734 | blanks and, with the flag, both kinds of comments |
| JsonReader.Reader.ParseHex4 | src/Json/tests/rapidjson/reader.h:903-922 | four hexadecimal digits as a number |
| JsonReader.Reader.ParseStringToStream | src/Json/tests/rapidjson/reader.h:987-1054 | a string with its escapes and surrogate pairs resolved, or the right error |
| JsonReader.Reader.ParseString | src/Json/tests/rapidjson/reader.h:956-985 | and the event for it, a key or a value |
| JsonReader.Reader.ParseNumber | src/Json/tests/rapidjson/reader.h:1453-1733 | the extent of the literal and its event |
| JsonReader.Reader.ParseObject | src/Json/tests/rapidjson/reader.h:737-803 | the events of an object, its member count and the flag for a comma before the end |
| JsonReader.Reader.ParseArray | src/Json/tests/rapidjson/reader.h:805-851 | the same for an array |
| JsonReader.Reader.ParseValue | src/Json/tests/rapidjson/reader.h:1734-1749 | the choice by the first character |
| JsonReader.Reader.Parse | src/Json/tests/rapidjson/reader.h:556-594 | a whole document: events, result and where it ends |
| JsonReader.MoveFramed | src/Json/tests/rapidjson/reader.h:1994-2145 | a move that the table allows never pops an empty stack and keeps the stack's return states right |
| JsonReader.Reader.TransitMove | src/Json/tests/rapidjson/reader.h:1994-2145 | Transit makes that move |
| JsonReader.Reader.IterativeParse | src/Json/tests/rapidjson/reader.h:2175-2208 | the pushdown loop computes the pushdown function of the text |
| JsonPushdown.Agree | src/Json/tests/rapidjson/reader.h:737-851 | on every text, with every flag and handler, both parsers emit the same events with the same counts and give the same result, but for one error code at one kind of root |
| JsonGaps.GapRead | src/Json/tests/rapidjson/reader.h:708-734 | every run of the four white space characters and, with the flag, of comments closed, ended by their line or by the text is skipped up to what follows |
| JsonGaps.GapSeen | src/Json/tests/rapidjson/reader.h:708-734 | what is skipped is such a run, and nothing more of it follows |
| JsonNumbers.NumberIff | src/Json/tests/rapidjson/reader.h:1453-1733 | a text is read whole as one number if and only if it is a sign, an integer part, a fraction and an exponent after section 2.4 of RFC 4627, and not too big for a double |
| JsonNumbers.IntegerIsNumber | src/Json/tests/rapidjson/reader.h:1467-1559 | the integer literals of IntLiteral are literals of that grammar |
| JsonStrings.StringRead | src/Json/tests/rapidjson/reader.h:987-1054 | every string of section 2.5 of RFC 4627 is read to its closing quote, each piece as the bytes it stands for |
| JsonStrings.StringSeen | src/Json/tests/rapidjson/reader.h:987-1054 | what is read as a string is one of these |
| JsonStrings.PairDecodes | src/Json/tests/rapidjson/reader.h:1016-1030 | any code point beyond 16 bits, written as two escapes with digits of either case, is read as four bytes that decode to it |
| JsonStrings.UnitDecodes | src/Json/tests/rapidjson/reader.h:1016-1030 | any other code point that is no surrogate, written as one escape, is read as bytes that decode to it |
| JsonStrings.DecodeIsArithmetic | src/Json/tests/rapidjson/encodings.h:145-176 | what Decode accepts is the number made of the bits of its bytes, after section 3 of RFC 3629 |
| JsonSyntax.LastEvent | src/Json/tests/rapidjson/reader.h:805-851 | the event of an array's end has the number of its elements, in 32 bits |
| JsonAccepts.ValueReads | src/Json/tests/rapidjson/reader.h:737-851 | every value of the grammar, with gaps between its tokens, is read to its end and gives the events of its syntax tree |
| JsonSound.ValueSeen | src/Json/tests/rapidjson/reader.h:737-851 | what is read as a value is the text of a syntax tree, whose events these are |
| JsonSound.DocumentReads | src/Json/tests/rapidjson/reader.h:556-594 | every well-formed document is taken to its end, with the events of its tree |
| JsonSound.DocumentIff | src/Json/tests/rapidjson/reader.h:556-594 | a text is taken if and only if it is a well-formed document whose events the handler accepts |
| JsonSound.FirstSeen | src/Json/tests/rapidjson/reader.h:556-594 | whatever is taken, with the flag to stop when done as well, begins with a gap and a value, and its events are that value's |
| JsonSound.PrefixReads | src/Json/tests/rapidjson/reader.h:556-594 | with that flag the value at the beginning is taken, whatever follows that could not belong to a number |
| JsonErrors.TextFails | src/Json/tests/rapidjson/reader.h:987-1054 | a string is refused behind well-formed pieces, at a place where none stands, and the code says what is wrong there |
| JsonErrors.TextRefused | src/Json/tests/rapidjson/reader.h:987-1054 | and wherever that is so, it is refused with that code |
| JsonErrors.NumberFails | src/Json/tests/rapidjson/reader.h:1453-1733 | why a number is refused: no digit, none behind a point, none behind an e, or too big |
| JsonErrors.SkipFails | src/Json/tests/rapidjson/reader.h:708-734 | skipping fails at a comment that nothing closes, behind a gap |
| JsonFailures.DocumentFails | src/Json/tests/rapidjson/reader.h:556-851 | every text refused is stuck, behind well-formed parts, as its error code says |
| JsonWriter.Writer.constructor | src/Json/tests/rapidjson/writer.h:101-107 | a writer that has written nothing |
| JsonWriter.Writer.Prefix | src/Json/tests/rapidjson/writer.h:472-490 | the comma or colon due, and the value counted |
| JsonWriter.Writer.PutString | src/Json/tests/rapidjson/writer.h:376-448 | the quoted and escaped string |
| JsonWriter.Writer.Null | src/Json/tests/rapidjson/writer.h:181-181 | one more call of the run of calls that the output and the level stack are those of |
| JsonWriter.Writer.Bool | src/Json/tests/rapidjson/writer.h:182-182 | the same |
| JsonWriter.Writer.Number | src/Json/tests/rapidjson/writer.h:183-193 | the same |
| JsonWriter.Writer.RawNumber | src/Json/tests/rapidjson/writer.h:195-200 | the same |
| JsonWriter.Writer.String | src/Json/tests/rapidjson/writer.h:202-207 | the same |
| JsonWriter.Writer.Key | src/Json/tests/rapidjson/writer.h:221-221 | the same |
| JsonWriter.Writer.StartObject | src/Json/tests/rapidjson/writer.h:215-219 | the same |
| JsonWriter.Writer.EndObject | src/Json/tests/rapidjson/writer.h:229-237 | the same |
| JsonWriter.Writer.StartArray | src/Json/tests/rapidjson/writer.h:239-243 | the same |
| JsonWriter.Writer.EndArray | src/Json/tests/rapidjson/writer.h:245-251 | the same |
| JsonLexBack.EscapesAre | src/Json/tests/rapidjson/writer.h:376-448 | how each of the 256 bytes is written in a string |
| JsonLexBack.TextReads | src/Json/tests/rapidjson/reader.h:987-1054 | any bytes, escaped by the writer, read back as themselves |
| JsonLexBack.NumberReads | src/Json/tests/rapidjson/reader.h:1453-1733 | a number literal of RFC 4627 reads back up to its end before whatever the writer puts behind it |
| JsonRoundTrip.RoundTrip | src/Json/tests/rapidjson/writer.h:181-257 | every complete run of a writer is accepted by the reader to its end and gives back the events of the run |
| JsonEcho.AcceptedIsWritable | src/Json/tests/rapidjson/writer.h:181-257 | the events of every accepted text are a complete run that breaks no assertion of the writer |
| JsonEcho.ReadWriteRead | src/Json/tests/rapidjson/reader.h:556-594 | reading, writing and reading again gives the same events |
| Utf8.ValidateIsGrammar | src/Json/tests/rapidjson/encodings.h:178-202 | Validate takes exactly the characters of the grammar in section 4 of RFC 3629 |
| Utf8Points.EncodedIsCharacter | src/Json/tests/rapidjson/encodings.h:101-121 | Encode writes a character of that grammar if and only if the code point is no surrogate |
| Utf8Points.DecodesEncoded | src/Json/tests/rapidjson/encodings.h:145-176 | Decode gives back every code point that is no surrogate, wherever its sequence stands |
| Utf8Points.EncodesDecoded | src/Json/tests/rapidjson/encodings.h:145-176 | a sequence that Decode accepts is the one that Encode writes for its code point |
| JsonPointers.ValidateByMasks | src/Json/tests/rapidjson/encodings.h:178-220 | the code's masks on the range table come to the same |
| JsonPointers.JsonPointer.PercentDecode | src/Json/tests/rapidjson/pointer.h:1034-1081 | a percent-encoded sequence, decoded into the name buffer within its bounds |
| JsonPointers.JsonPointer.ParseName | src/Json/tests/rapidjson/pointer.h:897-958 | one name, with its escapes, into the buffer; the write cursor stays behind the read cursor |
| JsonPointers.JsonPointer.Parse | src/Json/tests/rapidjson/pointer.h:854-992 | the tokens of the text, stored apart in the buffer, or the code and offset of the first error; the buffer bound asserted at line 981 holds |
| JsonPointers.JsonPointer.Stringify | src/Json/tests/rapidjson/pointer.h:994-1032 | the string form, or the URI fragment form where there is one |
| PointerText.StringifiedParses | src/Json/tests/rapidjson/pointer.h:862-1030 | whatever the names, what Stringify writes reads back as them, each with its index |
| PointerText.RoundTrip | src/Json/tests/rapidjson/pointer.h:862-1032 | for every pointer Parse accepts, both forms read back as an equal pointer |
| PointerText.StringFormExists | src/Json/tests/rapidjson/pointer.h:994-1030 | every name has a string form |
| PointerText.UriFormExists | src/Json/tests/rapidjson/pointer.h:1019-1024 | names have a URI form if and only if they are all UTF-8 |
| PointerForms.PointerRead | src/Json/tests/rapidjson/pointer.h:854-992 | every pointer in the form of section 3 or section 6 of RFC 6901 is taken, for the names it stands for, each with its index |
| PointerForms.PointerSeen | src/Json/tests/rapidjson/pointer.h:854-992 | what is taken is such a pointer |
| PointerForms.PointerRefused | src/Json/tests/rapidjson/pointer.h:854-992 | a text is refused with a code at an offset if and only if it does not begin with a solidus there, or a name is stuck there behind well-formed ones: at a character that must be percent-encoded, a wrong encoding, or a tilde without 0 or 1 |
| PointerForms.UnreservedStays | src/Json/tests/rapidjson/pointer.h:850-852 | a name of letters, digits, '-', '.' and '_' stands for itself in either form, both ways |
| PointerForms.StringifiedIs | src/Json/tests/rapidjson/pointer.h:994-1032 | what is written, byte by byte: ~0, ~1, the unreserved characters of section 2.3 of RFC 3986 as they are, every other byte of a fragment as a triplet; and no fragment if and only if a name is not UTF-8 |
| PointerIndex.IndexIs | src/Json/tests/rapidjson/pointer.h:948-977 | the index of a name is its number cut to 32 bits, unless the name is no number or the cut number becomes smaller at some digit |
| PointerIndex.SmallIndex | src/Json/tests/rapidjson/pointer.h:948-977 | a number below 2^32 is the index |
| PointerIndex.LargeIndex | src/Json/tests/rapidjson/pointer.h:964-977 | a number from 2^32 on is told from an index if and only if the cut number becomes smaller at some digit, or ends as the mark for none |
| PointerIndex.MissedWrap | src/Json/tests/rapidjson/pointer.h:964-977 | 10000000000 gets the index 1410065408 |
| BasicRead.NameReadIff | src/Basic/Json.hpp:278-323 | getKey reads a name whole, over spaces and carriage returns behind it, if and only if no colon in it has a quote, or nothing, before it |
| BasicRead.StringReadIff | src/Basic/Json.hpp:334-381 | the same for strings, with blanks behind them, and with commas and closing characters, which plain strings do not hold |
| BasicLayout.Compact | src/Basic/Json.hpp:576-805 | every tree with readable names, strings and numbers has such a text |
| BasicRun.ScalarReads | src/Basic/Json.hpp:325-499 | every readable scalar is read with the blanks behind it: numbers with and without sign and point, both spellings of the truth values, strings |
| BasicRun.TreeRuns | src/Basic/Json.hpp:615-803 | from behind the opening character of any container, inside any others and with any blanks that may stand in it, the loop with the stack comes to its end having filled in exactly its contents |
| BasicRun.Parses | src/Basic/Json.hpp:576-805 | parse of the text of any readable document, with runs of spaces, line feeds and carriage returns wherever the parser skips them, ends with 1 and the table of that document, the same for every layout |
| BasicTree.KeyInjective | src/Basic/Json.hpp:136-194 | container id and name can be told from the joined key |
| BasicTree.FillHolds | src/Basic/Json.hpp:663-798 | with ids that do not wrap, the table filled in for a tree stands for that tree, and the entries and nodes of everything else are as they were |
| BasicIds.FillRenamed | src/Basic/Json.hpp:663-798 | starting at another id, and wrapping modulo 2^32, gives the same table with the ids renamed |
| BasicIds.FindRenamed | src/Basic/Json.hpp:807-882 | and every path leads to the same node in both |
| BasicTree.LookupRefines | src/Basic/Json.hpp:807-882 | one step through the table leads on exactly where the tree goes on |
| BasicTree.FindRefines | src/Basic/Json.hpp:807-882 | so does any path |
| BasicRun.ParsedRefines | src/Basic/Json.hpp:576-882 | parsing any such text and following any path leads to a node if and only if the document has one there, and the node is the right one, whatever ids the parser has used up and though they wrap within the document |
| BasicRun.FewIds | src/Basic/Json.hpp:576-605 | a document takes at most half as many ids as its text has characters, so never 2^32 |
| BasicRun.PlainRefines | src/Basic/Json.hpp:576-882 | the same for every document whose names and strings hold no quote, colon, comma and closing bracket or brace |
| BasicRun.ColonThrows | src/Basic/Json.hpp:278-323 | a document whose one name is a colon, on which parse throws |
| BasicRun.CommaCrashes | src/Basic/Json.hpp:334-381 | a document whose one string is a comma, on which parse reads through a null pointer |
| BasicJson.ReadKey | src/Basic/Json.hpp:278-323 | the loop of getKey |
| BasicJson.ReadString | src/Basic/Json.hpp:334-381 | the string loop of getValue |
| BasicJson.ReadNumber | src/Basic/Json.hpp:382-447 | its number loop |
| BasicJson.Json.ReadValue | src/Basic/Json.hpp:325-543 | getValue, with the id a container takes |
| BasicJson.Json.ReadMembers | src/Basic/Json.hpp:663-716 | the loop over members goes where the function of the text goes, and builds what it builds |
| BasicJson.Json.ReadElements | src/Basic/Json.hpp:760-798 | the same for elements |
| BasicJson.Json.CloseContainer | src/Basic/Json.hpp:623-662 | back to the container around, over a comma, or to the end of the document |
| BasicJson.Json.Parse | src/Basic/Json.hpp:576-805 | parse: its result and the whole document it leaves, on any text, malformed ones included, but for what atoi does with integers outside 32 bits |
| BasicJson.Json.IndexName | src/Basic/Json.hpp:807-833 | operator[] with a name: found, added as a null node, or refused |
| BasicJson.Json.IndexNumber | src/Basic/Json.hpp:860-882 | operator[] with a number: found, appended, or refused |
| BasicJson.Json.Walk | src/Basic/Json.hpp:807-882 | a chain of operator[] leads where the table leads and changes nothing |
| BasicJson.Json.ReadBack | src/Basic/Json.hpp:576-882 | parsing a document, however laid out, and asking the object for any path in it gives what is there |
| StrMaps.JsonStrMap.ApHash | src/Basic/Json.hpp:92-120 | the hash of the two key parts |
| StrMaps.JsonStrMap.Find | src/Basic/Json.hpp:136-155 | the data of the joined key, or nothing |
| StrMaps.JsonStrMap.Append | src/Basic/Json.hpp:158-194 | a new node at the end of its linked list |
| StrMaps.JsonStrMap.Add | src/Basic/Json.hpp:158-194 | the map with that joined key set to that data |
| StrMaps.JsonStrMap.Free | src/Basic/Json.hpp:195-199 | an empty map |
| JsonBuffers.JsonBuffer.Malloc | src/Basic/Json.hpp:48-75 | a piece within one block and apart from every piece handed out before; when a new block is taken, and how large |
| JsonBuffers.JsonBuffer.Free | src/Basic/Json.hpp:38-46 | all blocks go back |
| DigitGeneration.CountDecimalDigit32 | src/Json/tests/rapidjson/internal/dtoa.h:44-58 | the number of decimal digits |
| DigitGeneration.GrisuRound | src/Json/tests/rapidjson/internal/dtoa.h:35-42 | of all ways to lower the last digit within delta, the one closest to the value; never below '0', and nothing wraps |
| DigitGeneration.IntegralDigits | src/Json/tests/rapidjson/internal/dtoa.h:60-92 | the integral loop: digits in the interval, the closest of their weight and none shorter, or the exact number so far |
| DigitGeneration.FractionDigits | src/Json/tests/rapidjson/internal/dtoa.h:94-109 | the fraction loop ends within nineteen digits, in the interval, none shorter, and the scaled interval never wraps |
| DigitGeneration.DigitGen | src/Json/tests/rapidjson/internal/dtoa.h:60-110 | the digits generated, at their scale, lie between the upper bound less delta and the upper bound; of all with that exponent they are the closest to the bound passed on; no decimal with a greater exponent is there; and the loop stops exactly where what is left is small enough |
| DigitGeneration.Shortest | src/Json/tests/rapidjson/internal/dtoa.h:60-110 | no decimal with fewer digits, whatever its exponent, lies in the interval, its lower end apart in the fraction loop |
| DigitGeneration.Nearest | src/Json/tests/rapidjson/internal/dtoa.h:35-110 | the result is the closest to the value of all decimals with its exponent in the interval, for integral numbers and, if the value is in the interval, up to the eighth digit of the fraction |
| DigitGeneration.NeverLowered | src/Json/tests/rapidjson/internal/dtoa.h:103-107 | from the ninth digit of the fraction on, it is the greatest of them instead |
| DigitGeneration.PassedOver | src/Json/tests/rapidjson/internal/dtoa.h:95-109 | an interval whose lower end is 1.5, for which the result has three digits or more |
| BigIntegers.MulAdd64 | src/Json/tests/rapidjson/internal/biginteger.h:248-277 | the portable product by halves: hi * 2^64 + lo = a * b + k |
| BigIntegers.BigInteger.FromWord | src/Json/tests/rapidjson/internal/biginteger.h:36-38 | a number of one limb |
| BigIntegers.BigInteger.FromDecimals | src/Json/tests/rapidjson/internal/biginteger.h:40-53 | the number that the digits denote, leading zeros included, with no leading zero limb |
| BigIntegers.BigInteger.AppendDecimal64 | src/Json/tests/rapidjson/internal/biginteger.h:224-246 | up to nineteen more digits, and exactly when the shift by their number overruns the array |
| BigIntegers.BigInteger.AddSmall | src/Json/tests/rapidjson/internal/biginteger.h:70-85 | adds, with the carry running up |
| BigIntegers.BigInteger.MulWord | src/Json/tests/rapidjson/internal/biginteger.h:87-103 | multiplies by a 64-bit number |
| BigIntegers.BigInteger.MulHalf | src/Json/tests/rapidjson/internal/biginteger.h:105-126 | multiplies by a 32-bit number, by halves |
| BigIntegers.BigInteger.ShiftLeft | src/Json/tests/rapidjson/internal/biginteger.h:128-152 | multiplies by 2^shift, and exactly when it writes one limb behind the array |
| BigIntegers.LastLimb | src/Json/tests/rapidjson/internal/biginteger.h:128-152 | 1 shifted to the last limb and then by one bit: the limb behind the array is written |
| BigIntegers.BigInteger.MultiplyPow5 | src/Json/tests/rapidjson/internal/biginteger.h:162-182 | multiplies by 5^exp through the powers 5^27 and 5^13 and the table |
| BigIntegers.BigInteger.Compare | src/Json/tests/rapidjson/internal/biginteger.h:208-218 | the order of the numbers |
| BigIntegers.BigInteger.Difference | src/Json/tests/rapidjson/internal/biginteger.h:186-205 | which number is smaller, and the exact difference if and only if no borrow is lost |
| Borrows.DiffersLast | src/Json/tests/rapidjson/internal/biginteger.h:193-202 | what the loop has at its end is the difference if and only if no limb of all ones was borrowed from |
| Borrows.LostExample | src/Json/tests/rapidjson/internal/biginteger.h:195-198 | three limbs less two that lose a borrow |
| IntLiteral.Accumulate | src/Json/tests/rapidjson/reader.h:1467-1559 | a digit loop takes digits exactly as long as the number fits its guard, and its accumulator never wraps |
| IntLiteral.ParseInteger | src/Json/tests/rapidjson/reader.h:1467-1728 | an integer literal of any length is reported exactly, in 32 bits if and only if it fits, else in 64 bits if and only if it fits, else as a double |

## Left out

- Errors of open, seek, read, write and malloc, and the rollback at src/FileStorage/FileStorage.hpp:399, which reads a block not filled in: error plumbing.
- Storage.FileStorage.Allocate: requires the file to stay below 4 GiB, because Free cannot give back what lies beyond (BlockRuns.FreeWidth).
- Storage.FileStorage.constructor: requires the headers of a file with the check info to form a chain, each block where the one before it ends; elsewhere the source reads on from whatever it finds.
- Storage.FileStorage.LoadStorageFile: requires such a chain too.
- StorageRuns.Perform: requires room below 4 GiB, and passes over reads and writes behind the end of their block (Storage.FileStorage.Write says what those do).
- HashMap.FileHashMap.constructor: requires a file with the map's mark to hold a consistent map; what the source makes of any other is not stated.
- HashMap.FileHashMap.LoadMap: requires that too.
- HashMap.FileHashMap.Add: requires room below 4 GiB, and lengths are not cut to the source's int.
- HashMap.FileHashMap.Overwrite: requires that room too.
- HashMap.FileHashMap.AddFirst: requires that room too.
- HashMap.FileHashMap.AddLast: requires that room too.
- HashMap.FileHashMap.Perform: requires that room for all its additions.
- HashIterator.MapIterator.Walk: the map does not change during the walk, and the iterator is the map's own.
- BufferLists.BufferList.constructor: capacities below 2^31, so that no index sum wraps.
- ArrayLists.ArrayList.constructor: elements are values of any type, and sizes do not reach 2^31.
- SlotProtocol.EveryInterleaving: opening, closing, the lock token, signals and the kernel's own limits; the model starts from the initialised queues. Waiting is a step that is not enabled; that the scheduler ever takes an enabled step is not stated.
- JsonReader.Reader.ParseNumber: the value of a literal with a fraction or an exponent; whether it is too large is a parameter. Error offsets, in-situ parsing and the flags for encoding validation and NaN are not modelled.
- JsonWriter.Writer.Number: the text of a number is given; how an integer or a double is printed is not modelled.
- JsonSound.PrefixReads: with the flag to stop when done, which characters may stand behind a number that could not go on with them is stated one way only.
- JsonFailures.DocumentFails: for a handler that goes on, and one way only, since a text can be stuck in more than one way; error offsets are left out here too.
- BasicJson.Json.ReadValue: the literal null, since the source compares the pointer and not the text, and the values of numbers with a point, which are kept as text.
- BasicJson.ReadNumber: an integer outside 32 bits keeps its value, where the source's atoi overflows without a defined result.
- BasicJson.Json.Parse: integers outside 32 bits likewise; nodes are known by number, not by address, and a reference through a null pointer is a result of its own.
- BasicJson.Json.Index: the form with std::string, which does not descend when the key is found.
- StrMaps.JsonStrMap.Find: the first key part has four bytes, as in every call; the hash depends on where the key is split.
- BasicTree.FillHolds: requires ids that do not wrap; BasicRun.ParsedRefines carries it to those that do.
- IntLiteral.ParseInteger: the value of a literal reported as a double.
- BigIntegers.BigInteger.FromDecimals: requires the number to fit one limb below the capacity, which AppendDecimal64 needs to shift without an overrun.
- BigIntegers.BigInteger.Difference: the result goes to another object than either number, as in its one use.
- DigitGeneration.DigitGen: cached powers and the layout of the digits are not modelled.
- The document object model, SIMD paths, other encodings, and the older copies of the repository's own parser.
- The B-tree and its storage, the thread queue, sockets, the event server, logging, benchmarks and small tools: unfinished, I/O or easy.

# Verified models of five Abseil components

This project models the hardest logic of five parts of Abseil and proves what those parts promise.
It needs Dafny 4.11 and nothing else; `dafny verify dfyconfig.toml` checks all of it.

* **CRC32C** (`Bits`, `CrcSpec`, `Crc32c`, `CrcParity`, `CrcPublished`, `CrcPolynomial`, `CrcTables`,
  `CrcCarryless`, `CrcReverse`, `CrcSwath`, `CrcEngine`). The reference is polynomial long division over GF(2) by the generator of
  section 12.1 of RFC 3720. On top of it stand the functions of `crc32c.cc`, which join, cut and extend
  checksums without the data, and the whole table-driven engine of `crc.cc`: the loops that fill its
  tables, the four interleaved registers of `Extend`, the multiplication by table of `ExtendByZeroes`
  and the bit-reversed run of `UnextendByZeroes`. The engine is proved to compute exactly what the
  checksum functions are specified with. `CrcPublished` pins the generator as a number and the checksum of a
  published message; `CrcParity` proves that every error in an odd number of bits is detected. Machine words are sequences of bits, least significant first,
  because the code only xors, shifts and masks them.
* **`call_once`** (`CallOnce`). Any number of threads, each at a program counter, on one control word
  that is kept as the history of the messages written to it. Loads may be stale, every message and
  thread has a view, and the memory orders in the code decide how views travel. The steps are those of
  `call_once`, `CallOnceImpl`, `SpinLockWait` and the futex calls under it.
* **`chunked_queue`** (`QueueLayout`, `QueuePlaces`, `QueueGrowth`, `ChunkedQueue`, `QueueRuns`). Blocks
  are heap objects with real arrays of slots, a slot is raw or live, and an allocator keeps the set of
  blocks that are out and counts the elements constructed and destroyed. Constructing needs a raw slot,
  destroying a live one, and a block can be given back only once and only when no slot in it is live.
  `QueueLayout` and `QueuePlaces` describe storage as values; the class `ChunkedQueue` ties the heap to
  them.
* **`linked_hash_map` and `linked_hash_set`** (`LinkedNodes`, `LinkedMap`, `LinkedSet`, `LinkedHistory`,
  `LinkedPast`, `LinkedRuns`, `LinkedChronicle`). List nodes have identity; the hash index is a finite map from keys to
  nodes. An iterator is a node, or null for the end. `LinkedHistory` reads off a log of operations when each
  element got its place, and shows that iteration order is exactly that; `LinkedPast` says the same by the
  places of the log alone, without replaying it; `LinkedRuns` runs two maps and a
  node handle against plain sequences; `LinkedChronicle` writes such a log into one ledger per map, key by
  key, and shows that both maps iterate in the order of their ledgers.
* **`StripContentBetweenTags`** (`StripTags`). The rewriting loop of `create_lts.py` with Python's `find`
  and `replace`.

`Options` holds the one datatype that several modules share.

## Where the code and its documentation differ

* `absl/container/chunked_queue.h:84-85` says that a new block at least doubles the queue. That fails once
  the block size is capped: `DoublingFails` is an instance that two pushes reach, and `DoublesExactlyWhen` gives the exact
  condition, that the queue has no more slots than the maximum block size.
* `absl/container/chunked_queue.h:708` gives the elements of the last of several blocks as those from the
  tail cursor to the limit. The code keeps them between the start of the block and the tail cursor, and so
  does the model.
* `absl/crc/internal/crc.cc:22-25` says that the input is prefixed with a set bit. The code does no such
  thing: the checksum functions complement the first 32 bits instead, as `ChecksumIsRemainder` states, and
  `NoPrefixBit` gives inputs on which neither the engine nor the checksum is what a prefix would make it.
* Deleting all copies of a tagged region at once (`create_lts.py:80`) is not the same as deleting one region
  at a time, even where no deletion joins text: a begin tag between two copies is enough
  (`NestedTagsDisagree`). `StrippingAgrees` requires of every text that deletions of regions can leave that
  no begin tag starts outside its remaining regions and no copy of a region starts inside one. That can be
  read off the text beforehand, and `StrippingAgreesIfMarked` gives a condition that one pass over the text
  decides.
* The loop of `create_lts.py` does not end if both tags are empty (`EmptyTagsLoop`), and ends in the
  exception if the begin tag alone is empty.

## Model

| member | source | states |
|---|---|---|
| CrcSpec.FeedAllIsRemainder | absl/crc/internal/crc.cc:15-18 | For every generator, register and message, shifting the message through the register gives the remainder of long division of message and register. |
| CrcSpec.FeedAllSuperposes | absl/crc/internal/crc.cc:126-128 | Register and message contribute to the result independently of each other. |
| CrcSpec.UnstepsAfterSteps | absl/crc/internal/crc.cc:213-226 | Any number of backward steps undoes as many forward steps, for a generator with a constant term. |
| CrcSpec.StepsAfterUnsteps | absl/crc/internal/crc.cc:213-226 | And the other way round. |
| CrcSpec.StepsSplit | absl/crc/internal/crc.cc:210-212 | The low bits of a register and the rest can be advanced apart, which is what a lookup by the low byte relies on. |
| Crc32c.ChecksumIsRemainder | absl/crc/crc32c.h:151-153 | The checksum is the complemented remainder of the message with its first 32 bits complemented and 32 zero bits appended. |
| Crc32c.ExtendResumes | absl/crc/crc32c.cc:49-54 | Extending by one string and then by another is extending by both joined, for every starting value. |
| Crc32c.ConcatExtends | absl/crc/crc32c.cc:64-68 | Concatenating any value with the checksum of data is extending the value by the data, although the complements are skipped. |
| Crc32c.ConcatCorrect | absl/crc/crc32c.cc:64-68 | Concatenating the checksums of two strings gives the checksum of the joined string. |
| Crc32c.ConcatAssociates | absl/crc/crc32c.cc:64-68 | Concatenation of checksums with lengths is associative, for all 32-bit values. |
| Crc32c.RemovePrefixCorrect | absl/crc/crc32c.cc:70-72 | From the checksums of a string and its prefix comes the checksum of the rest. |
| Crc32c.RemoveSuffixCorrect | absl/crc/crc32c.cc:87-93 | From the checksums of a string and its suffix comes the checksum of what is before it. |
| Crc32c.RemoveSuffixInvertsConcat | absl/crc/crc32c.cc:87-93 | Removing a suffix undoes a concatenation on all 32-bit values, whether they are checksums or not. |
| Crc32c.ZeroExtensionCorrect | absl/crc/crc32c.cc:58-62 | Extending by zeroes is extending by a string of that many zero bytes. |
| Crc32c.UnextensionInverts | absl/crc/crc32c.cc:41-45 | Unextension is a two-sided inverse of zero-extension for every value and length. |
| Crc32c.BurstsAreDetected | absl/crc/crc32c.cc:49-54 | Two different messages of one length that differ only within 32 consecutive bits have different checksums. |
| CrcParity.ChecksumParity | absl/crc/crc32c.cc:49-54 | A checksum has an odd number of set bits exactly if the message has: the generator has an even number of terms. |
| CrcParity.OddErrorsAreDetected | absl/crc/crc32c.cc:49-54 | Two messages of one length that differ in an odd number of bits, wherever these are, have different checksums. |
| CrcPublished.PolyIs | absl/crc/internal/crc.cc:76 | The generator, read as a number, is 0x82F63B78. |
| CrcPublished.HelloChecksum | absl/crc/crc32c_test.cc:81-84 | The checksum of "hello world" is 0xC99465AA, which fixes generator, bit order and complements. |
| Crc32c.NoPrefixBit | absl/crc/internal/crc.cc:22-25 | A register of zeros stays so over any number of zero bytes, and for the empty message neither it nor the checksum is the remainder with a set bit before the message, complemented or not. |
| CrcPolynomial.MulOne | absl/crc/internal/crc.cc:85-101 | The register with only the top bit set is the unit of the multiplication. |
| CrcPolynomial.MulCommutes | absl/crc/internal/crc.cc:85-101 | Multiplication modulo the generator is commutative. |
| CrcPolynomial.MulAssociates | absl/crc/internal/crc.cc:85-101 | Multiplication modulo the generator is associative. |
| CrcPolynomial.MulByPower | absl/crc/internal/crc.cc:363-367 | Multiplying by a power of x appends that many zero bits. |
| CrcPolynomial.PowersMultiply | absl/crc/internal/crc.cc:147-150 | The product of two powers of x is the power of the sum of the exponents. |
| CrcTables.PolyMultiply | absl/crc/internal/crc.cc:86-101 | The loop over the bits of a mask computes the product modulo the generator. |
| CrcTables.FillPowers | absl/crc/internal/crc.cc:108-124 | The loop over single bits fills those entries of a row, from the entry above or the row before. |
| CrcTables.FillSums | absl/crc/internal/crc.cc:126-135 | The loops that xor earlier entries complete a row: entry i is byte i advanced as far as the row says. |
| CrcTables.FillWordTable | absl/crc/internal/crc.cc:104-138 | Row j carries every byte j zero bytes further than row 0 does. |
| CrcTables.OneZeroByte | absl/crc/internal/crc.cc:141-150 | A shift and three squarings give the power of x for one zero byte. |
| CrcTables.FillDigit | absl/crc/internal/crc.cc:155-161 | The fifteen entries of one digit hold the powers for its multiples, and the next increment comes out. |
| CrcTables.FillZeroesTable | absl/crc/internal/crc.cc:140-165 | Exactly 240 entries are written, one for each digit value at each of the 16 hexadecimal places of a 64-bit length. |
| CrcCarryless.MulLowSplit | absl/crc/internal/crc.cc:381-390 | Taking in more bits of a factor advances the product so far and adds their own part. |
| CrcCarryless.CarrylessReduces | absl/crc/internal/crc.cc:381-390 | The unreduced 64-bit product of k bits, reduced by k steps, is the product modulo the generator. |
| CrcCarryless.ByteProductIsCarryless | absl/crc/internal/crc.cc:374-385 | The four lookups of two bits each give the carry-less product of a byte. |
| CrcReverse.ReverseBitsMirrors | absl/crc/internal/crc.cc:78-83 | Three mask-and-shift rounds and a byte swap mirror a word. |
| CrcReverse.MirroredSteps | absl/crc/internal/crc.cc:236-248 | Forward steps of the mirrored register with the mirrored generator are backward steps of the register, any number of them. |
| CrcSwath.ExtendSwath | absl/crc/internal/crc.cc:282-287 | Four registers loaded with four words stand for the register extended by those sixteen bytes. |
| CrcSwath.StrideAdvances | absl/crc/internal/crc.cc:300-307 | Advancing each of the four registers past sixteen bytes and mixing in a word extends what they stand for by sixteen bytes. |
| CrcSwath.RotationAdvances | absl/crc/internal/crc.cc:323-333 | Rotating the registers while one takes in a word extends what they stand for by four bytes. |
| CrcEngine.MultiplyByTable | absl/crc/internal/crc.cc:371-391 | Byte by byte, the pair table and the byte table compute the product modulo the generator. |
| CrcEngine.ExtendByZeroesImpl | absl/crc/internal/crc.cc:359-397 | The loop over hexadecimal digits appends exactly `length` zero bytes, for every length below 2^64. |
| CrcEngine.StepOneByte | absl/crc/internal/crc.cc:263-266 | One lookup extends a register by one byte. |
| CrcEngine.StepSwath | absl/crc/internal/crc.cc:292-298 | Four lookups carry a register past sixteen bytes and take in a word. |
| CrcEngine.StepStride | absl/crc/internal/crc.cc:300-307 | One stride extends the joined registers by sixteen bytes. |
| CrcEngine.StepRotation | absl/crc/internal/crc.cc:325-333 | One rotation extends the joined registers by four bytes. |
| CrcEngine.CombineAll | absl/crc/internal/crc.cc:335-348 | The four registers are combined into the one that they stand for. |
| CrcEngine.ExtendInterleaved | absl/crc/internal/crc.cc:280-349 | The interleaved part leaves fewer than four bytes and the register extended by all bytes before them, whatever the prefetch horizon. |
| CrcEngine.InitTables | absl/crc/internal/crc.cc:184-256 | All five tables are what the lookups need, for the generator and for the mirrored one. |
| CrcEngine.Crc32.constructor | absl/crc/internal/crc.cc:184-256 | A new engine has all its tables in place. |
| CrcEngine.Crc32.Extend | absl/crc/internal/crc.cc:258-357 | The engine computes the specified extension for all data, alignments and prefetch horizons. |
| CrcEngine.Crc32.ExtendByZeroes | absl/crc/internal/crc.cc:399-401 | The engine computes the specified zero-extension. |
| CrcEngine.Crc32.UnextendByZeroes | absl/crc/internal/crc.cc:403-409 | Reversing, extending with the reverse tables and reversing again computes the specified unextension. |
| CallOnce.StepKeepsInv | absl/base/call_once.h:154-195 | Every step of every thread keeps the protocol invariant: the shape of the word's history, how far the owner is, what sleepers and returned calls know. |
| CallOnce.RunKeepsInv | absl/base/call_once.h:154-195 | So does every run. |
| CallOnce.OnceOnly | absl/base/call_once.h:215-226 | In every run `fn` is started at most once, and a call has returned only if `fn` has been started and has finished. |
| CallOnce.OneRunner | absl/base/call_once.h:184-194 | Never are two threads in `fn`, or between claiming the word and leaving the protocol. |
| CallOnce.ReturnSeesFn | absl/base/call_once.h:179-192 | Every returned call has all writes of `fn` in its view, although the claim is relaxed and reads may be stale. |
| CallOnce.ReturnSeesEveryWrite | absl/base/call_once.h:179-192 | Whatever `fn` wrote at any point of a run is in the view of every call that has returned by its end. |
| CallOnce.FnRunsOnce | absl/base/call_once.h:215-226 | No run has two events that start `fn`, and a call has returned only in a run with an event that ends it. |
| CallOnce.CheckIsStrict | absl/base/call_once.h:159-171 | The check of debug builds fails exactly on a value that is none of the four. |
| CallOnce.NeverFatal | absl/base/call_once.h:159-171 | The check of debug builds never fails. |
| CallOnce.NoLostWakeup | absl/base/call_once.h:189-194 | While a thread sleeps, the word says that there is a waiter or the owner still owes the wake. |
| CallOnce.Progress | absl/base/internal/spinlock_wait.cc:39-57 | In every state in order with an unreturned call some step is enabled that brings the end nearer, and it is neither a sleep that ends without a wake nor a delay that ends while the word still holds the value waited on. |
| CallOnce.CanFinish | absl/base/internal/spinlock_wait.cc:39-57 | From every state in order there is a schedule in which every call returns and every sleeper is woken: no sleep or delay ends early in it. |
| CallOnce.NeverStuck | absl/base/call_once.h:203-226 | Every run, however far, can be continued until every call has returned, and in the continuation every sleeper is woken. |
| CallOnce.EveryCallReturns | absl/base/call_once.h:215-226 | Every call made anywhere in a run can return, and `fn` has then been started and has finished exactly once. |
| CallOnce.CallReturns | absl/base/call_once.h:215-226 | After any run, any thread that is not in a call may call and then return, `fn` having run exactly once. |
| CallOnce.SleepsUntilWoken | absl/base/internal/spinlock_linux.inc:59-69 | A thread that goes to sleep is asleep at the end of every run with no later wake and no end of its own sleep. |
| CallOnce.WaiterSleeps | absl/base/internal/spinlock_wait.cc:39-57 | Of any two threads one can claim the word, and the other mark it and sleep. |
| CallOnce.LoadsMayBeStale | absl/base/call_once.h:215-219 | The first load of a call can see any message the word has ever held. |
| QueueLayout.WithBlockSound | absl/container/chunked_queue.h:804-815 | A new last block keeps the representation invariant and the elements. |
| QueueLayout.PushSound | absl/container/chunked_queue.h:518-525 | Appending keeps the invariant and the tail rule and adds the element at the end. |
| QueueLayout.PopSound | absl/container/chunked_queue.h:859-876 | Popping keeps the invariant and the tail rule and removes the first element; a next block exists whenever one is needed. |
| QueueLayout.CutSound | absl/container/chunked_queue.h:826-842 | Erasing from a place to the end keeps the invariant and leaves exactly the elements before the place. |
| QueueLayout.SoundBlockLive | absl/container/chunked_queue.h:676-685 | In every block the live slots are exactly those between `block_begin` and `block_end`. |
| QueueLayout.SoundCountFrom | absl/container/chunked_queue.h:832-838 | The elements destroyed from a block on are as many as the size counter says lie there. |
| QueuePlaces.IncrByAt | absl/container/chunked_queue.h:181-187 | `IncrBy(n)` goes n slots on, stays inside the chain, and rests at the end of the earlier block on a boundary. |
| QueuePlaces.StepsReach | absl/container/chunked_queue.h:170-176 | n single increments reach as far and never rest at the end of a block that has a next one. |
| QueuePlaces.IncrByAgainstSteps | absl/container/chunked_queue.h:170-187 | The two end at the same place, except on a boundary, where they are on its two sides. |
| QueuePlaces.OverwrittenSound | absl/container/chunked_queue.h:448-449 | Assigning through an iterator replaces that element and keeps the invariant. |
| QueuePlaces.GrowStepSound | absl/container/chunked_queue.h:781-793 | One round of growing adds at least one and at most the wanted number of elements at the end. |
| QueueGrowth.BlockSizeIs | absl/container/chunked_queue.h:688-692 | In every reachable chain block i has the first block's size doubled i times, capped at the maximum. |
| QueueGrowth.NewQueueBlocks | absl/container/chunked_queue.h:688-692 | After any pushes on a new queue block i has the minimum size doubled i times, capped at the maximum, and there are exactly as many blocks as the elements need. |
| QueueGrowth.UncappedOutgrows | absl/container/chunked_queue.h:84-85 | A new block that is not capped has more slots than all blocks before it together. |
| QueueGrowth.DoublesExactlyWhen | absl/container/chunked_queue.h:84-85 | A new block at least doubles the slots if and only if there are no more of them than the maximum block size. |
| QueueGrowth.DoublingFails | absl/container/chunked_queue.h:84-85 | Two pushes on a new queue with one slot per block reach a chain in which the documented doubling fails. |
| ChunkedQueue.Block.Destroy | absl/container/chunked_queue.h:667-674 | Destroys a run of live slots, which become raw, and counts them in the allocator. |
| ChunkedQueue.Block.ConstructRun | absl/container/chunked_queue.h:660-665 | Constructs elements in a run of raw slots and counts them. |
| ChunkedQueue.BlockAllocator.New | absl/container/internal/chunked_queue.h:60-72 | A fresh block of raw slots, counted as out. |
| ChunkedQueue.BlockAllocator.Delete | absl/container/internal/chunked_queue.h:74-79 | Takes back a block that is out and holds no element. |
| ChunkedQueue.ChunkedQueue.constructor | absl/container/chunked_queue.h:255-262 | A queue without blocks. |
| ChunkedQueue.ChunkedQueue.AddTailBlock | absl/container/chunked_queue.h:804-815 | Hangs a new block behind the last one and puts the tail at its start; the first block has the minimum size, every other twice the size of the last one or the maximum. |
| ChunkedQueue.ChunkedQueue.EmplaceBack | absl/container/chunked_queue.h:518-525 | Appends an element and keeps the invariant; a block is added, of the size the rule gives, exactly if the last one is full; no block and no element of anyone else is touched. |
| ChunkedQueue.ChunkedQueue.PopFront | absl/container/chunked_queue.h:859-876 | Removes the first element and keeps the invariant; the first block goes exactly if its last slot was popped and elements are left; after the last element both cursors are at the start of the one block. |
| ChunkedQueue.ChunkedQueue.Front | absl/container/chunked_queue.h:538-550 | The first element. |
| ChunkedQueue.ChunkedQueue.Back | absl/container/chunked_queue.h:558-571 | The last element, which lies just before the tail cursor in the last block. |
| ChunkedQueue.ChunkedQueue.Incr | absl/container/chunked_queue.h:170-176 | One step of an iterator over the chain. |
| ChunkedQueue.ChunkedQueue.IncrBy | absl/container/chunked_queue.h:181-187 | The loop over blocks ends at the place that the specification gives and follows no null link. |
| ChunkedQueue.ChunkedQueue.EraseAllFrom | absl/container/chunked_queue.h:826-842 | Leaves exactly the elements before the iterator and gives back the blocks behind. |
| ChunkedQueue.ChunkedQueue.Clear | absl/container/chunked_queue.h:879-898 | The loop over all blocks destroys every element and gives every block but the first back; that one is kept if there was any, and the cursors are at its start. |
| ChunkedQueue.ChunkedQueue.WalkOn | absl/container/chunked_queue.h:886-893 | One round of emptying blocks: exactly the elements of the block are destroyed and counted, and the block is given back unless it is to be kept. |
| ChunkedQueue.ChunkedQueue.DestroyAndDeallocateAll | absl/container/chunked_queue.h:845-856 | No element and no block is left; exactly the queue's blocks have gone back, and exactly its elements have been destroyed. |
| ChunkedQueue.ChunkedQueue.GrowTo | absl/container/chunked_queue.h:781-793 | Fills up to the new size, block by block. |
| ChunkedQueue.ChunkedQueue.ShrinkTo | absl/container/chunked_queue.h:797-800 | Leaves exactly the prefix of the new size and keeps the tail rule. |
| ChunkedQueue.ChunkedQueue.Resize | absl/container/chunked_queue.h:780-801 | The queue has exactly the new size; every index below both sizes keeps its element, and every other holds the value. |
| ChunkedQueue.ChunkedQueue.OverwriteRound | absl/container/chunked_queue.h:441-450 | One round of overwriting; the tracked block is the one just before whenever the iterator is at the start of a later block. |
| ChunkedQueue.ChunkedQueue.Overwrite | absl/container/chunked_queue.h:441-450 | Overwrites until the elements or the source run out. |
| ChunkedQueue.ChunkedQueue.EraseRest | absl/container/chunked_queue.h:457-472 | Both branches erase exactly what was not overwritten and keep the tail rule. |
| ChunkedQueue.ChunkedQueue.Assign | absl/container/chunked_queue.h:436-478 | The contents are the source, for every old shape and every source length. |
| ChunkedQueue.ChunkedQueue.AssignFill | absl/container/chunked_queue.h:484-489 | The contents are that many copies. |
| ChunkedQueue.ChunkedQueue.RangeInit | absl/container/chunked_queue.h:648-658 | A queue filled block by block from a range holds the range. |
| ChunkedQueue.ChunkedQueue.Swap | absl/container/chunked_queue.h:576-592 | Two queues exchange their chains and elements. |
| ChunkedQueue.ChunkedQueue.ShrinkToFit | absl/container/chunked_queue.h:419-427 | Gives the last block back exactly if there is no element. |
| ChunkedQueue.ChunkedQueue.MoveAssign | absl/container/chunked_queue.h:734-766 | Takes over the other queue's blocks after giving its own back; the other is empty; self-assignment changes nothing. |
| QueueRuns.EffectAt | absl/container/chunked_queue.h:419-550 | What each operation of a run leaves, place by place. |
| QueueRuns.AllowedOn | absl/container/chunked_queue.h:859-861 | A run may be continued by any deed except a pop from a queue without elements. |
| QueueRuns.StepBeside | absl/container/chunked_queue.h:676-719 | Any operation on one of two queues that share an allocator keeps both in order and leaves the elements of the other alone. |
| QueueRuns.Run | absl/container/chunked_queue.h:676-719 | Any operations on two such queues in any order, exchanges and moves between them included, keep both in order, and they hold what plain sequences would hold. |
| QueueRuns.Lifetime | absl/container/chunked_queue.h:769-777 | After any such run and destruction no block is out and as many elements have been destroyed as constructed. |
| LinkedNodes.IndexedSize | absl/container/linked_hash_map.h:1046-1051 | A list with unique keys and the index that agrees with it have the same size. |
| LinkedNodes.SplitConserves | absl/container/linked_hash_map.h:918-927 | The nodes with keys in a set and those without are together all nodes, each as often. |
| LinkedMap.LinkedHashMap.Find | absl/container/linked_hash_map.h:584-600 | Finds the node of a key exactly if the key is listed. |
| LinkedMap.LinkedHashMap.LazyEmplace | absl/container/linked_hash_map.h:1075-1087 | A new key is appended with its value; a present one changes nothing, not even its place. |
| LinkedMap.LinkedHashMap.Emplace | absl/container/linked_hash_map.h:868-876 | The same, the node being made first and dropped if the key is present. |
| LinkedMap.LinkedHashMap.InsertOrAssign | absl/container/linked_hash_map.h:1064-1072 | A present key gets the value and keeps its place; no other value changes. |
| LinkedMap.LinkedHashMap.InsertNode | absl/container/linked_hash_map.h:739-747 | A node is appended, or handed back with the position of the element that has its key; an empty handle inserts nothing. |
| LinkedMap.LinkedHashMap.Extract | absl/container/linked_hash_map.h:941-946 | The node leaves the list and the index and is handed out as it is. |
| LinkedMap.LinkedHashMap.ExtractKey | absl/container/linked_hash_map.h:953-961 | By key; an absent key gives an empty handle. |
| LinkedMap.LinkedHashMap.Erase | absl/container/linked_hash_map.h:544-549 | Removes the node from list and index and gives the one after it. |
| LinkedMap.LinkedHashMap.EraseKey | absl/container/linked_hash_map.h:529-538 | Removes the key if it is there and says how many were removed. |
| LinkedMap.LinkedHashMap.EraseRange | absl/container/linked_hash_map.h:564-578 | Removes exactly the nodes of the range and ends at its end. |
| LinkedMap.LinkedHashMap.MergeStep | absl/container/linked_hash_map.h:921-925 | The body of the loop: a node whose key is here stays; any other comes from another map and is moved to the end; the iterator has gone on before. |
| LinkedMap.LinkedHashMap.Merge | absl/container/linked_hash_map.h:918-927 | The source keeps exactly its elements whose keys were here, in order; the others are appended here in order; no node is lost; merging a map with itself changes nothing. |
| LinkedMap.LinkedHashMap.Splice | absl/container/linked_hash_map.h:969-976 | Within a map the element goes to the end; between maps it is appended, or is in neither map if its key is here. |
| LinkedMap.LinkedHashMap.Reinsert | absl/container/linked_hash_map.h:941-946 | Extracting a node and inserting it again moves it to the end and changes nothing else. |
| LinkedMap.LinkedHashMap.CopyFrom | absl/container/linked_hash_map.h:1046-1051 | The copy has the same pairs in the same order, on new nodes. |
| LinkedMap.LinkedHashMap.Swap | absl/container/linked_hash_map.h:1005-1009 | Two maps exchange their elements. |
| LinkedMap.LinkedHashMap.Clear | absl/container/linked_hash_map.h:490-493 | List and index are empty. |
| LinkedMap.PigeonHole | absl/container/linked_hash_map.h:1016-1028 | For maps of one size, one-sided inclusion of the pairs is equality. |
| LinkedMap.Scan | absl/container/linked_hash_map.h:1021-1025 | The scan tells whether every pair of one map is in the other. |
| LinkedMap.Equal | absl/container/linked_hash_map.h:1016-1028 | True if and only if every pair of either map is in the other, whatever their orders and capacities. |
| LinkedHistory.OrderTellsHistory | absl/container/linked_hash_map.h:1054-1087 | After any log of insertions, assignments, erasures and moves: exactly the keys that the log leaves, each with the value it was last given, in ascending order of the insertion that created it or the last move after that. |
| LinkedHistory.Step | absl/container/linked_hash_map.h:1054-1087 | One operation on the heap does to the ordered pairs what the replay says. |
| LinkedHistory.Run | absl/container/linked_hash_map.h:1054-1087 | A new map put through any log iterates in the order that the log tells. |
| LinkedPast.PlacedMeans | absl/container/linked_hash_map.h:1054-1087 | A key got its place at t exactly if it came, or was moved, at t and has been neither erased nor moved since. |
| LinkedPast.ValueMeans | absl/container/linked_hash_map.h:1064-1072 | A key has a value exactly if that was given to it by an assignment, or by an insertion when it was absent, and it has been neither erased nor assigned to since. |
| LinkedPast.OrderIsPast | absl/container/linked_hash_map.h:1054-1087 | The pairs of a map are those last given to keys inserted and not erased since, in the order in which they came or were last moved. |
| LinkedPast.RunPast | absl/container/linked_hash_map.h:1054-1087 | So it is with a new map on the heap after any log. |
| LinkedRuns.Do | absl/container/linked_hash_map.h:739-976 | Every operation on two maps and a handle keeps both indexes right and all nodes unshared, and does to the ordered pairs what the replay says. |
| LinkedRuns.Run | absl/container/linked_hash_map.h:364-976 | So does every run of insertions, assignments, erasures, extractions, node insertions, splices, merges, copies, swaps and clears. |
| LinkedChronicle.OrderTellsChronicle | absl/container/linked_hash_map.h:739-976 | After any log of deeds on two maps and a handle, each map has exactly the keys and values of its ledger in ascending order of their stamps; elements that came together by merge or copy are ordered by the stamps they had before. |
| LinkedChronicle.DeedKeys | absl/container/linked_hash_map.h:739-976 | Which keys are in which map and in the handle after an extraction, a node insertion, a splice, a merge, a copy, a swap or a clear. |
| LinkedChronicle.RunChronicle | absl/container/linked_hash_map.h:364-976 | So do two new maps on the heap that are put through the log. |
| LinkedSet.LinkedHashSet.InsertAt | absl/container/linked_hash_set.h:821-829 | A new key goes just before the hint and all other order is kept; a present key changes nothing. |
| LinkedSet.LinkedHashSet.EmplaceAt | absl/container/linked_hash_set.h:809-818 | The same, the node being made first. |
| LinkedSet.LinkedHashSet.Extract | absl/container/linked_hash_set.h:740-745 | The node leaves list and index. |
| LinkedSet.LinkedHashSet.InsertNode | absl/container/linked_hash_set.h:674-682 | A node is appended, or handed back if its key is present. |
| LinkedSet.LinkedHashSet.Reinsert | absl/container/linked_hash_set.h:740-745 | Extracting a node and inserting it again leaves the same elements with that one last. |
| LinkedSet.Scan | absl/container/linked_hash_set.h:780-781 | The scan tells whether every element of one set is in the other. |
| LinkedSet.Equal | absl/container/linked_hash_set.h:775-783 | True if and only if the sets hold the same elements, whatever their orders and capacities. |
| StripTags.Look | create_lts.py:72-79 | What one round finds: no begin tag, a begin tag with no end tag behind it, or the region from the first begin tag to the first end tag after it. |
| StripTags.RemoveAllDeletes | create_lts.py:80 | Replacing by nothing only deletes characters. |
| StripTags.RoundShrinks | create_lts.py:71-80 | A round that finds a region shortens the text by both tags at least, so the loop ends unless both are empty. |
| StripTags.EmptyTagsLoop | create_lts.py:71-80 | With two empty tags every round finds an empty region and changes nothing. |
| StripTags.StripContentBetweenTags | create_lts.py:71-80 | The exception is raised if and only if rounds lead to a text whose first begin tag has no end tag behind it; the result is t if and only if rounds lead to t and t has no begin tag; it is a subsequence of the text; with an empty begin tag the end is never normal. |
| StripTags.OutcomeMeans | create_lts.py:71-80 | An outcome is the one that the loop has exactly if it is decided at a text that rounds lead to. |
| StripTags.RemoveAllIs | create_lts.py:80 | Replacing by nothing deletes the first copy and goes on behind it. |
| StripTags.StrippedTwice | create_lts.py:71-80 | Stripping what has been stripped changes nothing. |
| StripTags.ParseRenders | create_lts.py:72-80 | One pass from the left cuts every text into gaps and regions that give the text back. |
| StripTags.RemoveAllOfRegion | create_lts.py:80 | Where no begin tag starts outside the regions and no region occurs inside one, replacing a region deletes exactly its copies among the regions. |
| StripTags.StrippingAgrees | create_lts.py:71-80 | Where no deletion of regions joins text into a new begin tag or a new copy of a region, deleting all copies at once and deleting one region at a time both end normally, with the text between the regions. |
| StripTags.StrippingAgreesIfMarked | create_lts.py:71-80 | They agree whenever some character of the begin tag is nowhere in the text but at its place in each region, which one pass decides. |
| StripTags.NestedTagsDisagree | create_lts.py:80 | A family of texts on which the first way raises the exception and the second ends with the empty text. |

## Left out

- StripTags.StrippingAgrees: gives a condition under which the two ways of deleting agree, not one that is also necessary, because texts in which deletions do join something can still come out the same by accident.
- ChunkedQueue.ChunkedQueue.Resize: new elements are copies of a given value, where the code value-initializes them.
- CallOnce.NeverStuck: states that every run can be continued to the end, not that every scheduler does so; `fn` is assumed to return.
- Allocator propagation, unequal allocators and exceptions from constructors or allocation in the containers: one allocator, total constructors.
- Exceptions from `fn`, `SchedulingHelper` and scheduling modes in `call_once`; the two entry points differ only in those.
- Delays of `SpinLockDelay` other than the futex: a thread may return from a delay at any time, which covers them.
- Pointer comparison of iterators: a cursor is a block and an index, so a block's end and the next block's start are different, as in the code.
- The hash tables themselves: hash functions, capacities and rehashing; a capacity is a parameter of `Equal`.
- Heterogeneous lookup, merging between maps of different hash or equality types, and node-handle insertion with a hint.
- Merge, range erasure, copy and swap of the linked set, which repeat those of the linked map; iterators' constness.
- Hardware CRC paths, `MemcpyCrc32c`, `Scramble` and `Unscramble`, and the prefetching inside `Extend`.
- Reading and writing files in `create_lts.py`, and its other functions.

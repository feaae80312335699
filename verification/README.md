# shmfx: a verified model

shmfx keeps named shared-memory segments: a registry segment lists them, a lock-free ring passes records through them, an
optional MAC protects their headers, and reference counts, heartbeats and a janitor decide when they go away. This project
models those parts in Dafny and proves what the code keeps over every input and every interleaving. `dafny verify
dfyconfig.toml` checks all of it.

| files | part of the system |
|---|---|
| `RingProtocol`, `RingInvariant`, `RingTheorems`, `RingSingleSlot` | the record ring as a step system: every load, store and exchange of any number of producers and one consumer, spurious failures and deaths included |
| `RingView`, `RingMemory`, `Bytes`, `Slots` | the ring as a bounded queue, and as a class over the payload bytes in the real layout |
| `Layout`, `HeaderBounds` | mask alignment, ring offsets, segment header sizes, with the 32- and 64-bit widths written out |
| `RegistryTable`, `RegistryOps`, `RegistryMemory`, `FixedNames` | the slot table as a finite map, and as a class over bitmap bytes and entries |
| `RegistryCrash`, `RegistryCrashProof` | registry writers that may die at any store, and the recovery by the next locker |
| `Seqlock` | one registry slot written and read word by word |
| `Sha256Spec`, `Sha256Facts`, `Sha256Stream`, `HeaderMac`, `AttachMac` | FIPS 180-4 and RFC 2104 as definitions, what those mean in other words, the streaming code as a class, header signing, and what attach asks of a MAC |
| `Names`, `Quota`, `QuotaOverlap` | the name grammar and its parser, the creation quota over whole runs and when creates overlap |
| `Lifecycle`, `LifecycleTheorems`, `LifecycleCreate`, `LifecycleJanitor`, `Handles` | create, attaches, resets, deaths and janitors on one segment, as steps; what may happen during create; what a janitor's visit does; handles as a class |
| `Heartbeat`, `HeartbeatMemory` | the heartbeat worker protocol as steps, and its variables as a class |
| `Base` | word sizes and other definitions the parts share |

Each class method is proved against a function of the old state, and the properties are proved about that function; the
central ones also state their result outright, on the message, the map or the header bytes. The step systems share one
shape: `Enabled` and `Apply` give the steps, `Run` a whole run, an invariant is kept by every step, and the theorems
follow for every reachable state.

Where the code and its design differ, the model follows the code. The design of the registry seqlock leaves the sequence
word odd while an entry is written; the code's whole-struct copy also stores the source's own sequence word, which is 0
for every unregister and every recovery. `Seqlock` has both: every accepted snapshot is whole under the design, deaths and
recoveries included; the code keeps that promise only where nothing is registered, or all registered entries carry odd
words, nothing is unregistered and no writer dies. For the same reason a recovery of the code can keep a half-written
entry, which bounds what `RegistryCrashProof.CrashSafety` says with the copy as one step.

The design lets the last consumer to detach unlink a draining segment (docs/vi/01_DESIGN.md:445); in the code only the
owner handle does (src/shm_manager.cpp:195), and `Lifecycle` follows it.

The reference count and the lifecycle state are promised for every interleaving, and the code keeps them in every one only
under a condition. Create stores the count and the state after the name, so an attach can count itself before create
stores 1 over it, unless `HmacEnabled` keeps the header unacceptable until it is signed. A janitor that comes upon the name
while create is writing can mark the segment Dead before create stores Active. It does so if an entry for the name is
listed before, in the registry or in the janitor's copy of its list, or if somebody else lists the name meanwhile, such as
another create whose object was destroyed. `LifecycleCreate` gives these runs and proves the two conditions exact.

## Model

| member | source | states |
|---|---|---|
| `RingTheorems.DeliveredIsClaimPrefix` | src/shm_ring.cpp:96-188 | In every interleaving of any number of producers and one consumer, with deaths, on a ring of two or more slots: the records handed out are exactly a prefix of the claim order, each with the pushed message's own type and user value, its flags (bit 0 set, the others kept, if it is too long) and its first bytes up to the slot's and the caller's room; and every published record not yet freed is whole in its slot |
| `RingTheorems.SlotExclusion` | src/shm_ring.cpp:109-153 | In every reachable state no two producers between claim and publish, and no producer and the consumer between ready check and slot-free store, work on the same slot |
| `RingTheorems.Occupancy` | src/shm_ring.cpp:185-186 | `tail - head` is at most one lap and one record, and at most one lap unless the consumer stands between its two closing stores |
| `RingTheorems.HeadLag` | src/shm_ring.cpp:163-187 | Without consumer deaths the head is behind the freed positions exactly while the consumer stands between its two closing stores |
| `RingTheorems.FullIsGenuine` | src/shm_ring.cpp:105-129 | A push that finds the ring full is right at its sequence load: its possibly old position is the tail, and all slots belong to claimed, unfreed positions |
| `RingTheorems.RetryAdvances` | src/shm_ring.cpp:109-131 | Every retry but a spurious failure of the weak exchange moves the local position strictly forward |
| `RingTheorems.BudgetMeansContention` | include/shmfx/shm_types.h:59 | A push that uses up its 64 retries was overtaken, during that call, by at least 64 claims of other producers, less its spurious failures |
| `RingTheorems.PushIsBounded` | src/shm_ring.cpp:109-134 | Whatever the others do, in every run a push loads a slot word at most 64 times before it returns |
| `RingTheorems.SpuriousRefusal` | src/shm_ring.cpp:118-136 | A push alone on a free slot whose weak exchange fails 64 times is refused and counted as lost, and leaves the ring as it was |
| `RingTheorems.DeathsKeepMemory` | src/shm_ring.cpp:96-188 | A producer or the consumer may die at any point, and its death touches no shared memory; of a producer stays the claimed, unpublished position |
| `RingTheorems.LossCountExact` | src/shm_ring.cpp:126-136 | The loss counter equals the number of pushes that returned RingFull, and freed plus waiting plus lost records account for every returned push |
| `RingTheorems.ProducerOrderKept` | src/shm_ring.cpp:96-188 | Each producer's records are handed out in the order of its own successful pushes |
| `RingTheorems.DeadProducerBlocks` | src/shm_ring.cpp:115-153 | A producer that died between claim and publish at q stops the head at q in every continuation, and at most `record_max - 1` claims follow its own |
| `RingTheorems.ConsumerDeathBetweenStoresJams` | src/shm_ring.cpp:185-186 | A consumer that dies between its two closing stores leaves a ring that hands out nothing in any continuation |
| `RingTheorems.ConsumerDeathRedelivers` | src/shm_ring.cpp:163-187 | A consumer that dies before its slot-free store loses nothing: a restarted consumer can hand out the very record the dead one was copying |
| `RingTheorems.SoloPop` | src/shm_ring.cpp:157-188 | A pop of a published record that runs alone hands out that record whole and advances the head by one |
| `RingInvariant.ClaimKeeps` | src/shm_ring.cpp:113-124 | A compare-and-swap that succeeds takes a position whose slot is free on this lap, however old the sequence read it relies on: the slot word equals the position at that moment, and the invariant is kept |
| `RingInvariant.CheckedWord` | src/shm_ring.cpp:164-169 | The ready check passes only on a published record that has not been consumed |
| `RingInvariant.RunKeeps` | src/shm_ring.cpp:96-188 | Every state of every run of a ring of two or more slots satisfies the invariant that ties sequence words, cursors, claims and cells |
| `RingProtocol.StoreKeeps` | src/shm_ring.cpp:139-155 | A message that fits is stored as it is; of a longer one the first bytes are, with bit 0 of the flags set and the other bits kept |
| `RingInvariant.HeldMeans` | src/shm_ring.cpp:139-155 | A slot holds the stored form of a message exactly when it carries the message's type, user value, flags, length and bytes, said of the message itself |
| `RingInvariant.DeliveredMeans` | src/shm_ring.cpp:163-187 | A popped record is the stored form of a message exactly when it delivers the message's fields and bytes, cut to the caller's room |
| `RingSingleSlot.SoloPush` | src/shm_ring.cpp:96-155 | A push that runs alone on a free tail slot claims the tail, leaves the message's type, user value, flags, length and bytes in the slot, publishes it and changes nothing else, for every ring size |
| `RingSingleSlot.OverwritingRun` | src/shm_ring.cpp:32-36 | In a ring of one slot two pushes both succeed and the second overwrites the first record |
| `RingSingleSlot.SafeIffTwoSlots` | src/shm_ring.cpp:32-36 | Published records survive every run exactly when the ring has at least two slots |
| `RingSingleSlot.SecondPushJams` | src/shm_ring.cpp:96-188 | A second push into an idle one-slot ring that holds a record succeeds and leaves a ring that never delivers again, whatever the producers and the consumer do |
| `RingSingleSlot.TwoPushesJam` | src/shm_ring.cpp:55-188 | From an empty ring of one slot two pushes, of any messages by any producers, both succeed, and nothing is delivered in any continuation |
| `RingView.PushRefines` | src/shm_ring.cpp:96-155 | A push refines a bounded queue: it appends the message, whose fields and bytes the slot then carries, exactly when there is room and the claim is not defeated by spurious failures, else it counts one loss; the one-slot overwrite is the stated exception |
| `RingView.PopRefines` | src/shm_ring.cpp:157-188 | A pop removes and returns the first record of the queue, or reports empty and changes nothing |
| `RingView.DrainRefines` | include/shmfx/shm_ring.h:121-138 | A batch hands out a prefix of the queue in order, leaves the rest, and stops early only after a declined record |
| `RingView.RingIsBoundedQueue` | src/shm_ring.cpp:96-188 | Every sequence of pushes and pops on a ring of two or more slots is answered as by a bounded queue |
| `RingView.FreshRingIsBoundedQueue` | src/shm_ring.cpp:55-188 | Every sequence of pushes and pops on the ring that initialize leaves is answered as by a bounded queue of the pushed messages themselves: each pop delivers the oldest message's type, user value, flags and bytes |
| `RingView.QueueOfMessages` | src/shm_ring.cpp:96-188 | A bounded queue of stored records answers as the bounded queue of the messages they came from |
| `RingView.OverwrittenStays` | src/shm_ring.cpp:96-188 | An overwritten one-slot ring accepts every push that spurious failures do not defeat, counts a loss for the others, and hands out nothing |
| `RingView.SoloPushAgrees` | src/shm_ring.cpp:96-155 | The sequential push and the interleaved push run alone leave the same memory |
| `RingView.SoloPopAgrees` | src/shm_ring.cpp:157-188 | The sequential pop and the interleaved pop run alone hand out the same record and leave the same memory |
| `RingMemory.RecordRing.Initialize` | src/shm_ring.cpp:55-82 | On the payload bytes: succeeds exactly when the required size is non-zero, fits and is aligned; then the bytes mean an empty ring and those beyond it are unchanged; else nothing changes |
| `RingMemory.RecordRing.Bind` | src/shm_ring.cpp:84-94 | Accepts exactly valid, aligned metadata whose 64-bit size is non-zero and fits; where the ring size does not wrap, that is exactly a ring inside the payload |
| `RingMemory.BindFitsIff` | src/shm_ring.cpp:84-94 | Everything bind accepts, for every payload length, is a ring inside the payload exactly when the ring size is below 2^64 |
| `RingMemory.BindAcceptsTooMuch` | src/shm_ring.cpp:84-94 | 2^32 - 7 slots of 2^32 - 1 bytes are accepted on a payload of 79 bytes |
| `RingMemory.RecordRing.ClaimTail` | src/shm_ring.cpp:104-136 | The retry loop claims the tail exactly when the tail slot is free and some exchange of the budget does not fail spuriously, and writes nothing but the tail cursor |
| `RingMemory.RecordRing.TryPush` | src/shm_ring.cpp:96-155 | On the payload bytes the new meaning and result are those of the bounded-queue push; on success the tail slot carries the message's type, user value, flags, length and bytes, on RingFull only the loss count changes, by one |
| `RingMemory.RecordRing.TryPop` | src/shm_ring.cpp:157-188 | On the payload bytes and the caller's buffer the new meaning, record and copied bytes are those of the bounded-queue pop |
| `RingMemory.RecordRing.DrainBatch` | include/shmfx/shm_ring.h:121-138 | The batch loop leaves the meaning and returns the records of the specified batch |
| `RingMemory.WriteRecord` | include/shmfx/shm_ring.h:24-36 | The record bytes written in the wire layout decode to the stored record in that slot and leave every other slot, word and cursor alone |
| `RingMemory.CellWritten` | include/shmfx/shm_ring.h:24-36 | Encoding a record into a slot and decoding the slot give the record back |
| `RingMemory.DecodeIs` | src/shm_ring.cpp:16-30 | Where the parts lie in the payload: head at byte 0, tail at 64, slot words from 128 on, then the records with length, type, flags and user value before the bytes |
| `Bytes.FromLEOf` | include/shmfx/shm_ring.h:24-36 | Fields are little-endian: the first byte is the least significant |
| `Slots.SlotIsRemainder` | src/shm_ring.cpp:110 | The slot of a position is its remainder by the number of slots |
| `Layout.MaskClearsLowBits` | include/shmfx/shm_types.h:138-141 | Masking with the complement of `alignment - 1` clears the low bits, for every word width |
| `Layout.AlignUpLeast` | include/shmfx/shm_types.h:138-141 | Mask-based `align_up` is a multiple of a power-of-two alignment, not below its argument and less than one alignment above it, unless the sum wraps |
| `Layout.AlignUpMinimal` | include/shmfx/shm_types.h:138-141 | No smaller multiple is as large as the argument |
| `Layout.StrideHoldsPayload` | src/shm_ring.cpp:40-44 | The 32-bit stride is a whole number of cache lines and holds header and payload exactly when the payload is at most 2^32 - 80 bytes; beyond that it is 0 or 64 |
| `Layout.RequiredSizeExact` | src/shm_ring.cpp:46-53 | For every 32-bit record count and payload size the required size does not wrap 64 bits when the ring computes its own stride |
| `Layout.OffsetsAreTheCodes` | src/shm_ring.cpp:205-211 | The model's offsets and ring size are those of the slot and record address helpers |
| `Layout.RegionsDisjoint` | src/shm_ring.cpp:16-30 | Cursors, slot words and record slots are pairwise disjoint and inside the required size |
| `RegistryTable.DictMeaning` | src/shm_registry.cpp:93-100 | A table with distinct names stands for a finite map whose size is the number of set bits |
| `RegistryTable.RepairHeals` | src/shm_registry.cpp:129-148 | For every payload content the repair ends with every sequence word even, every bit set exactly when the name is non-empty and the count equal to the number of bits, leaves healthy slots untouched and empties the others |
| `RegistryTable.RepairIdempotent` | src/shm_registry.cpp:129-148 | Repairing twice is repairing once |
| `RegistryTable.RepairKeepsGood` | src/shm_registry.cpp:129-148 | The repair changes nothing in a table a completed operation left |
| `RegistryTable.RepairKeepsEntries` | src/shm_registry.cpp:129-148 | The repaired table stands for the map of the kept entries |
| `RegistryTable.KeptDictIs` | src/shm_registry.cpp:129-148 | The kept entries are exactly those of occupied slots with an even sequence word and a name |
| `RegistryOps.RegisterRefinesMap` | src/shm_registry.cpp:260-293 | Register inserts or overwrites the name in the map; QuotaExceeded exactly when the name is absent and the table full, and then nothing changes; every slot stays healthy exactly when the entry has a name |
| `RegistryOps.UnregisterRefinesMap` | src/shm_registry.cpp:295-320 | Unregister removes the name from the map; NotFound exactly when it is absent |
| `RegistryOps.RegistryIsMap` | src/shm_registry.cpp:260-320 | Every sequence of registers and unregisters answers as a finite map of the table's capacity, with distinct names and the count equal to the map size, and keeps every slot healthy if all entries have names |
| `RegistryOps.ListIsMap` | src/shm_registry.cpp:322-349 | Listing a prefix returns each map entry whose name starts with it exactly once and nothing else |
| `RegistryCrashProof.CrashSafety` | src/shm_registry.cpp:103-163 | With writers dying at any store of register, unregister or recovery, any number of times: the next locker that gets to work finds a consistent table that stands for the old map, the old map without the name being written, or the new map (name inserted only if there was room); a released mutex means the operation took full effect |
| `RegistryCrashProof.InterruptedOp` | src/shm_registry.cpp:260-320 | Whatever an interrupted operation left in its slot, the repaired map is one of those three |
| `RegistryCrashProof.MutexStaysRecoverable` | src/shm_registry.cpp:151-163 | The control mutex never becomes unrecoverable while `pthread_mutex_consistent` succeeds |
| `RegistryCrashProof.RecoveryCompletes` | src/shm_registry.cpp:129-163 | A recovery that is not interrupted reaches the ready state |
| `RegistryCrashProof.OperationCompletes` | src/shm_registry.cpp:260-320 | An operation on an unlocked registry that is not interrupted releases the mutex and takes full effect on the map |
| `RegistryCrashProof.LostForGood` | src/shm_registry.cpp:151-163 | If the mutex cannot be marked consistent after a recovery, the table stays repaired and no locker ever works on it again |
| `RegistryMemory.SetBits` | src/shm_registry.cpp:83-85 | Setting a bit in the byte bitmap sets that bit and no other |
| `RegistryMemory.ClearBits` | src/shm_registry.cpp:88-90 | Clearing a bit in the byte bitmap clears that bit and no other |
| `RegistryMemory.Registry.BitIsSet` | src/shm_registry.cpp:78-80 | Reads the occupancy bit of the slot |
| `RegistryMemory.Registry.SetBit` | src/shm_registry.cpp:83-85 | On the byte array: that occupancy bit becomes set, nothing else changes |
| `RegistryMemory.Registry.ClearBit` | src/shm_registry.cpp:88-90 | On the byte array: that occupancy bit becomes clear, nothing else changes |
| `RegistryMemory.Registry.PublishSlot` | src/shm_registry.cpp:103-114 | Leaves the source's fields under the slot's sequence word plus two, and touches no other slot |
| `RegistryMemory.Registry.SnapshotSlot` | src/shm_registry.cpp:172-188 | Without interference succeeds exactly when the sequence word is even, with the slot's body |
| `RegistryMemory.Registry.ClearSlotForRecovery` | src/shm_registry.cpp:117-126 | Empties the slot under an even sequence word and clears its bit |
| `RegistryMemory.Registry.RecoverRegistryInvariant` | src/shm_registry.cpp:129-148 | The in-place loop over all slots computes the repair |
| `RegistryMemory.Registry.LockControl` | src/shm_registry.cpp:151-163 | In place: after a dead owner every sequence word is even, every bit is set exactly for a named slot, the count is the number of bits, healthy slots are untouched and the map is that of the kept entries; it fails exactly when the mutex is lost or cannot be marked consistent, and changes nothing without a dead owner |
| `RegistryMemory.Registry.FindSlot` | src/shm_registry.cpp:270-283 | The scan finds the slot that holds the name and, when there is none, the first free slot |
| `RegistryMemory.Registry.RegisterSegment` | src/shm_registry.cpp:260-293 | In place: on the map, or after a dead owner on the map of the kept entries, inserts or overwrites the name, or answers QuotaExceeded exactly when it is absent and the table full |
| `RegistryMemory.Registry.Unregister` | src/shm_registry.cpp:295-320 | In place: on the map, or after a dead owner on the map of the kept entries, removes the name, or answers NotFound exactly when it is absent |
| `RegistryMemory.Registry.List` | src/shm_registry.cpp:322-349 | In place: the listed bodies and the table and mutex after the fallback locks |
| `RegistryMemory.ListOfGood` | src/shm_registry.cpp:322-349 | On a consistent table listing takes no lock, changes nothing and returns each matching map entry once |
| `RegistryMemory.ListAfterDeath` | src/shm_registry.cpp:322-349 | Listing after a writer's death returns exactly the named entries that the repair keeps and that have the prefix, and leaves the table repaired if the writer was in an occupied slot |
| `Seqlock.SnapshotsAreWhole` | docs/vi/01_DESIGN.md:371-398 | While the sequence word stays odd during every write, every accepted snapshot is one whole published entry or the blank one, over all word-by-word interleavings of a writer and any number of readers, and over deaths and recoveries |
| `Seqlock.EvenSourceTears` | src/shm_registry.cpp:103-114 | A run of the code in which a register copies the even sequence word of its source and a reader accepts a mixed snapshot |
| `Seqlock.UnregisterTears` | src/shm_registry.cpp:311-312 | A run, for every word the source carries, in which an unregister copies the word 0 over the entry it is wiping and a reader accepts a mixed snapshot |
| `Seqlock.DeathAndRecoveryTear` | src/shm_registry.cpp:117-148 | A run, for every word the source carries, in which a writer dies in its copy and a reader accepts the half-written entry, under the writer's even word or under the word 0 of the recovery that wipes it |
| `Seqlock.DeathsLeaveMixed` | src/shm_registry.cpp:129-148 | A run, for every word the source carries, after which the recovery takes a half-written entry with an even word and a name for a healthy one and keeps it |
| `Seqlock.NeverKeepsMixedIff` | src/shm_registry.cpp:129-148 | No mixed entry is ever left in a slot, over every interleaving and every recovery, exactly when no writer dies or nothing is ever registered |
| `Seqlock.DesignKeepsWhole` | docs/vi/01_DESIGN.md:371-398 | Where the copy leaves the sequence word odd, no mixed entry is left whoever dies |
| `Seqlock.NeverTearsIff` | src/shm_registry.cpp:103-188 | Over every interleaving of registers, unregisters, deaths, recoveries and readers, the code never lets a torn snapshot be accepted exactly when nothing is ever registered, or registered entries carry odd sequence words only, nothing is unregistered and no writer dies |
| `Sha256Stream.Sha256State.constructor` | src/shm_security.cpp:77-82 | The initial state holds the empty message under the initial hash value of FIPS 180-4 |
| `Sha256Stream.ExpandBlock` | src/shm_security.cpp:86-94 | The schedule loop computes the message schedule of section 6.2.2 of FIPS 180-4 from the big-endian words of the block |
| `Sha256Stream.RoundSums` | src/shm_security.cpp:105-111 | The two sums of a round, from the code's shifts, masks and additions, are T1 and T2 of FIPS 180-4 |
| `Sha256Facts.ChChooses` | src/shm_security.cpp:107 | Ch takes the bits of its second argument where the first is set, and of its third where it is clear |
| `Sha256Facts.MajOfTwo` | src/shm_security.cpp:110 | A bit of Maj is set where its first two arguments are both set and clear where both are clear |
| `Sha256Facts.MajOrder` | src/shm_security.cpp:110 | Maj does not depend on the order of its arguments, so the same holds of any two of them |
| `Sha256Facts.SigmasTurn` | src/shm_security.cpp:57-60 | The rotations of FIPS 180-4 are the shifts of the code, with the same amounts |
| `Sha256Facts.WordOfFour` | src/shm_security.cpp:62-66 | The first octet of a word is its most significant, and splitting a word into octets undoes joining them |
| `Sha256Facts.OctetsOfWord` | src/shm_security.cpp:68-74 | Joining the octets of a word gives the word back |
| `Sha256Facts.BigEndianDigits` | src/shm_security.cpp:68-74 | The big-endian octets of a number are its digits to base 256 |
| `Sha256Facts.WordOfNumber` | src/shm_security.cpp:62-74 | The word that the octets of a number make has those octets again |
| `Sha256Facts.PrimesInOrder` | src/shm_security.cpp:28-39 | The table of 64 numbers beside the constants holds the first 64 prime numbers: the first is 2, each is prime, and none lies between two neighbours |
| `Sha256Facts.ConstantsAreRoots` | src/shm_security.cpp:28-39 | Each of the 64 constants is the first 32 bits of the fractional part of the cube root of the prime of its index: with w the integer root, (w 2^32 + K)^3 <= p 2^96 < (w 2^32 + K + 1)^3 |
| `Sha256Facts.InitialValueIsRoots` | src/shm_security.cpp:77-82 | Each initial hash word is the first 32 bits of the fractional part of the square root of its prime |
| `Sha256Stream.RoundLoop` | src/shm_security.cpp:96-120 | The 64 rounds, shifting the eight variables in place one assignment after the other, compute the working variables of section 6.2.2 of FIPS 180-4 |
| `Sha256Stream.Sha256State.Transform` | src/shm_security.cpp:85-130 | The transform replaces the hash words by the compression function of the buffered block |
| `Sha256Stream.Sha256State.Update` | src/shm_security.cpp:133-146 | Updating appends the bytes to the message the state stands for, for every split over blocks |
| `Sha256Stream.Sha256State.Final` | src/shm_security.cpp:149-168 | The digest is SHA-256 of everything fed, with the padding of section 5.1.1 of FIPS 180-4, in both padding cases |
| `Sha256Stream.PadOneBlock` | src/shm_security.cpp:149-168 | The padded message when the length fits behind the marker |
| `Sha256Stream.PadTwoBlocks` | src/shm_security.cpp:149-168 | The padded message when the length needs one more block |
| `Sha256Stream.HashChunks` | src/shm_security.cpp:133-176 | For every byte string under 2^61 bytes and every way of splitting it into updates, the digest is that of the one-shot definition |
| `HeaderMac.HmacSha256` | src/shm_security.cpp:224-246 | Equals HMAC of section 2 of RFC 2104 for every 32-byte key: the hash of the key under 0x5c and of the hash of the key under 0x36 and the data, both padded to 64 bytes |
| `HeaderMac.DigestEqual` | src/shm_security.cpp:255-262 | True exactly on equal digests, without early exit |
| `HeaderMac.HasMacBytes` | src/shm_security.cpp:249-252 | True exactly when some byte of the stored MAC is not zero |
| `HeaderMac.SignHeaderIfEnabled` | src/shm_security.cpp:333-348 | With bit 0 of byte 12 set and a key, bytes 128 to 159 become the HMAC of bytes 0 to 127; set without a key, PermissionDenied and nothing changes; clear, those 32 bytes become zero; no other byte changes |
| `HeaderMac.VerifyHeaderHmac` | src/shm_security.cpp:350-365 | With a key accepts exactly when bytes 128 to 159 are the HMAC of bytes 0 to 127, or the flag is off and they are all zero, else CorruptedHeader; without a key accepts exactly the latter, else PermissionDenied |
| `HeaderMac.SignThenVerify` | src/shm_security.cpp:333-365 | Signing then verifying with the same key succeeds for every header, flag on or off, under any change to the bytes from 160 on |
| `HeaderMac.SignIdempotent` | src/shm_security.cpp:333-348 | Signing twice is signing once |
| `HeaderMac.AcceptedMeans` | src/shm_security.cpp:350-365 | With a key, verification accepts exactly a header whose bytes 128 to 159 are the HMAC of its bytes 0 to 127, or that has the flag off and 32 zero bytes there |
| `HeaderMac.SharedMac` | src/shm_security.cpp:350-365 | Two accepted, flagged headers with one MAC under one key have immutable bytes of one and the same HMAC |
| `HeaderMac.UnsignedIsRejected` | src/shm_security.cpp:350-365 | A header with the flag on is rejected until it is signed, unless the MAC of its immutable bytes is itself all zero |
| `AttachMac.RegistryExpectsHmac` | src/shm_manager.cpp:91-102 | The search answers for the flag of the first listed entry of the name, and never for the registry |
| `AttachMac.ExpectsFromList` | src/shm_manager.cpp:91-102 | On the list of a table with distinct names the search answers for the map entry of the name |
| `AttachMac.ExpectedMacIsNeeded` | src/shm_manager.cpp:357-366 | Where the registry entry of the name has the flag, attach accepts exactly a header that has it too and whose bytes 128 to 159 are the HMAC of bytes 0 to 127, and answers CorruptedHeader to a stripped one; a stripped header passes only where the entry has no flag |
| `Names.ParsedIff` | src/shm_security.cpp:266-297 | A name parses to a namespace and leaf exactly when it is "/shmfx." namespace "." leaf under the grammar with an allowed namespace; the split is unique and joins back |
| `Names.DeniedIff` | src/shm_security.cpp:266-297 | PermissionDenied exactly for a grammatical name in a namespace that is not allowed, InvalidName exactly when no grammatical reading exists |
| `Names.AcceptedSpelling` | src/shm_security.cpp:266-297 | The accepted names spelled out: "/shmfx.", one of log, tlm, kv, app, sys, a dot, and a leaf of 1 to 39 lower-case letters, digits, '_' and '-' that starts with a letter |
| `Names.DeniedSpelling` | src/shm_security.cpp:266-297 | The same spelling with another namespace of 2 to 15 characters is denied |
| `Names.BootstrapParses` | src/shm_security.cpp:267-269 | The registry and its lock, and nothing else, parse as bootstrap names |
| `Names.AcceptedNameSurvives` | src/shm_manager.cpp:85-88 | Every accepted name survives the fixed 64-byte buffer unchanged |
| `Names.PrefixSelectsNamespace` | src/shm_security.cpp:311-317 | The dot-less prefix comparison selects exactly the entries of that namespace among accepted names |
| `FixedNames.NameRoundTrip` | src/shm_registry.cpp:59-62 | Copying a name of at most 63 characters without NUL into the buffer and reading it back gives the name |
| `Quota.ValidateCreateSecurity` | src/shm_security.cpp:299-324 | The loop computes the verdict from exact sums taken in 64 and 32 bits |
| `Quota.VerdictExact` | src/shm_security.cpp:299-324 | Against the list of a registry within the quota a request is accepted exactly when its name parses, its total is at least 256 plus the metadata size, taken in 64 bits, and at most 1 GiB, the bytes fit in 4 GiB and its namespace has fewer than 1024 entries; BadName and Denied exactly as the name parses: no sum of bytes or entries wraps and the prefix counts the namespace |
| `Quota.RegisterBytes` | src/shm_registry.cpp:260-293 | Registering changes the registered bytes by the new entry's size less that of the entry it replaces |
| `Quota.ServedMap` | src/shm_manager.cpp:214-403 | What a request does to the registry map: an accepted create whose object is made puts in its entry if there is room, a destroy that unlinked takes it out, neither touches the entry of the registry, and the janitor takes out or stamps the entry it names |
| `Quota.QuotaHolds` | src/shm_manager.cpp:214-313 | Over every sequential run of creates, destroys and janitor updates the registered bytes stay within 4 GiB, registered names stay valid and the table sound |
| `Quota.QuotaHoldsFromStart` | src/shm_manager.cpp:214-313 | So they do from a new registry on |
| `QuotaOverlap.QuotaHoldsApart` | src/shm_manager.cpp:218-309 | With list and register as separate steps, and destroys and the janitor in between, the bound holds over every run in which no two creates overlap |
| `QuotaOverlap.SequentialRun` | src/shm_manager.cpp:218-309 | Every sequential run of requests is a run of these steps in which creates stay apart |
| `QuotaOverlap.OverlapAddsBoth` | src/shm_manager.cpp:218-309 | Two creates of new names that both list before either registers are both carried out if each fits alone, whether or not they fit together |
| `QuotaOverlap.OverlapRun` | src/shm_manager.cpp:218-309 | From a new registry, three creates of 1 GiB and two more that overlap leave 5 GiB registered |
| `HeaderBounds.JanitorAgrees` | src/shm_registry.cpp:45-56 | The janitor's header check and the attach check accept the same headers |
| `HeaderBounds.VerdictIs` | src/shm_manager.cpp:63-82 | The verdict on a header spelled out: accepted exactly with magic 0x53484D46, major version 1, the mapped size, metadata behind the header and before the payload, and both within the size, the payload's end taken in 64 bits; VersionMismatch exactly for another major version under the magic |
| `HeaderBounds.ValidatedSpans` | src/shm_manager.cpp:63-82 | An accepted header gives disjoint header, metadata and payload spans inside the mapping exactly when payload offset plus size is below 2^64 |
| `HeaderBounds.PayloadEndMayWrap` | src/shm_manager.cpp:63-82 | A header accepted although the end of its payload wraps, so that bound is needed |
| `HeaderBounds.CreatedFields` | src/shm_manager.cpp:222-265 | Where 256 plus the metadata size does not wrap, the stored fields are untruncated, the payload starts at the first cache line after the metadata and ends with the segment |
| `HeaderBounds.CreatedPassesIff` | src/shm_manager.cpp:214-265 | Every header that create writes passes both checks, with disjoint spans, exactly when 256 plus the metadata size does not wrap |
| `HeaderBounds.CreatedNameMatches` | src/shm_manager.cpp:352-356 | Attach finds the name it asked for in every header written under an accepted name |
| `LifecycleTheorems.RefCountExact` | src/shm_manager.cpp:183-388 | In every interleaving of create's stores, attaches, moves, resets, deaths and janitors the reference count is the live read-write handles plus the attaches between bump and outcome plus the references lost to deaths, less the references that create's store of the count overwrote, in 32 bits |
| `LifecycleTheorems.DeathLosesReference` | src/shm_manager.cpp:183-388 | A process may die at any point of a create, an attach or a reset: count and state stay, and the reference it had is lost |
| `LifecycleTheorems.MoveKeepsReference` | src/shm_manager.cpp:109-137 | A handle can be moved at any time without the segment noticing |
| `LifecycleCreate.TwoHandlesOneCount` | src/shm_manager.cpp:272-276 | A run, with the header unguarded, in which an attach passes between create's stores of the name and of the count, and two read-write handles share a count of 1 |
| `LifecycleCreate.SecondResetWraps` | src/shm_manager.cpp:190-193 | From there the second reset wraps the count |
| `LifecycleCreate.ExactIffGuarded` | src/shm_manager.cpp:272-279 | The count equals the number of references in every run exactly when HmacEnabled keeps attach out until the header is signed |
| `LifecycleCreate.NeverWrapsIffGuarded` | src/shm_manager.cpp:190-193 | No decrement of any run wraps under the same condition and no other |
| `LifecycleTheorems.NeverUnderflows` | src/shm_manager.cpp:190-193 | In every run in which create overwrote no reference, each decrement, of a reset or of a failed attach, finds the count positive and lowers it by one |
| `LifecycleTheorems.StateNeverBackward` | include/shmfx/shm_types.h:86-95 | From create's store of Active on, the lifecycle state never moves backward in any run, and Dead is final |
| `LifecycleCreate.ListedDuringCreate` | src/shm_manager.cpp:306 | The name can be listed before create has stored the count: by an entry from before, or from an unlisted start by another create of the same name whose object was destroyed |
| `LifecycleCreate.DeadDuringCreate` | src/shm_registry.cpp:391-410 | A run, for each such start, in which a janitor marks the segment Dead while create has yet to store Active |
| `LifecycleCreate.NeverBackwardIff` | src/shm_manager.cpp:276 | The state never moves backward in any run, create included, exactly when no janitor can come upon the name during create: no entry is listed before, in the registry or in a janitor's copy of its list, and nobody else lists the name meanwhile; or the segment is the registry, which janitors skip |
| `LifecycleCreate.TwoJanitorsInside` | src/shm_manager.cpp:287-292 | A run, for each such start, in which create's initialization of the control mutex lets a second janitor in |
| `LifecycleCreate.OneInsideIff` | src/shm_manager.cpp:287-292 | The control mutex keeps janitors apart in every run exactly when no janitor can come upon the name during create |
| `LifecycleTheorems.CreateAlone` | src/shm_manager.cpp:254-312 | An undisturbed create leaves one reference, held by the owner handle, in the Active state |
| `LifecycleTheorems.NoHandleAfterDead` | src/shm_manager.cpp:368-385 | From a Dead state after create no run gains a live handle, and once no attach is on its way the count shows live and lost handles only: a late attach fails without trace |
| `LifecycleTheorems.DeadNeedsZero` | src/shm_registry.cpp:397-410 | From any reachable state in which create's count stands over no other reference and nobody acts on a zero count, a segment is marked Dead only if at some later point it had no handle, no attach on its way and no lost reference |
| `LifecycleTheorems.LeakKeepsSegment` | src/shm_registry.cpp:391-417 | Once a process has died with a reference, and nobody already acts on a zero count, no run marks the segment Dead |
| `LifecycleTheorems.TrustedOwnerStaysActive` | src/shm_registry.cpp:391-417 | As long as no janitor judges the owner dead the segment is Init until create stores Active, and then stays Active, in every run |
| `LifecycleJanitor.LoadsDecide` | src/shm_registry.cpp:391-416 | After its loads a janitor goes for the mutex exactly if the owner was judged dead and the count was zero, for the exchange exactly if the owner was judged dead, the count was not zero and the state is Active, and leaves exactly otherwise |
| `LifecycleJanitor.DeadOwnerDrains` | src/shm_registry.cpp:411-415 | A janitor that judged the owner dead and counted references drains an Active segment in its next two steps, and changes nothing else |
| `LifecycleJanitor.VisitAlone` | src/shm_registry.cpp:391-417 | An undisturbed visit leaves the segment Dead exactly if it was or the owner was judged dead twice with no reference, Draining exactly if it was or the owner was judged dead with references on an Active segment, and changes nothing else |
| `LifecycleJanitor.DrainedToDeath` | src/shm_manager.cpp:190-207 | A run from the first store of create on in which a janitor drains an attached segment, the other handle leaves, and the owner's last reset marks it Dead with nobody left |
| `LifecycleJanitor.LockMayFail` | src/shm_registry.cpp:397-399 | A janitor that cannot get the control mutex leaves the segment as it is |
| `LifecycleJanitor.DeathFreesMutex` | src/shm_registry.cpp:397-402 | A janitor that dies inside its section does not keep the control mutex from the next one |
| `LifecycleTheorems.JanitorsExclude` | src/shm_registry.cpp:397-410 | Once the control mutex is initialized at most one janitor is between its lock and unlock, whoever dies |
| `LifecycleTheorems.OnlyBumpsRefer` | src/shm_registry.cpp:403-407 | While nobody bumps the count a segment without references stays so, so the janitor that counted zero marks a segment nobody refers to |
| `LifecycleTheorems.AttachCanBeatJanitor` | src/shm_registry.cpp:403-407 | A run in which an attach bumps after the janitor's second count load, passes its re-check, and the segment is then marked Dead under a live handle |
| `Handles.ShmHandle.MoveFrom` | src/shm_manager.cpp:109-120 | The new handle is what the other was, the other is empty, no segment changes |
| `Handles.ShmHandle.MoveAssign` | src/shm_manager.cpp:122-137 | The handle's own reference is given up first, then it is what the other was; moving onto itself changes nothing |
| `Handles.ShmHandle.Reset` | src/shm_manager.cpp:183-212 | Gives up at most one reference, marks and unlinks a draining segment at the owner's last reference, and leaves the handle empty |
| `Handles.ResetMeans` | src/shm_manager.cpp:183-212 | A reset lowers the count of a read-write handle by one; it marks the segment Dead and unlinks its name exactly at the owner's last reference to a draining segment that is not the registry |
| `Handles.ResetAgrees` | src/shm_manager.cpp:183-212 | The in-place reset is the interleaved reset run alone |
| `Heartbeat.HeartbeatSafety` | src/shm_lifecycle.cpp:28-52 | In every interleaving a non-empty owner list has a joinable running worker not told to stop, a set stop flag means an empty list, no header is listed twice, and at most one worker is inside a pass |
| `Heartbeat.NoTickAfterUnregister` | src/shm_lifecycle.cpp:252-267 | Once its unregister critical section has run, no worker touches a header until it is registered again |
| `Heartbeat.StopStays` | src/shm_lifecycle.cpp:41-52 | While nobody registers, a set stop flag stays set, nobody new waits, and a worker that enters is gone for good |
| `Heartbeat.WaitEndsIff` | src/shm_lifecycle.cpp:252-267 | In every reachable state a waiting unregister is sure to return after the worker's next entry, as long as nobody registers, exactly when the stop flag is still set or the worker is gone |
| `Heartbeat.WaitingIsReachable` | src/shm_lifecycle.cpp:246-249 | A register between an unregister's critical section and its join resets the stop flag |
| `Heartbeat.WaitCanRepeat` | src/shm_lifecycle.cpp:264-266 | From there the awaited worker can make pass after pass and return to the same state, so the wait has no bound |
| `HeartbeatMemory.HeartbeatGlobals.RegisterOwner` | src/shm_lifecycle.cpp:235-250 | In place: beats and stamps the header, appends it to the list unless it is listed, and starts a worker with the stop flag cleared if none can be joined |
| `HeartbeatMemory.HeartbeatGlobals.UnregisterOwner` | src/shm_lifecycle.cpp:252-263 | In place: removes every occurrence of the header and nothing else, and takes the worker away and sets the stop flag exactly when the list becomes empty under a joinable worker |
| `HeartbeatMemory.WithoutJoins` | src/shm_lifecycle.cpp:256-258 | Removing a header listed once joins what stands before it and after it, in order |
| `HeartbeatMemory.HeartbeatGlobals.TickLocked` | src/shm_lifecycle.cpp:28-38 | Every listed header beats once per occurrence and is stamped with the time; no other header changes |
| `HeartbeatMemory.OccursOnce` | src/shm_lifecycle.cpp:28-38 | In a list without duplicates one pass is one beat per header |
| `HeartbeatMemory.OwnerDeadIff` | src/shm_lifecycle.cpp:207-233 | An owner is judged dead exactly when it has no process, its process is gone or has another start time, or its last beat is more than three seconds old, and a later look agrees |

## Left out

- POSIX calls (`shm_open`, `mmap`, `ftruncate`, `fchmod`, `shm_unlink`), errno mapping and descriptor cleanup: foreign calls; where a property needs them their outcome is a parameter.
- `/proc` scanning, `kill`, clocks and start-time parsing: inputs to the janitor's and reader's decisions.
- C++ memory orders and fences: steps interleave in a sequentially consistent memory.
- HMAC key loading from the environment or a file: the key is a parameter.
- `src/shm_sync.cpp`, `apps/logging`, `Result` and error strings, examples and benchmarks: they carry no property of their own.
- `ShmMutexGuard` as an object: its lock, mark and unlock outcomes are the mutex states of `RegistryCrash` and `RegistryMemory`, and its moves are those of `Handles`.
- Attach and create as single methods: their name, header, MAC and quota checks are modelled one by one, and their stores to the count, the state and the control mutex are steps of `Lifecycle`. Create's stores of the sizes, of the name and of the MAC are one step each.
- The creation of the registry segment itself (src/shm_registry.cpp:191-234), which stores the state before the count; `Lifecycle` has the order of create.
- A control mutex that is locked before create initializes it: taken to work like a free one, as cleared memory does.
- A header whose MAC is 32 zero bytes: `Lifecycle` takes a header with `HmacEnabled` to be unacceptable until it is signed, and `HeaderMac.UnsignedIsRejected` states that exception.
- Listing or creating when the registry segment itself could not be opened: the registry is present in the model.
- The janitor's age rule for draining segments (src/shm_registry.cpp:418-427): it unlinks a name and writes no header field.
- Cursor wrap: ring runs end before a cursor reaches 2^63, where the signed difference of the code is exact; `RecordRing` methods require it.
- RegistryCrashProof.CrashSafety: the copy of a whole entry is one step there; Seqlock.NeverKeepsMixedIff says what deaths inside the copy can leave.
- Seqlock.SnapshotsAreWhole: sequence words are unbounded, so a 32-bit word that comes round within one read is not modelled.
- RegistryMemory.Registry.SnapshotSlot: states the behaviour without interference; interleaved readers are in `Seqlock`.
- RingMemory.RecordRing.ClaimTail: states the uncontended loop; contention is in `RingProtocol`.
- LifecycleTheorems.DeadNeedsZero: for runs with fewer than 2^32 references at any time, as the 32-bit count cannot tell more apart.
- LifecycleTheorems.NeverUnderflows: for states with fewer than 2^32 references, for the same reason, and where create overwrote no reference; LifecycleCreate.NeverWrapsIffGuarded says when that is sure.
- LifecycleTheorems.LeakKeepsSegment: for runs with fewer than 2^32 references at any time, for the same reason.
- Quota.QuotaHolds: requests run one after another; QuotaOverlap.QuotaHoldsApart and QuotaOverlap.OverlapRun say what overlapping creates do. A janitor's update of the time an entry was last seen is one step there.
- HeartbeatMemory.HeartbeatGlobals.TickLocked: the null test of the loop is left out, since only addresses of headers are ever listed.

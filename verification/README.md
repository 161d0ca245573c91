# SHMemora: verification of the token table and the key-value store

SHMemora keeps two hand-written structures in one shared byte memory. A protection table, an
open-addressing hash table with linear probing and no tombstones, maps tokens to memory regions and
guards every access. On top of it a key-value store keeps an index of 8-byte head words and entries
laid out as 64-byte key, value, 8-byte next word, placed by a bump allocator in a partition per host.
This project models both, for the 16-bit build, the 256-bit build and the unprotected build, and
proves what they guarantee over single calls, whole runs and arbitrary interleavings.

## Files

| file | content |
|---|---|
| FibonacciHash.dfy | the 16-bit multiplicative hash and the distance between homes |
| TableSpec.dfy | one probe, insertion, revocation, clear and access decision; laws from any table state |
| TableRuns.dfy | whole sequential runs of the table against a finite map, both builds |
| ConcurrentInsert.dfy | interleaved insertions and lookups, one slot access per step, from any cleared table |
| StaleSlots.dfy | exactly which leftovers of a clear do harm to them |
| LoneThread.dfy | the step machine of ConcurrentInsert run by one thread against the sequential table |
| TokenMac.dfy | the FNV-1a loop and token generation |
| Memory.dfy, Layout.dfy | byte memory, little-endian words, index tables and partitions |
| Chains.dfy | bucket chains of any length in byte memory |
| UnprotectedStore.dfy | the unprotected store object and its operations on chains |
| PartitionClash.dfy | which keys a partition can hold at all |
| StoreRefinement.dfy | whole runs of that object against a bucket map and a key-value map |
| BatchAllocator.dfy | where batched inserts go, and which of them leave the partition |
| ProtectedStore.dfy, Gshm.dfy | guarded operations, with any tokens, and the protected store object, for either build |
| RefusedPut.dfy | put when the table refuses tokens it draws |
| BatchedProtection.dfy | batched inserts of the protected store, which of them write their entry |
| GuardedMemory.dfy | guarded stores and reads mixed with table operations |
| Transparency.dfy | the protected object against the unprotected one |
| Publication.dfy | several hosts on one memory, one memory call per step |
| LoneHost.dfy | the step machine of Publication run by one host against the sequential store |
| Overlaps.dfy | one get or del followed through the steps of all other hosts |
| Linearization.dfy | all interleavings against one map from bucket to pair |

## Reading the model

- A build is a value of `TableSpec.Build`: its hash, its reserved token, and what a clear wipes. The
  table and store code is shared between `src/gshmp.cpp` and `src/gshmp_256.cpp`, so it is modelled
  once. `TableRuns.Build16` is the 16-bit build. `TableRuns.Build256` leaves the hash arbitrary. Only
  `src/gshmp.cpp` defines put; for the 256-bit build, whose header merely declares it, what is said of
  put of the protected store describes no code.
- Objects follow the program: `GshmObject.Gshm` and `UnprotectedStore.GshmUpr` hold the slot array,
  the byte array and the allocator fields and change them in place. Each method is proved equal to a
  function on table and memory values, and the laws are about those functions.
- The random source is a stream parameter, the host id a parameter. `compare_exchange_weak` is taken
  as strong. Machine words are little-endian.
- The reserved token 0 bypasses every check, and revoking it resets its home slot whatever that holds.
- Walks take the chain they follow as a ghost argument: on a cyclic chain the loops do not end.
  `Chains.ChainUnique` shows that memory leaves no choice in it. put of the protected store takes the
  number of rounds its loop makes instead, because a refused token makes it try the same entry again.
- A granted access that leaves the data area (its end may wrap at 64 bits) has the outcome `OUTSIDE`,
  about which nothing more is said: the program has no check there, and the table lies directly below
  the data area.

Where the naive reading is false, the exact statement is proved instead:

- insert, and put on a miss, write a zero next word and overwrite the head. A bucket therefore holds at
  most one entry and a colliding insert displaces the old key. The store is a map from bucket to pair,
  and an ordinary key-value map exactly as long as nothing is displaced
  (`StoreRefinement.StepIsMapUnlessDisplacing`).
- With an arbitrary hash a revocation hides another token exactly when the freed slot lies on that
  token's probe path (`TableSpec.RevokeAndOthers`, `TableRuns.RevocationHidesCollidingToken`). With the
  16-bit hash that never happens.
- A refused get or update still returns true on a matching key (`ProtectedStore.GetTransparentIff`,
  `ProtectedStore.UpdateTransparentIff`). A refused del splices in 0 and so cuts the chain
  (`ProtectedStore.RefusedDeleteCuts`). In every represented store that is the requested removal, so del
  is not protected at all: it works under any token (`Transparency.DeleteIsUnguarded`).
- An insert whose entry token is refused publishes whatever bytes lay there and reports success. A token
  that is drawn again while it is still held does this (`ProtectedStore.RepeatedTokenPublishesOldBytes`,
  `Transparency.RepeatedTokenLosesAnInsert`); the exact condition before the call is
  `ProtectedStore.InsertPublishesIff`.
- A refused token that put draws for an entry makes it draw another for the same entry. put passes over a
  match exactly when the first token drawn for it that opens its key or its next word opens only the next
  word (`RefusedPut.FirstMatchIsHitIff`); short of that it finds what an unguarded walk finds, however many
  tokens are refused (`RefusedPut.PutFollowsFind`). A refused index token makes it append without having
  looked, so that the new pair can be lost (`RefusedPut.RefusedIndexLosesThePair`).
- A granted range need not lie in the region: one that runs past 2^64 may pass the check with its wrapped
  end (`TableSpec.PermitsMeansContained`, `TableSpec.WrappedRangeIsPermitted`).
- Host 0's partition starts inside the index area, so its keys must have byte 7 below 64
  (`Layout.TableAndPartition`). Publication leaves a complete entry wherever the allocator stands exactly
  under that condition (`PartitionClash.AlwaysReadsIffClear`), and otherwise host 0 can lose its very first
  insert (`PartitionClash.HostZeroLosesItsInsert`).
- The first refill of the batch allocator hands out the partition start again
  (`BatchAllocator.SlotsCollideOnce`). Batched entries stay disjoint only while an entry fits into
  `kv_size`, which keeps its constructor value. Nothing checks the partition
  (`BatchAllocator.LeavesPartitionIff`). In the protected stores a batch token covers, from the second
  batch on, only the first entry of its batch (`BatchedProtection.BatchTokenCoversOnlyItsRefill`): all
  other inserts report success and leave a head that leads to unwritten bytes
  (`BatchedProtection.OnlyRefillsAreStored`, `BatchedProtection.ServeGuardedBatches`).
- Beside other hosts, del stores the zero next word it read whatever the head has become meanwhile. It
  removes its own entry exactly when no other host has stored that head word since del read it
  (`Overlaps.DelUnlinksItsEntryUnlessOverlapped`). Otherwise it drops a foreign entry exactly when the
  last such store was an insert's (`Overlaps.OverlappedDelDropsForeignIff`);
  `Overlaps.OverlappedDelDropsAnothersEntry` is a run in which it does. An interleaving is linearizable, at
  the steps that store or read head words, exactly when every unlinking del still finds its key in the
  bucket (`Linearization.LinearizableIffOrderly`), so always without such an overlap
  (`Linearization.WithoutOverlapLinearizable`).
- Lookups and inserts that run beside inserts see what a clear left in the slots. `memset` and the 16-bit
  clear leave nothing. The 256-bit clear resets only the valid flags; a token kept in a slot can then be
  let in without having been issued, or be refused as a duplicate, and a kept size or permission bit can
  let a lookup in. Without these leftovers, hence after every wiping clear, nothing of the kind happens
  under any hash; under a hash that gives every slot two tokens, as `StaleSlots.WideModulo` for the
  256-bit build, each of them does harm (`StaleSlots.WhichClearIsSafe`).

`README.md` of the repository calls tokens unforgeable. Nothing here says so: tokens are whatever the
random source yields. The comments "1G keys" and "1M entries" beside `KEY_SPACE` and `HASH_TABLE_SIZE`
do not match the constants 2^20 and 2^25, which the model uses.

## Model

| member | source | states |
|---|---|---|
| FibonacciHash.HomeIsTopBits | src/gshmp.cpp:17-20 | The home of every token is the one number below 2^20 whose slice of 2^44 holds the product with the multiplier, less some multiple of 2^64 |
| FibonacciHash.MultiplesStayApart | src/gshmp.cpp:17-20 | No multiple d of the multiplier with 0 < d < 75025 comes within ten home units of a multiple of 2^64 |
| FibonacciHash.DistinctTokensAreTenApart | src/gshmp.cpp:17-20 | Any two distinct 16-bit tokens have homes at circular distance at least 10 among the 2^20 homes |
| FibonacciHash.TenIsTight | src/gshmp.cpp:17-20 | Tokens 0, 1 and 46369 have homes 0, 648055 and 648045: the last two attain distance 10, so the bound cannot be raised |
| TableSpec.ProbeUnique | src/gshmp.cpp:59-71 | The stopping distance is the unique one: all earlier slots valid with other tokens, the slot itself empty or matching, or the circle closed |
| TableSpec.ProbeBound | src/gshmp.cpp:420-426 | From any table state a lookup passes at most as many slots as are valid, and never more than the table size |
| TableSpec.FullCircle | src/gshmp.cpp:96-100 | A probe that closes the circle means every slot is valid and holds another token |
| TableSpec.DecidingSlot | src/gshmp.cpp:73-103 | Slot by slot, upward from the home and around the table: the first slot not taken by another token decides what insertion, lookup and revocation of a token do, and is the only slot they change |
| TableSpec.NoDecidingSlot | src/gshmp.cpp:96-100 | A table full of other tokens: insertion returns -1, lookup and revocation fail |
| TableSpec.ReservedToken | src/gshmp.cpp:420-448 | The reserved token is granted every access; revoking it resets the flag of its home slot, whatever that holds |
| TableSpec.InsertThenLookup | src/gshmp.cpp:73-86 | From any state an accepted token is found by the next lookup with exactly its region |
| TableSpec.InsertKeepsLookup | src/gshmp.cpp:73-110 | From any state, inserting any token never changes what a succeeding lookup of another finds |
| TableSpec.PresentIsRefused | src/gshmp.cpp:87-92 | -2 is returned exactly when the token's own lookup succeeds |
| TableSpec.RevokeThenLookup | src/gshmp_256.cpp:562-599 | A successful revoke of an ordinary token had a match, and its next lookup fails |
| TableSpec.HoleAndLookup | src/gshmp_256.cpp:591-591 | Resetting a slot that holds another token makes a lookup fail exactly when the slot is on its probe path, else changes nothing |
| TableSpec.RevokeAndOthers | src/gshmp_256.cpp:562-599 | After a successful revoke every other token's lookup is unchanged, or fails exactly when the revoked slot lay on its path |
| TableSpec.PermissionDecides | src/gshmp.cpp:445-448 | A token accepted for a region reads inside it exactly when its permission number is odd and writes there exactly when the number modulo 4 is 2 or 3 |
| TableSpec.PermissionsZeroToThree | src/gshmp.cpp:518-521 | So 0 opens nothing, 1 only reading, 2 only writing, 3 both |
| TableSpec.PermitsMeansContained | src/gshmp.cpp:435-448 | For all 64-bit ranges and regions that do not wrap: containment and an odd permission number (for reading) or one that is 2 or 3 modulo 4 (for writing) imply a grant, and a grant without containment happens exactly when the range runs past 2^64 and its wrapped end lies below the region's end |
| TableSpec.EmptyRangePermitted | src/gshmp.cpp:435-448 | An empty range is granted exactly at the offsets of the region and at its end, under the same permission numbers |
| TableSpec.WrappedRangeIsPermitted | src/gshmp.cpp:440-443 | A range of 16 bytes at 2^64 - 8 is granted by a region of one entry |
| TableRuns.OpenAddressingIsAMap | src/gshmp_256.cpp:86-116 | Any hash: over every run of inserts, checks and clears from an empty table all results equal those of a finite map, tokens are unique, no slot on a path is skipped and lookups equal map lookups |
| TableRuns.RunsWithoutRevocationAreMapRuns | src/gshmp_256.cpp:380-397 | The same from any state that represents a map with closed probe paths |
| TableRuns.RefusalReasons | src/gshmp_256.cpp:94-113 | After any such run, -2 exactly when a slot holds the token, -1 exactly when none does and all slots are valid; a refusal changes nothing |
| TableRuns.FreshRunsStayUnique | src/gshmp_256.cpp:86-116 | Any hash, with revocations: if tokens are issued only while in no valid slot, no token is ever in two valid slots |
| TableRuns.AbsentStaysRefused | src/gshmp_256.cpp:380-397 | A token in no valid slot is refused by every check of a run until it is issued |
| TableRuns.RevokedStaysRefused | src/gshmp_256.cpp:562-599 | Any hash, whole runs: a successfully revoked token is refused at every later check until reissued |
| TableRuns.RevocationHidesCollidingToken | src/gshmp_256.cpp:591-595 | Of two tokens issued on an empty table, revoking the first hides the second, and lets it be stored twice, exactly when their homes coincide |
| TableRuns.WideClearKeepsTokens | src/gshmp_256.cpp:614-619 | The 256-bit clear resets every flag and keeps tokens and regions; the reserved token is id 0 with 32 zero bytes |
| TableRuns.SixteenBitClearWipes | src/gshmp.cpp:652-659 | The 16-bit clear leaves zero slots; token 0 is granted every access |
| TableRuns.HomedProbe | src/gshmp.cpp:17-20 | 16-bit build: while every valid slot is a home, a probe stops at its first slot |
| TableRuns.HomedStep | src/gshmp.cpp:599-636 | 16-bit build: each insert, revoke (also of the reserved token), clear and check acts as on the map and keeps tokens in their homes |
| TableRuns.HomedHasRoom | src/gshmp.cpp:17-20 | 16-bit build: at most 2^20 of the 2^25 slots are ever valid |
| TableRuns.SixteenBitTableIsAMap | src/gshmp.cpp:73-110 | 16-bit build: over every run of inserts, revokes, clears and checks all codes and decisions equal a finite map's, every valid token is in its home, no probe moves and no fresh token is refused |
| ConcurrentInsert.ConcurrentInsertsAreSafe | src/gshmp.cpp:73-110 | Every interleaving, from any table without valid slots that has kept none of the tokens being inserted: no duplicate verdict, no slot claimed twice, a completed insert is complete in its slot and found there, -1 only when all slots are taken |
| ConcurrentInsert.AllowedSawCompleteEntry | src/gshmp.cpp:80-86 | A lookup beside insertions that is allowed has seen the complete region of its own token, if the table kept neither that token nor a size or permission bit |
| ConcurrentInsert.LaterLookupIsExact | src/gshmp.cpp:419-448 | A lookup that starts after its token's insert completed is allowed exactly when the inserted region permits the access, whatever sizes and permissions the table kept |
| ConcurrentInsert.EventKeepsInv | src/gshmp.cpp:77-106 | One step of any thread keeps ownership of slots, half-written contents, probe paths and reader knowledge |
| ConcurrentInsert.WritersReturn | src/gshmp.cpp:77-106 | An insert has returned after at most 2^25 probes (2^26 + 4 own steps), however others are scheduled |
| LoneThread.WriterFillsInOrder | src/gshmp.cpp:80-86 | A free slot is filled in five steps: flag, token, offset, size, permission |
| LoneThread.LoneWriterInserts | src/gshmp.cpp:73-110 | From any table state an insertion alone leaves the table and returns the code of the sequential insertion |
| LoneThread.LoneReaderDecides | src/gshmp.cpp:419-448 | From any table state a lookup alone is allowed exactly when the access paths grant the access |
| StaleSlots.StaleTokenIsDuplicate | src/gshmp.cpp:87-92 | A run in which an insert is refused with -2 although nobody else inserts its token, for any table that kept it |
| StaleSlots.ClearedTokenIsLetIn | src/gshmp_256.cpp:614-619 | A run after the 256-bit clear in which a lookup of a cleared token is allowed although no insert of it exists |
| StaleSlots.StaleTokenLetsIn | src/gshmp.cpp:80-86 | The same for any kept token, whatever region was kept with it |
| StaleSlots.KeptBitLetsIn | src/gshmp.cpp:80-86 | A run in which a kept permission bit lets in a lookup that the inserted region would not permit |
| StaleSlots.KeptSizeLetsIn | src/gshmp.cpp:80-86 | The same for a kept size |
| StaleSlots.NeverDuplicateIffTokensGone | src/gshmp.cpp:77-92 | Over all inserts and interleavings there is no duplicate verdict if no slot kept an ordinary token, under any hash; if every slot is home to two tokens, exactly then |
| StaleSlots.OnlyEntitledIffNothingKept | src/gshmp.cpp:77-86 | Likewise lookups are allowed only by completed inserts if no slot kept an ordinary token, a size or a permission bit, under any hash; if every slot is home to two tokens, exactly then |
| StaleSlots.WhichClearIsSafe | src/gshmp_256.cpp:614-619 | The wiping clear is safe under any hash, and so is the flags-only clear when the slots hold nothing of that kind; the latter exactly then, if every slot is home to two tokens |
| StaleSlots.SixteenBitTableIsSafe | src/gshmp.cpp:652-659 | In the 16-bit build both hold after every clear and for the zeroed table |
| StaleSlots.WideModuloIsCrowded | src/gshmp_256.cpp:86-116 | A hash of 256-bit tokens that gives every slot two of them |
| StaleSlots.SixteenBitIsNotCrowded | src/gshmp.cpp:17-20 | The 16-bit hash does not |
| TokenMac.SimpleHash32 | src/gshmp.cpp:24-31 | The loop computes the iterated round over the four bytes |
| TokenMac.GenerateShkey | src/gshmp.cpp:113-122 | The cast keeps the low half of the MAC, or of the random number below the key space |
| TokenMac.KnownDigest | src/gshmp.cpp:24-31 | The digest of the word 0 is 0x4B95F515 |
| TokenMac.KnownToken | src/gshmp.cpp:113-118 | Token id 0 is hashed as the secret word: digest 0xD83256F9, token 0x56F9 |
| TokenMac.RoundIsBijective | src/gshmp.cpp:26-29 | For each fixed byte the round is a bijection of the 32-bit states, with its inverse |
| TokenMac.LowHalfEvolvesAlone | src/gshmp.cpp:26-29 | The low 16 bits after a round depend only on the low 16 bits before and the byte |
| TokenMac.LowHalfSeparates | src/gshmp.cpp:26-29 | For equal bytes a round keeps low halves apart; for equal low halves it separates exactly different bytes |
| TokenMac.OneByteChangesToken | src/gshmp.cpp:113-118 | Token ids that differ in exactly one byte give different 16-bit tokens |
| Memory.DecodeEncode | src/gshmp_upr.cpp:194-194 | A stored word reads back as the number stored |
| Memory.EncodeDecode | src/gshmp_upr.cpp:103-103 | A word read and stored again restores its bytes |
| Memory.WordBytes | src/gshmp_upr.cpp:103-103 | A word is its eight bytes, the lowest first |
| Layout.KeyWordBytes | src/gshmp.cpp:183-184 | The shift and the mask select key byte 7 and the low 17 key bits |
| Layout.BucketIs | src/gshmp.cpp:183-186 | The head word of a key lies at 2^26 + 2^20 * byte 7 + 8 * (byte 0 + 2^8 * byte 1 + 2^16 * the lowest bit of byte 2) |
| Layout.BucketInTable | src/gshmp.cpp:183-186 | Every head word lies aligned inside the 2^20-byte table of key byte 7 |
| Layout.BucketsEqualOrDisjoint | src/gshmp.cpp:183-186 | Two keys share a head word exactly when they agree on byte 7 and the low 17 bits; otherwise the words do not overlap |
| Layout.CollidingKey | src/gshmp.cpp:183-186 | Every key shares its head word with some other key |
| Layout.PartitionsDisjoint | src/gshmp.cpp:246-247 | Data partitions follow each other from 2^27 on, 2^30 bytes each, host 1's from 0x48000000; those of different hosts are disjoint |
| Layout.TableAndPartition | include/gshmp.h:22-25 | An index table and a host's partition are disjoint exactly when the table id is below 64 or the host id at least 1 |
| Layout.BucketClearOfPartition | include/gshmp.h:22-25 | Under that condition a key's head word ends before the partition starts |
| PartitionClash.AlwaysReadsIffClear | src/gshmp_upr.cpp:182-195 | A published entry reads back complete from every memory and allocator position exactly when the key's index table is clear of the partition, for entries up to 3/4 of a partition |
| PartitionClash.HostZeroLosesItsInsert | src/gshmp_upr.cpp:182-195 | Host 0's first insert, of a key with byte 7 equal to 64 and low 17 bits 0, succeeds and the next get fails |
| Chains.ChainUnique | src/gshmp_upr.cpp:105-112 | Memory determines the chain that a walk visits |
| Chains.ChainUnfolds | src/gshmp_upr.cpp:103-112 | A chain is exactly what following the words finds: a zero word ends it, any other leads to an entry whose next word heads the rest |
| Chains.UpdateInPlace | src/gshmp_upr.cpp:136-142 | Rewriting one value leaves the chain, all other pairs and all other bytes |
| Chains.Relink | src/gshmp_upr.cpp:302-314 | Redirecting a link drops exactly the skipped entries and keeps order and contents of the rest |
| Chains.EntryWritten | src/gshmp_upr.cpp:190-192 | The three writes lay out key, value and zero next, and touch nothing else |
| Chains.EntryLayout | src/gshmp_upr.cpp:190-192 | An entry byte by byte: 64 of key, the value, eight of next word with the lowest first |
| UnprotectedStore.GetReadsFirstMatch | src/gshmp_upr.cpp:93-123 | On chains of any length get returns the value of the first pair with the key and fails exactly when none has it |
| UnprotectedStore.UpdateReplacesFirstMatch | src/gshmp_upr.cpp:126-145 | update changes only the first match's value bytes |
| UnprotectedStore.DeleteRemovesFirstMatch | src/gshmp_upr.cpp:287-319 | del removes exactly the first match, keeps the others in order and changes only one link word |
| UnprotectedStore.InsertLeavesOneEntry | src/gshmp_upr.cpp:182-200 | Whatever chain a bucket had, insert leaves it with the new entry alone, at the allocator's address, and changes no byte outside that entry and the head; past the partition end it refuses and changes nothing |
| UnprotectedStore.GshmUpr.constructor | src/gshmp_upr.cpp:27-38 | The allocator starts at the partition start with a full batch |
| UnprotectedStore.GshmUpr.ReadCxl | src/gshmp_upr.cpp:321-338 | Copies out exactly the bytes of the range |
| UnprotectedStore.GshmUpr.WriteCxl | src/gshmp_upr.cpp:340-367 | Changes exactly the bytes of the range |
| UnprotectedStore.GshmUpr.CompareCxl | src/gshmp_upr.cpp:370-385 | 0 exactly when the bytes are equal, else the difference at the first mismatch |
| UnprotectedStore.GshmUpr.Get | src/gshmp_upr.cpp:93-123 | The walk loop ends on every finite chain and answers for its first match |
| UnprotectedStore.GshmUpr.Update | src/gshmp_upr.cpp:126-145 | The walk loop ends and writes the first match's value in place |
| UnprotectedStore.GshmUpr.Insert | src/gshmp_upr.cpp:148-201 | Plain and batched: which entry is written, the bytes afterwards, the allocator, and refusal past the partition end |
| UnprotectedStore.GshmUpr.Put | src/gshmp_upr.cpp:237-285 | With the hard-coded sizes: update on a match, else append or refuse |
| UnprotectedStore.GshmUpr.Del | src/gshmp_upr.cpp:287-319 | The walk loop ends and redirects the link before the first match |
| StoreRefinement.GetRefines | src/gshmp_upr.cpp:93-123 | get answers from the bucket's pair exactly when its key is the argument |
| StoreRefinement.InsertRefines | src/gshmp_upr.cpp:182-200 | insert overwrites its bucket only, at the partition start plus the number of entries times the entry size, and fails exactly when the partition is full |
| StoreRefinement.UpdateRefines | src/gshmp_upr.cpp:126-145 | update acts exactly when the bucket's key is the argument and changes no other bucket |
| StoreRefinement.DeleteRefines | src/gshmp_upr.cpp:287-319 | del empties the bucket exactly when its key is the argument and changes no other bucket |
| StoreRefinement.InsertsUntilFull | src/gshmp_upr.cpp:182-195 | From an empty store, in every run of insert, get, update and del, an insert succeeds exactly while fewer than floor(2^30 / entry size) inserts precede it |
| StoreRefinement.CapacityIs | include/gshmp.h:25-25 | The capacity is the quotient of 2^30 by 72 plus the value size, and 3273603 for 256-byte values |
| StoreRefinement.DefaultInsertsUntilFull | src/gshmp_upr.cpp:182-195 | With 256-byte values an insert succeeds exactly while fewer than 3273603 inserts precede it |
| StoreRefinement.StepIsMapUnlessDisplacing | src/gshmp_upr.cpp:182-200 | Answers always equal an ordinary map's; contents agree afterwards exactly when no other key was displaced |
| StoreRefinement.RunIsMapWithoutDisplacement | src/gshmp_upr.cpp:93-319 | Over every run without displacement the store is an ordinary key-value map |
| StoreRefinement.EveryKeyCanBeDisplaced | src/gshmp_upr.cpp:182-200 | For every inserted key there is another whose insert makes the first one's get fail |
| StoreRefinement.ApartKeysNeverDisplace | src/gshmp_upr.cpp:93-319 | Runs whose inserted and put keys are pairwise equal or different in byte 7 or the low 17 bits never displace |
| StoreRefinement.ZeroedStoreIsAMap | src/gshmp_upr.cpp:93-319 | From a zeroed index every such run on the bytes answers like an ordinary key-value map with the partition's capacity |
| StoreRefinement.StoreStep | src/gshmp_upr.cpp:93-319 | Each operation on the bytes answers like the bucket map and represents its result |
| StoreRefinement.StoreRun | src/gshmp_upr.cpp:93-319 | So does every run of insert, put, get, update and del |
| StoreRefinement.Serve | src/gshmp_upr.cpp:93-319 | The object's methods, called in any admissible order, carry out that run |
| BatchAllocator.OffsetIs | src/gshmp_upr.cpp:160-181 | Closed form of the n-th batched offset in n / batch and n % batch |
| BatchAllocator.OffsetIsSlot | src/gshmp_upr.cpp:160-181 | The same as a slot number: n, or one batch less at a refill |
| BatchAllocator.SlotsCollideOnce | src/gshmp_upr.cpp:160-164 | Two batched inserts share a slot exactly when they are insert 0 and insert batch_kvs |
| BatchAllocator.EntriesApartIffTheyFit | src/gshmp_upr.cpp:160-181 | All other entries are pairwise disjoint exactly when an entry fits into kv_size |
| BatchAllocator.OffsetBound | src/gshmp_upr.cpp:160-181 | Insert n stays below the end of its batch |
| BatchAllocator.BatchedEntriesSurvive | src/gshmp_upr.cpp:160-181 | After any number of batched inserts every entry is intact, except the first once a second batch has begun |
| BatchAllocator.LeavesPartitionIff | src/gshmp_upr.cpp:160-181 | Insert n leaves the host's partition exactly when its slot, n or one batch less at a refill, does |
| BatchAllocator.ServeBatch | src/gshmp_upr.cpp:160-181 | The object in batch mode publishes any sequence of pairs at these offsets |
| GshmObject.Gshm.FindAvailableSlot | src/gshmp.cpp:59-71 | The slot where the probe stops, or the exit on a full table |
| GshmObject.Gshm.InsertProtectionEntry | src/gshmp.cpp:73-110 | The claim loop yields the specified code and table |
| GshmObject.Gshm.ProbeLoop | src/gshmp.cpp:478-492 | The access and revoke loops stop at the same slot as the others; the guard on the probe count never fires |
| GshmObject.Gshm.RevokeCxl | src/gshmp.cpp:599-636 | Resets one valid flag or reports failure; the reserved token always succeeds |
| GshmObject.Gshm.ClearProtectionTable | src/gshmp.cpp:652-659 | Every slot is wiped, or only its valid flag reset, as the build says |
| GshmObject.Gshm.Acquire | src/gshmp.cpp:638-649 | Draws the next token and ignores whether the table took it |
| GshmObject.Gshm.ReadCxl | src/gshmp.cpp:410-464 | Granted inside the data area: exactly the bytes; refused: -1 and the buffer as it was |
| GshmObject.Gshm.WriteCxl | src/gshmp.cpp:466-545 | Granted inside the data area: exactly the range changes; refused: -1 and no change. Which tokens are granted is said by TableSpec.DecidingSlot, PermitsMeansContained and PermissionDecides |
| GshmObject.Gshm.CompareCxl | src/gshmp.cpp:548-596 | Refused: -2; granted inside the data area: 0 exactly when equal, else the difference at the first mismatch |
| GshmObject.Gshm.Get | src/gshmp.cpp:180-210 | Tokens acquired along the walk, and the guarded answer |
| GshmObject.Gshm.Update | src/gshmp.cpp:213-233 | Tokens acquired along the walk, and the guarded write |
| GshmObject.Gshm.Insert | src/gshmp.cpp:236-290 | Plain and batched, with any tokens: the index token, the entry's or the batch's token, four guarded writes, the allocator, the token returned, and the exit on a full partition. What the tokens are worth and which bytes are left is said by ProtectedStore.InsertTokens, InsertPublishesIff and by BatchedProtection |
| GshmObject.Gshm.Put | src/gshmp.cpp:326-374 | With any tokens under which its loop ends: a refused index token skips the walk, a refused walk token is followed by another for the same entry, and the miss appends under guards. What this comes to on chains is said by RefusedPut |
| GshmObject.Gshm.Del | src/gshmp.cpp:376-408 | The guarded removal; nothing is acquired |
| ProtectedStore.AcquiresKeepLookup | src/gshmp.cpp:638-649 | Tokens acquired inside the operations never alter what an existing token permits |
| ProtectedStore.AcceptedIsFound | src/gshmp.cpp:638-649 | Each accepted token is found with its region after all later acquisitions |
| ProtectedStore.FreshIsAccepted | src/gshmp.cpp:73-110 | From any state and any hash a token in no valid slot is accepted while a slot is free |
| ProtectedStore.FreshTokensAreAccepted | src/gshmp.cpp:638-649 | Distinct tokens in no valid slot are all accepted while there is room for them |
| ProtectedStore.WalkTokens | src/gshmp.cpp:186-193 | get and update draw one token for the eight bytes of the head word and one for exactly each entry from the first up to the match; accepted ones are found with these regions |
| ProtectedStore.GetTokensOnlyRead | src/gshmp.cpp:186-222 | A get's tokens open their entries for reading and nothing at all for writing, an update's open them for both |
| ProtectedStore.InsertTokens | src/gshmp.cpp:243-277 | insert draws a token for the eight bytes of the head word and, unless the partition is full, one for exactly the new entry, both for reading and writing |
| ProtectedStore.PutTokens | src/gshmp.cpp:334-357 | put's accepted tokens: the head word, each 328-byte entry up to the match and, on a miss with room, exactly the new entry |
| ProtectedStore.PutMayWalk | src/gshmp.cpp:338-348 | put's own accepted tokens open the head word and every entry it visits |
| ProtectedStore.PublishWhenAccepted | src/gshmp.cpp:278-283 | With accepted tokens insert's guarded writes are the plain ones |
| ProtectedStore.PublishesIffSettled | src/gshmp.cpp:278-283 | insert leaves the unprotected store's bytes exactly when each of its four writes is granted or finds its bytes already there |
| ProtectedStore.RefusedEntryIsPublished | src/gshmp.cpp:278-288 | With a granted index token and a refused entry token the head leads to the bytes that lay there before |
| ProtectedStore.InsertPublishesIff | src/gshmp.cpp:243-283 | Judged before the call: insert leaves the unprotected store's bytes exactly when each of its two tokens is reserved, will be accepted or is held for a region that permits its writes, up to writes that find their bytes already there |
| ProtectedStore.RepeatedTokenPublishesOldBytes | src/gshmp.cpp:277-288 | An accepted index token and an entry token still held for a region that ends before the entry: the head leads to the bytes that lay there before |
| ProtectedStore.AcceptedPutIsPut | src/gshmp.cpp:326-374 | With accepted tokens put's loop ends within one round per entry, and bytes, answer, allocator and acquisitions are those of the unprotected put |
| ProtectedStore.PutWalkStable | src/gshmp.cpp:341-348 | A walk that has ended does not depend on the bound put on its rounds |
| RefusedPut.StaysWhileIdle | src/gshmp.cpp:341-348 | While its tokens open neither a matching key nor the next word, put stays at the entry and only draws tokens |
| RefusedPut.StaysUntilOpened | src/gshmp.cpp:341-348 | After any number of such rounds the first token that opens one of them ends the walk at a match or leads it to the next entry |
| RefusedPut.MatchIsSkippedIff | src/gshmp.cpp:341-348 | A walk that ends hits the matching entry it stands at exactly when the first of the tokens drawn for it that opens its key or its next word opens the key |
| RefusedPut.FirstMatchIsHitIff | src/gshmp.cpp:338-348 | The same for a whole put on a chain of any length: before the first match nothing but the head word and earlier entries is acquired, and the match is hit exactly under that condition |
| RefusedPut.PutFollowsFind | src/gshmp.cpp:326-374 | If the index token opens the head word and no token still to be drawn is held for a region that opens the first match's next word without its key, every put that ends, however many tokens are refused, answers and allocates as the first match on the chain says, and changes no byte but the match's value |
| RefusedPut.PutIsPutWhenItsTokensServe | src/gshmp.cpp:326-374 | If moreover held tokens that open the key open the value for writing, and on a miss the last token is found with the new entry's region, bytes, answer and allocator are those of the unprotected put |
| RefusedPut.RefusedIndexLosesThePair | src/gshmp.cpp:334-371 | A refused index token: put never walks, reports success while there is room, draws exactly two tokens and, if the token may not write the head either, changes nothing outside the unreachable new entry |
| RefusedPut.RefusedTokenIsRetried | src/gshmp.cpp:341-348 | A run with the tokens t, t, u on a one-entry chain: the second t is refused with -2, u opens the entry, the value is updated in place and the allocator stays |
| RefusedPut.PutByFind | src/gshmp.cpp:326-374 | The object's put on such chains and tokens, in bytes |
| ProtectedStore.GetTransparentIff | src/gshmp.cpp:194-197 | get reports presence whatever its token, and delivers what the unprotected get does exactly when the value is readable or the buffer already holds it |
| ProtectedStore.UpdateTransparentIff | src/gshmp.cpp:224-227 | update reports presence whatever its token, and changes bytes exactly when the key is there, the write is granted and the value differs |
| ProtectedStore.DeleteTransparentIff | src/gshmp.cpp:393-399 | del acts as in the unprotected store exactly when the next word is readable or 0 |
| ProtectedStore.RefusedDeleteCuts | src/gshmp.cpp:393-399 | A refused del reports success and drops the match and all behind it, the requested removal exactly when the match is last |
| BatchedProtection.BatchTokens | src/gshmp.cpp:243-254 | A batched insert draws a token for the head word and, at a refill, one for exactly the batch, both for reading and writing |
| BatchedProtection.RefillPublishes | src/gshmp.cpp:249-260 | A refill with accepted tokens leaves the unprotected store's bytes, and its batch token is found with the whole batch and permission 3 |
| BatchedProtection.MissingTokenMovesHead | src/gshmp.cpp:262-269 | An insert whose batch token is not found, or only for a region that ends before the entry, changes the head word and nothing else |
| BatchedProtection.BatchTokenCoversOnlyItsRefill | src/gshmp.cpp:249-269 | From the second batch on, of all accesses to the entries of a batch the token acquired at its refill is granted exactly those to the refill's entry |
| BatchedProtection.RefillInsert | src/gshmp.cpp:249-260 | The object's refill: the published bytes, the token and its region on the table it leaves, the allocator |
| BatchedProtection.LaterInsert | src/gshmp.cpp:262-269 | The object's insert r * batch + j with r, j > 0 under that token: only the head word changes |
| BatchedProtection.FirstBatchInsert | src/gshmp.cpp:262-269 | The object's inserts of the first batch, which no refill preceded: they publish if batch_key happens to be the reserved token and only move the head if it opens nothing |
| BatchedProtection.OnlyRefillsAreStored | src/gshmp.cpp:248-270 | After any number of batched inserts of entries that fit into kv_size, with a first batch key that opens nothing, exactly the refills' entries hold their pairs; all others hold the bytes from before the run (the slot of insert 0 goes to the first refill) |
| BatchedProtection.ServeGuardedBatches | src/gshmp.cpp:236-270 | The object in batch mode with distinct unused tokens carries out such a run |
| GuardedMemory.UntouchedBytesStay | src/gshmp.cpp:466-545 | Over any run of guarded stores and table operations whose granted stores lie in the data area, bytes that no granted store touches stay |
| GuardedMemory.ReadReturnsLastGrantedStore | src/gshmp.cpp:410-545 | Over any such run, a granted read through any token returns the bytes of the last granted store there, whatever is issued, revoked, cleared, refused or stored elsewhere meanwhile |
| GuardedMemory.ReadReturnsInitialBytes | src/gshmp.cpp:410-545 | If no granted store touched them, the read returns the bytes from before the run |
| GuardedMemory.ServeActions | src/gshmp.cpp:466-636 | The object's write, insert, revoke, clear and check methods carry out these runs |
| Transparency.StepIsTransparent | src/gshmp.cpp:180-408 | One authorised request answers like the unprotected store and leaves the same bytes and allocator |
| Transparency.DeleteIsUnguarded | src/gshmp.cpp:376-408 | In a represented store del removes what the unprotected del removes, for every table and every token |
| Transparency.ProtectionIsTransparent | src/gshmp.cpp:180-408 | So does every run that the unprotected run shows to be authorised, for any build; every loop of it ends |
| Transparency.FreshRunIsAuthorised | src/gshmp.cpp:638-649 | Any build, whole runs: if the tokens that the unprotected run would need are distinct and in no valid slot, the table has room for them, every insert meets a partition with room, and callers of get and update present the reserved token, one granted before the run or one drawn earlier for a covering region, then every request is authorised; del asks for nothing |
| Transparency.FreshRunIsTransparent | src/gshmp.cpp:180-408 | Such a run gives the answers, bytes and allocator of the unprotected store |
| Transparency.FreshIn16BitBuild | src/gshmp.cpp:638-649 | In the 16-bit build a table whose valid slots are homes has room for any number of distinct unused tokens |
| Transparency.AcquiresKeepHomed | src/gshmp.cpp:638-649 | Acquisitions keep every valid slot a home |
| Transparency.RunKeepsHomed | src/gshmp.cpp:180-408 | So does every run of store operations whose loops end, authorised or not |
| Transparency.FreshRunIn16BitBuild | src/gshmp.cpp:180-408 | So in the 16-bit build distinct unused tokens make a run transparent without any condition on the table's room |
| Transparency.RunKeepsLookup | src/gshmp.cpp:180-408 | No run of store operations whose loops end, authorised or refused, changes what an existing token permits |
| Transparency.InsertIssuesToken | src/gshmp.cpp:278-288 | The token insert returns covers the whole new entry |
| Transparency.InsertedTokenServes | src/gshmp.cpp:180-408 | However an authorised run goes on after an insert, its token authorises get and update as long as the entry is still its bucket's |
| Transparency.RepeatedTokenLosesAnInsert | src/gshmp.cpp:236-290 | A run of two inserts whose entry tokens are drawn alike: the second succeeds and its bucket leads to unwritten bytes |
| Transparency.ServeRequest | src/gshmp.cpp:180-408 | The protected object's methods carry out the protected step, authorised or not, whenever their loop ends |
| Transparency.ServeAll | src/gshmp.cpp:180-408 | So for whole runs |
| Transparency.ServeBoth | src/gshmp_upr.cpp:93-319 | Both objects, driven side by side, answer alike and end with the same bytes |
| Publication.MoveKeepsInv | src/gshmp_upr.cpp:190-195 | One memory call of any host keeps heads, completed entries and what every host relies on |
| Publication.HeadsLeadToCompleteEntries | src/gshmp_upr.cpp:190-195 | Every interleaving: a head is zero or leads to one entry of that bucket with complete key, value and zero next |
| Publication.GetsReturnInsertedValues | src/gshmp_upr.cpp:93-123 | A get that succeeds returns a value stored under that key by some insert; no host ever gets stuck |
| Publication.NobodyTouchesOthers | src/gshmp_upr.cpp:302-314 | Completed entries keep every byte, and no host changes another host's partition |
| LoneHost.CallsBegin | src/gshmp_upr.cpp:93-319 | A host between operations can begin each of them, insert exactly while its partition has room for the entry |
| LoneHost.LoneInsertPublishes | src/gshmp_upr.cpp:190-195 | An insert's four calls alone: key, value, zero next, head, and the allocator advances |
| LoneHost.LoneGetReads | src/gshmp_upr.cpp:93-123 | On chains of any length a get alone answers for the first pair with its key |
| LoneHost.LoneDeleteRemoves | src/gshmp_upr.cpp:287-319 | On chains of any length a del alone redirects the link before the first such pair to whatever followed it |
| Overlaps.HeadIsPublished | src/gshmp_upr.cpp:194-195 | Every interleaving: a non-zero head leads to an entry whose address nobody is about to store again |
| Overlaps.DelUnlinksItsEntryUnlessOverlapped | src/gshmp_upr.cpp:287-319 | Every interleaving: when del is about to unlink, the head differs from the entry it found exactly when another host's insert or del has stored that head since; the entry found carried the key |
| Overlaps.DelDropsWhatItFinds | src/gshmp_upr.cpp:302-314 | Without an overlap del acts as in a store of its own, on exactly the entry of its key; with one it zeroes a head that leads elsewhere; no other byte changes |
| Overlaps.HeadIsLastStored | src/gshmp_upr.cpp:194-195 | Every interleaving: a head word is what the last event that stored it left |
| Overlaps.OverlappedDelDropsForeignIff | src/gshmp_upr.cpp:302-314 | An overlapped del drops a foreign entry exactly when the last store of its head word was another host's insert, and zeroes an empty bucket exactly when it was another host's del |
| Overlaps.OverlappedDelDropsAnothersEntry | src/gshmp_upr.cpp:302-314 | A run of two hosts in which del drops the entry that the other host has just inserted under another key |
| Overlaps.GetAnswersForItsFirstStep | src/gshmp_upr.cpp:93-123 | Every interleaving: a get answers exactly like a get alone on the memory at the moment it read the head |
| Linearization.LinearizableIffOrderly | src/gshmp_upr.cpp:93-319 | Every interleaving of inserts, gets and dels: the operations, in the order of their deciding steps and with the answers they gave, are a sequential run of the bucket map exactly when every unlinking del finds its key in the bucket; then the heads show that map |
| Linearization.WithoutOverlapLinearizable | src/gshmp_upr.cpp:93-319 | So is every interleaving in which no other host stores a del's head word while the del lasts |
| Linearization.HistoryFollowsCalls | src/gshmp_upr.cpp:93-319 | Each host's operations stand in that history in the order it began them, each once, and return what the history says |
| Linearization.LaterCallsComeLater | src/gshmp_upr.cpp:93-319 | An operation that has been decided, hence any that has returned, stands before every operation begun later |
| Linearization.EventActsOnMap | src/gshmp_upr.cpp:93-319 | One step of any host acts on the map that the heads show as its record says |

## Left out

- Opening, mapping and closing the device, memory protection keys, `get_mac`: calls into the system.
- Timing statistics and messages: no effect on results.
- `rand` and SHA-256: a token stream parameter and an arbitrary hash; nothing is said about guessing tokens.
- Trace loading and the benchmark: input and output only.
- Destination buffers: the bytes a read delivers are returned as a value, not written through an alias.
- The benchmark's change of `batch_kvs` after construction; `batch_kvs` is at least 1.
- Weak memory and torn bytes: one memory call, or one slot field access, is one step, sequentially consistent.
- In-place update beside other hosts: it writes into completed entries, so it is excluded from `Publication`.
- Keys whose index table overlaps a host partition: refused at the start of an operation in `Publication` and excluded by `StoreRefinement.Admissible`, because there a store overwrites its own index.
- Lookup of every token after revocations under an arbitrary hash, and more than one live key per bucket: the code provides neither.
- GshmObject.Gshm.ReadCxl: what a granted read delivers when its range leaves the data area.
- GshmObject.Gshm.WriteCxl: what a granted write changes when its range leaves the data area, table slots included.
- GshmObject.Gshm.CompareCxl: what a granted comparison answers when its range leaves the data area.
- GshmObject.Gshm.Put: loops that never end, because every token drawn for some entry is refused or the chain is cyclic, and walks that a link leads outside the data area.
- Transparency.ServeBoth: batched objects; there protection is not transparent, as `BatchedProtection.OnlyRefillsAreStored` shows.

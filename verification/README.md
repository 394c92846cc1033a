# The algorithms of the Objective-C runtime, verified

A Dafny model of the algorithms that the objc4 runtime carries in its headers, with
proofs of what they promise. Run `dafny verify dfyconfig.toml` to check it.

- **Retain and release** (`RetainRelease.dfy` over `IsaWord.dfy`). Any number of threads
  run `rootRetain`, `rootTryRetain`, `rootRelease` and `rootRetainCount` on one object, one
  memory access at a time. The count is split between the top bits of the isa word and a
  side table behind a lock. The references owned always equal the sum of the parts, and
  deallocation starts once, by the release of the last reference. The step functions work
  on the bit fields; further lemmas show that they follow the carries of the arithmetic on
  the whole word. `RetainAnswers.dfy` says what the calls answer, step by step, added up
  over a run, and for a call that runs alone.
- **The inline reference count** (`InlineRefcount.dfy`), a second state machine, over
  every interleaving and then over the runs that follow the calling discipline.
- **DenseMap** (`DenseMap.dfy` over `BucketTable.dfy`, `Probing.dfy`, `MathExtras.dfy`,
  `Bits.dfy`). The class works in place on an array of buckets and refines a finite map.
  That lookups end rests on the triangular numbers being distinct modulo a power of two.
- **The perfect-hash builder** (`Scramble.dfy`, `KeyBuckets.dfy`, `Augment.dfy`,
  `MakePerfect.dfy`, `SaltTurns.dfy`, `MinimalHash.dfy`, `HashHeader.dfy`) and the
  **string and class tables** written with it (`StringTable.dfy`, `ClassTable.dfy`), from
  the permutation of the scramble table to what a reader finds for any string.
- **The class walk** (`ClassWalk.dfy`): a walk without a stack refines the recursive one.
- **List arrays** (`ListArray.dfy`), **hook chains** (`HookChain.dfy`), **lock order**
  (`LockOrder.dfy`) and the **Mach-O rewriter** (`MarkGC.dfy`).

`Pigeonholes.dfy` counts distinct values, and `Wrappers.dfy` holds the option type.

## Where code and comments differ

The model follows the code.

- `llvm-DenseMap.h:443-444` says that a table full of tombstones is rehashed without
  growing. `grow(NumBuckets)` takes the next power of two above, so the table doubles.
- `llvm-DenseMap.h:453` doubles in 32 bits: from 2^30 buckets on the new table has four.
  An insert then takes the fatal exit exactly when the entries that the rehash keeps fill
  it, and leaves it without an empty bucket exactly when the new entry does. `resize` meets
  exactly the requests below 2^31.
- `objc-shared-cache.h:982` promises distinct scramble values. They are distinct exactly
  when smax is at least 256 (ScrambleCoversRange).
- `objc-shared-cache.h:1239` speaks of hashes in 0..nkeys-1. They are in 0..smax-1, and
  always stay below nkeys exactly when nkeys equals smax (MinimalIff). ThreeNamesReachThree
  gives three names with a finished hash, one of them at 3.
- `objc-shared-cache.h:1348-1352` gives the split more bits by doubling alen. It starts at
  its limit, so this never happens, and blen is doubled instead (SizesGrow).
- `objc-shared-cache.h:379-381` promises the number of classes of a name. A string that
  has no class reads as one class, and a single class at an odd offset as duplicates.
- `objc-runtime-new.h:682-689` lists all elements only if no list is empty.

## Model

| member | source | states |
|---|---|---|
| RetainRelease.CountIsConserved | objc-runtime/runtime/objc-object.h:471-685 | In every reachable state of any number of threads running retains, try-retains, releases and retain counts in any interleaving, the owned references equal one (until `deallocating` is set) plus `extra_rc` plus the side-table count plus what the lock holder carries between them; nothing is in flight while the lock is free |
| RetainRelease.NoOverreleaseOneDealloc | objc-runtime/runtime/objc-object.h:667-685 | The overrelease exit is unreachable when every release gives up an owned reference, and `deallocating` is set by at most one release |
| RetainRelease.DeallocIsLastRelease | objc-runtime/runtime/objc-object.h:595-685 | The step that sets `deallocating` is the release of the only reference left, at an instant when `extra_rc`, the side table and the counts in flight are all zero |
| RetainAnswers.ReleaseAnswers | objc-runtime/runtime/objc-object.h:583-685 | In every reachable state, a step of a release goes on with the references as they are, or returns after giving up exactly its own reference; it returns true exactly when that step set `deallocating`, with no reference left, and false otherwise |
| RetainAnswers.RetainAnswers | objc-runtime/runtime/objc-object.h:466-560 | A step of a retain or try-retain creates its reference at most once, under the name it returns, and gives up none; it fails exactly when a try-retain reads a deallocating word |
| RetainAnswers.CountAnswers | objc-runtime/runtime/objc-object.h:710-729 | rootRetainCount keeps, at its load, the references owned then, and returns that number, one more if the object was deallocating |
| RetainAnswers.RunIsAnswered | objc-runtime/runtime/objc-object.h:466-729 | Over any run from any reachable state, as many releases return true as deallocations started, and the references at the end are those at the start plus the retains that returned or still have to return, less the releases that returned |
| RetainAnswers.AnswersAddUp | objc-runtime/runtime/objc-object.h:466-729 | From a new object on: at most one release ever returns true, and one has exactly when the object is deallocating; the references are one plus the retains less the releases |
| RetainAnswers.OtherBitsStay | objc-runtime/runtime/objc-object.h:466-685 | No retain, release or count changes another bit of the isa word |
| RetainAnswers.RetainAlone | objc-runtime/runtime/objc-object.h:466-560 | A retain that runs alone from any reachable quiet state returns within six steps, with one more reference |
| RetainAnswers.TryRetainAlone | objc-runtime/runtime/objc-object.h:492-514 | A try-retain that runs alone fails exactly when the object is deallocating, and otherwise adds its reference |
| RetainAnswers.ReleaseAlone | objc-runtime/runtime/objc-object.h:583-685 | A release that runs alone gives up its reference, and returns true and sets `deallocating` exactly when it was the last of a live object |
| RetainAnswers.CountAlone | objc-runtime/runtime/objc-object.h:710-729 | A count that runs alone returns the number of references, one more while deallocating |
| RetainAnswers.AloneReturns | objc-runtime/runtime/objc-object.h:466-729 | From any reachable state, in the middle of any call, a thread that can take the side-table lock and runs alone returns within eight steps: no retry loops for ever |
| RetainRelease.NoReferenceMeansDeallocating | objc-runtime/runtime/objc-object.h:601-676 | Conversely the last reference cannot go any other way: an object without references is deallocating, with both counts zero |
| RetainRelease.BorrowLeavesReferences | objc-runtime/runtime/objc-object.h:648-661 | A release that borrowed from the side table never gives up the last reference, as its comment claims |
| RetainRelease.TryRetainNeedsLiveObject | objc-runtime/runtime/objc-object.h:492-514 | A try-retain that succeeds starts from a word that is not deallocating, on an object with references |
| RetainRelease.RetainCountIsLinearizable | objc-runtime/runtime/objc-object.h:710-729 | rootRetainCount returns the number of references owned at the instant it read the isa word, plus one if the object was deallocating then |
| RetainRelease.NoDeadlock | objc-runtime/runtime/objc-object.h:508-521 | Only a thread inside a call holds the side-table lock, so every exit that took it releases it, and whenever a call is in progress some thread can take its next step |
| RetainRelease.StepKeepsInv | objc-runtime/runtime/objc-object.h:471-729 | One step of any thread (load, store-exclusive with spurious failure, lock, side-table transfer, put-back) keeps the invariant behind the results above |
| RetainRelease.RunKeepsInv | objc-runtime/runtime/objc-object.h:471-729 | The invariant holds after every finite run |
| RetainRelease.AddBatchIsExact | objc-runtime/runtime/NSObject.mm:1339-1365 | While the lock holder carries RC_HALF, putting it in the side table neither carries nor pins, and adds exactly RC_HALF to the count |
| RetainRelease.TakeBatchIsExact | objc-runtime/runtime/NSObject.mm:1370-1391 | Borrowing from a nonempty side table takes exactly RC_HALF without underflow, and from an empty one takes nothing |
| RetainRelease.AddExtraRcIsExactIff | objc-runtime/runtime/NSObject.mm:1339-1365 | Adding to the side table keeps the count exactly when the word is not pinned and does not carry, so the bound on references is needed |
| RetainRelease.RetainIsWordArithmetic | objc-runtime/runtime/objc-object.h:497-514 | The branch of a retain is the carry of adding RC_ONE to the whole word, and a plain retain stores the sum |
| RetainRelease.ReleaseIsWordArithmetic | objc-runtime/runtime/objc-object.h:583-590 | The branch of a release is the borrow of subtracting RC_ONE from the whole word, and a plain release stores the difference |
| RetainRelease.SecondChanceIsWordArithmetic | objc-runtime/runtime/objc-object.h:635-645 | The second-chance store follows the carry of adding the borrowed counts but one to the whole word, and stores the sum |
| IsaWord.HardwareLayouts | objc-runtime/runtime/isa.h:57-123 | In each of the three hardware layouts the declared widths put `deallocating`, RC_ONE (2^45, 2^56, 2^25) and RC_HALF (2^18, 2^7, 2^6) where the macros say, RC_HALF is half the range of `extra_rc`, and the fields fill the word exactly |
| IsaWord.LayoutOfWidths | objc-runtime/runtime/isa.h:50-76 | So for any widths: RC_ONE is the weight of the lowest bit of `extra_rc`, RC_HALF half its range, and the widths add up to the word |
| IsaWord.AddcAddsToExtraRc | objc-runtime/runtime/objc-os.h:139-142 | Adding k * RC_ONE to the word carries out exactly when `extra_rc` overflows, and otherwise changes no other field |
| IsaWord.SubcTakesFromExtraRc | objc-runtime/runtime/objc-os.h:145-148 | Subtracting RC_ONE from the word borrows exactly when `extra_rc` is zero, and otherwise changes no other field |
| IsaWord.EncodeInjective | objc-runtime/runtime/objc-object.h:514 | Comparing words, as a store-exclusive does, compares all fields |
| InlineRefcount.DeallocStartsAtMostOnce | objc-runtime/runtime/objc-internal.h:809-859 | In every run of any callers, with over-releases, resurrections and wrap-around included, the ivar is even until deallocation starts and odd ever after, and deallocation starts at most once |
| InlineRefcount.TryRetainNeverRevives | objc-runtime/runtime/objc-internal.h:846-859 | In every run of any callers a try-retain that succeeds found the ivar even and not below zero, before any deallocation |
| InlineRefcount.TryRetainAnswers | objc-runtime/runtime/objc-internal.h:846-859 | In every run of any callers: _tryRetain returns 1 exactly with the step that creates its reference and adds two to an unchanged ivar; it returns 0 exactly when it reads an odd ivar or -2, traps exactly when it reads another negative one, and otherwise goes on to the swap |
| InlineRefcount.TryRetainFailsIff | objc-runtime/runtime/objc-internal.h:846-859 | In matched runs it returns 0 exactly when nothing owns the object or deallocation began |
| InlineRefcount.TryRetainAlone | objc-runtime/runtime/objc-internal.h:846-859 | Alone, from any reachable matched state: with an owner and before deallocation it ends with its reference added and the ivar up by two, otherwise without |
| InlineRefcount.RetainCreates | objc-runtime/runtime/objc-internal.h:809-815 | In matched runs a retain adds its reference and one to retainCount |
| InlineRefcount.ReleaseAlone | objc-runtime/runtime/objc-internal.h:816-840 | Alone, in matched runs, a release gives up its reference; exactly the release of the last one of a live object goes on to start the deallocation, and leaves the ivar at 1 |
| InlineRefcount.ResurrectAlone | objc-runtime/runtime/objc-internal.h:816-840 | A deallocation that is pending can be called off: a retain in the logic block leaves one owner and the ivar at zero |
| InlineRefcount.MatchedRunsAreExact | objc-runtime/runtime/objc-internal.h:809-867 | In every run of matched calls no trap is reached, retainCount is the number of owned references (one more while deallocating), and the object reports deallocating exactly when nothing owns it or dealloc began |
| InlineRefcount.DeallocStartsUnowned | objc-runtime/runtime/objc-internal.h:826-833 | In matched runs the swap from -2 to 1 happens only when nothing owns the object, by the only thread still acting on that zero |
| InlineRefcount.UnownedRetainTraps | objc-runtime/runtime/objc-internal.h:813-833 | The calling discipline is needed: a matched run reaches logical zero with a deallocation pending, and there one retain by a caller that owns nothing makes that deallocation trap |
| InlineRefcount.StepKeepsParity | objc-runtime/runtime/objc-internal.h:809-859 | Any step of any caller keeps the parity of the ivar in line with the number of deallocations started |
| InlineRefcount.StepKeepsInv | objc-runtime/runtime/objc-internal.h:809-859 | Any matched step keeps the ivar equal to its encoding of the number of owned references, with no thread trapped |
| DenseMaps.DenseMap.LookupBucketFor | objc-runtime/runtime/llvm-DenseMap.h:491-555 | Finds a key exactly when the map has it; otherwise gives the first reusable bucket of its probe path; takes the fatal exit exactly when the key is absent and no bucket is empty |
| DenseMaps.DenseMap.constructor | objc-runtime/runtime/llvm-DenseMap.h:593-660 | A new map is empty, with the given number of buckets |
| DenseMaps.DenseMap.InitEmpty | objc-runtime/runtime/llvm-DenseMap.h:282-291 | Makes every bucket empty and both counters zero |
| DenseMaps.DenseMap.MoveFromOldBuckets | objc-runtime/runtime/llvm-DenseMap.h:293-321 | Carries over exactly the entries that are not purgeable zeros, never meets a key twice, and leaves no tombstones; fatal exactly when they outnumber the buckets |
| DenseMaps.DenseMap.PlaceMoved | objc-runtime/runtime/llvm-DenseMap.h:303-311 | Moving one pair into the new table adds that pair and nothing else; fatal exactly when the table is full |
| DenseMaps.DenseMap.Grow | objc-runtime/runtime/llvm-DenseMap.h:662-677 | Rehashes into the computed size (the least power of two above the request and at least four; four for requests of 2^31 or more), keeping every entry but purgeable zeros; fatal exactly when they outnumber the buckets |
| DenseMaps.DenseMap.ShrinkAndClear | objc-runtime/runtime/llvm-DenseMap.h:679-694 | Empties the map; the new size is zero for an empty map, between two and four times the old number of entries (and at least four) up to 2^29 entries, and four beyond, where the shifted size turns negative |
| DenseMaps.ShrunkenSize | objc-runtime/runtime/llvm-DenseMap.h:684-686 | The size computed there through the logarithm and the signed shift is a power of two within those bounds |
| DenseMaps.DenseMap.Clear | objc-runtime/runtime/llvm-DenseMap.h:96-118 | Empties the map, strictly shrinks a table that is mostly unused, and never grows |
| DenseMaps.DenseMap.EmptyBuckets | objc-runtime/runtime/llvm-DenseMap.h:107-117 | The loop that clears in place brings the entry count to exactly zero |
| DenseMaps.DenseMap.Compact | objc-runtime/runtime/llvm-DenseMap.h:192-201 | Keeps the map (but for purgeable zeros); gives up the buckets of an empty map, and strictly shrinks a table that is at least 15/16 free |
| DenseMaps.DenseMap.MakeRoom | objc-runtime/runtime/llvm-DenseMap.h:451-461 | After the growth tests the table has the computed size and an empty bucket to spare, both tests are met for the new entry unless the size wrapped, and the bucket found is the insertion point of the key; a test that fired kept everything but purgeable zeros; fatal exactly when what is kept fills the table |
| DenseMaps.DenseMap.GrowAndLookup | objc-runtime/runtime/llvm-DenseMap.h:453-461 | Growing keeps the map (but for purgeable zeros) and finds the new insertion point; fatal exactly when what is kept fills the new table |
| DenseMaps.DenseMap.TakeBucket | objc-runtime/runtime/llvm-DenseMap.h:463-484 | Writing the key into an empty bucket, a tombstone or a purged zero keeps both counters right and every key findable, and adds exactly that pair |
| DenseMaps.DenseMap.InsertIntoBucket | objc-runtime/runtime/llvm-DenseMap.h:413-420 | Adds an absent key with its value, growing first if need be; below 2^30 buckets always, with an empty bucket left and the load below three quarters; in general fatal exactly when the entries kept fill the table, and leaving an empty bucket exactly when the new one does not fill it either |
| DenseMaps.DenseMap.Find | objc-runtime/runtime/llvm-DenseMap.h:127-132 | Finds the key exactly when it is in the map, and then its bucket |
| DenseMaps.DenseMap.Lookup | objc-runtime/runtime/llvm-DenseMap.h:162-167 | Returns the value of the key, or the default value if it is absent |
| DenseMaps.DenseMap.Insert | objc-runtime/runtime/llvm-DenseMap.h:172-182 | Inserts exactly when the key is absent, or is fatal exactly as above; a present key keeps its value and the map is unchanged; below 2^30 buckets never fatal |
| DenseMaps.DenseMap.FindAndConstruct | objc-runtime/runtime/llvm-DenseMap.h:224-234 | Leaves a present key alone and inserts an absent one with the default value, or is fatal exactly as above |
| DenseMaps.DenseMap.Store | objc-runtime/runtime/llvm-DenseMap.h:232-234 | Assignment through operator[] updates the map at that key, or is fatal exactly as above |
| DenseMaps.DenseMap.Erase | objc-runtime/runtime/llvm-DenseMap.h:203-213 | Removes the key exactly when present, through the tombstone and the compaction it triggers |
| DenseMaps.DenseMap.Resize | objc-runtime/runtime/llvm-DenseMap.h:91-94 | Ends with at least the requested buckets exactly if the request is below 2^31 or met already; below 2^31 it never shrinks and is never fatal; from there on it is fatal exactly when the entries kept outnumber the buckets it wraps to; keeps the map |
| DenseMaps.DenseMap.EntriesAreKeys | objc-runtime/runtime/llvm-DenseMap.h:88-89 | The entry counter is the size of the map |
| DenseMaps.GrowingMakesRoom | objc-runtime/runtime/llvm-DenseMap.h:453-456 | Doubling a table that is too full gives one with room for the new entry |
| DenseMaps.RehashMakesRoom | objc-runtime/runtime/llvm-DenseMap.h:458-461 | Rehashing a table full of tombstones gives a strictly larger one with room, although the comment says it does not grow |
| DenseMaps.GrownIsPowerOfTwo | objc-runtime/runtime/llvm-DenseMap.h:666 | The size that grow picks is a power of two of at least four; below 2^31 it is strictly above the request, and from there on it is four |
| DenseMaps.GrownIsLeast | objc-runtime/runtime/llvm-DenseMap.h:666 | Below 2^31 it is the least such power |
| DenseMaps.GrowTestIsSafe | objc-runtime/runtime/llvm-DenseMap.h:452-453 | On a table below its load limit the load test, whose products wrap in 32 bits, never misses that the new entry is too much, and is exact up to 2^30 buckets |
| DenseMaps.RehashSizeIs | objc-runtime/runtime/llvm-DenseMap.h:451-461 | The size that the two growth tests come to is a power of two; the second test never follows the first; it is smaller than the table only if the request wrapped to four, from 2^30 buckets on; below that it has room for the new entry and a bucket to spare, with the load below three quarters |
| DenseMaps.OverflowIff | objc-runtime/runtime/llvm-DenseMap.h:451-461 | Without purging, an insert is fatal exactly when a doubling wraps, or a rehash of 2^31 buckets with four entries or more does |
| DenseMaps.TwoEntriesFitFour | objc-runtime/runtime/llvm-DenseMap.h:458-461 | Not every wrapped rehash is fatal: two entries among the tombstones of 2^31 buckets are rehashed into four |
| DenseMaps.ResizeNeedsHeadroom | objc-runtime/runtime/llvm-DenseMap.h:91-94 | A resize gets more buckets than it asks for exactly when it asks for fewer than 2^31 |
| DenseMaps.CompactShrinks | objc-runtime/runtime/llvm-DenseMap.h:196-200 | The compacting rehash makes room for the entries and strictly shrinks |
| DenseMaps.GrowthNeedsHeadroom | objc-runtime/runtime/llvm-DenseMap.h:453-454 | Doubling grows the table exactly when it has fewer than 2^30 buckets; from there on the request wraps and leaves four buckets |
| DenseMaps.SameLookups | objc-runtime/runtime/llvm-DenseMap.h:50-57 | With purging, every lookup reads the same value before and after, absent reading as zero; without purging the maps are equal |
| BucketTable.PutIsMapUpdate | objc-runtime/runtime/llvm-DenseMap.h:463-480 | Writing an absent key at its insertion point updates the map at that key, losing at most one purgeable zero, and keeps every other key findable |
| BucketTable.BuryIsMapRemove | objc-runtime/runtime/llvm-DenseMap.h:207-210 | Replacing a live bucket by a tombstone removes exactly its key and keeps every other key findable |
| BucketTable.StoreIsMapUpdate | objc-runtime/runtime/llvm-DenseMap.h:232-234 | Overwriting the value of a live bucket updates its key only |
| BucketTable.PathMeetsEmpty | objc-runtime/runtime/llvm-DenseMap.h:509-553 | In a table of a power-of-two size with an empty bucket, the probe path of any hash meets an empty bucket within one lap |
| BucketTable.PathStops | objc-runtime/runtime/llvm-DenseMap.h:509-553 | The probe path of a key ends at an empty bucket or its own within one lap, unless the key is absent and no bucket is empty |
| BucketTable.HasEmptyIff | objc-runtime/runtime/llvm-DenseMap.h:449-451 | A table has an empty bucket exactly when entries and tombstones are fewer than the buckets |
| BucketTable.AbsentKey | objc-runtime/runtime/llvm-DenseMap.h:521-527 | Meeting an empty bucket before the key proves the key absent |
| Probing.ProbesDiffer | objc-runtime/runtime/llvm-DenseMap.h:538-553 | The first 2^k probes (steps of 1, 2, 3, ...) of a table of 2^k buckets are pairwise different |
| Probing.ProbesCover | objc-runtime/runtime/llvm-DenseMap.h:538-553 | So they visit every bucket |
| MathExtras.NextPowerOf2 | objc-runtime/runtime/llvm-MathExtras.h:418-425 | The five smearing steps and the increment give the least power of two strictly above the argument, as a 32-bit word |
| MathExtras.SmearFills | objc-runtime/runtime/llvm-MathExtras.h:419-423 | Smearing sets every bit below the top bit |
| MathExtras.PowerAboveIsLeast | objc-runtime/runtime/llvm-MathExtras.h:416-417 | That power is above the argument and least |
| MathExtras.NextPowerOf2OverflowIff | objc-runtime/runtime/llvm-MathExtras.h:416-417 | It overflows to zero exactly when the top bit of the word is set |
| MathExtras.CountLeadingZeros | objc-runtime/runtime/llvm-MathExtras.h:150-163 | The bisection loop counts the leading zeros of any 32-bit word |
| MathExtras.BisectCountsZeros | objc-runtime/runtime/llvm-MathExtras.h:154-161 | Every remaining depth of the bisection accounts for the zeros still to be counted |
| MathExtras.Log2Ceil | objc-runtime/runtime/llvm-MathExtras.h:320-322 | The ceiling of the logarithm, and 32 for zero |
| Scramble.Permute | objc-runtime/include/objc-shared-cache.h:955-973 | The loop computes twenty rounds of the mixing function |
| Scramble.PermuteIsPermutation | objc-runtime/include/objc-shared-cache.h:952-973 | permute fixes zero, stays below 2^n and never maps two arguments to one value, for any number of rounds |
| Scramble.PermuteIsOnto | objc-runtime/include/objc-shared-cache.h:952-973 | Every n-bit value is the image of one |
| Scramble.SpreadInjective | objc-runtime/include/objc-shared-cache.h:967 | Adding a shifted copy under the mask loses nothing |
| Scramble.FoldInjective | objc-runtime/include/objc-shared-cache.h:968 | Folding the high bits down loses nothing |
| Scramble.Log2u | objc-runtime/include/objc-shared-cache.h:944-951 | The least i with 2^i at least the argument |
| Scramble.ScrambleInit | objc-runtime/include/objc-shared-cache.h:976-987 | Fills the table with the permuted indices |
| Scramble.ScrambleCoversRange | objc-runtime/include/objc-shared-cache.h:980-986 | All scramble values are below smax; they are pairwise distinct exactly when smax is at least 256, and take every value below smax exactly when it is at most 256 |
| KeyBuckets.InitTab | objc-runtime/include/objc-shared-cache.h:994-1028 | Reports no collision exactly when all (a,b) pairs are distinct, and then every bucket lists exactly its keys |
| KeyBuckets.CollisionIsSamePair | objc-runtime/include/objc-shared-cache.h:1009-1020 | A key collides in its bucket exactly when an earlier key has the same pair |
| Augment.TryValue | objc-runtime/include/objc-shared-cache.h:1160-1187 | The walk over a bucket for one displacement comes through clean without a child exactly when all its hashes are free; a child is a placed bucket that was not queued before |
| Augment.Rebind | objc-runtime/include/objc-shared-cache.h:1071-1104 | Giving an unplaced bucket free hashes places it; no old hash is erased and the rollback branch is unreachable |
| Augment.Apply | objc-runtime/include/objc-shared-cache.h:1052-1107 | Applying the one-level queue rebinds exactly the root and cannot fail |
| Augment.EnteredIsPlaced | objc-runtime/include/objc-shared-cache.h:1088-1104 | Entering all keys of one more bucket at free hashes keeps every earlier placement |
| Augment.SameBucketDiffers | objc-runtime/include/objc-shared-cache.h:1090-1103 | Keys of one bucket never meet, whatever its displacement |
| Augment.QueueHasRoom | objc-runtime/include/objc-shared-cache.h:1189-1195 | The queue never outgrows its one slot per bucket |
| Augment.TryNext | objc-runtime/include/objc-shared-cache.h:1159-1205 | One turn applies displacement i exactly when it is free, and otherwise changes only water marks and the queue |
| Augment.Augment | objc-runtime/include/objc-shared-cache.h:1109-1209 | Exact first fit: succeeds with the smallest displacement whose hashes are all free, fails exactly when there is none, and never changes another bucket |
| Augment.PlaceBucketsOfSize | objc-runtime/include/objc-shared-cache.h:1229-1237 | One round places all buckets with j keys or stops where no displacement fits |
| Augment.Perfect | objc-runtime/include/objc-shared-cache.h:1212-1241 | On success every key is alone at its hash and the table names exactly the keys; on failure some bucket fits nowhere |
| Augment.PerfectIsInjective | objc-runtime/include/objc-shared-cache.h:1052-1241 | Then the final hash is injective on the keys and below smax |
| MakePerfect.InitNorm | objc-runtime/include/objc-shared-cache.h:1032-1048 | Splits every key with the salt |
| MakePerfect.SplitInRange | objc-runtime/include/objc-shared-cache.h:1045-1046 | The two halves of a split hash are below alen and blen |
| MakePerfect.InitialBlenIsPower | objc-runtime/include/objc-shared-cache.h:1285-1290 | The first guess of blen is a power of two of at most smax, and at least a sixteenth of it |
| MakePerfect.TrySalt | objc-runtime/include/objc-shared-cache.h:1339-1368 | One turn of the search: it collides exactly when two keys have the same pair, succeeds only with a perfect hash, and otherwise is stuck |
| MakePerfect.SearchSalts | objc-runtime/include/objc-shared-cache.h:1325-1391 | The search is a list of turns that follow on each other: each tries its factor times the golden ratio modulo 2^64, and each collides, is stuck or is perfect for its own split. It ends with the first that is perfect, or with a stuck turn, the fourth, with as many buckets as hash values, or after as many failed turns as there is fuel |
| MakePerfect.FindHash | objc-runtime/include/objc-shared-cache.h:1302-1398 | The same, from the keys and the guessed sizes on |
| SaltTurns.OwnSalt | objc-runtime/include/objc-shared-cache.h:1336-1340 | Every turn has its own salt: within 2^32 turns a salt comes again only in the very next turn, when the first was stuck and the buckets were doubled in between |
| SaltTurns.SaltInjective | objc-runtime/include/objc-shared-cache.h:1340 | Different 32-bit factors give different salts, as the golden ratio is odd |
| SaltTurns.SizesGrow | objc-runtime/include/objc-shared-cache.h:1344-1384 | alen is smax in every turn, and blen only grows, up to smax |
| SaltTurns.FullSizeReached | objc-runtime/include/objc-shared-cache.h:1346-1380 | After at most 8204 failed turns there are as many buckets as hash values |
| SaltTurns.FourWereStuck | objc-runtime/include/objc-shared-cache.h:1370-1383 | Stuck turns double the buckets, or make the search give up, only after four with the same number of buckets |
| SaltTurns.MostCollide | objc-runtime/include/objc-shared-cache.h:1336-1387 | A search that goes on is made of collisions: but for 19 turns, at most three in 2048 collisions were stuck |
| MakePerfect.GivenUpMeansStuck | objc-runtime/include/objc-shared-cache.h:1370-1383 | Giving up means that some salt gives distinct pairs and a stuck placement with as many buckets as hash values |
| MakePerfect.FindSize | objc-runtime/include/objc-shared-cache.h:1440-1448 | The first attempt has the least power of two of hash values that holds the names; a second, with twice that, is made only after the first search has given up |
| MakePerfect.ReadersHash | objc-runtime/include/objc-shared-cache.h:1452-1466 | The hash that readers compute from the finished header is the hash at which the builder placed the key |
| MakePerfect.SolvedIsPerfect | objc-runtime/include/objc-shared-cache.h:1452-1466 | So the finished header is perfect for the names as readers compute it |
| MakePerfect.BuildTables | objc-runtime/include/objc-shared-cache.h:1452-1466 | The header and tables describe the buckets found |
| MakePerfect.MakePerfect | objc-runtime/include/objc-shared-cache.h:1422-1472 | Whatever hash is returned gives all names different slots below the capacity, which is at least their number and less than four times it, and twice the least only if the search at the least gave up; its salt and sizes are those of the first turn that does not fail; the shift is below 64 exactly when the capacity exceeds one; failure means that both searches gave up, and no answer that so many turns of one of them fail |
| MinimalHash.MinimalIff | objc-runtime/include/objc-shared-cache.h:1239-1240 | The hashes of every finished perfect hash of n names with 2^m hash values stay below n exactly when n is 2^m |
| MinimalHash.ThreeNamesReachThree | objc-runtime/include/objc-shared-cache.h:1239-1240 | Three names, with the four hash values, one bucket and first salt that the builder uses for them: first fit leaves a finished perfect hash in which one of them hashes to 3 |
| MinimalHash.TopHashTaken | objc-runtime/include/objc-shared-cache.h:1212-1241 | Whatever the sizes, n names can fall into one bucket whose first fit leaves a finished perfect hash with one of them at the topmost hash value |
| HashHeader.BucketOf | objc-runtime/include/objc-shared-cache.h:185 | The masked hash indexes the table, and the table byte the scramble values, for every string |
| HashHeader.HashInBounds | objc-runtime/include/objc-shared-cache.h:182-187 | Every string, in the table or not, hashes below the capacity |
| HashHeader.HighBits | objc-runtime/include/objc-shared-cache.h:185 | The bits that the shift keeps fit a 32-bit word |
| StringTable.OffsetLeadsBack | objc-runtime/include/objc-shared-cache.h:317-323 | An offset leads from the table back to the address it was computed from, modulo 2^64, and is zero only for the table itself |
| StringTable.CheckByteIs | objc-runtime/include/objc-shared-cache.h:198-204 | The check byte is three bits of the first character above five of the length |
| StringTable.Table.GetIndex | objc-runtime/include/objc-shared-cache.h:214-237 | A slot that is returned is the hash of the key, in bounds and in use, and its offset leads to a string equal to the key |
| StringTable.Table.ReadsBack | objc-runtime/include/objc-shared-cache.h:214-237 | A written table reads back as the set of its strings: a string is found exactly when it is one of them at another address than the table, at its own slot with its own offset |
| StringTable.Table.Write | objc-runtime/include/objc-shared-cache.h:267-329 | On success with strings the table holds each of them at its slot, all other slots are clear, the size fits, all offsets fit, and the hash is the first that the search comes to; too small means that the header, or the table with that hash, exceeds the section, too big that some offset does not fit, and a failed hash that both searches gave up; without strings the header is zero |
| StringTable.Table.PlaceStrings | objc-runtime/include/objc-shared-cache.h:313-325 | The last loop places every string, or reports an offset that does not fit |
| StringTable.Table.PlaceOne | objc-runtime/include/objc-shared-cache.h:322-324 | Placing one string disturbs no string placed before |
| StringTable.Table.SizeOfParts | objc-runtime/include/objc-shared-cache.h:241-247 | The size is that of the header, its scramble table and the three arrays behind it |
| ClassTable.Table.Write | objc-runtime/include/objc-shared-cache.h:461-546 | On success every name's slot leads to exactly its classes, every class was found and all offsets fit, older duplicates are kept and one is added for every class that shares its name; busted means that some class cannot be found, too big that the offset of some class or some header does not fit, too small that the header or the whole table, with the first hash, exceeds the section; the other errors mean what they mean for the string table |
| ClassTable.Table.WriteOne | objc-runtime/include/objc-shared-cache.h:481-542 | One turn skips a name met before and otherwise handles all classes of the name |
| ClassTable.Table.WriteSingle | objc-runtime/include/objc-shared-cache.h:493-507 | A single class is entered at its slot, if its offsets fit; other slots are kept |
| ClassTable.Table.WriteDuplicates | objc-runtime/include/objc-shared-cache.h:508-541 | All duplicates are appended and the slot gets their number and first index |
| ClassTable.SharedMetNext | objc-runtime/include/objc-shared-cache.h:509-515 | A turn adds as many duplicates as there are classes of its name, if it is new and has several, and none otherwise |
| ClassTable.Table.FillDuplicates | objc-runtime/include/objc-shared-cache.h:524-540 | The inner loop writes exactly the classes of the name, in order |
| ClassTable.ClearMeansNew | objc-runtime/include/objc-shared-cache.h:487-490 | A slot is clear exactly as long as its name has not been met |
| ClassTable.TurnWrites | objc-runtime/include/objc-shared-cache.h:481-542 | A turn for a new name leaves all other names' slots and duplicates as they were |
| ClassTable.Table.ReadsBack | objc-runtime/include/objc-shared-cache.h:378-427 | The table reads back as the multimap it was written from: the answer for a findable name is right exactly when it has several classes or one at an even offset, and then getClassesAndHeaders lists exactly its classes; a string without classes reads as one class at the table itself |
| ClassTable.Table.ClassesLeadBack | objc-runtime/include/objc-shared-cache.h:378-427 | What the readers hand out leads back, from the table's address, to the very classes of the name and to their headers, in order and in the right number, exactly when there are several or one whose address agrees with the table's in the lowest bit; a name that is not found has none |
| ClassTable.Table.ArraysLeadBack | objc-runtime/include/objc-shared-cache.h:406-427 | So after getClassesAndHeaders the caller's i-th class and header are those of the i-th class of the name |
| ClassTable.OffsetsLeadBack | objc-runtime/include/objc-shared-cache.h:493-507 | The two offsets of a slot lead back to the class and to its header, in this order |
| ClassTable.Table.SizeOfParts | objc-runtime/include/objc-shared-cache.h:431-438 | The size is that of the string table, the slots, the duplicate count and the duplicates |
| ClassTable.SlotReadsBack | objc-runtime/include/objc-shared-cache.h:351-361 | What a reader makes of one slot is right exactly under that condition |
| ClassTable.OddOffsetMisread | objc-runtime/include/objc-shared-cache.h:392-403 | A single class at offset 7 is taken for three duplicates |
| ClassTable.Table.DuplicatesApart | objc-runtime/include/objc-shared-cache.h:514-522 | The duplicate ranges of different names are disjoint and in bounds |
| ClassTable.Table.GetClassesAndHeaders | objc-runtime/include/objc-shared-cache.h:406-427 | Fills the front of the caller's arrays with the listed classes and touches nothing behind them |
| ClassWalk.ForeachClassAndSubclass | objc-runtime/runtime/objc-runtime-new.h:1412-1438 | The stackless walk ends with the count lowered by its steps, or fatally exactly when the count (2^32 for zero) is not above them; either way the callback saw a beginning of the preorder and no class twice |
| ClassWalk.WalkFrom | objc-runtime/runtime/objc-runtime-new.h:1412-1438 | Its loop: the steps and the count, turn by turn |
| ClassWalk.ClimbBack | objc-runtime/runtime/objc-runtime-new.h:1428-1433 | The climb stops at the next class with a sibling or at the top |
| ClassWalk.WalkIsRecursion | objc-runtime/runtime/objc-runtime-new.h:1412-1438 | A walk that ended called the callback exactly as the recursive preorder walk does, whatever the callback decides from what it has seen |
| ClassWalk.RunIsRecursion | objc-runtime/runtime/objc-runtime-new.h:1412-1438 | The steps of a forest visit what the recursive walk visits |
| ClassWalk.FullWalk | objc-runtime/runtime/objc-runtime-new.h:1416-1436 | A full walk visits the classes in preorder and takes one step per class and one more per class with a subclass |
| ClassWalk.FullWalkCost | objc-runtime/runtime/objc-runtime-new.h:1416-1436 | So it lowers the count by exactly that, and the fatal exit needs a count not above that |
| ClassWalk.EachClassOnce | objc-runtime/runtime/objc-runtime-new.h:1412-1438 | The preorder of classes that are linked as a finite forest lists each of them once |
| ClassWalk.TreeOnce | objc-runtime/runtime/objc-runtime-new.h:1412-1438 | The preorder of one linked class with its subclasses lists each of them once, whether the class has siblings or not |
| ClassWalk.CalledOnce | objc-runtime/runtime/objc-runtime-new.h:1412-1438 | However the walk ends and whatever the callback decides, it was called with a beginning of the preorder, so with no class twice |
| ClassWalk.NotBelowItself | objc-runtime/runtime/objc-runtime-new.h:1430 | The top is not among its own subclasses, so the test against it stops the climb in the right place |
| ClassWalk.RanOutEarly | objc-runtime/runtime/objc-runtime-new.h:1419-1421 | A walk that ran out of count saw a beginning of the preorder |
| ClassWalk.ForeachClassBelow | objc-runtime/runtime/objc-runtime-new.h:1443-1456 | The walk with a callback that never stops it visits the whole tree, each class once, or ends fatally exactly when the count is not above its cost, having visited no class twice |
| ClassWalk.ForeachClassAndMetaclass | objc-runtime/runtime/objc-runtime-new.h:1459-1476 | Over all roots the costs add up on the shared count, and the whole forest is visited in preorder, each class once |
| ClassWalk.UnreasonableCountIsEnough | objc-runtime/runtime/objc-runtime-new.mm:1187-1198 | The count that the runtime starts with is enough for eight classes for each one named |
| ListArray.ListArray.AttachLists | objc-runtime/runtime/objc-runtime-new.h:720-749 | The container holds the added lists first and all earlier ones after them, whichever of the three representations it had |
| ListArray.ListArray.AttachToMany | objc-runtime/runtime/objc-runtime-new.h:723-733 | Growing the array and moving its lists up loses none |
| ListArray.ListArray.AttachToFew | objc-runtime/runtime/objc-runtime-new.h:738-748 | A new array holds the added lists and the single list after them |
| ListArray.ListArray.CountLists | objc-runtime/runtime/objc-runtime-new.h:692-700 | The number of lists |
| ListArray.ListArray.Count | objc-runtime/runtime/objc-runtime-new.h:671-680 | The number of elements of all lists, as a 32-bit sum |
| ListArray.ListArray.Enumerate | objc-runtime/runtime/objc-runtime-new.h:682-689 | begin, ++ and end list exactly the concatenation of the lists, exactly when no list is empty |
| ListArray.FromBeginToEnd | objc-runtime/runtime/objc-runtime-new.h:607-649 | The loop runs off an empty list and otherwise lists every element once and in order |
| ListArray.Iterator.Next | objc-runtime/runtime/objc-runtime-new.h:636-648 | Moves past exactly one element |
| HookChain.ChainIsComplete | objc-runtime/runtime/objc-private.h:898-918 | In every state of every run of calls that differ in hooks and variables, following the chain from the hook meets the hooks of exactly the finished calls, each once and the newest first, and ends at the initial hook |
| HookChain.GetIsSafe | objc-runtime/runtime/objc-private.h:905-907 | A hook that get returns belongs to a call whose variable already holds the hook it replaced, and keeps it ever after |
| HookChain.StepKeepsInv | objc-runtime/runtime/objc-private.h:909-917 | One step of one call keeps the chain |
| HookChain.AloneInstalls | objc-runtime/runtime/objc-private.h:909-917 | From any state of any run, a call that runs alone finishes within four steps, also after a lost race: its hook is then the newest of the chain and its variable has the one it replaced |
| HookChain.NextIsStep | objc-runtime/runtime/objc-private.h:909-917 | What such a call does alone are steps that a run may take |
| HookChain.InstalledGrows | objc-runtime/runtime/objc-private.h:909-917 | Installed hooks stay installed |
| HookChain.NeverLosesHooksIff | objc-runtime/runtime/objc-private.h:898-918 | The condition on the calls is exact: the chain is complete in every state of every run if and only if no two calls share a hook or a variable and none installs the initial hook |
| LockOrder.WaitForIsAcyclic | objc-runtime/runtime/objc-os.h:812-822 | The wait-for relation of threads that use lockTwo and lockAll is acyclic in every state of every run |
| LockOrder.NoDeadlock | objc-runtime/runtime/objc-os.h:812-822 | Whenever some thread is unfinished some thread can step |
| LockOrder.OrdersAgree | objc-runtime/runtime/objc-os.h:814-827 | Locks are taken in ascending order, and exactly those are released, each once, also when both locks are the same |
| LockOrder.TakesItsLocks | objc-runtime/runtime/objc-os.h:812-827 | lockTwo takes and releases exactly its two locks, and lockAll exactly all stripes |
| LockOrder.TakeKeepsInv | objc-runtime/runtime/objc-os.h:814-822 | Taking a lock keeps the owners right |
| LockOrder.ReleaseKeepsInv | objc-runtime/runtime/objc-os.h:824-827 | Releasing a lock keeps the owners right |
| LockOrder.LastRelease | objc-runtime/runtime/objc-private.h:781-785 | After the last release a thread holds nothing |
| LockOrder.RunsAreBounded | objc-runtime/runtime/objc-private.h:775-785 | Every step is one step nearer to the end |
| LockOrder.AllFinishedMeansFree | objc-runtime/runtime/objc-private.h:775-785 | A run that cannot go on has finished all threads and holds no lock |
| MarkGC.Set32 | objc-runtime/markgc.cpp:79-131 | Writing a word in either byte order reads back and touches four bytes |
| MarkGC.ClearType | objc-runtime/markgc.cpp:389-390 | Clearing the section type of the flags zeroes one byte, in either byte order |
| MarkGC.DoSect | objc-runtime/markgc.cpp:377-402 | A section record becomes its marked form; the two tests do not interfere |
| MarkGC.MarkedSection | objc-runtime/markgc.cpp:377-402 | A marked section has neither old name, marking it again changes nothing, and only the name and the type byte of a section with an old name change |
| MarkGC.NamedIff | objc-runtime/markgc.cpp:386-396 | A record is taken for one of the two old names exactly when its segment name begins with __DATA and its section name is spelled so |
| MarkGC.DoSeg | objc-runtime/markgc.cpp:404-413 | All sections of a segment are marked, and nothing else changes |
| MarkGC.ParseCommands | objc-runtime/markgc.cpp:416-430 | All sections of a well-formed image are marked, and every other byte is kept |
| MarkGC.SectionsRenamed | objc-runtime/markgc.cpp:386-401 | Afterwards every __DATA section that was named __mod_init_func is named __objc_init_func, every __mod_term_func is __objc_term_func, with the section type 0 and the other flags and fields kept, and every other section is as it was |
| MarkGC.ParseMacho | objc-runtime/markgc.cpp:433-450 | The same for each of the four layouts by the magic number; any other file is refused untouched |
| MarkGC.LayoutIsTheFilesOwn | objc-runtime/markgc.cpp:437-446 | The magic number stands for the same layout on hosts of both byte orders |
| MarkGC.LayoutReadsMagic | objc-runtime/markgc.cpp:433-450 | A file is read in a layout exactly when its first word, in that byte order, is the magic number of that word size |
| MarkGC.OnlyOldSectionsChange | objc-runtime/markgc.cpp:386-401 | A byte that changed is in the name or is the type byte of a section with an old name |
| MarkGC.NoOldNamesRemain | objc-runtime/markgc.cpp:386-401 | Afterwards no section of a data segment has either old name |
| MarkGC.MarkedIsWellFormed | objc-runtime/markgc.cpp:416-430 | The image stays well formed, with its sections in the same places |
| MarkGC.MarkingIsIdempotent | objc-runtime/markgc.cpp:416-430 | Rewriting a rewritten image changes nothing |
| MarkGC.SectionsApart | objc-runtime/markgc.cpp:408-412 | Sections of a well-formed image do not overlap |

## Left out

- Memory ordering: every step sees the latest value of the shared words; fences and the
  acquire and release variants are not distinguished.
- Raw-pointer isa, tagged pointers and overridden retain and release methods. The isa stays
  nonpointer throughout.
- RetainRelease.CountIsConserved: the runs have at most an eighth of the word size of
  references at a time, the most that an unpinned side-table word counts; a pinned count
  is deliberately inexact, and AddExtraRcIsExactIff says when it is.
- Weak references, autorelease pools and associated objects, and the side table's flag bits.
- InlineRefcount.MatchedRunsAreExact: the runs keep the count within the ivar's type;
  DeallocStartsAtMostOnce covers runs that wrap around as well.
- DenseMaps.DenseMap.Insert: for tables with an empty bucket. Only a wrapped rehash, which
  takes at least 2^30 buckets, leaves a table with none, and Insert and Resize say exactly
  when; on such a table LookupBucketFor says when an operation is fatal.
- DenseMaps.DenseMap.ShrinkAndClear: up to 2^30 entries; beyond, its shift is undefined in C.
- DenseMaps.DenseMap.Clear: up to 2^30 entries, since it may call ShrinkAndClear.
- The two reserved keys of a DenseMap are constructors of a bucket, so that no key can be
  one of them; copying, swapping, iterators and destructors of keys and values.
- SmallDenseMap, whose inline buckets follow other rules.
- The string hash lookup8 is any function of the string and the salt; its quality is not
  at issue.
- MakePerfect.FindHash: the search for a salt has no bound in the code once the sizes are
  at their limit, so it has fuel here and may end with neither answer; all its turns have
  failed then.
- MakePerfect.MakePerfect: at most 2^30 names, so that no size wraps in 32 bits.
- StringTable.Table.Write: not for exactly one string, since its hash then shifts by 64,
  which is undefined in C. Tables of no string have a zero header and are not read. The
  error HashNotFinished stands for a search that the fuel cut short.
- The bytes of the tables: the arrays that lie behind each other in one section are fields
  here, and only their total size is checked; byte swapping is left out.
- ClassTable.Table.Write: sections below 8 GiB and fewer than 2^31 classes, so that no
  32-bit count wraps; not for exactly one string, as above, nor for classes without any
  string, where the code indexes arrays of no elements. The class table owns a string table instead of inheriting from it.
- Protocol tables, which repeat the class table without duplicates.
- ListArray.ListArray.AttachLists: list counts do not wrap in 32 bits; lists are values and
  not null; freeing and copying of lists is left out.
- Class links are only read; adding and removing classes is left out.
- HookChain.ChainIsComplete: for calls with distinct hooks and variables; NeverLosesHooksIff
  shows that no weaker condition would do.
- Recursive and monitor locks, lock debugging, and forced resets of locks.
- MarkGC.ParseMacho: images whose commands and sections lie where their sizes say; the code
  checks none of this. The structure offsets are those of the Mach-O format, whose header
  files are not part of the repository. Fat files and file access are left out.
- Logging, allocation failure, pointer authentication, inline assembly and thread-local
  storage.
- All applications in the repository, which are declarations and user interface only.

# libshmcache: model and proofs

libshmcache is a key/value cache in shared memory for several processes. Writers hold
one lock; entries are bump-allocated in stripes of value segments, found through hash
chains, and evicted first-in first-out. This project models that engine, its write lock
with dead-holder detection, and the arithmetic that sizes its memory, and proves what
they promise.

`dafny verify dfyconfig.toml` checks everything.

## How the model is built

The engine is modelled three times, and each form is proved against the next.

1. **In place** (`RingQueue`, `FifoList`, `HashIndex`, `StripePool`, `EntryStore`, `Cache`,
   `CacheRuns`): classes whose methods follow the C functions with their branches, stores and
   loops. Queues are arrays with head, tail and cursor; the FIFO list and the bucket
   chains are link words addressed by encoded offsets; keys and values are bytes in segment
   images. Writing an entry destroys every header in its byte range, so an entry stays
   readable only because the allocator keeps entries apart. In one place the order of stores
   differs: set copies key and value into the new entry right after the allocation, where the
   code does so after it has freed the key's old entry (src/shm_hashtable.c:87-119).
2. **On values** (`Stripes`, `Engine`): the same operations as functions on a state made of
   the FIFO sequence of entries with their places, the stripe pool and the usage counters.
   Every in-place method ensures that its new abstract state is this function of the old one.
   The invariants (`Accounting`, `Invariants`, `Placement`, `Stability`) and the exact outcomes
   are proved here: of a scan (`Scanning`), of recycling (`Recycling`, `Vacancy`), of a
   rearrangement (`Packing`), and of set as a whole (`Totality`, `Service`).
3. **As users see it** (`OrderedMap`, `Refinement`): an insertion-ordered map whose entries lie
   in bins. It evicts from its oldest end, only at the key limit or when memory is scarce, and
   exactly as far as the count or the first bin that becomes empty asks for.

`Lock` is a transition system over processes that may die between any two shared-memory
accesses; the cache in it is the value-level state, an operation in progress may leave it in
any state whose segments are intact, and a finished operation is the value-level step.
`LockRuns` proves that over every run the operations take effect one after the other, and that
work and recovery are possible. `Deadlines` states expiry by stored deadlines and the clock.
`Listing`, `Decimal`, `Counter`, `Offsets` and `Sizing` cover listings, increments, the offset
encoding and the division of memory.

Set, allocation, rearrangement and re-insertion call each other. Their termination is proved,
for the functions and for the methods, by the number of entries at the call: a rearrangement
that starts with `n` entries calls set only while fewer than `n` are in the cache, so the
count strictly decreases from each nested rearrangement to the next.

## Where code and documentation differ

`shm_object_pool_remove` is documented to return the removed offset (src/shm_object_pool.h:150-155).
The code reads the cursor slot after the shift, so away from the head it returns the preceding
element; the caller then takes the removal for a failure and the stripe enters neither queue
(src/shm_value_allocator.c:59-68). The setting `documented` selects either behaviour, and all
theorems hold for both unless they name it. The model records the stripes dropped this way since
the last clear as `lost`. `LostStripe` gives a run of four legal sets, from the state and with the
settings that initialisation computes, that ends in a failed set. `Totality.SetExact` says exactly
when a set fails, in terms of the state before the call.

The space check before a rearrangement (src/shm_value_allocator.c:212-220) is there so that the
entries can be inserted again. It does not see how they pack into stripes: `LostCache` gives a run
on which the check passes, the insertion fails and all unexpired entries are gone.
`Packing.RearrangeExact` says exactly when a rearrangement succeeds, and `Packing.CheckSuffices`
for which entries the check is enough. In both runs 448 bytes stand for `struct shm_memory_info`
and 331 for the number of buckets.

`shm_object_pool_remove` is also documented to remove the tail when the cursor is -1; the code
returns -1 and removes nothing. A cursor past the end does remove the last element. `Ring.Remove`
states both.

## Model

| member | source | states |
|---|---|---|
| RingQueue.Ring.Remove | src/shm_object_pool.c:83-111 | for every head, tail and cursor: exactly the cursor element leaves the queue and the rest keep their order (the last element goes when the cursor is past the end, nothing without cursor or elements); the reported value is the element before the cursor, or the head itself |
| RingQueue.Ring.RemoveSaved | src/shm_object_pool.h:150-156 | the documented removal: same effect, and the removed element is reported |
| RingQueue.ReportIff | src/shm_object_pool.c:100-110 | in a queue without duplicates the value reported as written is the removed element iff the cursor was at the head |
| RingQueue.ShiftRemoves | src/shm_object_pool.c:100-109 | for every wrap-around, shifting up to distance d and advancing the head removes the element at distance d |
| RingQueue.Ring.RemoveHere | src/shm_value_allocator.c:59-71 | removal in a scan leaves the cursor so that the next step visits the element after the removed one |
| RingQueue.Ring.Sweep | src/shm_value_allocator.c:46-72 | a scan that removes as it goes visits every element exactly once in order and removes exactly what it was told to |
| RingQueue.Ring.First | src/shm_object_pool.h:116-124 | the head element and cursor 0, or -1 on an empty queue |
| RingQueue.Ring.Next | src/shm_object_pool.h:132-148 | the element after the cursor, or -1 at the end; contents unchanged |
| RingQueue.Ring.Push | src/shm_object_pool.c:65-78 | appends, and fails with ENOSPC exactly when all slots but one are used |
| RingQueue.Ring.Pop | src/shm_object_pool.c:51-63 | takes the head element, or -1 |
| RingQueue.Ring.GetCount | src/shm_object_pool.c:39-49 | the number of queued offsets |
| RingQueue.Ring.RemoveBy | src/shm_object_pool.c:113-127 | removes the given offset iff it is queued, and reports a non-negative value iff it did |
| FifoList.FifoList.AddTail | src/shm_list.h:60-81 | the element becomes the last of the circular list; links agree in both directions |
| FifoList.FifoList.Delete | src/shm_list.h:90-105 | the element leaves, the others keep their order, and it is left linked to itself, so deleting it again changes nothing |
| FifoList.FifoList.MoveTail | src/shm_list.h:114-123 | the element becomes the last, the others keep their order |
| FifoList.FifoList.Init | src/shm_list.h:54-58 | an empty, well-linked list from any state of the words |
| FifoList.FifoList.First | src/shm_list.h:142-149 | the oldest element, or -1 |
| FifoList.FifoList.Next | src/shm_list.h:157-166 | the following element, or -1 |
| FifoList.FifoList.Count | src/shm_list.h:174-187 | the walk counts the elements |
| FifoList.Bypass | src/shm_list.h:102-103 | the two stores of a deletion leave a ring of the remaining nodes |
| Stripes.ScanQueued | src/shm_value_allocator.c:46-72 | the allocation scan keeps each stripe in exactly one of doing, done and lost, with the pool flag agreeing; stripes are lost only by a removal that misreports |
| Stripes.ScanSpace | src/shm_value_allocator.c:46-75 | a refused scan changes no stripe's space and leaves no stripe with room in doing; a granted one bumps exactly one stripe that had room |
| Stripes.ScanRetires | src/shm_value_allocator.c:55-69 | whatever a scan moves to done, or loses, lacked room |
| Stripes.ScanFinds | src/shm_value_allocator.c:46-53 | a stripe with room at or behind the cursor makes the scan succeed |
| Scanning.GivesUpIff | src/shm_value_allocator.c:55-69 | a stripe that a scan passes stays in doing iff more than discard_memory_size bytes are free in it and its failures, this one included, are at most max_fail_times |
| Scanning.GivenUpDone | src/shm_value_allocator.c:59-63 | with the documented removal, a stripe that a scan takes from doing is in done |
| Refinement.RunPatient | src/shm_value_allocator.c:55-57 | in no state of any run does doing hold a stripe that failed more than max_fail_times times since its last reset |
| Stripes.ScanDiscards | src/shm_value_allocator.c:55-57 | no stripe left in doing by a refused scan meets the discard rule |
| Scanning.ScanExact | src/shm_value_allocator.c:46-75 | the whole outcome of a scan from the pool it starts in: it serves the first stripe with room; the stripes before it count a failure; the spent ones among them leave doing for done, or for neither queue where the removal misreports; nothing else changes |
| Scanning.RefusedExact | src/shm_value_allocator.c:55-69 | a refused scan loses exactly the spent stripes that have a stripe in front of them that stays, and only when the removal is the one as written; done grows by the others |
| Scanning.RefusedIff | src/shm_value_allocator.c:46-53 | a scan is refused iff no stripe in doing has room |
| Scanning.ScanMarks | src/shm_striping_allocator.c:19-33 | exactly the stripes between the cursor and the serving one count one more failure; only the serving stripe gets a new allocation time |
| Stripes.ReleaseQueued | src/shm_value_allocator.c:78-97 | a release keeps the queue invariant; a stripe is reset iff its used bytes reach zero, and then ends in doing unless it is lost |
| Stripes.ReleaseRule | src/shm_value_allocator.c:321-345 | field by field: when the last bytes of a stripe go, it is as new and, if it was in done, at the tail of doing; otherwise only its used bytes shrink |
| Stripes.ResetAllQueued | src/shm_hashtable.c:254-263 | clearing queues every stripe once in doing, and none is lost any more |
| Stripes.ResetAllRule | src/shm_striping_allocator.h:35-41 | field by field, what a clear makes of the stripes and queues |
| Stripes.GrowQueued | src/shmopt.c:89-103 | new stripes enter doing and keep the partition |
| Stripes.GrowRule | src/shmopt.c:77-103 | field by field, the stripes cut from a new segment, at multiples of the stripe size, queued behind the others |
| Stripes.QueuesFit | src/shm_object_pool.c:65-78 | neither queue ever holds more stripes than exist, and a stripe that changes queue finds a free slot |
| StripePool.StripePool.DoAlloc | src/shm_value_allocator.c:38-75 | the cursor loop over the ring arrays computes the scan, result and whole pool; no push fails |
| StripePool.StripePool.Free | src/shm_value_allocator.c:321-345 | in place, computes the release and whether the stripe emptied |
| StripePool.StripePool.Clear | src/shm_hashtable.c:254-263 | from any queue contents, cursors and counters, every stripe is reset and queued in index order |
| StripePool.StripePool.CarveSegment | src/shmopt.c:77-103 | the carving loop adds the new stripes with their bases and queues them |
| Invariants.GrowCut | src/shmopt.c:77-103 | stripes of a segment are disjoint and inside it, and stay so when a segment is added |
| Invariants.SetWF | src/shm_hashtable.c:40-132 | set keeps the whole invariant, whatever it evicts, rearranges or fails on |
| Invariants.StepWF | src/shm_hashtable.c:40-272 | every operation, failed ones included, keeps it: used.entry is the sum of stripe counters and of live sizes, used.key and used.value are the sums of live lengths, count is the list length and at most max_key_count, keys are unique, entries are backed |
| Invariants.ClearWF | src/shm_hashtable.c:239-272 | clear makes a well-formed empty cache from any state whose segment geometry is intact |
| Invariants.FreshWF | src/shmcache.c:190-215 | initialisation establishes the invariant |
| Invariants.EvictCore | src/shm_hashtable.c:164-174 | freeing an entry keeps the allocator invariant for the others, and empties the stripe iff none of them lies in it |
| Invariants.ReserveCore | src/shm_value_allocator.c:38-75 | a reservation is accounted and apart from all live entries, before the old entry of the key is freed |
| Invariants.MemoryBound | src/shmopt.c:75-105 | used.common + used.entry never exceeds the memory obtained |
| Accounting.BackedRelease | src/shm_value_allocator.c:321-345 | a release keeps every remaining entry below its stripe's bump pointer and disjoint from the others |
| Placement.LiveDisjoint | src/shm_value_allocator.c:14-36 | live entries share no byte, in the same stripe or not |
| Placement.Inside | src/shm_value_allocator.c:14-36 | every entry lies in its stripe below offset.free and inside its segment |
| Placement.AreasApart | src/shm_value_allocator.h:53-64 | header, key and value areas of an entry do not overlap and end inside it |
| Placement.EntryLayout | src/shm_value_allocator.h:53-64 | an entry is 64 bytes of header, then key and value, each padded to the least multiple of the alignment |
| Stability.GuardIff | src/shm_value_allocator.c:212-220 | whether an allocation rearranges, read off the state before its scan: nothing queued has room, no segment may be added, expiry frees no stripe, and the space free of unexpired entries passes the floor |
| Stability.SetInPlace | src/shm_hashtable.c:81-129 | a set that does not rearrange leaves every other entry exactly where it was, or removes it if it may be evicted; it adds none |
| Stability.StepInPlace | src/shm_hashtable.c:40-272 | under any operation an entry stays in its place unless its key is replaced, deleted or evicted, or the cache is rearranged |
| Stability.RunInPlace | src/shm_hashtable.c:40-272 | the same over every run |
| EntryStore.WriteKeeps | src/shm_hashtable.c:111-119 | writing an entry keeps header, key bytes and value bytes of every entry disjoint from it |
| CacheRuns.Perform | src/shm_hashtable.c:40-272 | one operation in place is the value-level step with its reply, and the key and value bytes of every entry are the ones before unless its key is replaced, deleted or evicted, or the cache is rearranged |
| Recycling.RecycleKeysExact | src/shm_value_allocator.c:123-158 | key mode removes exactly the first k evictable entries in FIFO order and succeeds iff there are k |
| Recycling.RecycleStripeExact | src/shm_value_allocator.c:123-170 | stripe mode removes the shortest run of evictable entries that empties a stripe, and succeeds iff some stripe's entries are all evictable |
| Recycling.RecycleForced | src/shm_value_allocator.c:129-170 | with recycle_valid_entries on, stripe mode succeeds iff the list is not empty |
| Recycling.RecycleThins | src/shm_value_allocator.c:129-133 | only evictable entries go, an unexpired one only with recycle_valid_entries on, and order is kept |
| Refinement.SetMeaning | src/shm_hashtable.c:40-132 | set evicts from the oldest end exactly what the key limit asks for, then, only if no queued stripe has room and recycling is due, up to the first bin that becomes empty; it then drops the old binding and appends the new one; a failure leaves what was not evicted or, after a failed rearrangement, nothing |
| Refinement.RoomDecides | src/shm_value_allocator.c:267-289 | the first attempt and the choice between recycling and a new segment, read off the state before the scan |
| OrderedMap.FifoSet | src/shm_value_allocator.c:129-170 | with recycle_valid_entries on, a set removes a prefix of the list and nothing else, and none of it unless the key limit is reached or memory is scarce |
| Refinement.RearrangeMeaning | src/shm_value_allocator.c:202-256 | a successful rearrangement keeps exactly the unexpired bindings in order; a failed one changes nothing or leaves an empty cache |
| Refinement.ProtectedSet | src/shm_value_allocator.c:289-318 | with recycle_valid_entries off, the unexpired bindings after a successful set are those before without the key, then the new one |
| Refinement.StepMeaning | src/shm_hashtable.c:40-272 | set, get, delete, set_expires and clear are the operations of the ordered map, with FIFO eviction; get reports success, expiry or absence as the map and the clock dictate |
| Refinement.RunRefines | src/shm_hashtable.c:40-272 | over every run, every step is a map step and every state satisfies the invariant |
| Deadlines.GetRule | src/shm_hashtable.h:20-21 | get of a bound key is Ok iff its deadline is 0 or has not passed, and reports a time-out iff it has; the binding is returned either way |
| Deadlines.GetAbsent | src/shm_hashtable.c:161-161 | get of a key that no entry has reports that there is none |
| Deadlines.ServedUntil | src/shm_hashtable.c:134-162 | over every run that leaves the key bound and untouched, what was set is served up to its deadline, the deadline included, and times out ever after |
| Deadlines.SetSpares | src/shm_value_allocator.c:129-133 | with recycle_valid_entries off, a set that succeeds or does not rearrange keeps every other binding whose deadline is 0 or has not passed |
| Deadlines.ProtectedServed | src/shm_hashtable.c:40-272 | with recycle_valid_entries off, what was set is served until its deadline whatever operations on other keys come between, as long as no rearrangement fails |
| Totality.SetExact | src/shm_hashtable.c:54-85 | with valid entries recyclable and entries that fit a stripe, set succeeds iff key and value are legal, recycle_key_once does not exceed the entries at the key limit, and the state before the call is not starved: the stripes drained by the key limit are lost, no queued stripe has room, recycling is due, and the first stripe the rest of the list frees is in neither queue or will slip out of both |
| Totality.SetTotal | src/shm_hashtable.c:68-85 | with the documented removal, set succeeds iff key and value are legal and recycle_key_once does not exceed the entries at the key limit |
| Totality.AllocExact | src/shm_value_allocator.c:258-319 | the allocation fails iff no queued stripe has room, recycling is due and the first stripe that FIFO eviction empties is in neither queue, or is dropped by the scan; all read before the scan |
| Totality.StarvedIff | src/shm_value_allocator.c:258-319 | the allocation after the key limit is blocked iff the state before the call is starved |
| Vacancy.RecycleVacates | src/shm_hashtable.c:68-76 | recycling at the key limit takes a prefix of the list and leaves either an empty stripe in doing, or the queues and free space as they were |
| Totality.EmptyStripeReady | src/shm_value_allocator.c:330-341 | with the documented removal, a stripe without live bytes is reset and in doing |
| LostStripe.TotalityFailsAsWritten | src/shm_value_allocator.c:59-68 | as written, with settings that the sizing code yields, four legal sets from the initial state end in a set that reports no memory |
| Packing.RearrangeExact | src/shm_value_allocator.c:202-256 | a rearrangement succeeds iff its space check passes and first-fit allocation in list order packs the unexpired entries into the emptied stripes; failing the check it changes nothing, failing later it leaves an empty cache |
| Packing.ReinsertIsLoad | src/shm_value_allocator.c:237-252 | the insertion loop, with the rearrangements nested in it, is a first-fit load: a nested one rebuilds the same layout and finds no room again |
| Packing.SmallPacks | src/shm_value_allocator.c:46-53 | sizes up to a limit pack if they come to at most the stripe size less the limit, plus one, per stripe |
| Packing.CheckSuffices | src/shm_value_allocator.c:212-220 | where stripes fill their segments, the space check suffices for entries at most one byte larger than discard_memory_size |
| LostCache.CheckedRearrangementLosesAll | src/shm_value_allocator.c:212-252 | with settings that the sizing code yields and the documented removal, six operations from the initial state lead to a legal set that passes the space check, fails, and leaves the cache empty |
| Service.AllocServed | src/shm_value_allocator.c:258-319 | for either recycling policy and any size, the allocation succeeds iff a queued stripe has room, a segment may be added or a stripe freed that is queued and large enough, or the unexpired entries and the new one pack after a rearrangement |
| Service.SetServed | src/shm_hashtable.c:54-85 | set succeeds iff key and value are legal, the key limit is not reached or yields, and the allocation is served |
| Service.RearrangingSet | src/shm_value_allocator.c:289-318 | a set that rearranges succeeds iff the unexpired entries and the new one pack; otherwise it reports no memory and keeps the unexpired bindings if they pack, and none if they do not |
| HashIndex.HashIndex.Remove | src/shm_hashtable.c:189-196 | exactly the entry leaves its chain and every other chain and position stays; all chains stay acyclic, duplicate-free and in their bucket |
| HashIndex.HashIndex.Append | src/shm_hashtable.c:107-125 | the new entry ends its bucket's chain; every other chain stays |
| HashIndex.HashIndex.Replace | src/shm_hashtable.c:103-125 | the new entry takes the old one's place in the chain, although freeing zeroed the old link first |
| Cache.Cache.InItsBucket | src/shm_hashtable.c:32-34 | every live entry is in the chain of its key's hash modulo the number of buckets, and in no other |
| Cache.Cache.Find | src/shm_hashtable.c:90-101 | the chain walk finds the entry with the key and its predecessor, or proves that no live entry has the key |
| Cache.Cache.Get | src/shm_hashtable.c:134-162 | in place, the reply of the value-level get |
| Cache.Cache.FreeEntry | src/shm_hashtable.c:164-174 | list, counters, stripe and queues as the value-level eviction |
| Cache.Cache.DeleteEx | src/shm_hashtable.c:176-208 | in place, the value-level deletion; chains, list and memory keep agreeing |
| Cache.Cache.EvictAt | src/shm_value_allocator.c:126-147 | deleting by the key read from the entry always finds that entry, so the fallback for a failed deletion is unreachable |
| Cache.Cache.Recycle | src/shm_value_allocator.c:99-200 | the list walk that deletes as it goes computes the value-level recycling |
| Cache.Cache.SetExpires | src/shm_hashtable.c:210-237 | in place, the value-level update; the list position stays |
| Cache.Cache.Clear | src/shm_hashtable.c:239-272 | rebuilds agreement of chains, list, queues and counters from any state with intact sizes |
| Cache.Cache.CreateSegment | src/shmopt.c:41-113 | in place, the value-level segment creation, stored entries stay; at the segment maximum ENOSPC and no change |
| Cache.Cache.WriteEntry | src/shm_hashtable.c:111-119 | writing a reserved entry leaves every live entry readable, and its offset is new, positive and not the list head |
| Cache.Cache.LinkOver | src/shm_hashtable.c:103-129 | overwriting a key keeps chains, list, memory and counters in agreement |
| Cache.Cache.MakeRoom | src/shm_value_allocator.c:273-310 | in place, the choice between recycling, a new segment and a rearrangement |
| Cache.Cache.Alloc | src/shm_value_allocator.c:258-319 | in place, both attempts; the result is reserved beside the live entries |
| Cache.Cache.Rearrange | src/shm_value_allocator.c:202-256 | in place, copy out, clear and insert again; terminates although it calls set |
| Cache.Cache.Reinsert | src/shm_value_allocator.c:237-252 | the insertion loop, with the clear after a failure |
| Cache.Cache.Set | src/shm_hashtable.c:40-132 | in place, computes the value-level set and keeps chains, FIFO list, memory and pool in agreement |
| Cache.Cache.ToArray | src/shm_hashtable.c:310-407 | returns the page of unexpired matching entries in FIFO order; no row is written outside the allocated slots; a negative offset is an error |
| Listing.MatchKey | src/shm_hashtable.c:274-308 | the search loop and comparisons decide what the pattern means |
| Listing.ExactMeans | src/shm_hashtable.h:23-27 | code 0 matches the key itself; codes other than 0 to 3 match nothing |
| Listing.LeftMeans | src/shm_hashtable.h:24-24 | code 1 matches exactly the keys that start with the text |
| Listing.RightMeans | src/shm_hashtable.h:25-25 | code 2 matches exactly the keys that end with the text |
| Listing.AnywhereMeans | src/shm_hashtable.h:26-27 | code 3 matches exactly the keys that contain the text |
| Listing.SelectedMembers | src/shm_hashtable.c:332-404 | a binding is listed iff it is stored, its key matches and its deadline has not passed |
| Listing.PageRule | src/shm_hashtable.c:332-404 | a page holds the rows from the offset on, at most count of them if count is positive |
| Listing.PagesJoin | src/shm_hashtable.c:332-404 | consecutive pages concatenate to the page covering both |
| Listing.PagesCover | src/shm_hashtable.c:332-404 | paging through a listing yields every row once, in order |
| Listing.SelectedAll | src/shm_hashtable.h:129-133 | the listing without pattern is the list of unexpired bindings |
| CacheRuns.Boot | src/shmcache.c:179-225 | first-time initialisation: with the settings of the sizing code, an empty well-formed cache with one segment, or ENOSPC iff the division leaves no segment |
| CacheRuns.Serve | src/shm_hashtable.c:40-272 | any sequence of operations on the cache in place is a run of the ordered map, reply by reply, with its FIFO eviction; the bytes of an entry whose key nothing replaces, evicts or moves are those before the run |
| CacheRuns.Incr | src/shmcache.c:883-939 | in place, the value-level increment with its error cases |
| Counter.IncrExact | src/shmcache.c:896-930 | on a key in force, a text that cannot be counted is refused and nothing changes; otherwise the increment is the set of the sum, as decimal text with integer options |
| Counter.IncrInvalidIff | src/shmcache.c:899-921 | it is invalid iff the stored text has 24 bytes or more, or is no number up to its first NUL, or the sum is longer than values may be; then nothing changes |
| Counter.IncrStarts | src/shmcache.c:922-930 | an absent or expired key counts as zero |
| Counter.IncrServed | src/shmcache.c:929-929 | what an increment stores is served until its deadline, and with a ttl of 0 at every later time |
| Counter.IncrStores | src/shmcache.c:926-930 | a successful increment stores the decimal text of the value it reports, with integer options and the requested expiry |
| Counter.RunningSum | src/shmcache.c:883-939 | a run of successful increments of a key that stays bound reports the running sum while it stays in 64 bits |
| Decimal.PrintParse | src/shmcache.c:908-928 | a printed 64-bit number reads back as itself and is consumed whole |
| Decimal.WholeIff | src/shmcache.c:908-916 | a text is read to its end iff it is empty, or blanks, an optional sign and at least one digit; without a digit the value is 0 |
| Decimal.NumeralValue | src/shmcache.c:908-911 | blanks, an optional sign, zeros and the digits of n read as n or -n, cut to 64 bits |
| Decimal.DigitChars | src/shmcache.c:928-928 | printed digits are the characters 0 to 9, most significant first, after a minus sign for negative numbers |
| Decimal.PrintFits | src/shmcache.c:891-900 | a printed 64-bit number fits the buffer |
| Offsets.DecodeIff | src/shm_value_allocator.h:66-88 | decoding an entry offset gives back the byte offset, and the segment iff its index is at most 255 |
| Offsets.EncodeForm | src/shm_value_allocator.h:81-88 | the word of an entry is its flagged segment index in the low 16 bits and its byte offset above; the list head has index bits all one |
| Offsets.EncodeInjective | src/shm_value_allocator.h:81-88 | different places have different offsets |
| Offsets.EncodePositive | src/shm_value_allocator.h:81-88 | entry offsets are positive, so 0 and -1 can end chains and lists |
| Offsets.HeadApart | src/shm_list.h:37-46 | no entry offset equals the list head's |
| Sizing.AtMost255 | src/shmcache.c:621-630 | the clamp and the page alignment leave at most 255 segments |
| Sizing.StripesFit | src/shmcache.c:74-82 | at least one stripe per segment, and all of them fit it |
| Sizing.CreatedStripesFit | src/shmcache.c:82-82 | the stripes of all segments that may be created do not exceed the stripe maximum |
| Sizing.SecondPassSmaller | src/shmcache.c:94-128 | the second sizing pass keeps the sizes and never needs more segments or stripes |
| Sizing.ReservationSuffices | src/shmcache.c:112-128 | queues and allocators of the second pass fit what the first pass reserved |
| Sizing.FitsIff | src/shmcache.c:74-81 | every legal entry fits a stripe iff the largest one fits a segment |
| Sizing.Configure | src/shmcache.c:85-178 | both sizing passes: between 1 and 255 segments; header, buckets, key queue, both rings with a slot for every stripe that can be created, and the allocators lie one behind the other inside the hashtable segment |
| Sizing.LayoutRule | src/shmcache.c:98-122 | the exact offset of every area, from the header, the buckets, the key limit and the stripes of the first pass |
| Sizing.StripeRule | src/shmcache.c:63-81 | the stripe size by ranges of the segment size: 1, 2, 4 or 8 megabytes, at least two values, rounded up to pages, and the whole segment where that does not fit |
| Sizing.SegmentRule | src/shmcache.c:35-41 | the segment size: the setting, or a 255th of the memory where the setting is below a 256th, rounded up to pages |
| Sizing.CountRule | src/shmcache.c:41-44 | as many segments as fit the memory, one if less than one is left |
| Sizing.ConfigureIff | src/shmcache.c:41-46 | initialisation finds no segment iff the hashtable segment exceeds the memory limit by a segment or more |
| Lock.StepInv | src/shm_lock.c:98-183 | every step of every process, and every death, keeps the protocol invariant |
| LockRuns.BeginToFinish | src/shm_lock.c:133-183 | what a finished operation leaves is its step on the cache it began with, whatever happened in between |
| LockRuns.Serialisable | src/shm_lock.c:98-183 | whenever a live process has acquired the lock, or nobody has it, the cache is what the operations finished since the last recovery leave when applied one after the other; a recovery starts from an empty cache |
| LockRuns.WorkPossible | src/shm_lock.c:133-183 | where nobody has the lock, a live process can take it, do any operation and give it back |
| LockRuns.RecoveryPossible | src/shm_lock.c:98-127 | where the recorded holder is dead and the file lock is free, a live process can bring about a free mutex and an empty well-formed cache |
| Lock.MutualExclusion | src/shm_lock.c:133-183 | in every run at most one live process is changing the cache, as holder or as recoverer |
| Lock.PidNamesOwner | src/shm_lock.c:145-175 | a recorded pid names the process that has the mutex |
| Lock.AcquiredConsistent | src/shm_lock.c:98-169 | whenever a live process has acquired the lock the cache is well-formed, whatever dead writers left behind |
| Lock.ForcedOnce | src/shm_lock.c:106-127 | each dead holder is force-unlocked at most once, however many waiters detect it |
| Lock.OrphanedForever | src/shm_lock.c:145-169 | an owner that dies without a recorded pid leaves the mutex locked for good |

## Left out

- Lock-free reads concurrent with a writer: the library accepts dirty reads there; get is modelled as serialised.
- Fairness of the lock: `LockRuns.WorkPossible` and `LockRuns.RecoveryPossible` say what a process can do, not that it is scheduled to; `Lock.OrphanedForever` shows a case that never recovers.
- Deaths inside segment creation and during first-time initialisation: they can leave segment geometry undefined.
- Failing mmap, shmget, malloc, open or pthread calls, apart from giving up on the file lock: the model assumes that mapping and allocation succeed and that a mutex can be unlocked by another process.
- Process ids are not reused and a liveness probe is exact.
- Time: one clock value per operation.
- Integer widths: counters, sizes and failure counts are unbounded; segment and stripe indices are assumed to fit their 16-bit fields. Only the packed entry offset models its width.
- Counter.RunningSum: says nothing once a sum leaves the 64-bit range, where the addition in the code is undefined.
- Sizing.AtMost255: assumes a page size of at least 256 bytes; page alignment is modelled as rounding up, which the mask of the code is for powers of two.
- Cache.Cache.Set: entry alignment is an arbitrary unit, because the macro is defined in another library.
- The hash function and the prime bucket count come from another library: any function and any positive count.
- shm_object_pool_init_full, which no caller uses.
- Configuration parsing, statistics, sleeping, logging, set_ttl and the other argument checks of the public wrappers, the PHP and Java bindings and the command-line tools.

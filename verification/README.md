# queen-io: models and proofs

Dafny 4.11 models of the three stateful components of queen-io, with proofs about whole runs of them.
`dafny verify dfyconfig.toml` checks everything.

## What is modelled

**The wake-up protocol of `Queue`** (`src/queue.rs`, `src/waker.rs`). Producers and consumers share a FIFO, the wrapping
counter `pending` and an eventfd, which epoll watches. `QueueProtocol.dfy` is a transition system: one atomic step for
each operation on the FIFO, the counter or the eventfd, a program counter with its locals for every thread, any number
of threads, any schedule. `Step` is total, so every schedule is a run. `QueueRuns.dfy` holds the theorems: no lost
wake-up, the exact range in which that holds, termination of the calls in flight, and two runs that show the converse is
false. `QueueSequential.dfy` is about runs in which calls do not overlap, whichever threads make them: there readability
is exact. `QueueHistory.dfy` decides what is in the queue by the history of pushes, pops and closes. `Queue.dfy` is the
object, one call at a time; each method is proved to do what the protocol does when a whole call runs alone, among any
other threads. The last branch of `dec`, dead without interference, is `Rearm`. `Waker.dfy` is the eventfd and the
waker. Steps are sequentially consistent, words have 64 bits, and the only error an eventfd reports is `WouldBlock` (and
`InvalidInput` for a value nobody writes).

**`LruCache`** (`src/cache/lru_cache.rs`). `LruCache.dfy` has the heap: nodes with `next` and `prev`, a sentinel, a map
(`boxes`) from keys to nodes, and every pointer assignment of `attach` and `detach`. Each method is proved to act on the
list of pairs around the ring as the plain list of `LruList.dfy` does. `LruList.dfy` and `Recency.dfy` prove what runs
of that list look like: recency decided by the history, inclusion across capacities, the size bound; `Replay` carries
them to the object. `Competitive.dfy` proves the classical bound on LRU misses against any other demand-loading cache,
clairvoyant ones included, for a client that reads through the cache; `ReadThroughCache` is that client on the object.
The two branches of `put` are the methods `Update` and `Insert`, and detach followed by attach is `MoveToFront`. The key
and value types are auto-initialising, so that the sentinel can exist without a key or a value; neither is ever read.

**`TtlCache`** (`src/cache/ttl_cache.rs`). `TtlCache.dfy` is the object and its iterators; instants are integers, and
each reading of the clock is passed in, as a clock where a loop reads it again and again. `TtlRuns.dfy` gives the steps
of the cache as values, with the bounds on its size, `TtlMap.dfy` the insertion-ordered map. `TtlEager.dfy` compares
runs with a reference cache that deletes entries the moment they expire. `TtlOrder.dfy` says which runs keep the entries
in order of time, and what that is good for. `TtlHistory.dfy` decides lookups by the history, `TtlIter.dfy` is about
double-ended iteration while time goes by. `Replay` and `Walk` carry the theorems about runs and iterations to the
objects.

## Where the code does not do what it seems to promise

- `LruCache::pop` removes the map entry and never detaches the node, although its comment says the pair is removed. The
  replies of `pop` and `len` are right, but the example in its documentation already ends with a node in the ring that
  is not in the map (`LruCache.PopsAsDocumented`), and `LruCache.LruCache.Pop` proves that the representation survives
  if and only if the key was absent. `LruCache.LruCache.PopDetaching` is a departure from the source that would be
  right.
- A readable descriptor does not mean there is work. Two causes are shown: a producer that announces a value already
  taken (`QueueRuns.SpuriousWakeup`), and two consumers of which neither sees that it takes the last value
  (`QueueRuns.SpuriousAfterPops`). `wake` aside, it does mean that as long as calls do not overlap
  (`QueueSequential.SequentialExactness`); and in all runs of at most n threads exactly when n is at most one, whatever
  the capacity and however few values there are (`QueueSequential.TruthfulExactly`).
- `next_back` stops at the first expired entry because "the entries are in order of time". They need not be:
  `TtlOrder.SortedIffOrderly` says exactly which runs keep them so, and `TtlOrder.StepSortedIff` which operations do.
  After two inserts with different times to live, iterating backwards can miss a live entry
  (`TtlIter.BackwardMissesLive`); `TtlIter.IterationIff` has the exact condition for iterations to miss nothing while
  time goes by, `TtlIter.IterationAtOnceIff` the one for a clock that stands still.
- Expired entries kept in the map can push out live ones once times to live differ (`TtlEager.UnequalTtlsDiffer`);
  `TtlEager.LazyIsEagerIffFair` says exactly when this cannot be noticed by looking at the replies and at what is in the
  cache. With one time to live and without inserts through the entry API it never can: `TtlOrder.OneTtlIsEager`.

The range of validity of the wake-up theorem is stated by `QueueRuns.NoLostWakeupExactly`: for a bound on the number of
values, no run within that bound loses a wake-up exactly when the bound is below 2^64. No machine holds that many
values.

## Model

| member | source | states |
|---|---|---|
| Waker.EventFd.Write | src/sys/eventfd.rs:45-49 | A write adds to the counter, or fails with WouldBlock and changes nothing when it would pass 2^64-2 |
| Waker.EventFd.Read | src/sys/eventfd.rs:38-43 | A read returns the counter and empties it, or fails with WouldBlock at zero |
| Waker.Waker.Wakeup | src/waker.rs:22-33 | Never fails; afterwards the counter is above zero, one higher unless it was full |
| Waker.Waker.Finish | src/waker.rs:35-46 | Never fails; afterwards the counter is zero |
| Waker.Waker.SetReadiness | src/waker.rs:48-58 | Readable and writable leave the counter above zero, one higher unless it was full; empty leaves zero; every other mask leaves it alone |
| Waker.Masks | src/epoll/ready.rs:6-24 | The three masks are 1, 2 and 0, and differ; 1 and 2 raise the counter by one unless it holds 2^64-2, 0 clears it, anything else changes nothing |
| QueueProtocol.StepCounted | src/queue.rs:43-78 | Every atomic step of every call keeps `pending` equal, modulo 2^64, to queued values plus consumers before fetch_sub minus producers before fetch_add |
| QueueProtocol.AdvanceGuard | src/queue.rs:43-66 | If values are counted and the eventfd is zero after a step of `inc` or `dec`, some thread is about to write to it or has drained it and not yet decremented |
| QueueProtocol.BeginGuard | src/queue.rs:68-78 | Starting a push, pop, wake or add cannot leave counted values unannounced with nobody responsible |
| QueueProtocol.StepInv | src/queue.rs:43-78 | The protocol invariant is kept by every atomic step while fewer than 2^64 values exist |
| QueueRuns.PendingConserved | src/queue.rs:43-78 | In every reachable state, with no bound at all, `pending` is its signed value modulo 2^64 |
| QueueRuns.CounterTests | src/queue.rs:44-63 | Within 63 bits `0 == cnt` and `first == 1` decide on the signed value, and `second > 1` differs from it exactly when the value is negative, towards an extra wake-up |
| QueueRuns.RunInv | src/queue.rs:43-78 | The invariant holds after every schedule that stays in range |
| QueueRuns.NoLostWakeup | src/queue.rs:43-78 | After every schedule of any number of threads, if no call is in flight then `pending` is the queue length, and a non-empty queue has a readable eventfd |
| QueueRuns.BoundedItems | src/queue.rs:23-31 | A bounded queue never holds more than its capacity, and capacity plus threads bounds all values that exist |
| QueueRuns.NoLostWakeupBounded | src/queue.rs:23-31 | A bounded queue loses no wake-up in any schedule if capacity plus threads is below 2^64 |
| QueueRuns.LostBeyondRange | src/queue.rs:52-66 | A concrete schedule with 2^64 values loses a wake-up: a consumer stalled between drain and fetch_sub sees `pending` wrapped to zero |
| QueueRuns.NoLostWakeupExactly | src/queue.rs:43-78 | For every bound on the number of values: no schedule within it loses a wake-up if and only if the bound is below 2^64 |
| QueueRuns.CompletionMeasure | src/queue.rs:43-78 | When no call starts, the steps that move calls number at most four per call in flight, and each uses up the measure |
| QueueRuns.TurnsCount | src/queue.rs:43-66 | Each turn a thread gets brings its call a step nearer its end, whatever the other threads do |
| QueueRuns.Completion | src/queue.rs:43-78 | From every reachable state, four more turns per thread in any order finish all calls, leave the queue alone, make `pending` its length and the eventfd readable if it is not empty |
| QueueRuns.SpuriousWakeup | src/queue.rs:43-78 | With any capacity, a concrete schedule of two threads with one value and no `wake`, in which the producer is late, ends quiet with an empty queue, `pending` zero and a readable eventfd |
| QueueRuns.SpuriousAfterPops | src/queue.rs:52-66 | So does one in which two overlapping pops both load 2, so that neither drains |
| QueueSequential.StepSettled | src/queue.rs:43-78 | With calls that do not overlap, each atomic step keeps what the history says of `pending` and the eventfd at every place inside the call; the re-arming branch is never reached |
| QueueSequential.RunSettled | src/queue.rs:43-78 | That holds after every run without overlap, by any number of threads, also in the middle of a call |
| QueueSequential.SequentialExactness | src/queue.rs:43-78 | Over all runs with fewer than 2^64 values in which calls do not overlap, whichever threads make them, from any quiet state: whenever no call is in flight `pending` is the queue length, and the eventfd is readable exactly if the queue is not empty or a wake-up is left over that no emptying pop has drained |
| QueueSequential.ReadableIffNonEmpty | src/queue.rs:128-136 | Without `wake`, a queue whose calls do not overlap, from whatever threads, is readable between calls exactly if it is not empty, failed calls and `add` included |
| QueueSequential.TruthfulExactly | src/queue.rs:43-78 | Between calls the descriptor is readable exactly if there is work, in all runs without `wake` of at most n threads with at most b values at a time (b from 1 to below 2^64), if and only if n is at most one, whatever the capacity |
| QueueHistory.QueueByHistory | src/queue.rs:68-102 | In every run of any number of threads the queue holds the values pushed, in order, without as many of the first as have been popped; pushes fail exactly when it is closed or full, and it is closed exactly if some thread has closed it |
| QueueHistory.NothingAfterClose | src/queue.rs:100-102 | After a close by an idle thread, in every later run nothing is added, and what was left goes out in order |
| Queue.AloneIsRun | src/queue.rs:68-78 | A whole call by any idle thread is a run of the protocol: the call and four more turns of that thread, or more than it needs |
| Queue.AloneNoOverlap | src/queue.rs:68-78 | Whole calls made one after the other, by whichever threads, are a run without overlap |
| Queue.AloneEffect | src/queue.rs:43-78 | The net effect of a whole call made alone by any thread, whatever the others are in the middle of: push announces only at `pending` 0, pop drains exactly at the last counted value, re-arming never happens |
| Queue.AloneDoes | src/queue.rs:43-110 | Clause by clause, in numerals: what each whole call does to the queue, to whether it is closed, to the wrapping counter and to the eventfd, and what it leaves alone |
| Queue.AddAnnounces | src/queue.rs:128-136 | Among any turns of other threads, an add that finds values counted leaves the descriptor readable with its write, whatever the eventfd held; one that finds none changes nothing |
| Queue.ExactStep | src/queue.rs:43-78 | One whole call by any thread from a quiet state keeps `pending` exact, changes readability only as the history says, and lengthens the queue by one at most |
| Queue.ConcurrentQueue.Push | src/queue.rs:68-69 | Refuses when closed, then when full, handing the value back; otherwise appends |
| Queue.ConcurrentQueue.Pop | src/queue.rs:74-75 | Takes the oldest value, also from a closed queue; the error on an empty one tells whether it is closed |
| Queue.ConcurrentQueue.Close | src/queue.rs:100-102 | Closes, keeps the values, and says whether it was open |
| Queue.Queue.constructor | src/queue.rs:23-41 | A new queue is in the protocol's first state, which is quiet |
| Queue.Queue.Inc | src/queue.rs:43-50 | Increments with wrap-around and raises the eventfd only if the counter was zero |
| Queue.Queue.Dec | src/queue.rs:52-66 | Decrements with wrap-around and empties the eventfd only if the counter was one |
| Queue.Queue.Rearm | src/queue.rs:61-65 | Raises the eventfd again exactly if the first reading was one and the second more |
| Queue.Queue.Push | src/queue.rs:68-72 | Does what the protocol does for a push that runs alone, and returns the error of a closed or full queue |
| Queue.Queue.Pop | src/queue.rs:74-78 | Does what the protocol does for a pop that runs alone, and returns the oldest value or the error |
| Queue.Queue.Wake | src/queue.rs:108-110 | Leaves the eventfd above zero, one higher unless full. Does what the protocol does for a wake |
| Queue.Queue.Add | src/queue.rs:128-136 | A wake-up if values are pending: the eventfd is then above zero and one higher unless full; otherwise it is left alone. Does what the protocol does for an add that runs alone |
| Queue.Queue.Close | src/queue.rs:100-102 | Closes the queue, keeps its values and says whether it was open. Does what the protocol does for a close |
| Recency.TakeTouch | src/cache/lru_cache.rs:114-123 | What a recency list has evicted never matters to later evictions |
| Recency.StackOrder | src/cache/lru_cache.rs:254-270 | Moving touched keys to the front keeps each once, with exactly the keys touched since in front of it |
| Recency.StackPlaces | src/cache/lru_cache.rs:254-270 | Place i of the cut recency list holds the key since whose latest touch exactly i other keys were touched |
| Recency.StackMembers | src/cache/lru_cache.rs:120-122 | A key is among the kept ones exactly if it was touched and fewer than capacity other keys were since |
| LruList.ApplyKeys | src/cache/lru_cache.rs:95-159 | Each operation moves its key to the front and cuts at the capacity, and keeps keys distinct and the length in bounds |
| LruList.RunProper | src/cache/lru_cache.rs:95-252 | In every run, capacity changes and capacity 0 included, keys are distinct and the length is at most the capacity |
| LruList.ApplyFind | src/cache/lru_cache.rs:95-125 | An operation gives a resident key the value just put, or leaves the one it had |
| LruList.GetByHistory | src/cache/lru_cache.rs:95-159 | At fixed capacity a get finds the latest value put, exactly if the key was touched and fewer than capacity other keys were since; a get that misses touches nothing |
| LruList.PlaceByHistory | src/cache/lru_cache.rs:95-159 | The place of each resident key is the number of other keys touched since its latest touch |
| LruList.Inclusion | src/cache/lru_cache.rs:95-159 | Of two caches given the same puts and gets the smaller is a subsequence of the larger, the sizes differ by no more than the capacities, and every hit in the smaller is a hit in the larger with the same value |
| LruCache.KeysDistinct | src/cache/lru_cache.rs:20-25 | The keys around the ring are distinct and are exactly the keys of the map |
| LruCache.Lookup | src/cache/lru_cache.rs:96-107 | Finding a key in the map and finding it in the list are the same, and the box found is the node at that place |
| LruCache.LinkedCut | src/cache/lru_cache.rs:255-260 | A ring whose links step over one node is well linked without it |
| LruCache.CutConsistent | src/cache/lru_cache.rs:247-250 | Detaching a node and removing its key keep map, ring and list together |
| LruCache.LruCache.constructor | src/cache/lru_cache.rs:64-80 | A new cache is an empty ring around the sentinel |
| LruCache.LruCache.Detach | src/cache/lru_cache.rs:255-260 | The two assignments cut the node out of the ring, which stays well linked both ways |
| LruCache.LruCache.Attach | src/cache/lru_cache.rs:263-270 | The four assignments put the node right after the sentinel, and the ring stays well linked both ways |
| LruCache.LruCache.MoveToFront | src/cache/lru_cache.rs:111-112 | Detach then attach makes the node the most recent one and keeps the order of the others |
| LruCache.LruCache.Update | src/cache/lru_cache.rs:97-113 | A put of a present key rewrites its box and makes it the most recent |
| LruCache.LruCache.Insert | src/cache/lru_cache.rs:102-119 | A put of a new key adds a new box to the map and to the front of the ring |
| LruCache.LruCache.Put | src/cache/lru_cache.rs:95-125 | Keeps the representation and acts on the list as the plain-list put, eviction included |
| LruCache.LruCache.Get | src/cache/lru_cache.rs:143-159 | Returns the value the list holds for the key, keeps the representation and moves the key to the front |
| LruCache.LruCache.Pop | src/cache/lru_cache.rs:176-180 | On any map, also after earlier pops: returns the value and removes the key from the map only. On a good representation the reply is that of the list, and the representation survives if and only if the key was absent |
| LruCache.PopsAsDocumented | src/cache/lru_cache.rs:163-175 | The documented calls, two pops of the same key among them, reply None, the value, None, and leave length 0; but the node is still in the ring, and the representation is broken |
| LruCache.LruCache.PopDetaching | src/cache/lru_cache.rs:161-180 | A departure from the source: a pop that also detaches keeps the representation and drops the pair from the list |
| LruCache.LruCache.ChangeCapacity | src/cache/lru_cache.rs:226-231 | Leaves exactly the c most recent pairs in unchanged order with unchanged values, and sets the capacity |
| LruCache.LruCache.Len | src/cache/lru_cache.rs:234-236 | The size of the map, also after pops, and the length of the list while the two are consistent |
| LruCache.LruCache.RemoveLru | src/cache/lru_cache.rs:244-252 | Removes the least recent pair from ring and map, or nothing from an empty cache |
| LruCache.LruCache.Fmt | src/cache/lru_cache.rs:276-293 | Following `next` from the sentinel for `len()` steps writes the text of the pairs in list order, most recent first, in braces |
| LruCache.JoinedOne | src/cache/lru_cache.rs:281-290 | The text of one pair is key, colon, value |
| LruCache.JoinedConcat | src/cache/lru_cache.rs:278-290 | The text of a list is that of its first part, a comma, and that of the rest, wherever it is split |
| LruCache.LruCache.Perform | src/cache/lru_cache.rs:95-231 | Put, get and change_capacity on the heap are the steps of the plain list |
| LruCache.Replay | src/cache/lru_cache.rs:64-252 | An object that lives through any run of these operations holds the list of that run, in a good representation |
| Competitive.ReadThrough | src/cache/lru_cache.rs:95-159 | A get followed by a put on a miss moves the key to the front and cuts, and hits exactly if the key was resident |
| Competitive.ClientIsReadAll | src/cache/lru_cache.rs:95-159 | A whole read-through run makes the misses and leaves the keys that the bounds below count |
| Competitive.ClientIsRun | src/cache/lru_cache.rs:95-159 | After any past, the gets and puts the client issues are a run of cache operations that ends where the client does |
| Competitive.MissBound | src/cache/lru_cache.rs:95-159 | Right after an access to p, a stretch with k misses requests at least k distinct keys other than p |
| Competitive.NewKeysMiss | src/cache/lru_cache.rs:95-159 | Any demand-loading cache misses once for every requested key it did not hold at the start |
| Competitive.OtherMissesCount | src/cache/lru_cache.rs:95-159 | The misses of a demand-loading cache number the requests for keys it did not hold |
| Competitive.LruServes | src/cache/lru_cache.rs:95-159 | LRU is itself such a cache, and its misses are counted alike |
| Competitive.StretchBound | src/cache/lru_cache.rs:95-159 | In such a stretch any demand-loading cache of h <= k keys that held p misses at least min(m, k) - h + 1 times, m being LRU's misses |
| Competitive.LruIsCompetitive | src/cache/lru_cache.rs:95-159 | On every request sequence (k-h+1) times the misses of LRU with k keys is at most k times those of any demand-loading cache of h <= k keys, plus h(k-h+1) |
| Competitive.ClientIsCompetitive | src/cache/lru_cache.rs:95-159 | The bound holds for the misses of a client that reads through the cache after any run of operations |
| Competitive.ReadThroughCache | src/cache/lru_cache.rs:95-159 | A client that reads through the cache object, nodes and pointers included, makes the misses those bounds are about and leaves the cache well formed |
| TtlMap.TrimmedIsSuffix | src/cache/ttl_cache.rs:581-589 | Trimming removes exactly the longest expired stretch at the old end |
| TtlMap.TrimmedSorted | src/cache/ttl_cache.rs:581-589 | In a map sorted by deadline, trimming leaves exactly the live entries |
| TtlRuns.RunUnique | src/cache/ttl_cache.rs:241-249 | In every run of these operations, entry API included, keys are distinct |
| TtlRuns.LookupAfter | src/cache/ttl_cache.rs:311-358 | After a write through get_mut, a remove, an insert through the entry API, or an entry that is only read or written through, lookups of that key see exactly it, and those of other keys see no change |
| TtlRuns.OrderAfter | src/cache/ttl_cache.rs:74-115 | An insert makes its key the youngest, an insert through an occupied entry leaves its key in place, writing through get_mut or an entry moves nothing, and entry removes an expired entry of its key |
| TtlRuns.OrderAfterOthers | src/cache/ttl_cache.rs:409-457 | Lookups move nothing, set_capacity keeps the youngest c keys in order, clear none, and iter all but the expired stretch at the old end |
| TtlRuns.EntriesAfter | src/cache/ttl_cache.rs:74-457 | What each operation leaves under a key that it leaves at all: the value and deadline just given, the value just written, or what was there |
| TtlRuns.Replies | src/cache/ttl_cache.rs:216-358 | Get finds the value of an entry that has not expired; insert, get_mut, remove and both uses of entry reply what get would at that reading, and contains_key whether it would find something |
| TtlRuns.IterReplies | src/cache/ttl_cache.rs:454-457 | Iter lists exactly what get would find, in the order of the map and nothing twice |
| TtlRuns.SizeStep | src/cache/ttl_cache.rs:241-249 | No operation but a vacant insert can take the map further beyond its capacity |
| TtlRuns.SizeBound | src/cache/ttl_cache.rs:112-115 | In every run the map holds at most the capacity plus the vacant inserts since the last set_capacity or clear |
| TtlRuns.FitsIffRoom | src/cache/ttl_cache.rs:112-115 | A run keeps to the capacity at every point if and only if every vacant insert finds fewer entries than the capacity |
| TtlEager.EvictAgree | src/cache/ttl_cache.rs:245-247 | Evicting the oldest entry and evicting the oldest live entry agree if the oldest is live just when the live entries alone overflow; otherwise they leave different numbers of live entries |
| TtlEager.ShrinkAgree | src/cache/ttl_cache.rs:409-414 | Shrinking with and without expired entries agree if nothing live is dropped or nothing expired is kept; otherwise they leave different numbers of live entries |
| TtlEager.StepAgree | src/cache/ttl_cache.rs:241-434 | On agreeing caches every operation gets the same reply from both; they still agree afterwards if the step is fair, and hold different numbers of live entries if it is not |
| TtlEager.AgreeIffFair | src/cache/ttl_cache.rs:241-434 | Lazy and eager cache agree after each operation of a run if and only if every step is fair, and then all replies are the same, up to and including those of the first unfair step |
| TtlEager.UnfairProbe | src/cache/ttl_cache.rs:241-457 | Iterating over the cache right after the first unfair step of a run gives it away |
| TtlEager.LazyIsEagerIffFair | src/cache/ttl_cache.rs:241-434 | Over every run with a clock that does not go back: at no point do the replies so far, or those of iterating over the cache then, differ from eager deletion, if and only if every step is fair |
| TtlEager.UnequalTtlsDiffer | src/cache/ttl_cache.rs:241-249 | Three inserts with two times to live, the third unfair, with the replies of eager deletion, and a lookup after which the replies differ |
| TtlOrder.PushedSortedIff | src/cache/ttl_cache.rs:241-247 | A plain insert into a sorted map, eviction included, leaves it sorted exactly if the youngest other entry does not expire later than the new one, or is itself evicted |
| TtlOrder.OverwriteKeepsOrderIff | src/cache/ttl_cache.rs:74-77 | An insert through an occupied entry keeps a sorted map sorted exactly if the new deadline lies between its neighbours' |
| TtlOrder.StepSortedIff | src/cache/ttl_cache.rs:241-457 | Each operation leaves a sorted map sorted exactly if it is orderly; only inserts, vacant and occupied ones included, can fail to be |
| TtlOrder.SortedIffOrderly | src/cache/ttl_cache.rs:649-651 | In every run of the modelled operations the map is sorted by deadline at every point if and only if every step is orderly, which the map before the step decides |
| TtlOrder.OrderlyIsEager | src/cache/ttl_cache.rs:241-457 | A run of orderly steps, with both kinds of insert, in which vacant inserts find room and nothing already expired is inserted, cannot be told from one with eager deletion |
| TtlOrder.InOrderSorted | src/cache/ttl_cache.rs:649-651 | If inserts of either kind expire in the order they are made and none overwrites in place, the map is sorted at every point |
| TtlOrder.InOrderIsEager | src/cache/ttl_cache.rs:241-457 | Such a run, if vacant inserts find room, cannot be told from one with eager deletion |
| TtlOrder.OneTtlIsEager | src/cache/ttl_cache.rs:241-457 | With one time to live and no insert through the entry API, every run keeps the map sorted and cannot be told from one with eager deletion, by its replies or by iterating at any point |
| TtlOrder.OneTtlWithEntries | src/cache/ttl_cache.rs:241-457 | With one time to live and entry-API inserts that do not overwrite the map is always sorted, and if vacant inserts find room the run cannot be told from one with eager deletion |
| TtlHistory.KeysByHistory | src/cache/ttl_cache.rs:241-249 | Over inserts and lookups the map holds the last capacity distinct keys inserted, in order of latest insert |
| TtlHistory.GetByHistory | src/cache/ttl_cache.rs:271-289 | In runs of inserts and lookups a get finds the latest value inserted exactly if it has not expired and fewer than capacity other keys were inserted since |
| TtlHistory.GetByFate | src/cache/ttl_cache.rs:241-457 | In runs of all modelled operations in which no plain insert meets a map beyond its capacity, a get is decided by the fate of its key: the value last inserted or written, if it has not expired and the other keys inserted since and not removed never reached the capacity |
| TtlHistory.RepliesByFate | src/cache/ttl_cache.rs:216-434 | In the same runs so is the reply of insert, get_mut, contains_key, remove and both uses of entry |
| TtlHistory.RoomIsEnough | src/cache/ttl_cache.rs:112-115 | It is enough for that that vacant inserts find room |
| TtlCache.TtlCache.constructor | src/cache/ttl_cache.rs:175-186 | A new cache is the empty run |
| TtlCache.TtlCache.Insert | src/cache/ttl_cache.rs:241-249 | Moves or adds the key at the young end with the deadline of the first clock reading, evicts the oldest on overflow, returns the old value if it was unexpired at the second |
| TtlCache.TtlCache.Get | src/cache/ttl_cache.rs:271-289 | Returns the value of an unexpired entry and changes nothing |
| TtlCache.TtlCache.ContainsKey | src/cache/ttl_cache.rs:216-223 | Says whether get finds a value |
| TtlCache.TtlCache.GetMut | src/cache/ttl_cache.rs:311-332 | A write through the reference changes the value of an unexpired entry in place, keeping its deadline and its position |
| TtlCache.TtlCache.Remove | src/cache/ttl_cache.rs:350-358 | Removes the entry either way, and returns its value only if unexpired, as `TtlRuns.Replies` and `TtlRuns.LookupAfter` state it |
| TtlCache.TtlCache.SetCapacity | src/cache/ttl_cache.rs:409-414 | The loop keeps exactly the youngest c entries in order, and sets the capacity |
| TtlCache.TtlCache.Clear | src/cache/ttl_cache.rs:417-419 | Empties the map |
| TtlCache.TtlCache.Entry | src/cache/ttl_cache.rs:421-434 | Removes an expired entry of the key, and returns the variant for what is then there |
| TtlCache.TtlCache.OccupiedInsert | src/cache/ttl_cache.rs:74-77 | Replaces value and deadline in place and returns the old value |
| TtlCache.TtlCache.VacantInsert | src/cache/ttl_cache.rs:112-115 | Appends without evicting |
| TtlCache.TtlCache.EntryInsert | src/cache/ttl_cache.rs:421-434 | Entry at one clock reading followed by insert at a later one is one step of the runs |
| TtlCache.TtlCache.EntryGet | src/cache/ttl_cache.rs:421-434 | Entry without an insert, with or without a write through the occupied variant, is one step of the runs |
| TtlCache.TtlCache.RemoveExpired | src/cache/ttl_cache.rs:581-589 | The loop, which reads the clock for each entry, ends and leaves what trimming at its last reading leaves |
| TtlCache.TtlCache.RemoveOldest | src/cache/ttl_cache.rs:591-593 | Removes the oldest entry, if there is one |
| TtlCache.TtlCache.NewIter | src/cache/ttl_cache.rs:454-457 | Trims, then hands out an iterator over what is left, whose live entries at the last clock reading next will yield |
| TtlCache.Iter.Next | src/cache/ttl_cache.rs:626-637 | Skips expired entries, reading the clock for each, and takes the oldest entry live at the last reading |
| TtlCache.Iter.NextBack | src/cache/ttl_cache.rs:645-658 | Takes the youngest entry left, and returns nothing if it is expired |
| TtlCache.Iter.Walk | src/cache/ttl_cache.rs:623-659 | Calls at either end in any order, each reading the clock as often as it looks at entries, yield what the iteration of those calls yields |
| TtlCache.Replay | src/cache/ttl_cache.rs:175-457 | An object that lives through any run of the modelled operations holds what the run holds |
| TtlIter.NextTakesOldest | src/cache/ttl_cache.rs:626-637 | A call of next takes exactly the oldest live entry, and returns nothing only when nothing is left |
| TtlIter.NothingLost | src/cache/ttl_cache.rs:623-659 | Whatever the deadlines and clock readings, in any interleaving the entries live at the end are among what the front yielded, what is left and what the back yielded, in order |
| TtlIter.YieldsOnce | src/cache/ttl_cache.rs:623-659 | Whatever the deadlines and clock readings, any interleaving yields entries live at its start, in order and none twice |
| TtlIter.ExactlyOnce | src/cache/ttl_cache.rs:623-659 | When at each call older entries have expired first, any interleaving that has come to a None has yielded exactly once, in order, each entry live at the end, and nothing that was not live at the start |
| TtlIter.InterleavingIff | src/cache/ttl_cache.rs:623-659 | At one instant, every interleaving that has come to a None is complete if and only if no live entry is older than an expired one |
| TtlIter.TimedInterleavingIff | src/cache/ttl_cache.rs:623-659 | While time goes by, every interleaving that has come to a None is complete, whatever its clock readings, if and only if each entry live at the start expires no later than every younger one |
| TtlIter.ForwardIsLive | src/cache/ttl_cache.rs:626-637 | Next to its first None yields exactly the live entries, oldest first, whatever the deadlines |
| TtlIter.BackwardIsLiveSuffix | src/cache/ttl_cache.rs:645-658 | Next_back to its first None yields the longest live stretch at the young end, youngest first |
| TtlIter.BackwardCompleteIff | src/cache/ttl_cache.rs:648-651 | Next_back alone reaches every live entry if and only if no live entry is older than an expired one |
| TtlIter.IterationAfterRun | src/cache/ttl_cache.rs:454-457 | After a run of orderly steps, iter and any interleaving of both ends, each call at its own clock reading, yield live entries once and in order, and having come to a None have missed no entry still live |
| TtlIter.IterationIff | src/cache/ttl_cache.rs:454-457 | After any run at all, every interleaving after iter misses nothing, whatever its clock readings, if and only if each entry of the map live at iter expires no later than every younger one |
| TtlIter.IterationAtOnceIff | src/cache/ttl_cache.rs:454-457 | If the clock stands still meanwhile, if and only if no live entry of the map is older than an expired one |
| TtlIter.BackwardMissesLive | src/cache/ttl_cache.rs:645-658 | After two inserts with different times to live, iter followed by next_back yields nothing while an entry is live |

## Left out

- Memory orderings weaker than sequential consistency: the protocol's atomic operations interleave in one order. The relaxed load in `Source::add` is read as such a load too.
- Eventfd errors other than WouldBlock: `push` and `pop` discard them.
- Internals of the concurrent queue, the hash map and the ordered map: libraries, modelled as an atomic FIFO with optional bound and closing, a finite map, and a sequence with distinct keys.
- Epoll itself, registration, file descriptors, sockets, timers: kernel interfaces. `add` is modelled from the point where the descriptor is registered.
- Freeing of the box that `LruCache::pop` removes, uninitialised memory of the sentinel, `Drop`, `Send`, `Sync`: Rust memory mechanics. In the model the node that pop forgets stays readable.
- LruCache.LruCache.Pop: what later calls other than `pop` and `len` do to a cache whose pop has left a node behind is not stated, because the source then follows a pointer to freed memory.
- TtlHistory.GetByHistory: runs of inserts and lookups only; `TtlHistory.GetByFate` covers all operations.
- TtlHistory.GetByFate: not for runs in which vacant inserts have taken the map beyond its capacity and a plain insert follows before a capacity change or `clear`: it evicts one entry only, and which one depends on entries older than the key.
- Several calls through one entry handle after another: each use of `entry` makes one insert, or one read and perhaps a write.
- Statistics counters, `Debug`, `Clone`, `size_hint`, writes through `iter_mut`: easy members.
- Readers such as `pending`, `len`, `is_full`, `capacity`: one load each.

# pfind: the sequential core of a parallel directory search

`pfind` searches a directory tree with several threads. It prints every file
whose name contains a search term and finally reports how many it found. The
repository holds four revisions of the program: `pfind.c`, `pfind_another.c`,
`pfind_3rd.c` and `pfind_hopefully_final.c`. Under their locking and
condition-variable protocol, all four share the same sequential layer, and
this project models that layer:

- **The two FIFO queues.** These are singly linked lists with `head` and
  `tail` pointers, updated in place. `path_queue` holds directories still to
  scan. `sleeping_threads_queue` is the registry of parked workers: a
  `threadNode` is a thread id plus its condition variable. Both queues have
  the same code, so one generic class `LinkedQueue.Queue<T>` models them both.
  It holds the `size` field of three revisions, the ghost sequences `Nodes`
  and `Contents` it stands for, and the footprint `Repr`. `Valid()` ties the
  pointers and `size` to `Nodes`. `Count` is the counting loop
  `getPathQueueSize` / `getThreadQueueSize`.
- **Expanding one directory** (`searchDirectory`'s `readdir` loop). The
  listing is an input: a sequence of `(name, isDir)` entries. `.` and `..` are
  skipped. Every other name is joined as `parent + "/" + name`. Directories are
  queued, and in three revisions one sleeping worker is then dequeued to be
  woken. A non-directory is counted and printed when the term occurs in its
  name. The test is C `strstr` (section 7.24.5.7 of ISO/IEC 9899:2011), so an
  empty term matches every name. Module `Expansion` specifies the result as
  functions of the listing. The methods of `ParallelFind.SearchState` carry
  out the loop and are proved against those functions.
- **Termination and the launcher.**
  - The completion test takes one of two forms. One form parks first, then
    requires the sleeping-queue length to equal `num_of_threads` and the path
    queue to be empty. The other form (pfind_another.c) compares the
    sleeping-queue `size` with `num_of_threads` only.
  - `main` pre-registers records `0 .. N-1` and dequeues the first.
  - The driver of `pfind.c` rotates the registry.
  - A single worker drains the path queue as a sequential abstraction of the
    worker loop.

The globals (`st`, `num_of_threads`, `path_queue`, `sleeping_threads_queue`,
`numFilesFound`, `search_over`) are the fields of class
`ParallelFind.SearchState`. A directory tree is a map from directory path to
its listing. A path missing from the map is a directory that `opendir` cannot
open. Its scan contributes nothing.

Files: `wrappers.dfy` (Option), `cstrings.dfy` (`strstr`), `queue.dfy` (the
linked queue, FIFO order, rotation), `expansion.dfy` (classification of a
listing), `termination.dfy` (the registry and the completion test),
`search.dfy` (the shared state and the operations of `main`, the workers and
the driver).

## Model

| member | source | states |
|---|---|---|
| `LinkedQueue.Node.constructor` | pfind_hopefully_final.c:38-48 | a new cell holds the given payload and links to nothing |
| `LinkedQueue.Queue.constructor` | pfind_3rd.c:54-63 | a new queue is empty, with both pointers NULL and `size` 0 |
| `LinkedQueue.Queue.Enqueue` | pfind_hopefully_final.c:60-68 | the given cell is linked at the tail. The sequence becomes the old one plus that cell, and `size` grows by one. On an empty queue `head == tail ==` the cell; otherwise the old tail links to it. The cell must arrive unlinked, because the empty-queue branch does not clear `next` |
| `LinkedQueue.Queue.Push` | pfind_hopefully_final.c:125-141 | the path is copied into a fresh cell at the tail. The contents become the old contents plus the path, and `size` grows by exactly one. Queued values are immutable, so later reuse of the caller's buffer cannot change them |
| `LinkedQueue.Queue.Dequeue` | pfind_3rd.c:76-86 | an empty queue returns NULL with `head`, `tail` and `size` unchanged. Otherwise the oldest cell is returned with `next` cleared, the rest of the sequence is kept in order, `size` drops by one, and `tail` becomes NULL exactly when the queue empties |
| `LinkedQueue.Queue.Count` | pfind_hopefully_final.c:156-174 | the number of cells reachable from `head` equals the queue's length and the maintained `size`; nothing is modified |
| `LinkedQueue.FifoOrder` | pfind.c:129-159 | over any sequence of enqueues and dequeues, the values dequeued followed by those still queued equal the initial contents followed by everything enqueued, in order |
| `LinkedQueue.Queue.Replay` | pfind_3rd.c:133-163 | applying any sequence of enqueues and dequeues to the linked queue leaves it holding, and yields as taken values, exactly what the sequence model `Run` gives, so FIFO order is a property of the linked queue |
| `LinkedQueue.LengthAfterRun` | pfind_3rd.c:143-163 | the queue length equals the start length, plus the enqueues, minus the dequeues that returned a value |
| `LinkedQueue.RotatedTimesSplit` | pfind.c:283-284 | k dequeue/re-enqueue rotations move the first k values, in order, behind the rest |
| `LinkedQueue.RotationRestores` | pfind.c:283-284 | a rotation keeps the length and the multiset of values, and as many rotations as the length restore the queue |
| `CStrings.StrStr` | pfind_hopefully_final.c:241-242 | the result is the first index where the term occurs in the name. It is None exactly when the term occurs nowhere |
| `CStrings.EmptyNeedleFoundAtStart` | pfind_hopefully_final.c:241 | an empty term is found at index 0 of every name |
| `Expansion.SubdirPathsExactly` | pfind_hopefully_final.c:222-239 | a path is queued iff some entry other than `.`/`..` is a directory whose joined path `parent + "/" + name` is that path |
| `Expansion.MatchPathsExactly` | pfind_hopefully_final.c:240-248 | a path is reported iff some entry other than `.`/`..` is a non-directory whose name contains the term and whose joined path is that path |
| `Expansion.SubdirPathsAppend` | pfind_hopefully_final.c:222-251 | directories are queued in listing order: expanding a concatenation queues the first part's directories, then the second's |
| `Expansion.MatchPathsAppend` | pfind_hopefully_final.c:222-251 | matches are reported in listing order: expanding a concatenation reports the first part's matches, then the second's |
| `Expansion.SubdirPathsCount` | pfind_hopefully_final.c:229-231 | exactly one path is queued per subdirectory entry: the number of queued paths is the number of positions holding a directory other than `.`/`..` |
| `Expansion.MatchPathsCount` | pfind_hopefully_final.c:240-247 | exactly one path is printed, and the counter raised once, per matching entry: the number of reported paths is the number of positions holding a match |
| `Expansion.ExpansionAccountsForEveryEntry` | pfind_hopefully_final.c:222-249 | each entry is queued, reported, or neither, never both: the queued and reported counts are those of two disjoint sets of positions, so together they are at most the number of entries |
| `Expansion.EmptyTermMatchesEveryFile` | pfind_hopefully_final.c:240-248 | with an empty term, every non-directory other than `.`/`..` is reported |
| `Expansion.DotEntriesIgnored` | pfind_hopefully_final.c:224 | `.` and `..` add nothing to the queued or reported paths, whatever they are classified as |
| `Termination.FullRegistryIffAllParked` | pfind_hopefully_final.c:312-313 | for records of distinct workers `0..n-1`, the registry length equals `n` iff every worker is parked |
| `Termination.ParkKeepsRegistryWellFormed` | pfind_hopefully_final.c:309-311 | a worker that was not parked parks, and the records stay distinct and in range |
| `Termination.ParkThenCheckDetectsCompletion` | pfind_hopefully_final.c:308-315 | after the caller parks, the completion test fires iff every worker, the caller included, is parked and the path queue is empty |
| `Termination.CheckBeforeParkMissesCompletion` | pfind_another.c:309-316 | when the caller is the only worker awake, the test made before parking does not fire, although after parking every worker is parked |
| `Termination.RegistryWellFormed` | pfind_hopefully_final.c:391-394 | `main`'s registry lists each of the ids `0..N-1` once, in range, so every worker is parked |
| `Termination.AfterFirstWakeOnlyWorkerZeroAwake` | pfind_hopefully_final.c:391-397 | after the first dequeue, the record taken is worker 0's. The remaining records are workers `1..N-1`, distinct, and worker 0 is not among them |
| `Termination.DuplicateRecordsFireEarly` | pfind_hopefully_final.c:309-313 | the length test does not look at ids: a registry holding one worker's record twice passes the test for two workers while the other is awake |
| `ParallelFind.DrainPrintsScannedMatches` | pfind_hopefully_final.c:294-299 | a single-worker drain prints, directory by directory in scan order, the matches of each directory it scans |
| `ParallelFind.ScannedStartsWithQueue` | pfind_hopefully_final.c:294-299 | a drain scans at most `fuel` directories, and the first `min(fuel, queued)` it scans are the queued directories, in queue order |
| `ParallelFind.FoundInExactly` | pfind_hopefully_final.c:240-248 | scanning a sequence of directories prints a path iff one of them can be opened and lists a non-directory other than `.`/`..` whose name contains the term and whose joined path is that path |
| `ParallelFind.DrainPrintsExactlyMatches` | pfind_hopefully_final.c:290-307 | a drain prints a path iff some directory it scanned lists a non-directory other than `.`/`..` whose name contains the term and whose joined path is that path: every match it comes across, and nothing else |
| `ParallelFind.DrainAccounts` | pfind_hopefully_final.c:290-307 | no queued directory is lost: the directories a drain scanned, followed by those still queued, are the starting queue followed by every subdirectory path its scans queued |
| `ParallelFind.DrainToEmptyScansEverything` | pfind_hopefully_final.c:290-307 | a drain that empties the queue scanned every directory it started with and every subdirectory of every directory it scanned |
| `ParallelFind.DrainScansInQueueOrder` | pfind_hopefully_final.c:294-299 | after k scans the first k queued directories are gone and the rest are still at the front, in order |
| `ParallelFind.SearchState.constructor` | pfind_hopefully_final.c:370-372 | afterwards the path queue holds exactly the root path, the registry is empty, the counter is 0 and `search_over` is clear |
| `ParallelFind.SearchState.RegisterWorkers` | pfind_hopefully_final.c:391-397 | records `0..N-1` are enqueued in order and the first is dequeued: it has tid 0 and is unlinked, and records `1..N-1` remain in order |
| `ParallelFind.SearchState.QueueSubdir` | pfind_hopefully_final.c:229-239 | the path is appended to the path queue. With waking on, the oldest sleeper, if any, is taken off the registry, and the rest stay in order; with it off, the registry is unchanged |
| `ParallelFind.SearchState.ExpandEntry` | pfind_hopefully_final.c:223-249 | one entry: a directory is queued under its joined path, and with waking on the oldest sleeper, if any, is taken. A match is printed and raises the counter by exactly one. `.`/`..` change nothing |
| `ParallelFind.SearchState.ExpandListing` | pfind_hopefully_final.c:222-250 | after the whole listing, the path queue gains exactly the subdirectories' joined paths in listing order, the printed paths are exactly the matches, the counter grows by their number, and with waking on the first `min(dirs, sleepers)` sleepers are taken in order |
| `ParallelFind.SearchState.ExpandDirectory` | pfind_hopefully_final.c:216-252 | the path queue gains exactly the subdirectories' joined paths, in listing order. The printed paths are exactly the matches, and the counter grows by their number. The first `min(dirs, sleepers)` sleepers are woken in order. A directory that cannot be opened changes nothing |
| `ParallelFind.SearchState.ExpandWithoutWaking` | pfind.c:209-236 | the same classification with nobody woken: the sleeping queue is unchanged |
| `ParallelFind.SearchState.ParkThenCheck` | pfind_hopefully_final.c:308-318 | the caller's record is appended. Completion is declared, and `search_over` raised, iff the sleeping length equals `num_of_threads` and the path queue is empty |
| `ParallelFind.SearchState.CheckThenPark` | pfind_another.c:309-316 | completion is declared iff the sleeping `size` equals `num_of_threads` before parking; otherwise the caller's record is appended |
| `ParallelFind.SearchState.ParkThenCountSleepers` | pfind_another.c:202-210 | when the path queue is empty, the caller's record is appended and completion is declared iff the sleeping `size` then equals `num_of_threads`; when a directory is queued, the block is skipped: nothing is appended and completion is not declared. The path queue is never changed |
| `ParallelFind.SearchState.DriverRotate` | pfind.c:281-286 | the registry is rotated: the first record moves to the tail and the length is unchanged. The re-enqueued cell is the tail, with `next == NULL` |
| `ParallelFind.SearchState.ScanOldest` | pfind_hopefully_final.c:295-299 | the oldest path is dequeued and scanned: its matches are printed, and its subdirectories are queued behind the rest |
| `ParallelFind.SearchState.Drain` | pfind_hopefully_final.c:290-307 | the printed paths and the final queue are exactly those of the drain specification `DrainSpec` |
| `ParallelFind.SearchState.SingleWorker` | pfind_hopefully_final.c:290-318 | with one worker, the drained matches are printed, the path queue is what the drain left, the registry holds only worker 0's record, and completion is declared iff the drain left no directory queued |

## Left out

- Threads, mutexes, condition variables, `pthread_cond_signal`/`wait`, `usleep`, `sleep`, `pthread_exit` and `exit`. Their point is concurrency, and lost wakeups and termination races depend on the scheduler. Waking a worker is modelled as taking its record off the registry. The first wait and the `search_over` checks after a wake are not modelled.
- The wake loops of `pfind.c`, with their busy waiting and `MIN(path_queue->size, thread_queue->size)` (pfind.c:196-205, 250-277). This is scheduling across threads.
- The re-check, early return and NULL check of `searchDirectory` in pfind_another.c:216-229. The re-check at 216-217 runs on every call, but the early return at 222 and the NULL branch at 227-228 take effect only when a concurrent peer, or a spurious wakeup, leaves the queue empty. The return at 222 keeps the path lock held, which is also a concurrency matter.
- `opendir`, `readdir`, `stat` and `isDirectory` are filesystem I/O. A listing is an input sequence with an `isDir` flag, and a tree is a map from path to listing.
- `printf`/`perror`, the `print*Queue` debug dumpers and argument parsing with `strtol`. Printing a match is modelled as returning its path.
- `PATH_MAX` buffers filled by `strcpy`/`strcat` without overflow checks. Paths are unbounded strings, so the copy made by `pathNode_enQueue` is a value.
- `free`, the leaked nodes and buffers, and allocation failure. Allocation cannot fail here.
- The condition-variable array sized `num_of_threads` but initialised or destroyed over `num_of_threads + 1` slots. A record's condition variable is modelled as an index equal to its tid.
- Atomic counters are plain integers. The `unsigned int size` field is a `nat`: it is decremented only when a cell is removed, so it never wraps below zero, and more than 2^32 enqueues are not modelled.
- pfind_hopefully_final.c has no `size` field. The one queue class keeps it for all revisions, and `Count` models that revision's counting loop, which is proved equal to it.
- `ParallelFind.SearchState.Drain`: a fuel bound limits the number of scans, while the source loops until the queue is empty. The drain lemmas describe what a drain did within its fuel. `DrainToEmptyScansEverything` covers a drain that emptied the queue. No lemma says how much fuel a given tree needs, and trees with symlink cycles, on which the source does not terminate, are not characterised.
- `ParallelFind.SearchState.DriverRotate`: on an empty registry the source passes NULL to `threadNode_enQueue` and then dereferences it (pfind.c:283-285). The model returns null and leaves the registry unchanged.
- `ParallelFind.SearchState.RegisterWorkers`: with fewer than one thread the source dereferences the NULL first record (pfind_hopefully_final.c:405). The model returns null.
- The "NOT SURE" message and `exit(0)` in pfind_3rd.c:316-322 are output and process control. The test itself is the same as `ParkThenCheck`.
- pfind_hopefully_final.c:317-318 releases `thread_mutex` before setting `search_over`; the model sets the flag in the same step as the test. This is a concurrency matter and is not modelled.

## Findings

| source | as written | input that shows it | evidently intended | confidence | as-written member | corrected member |
|---|---|---|---|---|---|---|
| pfind_another.c:309-316 | completion is tested as sleeping `size == num_of_threads` before the caller parks | one thread: `main` registers record 0, the driver dequeues it, worker 0 drains the tree, then sees size 0 != 1, parks and is never woken. In general the last awake worker sees only the other N-1 records | park first, then test, as pfind_hopefully_final.c:308-315 does | not executed; medium: reasoned from the code, assuming no spurious wakeups | `Termination.CheckBeforeParkMissesCompletion` | `Termination.ParkThenCheckDetectsCompletion` |

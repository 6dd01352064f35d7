/**
 * The program's shared state and the sequential steps the workers and `main`
 * take on it: expanding a directory, parking and testing for completion,
 * registering the workers, the driver's rotation, and one worker draining the
 * path queue on its own.
 */
module ParallelFind {
  import opened Wrappers
  import opened CStrings
  import opened Expansion
  import opened LinkedQueue
  import opened Termination

  function Min(a: int, b: int): int
  {
    if a <= b then a else b
  }

  /** The directory listing a scan of `dir` sees: None when `opendir` fails. */
  function Listing(fs: map<string, seq<DirEntry>>, dir: string): Option<seq<DirEntry>>
  {
    if dir in fs then Some(fs[dir]) else None
  }

  /** The paths a scan of `dir` prints: none when it cannot be opened. */
  function Found(fs: map<string, seq<DirEntry>>, dir: string, term: string): seq<string>
  {
    if dir in fs then MatchPaths(dir, fs[dir], term) else []
  }

  /** The paths a scan of `dir` queues: none when it cannot be opened. */
  function Children(fs: map<string, seq<DirEntry>>, dir: string): seq<string>
  {
    if dir in fs then SubdirPaths(dir, fs[dir]) else []
  }

  /**
   * One worker draining the path queue on its own, for at most `fuel` scans:
   * the paths it prints and the paths still queued. Scanning takes the oldest
   * path, reports its matching files and queues its subdirectories behind the
   * rest.
   */
  function DrainSpec(fs: map<string, seq<DirEntry>>, queue: seq<string>, term: string, fuel: nat): (seq<string>, seq<string>)
    decreases fuel
  {
    if fuel == 0 || queue == [] then ([], queue)
    else
      var dir := queue[0];
      var rest := DrainSpec(fs, queue[1..] + Children(fs, dir), term, fuel - 1);
      (Found(fs, dir, term) + rest.0, rest.1)
  }

  /** The directories a drain scans, oldest first. */
  function Scanned(fs: map<string, seq<DirEntry>>, queue: seq<string>, fuel: nat): seq<string>
    decreases fuel
  {
    if fuel == 0 || queue == [] then []
    else [queue[0]] + Scanned(fs, queue[1..] + Children(fs, queue[0]), fuel - 1)
  }

  /** The paths printed by scanning `dirs` in order. */
  function FoundIn(fs: map<string, seq<DirEntry>>, dirs: seq<string>, term: string): seq<string>
  {
    if dirs == [] then [] else Found(fs, dirs[0], term) + FoundIn(fs, dirs[1..], term)
  }

  /** A drain prints, directory by directory, the matches of the directories it scans. */
  lemma {:induction false} DrainPrintsScannedMatches(fs: map<string, seq<DirEntry>>, queue: seq<string>, term: string, fuel: nat)
    ensures DrainSpec(fs, queue, term, fuel).0 == FoundIn(fs, Scanned(fs, queue, fuel), term)
    decreases fuel
  {
    if fuel > 0 && queue != [] {
      var next := queue[1..] + Children(fs, queue[0]);
      DrainPrintsScannedMatches(fs, next, term, fuel - 1);
      var dirs := Scanned(fs, queue, fuel);
      assert dirs[0] == queue[0] && dirs[1..] == Scanned(fs, next, fuel - 1);
    }
  }

  /**
   * A drain scans at most `fuel` directories, and the first ones it scans are
   * the queued ones, in queue order, as far as the fuel reaches.
   */
  lemma {:induction false} ScannedStartsWithQueue(fs: map<string, seq<DirEntry>>, queue: seq<string>, fuel: nat)
    ensures Min(fuel, |queue|) <= |Scanned(fs, queue, fuel)| <= fuel
    ensures forall j :: 0 <= j < Min(fuel, |queue|) ==> Scanned(fs, queue, fuel)[j] == queue[j]
    decreases fuel
  {
    if fuel > 0 && queue != [] {
      var next := queue[1..] + Children(fs, queue[0]);
      ScannedStartsWithQueue(fs, next, fuel - 1);
      var scanned, rest := Scanned(fs, queue, fuel), Scanned(fs, next, fuel - 1);
      assert scanned == [queue[0]] + rest;
      forall j | 0 < j < Min(fuel, |queue|)
        ensures scanned[j] == queue[j]
      {
        assert scanned[j] == rest[j - 1] == next[j - 1];
      }
    }
  }

  /**
   * A path is printed by scanning `dirs` exactly when one of them can be opened
   * and lists a non-directory, other than `.` and `..`, whose name contains the
   * term and whose joined path is that path.
   */
  lemma {:induction false} FoundInExactly(fs: map<string, seq<DirEntry>>, dirs: seq<string>, term: string, p: string)
    ensures p in FoundIn(fs, dirs, term) <==>
            exists d, i :: d in dirs && d in fs && 0 <= i < |fs[d]| && ReportedAs(d, fs[d][i], term, p)
  {
    if dirs != [] {
      var d0 := dirs[0];
      FoundInExactly(fs, dirs[1..], term, p);
      if d0 in fs {
        MatchPathsExactly(d0, fs[d0], term, p);
      }
      if p in Found(fs, d0, term) {
        var i :| 0 <= i < |fs[d0]| && ReportedAs(d0, fs[d0][i], term, p);
        assert d0 in dirs;
      }
      if p in FoundIn(fs, dirs[1..], term) {
        var d, i :| d in dirs[1..] && d in fs && 0 <= i < |fs[d]| && ReportedAs(d, fs[d][i], term, p);
        assert d in dirs;
      }
      if exists d, i :: d in dirs && d in fs && 0 <= i < |fs[d]| && ReportedAs(d, fs[d][i], term, p) {
        var d, i :| d in dirs && d in fs && 0 <= i < |fs[d]| && ReportedAs(d, fs[d][i], term, p);
        if d == d0 {
          assert p in Found(fs, d0, term);
        } else {
          assert d in dirs[1..];
        }
      }
    }
  }

  /**
   * A drain prints a path exactly when some directory it scanned lists a
   * non-directory, other than `.` and `..`, whose name contains the term and
   * whose joined path is that path: it prints every match it comes across and
   * nothing else.
   */
  lemma DrainPrintsExactlyMatches(fs: map<string, seq<DirEntry>>, queue: seq<string>, term: string, fuel: nat, p: string)
    ensures p in DrainSpec(fs, queue, term, fuel).0 <==>
            exists d, i :: d in Scanned(fs, queue, fuel) && d in fs && 0 <= i < |fs[d]| && ReportedAs(d, fs[d][i], term, p)
  {
    DrainPrintsScannedMatches(fs, queue, term, fuel);
    FoundInExactly(fs, Scanned(fs, queue, fuel), term, p);
  }

  /** The paths queued by scanning `dirs` in order. */
  function ChildrenOf(fs: map<string, seq<DirEntry>>, dirs: seq<string>): seq<string>
  {
    if dirs == [] then [] else Children(fs, dirs[0]) + ChildrenOf(fs, dirs[1..])
  }

  /**
   * Nothing a drain queues is lost: the directories it scanned followed by
   * those still queued are the starting queue followed by every subdirectory
   * path the scans queued.
   */
  lemma {:induction false} DrainAccounts(fs: map<string, seq<DirEntry>>, queue: seq<string>, term: string, fuel: nat)
    ensures Scanned(fs, queue, fuel) + DrainSpec(fs, queue, term, fuel).1 == queue + ChildrenOf(fs, Scanned(fs, queue, fuel))
    decreases fuel
  {
    if fuel > 0 && queue != [] {
      var children := Children(fs, queue[0]);
      var next := queue[1..] + children;
      DrainAccounts(fs, next, term, fuel - 1);
      var scanned, rest := Scanned(fs, queue, fuel), Scanned(fs, next, fuel - 1);
      assert scanned == [queue[0]] + rest && scanned[1..] == rest;
      AccountsStep(queue, children, rest, DrainSpec(fs, next, term, fuel - 1).1, ChildrenOf(fs, rest));
    } else {
      assert Scanned(fs, queue, fuel) == [];
    }
  }

  /** The sequence step of `DrainAccounts`: scanning the head moves it from the queue to the scanned directories. */
  lemma AccountsStep<T>(queue: seq<T>, children: seq<T>, rest: seq<T>, left: seq<T>, later: seq<T>)
    requires queue != []
    requires rest + left == (queue[1..] + children) + later
    ensures ([queue[0]] + rest) + left == queue + (children + later)
  {
    calc {
      ([queue[0]] + rest) + left;
      [queue[0]] + (rest + left);
      ([queue[0]] + queue[1..]) + (children + later);
      { assert [queue[0]] + queue[1..] == queue; }
      queue + (children + later);
    }
  }

  /** A subdirectory path queued by a scan of one of `dirs` is among the paths they queue. */
  lemma {:induction false} ChildrenOfContains(fs: map<string, seq<DirEntry>>, dirs: seq<string>, d: string, c: string)
    requires d in dirs && c in Children(fs, d)
    ensures c in ChildrenOf(fs, dirs)
  {
    if dirs[0] != d {
      assert d in dirs[1..];
      ChildrenOfContains(fs, dirs[1..], d, c);
    }
  }

  /**
   * A drain that empties the queue scanned every directory it started with
   * and every subdirectory of every directory it scanned. With
   * `DrainPrintsExactlyMatches`, what it printed is then exactly the matches
   * of a set of directories closed under `Children`.
   */
  lemma DrainToEmptyScansEverything(fs: map<string, seq<DirEntry>>, queue: seq<string>, term: string, fuel: nat)
    requires DrainSpec(fs, queue, term, fuel).1 == []
    ensures Scanned(fs, queue, fuel) == queue + ChildrenOf(fs, Scanned(fs, queue, fuel))
    ensures forall d :: d in queue ==> d in Scanned(fs, queue, fuel)
    ensures forall d, c :: d in Scanned(fs, queue, fuel) && c in Children(fs, d) ==> c in Scanned(fs, queue, fuel)
  {
    var scanned := Scanned(fs, queue, fuel);
    DrainAccounts(fs, queue, term, fuel);
    assert scanned + [] == scanned;
    forall d, c | d in scanned && c in Children(fs, d)
      ensures c in scanned
    {
      ChildrenOfContains(fs, scanned, d, c);
    }
  }

  /** Draining never loses a queued path: a directory leaves the queue only by being scanned. */
  lemma {:induction false} DrainScansInQueueOrder(fs: map<string, seq<DirEntry>>, queue: seq<string>, term: string, fuel: nat)
    requires fuel < |queue|
    ensures |DrainSpec(fs, queue, term, fuel).1| >= |queue| - fuel
    ensures DrainSpec(fs, queue, term, fuel).1[..|queue| - fuel] == queue[fuel..]
    decreases fuel
  {
    if fuel > 0 {
      var next := queue[1..] + Children(fs, queue[0]);
      var r := DrainSpec(fs, next, term, fuel - 1).1;
      assert DrainSpec(fs, queue, term, fuel).1 == r;
      DrainScansInQueueOrder(fs, next, term, fuel - 1);
      assert r[..|queue| - fuel] == r[..|next| - (fuel - 1)][..|queue| - fuel];
      assert next[fuel - 1..][..|queue| - fuel] == queue[fuel..];
    }
  }

  /** One scan of a drain: the oldest path's matches are printed and its subdirectories queued. */
  lemma DrainOneMore(fs: map<string, seq<DirEntry>>, queue: seq<string>, term: string, steps: nat,
                     printed: seq<string>, found: seq<string>, next: seq<string>, total: (seq<string>, seq<string>))
    requires queue != [] && steps > 0
    requires total.0 == printed + DrainSpec(fs, queue, term, steps).0
    requires total.1 == DrainSpec(fs, queue, term, steps).1
    requires found == Found(fs, queue[0], term)
    requires next == queue[1..] + Children(fs, queue[0])
    ensures total.0 == (printed + found) + DrainSpec(fs, next, term, steps - 1).0
    ensures total.1 == DrainSpec(fs, next, term, steps - 1).1
  {
    assert printed + (found + DrainSpec(fs, next, term, steps - 1).0)
           == (printed + found) + DrainSpec(fs, next, term, steps - 1).0;
  }

  /** A drain with nothing queued or no scans left prints nothing more and leaves the queue as it is. */
  lemma DrainStops(fs: map<string, seq<DirEntry>>, queue: seq<string>, term: string, steps: nat,
                   printed: seq<string>, total: (seq<string>, seq<string>))
    requires queue == [] || steps == 0
    requires total.0 == printed + DrainSpec(fs, queue, term, steps).0
    requires total.1 == DrainSpec(fs, queue, term, steps).1
    ensures total == (printed, queue)
  {
    assert printed + [] == printed;
  }

  /**
   * One entry's worth of waking: with `woken` the sleepers already taken from
   * the front, queueing one more subdirectory takes the next one while any is
   * left.
   */
  lemma WakeOneMore<T>(sleepers: seq<T>, woken: seq<T>, next: seq<T>, after: seq<T>, isSubdir: bool, dirs: nat)
    requires |woken| <= |sleepers| && woken == sleepers[..|woken|]
    requires next + after == sleepers[|woken|..]
    requires |woken| == Min(dirs, |sleepers|)
    requires |next| == if isSubdir && sleepers[|woken|..] != [] then 1 else 0
    ensures |woken + next| <= |sleepers|
    ensures woken + next == sleepers[..|woken + next|] && after == sleepers[|woken + next|..]
    ensures |woken + next| == Min(dirs + (if isSubdir then 1 else 0), |sleepers|)
  {
    var k := |woken + next|;
    assert sleepers == woken + (next + after) by {
      assert sleepers == sleepers[..|woken|] + sleepers[|woken|..];
    }
    assert sleepers[..k] == woken + next;
    assert sleepers[k..] == after;
  }

  /**
   * One entry of a listing, in pure terms: the queue, the output and the
   * sleepers taken so far after entry `i` are those for the listing's first
   * `i + 1` entries.
   */
  lemma ExpandStep(parent: string, es: seq<DirEntry>, i: nat, term: string, wake: bool,
                   base: seq<string>, sleepers: seq<ThreadRecord>, queued: seq<string>, queued': seq<string>,
                   printed: seq<string>, found: seq<string>,
                   woken: seq<ThreadRecord>, before: seq<ThreadRecord>, next: seq<ThreadRecord>, after: seq<ThreadRecord>)
    requires i < |es|
    requires queued == base + SubdirPaths(parent, es[..i]) && queued' == queued + Queued(parent, es[i])
    requires printed == MatchPaths(parent, es[..i], term) && found == Reported(parent, es[i], term)
    requires |woken| == if wake then Min(|SubdirPaths(parent, es[..i])|, |sleepers|) else 0
    requires woken == sleepers[..|woken|] && before == sleepers[|woken|..]
    requires next + after == before
    requires |next| == if wake && IsSubdir(es[i]) && before != [] then 1 else 0
    ensures queued' == base + SubdirPaths(parent, es[..i + 1])
    ensures printed + found == MatchPaths(parent, es[..i + 1], term)
    ensures |woken + next| == if wake then Min(|SubdirPaths(parent, es[..i + 1])|, |sleepers|) else 0
    ensures woken + next == sleepers[..|woken + next|] && after == sleepers[|woken + next|..]
  {
    ExpandOneMore(parent, es, i, term);
    var dirs := SubdirPaths(parent, es[..i]);
    assert queued' == base + (dirs + Queued(parent, es[i]));
    if wake {
      WakeOneMore(sleepers, woken, next, after, IsSubdir(es[i]), |dirs|);
    } else {
      assert woken + next == [] && after == before;
    }
  }

  /**
   * The process-wide state: the globals `st`, `num_of_threads`, `path_queue`,
   * `sleeping_threads_queue`, `numFilesFound` and `search_over`.
   */
  class SearchState {
    const term: string
    const numThreads: int
    const paths: Queue<string>
    const sleeping: Queue<ThreadRecord>
    var filesFound: nat
    var searchOver: bool

    ghost predicate Valid()
      reads this, paths, sleeping, paths.Repr, sleeping.Repr
    {
      && paths.Valid() && sleeping.Valid()
      && paths.Repr !! sleeping.Repr
      && this !in paths.Repr && this !in sleeping.Repr
    }

    /** `main` before the workers start: the registry and the path queue created empty, then the root path queued. */
    constructor (root: string, term: string, numThreads: int)
      ensures Valid() && fresh(paths.Repr) && fresh(sleeping.Repr)
      ensures this.term == term && this.numThreads == numThreads
      ensures paths.Contents == [root] && sleeping.Contents == []
      ensures filesFound == 0 && !searchOver
    {
      this.term := term;
      this.numThreads := numThreads;
      var registry := new Queue();
      var pathQueue := new Queue();
      pathQueue.Push(root);
      sleeping, paths := registry, pathQueue;
      filesFound := 0;
      searchOver := false;
    }

    /**
     * `main` registers a record for every worker 0 .. numThreads-1, in order,
     * then dequeues the first one to wake it. A thread count below 1 leaves
     * nothing to dequeue and the first record is NULL.
     */
    method RegisterWorkers() returns (first: Node?<ThreadRecord>)
      requires Valid() && sleeping.Contents == []
      modifies sleeping.Repr
      ensures Valid() && fresh(sleeping.Repr - old(sleeping.Repr))
      ensures paths.Contents == old(paths.Contents)
      ensures numThreads >= 1 ==> first != null && first.val == RecordOf(0) && first.next == null
                                  && sleeping.Contents == Registry(numThreads)[1..]
      ensures numThreads < 1 ==> first == null && sleeping.Contents == []
    {
      var i: nat := 0;
      while i < numThreads
        invariant Valid() && fresh(sleeping.Repr - old(sleeping.Repr))
        invariant i == 0 || i <= numThreads
        invariant sleeping.Contents == Registry(i)
        invariant paths.Contents == old(paths.Contents)
      {
        var node := new Node(RecordOf(i));
        sleeping.Enqueue(node);
        i := i + 1;
      }
      first := sleeping.Dequeue();
    }

    /**
     * A subdirectory found by `searchDirectory`: its path is queued and, when
     * `wake` is set, the oldest sleeping worker, if any, is dequeued to be woken.
     */
    method QueueSubdir(path: string, wake: bool) returns (woken: seq<ThreadRecord>)
      requires Valid()
      modifies paths.Repr, sleeping.Repr
      ensures Valid()
      ensures fresh(paths.Repr - old(paths.Repr)) && sleeping.Repr <= old(sleeping.Repr)
      ensures paths.Contents == old(paths.Contents) + [path]
      ensures woken + sleeping.Contents == old(sleeping.Contents)
      ensures |woken| == if wake && old(sleeping.Contents) != [] then 1 else 0
    {
      woken := [];
      paths.Push(path);
      if wake {
        var next := sleeping.Dequeue();
        if next != null {
          woken := [next.val];
        }
      }
    }

    /**
     * One pass of the `readdir` loop of `searchDirectory`. An entry other than
     * `.` and `..` is joined onto `parent`. A subdirectory is queued and, when
     * `wake` is set (pfind_hopefully_final.c, pfind_3rd.c, pfind_another.c),
     * one sleeping worker, if any, is then dequeued to be woken; pfind.c wakes
     * nobody here. A non-directory whose name contains the term is printed and
     * counted.
     */
    method ExpandEntry(parent: string, e: DirEntry, wake: bool) returns (printed: seq<string>, woken: seq<ThreadRecord>)
      requires Valid()
      modifies this, paths.Repr, sleeping.Repr
      ensures Valid()
      ensures fresh(paths.Repr - old(paths.Repr)) && sleeping.Repr <= old(sleeping.Repr)
      ensures paths.Contents == old(paths.Contents) + Queued(parent, e)
      ensures printed == Reported(parent, e, term)
      ensures woken + sleeping.Contents == old(sleeping.Contents)
      ensures |woken| == if wake && IsSubdir(e) && old(sleeping.Contents) != [] then 1 else 0
      ensures filesFound == old(filesFound) + |printed|
      ensures searchOver == old(searchOver)
    {
      printed, woken := [], [];
      var name := e.name;
      if !IsDotEntry(name) {
        var path := ChildPath(parent, name);
        if e.isDir {
          woken := QueueSubdir(path, wake);
        } else if StrStr(name, term).Some? {
          printed := [path];
          filesFound := filesFound + 1;
        }
      }
    }

    /**
     * The `readdir` loop of `searchDirectory` over an opened directory: every
     * entry in listing order, as `ExpandEntry` describes. With `wake` set, each
     * queued subdirectory wakes the oldest sleeping worker while there is one.
     */
    method ExpandListing(parent: string, es: seq<DirEntry>, wake: bool)
      returns (printed: seq<string>, woken: seq<ThreadRecord>)
      requires Valid()
      modifies this, paths.Repr, sleeping.Repr
      ensures Valid()
      ensures fresh(paths.Repr - old(paths.Repr)) && sleeping.Repr <= old(sleeping.Repr)
      ensures paths.Contents == old(paths.Contents) + SubdirPaths(parent, es)
      ensures printed == MatchPaths(parent, es, term)
      ensures |woken| == if wake then Min(|SubdirPaths(parent, es)|, |old(sleeping.Contents)|) else 0
      ensures woken == old(sleeping.Contents)[..|woken|] && sleeping.Contents == old(sleeping.Contents)[|woken|..]
      ensures filesFound == old(filesFound) + |printed|
      ensures searchOver == old(searchOver)
    {
      printed, woken := [], [];
      ghost var sleepers := sleeping.Contents;
      for i := 0 to |es|
        invariant Valid()
        invariant fresh(paths.Repr - old(paths.Repr)) && sleeping.Repr <= old(sleeping.Repr)
        invariant paths.Contents == old(paths.Contents) + SubdirPaths(parent, es[..i])
        invariant printed == MatchPaths(parent, es[..i], term)
        invariant |woken| == if wake then Min(|SubdirPaths(parent, es[..i])|, |sleepers|) else 0
        invariant woken == sleepers[..|woken|] && sleeping.Contents == sleepers[|woken|..]
        invariant filesFound == old(filesFound) + |printed|
        invariant searchOver == old(searchOver)
      {
        printed, woken := ExpandNext(parent, es, i, wake, old(paths.Contents), sleepers, printed, woken);
      }
      assert es[..|es|] == es;
    }

    /** Entry `i` of a listing whose first `i` entries are expanded: afterwards the first `i + 1` are. */
    method ExpandNext(parent: string, es: seq<DirEntry>, i: nat, wake: bool, ghost base: seq<string>,
                      ghost sleepers: seq<ThreadRecord>, printed: seq<string>, woken: seq<ThreadRecord>)
      returns (printed': seq<string>, woken': seq<ThreadRecord>)
      requires Valid() && i < |es|
      requires paths.Contents == base + SubdirPaths(parent, es[..i])
      requires printed == MatchPaths(parent, es[..i], term)
      requires |woken| == if wake then Min(|SubdirPaths(parent, es[..i])|, |sleepers|) else 0
      requires woken == sleepers[..|woken|] && sleeping.Contents == sleepers[|woken|..]
      modifies this, paths.Repr, sleeping.Repr
      ensures Valid()
      ensures fresh(paths.Repr - old(paths.Repr)) && sleeping.Repr <= old(sleeping.Repr)
      ensures paths.Contents == base + SubdirPaths(parent, es[..i + 1])
      ensures printed' == MatchPaths(parent, es[..i + 1], term)
      ensures |woken'| == if wake then Min(|SubdirPaths(parent, es[..i + 1])|, |sleepers|) else 0
      ensures woken' == sleepers[..|woken'|] && sleeping.Contents == sleepers[|woken'|..]
      ensures filesFound == old(filesFound) + |printed'| - |printed|
      ensures searchOver == old(searchOver)
    {
      ghost var queued, before := paths.Contents, sleeping.Contents;
      var found, next := ExpandEntry(parent, es[i], wake);
      ExpandStep(parent, es, i, term, wake, base, sleepers, queued, paths.Contents,
                 printed, found, woken, before, next, sleeping.Contents);
      printed', woken' := printed + found, woken + next;
    }

    /**
     * `searchDirectory`'s scan of one directory: a directory that cannot be
     * opened is reported and contributes nothing; an opened one is expanded
     * entry by entry, as `ExpandListing` describes.
     */
    method ExpandDirectory(parent: string, listing: Option<seq<DirEntry>>, wake: bool)
      returns (printed: seq<string>, woken: seq<ThreadRecord>)
      requires Valid()
      modifies this, paths.Repr, sleeping.Repr
      ensures Valid()
      ensures fresh(paths.Repr - old(paths.Repr)) && sleeping.Repr <= old(sleeping.Repr)
      ensures listing.None? ==> printed == [] && woken == []
                                && paths.Contents == old(paths.Contents) && sleeping.Contents == old(sleeping.Contents)
      ensures listing.Some? ==>
                var dirs := SubdirPaths(parent, listing.value);
                var k := if wake then Min(|dirs|, |old(sleeping.Contents)|) else 0;
                && paths.Contents == old(paths.Contents) + dirs
                && printed == MatchPaths(parent, listing.value, term)
                && woken == old(sleeping.Contents)[..k]
                && sleeping.Contents == old(sleeping.Contents)[k..]
      ensures filesFound == old(filesFound) + |printed|
      ensures searchOver == old(searchOver)
    {
      if listing.None? {
        return [], [];
      }
      printed, woken := ExpandListing(parent, listing.value, wake);
    }

    /**
     * The expansion loop of `searchDirectory` in pfind.c: the same
     * classification, with subdirectories queued but no sleeping worker woken.
     */
    method ExpandWithoutWaking(parent: string, listing: Option<seq<DirEntry>>) returns (printed: seq<string>)
      requires Valid()
      modifies this, paths.Repr, sleeping.Repr
      ensures Valid()
      ensures fresh(paths.Repr - old(paths.Repr))
      ensures sleeping.Contents == old(sleeping.Contents)
      ensures listing.None? ==> printed == [] && paths.Contents == old(paths.Contents)
      ensures listing.Some? ==>
                && paths.Contents == old(paths.Contents) + SubdirPaths(parent, listing.value)
                && printed == MatchPaths(parent, listing.value, term)
      ensures filesFound == old(filesFound) + |printed|
      ensures searchOver == old(searchOver)
    {
      var woken;
      printed, woken := ExpandDirectory(parent, listing, false);
    }

    /**
     * A worker that found the path queue empty parks, then tests for
     * completion (pfind_hopefully_final.c, pfind_3rd.c): it enqueues a record
     * of itself, counts the sleeping queue and, only when that equals the
     * thread count, counts the path queue. Completion raises `search_over`.
     */
    method ParkThenCheck(myId: int) returns (over: bool)
      requires Valid()
      modifies this, sleeping.Repr
      ensures Valid() && fresh(sleeping.Repr - old(sleeping.Repr))
      ensures sleeping.Contents == old(sleeping.Contents) + [RecordOf(myId)]
      ensures paths.Contents == old(paths.Contents)
      ensures over == SearchComplete(|sleeping.Contents|, |paths.Contents|, numThreads)
      ensures searchOver == (old(searchOver) || over)
      ensures filesFound == old(filesFound)
    {
      var myNode := new Node(RecordOf(myId));
      sleeping.Enqueue(myNode);
      var threadQueueSize := sleeping.Count();
      over := false;
      if numThreads == threadQueueSize {
        var pathQueueSize := paths.Count();
        if pathQueueSize == 0 {
          over := true;
          searchOver := true;
        }
      }
    }

    /**
     * The worker loop of pfind_another.c: with the path queue found empty, it
     * compares the sleeping queue's `size` with the thread count first, and
     * parks only when they differ.
     */
    method CheckThenPark(myId: int) returns (over: bool)
      requires Valid()
      modifies sleeping.Repr
      ensures Valid() && fresh(sleeping.Repr - old(sleeping.Repr))
      ensures over == RegistryFull(|old(sleeping.Contents)|, numThreads)
      ensures over ==> sleeping.Contents == old(sleeping.Contents)
      ensures !over ==> sleeping.Contents == old(sleeping.Contents) + [RecordOf(myId)]
      ensures paths.Contents == old(paths.Contents)
    {
      over := numThreads == sleeping.size;
      if !over {
        var myNode := new Node(RecordOf(myId));
        sleeping.Enqueue(myNode);
      }
    }

    /**
     * The guard at the top of `searchDirectory` in pfind_another.c: a caller
     * that finds the path queue's `size` 0 parks, then compares the sleeping
     * queue's `size` with the thread count; the path queue is not looked at
     * again. A caller that finds a path queued skips the block.
     */
    method ParkThenCountSleepers(myId: int) returns (over: bool)
      requires Valid()
      modifies sleeping.Repr
      ensures Valid() && fresh(sleeping.Repr - old(sleeping.Repr))
      ensures old(paths.Contents) == [] ==> sleeping.Contents == old(sleeping.Contents) + [RecordOf(myId)]
      ensures old(paths.Contents) == [] ==> over == RegistryFull(|sleeping.Contents|, numThreads)
      ensures old(paths.Contents) != [] ==> sleeping.Contents == old(sleeping.Contents) && !over
      ensures paths.Contents == old(paths.Contents)
    {
      over := false;
      if paths.size == 0 {
        var myNode := new Node(RecordOf(myId));
        sleeping.Enqueue(myNode);
        over := numThreads == sleeping.size;
      }
    }

    /**
     * The driver thread of pfind.c: dequeue the first sleeping record and
     * enqueue the same cell again, which moves it from the head to the tail.
     */
    method DriverRotate() returns (first: Node?<ThreadRecord>)
      requires Valid()
      modifies sleeping.Repr
      ensures Valid() && sleeping.Repr == old(sleeping.Repr)
      ensures sleeping.Contents == Rotated(old(sleeping.Contents))
      ensures first == null <==> old(sleeping.Contents) == []
      ensures first != null ==> first.val == old(sleeping.Contents)[0] && sleeping.tail == first && first.next == null
      ensures paths.Contents == old(paths.Contents)
    {
      first := sleeping.Dequeue();
      if first != null {
        sleeping.Enqueue(first);
      }
    }

    /**
     * One round of the inner loop of the worker (pfind_hopefully_final.c,
     * pfind_3rd.c) with nobody asleep: dequeue the oldest path, which the
     * count just taken says exists, and scan it.
     */
    method ScanOldest(fs: map<string, seq<DirEntry>>) returns (printed: seq<string>)
      requires Valid() && sleeping.Contents == [] && paths.Contents != []
      modifies this, paths.Repr, sleeping.Repr
      ensures Valid() && sleeping.Contents == []
      ensures fresh(paths.Repr - old(paths.Repr)) && sleeping.Repr <= old(sleeping.Repr)
      ensures printed == Found(fs, old(paths.Contents)[0], term)
      ensures paths.Contents == old(paths.Contents)[1..] + Children(fs, old(paths.Contents)[0])
      ensures filesFound == old(filesFound) + |printed|
      ensures searchOver == old(searchOver)
    {
      var searchPath := paths.Dequeue();
      var woken;
      printed, woken := ExpandDirectory(searchPath.val, Listing(fs, searchPath.val), true);
    }

    /** One scan of a drain with `steps` scans left: what is still to come shrinks by that scan. */
    method DrainNext(fs: map<string, seq<DirEntry>>, steps: nat, printed: seq<string>,
                     ghost total: (seq<string>, seq<string>))
      returns (printed': seq<string>, pathQueueSize: nat, steps': nat)
      requires Valid() && sleeping.Contents == [] && paths.Contents != [] && steps > 0
      requires total.0 == printed + DrainSpec(fs, paths.Contents, term, steps).0
      requires total.1 == DrainSpec(fs, paths.Contents, term, steps).1
      modifies this, paths.Repr, sleeping.Repr
      ensures Valid() && sleeping.Contents == []
      ensures fresh(paths.Repr - old(paths.Repr)) && sleeping.Repr <= old(sleeping.Repr)
      ensures steps' == steps - 1
      ensures total.0 == printed' + DrainSpec(fs, paths.Contents, term, steps').0
      ensures total.1 == DrainSpec(fs, paths.Contents, term, steps').1
      ensures pathQueueSize == |paths.Contents|
      ensures filesFound == old(filesFound) + |printed'| - |printed|
      ensures searchOver == old(searchOver)
    {
      ghost var before := paths.Contents;
      var found := ScanOldest(fs);
      DrainOneMore(fs, before, term, steps, printed, found, paths.Contents, total);
      printed' := printed + found;
      pathQueueSize := paths.Count();
      steps' := steps - 1;
    }

    /**
     * The worker loop of pfind_hopefully_final.c run by a single worker with
     * nobody asleep: while the counted path queue is non-empty, dequeue the
     * oldest path and expand it; at most `fuel` scans.
     */
    method Drain(fs: map<string, seq<DirEntry>>, fuel: nat) returns (printed: seq<string>)
      requires Valid() && sleeping.Contents == []
      modifies this, paths.Repr, sleeping.Repr
      ensures Valid() && sleeping.Contents == []
      ensures fresh(paths.Repr - old(paths.Repr)) && sleeping.Repr <= old(sleeping.Repr)
      ensures (printed, paths.Contents) == DrainSpec(fs, old(paths.Contents), term, fuel)
      ensures filesFound == old(filesFound) + |printed|
      ensures searchOver == old(searchOver)
    {
      printed := [];
      var steps := fuel;
      var pathQueueSize := paths.Count();
      ghost var total := DrainSpec(fs, paths.Contents, term, steps);
      assert [] + total.0 == total.0;
      while pathQueueSize > 0 && steps > 0
        invariant Valid() && sleeping.Contents == []
        invariant fresh(paths.Repr - old(paths.Repr)) && sleeping.Repr <= old(sleeping.Repr)
        invariant pathQueueSize == |paths.Contents|
        invariant total.0 == printed + DrainSpec(fs, paths.Contents, term, steps).0
        invariant total.1 == DrainSpec(fs, paths.Contents, term, steps).1
        invariant filesFound == old(filesFound) + |printed|
        invariant searchOver == old(searchOver)
        decreases steps
      {
        printed, pathQueueSize, steps := DrainNext(fs, steps, printed, total);
      }
      DrainStops(fs, paths.Contents, term, steps, printed, total);
    }

    /**
     * A search with one worker: drain the path queue, then park and test for
     * completion. Completion is declared exactly when the drain left nothing
     * queued.
     */
    method SingleWorker(fs: map<string, seq<DirEntry>>, fuel: nat) returns (printed: seq<string>, over: bool)
      requires Valid() && numThreads == 1 && sleeping.Contents == []
      modifies this, paths.Repr, sleeping.Repr
      ensures Valid()
      ensures printed == DrainSpec(fs, old(paths.Contents), term, fuel).0
      ensures paths.Contents == DrainSpec(fs, old(paths.Contents), term, fuel).1
      ensures sleeping.Contents == [RecordOf(0)]
      ensures over <==> DrainSpec(fs, old(paths.Contents), term, fuel).1 == []
      ensures filesFound == old(filesFound) + |printed|
      ensures searchOver == (old(searchOver) || over)
    {
      printed := Drain(fs, fuel);
      over := ParkThenCheck(0);
    }
  }
}

/**
 * The sleeping-worker registry and the completion test.
 *
 * A worker parks by enqueueing a record of itself on the sleeping queue; the
 * search is over when every worker is parked and no directory is pending. The
 * program does not look for the records themselves: it compares the queue's
 * length with the thread count. The lemmas here say when that comparison means
 * what it is meant to mean.
 */
module Termination {

  /** `struct threadNode` without its link: the worker id and its condition variable (an index into `cv_arr`). */
  datatype ThreadRecord = ThreadRecord(tid: int, cv: int)

  /** The record a worker makes of itself: `newThreadNode(my_id, &cv_arr[my_id])`. */
  function RecordOf(tid: int): ThreadRecord
  {
    ThreadRecord(tid, tid)
  }

  /** The records `main` registers before any worker runs, for ids 0 .. n-1 in order. */
  function Registry(n: nat): seq<ThreadRecord>
  {
    seq(n, i => RecordOf(i))
  }

  /**
   * The sleeping queue holds as many records as there are workers: the whole
   * completion test of pfind_another.c, made before parking in its worker loop
   * and after parking at the top of its `searchDirectory`.
   */
  predicate RegistryFull(sleeping: int, numThreads: int)
  {
    numThreads == sleeping
  }

  /**
   * The completion test after parking (pfind_hopefully_final.c, pfind_3rd.c):
   * the sleeping queue holds `numThreads` records and the path queue is empty.
   */
  predicate SearchComplete(sleeping: int, pending: int, numThreads: int)
  {
    RegistryFull(sleeping, numThreads) && pending == 0
  }

  ghost predicate DistinctTids(rs: seq<ThreadRecord>)
  {
    forall i, j :: 0 <= i < j < |rs| ==> rs[i].tid != rs[j].tid
  }

  ghost predicate TidsBelow(rs: seq<ThreadRecord>, n: int)
  {
    forall i :: 0 <= i < |rs| ==> 0 <= rs[i].tid < n
  }

  /** Worker `t` has a record on the sleeping queue. */
  ghost predicate Parked(rs: seq<ThreadRecord>, t: int)
  {
    exists i :: 0 <= i < |rs| && rs[i].tid == t
  }

  /** Every worker 0 .. n-1 has a record on the sleeping queue. */
  ghost predicate AllParked(rs: seq<ThreadRecord>, n: int)
  {
    forall t :: 0 <= t < n ==> Parked(rs, t)
  }

  /** The ids of the workers with a record in `rs`. */
  ghost function TidSet(rs: seq<ThreadRecord>): set<int>
  {
    if rs == [] then {} else TidSet(rs[..|rs| - 1]) + {rs[|rs| - 1].tid}
  }

  lemma {:induction false} TidSetMembers(rs: seq<ThreadRecord>, t: int)
    ensures t in TidSet(rs) <==> Parked(rs, t)
  {
    if rs != [] {
      var init := rs[..|rs| - 1];
      TidSetMembers(init, t);
      if Parked(init, t) {
        var i :| 0 <= i < |init| && init[i].tid == t;
        assert rs[i] == init[i];
      }
      if Parked(rs, t) && t != rs[|rs| - 1].tid {
        var i :| 0 <= i < |rs| && rs[i].tid == t;
        assert init[i] == rs[i];
      }
    }
  }

  /** The worker ids 0 .. n-1. */
  ghost function Ids(n: nat): set<int>
  {
    if n == 0 then {} else Ids(n - 1) + {n - 1}
  }

  lemma {:induction false} IdsExactly(n: nat)
    ensures |Ids(n)| == n
    ensures forall t :: t in Ids(n) <==> 0 <= t < n
  {
    if n > 0 {
      IdsExactly(n - 1);
    }
  }

  lemma {:induction false} TidSetSize(rs: seq<ThreadRecord>)
    requires DistinctTids(rs)
    ensures |TidSet(rs)| == |rs|
  {
    if rs != [] {
      var init := rs[..|rs| - 1];
      assert DistinctTids(init);
      TidSetSize(init);
      var last := rs[|rs| - 1].tid;
      TidSetMembers(init, last);
    }
  }

  /**
   * Counting is enough when records are distinct: for records of distinct
   * workers among 0 .. n-1, the registry holds n records exactly when every
   * worker is parked.
   */
  lemma FullRegistryIffAllParked(rs: seq<ThreadRecord>, n: nat)
    requires DistinctTids(rs) && TidsBelow(rs, n)
    ensures |rs| == n <==> AllParked(rs, n)
  {
    TidSetSize(rs);
    IdsExactly(n);
    var tids, ids := TidSet(rs), Ids(n);
    forall t ensures t in tids <==> Parked(rs, t) {
      TidSetMembers(rs, t);
    }
    forall t | t in tids ensures t in ids {
      var i :| 0 <= i < |rs| && rs[i].tid == t;
    }
    assert |ids| == |tids| + |ids - tids| by {
      assert ids == tids + (ids - tids);
    }
    if |rs| == n {
      assert ids - tids == {};
      forall t | 0 <= t < n ensures Parked(rs, t) {
        assert t in ids;
        assert t in tids;
      }
    }
    if AllParked(rs, n) {
      forall t | t in ids ensures t in tids {
        assert Parked(rs, t);
      }
      assert ids - tids == {};
    }
  }

  /** Parking a worker that is not parked keeps the records distinct and in range. */
  lemma ParkKeepsRegistryWellFormed(rs: seq<ThreadRecord>, t: int, n: nat)
    requires DistinctTids(rs) && TidsBelow(rs, n)
    requires 0 <= t < n && !Parked(rs, t)
    ensures DistinctTids(rs + [RecordOf(t)]) && TidsBelow(rs + [RecordOf(t)], n)
  {
    var rs' := rs + [RecordOf(t)];
    forall i, j | 0 <= i < j < |rs'| ensures rs'[i].tid != rs'[j].tid {
      if j == |rs| {
        assert rs'[i] == rs[i];
      }
    }
  }

  /**
   * Park, then check (pfind_hopefully_final.c): for a caller that was not parked
   * and records that are distinct, the test fires exactly when every worker,
   * the caller included, is now parked and no directory is pending.
   */
  lemma ParkThenCheckDetectsCompletion(rs: seq<ThreadRecord>, t: int, n: nat, pending: nat)
    requires DistinctTids(rs) && TidsBelow(rs, n)
    requires 0 <= t < n && !Parked(rs, t)
    ensures SearchComplete(|rs + [RecordOf(t)]|, pending, n) <==> AllParked(rs + [RecordOf(t)], n) && pending == 0
  {
    ParkKeepsRegistryWellFormed(rs, t, n);
    FullRegistryIffAllParked(rs + [RecordOf(t)], n);
  }

  /**
   * Check, then park (pfind_another.c:309-316): when the caller is the last
   * worker still awake, every other worker is parked and no directory is
   * pending, the search is complete, yet the test does not fire: the caller
   * parks as well and no worker is left to declare completion.
   */
  lemma CheckBeforeParkMissesCompletion(rs: seq<ThreadRecord>, t: int, n: nat)
    requires DistinctTids(rs) && TidsBelow(rs, n)
    requires 0 <= t < n && !Parked(rs, t)
    requires forall u :: 0 <= u < n && u != t ==> Parked(rs, u)
    ensures !RegistryFull(|rs|, n)
    ensures AllParked(rs + [RecordOf(t)], n)
  {
    FullRegistryIffAllParked(rs, n);
    var rs' := rs + [RecordOf(t)];
    forall u | 0 <= u < n ensures Parked(rs', u) {
      if u == t {
        assert rs'[|rs|].tid == t;
      } else {
        assert Parked(rs, u);
        var i :| 0 <= i < |rs| && rs[i].tid == u;
        assert rs'[i] == rs[i];
      }
    }
  }

  /** `main`'s registry: ids 0 .. n-1, in order, each once, and every worker parked. */
  lemma RegistryWellFormed(n: nat)
    ensures DistinctTids(Registry(n)) && TidsBelow(Registry(n), n) && AllParked(Registry(n), n)
  {
    forall t | 0 <= t < n ensures Parked(Registry(n), t) {
      assert Registry(n)[t].tid == t;
    }
  }

  /**
   * After `main` dequeues the first record, the workers 1 .. n-1 are parked and
   * worker 0 is not: the state from which worker 0 starts the search.
   */
  lemma AfterFirstWakeOnlyWorkerZeroAwake(n: nat)
    requires n >= 1
    ensures Registry(n)[0] == RecordOf(0)
    ensures DistinctTids(Registry(n)[1..]) && TidsBelow(Registry(n)[1..], n)
    ensures !Parked(Registry(n)[1..], 0)
    ensures forall u :: 1 <= u < n ==> Parked(Registry(n)[1..], u)
  {
    var rest := Registry(n)[1..];
    forall u | 1 <= u < n ensures Parked(rest, u) {
      assert rest[u - 1].tid == u;
    }
  }

  /**
   * The sleeping queue never removes duplicates: if one worker's record is on it
   * twice, the length test can fire while another worker is still awake.
   */
  lemma DuplicateRecordsFireEarly()
    ensures SearchComplete(|[RecordOf(0), RecordOf(0)]|, 0, 2)
    ensures !Parked([RecordOf(0), RecordOf(0)], 1)
  {
  }
}

/**
 * What expanding one directory produces, as functions of its listing.
 *
 * A listing is what `readdir` returns, in order, with each entry already
 * classified by `isDirectory` on the joined path. Expansion skips the `.` and
 * `..` pseudo-entries, joins every other name onto the parent as
 * `parent + "/" + name`, queues directories for a later scan and reports a
 * non-directory whose name contains the search term (C `strstr`).
 */
module Expansion {
  import opened CStrings

  datatype DirEntry = DirEntry(name: string, isDir: bool)

  predicate IsDotEntry(name: string)
  {
    name == "." || name == ".."
  }

  /** The path built for an entry: `strcpy(path, parent); strcat(path, "/"); strcat(path, name)`. */
  function ChildPath(parent: string, name: string): string
  {
    parent + "/" + name
  }

  /** An entry that is queued for scanning. */
  predicate IsSubdir(e: DirEntry)
  {
    !IsDotEntry(e.name) && e.isDir
  }

  /** An entry that is counted and printed as a match for `term`. */
  predicate IsMatch(e: DirEntry, term: string)
  {
    !IsDotEntry(e.name) && !e.isDir && StrStr(e.name, term).Some?
  }

  /** What one entry adds to the path queue: its child path when it is a subdirectory. */
  function Queued(parent: string, e: DirEntry): seq<string>
  {
    if IsSubdir(e) then [ChildPath(parent, e.name)] else []
  }

  /** What one entry adds to the output: its child path when it is a match. */
  function Reported(parent: string, e: DirEntry, term: string): seq<string>
  {
    if IsMatch(e, term) then [ChildPath(parent, e.name)] else []
  }

  /** The child paths of the subdirectories of a listing, in listing order. */
  function SubdirPaths(parent: string, es: seq<DirEntry>): seq<string>
  {
    if es == [] then []
    else SubdirPaths(parent, es[..|es| - 1]) + Queued(parent, es[|es| - 1])
  }

  /** The printed paths of the matching files of a listing, in listing order. */
  function MatchPaths(parent: string, es: seq<DirEntry>, term: string): seq<string>
  {
    if es == [] then []
    else MatchPaths(parent, es[..|es| - 1], term) + Reported(parent, es[|es| - 1], term)
  }

  /** One more entry of a listing: what its prefix of length `i + 1` adds to the prefix of length `i`. */
  lemma ExpandOneMore(parent: string, es: seq<DirEntry>, i: nat, term: string)
    requires i < |es|
    ensures SubdirPaths(parent, es[..i + 1]) == SubdirPaths(parent, es[..i]) + Queued(parent, es[i])
    ensures MatchPaths(parent, es[..i + 1], term) == MatchPaths(parent, es[..i], term) + Reported(parent, es[i], term)
  {
    assert es[..i + 1][..i] == es[..i];
  }

  /** Expanding a concatenation of listings queues the first part's directories, then the second's. */
  lemma {:induction false} SubdirPathsAppend(parent: string, xs: seq<DirEntry>, ys: seq<DirEntry>)
    ensures SubdirPaths(parent, xs + ys) == SubdirPaths(parent, xs) + SubdirPaths(parent, ys)
    decreases |ys|
  {
    if ys == [] {
      assert xs + ys == xs;
    } else {
      var zs := xs + ys;
      assert zs[..|zs| - 1] == xs + ys[..|ys| - 1];
      assert zs[|zs| - 1] == ys[|ys| - 1];
      SubdirPathsAppend(parent, xs, ys[..|ys| - 1]);
    }
  }

  /** Expanding a concatenation of listings reports the first part's matches, then the second's. */
  lemma {:induction false} MatchPathsAppend(parent: string, xs: seq<DirEntry>, ys: seq<DirEntry>, term: string)
    ensures MatchPaths(parent, xs + ys, term) == MatchPaths(parent, xs, term) + MatchPaths(parent, ys, term)
    decreases |ys|
  {
    if ys == [] {
      assert xs + ys == xs;
    } else {
      var zs := xs + ys;
      assert zs[..|zs| - 1] == xs + ys[..|ys| - 1];
      assert zs[|zs| - 1] == ys[|ys| - 1];
      MatchPathsAppend(parent, xs, ys[..|ys| - 1], term);
    }
  }

  /**
   * A path is queued exactly when some entry of the listing is a directory other
   * than `.` and `..` and the path is that entry's child path.
   */
  lemma {:induction false} SubdirPathsExactly(parent: string, es: seq<DirEntry>, p: string)
    ensures p in SubdirPaths(parent, es) <==>
            exists i :: 0 <= i < |es| && IsSubdir(es[i]) && p == ChildPath(parent, es[i].name)
  {
    if es != [] {
      var init := es[..|es| - 1];
      SubdirPathsExactly(parent, init, p);
      if p in SubdirPaths(parent, init) {
        var i :| 0 <= i < |init| && IsSubdir(init[i]) && p == ChildPath(parent, init[i].name);
        assert es[i] == init[i];
      }
      if exists i :: 0 <= i < |es| && IsSubdir(es[i]) && p == ChildPath(parent, es[i].name) {
        var i :| 0 <= i < |es| && IsSubdir(es[i]) && p == ChildPath(parent, es[i].name);
        if i < |init| {
          assert init[i] == es[i];
        }
      }
    }
  }

  /** `p` is the printed path of `e`: a non-directory other than `.` and `..` whose name contains `term`. */
  ghost predicate ReportedAs(parent: string, e: DirEntry, term: string, p: string)
  {
    !IsDotEntry(e.name) && !e.isDir && Contains(e.name, term) && p == ChildPath(parent, e.name)
  }

  lemma ReportedExactly(parent: string, e: DirEntry, term: string, p: string)
    ensures p in Reported(parent, e, term) <==> ReportedAs(parent, e, term, p)
  {
  }

  /**
   * A path is reported exactly when some entry of the listing is a non-directory
   * other than `.` and `..` whose name contains the term, and the path is that
   * entry's child path.
   */
  lemma {:induction false} MatchPathsExactly(parent: string, es: seq<DirEntry>, term: string, p: string)
    ensures p in MatchPaths(parent, es, term) <==> exists i :: 0 <= i < |es| && ReportedAs(parent, es[i], term, p)
  {
    if es != [] {
      var init, last := es[..|es| - 1], es[|es| - 1];
      MatchPathsExactly(parent, init, term, p);
      ReportedExactly(parent, last, term, p);
      assert p in MatchPaths(parent, es, term) <==> p in MatchPaths(parent, init, term) || p in Reported(parent, last, term);
      if p in MatchPaths(parent, init, term) {
        var i :| 0 <= i < |init| && ReportedAs(parent, init[i], term, p);
        assert es[i] == init[i];
      }
      if exists i :: 0 <= i < |es| && ReportedAs(parent, es[i], term, p) {
        var i :| 0 <= i < |es| && ReportedAs(parent, es[i], term, p);
        if i < |init| {
          assert init[i] == es[i];
        }
      }
    }
  }

  /** The positions in a listing of the entries that are queued subdirectories. */
  ghost function SubdirIndices(es: seq<DirEntry>): set<int>
  {
    set i | 0 <= i < |es| && IsSubdir(es[i])
  }

  /** The positions in a listing of the entries that are reported matches. */
  ghost function MatchIndices(es: seq<DirEntry>, term: string): set<int>
  {
    set i | 0 <= i < |es| && IsMatch(es[i], term)
  }

  /** No entry is both queued and reported: a subdirectory is never a match. */
  lemma NeverQueuedAndReported(e: DirEntry, term: string)
    ensures !(IsSubdir(e) && IsMatch(e, term))
  {
  }

  lemma SubdirIndicesSnoc(es: seq<DirEntry>)
    requires es != []
    ensures var n := |es| - 1;
            SubdirIndices(es) == SubdirIndices(es[..n]) + (if IsSubdir(es[n]) then {n} else {})
            && n !in SubdirIndices(es[..n])
  {
    var n := |es| - 1;
    forall i | 0 <= i < n
      ensures es[..n][i] == es[i]
    {
    }
  }

  /** One path is queued per subdirectory entry: the queued count is the number of such entries. */
  lemma {:induction false} SubdirPathsCount(parent: string, es: seq<DirEntry>)
    ensures |SubdirPaths(parent, es)| == |SubdirIndices(es)|
  {
    if es != [] {
      var n := |es| - 1;
      SubdirPathsCount(parent, es[..n]);
      SubdirIndicesSnoc(es);
    }
  }

  lemma MatchIndicesSnoc(es: seq<DirEntry>, term: string)
    requires es != []
    ensures var n := |es| - 1;
            MatchIndices(es, term) == MatchIndices(es[..n], term) + (if IsMatch(es[n], term) then {n} else {})
            && n !in MatchIndices(es[..n], term)
  {
    var n := |es| - 1;
    forall i | 0 <= i < n
      ensures es[..n][i] == es[i]
    {
    }
  }

  /** One path is reported per matching entry: the reported count is the number of such entries. */
  lemma {:induction false} MatchPathsCount(parent: string, es: seq<DirEntry>, term: string)
    ensures |MatchPaths(parent, es, term)| == |MatchIndices(es, term)|
  {
    if es != [] {
      var n := |es| - 1;
      MatchPathsCount(parent, es[..n], term);
      MatchIndicesSnoc(es, term);
    }
  }

  /**
   * Every entry is queued, reported, or neither, and never both: the queued and
   * reported counts are those of two disjoint sets of positions, so together
   * they are at most the length of the listing.
   */
  lemma {:induction false} ExpansionAccountsForEveryEntry(parent: string, es: seq<DirEntry>, term: string)
    ensures |SubdirPaths(parent, es)| == |SubdirIndices(es)|
    ensures |MatchPaths(parent, es, term)| == |MatchIndices(es, term)|
    ensures SubdirIndices(es) !! MatchIndices(es, term)
    ensures |SubdirPaths(parent, es)| + |MatchPaths(parent, es, term)| <= |es|
  {
    SubdirPathsCount(parent, es);
    MatchPathsCount(parent, es, term);
    forall i | i in SubdirIndices(es)
      ensures i !in MatchIndices(es, term)
    {
      NeverQueuedAndReported(es[i], term);
    }
    EntriesBound(parent, es, term);
  }

  lemma {:induction false} EntriesBound(parent: string, es: seq<DirEntry>, term: string)
    ensures |SubdirPaths(parent, es)| + |MatchPaths(parent, es, term)| <= |es|
  {
    if es != [] {
      EntriesBound(parent, es[..|es| - 1], term);
    }
  }

  /** With an empty search term every non-directory entry other than `.` and `..` is reported. */
  lemma {:induction false} EmptyTermMatchesEveryFile(parent: string, es: seq<DirEntry>)
    ensures forall i :: 0 <= i < |es| && !IsDotEntry(es[i].name) && !es[i].isDir ==>
              ChildPath(parent, es[i].name) in MatchPaths(parent, es, "")
  {
    forall i | 0 <= i < |es| && !IsDotEntry(es[i].name) && !es[i].isDir
      ensures ChildPath(parent, es[i].name) in MatchPaths(parent, es, "")
    {
      EmptyNeedleFoundAtStart(es[i].name);
      assert OccursAt(es[i].name, "", 0);
      MatchPathsExactly(parent, es, "", ChildPath(parent, es[i].name));
    }
  }

  /** `.` and `..` contribute nothing, whatever they are classified as. */
  lemma DotEntriesIgnored(parent: string, es: seq<DirEntry>, e: DirEntry, term: string)
    requires IsDotEntry(e.name)
    ensures SubdirPaths(parent, es + [e]) == SubdirPaths(parent, es)
    ensures MatchPaths(parent, es + [e], term) == MatchPaths(parent, es, term)
  {
    assert (es + [e])[..|es + [e]| - 1] == es;
  }
}

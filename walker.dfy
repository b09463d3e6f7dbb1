/**
 * The disk walker (`scan_uploads_directory`): one pass over the regular files
 * under the uploads root that counts them and lists, up to a cap, those whose
 * root-relative path no attachment accounts for.
 */
module Walker {
  import opened Common
  import opened Paths

  /**
   * One item the recursive directory iterator yields: its pathname, whether it
   * is a regular file, and what `getSize()` gives (`None` when it throws).
   * An iterator that throws part-way simply yields fewer items.
   */
  datatype DirEntry = DirEntry(pathname: string, isFile: bool, size: Option<nat>)

  /** One row of the orphan list. */
  datatype OrphanFile = OrphanFile(relative: Path, absolute: Path, size: nat)

  /** What the walker returns: the orphan list, the number of regular files met, and the truncation flag. */
  datatype ScanResult = ScanResult(orphans: seq<OrphanFile>, count: nat, truncated: bool)

  /** The walk so far, and whether an exception has ended it. */
  datatype WalkState = WalkState(result: ScanResult, aborted: bool)

  /** `$known_map`: the normalized form of every known relative path. */
  function KnownMapOf(known: seq<Path>): set<Path> {
    set p | p in known :: NormalizePath(p)
  }

  /** The walker's derivation of a relative path from a normalized absolute one, for a given root. */
  function RootRelative(root: Path): Path -> Path {
    absolute => RelativePath(root, absolute)
  }

  // The walk is stated for any derivation `relativeOf` of relative paths from
  // absolute ones; the walker uses `RootRelative(root)`.

  /** A regular file whose relative path is not known: it belongs in the orphan list if there is room. */
  predicate IsCandidate(known: set<Path>, relativeOf: Path -> Path, e: DirEntry) {
    e.isFile && relativeOf(NormalizePath(e.pathname)) !in known
  }

  /** The orphan row for a candidate whose size could be read. */
  function OrphanOf(relativeOf: Path -> Path, e: DirEntry): OrphanFile
    requires e.size.Some?
  {
    var absolute := NormalizePath(e.pathname);
    OrphanFile(relativeOf(absolute), absolute, e.size.value)
  }

  /** One iteration of the walk's loop body. */
  function Visit(cap: nat, known: set<Path>, relativeOf: Path -> Path, r: ScanResult, e: DirEntry): WalkState {
    if !e.isFile then WalkState(r, false)
    else if !IsCandidate(known, relativeOf, e) then WalkState(r.(count := r.count + 1), false)
    else if |r.orphans| < cap then
      match e.size
      case None => WalkState(r.(count := r.count + 1), true)
      case Some(_) => WalkState(ScanResult(r.orphans + [OrphanOf(relativeOf, e)], r.count + 1, r.truncated), false)
    else WalkState(ScanResult(r.orphans, r.count + 1, true), false)
  }

  /** The state after walking the items in order, stopping at the first exception. */
  function Walk(cap: nat, known: set<Path>, relativeOf: Path -> Path, es: seq<DirEntry>): WalkState {
    if es == [] then WalkState(ScanResult([], 0, false), false)
    else
      var w := Walk(cap, known, relativeOf, es[..|es| - 1]);
      if w.aborted then w else Visit(cap, known, relativeOf, w.result, es[|es| - 1])
  }

  // ---------------------------------------------------------------------------
  // Reference definitions, independent of the loop
  // ---------------------------------------------------------------------------

  /** The number of regular files among the items. */
  function FileCount(es: seq<DirEntry>): nat {
    if es == [] then 0 else FileCount(es[..|es| - 1]) + if es[|es| - 1].isFile then 1 else 0
  }

  /** The candidates among the items, in walk order. */
  function Candidates(known: set<Path>, relativeOf: Path -> Path, es: seq<DirEntry>): seq<DirEntry> {
    FilterMap(es, e => if IsCandidate(known, relativeOf, e) then Some(e) else None)
  }

  function Min(a: nat, b: nat): nat {
    if a <= b then a else b
  }

  /**
   * `scan_uploads_directory`: builds `$known_map`, then walks the items,
   * counting every regular file and listing unknown ones until the cap is
   * reached, after which it only raises the truncation flag. An exception from
   * `getSize()` ends the walk with what was gathered so far.
   */
  method ScanUploadsDirectory(cfg: Config, basedir: string, knownRelativePaths: seq<Path>, entries: seq<DirEntry>)
    returns (scan: ScanResult)
    ensures scan == Walk(cfg.maxOrphanFilesList, KnownMapOf(knownRelativePaths),
                         RootRelative(NormalizePath(basedir)), entries).result
    ensures |scan.orphans| <= cfg.maxOrphanFilesList
    ensures |scan.orphans| <= scan.count <= FileCount(entries)
    ensures forall o :: o in scan.orphans ==>
              o.relative !in KnownMapOf(knownRelativePaths) && o.relative == RelativePath(NormalizePath(basedir), o.absolute)
    ensures entries == [] ==> scan == ScanResult([], 0, false)
  {
    var knownMap: set<Path> := {};
    var j := 0;
    while j < |knownRelativePaths|
      invariant 0 <= j <= |knownRelativePaths|
      invariant knownMap == KnownMapOf(knownRelativePaths[..j])
    {
      assert knownRelativePaths[..j + 1] == knownRelativePaths[..j] + [knownRelativePaths[j]];
      knownMap := knownMap + {NormalizePath(knownRelativePaths[j])};
      j := j + 1;
    }
    assert knownRelativePaths[..j] == knownRelativePaths;
    var relativeOf := RootRelative(NormalizePath(basedir));
    scan := WalkUploads(cfg.maxOrphanFilesList, knownMap, relativeOf, entries);
    WalkInvariants(cfg.maxOrphanFilesList, knownMap, relativeOf, entries);
  }

  /**
   * The `foreach` over the iterator inside the `try` of `scan_uploads_directory`,
   * for a given `$known_map` and derivation of relative paths.
   */
  method WalkUploads(cap: nat, knownMap: set<Path>, relativeOf: Path -> Path, entries: seq<DirEntry>)
    returns (scan: ScanResult)
    ensures scan == Walk(cap, knownMap, relativeOf, entries).result
  {
    var orphans: seq<OrphanFile> := [];
    var count: nat := 0;
    var truncated := false;
    var aborted := false;
    var i := 0;
    while i < |entries| && !aborted
      invariant 0 <= i <= |entries|
      invariant Walk(cap, knownMap, relativeOf, entries[..i]) == WalkState(ScanResult(orphans, count, truncated), aborted)
    {
      var fileInfo := entries[i];
      WalkStep(cap, knownMap, relativeOf, entries, i);
      if fileInfo.isFile {
        count := count + 1;
        var absolute := NormalizePath(fileInfo.pathname);
        var relative := relativeOf(absolute);
        if relative !in knownMap {
          if |orphans| < cap {
            match fileInfo.size {
              case None =>
                // getSize() throws: the exception leaves the loop.
                aborted := true;
              case Some(size) =>
                orphans := orphans + [OrphanFile(relative, absolute, size)];
            }
          } else {
            truncated := true;
          }
        }
      }
      i := i + 1;
    }
    if aborted {
      WalkAbortIsFinal(cap, knownMap, relativeOf, entries, i, |entries|);
    }
    assert entries[..|entries|] == entries;
    scan := ScanResult(orphans, count, truncated);
  }

  // ---------------------------------------------------------------------------
  // Lemmas
  // ---------------------------------------------------------------------------

  /** One more item: the walk so far, then one visit unless an exception ended it. */
  lemma WalkStep(cap: nat, known: set<Path>, relativeOf: Path -> Path, es: seq<DirEntry>, i: nat)
    requires i < |es|
    ensures var w := Walk(cap, known, relativeOf, es[..i]);
            Walk(cap, known, relativeOf, es[..i + 1])
            == if w.aborted then w else Visit(cap, known, relativeOf, w.result, es[i])
  {
    assert es[..i + 1][..i] == es[..i];
  }

  /** A walk over a single unknown file whose size can be read lists that file and nothing else. */
  lemma SingleCandidateWalk(cap: nat, known: set<Path>, relativeOf: Path -> Path, e: DirEntry)
    requires cap >= 1 && IsCandidate(known, relativeOf, e) && e.size.Some?
    ensures Walk(cap, known, relativeOf, [e]) == WalkState(ScanResult([OrphanOf(relativeOf, e)], 1, false), false)
  {
    assert [e][..0] == [];
  }

  /** More items never mean fewer regular files. */
  lemma {:induction false} FileCountPrefix(es: seq<DirEntry>, i: nat)
    requires i <= |es|
    ensures FileCount(es[..i]) <= FileCount(es)
    decreases |es|
  {
    if i < |es| {
      var n := |es| - 1;
      FileCountPrefix(es[..n], i);
      assert es[..n][..i] == es[..i];
    } else {
      assert es[..i] == es;
    }
  }

  /** Once an exception has ended the walk, later items change nothing. */
  lemma {:induction false} WalkAbortIsFinal(cap: nat, known: set<Path>, relativeOf: Path -> Path, es: seq<DirEntry>, i: nat, j: nat)
    requires i <= j <= |es|
    requires Walk(cap, known, relativeOf, es[..i]).aborted
    ensures Walk(cap, known, relativeOf, es[..j]) == Walk(cap, known, relativeOf, es[..i])
    decreases j
  {
    if j > i {
      WalkAbortIsFinal(cap, known, relativeOf, es, i, j - 1);
      assert es[..j][..j - 1] == es[..j - 1];
    }
  }

  /**
   * A walk that no exception ended counts every regular file, lists the first
   * `cap` candidates in walk order, and is truncated exactly when there were
   * more candidates than the cap.
   */
  lemma {:induction false} WalkMatchesReference(cap: nat, known: set<Path>, relativeOf: Path -> Path, es: seq<DirEntry>)
    requires !Walk(cap, known, relativeOf, es).aborted
    ensures var r := Walk(cap, known, relativeOf, es).result;
            var c := Candidates(known, relativeOf, es);
            && r.count == FileCount(es)
            && |r.orphans| == Min(cap, |c|)
            && (forall k :: 0 <= k < |r.orphans| ==> c[k].size.Some? && r.orphans[k] == OrphanOf(relativeOf, c[k]))
            && r.truncated == (|c| > cap)
  {
    if es != [] {
      var n := |es| - 1;
      var front := es[..n];
      var e := es[n];
      var w := Walk(cap, known, relativeOf, front);
      assert !w.aborted;
      WalkMatchesReference(cap, known, relativeOf, front);
      var c0 := Candidates(known, relativeOf, front);
      var c := Candidates(known, relativeOf, es);
      assert c == c0 + if IsCandidate(known, relativeOf, e) then [e] else [];
      var r := Walk(cap, known, relativeOf, es).result;
      if IsCandidate(known, relativeOf, e) && |w.result.orphans| < cap {
        assert e.size.Some?;
        assert r.orphans == w.result.orphans + [OrphanOf(relativeOf, e)];
        assert c[|c0|] == e;
      }
    }
  }

  /**
   * What holds of every walk, ended by an exception or not: the list stays
   * within the cap, no more rows than files counted, no more files counted
   * than there are, and every row is an unknown file with its derived path.
   */
  lemma {:induction false} WalkInvariants(cap: nat, known: set<Path>, relativeOf: Path -> Path, es: seq<DirEntry>)
    ensures var r := Walk(cap, known, relativeOf, es).result;
            && |r.orphans| <= cap
            && |r.orphans| <= r.count <= FileCount(es)
            && forall o :: o in r.orphans ==> o.relative !in known && o.relative == relativeOf(o.absolute)
  {
    if es != [] {
      var n := |es| - 1;
      WalkInvariants(cap, known, relativeOf, es[..n]);
      if Walk(cap, known, relativeOf, es[..n]).aborted {
        assert Walk(cap, known, relativeOf, es) == Walk(cap, known, relativeOf, es[..n]);
      }
    }
  }

  /** While the orphan list has room, nothing has been truncated. */
  lemma {:induction false} NotTruncatedBelowCap(cap: nat, known: set<Path>, relativeOf: Path -> Path, es: seq<DirEntry>)
    requires |Walk(cap, known, relativeOf, es).result.orphans| < cap
    ensures !Walk(cap, known, relativeOf, es).result.truncated
  {
    if es != [] {
      var n := |es| - 1;
      var w := Walk(cap, known, relativeOf, es[..n]);
      assert |w.result.orphans| <= |Walk(cap, known, relativeOf, es).result.orphans|;
      NotTruncatedBelowCap(cap, known, relativeOf, es[..n]);
    }
  }

  /** The state just before the item whose failing `getSize()` ended the walk. */
  predicate AbortedAt(cap: nat, known: set<Path>, relativeOf: Path -> Path, es: seq<DirEntry>, k: nat)
    requires k < |es|
  {
    var before := Walk(cap, known, relativeOf, es[..k]);
    && !before.aborted
    && IsCandidate(known, relativeOf, es[k]) && es[k].size.None?
    && |before.result.orphans| < cap
    && Walk(cap, known, relativeOf, es).result == before.result.(count := before.result.count + 1)
    && Walk(cap, known, relativeOf, es).result.count == FileCount(es[..k + 1])
  }

  /**
   * A walk that an exception ended holds exactly what was gathered before the
   * failing item, with that item counted, so the count is the number of regular
   * files up to and including it: it was a candidate met while the list still
   * had room, whose size could not be read, and nothing was truncated.
   */
  lemma {:induction false} WalkAbortedKeepsPrefix(cap: nat, known: set<Path>, relativeOf: Path -> Path, es: seq<DirEntry>)
    requires Walk(cap, known, relativeOf, es).aborted
    ensures exists k :: 0 <= k < |es| && AbortedAt(cap, known, relativeOf, es, k)
    ensures !Walk(cap, known, relativeOf, es).result.truncated
  {
    var n := |es| - 1;
    var front := es[..n];
    var w := Walk(cap, known, relativeOf, front);
    if w.aborted {
      WalkAbortedKeepsPrefix(cap, known, relativeOf, front);
      var k :| 0 <= k < |front| && AbortedAt(cap, known, relativeOf, front, k);
      assert front[..k] == es[..k];
      assert front[..k + 1] == es[..k + 1];
      assert AbortedAt(cap, known, relativeOf, es, k);
    } else {
      assert es[..n + 1] == es;
      WalkStep(cap, known, relativeOf, es, n);
      WalkMatchesReference(cap, known, relativeOf, front);
      assert AbortedAt(cap, known, relativeOf, es, n);
      NotTruncatedBelowCap(cap, known, relativeOf, front);
    }
  }

  /**
   * Walking a prefix of the items gives a result the full walk extends: its
   * orphans are a prefix of the full list, its count is no larger, and a
   * truncation it saw stays. This is what an exception from the iterator leaves.
   */
  lemma {:induction false} WalkPrefixExtends(cap: nat, known: set<Path>, relativeOf: Path -> Path, es: seq<DirEntry>, k: nat)
    requires k <= |es|
    ensures var a := Walk(cap, known, relativeOf, es[..k]).result;
            var b := Walk(cap, known, relativeOf, es).result;
            a.orphans <= b.orphans && a.count <= b.count && (a.truncated ==> b.truncated)
    decreases |es|
  {
    if k < |es| {
      var n := |es| - 1;
      WalkPrefixExtends(cap, known, relativeOf, es[..n], k);
      assert es[..n][..k] == es[..k];
    } else {
      assert es[..k] == es;
    }
  }

  /**
   * With more than `cap` unknown files, all of which report a size, the list
   * holds exactly `cap` of them, the truncation flag is set and every file is
   * counted.
   */
  lemma OverCapScenario(cap: nat, known: set<Path>, relativeOf: Path -> Path, es: seq<DirEntry>)
    requires forall k :: 0 <= k < |es| ==> IsCandidate(known, relativeOf, es[k]) && es[k].size.Some?
    requires |es| > cap
    ensures var r := Walk(cap, known, relativeOf, es).result;
            |r.orphans| == cap && r.truncated && r.count == |es|
  {
    if Walk(cap, known, relativeOf, es).aborted {
      WalkAbortedKeepsPrefix(cap, known, relativeOf, es);
    } else {
      WalkMatchesReference(cap, known, relativeOf, es);
      AllFilesCounted(es);
      AllCandidatesKept(known, relativeOf, es);
    }
  }

  lemma {:induction false} AllFilesCounted(es: seq<DirEntry>)
    requires forall k :: 0 <= k < |es| ==> es[k].isFile
    ensures FileCount(es) == |es|
  {
    if es != [] {
      AllFilesCounted(es[..|es| - 1]);
    }
  }

  lemma {:induction false} AllCandidatesKept(known: set<Path>, relativeOf: Path -> Path, es: seq<DirEntry>)
    requires forall k :: 0 <= k < |es| ==> IsCandidate(known, relativeOf, es[k])
    ensures Candidates(known, relativeOf, es) == es
  {
    if es != [] {
      var n := |es| - 1;
      AllCandidatesKept(known, relativeOf, es[..n]);
      assert es[..n] + [es[n]] == es;
    }
  }
}

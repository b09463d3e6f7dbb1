/**
 * The attachment inventory builder (`gather_attachment_info`): one pass over the
 * attachment records that sorts each into broken, large or ordinary and collects
 * the relative paths of the files that exist.
 */
module Inventory {
  import opened Common
  import opened Paths

  /** One attachment id with its `_wp_attached_file` meta ('' when there is none). */
  datatype AttachmentRecord = AttachmentRecord(id: int, fileMeta: string)

  /**
   * The files under the uploads root, keyed by normalized absolute path: a key
   * is present when `is_file` holds, and maps to what `filesize` returns
   * (`None` for `false`).
   */
  type FileSystem = map<Path, Option<nat>>

  /** One row of the broken or large list. */
  datatype AttachmentEntry = AttachmentEntry(id: int, meta: string, fileExists: bool, size: nat, absolute: Path)

  /** What the builder returns: the two lists and the known relative paths, each once. */
  datatype AttachmentInfo = AttachmentInfo(broken: seq<AttachmentEntry>, large: seq<AttachmentEntry>, allPaths: seq<Path>)

  /** PHP's `empty()` on a meta string: the empty string and "0". */
  predicate IsEmptyMeta(meta: string) {
    meta == "" || meta == "0"
  }

  /** `wp_normalize_path(trailingslashit($uploads_basedir) . $relative_path)`. */
  function AbsolutePathOf(basedir: string, relative: Path): Path {
    NormalizePath(TrailingSlashIt(basedir) + relative)
  }

  /** The normalized stored path of a record. */
  function RelativeOf(rec: AttachmentRecord): Path {
    NormalizePath(rec.fileMeta)
  }

  /** The record has a file meta and `is_file` holds for the path it resolves to. */
  predicate FileExists(basedir: string, fs: FileSystem, rec: AttachmentRecord) {
    !IsEmptyMeta(rec.fileMeta) && AbsolutePathOf(basedir, RelativeOf(rec)) in fs
  }

  /** What `filesize` returned for an existing record's file. */
  function SizeRead(basedir: string, fs: FileSystem, rec: AttachmentRecord): Option<nat>
    requires FileExists(basedir, fs, rec)
  {
    fs[AbsolutePathOf(basedir, RelativeOf(rec))]
  }

  /** The file exists, `filesize` succeeded, and the size reaches the threshold. */
  predicate IsLarge(threshold: nat, basedir: string, fs: FileSystem, rec: AttachmentRecord) {
    FileExists(basedir, fs, rec) && SizeRead(basedir, fs, rec).Some? && SizeRead(basedir, fs, rec).value >= threshold
  }

  // ---------------------------------------------------------------------------
  // What one record contributes to each output
  // ---------------------------------------------------------------------------

  /** The row a record adds to the broken list, if any. */
  function BrokenRow(basedir: string, fs: FileSystem, rec: AttachmentRecord): (row: Option<AttachmentEntry>)
    ensures row.Some? <==> !FileExists(basedir, fs, rec)
    ensures row.Some? ==> row.value.id == rec.id && !row.value.fileExists && row.value.size == 0
    ensures row.Some? && IsEmptyMeta(rec.fileMeta) ==> row.value.meta == "" && row.value.absolute == ""
    ensures row.Some? && !IsEmptyMeta(rec.fileMeta)
        ==> row.value.meta == RelativeOf(rec) && row.value.absolute == AbsolutePathOf(basedir, RelativeOf(rec))
  {
    if IsEmptyMeta(rec.fileMeta) then Some(AttachmentEntry(rec.id, "", false, 0, ""))
    else
      var relative := RelativeOf(rec);
      var absolute := AbsolutePathOf(basedir, relative);
      if absolute in fs then None else Some(AttachmentEntry(rec.id, relative, false, 0, absolute))
  }

  /** The row a record adds to the large list, if any. */
  function LargeRow(threshold: nat, basedir: string, fs: FileSystem, rec: AttachmentRecord): (row: Option<AttachmentEntry>)
    ensures row.Some? <==> IsLarge(threshold, basedir, fs, rec)
    ensures row.Some? ==> row.value.id == rec.id && row.value.fileExists && row.value.size >= threshold
    ensures row.Some? ==> row.value.size == SizeRead(basedir, fs, rec).value
                          && row.value.meta == RelativeOf(rec)
                          && row.value.absolute == AbsolutePathOf(basedir, RelativeOf(rec))
  {
    if IsEmptyMeta(rec.fileMeta) then None
    else
      var relative := RelativeOf(rec);
      var absolute := AbsolutePathOf(basedir, relative);
      if absolute in fs && fs[absolute].Some? && fs[absolute].value >= threshold
      then Some(AttachmentEntry(rec.id, relative, true, fs[absolute].value, absolute))
      else None
  }

  /** The path a record adds to the known paths, if any. */
  function KnownRow(basedir: string, fs: FileSystem, rec: AttachmentRecord): (path: Option<Path>)
    ensures path.Some? <==> FileExists(basedir, fs, rec)
    ensures path.Some? ==> path.value == RelativeOf(rec)
  {
    if !IsEmptyMeta(rec.fileMeta) && AbsolutePathOf(basedir, RelativeOf(rec)) in fs then Some(RelativeOf(rec)) else None
  }

  /** The broken list for the records, in record order. */
  function BrokenOf(basedir: string, fs: FileSystem, recs: seq<AttachmentRecord>): seq<AttachmentEntry> {
    FilterMap(recs, r => BrokenRow(basedir, fs, r))
  }

  /** The large list for the records, in record order. */
  function LargeOf(threshold: nat, basedir: string, fs: FileSystem, recs: seq<AttachmentRecord>): seq<AttachmentEntry> {
    FilterMap(recs, r => LargeRow(threshold, basedir, fs, r))
  }

  /** The known relative paths for the records, in record order, repeats included. */
  function KnownPathsOf(basedir: string, fs: FileSystem, recs: seq<AttachmentRecord>): seq<Path> {
    FilterMap(recs, r => KnownRow(basedir, fs, r))
  }

  /**
   * `gather_attachment_info`: the broken list, the large list and the known
   * relative paths (the keys of `$paths`, each once).
   */
  method GatherAttachmentInfo(cfg: Config, basedir: string, fs: FileSystem, records: seq<AttachmentRecord>)
    returns (info: AttachmentInfo)
    ensures info.broken == BrokenOf(basedir, fs, records)
    ensures info.large == LargeOf(cfg.largeFileThreshold, basedir, fs, records)
    ensures forall e :: e in info.broken ==> !e.fileExists && e.size == 0
    ensures forall e :: e in info.large ==> e.fileExists && e.size >= cfg.largeFileThreshold
    ensures NoDuplicates(info.allPaths)
    ensures forall p :: p in info.allPaths <==> p in KnownPathsOf(basedir, fs, records)
  {
    var broken: seq<AttachmentEntry> := [];
    var large: seq<AttachmentEntry> := [];
    var paths: seq<Path> := [];
    var i := 0;
    while i < |records|
      invariant 0 <= i <= |records|
      invariant broken == BrokenOf(basedir, fs, records[..i])
      invariant large == LargeOf(cfg.largeFileThreshold, basedir, fs, records[..i])
      invariant forall e :: e in broken ==> !e.fileExists && e.size == 0
      invariant forall e :: e in large ==> e.fileExists && e.size >= cfg.largeFileThreshold
      invariant NoDuplicates(paths)
      invariant forall p :: p in paths <==> p in KnownPathsOf(basedir, fs, records[..i])
    {
      var rec := records[i];
      assert records[..i + 1][..i] == records[..i];
      var fileMeta := rec.fileMeta;
      if IsEmptyMeta(fileMeta) {
        // An attachment with no file stored counts as broken.
        broken := broken + [AttachmentEntry(rec.id, "", false, 0, "")];
      } else {
        var relativePath := NormalizePath(fileMeta);
        var absolutePath := NormalizePath(TrailingSlashIt(basedir) + relativePath);
        var fileExists := absolutePath in fs;
        if fileExists {
          if relativePath !in paths {
            paths := paths + [relativePath];
          }
          var size := fs[absolutePath];
          if size.Some? && size.value >= cfg.largeFileThreshold {
            large := large + [AttachmentEntry(rec.id, relativePath, true, size.value, absolutePath)];
          }
        } else {
          broken := broken + [AttachmentEntry(rec.id, relativePath, false, 0, absolutePath)];
        }
      }
      i := i + 1;
    }
    assert records[..i] == records;
    info := AttachmentInfo(broken, large, paths);
  }

  // ---------------------------------------------------------------------------
  // Properties of the three outputs
  // ---------------------------------------------------------------------------

  /** Every known path is already normalized, so normalizing it again changes nothing. */
  lemma KnownPathsNormalized(basedir: string, fs: FileSystem, recs: seq<AttachmentRecord>, p: Path)
    requires p in KnownPathsOf(basedir, fs, recs)
    ensures NormalizePath(p) == p
  {
    FilterMapMembers(recs, r => KnownRow(basedir, fs, r), p);
    var k :| 0 <= k < |recs| && KnownRow(basedir, fs, recs[k]) == Some(p);
    NormalizeIdempotent(recs[k].fileMeta);
  }

  /**
   * The known paths are exactly the normalized stored paths of the records
   * whose file exists.
   */
  lemma KnownPathsExactly(basedir: string, fs: FileSystem, recs: seq<AttachmentRecord>, p: Path)
    ensures p in KnownPathsOf(basedir, fs, recs)
        <==> exists k :: 0 <= k < |recs| && FileExists(basedir, fs, recs[k]) && p == RelativeOf(recs[k])
  {
    FilterMapMembers(recs, r => KnownRow(basedir, fs, r), p);
    if exists k :: 0 <= k < |recs| && FileExists(basedir, fs, recs[k]) && p == RelativeOf(recs[k]) {
      var k :| 0 <= k < |recs| && FileExists(basedir, fs, recs[k]) && p == RelativeOf(recs[k]);
      assert KnownRow(basedir, fs, recs[k]) == Some(p);
    }
  }

  /** An attachment with an empty meta is listed broken with empty fields and contributes no known path. */
  lemma EmptyMetaIsBroken(basedir: string, fs: FileSystem, recs: seq<AttachmentRecord>, k: nat)
    requires k < |recs| && IsEmptyMeta(recs[k].fileMeta)
    ensures AttachmentEntry(recs[k].id, "", false, 0, "") in BrokenOf(basedir, fs, recs)
    ensures KnownPathsOf(basedir, fs, recs) == KnownPathsOf(basedir, fs, recs[..k] + recs[k + 1..])
  {
    FilterMapMembers(recs, r => BrokenRow(basedir, fs, r), AttachmentEntry(recs[k].id, "", false, 0, ""));
    KnownPathsSkipsEmpty(basedir, fs, recs, k);
  }

  /** Dropping a record with no file meta does not change the known paths. */
  lemma {:induction false} KnownPathsSkipsEmpty(basedir: string, fs: FileSystem, recs: seq<AttachmentRecord>, k: nat)
    requires k < |recs| && IsEmptyMeta(recs[k].fileMeta)
    ensures KnownPathsOf(basedir, fs, recs) == KnownPathsOf(basedir, fs, recs[..k] + recs[k + 1..])
    decreases |recs|
  {
    var n := |recs| - 1;
    var rest := recs[..k] + recs[k + 1..];
    if k == n {
      assert rest == recs[..n];
    } else {
      KnownPathsSkipsEmpty(basedir, fs, recs[..n], k);
      assert recs[..n][..k] + recs[..n][k + 1..] == rest[..|rest| - 1];
      assert rest[|rest| - 1] == recs[n];
    }
  }

  /** A stored path whose file is missing is listed broken with its normalized and absolute paths. */
  lemma MissingFileIsBroken(basedir: string, fs: FileSystem, recs: seq<AttachmentRecord>, k: nat)
    requires k < |recs| && !IsEmptyMeta(recs[k].fileMeta) && !FileExists(basedir, fs, recs[k])
    ensures AttachmentEntry(recs[k].id, RelativeOf(recs[k]), false, 0, AbsolutePathOf(basedir, RelativeOf(recs[k])))
            in BrokenOf(basedir, fs, recs)
  {
    FilterMapMembers(recs, r => BrokenRow(basedir, fs, r), BrokenRow(basedir, fs, recs[k]).value);
  }

  /**
   * With distinct ids, no id is both in the broken list and in the large list:
   * an existing file can only be large or ordinary, a missing one is always broken.
   */
  lemma BrokenAndLargeDisjoint(threshold: nat, basedir: string, fs: FileSystem, recs: seq<AttachmentRecord>)
    requires forall i, j :: 0 <= i < j < |recs| ==> recs[i].id != recs[j].id
    ensures forall b, l :: b in BrokenOf(basedir, fs, recs) && l in LargeOf(threshold, basedir, fs, recs) ==> b.id != l.id
  {
    forall b, l | b in BrokenOf(basedir, fs, recs) && l in LargeOf(threshold, basedir, fs, recs)
      ensures b.id != l.id
    {
      FilterMapMembers(recs, r => BrokenRow(basedir, fs, r), b);
      FilterMapMembers(recs, r => LargeRow(threshold, basedir, fs, r), l);
      var i :| 0 <= i < |recs| && BrokenRow(basedir, fs, recs[i]) == Some(b);
      var j :| 0 <= j < |recs| && LargeRow(threshold, basedir, fs, recs[j]) == Some(l);
      assert i != j;
    }
  }

  /**
   * With distinct ids, a record's id is in the large list exactly when its file
   * exists, `filesize` succeeded and the size reaches the threshold. A failed
   * size read keeps the path known but the record out of the large list.
   */
  lemma LargeExactly(threshold: nat, basedir: string, fs: FileSystem, recs: seq<AttachmentRecord>, k: nat)
    requires forall i, j :: 0 <= i < j < |recs| ==> recs[i].id != recs[j].id
    requires k < |recs|
    ensures (exists l :: l in LargeOf(threshold, basedir, fs, recs) && l.id == recs[k].id)
        <==> IsLarge(threshold, basedir, fs, recs[k])
    ensures FileExists(basedir, fs, recs[k]) && SizeRead(basedir, fs, recs[k]).None?
        ==> RelativeOf(recs[k]) in KnownPathsOf(basedir, fs, recs)
            && forall l :: l in LargeOf(threshold, basedir, fs, recs) ==> l.id != recs[k].id
  {
    var pick := r => LargeRow(threshold, basedir, fs, r);
    if IsLarge(threshold, basedir, fs, recs[k]) {
      FilterMapMembers(recs, pick, LargeRow(threshold, basedir, fs, recs[k]).value);
    }
    forall l | l in LargeOf(threshold, basedir, fs, recs) && l.id == recs[k].id
      ensures IsLarge(threshold, basedir, fs, recs[k])
    {
      FilterMapMembers(recs, pick, l);
      var j :| 0 <= j < |recs| && pick(recs[j]) == Some(l);
      assert j == k;
    }
    if FileExists(basedir, fs, recs[k]) {
      FilterMapMembers(recs, r => KnownRow(basedir, fs, r), RelativeOf(recs[k]));
    }
  }

  /**
   * The large list holds exactly one row per large record, carrying its id,
   * its normalized stored path, the size `filesize` returned and its absolute path.
   */
  lemma LargeRowsExactly(threshold: nat, basedir: string, fs: FileSystem, recs: seq<AttachmentRecord>, l: AttachmentEntry)
    ensures l in LargeOf(threshold, basedir, fs, recs)
        <==> exists k :: 0 <= k < |recs| && IsLarge(threshold, basedir, fs, recs[k])
               && l == AttachmentEntry(recs[k].id, RelativeOf(recs[k]), true,
                                       SizeRead(basedir, fs, recs[k]).value, AbsolutePathOf(basedir, RelativeOf(recs[k])))
  {
    var pick := r => LargeRow(threshold, basedir, fs, r);
    FilterMapMembers(recs, pick, l);
    if l in LargeOf(threshold, basedir, fs, recs) {
      var k :| 0 <= k < |recs| && pick(recs[k]) == Some(l);
      assert IsLarge(threshold, basedir, fs, recs[k]);
    }
    if exists k :: 0 <= k < |recs| && IsLarge(threshold, basedir, fs, recs[k])
         && l == AttachmentEntry(recs[k].id, RelativeOf(recs[k]), true,
                                 SizeRead(basedir, fs, recs[k]).value, AbsolutePathOf(basedir, RelativeOf(recs[k]))) {
      var k :| 0 <= k < |recs| && IsLarge(threshold, basedir, fs, recs[k])
         && l == AttachmentEntry(recs[k].id, RelativeOf(recs[k]), true,
                                 SizeRead(basedir, fs, recs[k]).value, AbsolutePathOf(basedir, RelativeOf(recs[k])));
      assert pick(recs[k]) == Some(l);
    }
  }
}

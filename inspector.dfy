/**
 * The report the audit screen renders (lines 89-98 of `render_tools_page`):
 * the inventory builder runs first, and its known paths are the walker's
 * exclusion filter.
 */
module Inspector {
  import opened Common
  import opened Paths
  import opened Inventory
  import opened Walker

  /** Everything the audit screen shows about attachments and files. */
  datatype Report = Report(
    broken: seq<AttachmentEntry>,
    large: seq<AttachmentEntry>,
    orphans: seq<OrphanFile>,
    totalFilesScanned: nat,
    truncated: bool)

  /** The known relative paths as a set. */
  function KnownSet(basedir: string, fs: FileSystem, records: seq<AttachmentRecord>): set<Path> {
    set p | p in KnownPathsOf(basedir, fs, records)
  }

  /** Normalizing the builder's known paths once more, as `$known_map` does, gives the same set. */
  lemma KnownMapOfKnownPaths(basedir: string, fs: FileSystem, records: seq<AttachmentRecord>, allPaths: seq<Path>)
    requires forall p :: p in allPaths <==> p in KnownPathsOf(basedir, fs, records)
    ensures KnownMapOf(allPaths) == KnownSet(basedir, fs, records)
  {
    forall p | p in allPaths ensures NormalizePath(p) == p {
      KnownPathsNormalized(basedir, fs, records, p);
    }
    forall p | p in KnownSet(basedir, fs, records) ensures p in KnownMapOf(allPaths) {
      assert NormalizePath(p) == p;
    }
  }

  /**
   * Gathers the attachment inventory, walks the uploads tree against its known
   * paths, and bundles both results unchanged.
   */
  method Audit(cfg: Config, basedir: string, fs: FileSystem, records: seq<AttachmentRecord>, entries: seq<DirEntry>)
    returns (report: Report)
    ensures report.broken == BrokenOf(basedir, fs, records)
    ensures report.large == LargeOf(cfg.largeFileThreshold, basedir, fs, records)
    ensures var w := Walk(cfg.maxOrphanFilesList, KnownSet(basedir, fs, records),
                          RootRelative(NormalizePath(basedir)), entries).result;
            report.orphans == w.orphans && report.totalFilesScanned == w.count && report.truncated == w.truncated
  {
    var info := GatherAttachmentInfo(cfg, basedir, fs, records);
    var scan := ScanUploadsDirectory(cfg, basedir, info.allPaths, entries);
    KnownMapOfKnownPaths(basedir, fs, records, info.allPaths);
    report := Report(info.broken, info.large, scan.orphans, scan.count, scan.truncated);
  }

  /**
   * A file that an attachment points at and that exists is never reported as an
   * orphan, whatever separators the uploads root and the stored path use: the
   * walker derives back exactly the stored path for it. This needs a root that
   * is not all separators (and whose last other character is not a line feed,
   * which would keep a doubled trailing slash), a stored path without a leading
   * separator, and the normalized root not occurring in what follows the
   * leading root (a slash and the stored path, or only the stored path when the
   * normalized root already ends in a slash).
   */
  lemma AttachedFileIsNeverOrphan(cap: nat, basedir: string, fs: FileSystem, records: seq<AttachmentRecord>,
                                  entries: seq<DirEntry>, k: nat)
    requires RTrimSeparators(basedir) != []
    requires RTrimSeparators(basedir)[|RTrimSeparators(basedir)| - 1] != '\n'
    requires k < |records| && FileExists(basedir, fs, records[k]) && !IsSeparator(records[k].fileMeta[0])
    requires !Occurs(NormalizePath(basedir), if |RTrimSeparators(basedir)| == |basedir|
                                             then "/" + RelativeOf(records[k]) else RelativeOf(records[k]))
    ensures forall o :: o in Walk(cap, KnownSet(basedir, fs, records), RootRelative(NormalizePath(basedir)), entries).result.orphans
              ==> o.absolute != AbsolutePathOf(basedir, RelativeOf(records[k]))
  {
    var rel := RelativeOf(records[k]);
    var known := KnownSet(basedir, fs, records);
    var t := RTrimSeparators(basedir);
    var trimmed := NormalizePath(t);
    var root := NormalizePath(basedir);
    NormalizeYieldsNormalized(records[k].fileMeta);
    NormalizeKeepsLead(records[k].fileMeta);
    NormalizeKeepsLead(t);
    AbsolutePathJoin(basedir, rel);
    NormalizeTrailingSeparators(basedir);
    if |t| == |basedir| {
      RelativePathRoundTrip(trimmed, rel);
    } else {
      RelativePathRoundTripSlashRoot(trimmed, rel);
    }
    KnownPathsExactly(basedir, fs, records, rel);
    assert rel in known;
    var relativeOf := RootRelative(root);
    WalkInvariants(cap, known, relativeOf, entries);
    assert relativeOf(trimmed + "/" + rel) == rel;
  }

  /**
   * A stored path with a leading separator (line 189 keeps it) is never
   * matched by the walker, which trims leading separators (line 254): with that
   * attachment alone and its file on disk, the walk lists the attachment's own
   * file as an orphan under a relative path different from the stored one.
   */
  lemma LeadingSeparatorMetaIsOrphan(cap: nat, basedir: string, fs: FileSystem, rec: AttachmentRecord)
    requires cap >= 1 && rec.fileMeta != [] && IsSeparator(rec.fileMeta[0])
    requires FileExists(basedir, fs, rec) && SizeRead(basedir, fs, rec).Some?
    ensures RelativePath(NormalizePath(basedir), AbsolutePathOf(basedir, RelativeOf(rec))) != RelativeOf(rec)
    ensures var absolute := AbsolutePathOf(basedir, RelativeOf(rec));
            var size := SizeRead(basedir, fs, rec).value;
            Walk(cap, KnownSet(basedir, fs, [rec]), RootRelative(NormalizePath(basedir)),
                 [DirEntry(absolute, true, Some(size))]).result
            == ScanResult([OrphanFile(RelativePath(NormalizePath(basedir), absolute), absolute, size)], 1, false)
  {
    var rel := RelativeOf(rec);
    var absolute := AbsolutePathOf(basedir, rel);
    var root := NormalizePath(basedir);
    SingleKnownPath(basedir, fs, rec);
    LeadingSeparatorNeverDerived(root, absolute, rec.fileMeta);
    NormalizeIdempotent(TrailingSlashIt(basedir) + rel);
    SingleCandidateWalk(cap, {rel}, RootRelative(root), DirEntry(absolute, true, SizeRead(basedir, fs, rec)));
  }

  /** With one attachment whose file exists, its stored path is the only known path. */
  lemma SingleKnownPath(basedir: string, fs: FileSystem, rec: AttachmentRecord)
    requires FileExists(basedir, fs, rec)
    ensures KnownSet(basedir, fs, [rec]) == {RelativeOf(rec)}
  {
    assert [rec][..0] == [];
    assert KnownPathsOf(basedir, fs, [rec]) == [RelativeOf(rec)];
  }
}

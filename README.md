# WP Media Hygiene Inspector — reconciliation engine in Dafny

This project models the reconciliation engine of the WordPress plugin
*WP Media Hygiene Inspector*. The engine compares the attachment records in
the database with the files under the uploads directory and changes neither.
It has two passes, both private methods of the plugin class:

- **Inventory builder** (`gather_attachment_info`). It sorts every attachment
  into one of three groups. *Broken* means there is no `_wp_attached_file`
  meta, or the file it points at does not exist. *Large* means the file exists,
  `filesize` succeeded, and the size is at least the threshold. *Ordinary* is
  everything else. It also collects, once each, the normalized relative paths
  of the files that exist.
- **Disk walker** (`scan_uploads_directory`). It visits every regular file
  under the uploads root once. For each one it derives a root-relative path
  and skips the file when an attachment accounts for that path. Every other
  file goes into an orphan list until the list is full; after that the walker
  only sets a `truncated` flag. It counts every regular file it visits.

The two settings come from the plugin object: the orphan cap of 300
(`wp-media-hygiene-inspector.php:48`) and the large-file threshold of
5 · 1024 · 1024 bytes (`wp-media-hygiene-inspector.php:54`). In the model they
are `Common.DefaultConfig`, and both passes take a `Config` value.

Files:

- `common.dfy`: `Option`, `Config`, `NoDuplicates`, and a generic
  `FilterMap` with its membership lemma.
- `paths.dfy`: WordPress's `wp_normalize_path`, and the PHP string functions
  the engine uses (`str_replace` with an empty replacement, `ltrim`, `rtrim`,
  `trailingslashit`). It also holds the relative-path derivation of lines
  253-255 and the lemmas about them.
- `inventory.dfy`: the inventory builder.
- `walker.dfy`: the disk walker.
- `inspector.dfy`: the composition in `render_tools_page` (lines 89-98), where
  the builder's known paths become the walker's exclusion filter. It also holds
  the end-to-end lemma that an attached, existing file is never an orphan, and
  the lemma showing that a stored path with a leading separator is.

How the environment is modelled:

- **Filesystem.** It is a map from normalized absolute path to
  `Option<nat>`. A key is present exactly when `is_file` holds, and `None`
  means `filesize` returned `false`.
- **Attachment query.** `get_posts` and `get_post_meta` become a sequence of
  `(id, meta)` records. A missing meta is the empty string, which is what
  `get_post_meta(..., true)` returns.
- **Directory iterator.** It is the sequence of items it yields:
  `(pathname, isFile, size)`. An iterator that throws part-way yields only a
  prefix, and the `catch` returns what was gathered.
- **`getSize()`.** When it throws, the item's `size` is `None`. It is only
  called for an orphan that still fits in the list. The exception ends the
  whole walk after `$count` was already incremented, so the count includes
  that file.
- **`wp_normalize_path`.** This WordPress function is not part of the plugin
  source, so it is modelled from what it does. Every `\` becomes `/`. Next,
  `preg_replace('|(?<=.)/+|', '/')` runs. Its effect is that a slash is dropped
  when it follows a slash that itself follows a character other than a line
  feed, so a leading `//` (a network share) survives. Last, a lower-case drive
  letter before `:` is upper-cased. Idempotence is proved as a lemma, not
  assumed.
- **PHP `empty()` on the meta string.** It is true for `""` and for `"0"`.
  So an attachment whose stored path is the single character `0` is listed as
  broken even when that file exists.

Behaviour of the code that the model keeps as written:

- **Failures during the walk.** The `try` (lines 242-275) wraps the whole
  `foreach`, so an exception from the iterator or from `getSize()` ends the
  walk, and the empty `catch` returns what was gathered so far. The model
  stops at the first failure (`Walker.Walk`, `aborted`).
- **`str_replace` deletes every occurrence of the root** (line 254), not
  only the leading one. With the root `/srv/up`, the file
  `/srv/up/m/srv/up/a.jpg` gets the derived path `m/a.jpg`. An attachment
  stored as `m/srv/up/a.jpg` therefore does not match its own file, and the
  file is listed as an orphan. `Paths.RecurringRootBreaksRoundTrip` proves
  that for any root of two characters or more that occurs again after the
  leading one, the derived path is shorter than the stored one.
  `Paths.RelativePathRoundTripExactly` proves that the round trip holds
  exactly when the root does not occur again.
- **A stored path with a leading separator never matches.** The inventory
  builder normalizes the meta (line 189) and keeps a leading `/` or `\` (as
  `/`), while the walker trims leading separators (line 254). An attachment
  with meta `/a.jpg` and its file at `<root>/a.jpg` has the known path
  `/a.jpg`, and the walker lists that same file as the orphan `a.jpg`.
  `Paths.LeadingSeparatorNeverDerived` and
  `Inspector.LeadingSeparatorMetaIsOrphan` state this.

## Model

| member | source | states |
|---|---|---|
| `Paths.NormalizeIdempotent` | wp-media-hygiene-inspector.php:233 | Normalizing twice gives the same path as normalizing once, and a path is left unchanged exactly when it is already normalized (both directions). |
| `Paths.NormalizeYieldsNormalized` | wp-media-hygiene-inspector.php:189 | The output of path normalization has no backslash, no slash that a second pass would drop, and no lower-case drive letter. |
| `Paths.NormalizeKeepsLead` | wp-media-hygiene-inspector.php:255 | Normalization keeps a non-empty path non-empty and does not give it a leading separator. |
| `Paths.RemoveAll` | wp-media-hygiene-inspector.php:254 | `str_replace` with an empty replacement never lengthens the string. It leaves the string unchanged when the search string is empty or does not occur. When a non-empty search string does occur, the result is shorter by at least its length. |
| `Paths.LTrimSeparators` | wp-media-hygiene-inspector.php:254 | `ltrim(s, '/\\')` returns a suffix of `s` that does not start with a separator, and every character it removed is a separator. |
| `Paths.RTrimSeparators` | wp-media-hygiene-inspector.php:190 | `untrailingslashit` returns a prefix that does not end with a separator, and every character it removed is a separator. |
| `Paths.TrailingSlashIt` | wp-media-hygiene-inspector.php:190 | `trailingslashit` replaces the trailing run of separators with exactly one slash. Everything before the final slash is a prefix of the input, every character dropped after that prefix is a separator, and the character before the final slash is not a separator. |
| `Paths.RelativePathShape` | wp-media-hygiene-inspector.php:253-255 | The relative path the walker derives is normalized and never starts with a separator. |
| `Paths.AbsolutePathJoin` | wp-media-hygiene-inspector.php:190 | For any root that is not all separators (backslashes and trailing separators included) and a normalized stored path without a leading separator, the builder's absolute path is the normalized root without its trailing separators, then `/`, then the stored path. |
| `Paths.RelativePathRoundTrip` | wp-media-hygiene-inspector.php:253-255 | From root + `/` + stored path, the walker derives the stored path back, provided the root does not occur again after the leading one. |
| `Paths.RelativePathRoundTripSlashRoot` | wp-media-hygiene-inspector.php:253-255 | The same round trip for a normalized root that ends in a slash: from root + stored path, the walker derives the stored path back, provided the root does not occur in what follows the leading root (the stored path itself). |
| `Paths.RecurringSlashRootBreaksRoundTrip` | wp-media-hygiene-inspector.php:254 | When a root ending in a slash occurs again in the stored path, the derived path is strictly shorter than the stored path, so the two never match. |
| `Paths.RelativePathRoundTripSlashRootExactly` | wp-media-hygiene-inspector.php:253-255 | For a root ending in a slash, the walker derives the stored path back from root + stored path exactly when the root does not occur in the stored path (both directions). |
| `Paths.RelativePathRoundTripExactly` | wp-media-hygiene-inspector.php:253-255 | For a root of two characters or more, the walker derives the stored path back from root + `/` + stored path exactly when the root does not occur again after the leading one (both directions). |
| `Paths.RecurringRootBreaksRoundTrip` | wp-media-hygiene-inspector.php:254 | When a root of two characters or more occurs again after the leading one, the derived path is strictly shorter than the stored path, so the two never match. |
| `Paths.NormalizeTrailingSeparators` | wp-media-hygiene-inspector.php:240 | The walker's normalized root is the normalized root without trailing separators, plus one slash when the configured root had trailing separators, for a root whose last other character is not a line feed. |
| `Paths.LeadingSeparatorNeverDerived` | wp-media-hygiene-inspector.php:253-255 | A stored path that starts with `/` or `\` is, once normalized, never equal to any path the walker derives, whatever the root and the file. |
| `Inventory.BrokenRow` | wp-media-hygiene-inspector.php:177-215 | A record adds a broken row exactly when it has no meta or its file does not exist. That row carries the record's id, `exists = false` and `size = 0`. With no meta, `meta` and `absolute` are empty. Otherwise they are the normalized stored path and the absolute path that was tested. |
| `Inventory.LargeRow` | wp-media-hygiene-inspector.php:192-206 | A record adds a large row exactly when its file exists, `filesize` succeeded and the size is at least the threshold. That row carries the id, `exists = true`, the size `filesize` returned (at least the threshold), the normalized stored path and the absolute path. |
| `Inventory.LargeRowsExactly` | wp-media-hygiene-inspector.php:192-206 | A row is in the large list exactly when some record is large and the row holds that record's id, normalized stored path, `exists = true`, the size `filesize` returned and the absolute path (both directions). |
| `Inventory.KnownRow` | wp-media-hygiene-inspector.php:192-195 | A record adds a known path exactly when its file exists, and that path is its normalized stored path. |
| `Inventory.GatherAttachmentInfo` | wp-media-hygiene-inspector.php:156-223 | Returns the broken and large lists in record order. Broken rows have `exists = false` and size 0; large rows have `exists = true` and size at least the threshold. The known paths are exactly those of records whose file exists, and none is repeated. |
| `Inventory.KnownPathsExactly` | wp-media-hygiene-inspector.php:192-195 | A path is known exactly when it is the normalized stored path of some record whose file exists (both directions). |
| `Inventory.KnownPathsNormalized` | wp-media-hygiene-inspector.php:189-195 | Every known path is already normalized. |
| `Inventory.EmptyMetaIsBroken` | wp-media-hygiene-inspector.php:177-186 | A record with empty meta is in the broken list with `meta = ''`, `absolute = ''` and `size = 0`. Removing that record leaves the known paths unchanged. |
| `Inventory.KnownPathsSkipsEmpty` | wp-media-hygiene-inspector.php:177-186 | Removing a record with empty meta leaves the known paths unchanged. |
| `Inventory.MissingFileIsBroken` | wp-media-hygiene-inspector.php:207-214 | A record with a meta whose file is missing is in the broken list with its normalized stored path and its absolute path. |
| `Inventory.BrokenAndLargeDisjoint` | wp-media-hygiene-inspector.php:192-215 | When ids are distinct, no id is in both the broken list and the large list. |
| `Inventory.LargeExactly` | wp-media-hygiene-inspector.php:194-206 | When ids are distinct, a record's id is in the large list exactly when its file exists, `filesize` succeeded and the size is at least the threshold. A failed size read keeps the path known but keeps the record out of the large list. |
| `Walker.ScanUploadsDirectory` | wp-media-hygiene-inspector.php:230-282 | Returns the walk's result. The orphan list stays within the cap, and count ≥ number of orphans. The count is at most the number of regular files. Every orphan's path is unknown and is derived from its absolute path. An empty walk gives `([], 0, false)`. |
| `Walker.WalkUploads` | wp-media-hygiene-inspector.php:242-275 | The loop over the iterator returns exactly the state the walk specification reaches, including when `getSize()` throws and ends the walk. |
| `Walker.WalkInvariants` | wp-media-hygiene-inspector.php:246-271 | For every walk, including one ended by an exception: orphans ≤ cap, orphans ≤ count ≤ regular files, and no orphan's relative path is known. |
| `Walker.WalkMatchesReference` | wp-media-hygiene-inspector.php:246-271 | A walk with no exception counts every regular file. Its orphans are the first `min(cap, #candidates)` unknown files in walk order. `truncated` holds exactly when there were more unknown files than the cap. |
| `Walker.WalkAbortedKeepsPrefix` | wp-media-hygiene-inspector.php:263-275 | A walk ended by a failing `getSize()` returns exactly the state from before that file, with that file counted. So the count is the number of regular files up to and including it. The file was unknown and the list still had room. `truncated` is false. |
| `Walker.WalkAbortIsFinal` | wp-media-hygiene-inspector.php:242-275 | Once an exception has ended the walk, later items change nothing. |
| `Walker.WalkPrefixExtends` | wp-media-hygiene-inspector.php:242-275 | Compared with a walk of all items, a walk of a prefix (an iterator that threw) has orphans that are a prefix, a count no larger, and no truncation the full walk lacks. |
| `Walker.NotTruncatedBelowCap` | wp-media-hygiene-inspector.php:263-271 | While the orphan list has room, `truncated` is false. |
| `Walker.OverCapScenario` | wp-media-hygiene-inspector.php:263-271 | With more unknown files than the cap, all with readable sizes: exactly `cap` orphans, `truncated` set, and every file counted. |
| `Walker.FileCountPrefix` | wp-media-hygiene-inspector.php:246-251 | A prefix of the items holds no more regular files than all the items. |
| `Inspector.KnownMapOfKnownPaths` | wp-media-hygiene-inspector.php:231-234 | Normalizing the builder's known paths again to build `$known_map` gives the same set. |
| `Inspector.Audit` | wp-media-hygiene-inspector.php:89-98 | The report's broken and large lists are the builder's. The orphans, count and truncation flag are those of the walk filtered by the builder's known paths. |
| `Inspector.AttachedFileIsNeverOrphan` | wp-media-hygiene-inspector.php:253-258 | A file that an existing attachment points at is never reported as an orphan, whatever separators its meta and the uploads root use, and whether or not the root has trailing separators. This holds when the root is not all separators, its last other character is not a line feed, the meta has no leading separator, and the normalized root does not occur in what follows the leading root: a slash and the stored path, or only the stored path when the normalized root ends in a slash. |
| `Inspector.LeadingSeparatorMetaIsOrphan` | wp-media-hygiene-inspector.php:253-271 | For an attachment whose meta starts with a separator and whose file exists with a readable size, the walker derives a path different from the stored one. Walking that file against that attachment alone lists the file itself as the one orphan, with count 1 and no truncation. |

## Left out

- Rendering is left out, because it is presentation only. That covers all `render_*` methods, `format_bytes` (floating-point division and locale formatting) and the admin-page HTML.
- Menu and hook registration and `inject_plugin_list_icon_css` are left out: they are WordPress glue and CSS output.
- `find_published_posts_without_thumbnails` is left out, because it wraps `get_post_types` and `get_posts`, and their behaviour is not part of this model.
- The permission check and the early exit for a missing uploads directory are left out: they guard I/O and the UI, not the reconciliation.
- Real filesystem and database calls are replaced by inputs: `is_file`, `filesize`, the directory iterator, `get_posts` and `get_post_meta`. Symbolic links and the order of the walk are whatever the input sequence says.
- `wp_normalize_path` stream wrappers are not modelled. The `scheme://` prefix is split off before normalizing, and the model treats such a prefix as ordinary text.
- PHP's conversion of numeric-string array keys to integers in `$paths` and `$known_map` is not modelled. The key is turned back into the same string before it is compared.
- Inventory.GatherAttachmentInfo: states which paths `all_paths` contains and that none repeats, but not its insertion order (the order of `array_keys`). The walker uses those paths only for membership tests.
- Inventory.BrokenAndLargeDisjoint: states disjointness by id only when the ids are distinct, as `get_posts` returns them. Per record, the exclusion holds without that condition (`BrokenRow` and `LargeRow`).

/**
 * Path strings as the inspector handles them: WordPress's `wp_normalize_path`,
 * and the PHP string primitives used to derive root-relative paths
 * (`str_replace` with an empty replacement, `ltrim`, `rtrim`, `trailingslashit`).
 */
module Paths {

  type Path = string

  /** The two characters `ltrim($s, '/\\')` and `untrailingslashit` strip. */
  predicate IsSeparator(c: char) {
    c == '/' || c == '\\'
  }

  // ---------------------------------------------------------------------------
  // wp_normalize_path
  // ---------------------------------------------------------------------------

  /** `str_replace('\\', '/', s)`. */
  function ForwardSlashes(s: string): (r: string)
    ensures |r| == |s|
    ensures forall i :: 0 <= i < |s| ==> r[i] == if s[i] == '\\' then '/' else s[i]
  {
    seq(|s|, i requires 0 <= i < |s| => if s[i] == '\\' then '/' else s[i])
  }

  /**
   * The slash at index i is one that `preg_replace('|(?<=.)/+|', '/', s)` deletes:
   * a run of slashes that follows some character other than a line feed (the
   * regex dot does not match one) shrinks to a single slash, while a run at
   * the very start or just after a line feed keeps at most two (network shares).
   */
  predicate Redundant(s: string, i: nat)
    requires i < |s|
  {
    2 <= i && s[i] == '/' && s[i - 1] == '/' && s[i - 2] != '\n'
  }

  /** The slash-collapsing step of `wp_normalize_path`. */
  function CollapseSlashes(s: string): (r: string)
    ensures |r| <= |s|
  {
    if s == [] then []
    else
      var i := |s| - 1;
      CollapseSlashes(s[..i]) + if Redundant(s, i) then [] else [s[i]]
  }

  /** `':' === substr($path, 1, 1)` with a lower-case first letter for `ucfirst` to raise. */
  predicate HasLowerDriveLetter(s: string) {
    |s| >= 2 && s[1] == ':' && 'a' <= s[0] <= 'z'
  }

  /** The drive-letter step of `wp_normalize_path`. */
  function UpperDriveLetter(s: string): (r: string)
    ensures |r| == |s|
  {
    if HasLowerDriveLetter(s) then [(s[0] as int - 32) as char] + s[1..] else s
  }

  /**
   * WordPress's `wp_normalize_path`: every backslash becomes a slash, runs of
   * slashes collapse, and a Windows drive letter is upper-cased.
   */
  function NormalizePath(s: string): (r: Path)
    ensures |r| <= |s|
  {
    UpperDriveLetter(CollapseSlashes(ForwardSlashes(s)))
  }

  /** A path that `wp_normalize_path` would leave as it is. */
  predicate IsNormalized(s: string) {
    && (forall i :: 0 <= i < |s| ==> s[i] != '\\')
    && (forall i :: 0 <= i < |s| ==> !Redundant(s, i))
    && !HasLowerDriveLetter(s)
  }

  lemma {:induction false} CollapseKeepsFirstAndLast(s: string)
    requires s != []
    ensures CollapseSlashes(s) != []
    ensures CollapseSlashes(s)[0] == s[0]
    ensures CollapseSlashes(s)[|CollapseSlashes(s)| - 1] == s[|s| - 1]
  {
    var i := |s| - 1;
    if i > 0 {
      CollapseKeepsFirstAndLast(s[..i]);
    }
  }

  lemma {:induction false} CollapseKeepsCharacters(s: string)
    ensures forall c :: c in CollapseSlashes(s) ==> c in s
  {
    if s != [] {
      var i := |s| - 1;
      CollapseKeepsCharacters(s[..i]);
      forall c | c in CollapseSlashes(s) ensures c in s {
        if c in CollapseSlashes(s[..i]) {
          assert c in s[..i];
        }
      }
    }
  }

  /** Collapsing leaves no slash that a second collapse would delete. */
  lemma {:induction false} CollapseLeavesNothingRedundant(s: string)
    ensures forall j :: 0 <= j < |CollapseSlashes(s)| ==> !Redundant(CollapseSlashes(s), j)
  {
    if s != [] {
      var i := |s| - 1;
      var p := s[..i];
      var c := CollapseSlashes(p);
      CollapseLeavesNothingRedundant(p);
      if !Redundant(s, i) {
        var t := c + [s[i]];
        assert CollapseSlashes(s) == t;
        forall j | 0 <= j < |t| ensures !Redundant(t, j) {
          if j < |c| {
            assert !Redundant(c, j);
          } else {
            // The new last character: if it is a slash after a slash, that
            // earlier slash sits at the start or just after a line feed.
            if i >= 1 {
              CollapseKeepsFirstAndLast(p);
            }
            if i >= 2 && s[i] == '/' && s[i - 1] == '/' {
              var q := p[..i - 1];
              CollapseKeepsFirstAndLast(q);
              assert c == CollapseSlashes(q) + [p[i - 1]];
            }
          }
        }
      } else {
        assert CollapseSlashes(s) == c;
        forall j | 0 <= j < |c| ensures !Redundant(CollapseSlashes(s), j) {
          assert !Redundant(c, j);
        }
      }
    }
  }

  lemma {:induction false} CollapseFixesUnredundant(s: string)
    requires forall i :: 0 <= i < |s| ==> !Redundant(s, i)
    ensures CollapseSlashes(s) == s
  {
    if s != [] {
      var i := |s| - 1;
      var p := s[..i];
      forall j | 0 <= j < |p| ensures !Redundant(p, j) {
        assert !Redundant(s, j);
      }
      CollapseFixesUnredundant(p);
      assert p + [s[i]] == s;
    }
  }

  /** What `wp_normalize_path` returns is a path it leaves unchanged. */
  lemma NormalizeYieldsNormalized(s: string)
    ensures IsNormalized(NormalizePath(s))
  {
    var f := ForwardSlashes(s);
    var c := CollapseSlashes(f);
    CollapseKeepsCharacters(f);
    CollapseLeavesNothingRedundant(f);
    forall j | 0 <= j < |c| ensures c[j] != '\\' {
      assert c[j] in f;
    }
    var r := UpperDriveLetter(c);
    if HasLowerDriveLetter(c) {
      forall j | 0 <= j < |r| ensures !Redundant(r, j) && r[j] != '\\' {
        assert !Redundant(c, j);
      }
    }
  }

  /** A normalized path is a fixpoint of `wp_normalize_path`. */
  lemma NormalizedIsFixpoint(s: string)
    requires IsNormalized(s)
    ensures NormalizePath(s) == s
  {
    assert ForwardSlashes(s) == s;
    CollapseFixesUnredundant(s);
  }

  /** `wp_normalize_path` is idempotent, and its fixpoints are exactly the normalized paths. */
  lemma NormalizeIdempotent(s: string)
    ensures NormalizePath(NormalizePath(s)) == NormalizePath(s)
    ensures NormalizePath(s) == s <==> IsNormalized(s)
  {
    NormalizeYieldsNormalized(s);
    NormalizedIsFixpoint(NormalizePath(s));
    if IsNormalized(s) {
      NormalizedIsFixpoint(s);
    }
  }

  /** Normalizing keeps a path non-empty and does not give it a leading separator. */
  lemma NormalizeKeepsLead(s: string)
    ensures s != [] ==> NormalizePath(s) != []
    ensures s != [] && !IsSeparator(s[0]) ==> !IsSeparator(NormalizePath(s)[0])
  {
    if s != [] {
      CollapseKeepsFirstAndLast(ForwardSlashes(s));
    }
  }

  // ---------------------------------------------------------------------------
  // PHP string primitives
  // ---------------------------------------------------------------------------

  /** `pat` occurs somewhere in `s`. */
  predicate Occurs(pat: string, s: string)
    decreases |s|
  {
    pat <= s || (s != [] && Occurs(pat, s[1..]))
  }

  /**
   * `str_replace(pat, '', s)`: every non-overlapping occurrence of `pat`,
   * found left to right, is deleted; an empty `pat` changes nothing.
   */
  function RemoveAll(s: string, pat: string): (r: string)
    ensures |r| <= |s|
    ensures !Occurs(pat, s) ==> r == s
    ensures pat == [] ==> r == s
    ensures pat != [] && Occurs(pat, s) ==> |r| <= |s| - |pat|
    decreases |s|
  {
    if pat == [] || s == [] then s
    else if pat <= s then RemoveAll(s[|pat|..], pat)
    else [s[0]] + RemoveAll(s[1..], pat)
  }

  /** `ltrim(s, '/\\')`. */
  function LTrimSeparators(s: string): (r: string)
    ensures |r| <= |s| && r == s[|s| - |r|..]
    ensures r == [] || !IsSeparator(r[0])
    ensures forall i :: 0 <= i < |s| - |r| ==> IsSeparator(s[i])
  {
    if s != [] && IsSeparator(s[0]) then LTrimSeparators(s[1..]) else s
  }

  /** `rtrim(s, '/\\')`, which is WordPress's `untrailingslashit`. */
  function RTrimSeparators(s: string): (r: string)
    ensures r <= s
    ensures r == [] || !IsSeparator(r[|r| - 1])
    ensures forall i :: |r| <= i < |s| ==> IsSeparator(s[i])
  {
    if s != [] && IsSeparator(s[|s| - 1]) then RTrimSeparators(s[..|s| - 1]) else s
  }

  /**
   * WordPress's `trailingslashit`: the trailing run of separators of `s` is
   * replaced by exactly one slash.
   */
  function TrailingSlashIt(s: string): (r: string)
    ensures r != [] && r[|r| - 1] == '/'
    ensures |r| <= |s| + 1
    ensures r[..|r| - 1] <= s
    ensures forall i :: |r| - 1 <= i < |s| ==> IsSeparator(s[i])
    ensures |r| == 1 || !IsSeparator(r[|r| - 2])
  {
    var t := RTrimSeparators(s);
    assert (t + "/")[..|t|] == t;
    t + "/"
  }

  /**
   * The relative path the disk walker derives for a file (lines 253-255): every
   * occurrence of the root is removed from the normalized absolute path, leading
   * separators are trimmed, and the rest is normalized again.
   */
  function RelativePath(root: Path, absolute: Path): Path {
    NormalizePath(LTrimSeparators(RemoveAll(absolute, root)))
  }

  /** A derived relative path is normalized and does not start with a separator. */
  lemma RelativePathShape(root: Path, absolute: Path)
    ensures IsNormalized(RelativePath(root, absolute))
    ensures RelativePath(root, absolute) == [] || !IsSeparator(RelativePath(root, absolute)[0])
  {
    var trimmed := LTrimSeparators(RemoveAll(absolute, root));
    NormalizeYieldsNormalized(trimmed);
    NormalizeKeepsLead(trimmed);
  }

  /** A path that starts with a separator still starts with a slash once normalized. */
  lemma NormalizeKeepsLeadingSlash(s: string)
    requires s != [] && IsSeparator(s[0])
    ensures NormalizePath(s) != [] && NormalizePath(s)[0] == '/'
  {
    CollapseKeepsFirstAndLast(ForwardSlashes(s));
  }

  /**
   * A stored path that starts with a separator is never the relative path the
   * disk walker derives, whatever the root and the file: the walker trims
   * leading separators, the inventory builder keeps them (line 189).
   */
  lemma LeadingSeparatorNeverDerived(root: Path, absolute: Path, meta: string)
    requires meta != [] && IsSeparator(meta[0])
    ensures RelativePath(root, absolute) != NormalizePath(meta)
  {
    RelativePathShape(root, absolute);
    NormalizeKeepsLeadingSlash(meta);
  }

  /** `str_replace('\\', '/', x . y)` for a `y` without backslashes. */
  lemma ForwardSlashesAppend(x: string, y: string)
    requires forall i :: 0 <= i < |y| ==> y[i] != '\\'
    ensures ForwardSlashes(x + y) == ForwardSlashes(x) + y
  {
    var l := ForwardSlashes(x + y);
    var r := ForwardSlashes(x) + y;
    forall i | 0 <= i < |l| ensures l[i] == r[i] {
      if i >= |x| {
        assert (x + y)[i] == y[i - |x|];
      }
    }
  }

  /** Collapsing a string extended by characters none of which is redundant in place appends them unchanged. */
  lemma {:induction false} CollapseAppend(x: string, y: string)
    requires forall i :: |x| <= i < |x + y| ==> !Redundant(x + y, i)
    ensures CollapseSlashes(x + y) == CollapseSlashes(x) + y
    decreases |y|
  {
    if y != [] {
      var s := x + y;
      var n := |y| - 1;
      var y' := y[..n];
      assert s[..|s| - 1] == x + y';
      forall i | |x| <= i < |x + y'| ensures !Redundant(x + y', i) {
        assert !Redundant(s, i);
        assert (x + y')[i] == s[i];
        if i >= 1 {
          assert (x + y')[i - 1] == s[i - 1];
        }
        if i >= 2 {
          assert (x + y')[i - 2] == s[i - 2];
        }
      }
      CollapseAppend(x, y');
      assert !Redundant(s, |s| - 1);
      assert CollapseSlashes(s) == CollapseSlashes(x + y') + [y[n]];
      assert CollapseSlashes(x) + y' + [y[n]] == CollapseSlashes(x) + y;
    } else {
      assert x + y == x;
    }
  }

  /**
   * Collapsing a string that ends in a character other than a slash or a line
   * feed, followed by a run of slashes, leaves one slash of that run.
   */
  lemma {:induction false} CollapseTrailingRun(x: string, m: nat)
    requires x != [] && x[|x| - 1] != '/' && x[|x| - 1] != '\n'
    ensures CollapseSlashes(x + seq(m + 1, _ => '/')) == CollapseSlashes(x) + "/"
    decreases m
  {
    if m == 0 {
      assert seq(1, _ => '/') == "/";
      CollapseAppend(x, "/");
    } else {
      var s := x + seq(m + 1, _ => '/');
      assert s[..|s| - 1] == x + seq(m, _ => '/');
      assert Redundant(s, |s| - 1);
      CollapseTrailingRun(x, m - 1);
    }
  }

  /** Upper-casing the drive letter looks only at the first two characters. */
  lemma UpperDriveAppend(c: string, z: string)
    requires c != [] && (|c| >= 2 || (z != [] && z[0] != ':'))
    ensures UpperDriveLetter(c + z) == UpperDriveLetter(c) + z
  {
    if HasLowerDriveLetter(c + z) {
      assert (c + z)[1..] == c[1..] + z;
    }
  }

  /** No slash of `/` + `rel` is redundant after a string that does not end in a slash. */
  lemma JoinNotRedundant(f: string, rel: Path)
    requires f != [] && f[|f| - 1] != '/'
    requires IsNormalized(rel) && (rel == [] || !IsSeparator(rel[0]))
    ensures forall i :: |f| <= i < |f + ("/" + rel)| ==> !Redundant(f + ("/" + rel), i)
  {
    var s := f + ("/" + rel);
    var n := |f|;
    forall i | n <= i < |s| ensures !Redundant(s, i) {
      if i >= n + 3 {
        assert s[i] == rel[i - n - 1] && s[i - 1] == rel[i - n - 2] && s[i - 2] == rel[i - n - 3];
        assert !Redundant(rel, i - n - 1);
      }
    }
  }

  /**
   * The absolute path the inventory builder computes for a normalized stored
   * path without a leading separator, under any root that is not all
   * separators, is the normalized root without its trailing separators, one
   * slash and the stored path (line 190).
   */
  lemma AbsolutePathJoin(root: string, rel: Path)
    requires RTrimSeparators(root) != []
    requires IsNormalized(rel) && (rel == [] || !IsSeparator(rel[0]))
    ensures NormalizePath(TrailingSlashIt(root) + rel) == NormalizePath(RTrimSeparators(root)) + "/" + rel
  {
    var t := RTrimSeparators(root);
    assert TrailingSlashIt(root) + rel == t + ("/" + rel);
    NormalizeJoin(t, rel);
  }

  /** Normalizing a path, a slash and a normalized path normalizes only the first part. */
  lemma NormalizeJoin(t: string, rel: Path)
    requires t != [] && !IsSeparator(t[|t| - 1])
    requires IsNormalized(rel) && (rel == [] || !IsSeparator(rel[0]))
    ensures NormalizePath(t + ("/" + rel)) == NormalizePath(t) + "/" + rel
  {
    var z := "/" + rel;
    ForwardSlashesJoin(t, rel);
    var f := ForwardSlashes(t);
    var c := CollapseSlashes(f);
    CollapseJoin(f, rel);
    CollapseKeepsFirstAndLast(f);
    UpperDriveAppend(c, z);
    assert NormalizePath(t + z) == UpperDriveLetter(c + z);
    assert NormalizePath(t) + "/" + rel == UpperDriveLetter(c) + z;
  }

  /** A slash and a normalized path hold no backslash for `wp_normalize_path` to turn. */
  lemma ForwardSlashesJoin(t: string, rel: Path)
    requires IsNormalized(rel)
    ensures ForwardSlashes(t + ("/" + rel)) == ForwardSlashes(t) + ("/" + rel)
  {
    var z := "/" + rel;
    forall i | 0 <= i < |z| ensures z[i] != '\\' {
      if i > 0 {
        assert z[i] == rel[i - 1];
      }
    }
    ForwardSlashesAppend(t, z);
  }

  /** Collapsing a path, a slash and a normalized path collapses only the first part. */
  lemma CollapseJoin(f: string, rel: Path)
    requires f != [] && f[|f| - 1] != '/'
    requires IsNormalized(rel) && (rel == [] || !IsSeparator(rel[0]))
    ensures CollapseSlashes(f + ("/" + rel)) == CollapseSlashes(f) + ("/" + rel)
  {
    JoinNotRedundant(f, rel);
    CollapseAppend(f, "/" + rel);
  }

  /**
   * A root ending in separators normalizes to its separator-free part,
   * normalized, plus one slash, unless that part ends in a line feed.
   */
  lemma NormalizeTrailingSeparators(root: string)
    requires RTrimSeparators(root) != []
    requires RTrimSeparators(root)[|RTrimSeparators(root)| - 1] != '\n'
    ensures NormalizePath(root) == if |RTrimSeparators(root)| == |root|
      then NormalizePath(RTrimSeparators(root))
      else NormalizePath(RTrimSeparators(root)) + "/"
  {
    var t := RTrimSeparators(root);
    if |t| < |root| {
      var m := |root| - |t| - 1;
      var f := ForwardSlashes(t);
      var run := seq(m + 1, _ => '/');
      assert ForwardSlashes(root) == f + run by {
        var l := ForwardSlashes(root);
        forall i | 0 <= i < |l| ensures l[i] == (f + run)[i] {
          if i < |t| {
            assert root[i] == t[i];
          } else {
            assert IsSeparator(root[i]);
          }
        }
      }
      CollapseTrailingRun(f, m);
      CollapseKeepsFirstAndLast(f);
      UpperDriveAppend(CollapseSlashes(f), "/");
    } else {
      assert t == root;
    }
  }

  /** `str_replace` on a path that starts with the root and has no later occurrence of it. */
  lemma RemoveLeadingOnly(root: string, tail: string)
    requires root != [] && !Occurs(root, tail)
    ensures RemoveAll(root + tail, root) == tail
  {
  }

  lemma LTrimAfterSlash(rel: string)
    requires rel != [] && !IsSeparator(rel[0])
    ensures LTrimSeparators("/" + rel) == rel
  {
  }

  /**
   * The relative path the disk walker derives from the root, a slash and a
   * stored relative path is that stored path, provided the root does not occur
   * again after it (`str_replace` would delete that occurrence too).
   */
  lemma RelativePathRoundTrip(root: Path, rel: Path)
    requires root != []
    requires IsNormalized(rel) && rel != [] && !IsSeparator(rel[0])
    requires !Occurs(root, "/" + rel)
    ensures RelativePath(root, root + "/" + rel) == rel
  {
    assert root + "/" + rel == root + ("/" + rel);
    RemoveLeadingOnly(root, "/" + rel);
    LTrimAfterSlash(rel);
    NormalizedIsFixpoint(rel);
  }

  /**
   * The same round trip when the normalized root itself ends in a slash
   * (a configured root with a trailing separator). What follows the removed
   * root is the stored path itself, so that is where the root must not recur.
   */
  lemma RelativePathRoundTripSlashRoot(root: Path, rel: Path)
    requires root != []
    requires IsNormalized(rel) && rel != [] && !IsSeparator(rel[0])
    requires !Occurs(root + "/", rel)
    ensures RelativePath(root + "/", root + "/" + rel) == rel
  {
    assert ("/" + rel)[1..] == rel;
    RemoveLeadingOnly(root + "/", rel);
    NormalizedIsFixpoint(rel);
  }

  /**
   * `str_replace` deletes the root wherever it occurs: when the root (two
   * characters or more) occurs again after the leading one, the walker derives
   * a shorter path than the stored one, so it never recovers it.
   */
  lemma RecurringRootBreaksRoundTrip(root: Path, rel: Path)
    requires |root| >= 2 && Occurs(root, "/" + rel)
    ensures |RelativePath(root, root + "/" + rel)| < |rel|
  {
    var tail := "/" + rel;
    assert root + "/" + rel == root + tail;
    assert (root + tail)[|root|..] == tail;
    assert RemoveAll(root + tail, root) == RemoveAll(tail, root);
  }

  /**
   * For a root of two characters or more, the walker derives the stored path
   * back from root + `/` + stored path exactly when the root does not occur
   * again after the leading one.
   */
  lemma RelativePathRoundTripExactly(root: Path, rel: Path)
    requires |root| >= 2
    requires IsNormalized(rel) && rel != [] && !IsSeparator(rel[0])
    ensures RelativePath(root, root + "/" + rel) == rel <==> !Occurs(root, "/" + rel)
  {
    if Occurs(root, "/" + rel) {
      RecurringRootBreaksRoundTrip(root, rel);
    } else {
      RelativePathRoundTrip(root, rel);
    }
  }

  /**
   * For a root ending in a slash, `str_replace` deletes the root wherever it
   * recurs in the stored path, so the derived path is strictly shorter.
   */
  lemma RecurringSlashRootBreaksRoundTrip(root: Path, rel: Path)
    requires root != [] && Occurs(root + "/", rel)
    ensures |RelativePath(root + "/", root + "/" + rel)| < |rel|
  {
    var r := root + "/";
    assert (r + rel)[|r|..] == rel;
    assert RemoveAll(r + rel, r) == RemoveAll(rel, r);
  }

  /**
   * For a root ending in a slash, the walker derives the stored path back from
   * root + stored path exactly when the root does not recur in the stored path.
   */
  lemma RelativePathRoundTripSlashRootExactly(root: Path, rel: Path)
    requires root != []
    requires IsNormalized(rel) && rel != [] && !IsSeparator(rel[0])
    ensures RelativePath(root + "/", root + "/" + rel) == rel <==> !Occurs(root + "/", rel)
  {
    if Occurs(root + "/", rel) {
      RecurringSlashRootBreaksRoundTrip(root, rel);
    } else {
      RelativePathRoundTripSlashRoot(root, rel);
    }
  }
}

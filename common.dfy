/** Values shared by the inventory builder and the disk walker. */
module Common {

  /** A value that may be absent: a failed `filesize`, a failed `getSize`. */
  datatype Option<T> = None | Some(value: T)

  /**
   * The two settings of the inspector object: the size from which an
   * attachment counts as large, and the length cap of the orphan list.
   */
  datatype Config = Config(largeFileThreshold: nat, maxOrphanFilesList: nat)

  /** The values the inspector's field initialiser and constructor set: 5 MiB and 300. */
  const DefaultConfig: Config := Config(5 * 1024 * 1024, 300)

  /** No element occurs twice. */
  predicate NoDuplicates<T(==)>(s: seq<T>) {
    forall i, j :: 0 <= i < j < |s| ==> s[i] != s[j]
  }

  /** The values `pick` yields for the elements of `s`, in order; elements it maps to `None` are dropped. */
  function FilterMap<T, U>(s: seq<T>, pick: T -> Option<U>): (r: seq<U>)
    ensures |r| <= |s|
  {
    if s == [] then []
    else
      FilterMap(s[..|s| - 1], pick) + match pick(s[|s| - 1]) case Some(u) => [u] case None => []
  }

  /** A value is in the result exactly when `pick` yields it for some element. */
  lemma {:induction false} FilterMapMembers<T, U>(s: seq<T>, pick: T -> Option<U>, u: U)
    ensures u in FilterMap(s, pick) <==> exists k :: 0 <= k < |s| && pick(s[k]) == Some(u)
  {
    if s != [] {
      var n := |s| - 1;
      var front := s[..n];
      FilterMapMembers(front, pick, u);
      if u in FilterMap(front, pick) {
        var k :| 0 <= k < |front| && pick(front[k]) == Some(u);
        assert s[k] == front[k];
      }
      if exists k :: 0 <= k < |s| && pick(s[k]) == Some(u) {
        var k :| 0 <= k < |s| && pick(s[k]) == Some(u);
        if k < n {
          assert front[k] == s[k];
        }
      }
    }
  }
}

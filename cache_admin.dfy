/**
 * clearCache and removeDir: the recursive wipe of the cache directory
 * and its re-creation. The wipe walks the tree with glob's star
 * pattern, which never lists a dot-named entry, so whatever lies behind
 * a dot-named entry survives, and so do the directories holding it
 * (rmdir refuses a directory that is not empty).
 */
module CacheAdmin {
  import opened Php
  import opened Filesystem
  import opened EasyThumbnailImage

  /** The directory k holds an entry that lies hidden below d. */
  ghost predicate HoldsHidden(disk: Disk, d: string, k: string) {
    exists j :: j in disk && Under(k, j) && HiddenBelow(d, j)
  }

  /** Something hidden lies below d. */
  ghost predicate HasHidden(disk: Disk, d: string) {
    exists j :: j in disk && HiddenBelow(d, j)
  }

  /** The disk as removeDir(d) leaves it: everything outside d's tree,
      everything hidden below d, and the directories of the tree that
      still hold something hidden; the rest of the tree is gone. */
  ghost function Swept(disk: Disk, d: string): (r: Disk)
    requires WellFormed(disk)
    ensures WellFormed(r)
    ensures forall k :: k in r ==> k in disk && r[k] == disk[k]
    ensures forall k :: k in disk && (!InTree(d, k) || HiddenBelow(d, k)) ==> k in r
    ensures forall k :: k in r && InTree(d, k) && !HiddenBelow(d, k) ==> r[k].Dir? && HoldsHidden(r, d, k)
  {
    SweptWellFormed(disk, d);
    SweptKeepsHolders(disk, d);
    map k | k in disk && (!InTree(d, k) || HiddenBelow(d, k) || HoldsHidden(disk, d, k)) :: disk[k]
  }

  lemma SweptWellFormed(disk: Disk, d: string)
    requires WellFormed(disk)
    ensures WellFormed(map k | k in disk && (!InTree(d, k) || HiddenBelow(d, k) || HoldsHidden(disk, d, k)) :: disk[k])
  {
    var r := map k | k in disk && (!InTree(d, k) || HiddenBelow(d, k) || HoldsHidden(disk, d, k)) :: disk[k];
    forall k, i | k in r && 0 < i < |k| && k[i] == SEP
      ensures IsDir(r, k[..i])
    {
      var a := k[..i];
      assert Under(a, k);
      if InTree(d, a) {
        UnderTransitive(d, a, k);
        if HiddenBelow(d, k) {
          assert HoldsHidden(disk, d, a);
        } else {
          var j :| j in disk && Under(k, j) && HiddenBelow(d, j);
          UnderTransitive(a, k, j);
          assert HoldsHidden(disk, d, a);
        }
      }
    }
  }

  lemma SweptKeepsHolders(disk: Disk, d: string)
    requires WellFormed(disk)
    ensures var r := map k | k in disk && (!InTree(d, k) || HiddenBelow(d, k) || HoldsHidden(disk, d, k)) :: disk[k];
      forall k :: k in r && InTree(d, k) && !HiddenBelow(d, k) ==> r[k].Dir? && HoldsHidden(r, d, k)
  {
    var r := map k | k in disk && (!InTree(d, k) || HiddenBelow(d, k) || HoldsHidden(disk, d, k)) :: disk[k];
    forall k | k in r && InTree(d, k) && !HiddenBelow(d, k)
      ensures r[k].Dir? && HoldsHidden(r, d, k)
    {
      var j :| j in disk && Under(k, j) && HiddenBelow(d, j);
      DirAbove(disk, k, j);
      assert j in r;
    }
  }

  /** The entries of d's tree, and d: what removeDir's recursion consumes. */
  function Subtree(disk: Disk, d: string): set<string> {
    (set k | k in disk && Under(d, k)) + {d}
  }

  /** Below a listed child, being hidden from the parent and from the child are the same. */
  lemma HiddenThroughChild(d: string, c: string, k: string)
    requires Listed(d, c) && InTree(c, k)
    ensures HiddenBelow(d, k) <==> HiddenBelow(c, k)
  {
    if HiddenBelow(d, k) {
      var i :| |d| <= i < |k| - 1 && k[i] == SEP && k[i + 1] == '.';
      assert k[..|c|] == c;
      assert k != c;
    }
    if HiddenBelow(c, k) {
      var i :| |c| <= i < |k| - 1 && k[i] == SEP && k[i + 1] == '.';
      assert |d| <= i;
    }
  }

  /** Every entry of d's tree that is not hidden lies in the tree of some
      child that glob lists. */
  lemma ListedChildOnTheWay(disk: Disk, d: string, k: string) returns (c: string)
    requires WellFormed(disk) && k in disk && Under(d, k) && !HiddenBelow(d, k)
    ensures c in Glob(disk, d) && InTree(c, k)
  {
    var m := NextSeparator(k, |d| + 1);
    c := k[..m];
    assert k[|d| + 1] != SEP;
    assert m > |d| + 1;
    assert c[..|d|] == k[..|d|] == d;
    assert c[|d|] == k[|d|] == SEP;
    assert c[|d| + 1] == k[|d| + 1];
    assert c[|d| + 1..] == k[|d| + 1..m];
    assert Listed(d, c);
    if m < |k| {
      assert Under(c, k);
      assert IsDir(disk, k[..m]);
    } else {
      assert c == k;
    }
  }

  /** The first separator of s at or after position i, or |s|. */
  function NextSeparator(s: string, i: nat): (m: nat)
    requires i <= |s|
    ensures i <= m <= |s| && (m < |s| ==> s[m] == SEP)
    ensures SEP !in s[i..m]
    decreases |s| - i
  {
    if i == |s| || s[i] == SEP then i
    else
      var m := NextSeparator(s, i + 1);
      assert s[i..m] == [s[i]] + s[i + 1..m];
      m
  }

  /** A witness for a child is a witness for the parent. */
  lemma HoldsHiddenThroughChild(disk: Disk, d: string, c: string, k: string)
    requires Listed(d, c) && InTree(c, k) && HoldsHidden(disk, c, k)
    ensures HoldsHidden(disk, d, k)
  {
    var j :| j in disk && Under(k, j) && HiddenBelow(c, j);
    UnderTransitive(c, k, j);
    HiddenThroughChild(d, c, j);
  }

  /** removeDir($path): unlink a file; otherwise remove, one by one, what
      glob lists inside it, then rmdir it. Failures are ignored. */
  method RemoveDir(fs: FileSystem, path: string)
    requires WellFormed(fs.entries)
    modifies fs
    ensures WellFormed(fs.entries)
    ensures fs.entries == Swept(old(fs.entries), path)
    decreases Subtree(fs.entries, path)
  {
    ghost var E0 := fs.entries;
    if IsFile(fs.entries, path) {
      var _ := fs.Unlink(path);
      SweptFile(E0, path);
    } else {
      var listed := Glob(fs.entries, path);
      var todo := listed;
      while todo != {}
        invariant todo <= listed
        invariant WellFormed(fs.entries)
        invariant forall k :: k in fs.entries ==> k in E0 && fs.entries[k] == E0[k]
        invariant forall k :: k in E0 && !InsideAny(listed - todo, k) ==> k in fs.entries
        invariant forall k :: k in E0 && HiddenBelow(path, k) ==> k in fs.entries
        invariant forall c, k :: c in listed - todo && k in fs.entries && InTree(c, k) && !HiddenBelow(c, k) ==> HoldsHidden(E0, c, k)
        decreases todo
      {
        var c :| c in todo;
        ghost var E1 := fs.entries;
        SubtreeShrinks(E0, E1, path, c);
        RemoveDir(fs, c);
        forall k | k in E0 && HiddenBelow(path, k)
          ensures k in fs.entries
        {
          if InTree(c, k) {
            HiddenThroughChild(path, c, k);
          }
        }
        forall k | k in fs.entries && InTree(c, k) && !HiddenBelow(c, k)
          ensures HoldsHidden(E0, c, k)
        {
          var j :| j in fs.entries && Under(k, j) && HiddenBelow(c, j);
          assert j in E0;
        }
        todo := todo - {c};
      }
      ghost var E3 := fs.entries;
      var _ := fs.Rmdir(path);
      SweptDir(E0, E3, fs.entries, path, listed);
    }
  }

  ghost predicate InsideAny(roots: set<string>, k: string) {
    exists c :: c in roots && InTree(c, k)
  }

  lemma SubtreeShrinks(E0: Disk, E1: Disk, d: string, c: string)
    requires forall k :: k in E1 ==> k in E0
    requires c in Glob(E0, d)
    ensures Subtree(E1, c) < Subtree(E0, d)
  {
    forall k | k in Subtree(E1, c)
      ensures k in Subtree(E0, d)
    {
      if k != c {
        UnderTransitive(d, c, k);
      }
    }
    assert d !in Subtree(E1, c);
  }

  lemma SweptFile(disk: Disk, p: string)
    requires WellFormed(disk) && IsFile(disk, p)
    ensures Swept(disk, p) == Unlinked(disk, p)
  {
    forall k | k in disk && Under(p, k)
      ensures false
    {
      DirAbove(disk, p, k);
    }
    assert Swept(disk, p).Keys == Unlinked(disk, p).Keys;
  }

  /** The last step of removeDir on a directory: after the listed children
      are swept, rmdir leaves exactly Swept(E0, d). */
  lemma SweptDir(E0: Disk, E3: Disk, E4: Disk, d: string, listed: set<string>)
    requires WellFormed(E0) && WellFormed(E3) && WellFormed(E4)
    requires !IsFile(E0, d) && listed == Glob(E0, d)
    requires forall k :: k in E3 ==> k in E0 && E3[k] == E0[k]
    requires forall k :: k in E0 && !InsideAny(listed, k) ==> k in E3
    requires forall k :: k in E0 && HiddenBelow(d, k) ==> k in E3
    requires forall c, k :: c in listed && k in E3 && InTree(c, k) && !HiddenBelow(c, k) ==> HoldsHidden(E0, c, k)
    requires E4 == if IsEmptyDir(E3, d) then RemovedDir(E3, d) else E3
    ensures E4 == Swept(E0, d)
  {
    var S := Swept(E0, d);
    // every survivor of the tree that is not hidden holds something hidden
    forall k | k in E3 && Under(d, k) && !HiddenBelow(d, k)
      ensures HoldsHidden(E0, d, k)
    {
      var c := ListedChildOnTheWay(E0, d, k);
      HiddenThroughChild(d, c, k);
      HoldsHiddenThroughChild(E0, d, c, k);
    }
    forall k | k in E4
      ensures k in S
    {
      if k == d {
        assert !IsEmptyDir(E3, d);
        var j :| j in E3 && Under(d, j);
        if !HiddenBelow(d, j) {
          var w :| w in E0 && Under(j, w) && HiddenBelow(d, w);
          UnderTransitive(d, j, w);
        }
        assert HoldsHidden(E0, d, d);
      }
    }
    forall k | k in S
      ensures k in E4
    {
      if !InTree(d, k) {
        if InsideAny(listed, k) {
          var c :| c in listed && InTree(c, k);
          if k != c {
            UnderTransitive(d, c, k);
          }
        }
      } else if !HiddenBelow(d, k) {
        var j :| j in E0 && Under(k, j) && HiddenBelow(d, j);
        assert j in E4;
        DirAbove(E4, k, j);
      }
    }
    assert E4.Keys == S.Keys;
  }

  /** clearCache: wipe the cache directory, then recreate it; the result
      is whether that final mkdir succeeded. */
  method ClearCache(fs: FileSystem, cfg: Config, now: int) returns (ok: bool)
    requires WellFormed(fs.entries)
    modifies fs
    ensures WellFormed(fs.entries)
    ensures var swept := Swept(old(fs.entries), cfg.cachePath);
      ok == CanMkdir(swept, cfg.cachePath) && fs.entries == (if ok then MadeDir(swept, cfg.cachePath, now) else swept)
  {
    RemoveDir(fs, cfg.cachePath);
    ok := fs.Mkdir(cfg.cachePath, now);
  }

  /** What clearCache achieves: below the cache directory only hidden
      entries and the directories holding them remain; the directory is
      recreated exactly when nothing hidden was there and no regular file
      stands above it, and it is then present and empty. */
  lemma ClearCacheOutcome(disk: Disk, cacheDir: string, now: int)
    requires WellFormed(disk)
    ensures var swept := Swept(disk, cacheDir);
      && (forall k :: k in swept && Under(cacheDir, k) ==> HiddenBelow(cacheDir, k) || (swept[k].Dir? && HoldsHidden(swept, cacheDir, k)))
      && (CanMkdir(swept, cacheDir) <==>
            && Canonical(cacheDir)
            && !HasHidden(disk, cacheDir)
            && forall i :: 0 < i < |cacheDir| && cacheDir[i] == SEP ==> !IsFile(disk, cacheDir[..i]))
      && (CanMkdir(swept, cacheDir) ==>
            var cleared := MadeDir(swept, cacheDir, now);
            IsDir(cleared, cacheDir) && forall k :: k in cleared ==> !Under(cacheDir, k))
  {
    var swept := Swept(disk, cacheDir);
    forall i | 0 < i < |cacheDir| && cacheDir[i] == SEP
      ensures IsFile(disk, cacheDir[..i]) == IsFile(swept, cacheDir[..i])
    {
      assert !InTree(cacheDir, cacheDir[..i]);
    }
    if Canonical(cacheDir) {
      if HasHidden(disk, cacheDir) {
        var j :| j in disk && HiddenBelow(cacheDir, j);
        DirAbove(disk, cacheDir, j);
        assert HoldsHidden(disk, cacheDir, cacheDir);
        assert cacheDir in swept;
      }
    }
    if CanMkdir(swept, cacheDir) {
      var cleared := MadeDir(swept, cacheDir, now);
      forall k | k in cleared && Under(cacheDir, k)
        ensures false
      {
        if k in swept {
          DirAbove(swept, cacheDir, k);
        }
      }
    }
  }
}

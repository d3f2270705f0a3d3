/**
 * The local filesystem as the thumbnail helper sees it: a map from
 * canonical path to entry, and the PHP calls that read and change it
 * (`is_file`, `is_dir`, `file_exists`, `filemtime`, `unlink`, recursive
 * `mkdir`, `rmdir`, `glob` of a directory's star pattern, and writing a file).
 * Each changing call is a pure function on the map (with the condition
 * under which it succeeds) and a method of class FileSystem that applies
 * it to the map the object holds; a failed call changes nothing and
 * returns false, which is what PHP does with these calls.
 */
module Filesystem {
  import opened Php

  /** A filesystem entry with its modification time (seconds). */
  datatype Entry = File(mtime: int) | Dir(mtime: int)

  type Disk = map<string, Entry>

  /** A canonical path, as FileHelper::normalizePath produces: not empty,
      no empty component, no trailing separator. */
  predicate Canonical(p: string) {
    && |p| > 0
    && p[|p| - 1] != SEP
    && forall i :: 0 <= i < |p| - 1 && p[i] == SEP ==> p[i + 1] != SEP
  }

  /** k lies strictly inside the directory path d. */
  predicate Under(d: string, k: string) {
    |d| < |k| && k[..|d|] == d && k[|d|] == SEP
  }

  /** k is d itself or lies inside it. */
  predicate InTree(d: string, k: string) {
    k == d || Under(d, k)
  }

  /** is_file($p). */
  predicate IsFile(disk: Disk, p: string) {
    p in disk && disk[p].File?
  }

  /** is_dir($p). */
  predicate IsDir(disk: Disk, p: string) {
    p in disk && disk[p].Dir?
  }

  /** The directories a path names above itself: every proper prefix
      that stops just before a separator. */
  function DirsAbove(p: string): set<string> {
    set i | 0 < i < |p| && p[i] == SEP :: p[..i]
  }

  /** A consistent disk: every path is canonical and every directory
      named above an entry exists as a directory. */
  predicate WellFormed(disk: Disk) {
    && (forall k :: k in disk ==> Canonical(k))
    && (forall k, i :: k in disk && 0 < i < |k| && k[i] == SEP ==> IsDir(disk, k[..i]))
  }

  lemma DirAbove(disk: Disk, d: string, k: string)
    requires WellFormed(disk) && k in disk && Under(d, k) && d != ""
    ensures IsDir(disk, d)
  {
    assert k[..|d|] == d;
  }

  lemma UnderTransitive(a: string, b: string, c: string)
    requires InTree(a, b) && Under(b, c)
    ensures Under(a, c)
  {
    if b != a {
      assert c[..|a|] == c[..|b|][..|a|];
    }
  }

  lemma UnderAppend(d: string, tail: string)
    requires |tail| > 0 && tail[0] == SEP
    ensures Under(d, d + tail)
  {
    assert (d + tail)[..|d|] == d;
  }

  lemma CanonicalDirAbove(p: string, i: int)
    requires Canonical(p) && 0 < i < |p| && p[i] == SEP
    ensures Canonical(p[..i])
  {
    assert p[i - 1] != SEP;
  }

  // ----- unlink($p): removes a regular file, fails on anything else

  function Unlinked(disk: Disk, p: string): (d: Disk)
    requires WellFormed(disk) && IsFile(disk, p)
    ensures WellFormed(d)
    ensures d.Keys == disk.Keys - {p}
    ensures forall k :: k in d ==> d[k] == disk[k]
  {
    disk - {p}
  }

  // ----- mkdir($p, 0755, true): creates p and every missing directory
  // above it; fails when p exists or a regular file stands above it

  predicate CanMkdir(disk: Disk, p: string) {
    && Canonical(p)
    && p !in disk
    && forall i :: 0 < i < |p| && p[i] == SEP ==> !IsFile(disk, p[..i])
  }

  function MadeDir(disk: Disk, p: string, now: int): (d: Disk)
    requires WellFormed(disk) && CanMkdir(disk, p)
    ensures WellFormed(d)
    ensures IsDir(d, p)
    ensures forall k :: k in disk ==> k in d && d[k] == disk[k]
    ensures forall k :: k in d && k !in disk ==> (k == p || k in DirsAbove(p)) && d[k] == Dir(now)
  {
    MadeDirWellFormed(disk, p, now);
    disk + map a | a in DirsAbove(p) + {p} && a !in disk :: Dir(now)
  }

  lemma MadeDirWellFormed(disk: Disk, p: string, now: int)
    requires WellFormed(disk) && CanMkdir(disk, p)
    ensures WellFormed(disk + map a | a in DirsAbove(p) + {p} && a !in disk :: Dir(now))
  {
    var d := disk + map a | a in DirsAbove(p) + {p} && a !in disk :: Dir(now);
    forall k | k in d
      ensures Canonical(k)
    {
      if k !in disk && k != p {
        var i :| 0 < i < |p| && p[i] == SEP && k == p[..i];
        CanonicalDirAbove(p, i);
      }
    }
    forall k, j | k in d && 0 < j < |k| && k[j] == SEP
      ensures IsDir(d, k[..j])
    {
      if k !in disk {
        var up := k[..j];
        if k == p {
          assert up in DirsAbove(p);
        } else {
          var i :| 0 < i < |p| && p[i] == SEP && k == p[..i];
          assert up == p[..j] && p[j] == SEP;
          assert up in DirsAbove(p);
        }
      }
    }
  }

  // ----- writing a file at p (the image library's save): needs every
  // directory above p, and p must not be a directory

  predicate CanWrite(disk: Disk, p: string) {
    && Canonical(p)
    && !IsDir(disk, p)
    && forall i :: 0 < i < |p| && p[i] == SEP ==> IsDir(disk, p[..i])
  }

  function Written(disk: Disk, p: string, now: int): (d: Disk)
    requires WellFormed(disk) && CanWrite(disk, p)
    ensures WellFormed(d)
    ensures d.Keys == disk.Keys + {p} && d[p] == File(now)
    ensures forall k :: k in disk && k != p ==> d[k] == disk[k]
  {
    disk[p := File(now)]
  }

  /** A file can be written directly inside an existing directory, under
      any name without separators that is not a directory. */
  lemma WritableInsideDir(disk: Disk, d: string, name: string)
    requires WellFormed(disk) && IsDir(disk, d)
    requires |name| > 0 && SEP !in name && !IsDir(disk, d + [SEP] + name)
    ensures CanWrite(disk, d + [SEP] + name)
  {
    var p := d + [SEP] + name;
    assert Canonical(d);
    assert p[|p| - 1] == name[|name| - 1];
    forall i | 0 <= i < |p| - 1 && p[i] == SEP
      ensures p[i + 1] != SEP
    {
      if i < |d| - 1 {
        assert p[i] == d[i] && p[i + 1] == d[i + 1];
      } else if i == |d| {
        assert p[i + 1] == name[0];
      }
    }
    forall i | 0 < i < |p| && p[i] == SEP
      ensures IsDir(disk, p[..i])
    {
      if i < |d| {
        assert d[i] == p[i] && p[..i] == d[..i];
      } else if i == |d| {
        assert p[..i] == d;
      }
    }
  }

  // ----- rmdir($p): removes an empty directory, fails on anything else

  predicate IsEmptyDir(disk: Disk, p: string) {
    IsDir(disk, p) && forall k :: k in disk ==> !Under(p, k)
  }

  function RemovedDir(disk: Disk, p: string): (d: Disk)
    requires WellFormed(disk) && IsEmptyDir(disk, p)
    ensures WellFormed(d)
    ensures d.Keys == disk.Keys - {p}
    ensures forall k :: k in d ==> d[k] == disk[k]
  {
    assert forall k, i :: k in disk && 0 < i < |k| && k[i] == SEP ==> Under(k[..i], k);
    disk - {p}
  }

  // ----- glob: the entries matching the pattern <d>/ followed by a star

  /** Whether glob lists k for the pattern made of d, a separator and a
      star: k names an entry directly inside d whose name does not start
      with a dot (the star skips dot-files). */
  predicate Listed(d: string, k: string) {
    && Under(d, k)
    && |k| > |d| + 1
    && k[|d| + 1] != '.'
    && SEP !in k[|d| + 1..]
  }

  function Glob(disk: Disk, d: string): (r: set<string>)
    ensures forall k :: k in r <==> k in disk && Listed(d, k)
  {
    set k | k in disk && Listed(d, k)
  }

  /** k lies inside d on a path that goes through a dot-named entry,
      so no walk by star patterns from d ever reaches it. */
  ghost predicate HiddenBelow(d: string, k: string) {
    Under(d, k) && exists i :: |d| <= i < |k| - 1 && k[i] == SEP && k[i + 1] == '.'
  }

  /** The host filesystem, held as a map the methods update in place. */
  class FileSystem {
    var entries: Disk

    constructor (disk: Disk)
      requires WellFormed(disk)
      ensures entries == disk
    {
      entries := disk;
    }

    method Unlink(p: string) returns (ok: bool)
      requires WellFormed(entries)
      modifies this
      ensures WellFormed(entries)
      ensures ok == IsFile(old(entries), p)
      ensures entries == if ok then Unlinked(old(entries), p) else old(entries)
    {
      ok := IsFile(entries, p);
      if ok {
        entries := Unlinked(entries, p);
      }
    }

    method Mkdir(p: string, now: int) returns (ok: bool)
      requires WellFormed(entries)
      modifies this
      ensures WellFormed(entries)
      ensures ok == CanMkdir(old(entries), p)
      ensures entries == if ok then MadeDir(old(entries), p, now) else old(entries)
    {
      ok := CanMkdir(entries, p);
      if ok {
        entries := MadeDir(entries, p, now);
      }
    }

    method Save(p: string, now: int) returns (ok: bool)
      requires WellFormed(entries)
      modifies this
      ensures WellFormed(entries)
      ensures ok == CanWrite(old(entries), p)
      ensures entries == if ok then Written(old(entries), p, now) else old(entries)
    {
      ok := CanWrite(entries, p);
      if ok {
        entries := Written(entries, p, now);
      }
    }

    method Rmdir(p: string) returns (ok: bool)
      requires WellFormed(entries)
      modifies this
      ensures WellFormed(entries)
      ensures ok == IsEmptyDir(old(entries), p)
      ensures entries == if ok then RemovedDir(old(entries), p) else old(entries)
    {
      ok := IsEmptyDir(entries, p);
      if ok {
        entries := RemovedDir(entries, p);
      }
    }
  }
}

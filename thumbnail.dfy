/**
 * The thumbnail cache of EasyThumbnailImage: where a thumbnail of a
 * source image lives on disk, when an existing one is served or thrown
 * away and regenerated, how its path becomes a public URL, and how
 * errors become the text shown in place of an `<img>` tag.
 */
module EasyThumbnailImage {
  import opened Wrappers
  import opened Php
  import opened Filesystem

  /** Default save quality when the caller passes none. */
  const QUALITY: int := 50
  /** The image library's cropping resize mode, the default mode of every call. */
  const THUMBNAIL_OUTBOUND: string := "outbound"
  /** Code of the exception the image library raises when it cannot
      write the thumbnail file (it passes no code, so PHP's default 0). */
  const SAVE_FAILED: int := 0

  predicate IsLowerHex(c: char) {
    '0' <= c <= '9' || 'a' <= c <= 'f'
  }

  /** What PHP's md5() returns: 32 lower-case hexadecimal characters. */
  type Md5Digest = s: string | |s| == 32 && forall i :: 0 <= i < |s| ==> IsLowerHex(s[i])
    witness seq(32, _ => '0')

  /** Resolved configuration: the cache directory (`@webroot/` plus the
      cache alias), its public URL (`@web/` plus the alias) and the
      expiry in seconds (0: never expire). */
  datatype Config = Config(cachePath: string, cacheUrl: string, cacheExpire: int)

  /** One call: the source path (already alias-resolved and normalized),
      the box, and the optional resize mode and quality. */
  datatype Request = Request(filename: string, width: int, height: int, mode: Option<string>, quality: Option<int>)

  /** What the image library is asked to do on a miss: open the source,
      make a thumbnail of the box in the mode, encode at the quality. */
  datatype Job = Job(source: string, width: int, height: int, mode: string, quality: int)

  /** How that work ended: the image is ready to be saved, or it raised
      an exception with the given code. */
  datatype Rendered = Saved | Raised(code: int)

  /** The exceptions thumbnailFile can let through. */
  datatype Error = FileNotFound(filename: string) | Failed(code: int)

  /** The answer of thumbnailFile together with the disk it leaves. */
  datatype Outcome = Outcome(result: Result<string, Error>, disk: Disk)

  /** What `<img>` rendering yields: a tag for the URL, or a message. */
  datatype Markup = Img(src: string) | Message(text: string)

  // ----- cache key and layout

  /** The string handed to md5: the fields concatenated with no separator. */
  function HashInput(filename: string, width: int, height: int, mode: string, mtime: int): string {
    filename + IntToString(width) + IntToString(height) + mode + IntToString(mtime)
  }

  function CacheKey(md5: string -> Md5Digest, filename: string, width: int, height: int, mode: string, mtime: int): Md5Digest {
    md5(HashInput(filename, width, height, mode, mtime))
  }

  /** The shard directory: the cache directory, then the first two key characters. */
  function ShardDir(cachePath: string, key: Md5Digest): string {
    cachePath + [SEP] + key[..2]
  }

  function ThumbnailPath(cachePath: string, key: Md5Digest, ext: string): string {
    ShardDir(cachePath, key) + [SEP] + key + ext
  }

  /** The file extension kept on the thumbnail: the tail of the source
      path from its last '.', or "" when there is none (strrchr's false
      concatenates as ""). The '.' may sit in a directory name. */
  function Extension(filename: string): (ext: string)
    ensures ext == "" <==> '.' !in filename
    ensures ext != "" ==> |ext| <= |filename| && ext == filename[|filename| - |ext|..] && ext[0] == '.' && '.' !in ext[1..]
  {
    match Strrchr(filename, '.')
    case None => ""
    case Some(tail) => tail
  }

  /** The resize mode of a call: THUMBNAIL_OUTBOUND when the caller passes none. */
  function ResizeMode(req: Request): string {
    match req.mode
    case None => THUMBNAIL_OUTBOUND
    case Some(m) => m
  }

  function SaveQuality(quality: Option<int>): int {
    match quality
    case None => QUALITY
    case Some(q) => q
  }

  /** The job thumbnailFile gives the image library for a request. */
  function JobFor(req: Request): (job: Job)
    ensures job.source == req.filename && job.width == req.width && job.height == req.height && job.mode == ResizeMode(req)
    ensures job.mode == if req.mode == None then THUMBNAIL_OUTBOUND else req.mode.value
    ensures job.quality == if req.quality == None then QUALITY else req.quality.value
  {
    Job(req.filename, req.width, req.height, ResizeMode(req), SaveQuality(req.quality))
  }

  /** An existing entry is thrown away when expiry is on and it is older than the expiry. */
  predicate Expired(cacheExpire: int, now: int, mtime: int) {
    cacheExpire != 0 && now - mtime > cacheExpire
  }

  /** The thumbnail path for a request whose source has modification time mtime. */
  function TargetFor(cfg: Config, md5: string -> Md5Digest, req: Request, mtime: int): string {
    ThumbnailPath(cfg.cachePath, CacheKey(md5, req.filename, req.width, req.height, ResizeMode(req), mtime), Extension(req.filename))
  }

  function ShardFor(cfg: Config, md5: string -> Md5Digest, req: Request, mtime: int): string {
    ShardDir(cfg.cachePath, CacheKey(md5, req.filename, req.width, req.height, ResizeMode(req), mtime))
  }

  // ----- layout lemmas

  lemma KeyHasNoSeparator(key: Md5Digest)
    ensures SEP !in key && '.' !in key
  {
  }

  /** The shard directory is a direct child of the cache directory named
      by the first two characters of the thumbnail's file name, and (when
      the extension holds no separator) the thumbnail sits directly in it. */
  lemma Layout(cachePath: string, key: Md5Digest, ext: string)
    requires SEP !in ext
    ensures Under(cachePath, ShardDir(cachePath, key))
    ensures LastSegment(ShardDir(cachePath, key)) == key[..2]
    ensures LastSegment(ThumbnailPath(cachePath, key, ext)) == key + ext
    ensures ThumbnailPath(cachePath, key, ext) == ShardDir(cachePath, key) + [SEP] + LastSegment(ThumbnailPath(cachePath, key, ext))
    ensures LastSegment(ShardDir(cachePath, key)) == Prefix(LastSegment(ThumbnailPath(cachePath, key, ext)), 2)
  {
    KeyHasNoSeparator(key);
    assert SEP !in key[..2];
    LastSegmentAfterSeparator(cachePath, key[..2]);
    assert SEP !in key + ext;
    assert ThumbnailPath(cachePath, key, ext) == ShardDir(cachePath, key) + [SEP] + (key + ext);
    LastSegmentAfterSeparator(ShardDir(cachePath, key), key + ext);
  }

  /** The hashed string has no separators, so different boxes can share
      one cache file: width 1, height 23 and width 12, height 3 give the
      same path for every source, mode, mtime and digest function. */
  lemma BoxesCollide(cachePath: string, md5: string -> Md5Digest, filename: string, mode: string, mtime: int)
    ensures HashInput(filename, 1, 23, mode, mtime) == HashInput(filename, 12, 3, mode, mtime)
    ensures ThumbnailPath(cachePath, CacheKey(md5, filename, 1, 23, mode, mtime), Extension(filename))
         == ThumbnailPath(cachePath, CacheKey(md5, filename, 12, 3, mode, mtime), Extension(filename))
  {
    assert IntToString(1) == "1";
    assert IntToString(3) == "3";
    assert NatToString(23) == NatToString(2) + "3";
    assert IntToString(23) == "23";
    assert NatToString(12) == NatToString(1) + "2";
    assert IntToString(12) == "12";
    assert IntToString(1) + IntToString(23) == "123" == IntToString(12) + IntToString(3);
  }

  /** When the source changes (a new mtime) and nothing else does, the
      hashed string changes too, so a rewritten source never maps to the
      old thumbnail unless md5 itself collides. */
  lemma MtimeChangesHashInput(filename: string, width: int, height: int, mode: string, t1: int, t2: int)
    requires HashInput(filename, width, height, mode, t1) == HashInput(filename, width, height, mode, t2)
    ensures t1 == t2
  {
    var common := filename + IntToString(width) + IntToString(height) + mode;
    assert HashInput(filename, width, height, mode, t1) == common + IntToString(t1);
    assert HashInput(filename, width, height, mode, t2) == common + IntToString(t2);
    assert IntToString(t1) == HashInput(filename, width, height, mode, t1)[|common|..];
    assert IntToString(t2) == HashInput(filename, width, height, mode, t2)[|common|..];
    IntToStringInjective(t1, t2);
  }

  /** The expiry rule: with expiry 0 nothing ever expires; otherwise an
      entry that has expired stays expired as time goes on. */
  lemma ExpiryIsMonotone(cacheExpire: int, now: int, later: int, mtime: int)
    ensures !Expired(0, now, mtime)
    ensures now <= later && Expired(cacheExpire, now, mtime) ==> Expired(cacheExpire, later, mtime)
    ensures cacheExpire != 0 && now - mtime <= cacheExpire ==> !Expired(cacheExpire, now, mtime)
  {
  }

  // ----- thumbnailFileUrl's rewrite

  /** The public URL of a thumbnail path: its last segment, re-prefixed
      by the segment's first two characters, under the cache URL. */
  function ThumbnailUrl(cacheUrl: string, path: string): (url: string)
    ensures |url| > |cacheUrl| && url[..|cacheUrl| + 1] == cacheUrl + "/"
    ensures |LastSegment(path)| <= |url| && url[|url| - |LastSegment(path)|..] == LastSegment(path)
  {
    var name := LastSegment(path);
    Framed(cacheUrl + "/", Prefix(name, 2) + "/", name);
    (cacheUrl + "/") + (Prefix(name, 2) + "/") + name
  }

  lemma Framed(head: string, middle: string, tail: string)
    ensures (head + middle + tail)[..|head|] == head
    ensures (head + middle + tail)[|head + middle + tail| - |tail|..] == tail
  {
  }

  /** The URL mirrors the disk layout (cache URL, shard, file name) exactly
      when the source extension holds no separator; when the source's last
      '.' sits in a directory name, the URL loses the shard and the key. */
  lemma UrlMirrorsLayout(cacheUrl: string, cachePath: string, key: Md5Digest, ext: string)
    ensures ThumbnailUrl(cacheUrl, ThumbnailPath(cachePath, key, ext)) == cacheUrl + "/" + key[..2] + "/" + key + ext
        <==> SEP !in ext
  {
    var path := ThumbnailPath(cachePath, key, ext);
    if SEP !in ext {
      Layout(cachePath, key, ext);
      assert Prefix(key + ext, 2) == key[..2];
    } else {
      LastSegmentShorterThanTail(ShardDir(cachePath, key) + [SEP] + key, ext);
      assert path == ShardDir(cachePath, key) + [SEP] + key + ext;
      assert |ThumbnailUrl(cacheUrl, path)| < |cacheUrl + "/" + key[..2] + "/" + key + ext|;
    }
  }

  // ----- errorHandler

  /** The text thumbnailImg shows instead of a tag when thumbnailFileUrl throws. */
  function ErrorHandler(e: Error): (text: string)
    ensures e.FileNotFound? ==> text == "File doesn't exist"
    ensures e.Failed? ==> text == "Error " + IntToString(e.code)
  {
    match e
    case FileNotFound(_) => "File doesn't exist"
    case Failed(code) => "Error " + IntToString(code)
  }

  /** The message tells a missing source from any other failure, and
      gives back the exact code of the other failures. */
  lemma ErrorHandlerDistinguishes(a: Error, b: Error)
    requires ErrorHandler(a) == ErrorHandler(b)
    ensures a.FileNotFound? <==> b.FileNotFound?
    ensures a.Failed? ==> a.code == b.code
  {
    assert (ErrorHandler(a)[0] == 'E') == a.Failed?;
    assert (ErrorHandler(b)[0] == 'E') == b.Failed?;
    if a.Failed? && b.Failed? {
      assert IntToString(a.code) == ErrorHandler(a)[6..] == ErrorHandler(b)[6..] == IntToString(b.code);
      IntToStringInjective(a.code, b.code);
    }
  }

  // ----- thumbnailFile

  /** thumbnailFile on a disk: refuse a missing source; serve an existing,
      unexpired entry; otherwise unlink the stale entry, make the shard
      directory, run the image library and save the result. */
  function ThumbnailFileSpec(disk: Disk, cfg: Config, md5: string -> Md5Digest, req: Request, now: int,
                             pipeline: Job -> Rendered): (o: Outcome)
    requires WellFormed(disk)
    ensures WellFormed(o.disk)
    // a missing source is reported and nothing is touched
    ensures !IsFile(disk, req.filename) ==> o == Outcome(Failure(FileNotFound(req.filename)), disk)
    ensures IsFile(disk, req.filename) ==>
      var mtime := disk[req.filename].mtime;
      var target := TargetFor(cfg, md5, req, mtime);
      var shard := ShardFor(cfg, md5, req, mtime);
      // the only path ever returned is the layout path of the inputs
      && (o.result.Success? ==> o.result.value == target && target in o.disk)
      // a fresh entry is served as it is
      && (target in disk && !Expired(cfg.cacheExpire, now, disk[target].mtime) ==> o == Outcome(Success(target), disk))
      // nothing but the target is deleted or changed
      && (forall p :: p in disk && p != target ==> p in o.disk && o.disk[p] == disk[p])
      // what is new is the target, or the shard directory or a directory above it
      && (forall p :: p in o.disk && p !in disk ==>
            p == target || ((p == shard || p in DirsAbove(shard)) && o.disk[p].Dir?))
  {
    if !IsFile(disk, req.filename) then Outcome(Failure(FileNotFound(req.filename)), disk)
    else
      var mtime := disk[req.filename].mtime;
      var target := TargetFor(cfg, md5, req, mtime);
      var shard := ShardFor(cfg, md5, req, mtime);
      if target in disk && !Expired(cfg.cacheExpire, now, disk[target].mtime) then Outcome(Success(target), disk)
      else
        var prepared := Prepared(Cleared(disk, target), shard, now);
        Generated(prepared, target, pipeline(JobFor(req)), now)
  }

  /** A miss, first step: unlink whatever regular file stands at the target. */
  function Cleared(disk: Disk, target: string): (d: Disk)
    requires WellFormed(disk)
    ensures WellFormed(d)
    ensures forall p :: p in d ==> p in disk && d[p] == disk[p]
    ensures forall p :: p in disk && p != target ==> p in d
    ensures d == if IsFile(disk, target) then disk - {target} else disk
  {
    if IsFile(disk, target) then Unlinked(disk, target) else disk
  }

  /** A miss, second step: make the shard directory when it is missing and mkdir can make it. */
  function Prepared(disk: Disk, shard: string, now: int): (d: Disk)
    requires WellFormed(disk)
    ensures WellFormed(d)
    ensures forall p :: p in disk ==> p in d && d[p] == disk[p]
    ensures forall p :: p in d && p !in disk ==> (p == shard || p in DirsAbove(shard)) && d[p].Dir?
    ensures IsDir(disk, shard) || CanMkdir(disk, shard) ==> IsDir(d, shard)
  {
    if !IsDir(disk, shard) && CanMkdir(disk, shard) then MadeDir(disk, shard, now) else disk
  }

  /** A miss, last step: report the library's exception, or save the
      thumbnail at the target when the disk lets it be written there. */
  function Generated(disk: Disk, target: string, rendered: Rendered, now: int): (o: Outcome)
    requires WellFormed(disk)
    ensures WellFormed(o.disk)
    ensures o.result.Success? ==> o.result.value == target && target in o.disk && o.disk[target] == File(now)
    ensures forall p :: p in disk && p != target ==> p in o.disk && o.disk[p] == disk[p]
    ensures forall p :: p in o.disk && p !in disk ==> p == target
    ensures rendered.Raised? ==> o == Outcome(Failure(Failed(rendered.code)), disk)
    ensures rendered.Saved? ==>
      o.result == if CanWrite(disk, target) then Success(target) else Failure(Failed(SAVE_FAILED))
    ensures o.result.Failure? ==> o.disk == disk
  {
    match rendered
    case Raised(code) => Outcome(Failure(Failed(code)), disk)
    case Saved =>
      if CanWrite(disk, target) then Outcome(Success(target), Written(disk, target, now))
      else Outcome(Failure(Failed(SAVE_FAILED)), disk)
  }

  /** After a miss that succeeds, the shard directory exists and a fresh
      file stands at the returned path. */
  lemma MissFillsCache(disk: Disk, cfg: Config, md5: string -> Md5Digest, req: Request, now: int, pipeline: Job -> Rendered)
    requires WellFormed(disk) && IsFile(disk, req.filename)
    requires var target := TargetFor(cfg, md5, req, disk[req.filename].mtime);
      target !in disk || Expired(cfg.cacheExpire, now, disk[target].mtime)
    requires ThumbnailFileSpec(disk, cfg, md5, req, now, pipeline).result.Success?
    ensures var o := ThumbnailFileSpec(disk, cfg, md5, req, now, pipeline);
      var mtime := disk[req.filename].mtime;
      && o.result == Success(TargetFor(cfg, md5, req, mtime))
      && IsDir(o.disk, ShardFor(cfg, md5, req, mtime))
      && o.disk[TargetFor(cfg, md5, req, mtime)] == File(now)
  {
    var mtime := disk[req.filename].mtime;
    var key := CacheKey(md5, req.filename, req.width, req.height, ResizeMode(req), mtime);
    var shard := ShardFor(cfg, md5, req, mtime);
    var target := TargetFor(cfg, md5, req, mtime);
    assert target == shard + [SEP] + key + Extension(req.filename);
    assert target[..|shard|] == shard && target[|shard|] == SEP;
  }

  /** A miss whose image the library renders is saved and served, as
      long as the extension holds no separator, the target is not a
      directory and the shard directory exists or can be made. */
  lemma MissSucceeds(disk: Disk, cfg: Config, md5: string -> Md5Digest, req: Request, now: int, pipeline: Job -> Rendered)
    requires WellFormed(disk) && IsFile(disk, req.filename)
    requires var target := TargetFor(cfg, md5, req, disk[req.filename].mtime);
      target !in disk || Expired(cfg.cacheExpire, now, disk[target].mtime)
    requires pipeline(JobFor(req)) == Saved
    requires SEP !in Extension(req.filename)
    requires !IsDir(disk, TargetFor(cfg, md5, req, disk[req.filename].mtime))
    requires var shard := ShardFor(cfg, md5, req, disk[req.filename].mtime);
      IsDir(disk, shard) || CanMkdir(disk, shard)
    ensures ThumbnailFileSpec(disk, cfg, md5, req, now, pipeline).result
         == Success(TargetFor(cfg, md5, req, disk[req.filename].mtime))
  {
    var mtime := disk[req.filename].mtime;
    var shard := ShardFor(cfg, md5, req, mtime);
    var target := TargetFor(cfg, md5, req, mtime);
    MissSteps(disk, cfg, md5, req, now, pipeline);
    var rest := TargetInShard(cfg, md5, req, mtime);
    ShardReady(disk, shard, target, now);
    WritableInsideDir(Prepared(Cleared(disk, target), shard, now), shard, rest);
  }

  /** A miss runs the three steps in order. */
  lemma MissSteps(disk: Disk, cfg: Config, md5: string -> Md5Digest, req: Request, now: int, pipeline: Job -> Rendered)
    requires WellFormed(disk) && IsFile(disk, req.filename)
    requires var target := TargetFor(cfg, md5, req, disk[req.filename].mtime);
      target !in disk || Expired(cfg.cacheExpire, now, disk[target].mtime)
    ensures var mtime := disk[req.filename].mtime;
      var target := TargetFor(cfg, md5, req, mtime);
      ThumbnailFileSpec(disk, cfg, md5, req, now, pipeline)
        == Generated(Prepared(Cleared(disk, target), ShardFor(cfg, md5, req, mtime), now), target, pipeline(JobFor(req)), now)
  {
  }

  /** With no separator in the extension, the target's file name sits
      directly in the shard directory. */
  lemma TargetInShard(cfg: Config, md5: string -> Md5Digest, req: Request, mtime: int) returns (name: string)
    requires SEP !in Extension(req.filename)
    ensures |name| > 0 && SEP !in name
    ensures TargetFor(cfg, md5, req, mtime) == ShardFor(cfg, md5, req, mtime) + [SEP] + name
  {
    var key := CacheKey(md5, req.filename, req.width, req.height, ResizeMode(req), mtime);
    KeyHasNoSeparator(key);
    name := key + Extension(req.filename);
  }

  /** The first two steps of a miss leave the shard a directory when it
      was one or could be made, and never make a directory at the target. */
  lemma ShardReady(disk: Disk, shard: string, target: string, now: int)
    requires WellFormed(disk) && |shard| < |target| && !IsDir(disk, target)
    requires IsDir(disk, shard) || CanMkdir(disk, shard)
    ensures IsDir(Prepared(Cleared(disk, target), shard, now), shard)
    ensures !IsDir(Prepared(Cleared(disk, target), shard, now), target)
  {
    var cleared := Cleared(disk, target);
    assert forall a :: a in DirsAbove(shard) ==> |a| < |shard|;
    assert IsDir(cleared, shard) || CanMkdir(cleared, shard);
  }

  /** The other way round: when some directory between the shard and the
      target is missing, a miss never saves, for mkdir only makes the
      shard and the directories above it. */
  lemma MissBelowMissingDirFails(disk: Disk, cfg: Config, md5: string -> Md5Digest, req: Request, now: int,
                                 pipeline: Job -> Rendered, i: int)
    requires WellFormed(disk) && IsFile(disk, req.filename)
    requires var target := TargetFor(cfg, md5, req, disk[req.filename].mtime);
      target !in disk || Expired(cfg.cacheExpire, now, disk[target].mtime)
    requires var target := TargetFor(cfg, md5, req, disk[req.filename].mtime);
      var shard := ShardFor(cfg, md5, req, disk[req.filename].mtime);
      |shard| < i < |target| && target[i] == SEP && !IsDir(disk, target[..i])
    ensures var o := ThumbnailFileSpec(disk, cfg, md5, req, now, pipeline);
      o.result.Failure? && o.disk[req.filename] == disk[req.filename]
  {
    var mtime := disk[req.filename].mtime;
    var shard := ShardFor(cfg, md5, req, mtime);
    var target := TargetFor(cfg, md5, req, mtime);
    var prepared := Prepared(Cleared(disk, target), shard, now);
    var up := target[..i];
    assert up != shard && up !in DirsAbove(shard) by {
      assert forall a :: a in DirsAbove(shard) ==> |a| < |shard|;
    }
    assert !IsDir(prepared, up);
    assert !CanWrite(prepared, target);
  }

  /** When the source's last '.' sits in a directory name, the target lies
      below a directory inside the shard, named by the key and that part. */
  lemma ExtensionWithSeparatorNestsTarget(cfg: Config, md5: string -> Md5Digest, req: Request, mtime: int)
    requires SEP in Extension(req.filename)
    ensures var target := TargetFor(cfg, md5, req, mtime);
      exists i :: |ShardFor(cfg, md5, req, mtime)| < i < |target| && target[i] == SEP
  {
    var key := CacheKey(md5, req.filename, req.width, req.height, ResizeMode(req), mtime);
    var ext := Extension(req.filename);
    var shard := ShardFor(cfg, md5, req, mtime);
    var target := TargetFor(cfg, md5, req, mtime);
    var j :| 0 <= j < |ext| && ext[j] == SEP;
    assert target == shard + [SEP] + key + ext;
    assert target[|shard| + 1 + |key| + j] == SEP;
  }

  /** An expired regular file is never kept: it is replaced by the
      regenerated one or gone. */
  lemma StaleEntryDiscarded(disk: Disk, cfg: Config, md5: string -> Md5Digest, req: Request, now: int, pipeline: Job -> Rendered)
    requires WellFormed(disk) && IsFile(disk, req.filename)
    requires var target := TargetFor(cfg, md5, req, disk[req.filename].mtime);
      IsFile(disk, target) && Expired(cfg.cacheExpire, now, disk[target].mtime)
    ensures var o := ThumbnailFileSpec(disk, cfg, md5, req, now, pipeline);
      var target := TargetFor(cfg, md5, req, disk[req.filename].mtime);
      target !in o.disk || o.disk[target] == File(now)
  {
  }

  /** Asking again for a thumbnail that was served or made, while it has
      not expired, returns the same path, leaves the disk as it is and
      does not depend on the image library at all. */
  lemma RepeatedRequestIsServed(disk: Disk, cfg: Config, md5: string -> Md5Digest, req: Request, now: int, later: int,
                                pipeline: Job -> Rendered, again: Job -> Rendered)
    requires WellFormed(disk)
    requires IsFile(disk, req.filename) && req.filename != TargetFor(cfg, md5, req, disk[req.filename].mtime)
    requires var o := ThumbnailFileSpec(disk, cfg, md5, req, now, pipeline);
      o.result.Success? && !Expired(cfg.cacheExpire, later, o.disk[o.result.value].mtime)
    ensures var o := ThumbnailFileSpec(disk, cfg, md5, req, now, pipeline);
      ThumbnailFileSpec(o.disk, cfg, md5, req, later, again) == o
  {
    var o := ThumbnailFileSpec(disk, cfg, md5, req, now, pipeline);
    var mtime := disk[req.filename].mtime;
    var target := TargetFor(cfg, md5, req, mtime);
    assert o.result.value == target;
    assert o.disk[req.filename] == disk[req.filename];
    assert IsFile(o.disk, req.filename) && o.disk[req.filename].mtime == mtime;
  }

  lemma TargetInsideCache(cfg: Config, md5: string -> Md5Digest, req: Request, mtime: int)
    ensures Under(cfg.cachePath, TargetFor(cfg, md5, req, mtime))
  {
    var key := CacheKey(md5, req.filename, req.width, req.height, ResizeMode(req), mtime);
    var shard := ShardDir(cfg.cachePath, key);
    var rest := [SEP] + key + Extension(req.filename);
    assert shard == cfg.cachePath + ([SEP] + key[..2]);
    UnderAppend(cfg.cachePath, [SEP] + key[..2]);
    assert TargetFor(cfg, md5, req, mtime) == shard + rest;
    UnderAppend(shard, rest);
    UnderTransitive(cfg.cachePath, shard, shard + rest);
  }

  /** The returned path depends on the source path, box, mode, source
      mtime and cache directory only: not on the quality, the clock, the
      rest of the disk or the image library. */
  lemma PathIsDeterministic(d1: Disk, d2: Disk, cfg1: Config, cfg2: Config, md5: string -> Md5Digest, r1: Request, r2: Request,
                            now1: int, now2: int, p1: Job -> Rendered, p2: Job -> Rendered)
    requires WellFormed(d1) && WellFormed(d2)
    requires r1.filename == r2.filename && r1.width == r2.width && r1.height == r2.height && ResizeMode(r1) == ResizeMode(r2)
    requires cfg1.cachePath == cfg2.cachePath
    requires IsFile(d1, r1.filename) && IsFile(d2, r2.filename) && d1[r1.filename].mtime == d2[r2.filename].mtime
    requires ThumbnailFileSpec(d1, cfg1, md5, r1, now1, p1).result.Success?
    requires ThumbnailFileSpec(d2, cfg2, md5, r2, now2, p2).result.Success?
    ensures ThumbnailFileSpec(d1, cfg1, md5, r1, now1, p1).result == ThumbnailFileSpec(d2, cfg2, md5, r2, now2, p2).result
  {
  }

  /** thumbnailFile, step by step on the host filesystem. */
  method ThumbnailFile(fs: FileSystem, cfg: Config, md5: string -> Md5Digest, req: Request, now: int, pipeline: Job -> Rendered)
    returns (r: Result<string, Error>)
    requires WellFormed(fs.entries)
    modifies fs
    ensures WellFormed(fs.entries)
    ensures Outcome(r, fs.entries) == ThumbnailFileSpec(old(fs.entries), cfg, md5, req, now, pipeline)
  {
    if !IsFile(fs.entries, req.filename) {
      return Failure(FileNotFound(req.filename));
    }
    var mtime := fs.entries[req.filename].mtime;
    var key := CacheKey(md5, req.filename, req.width, req.height, ResizeMode(req), mtime);
    var shard := ShardDir(cfg.cachePath, key);
    var target := ThumbnailPath(cfg.cachePath, key, Extension(req.filename));
    if target in fs.entries {
      if Expired(cfg.cacheExpire, now, fs.entries[target].mtime) {
        var _ := fs.Unlink(target);
      } else {
        return Success(target);
      }
    }
    if !IsDir(fs.entries, shard) {
      var _ := fs.Mkdir(shard, now);
    }
    var rendered := pipeline(JobFor(req));
    if rendered.Raised? {
      return Failure(Failed(rendered.code));
    }
    var saved := fs.Save(target, now);
    if !saved {
      return Failure(Failed(SAVE_FAILED));
    }
    return Success(target);
  }

  // ----- thumbnailFileUrl and thumbnailImg

  function UrlResult(cacheUrl: string, res: Result<string, Error>): Result<string, Error> {
    match res
    case Success(path) => Success(ThumbnailUrl(cacheUrl, path))
    case Failure(e) => Failure(e)
  }

  /** What thumbnailImg returns for the outcome of thumbnailFileUrl: the
      tag on success, the error text on any exception (none escapes). */
  function ImgMarkup(res: Result<string, Error>): (m: Markup)
    ensures m.Img? <==> res.Success?
    ensures res.Success? ==> m.src == res.value
    ensures res.Failure? ==> m.text == ErrorHandler(res.error)
  {
    match res
    case Success(url) => Img(url)
    case Failure(e) => Message(ErrorHandler(e))
  }

  method ThumbnailFileUrl(fs: FileSystem, cfg: Config, md5: string -> Md5Digest, req: Request, now: int, pipeline: Job -> Rendered)
    returns (r: Result<string, Error>)
    requires WellFormed(fs.entries)
    modifies fs
    ensures WellFormed(fs.entries)
    ensures var o := ThumbnailFileSpec(old(fs.entries), cfg, md5, req, now, pipeline);
      r == UrlResult(cfg.cacheUrl, o.result) && fs.entries == o.disk
  {
    var path := ThumbnailFile(fs, cfg, md5, req, now, pipeline);
    match path
    case Failure(e) => r := Failure(e);
    case Success(p) => r := Success(ThumbnailUrl(cfg.cacheUrl, p));
  }

  method ThumbnailImg(fs: FileSystem, cfg: Config, md5: string -> Md5Digest, req: Request, now: int, pipeline: Job -> Rendered)
    returns (html: Markup)
    requires WellFormed(fs.entries)
    modifies fs
    ensures WellFormed(fs.entries)
    ensures var o := ThumbnailFileSpec(old(fs.entries), cfg, md5, req, now, pipeline);
      html == ImgMarkup(UrlResult(cfg.cacheUrl, o.result)) && fs.entries == o.disk
  {
    var url := ThumbnailFileUrl(fs, cfg, md5, req, now, pipeline);
    match url
    case Failure(e) => html := Message(ErrorHandler(e));
    case Success(u) => html := Img(u);
  }

  /** thumbnailImg on a missing source shows "File doesn't exist"; when it
      shows a tag, the tag's URL mirrors the thumbnail's place on disk. */
  lemma ImgOutcomes(disk: Disk, cfg: Config, md5: string -> Md5Digest, req: Request, now: int, pipeline: Job -> Rendered)
    requires WellFormed(disk)
    ensures var o := ThumbnailFileSpec(disk, cfg, md5, req, now, pipeline);
      var html := ImgMarkup(UrlResult(cfg.cacheUrl, o.result));
      && (!IsFile(disk, req.filename) ==> html == Message("File doesn't exist"))
      && (html.Message? && html.text != "File doesn't exist" ==> exists code :: html.text == "Error " + IntToString(code))
      && (html.Img? && SEP !in Extension(req.filename) ==>
            var key := CacheKey(md5, req.filename, req.width, req.height, ResizeMode(req), disk[req.filename].mtime);
            html.src == cfg.cacheUrl + "/" + key[..2] + "/" + key + Extension(req.filename))
  {
    var o := ThumbnailFileSpec(disk, cfg, md5, req, now, pipeline);
    if o.result.Success? {
      var key := CacheKey(md5, req.filename, req.width, req.height, ResizeMode(req), disk[req.filename].mtime);
      UrlMirrorsLayout(cfg.cacheUrl, cfg.cachePath, key, Extension(req.filename));
    } else if o.result.error.Failed? {
      assert ImgMarkup(UrlResult(cfg.cacheUrl, o.result)).text == "Error " + IntToString(o.result.error.code);
    }
  }
}

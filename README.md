# EasyThumbnailImage, modelled in Dafny

A model of the thumbnail cache of the Yii2 helper `himiklab\thumbnail\EasyThumbnailImage`, with proofs about it. The model covers:

- how a thumbnail's place on disk is derived from the source image. The key is the md5 of the source path, box, mode and source modification time. The file goes in a two-character shard directory under the cache directory and keeps the source's extension.
- when an existing cache entry is served, and when it is thrown away and regenerated.
- how the thumbnail path is rewritten into a public URL.
- how `thumbnailImg` turns every failure of `thumbnailFileUrl` into a message.
- how `clearCache` wipes the cache directory with the recursive `removeDir` and then recreates it.

Files:

- `wrappers.dfy`: `Option` and `Result`.
- `php.dfy` (module `Php`): the PHP built-ins the helper relies on, as functions. These are integer-to-text conversion, `strrchr`, `substr($s, 0, n)`, and the `preg_match` that takes the last path segment.
- `filesystem.dfy` (module `Filesystem`): the host filesystem.
  - The disk is a map from canonical path to entry (a file or a directory, each with its mtime).
  - `WellFormed` is its invariant: every directory named above an entry exists as a directory.
  - `unlink`, recursive `mkdir`, the image library's file write, `rmdir` and `glob` are pure functions on the map.
  - The class `FileSystem` holds the map in a field. Its methods perform those operations in place and return PHP's success flag.
- `thumbnail.dfy` (module `EasyThumbnailImage`): the cache key, the layout, `thumbnailFile`, `thumbnailFileUrl`, `thumbnailImg` and `errorHandler`.
  - `ThumbnailFileSpec` states what one `thumbnailFile` call returns and which disk it leaves.
  - The method `ThumbnailFile` makes the same filesystem calls as the PHP code, in the same order. It is proved equal to `ThumbnailFileSpec`.
- `cache_admin.dfy` (module `CacheAdmin`): `removeDir` as a recursive method over the `FileSystem` object, and `clearCache`. `Swept` is the disk `removeDir` leaves.

Things beyond the model's reach are parameters:

- md5 is any function returning 32 lower-case hexadecimal characters.
- The image library's open/thumbnail/save work is a function from the job to "saved" or "raised with code c".
- The clock is the argument `now`.

The source's modification time is read from the modelled disk, as `filemtime` does.

The hashed string `filename . width . height . mode . filemtime` has no separators, so different requests can share one cache file. For example, width 1 with height 23 and width 12 with height 3 give the same path (`BoxesCollide`). Only determinism of the path is proved, not that distinct requests get distinct paths.

The file extension is the tail from the last `.` of the whole source path. That `.` may sit in a directory name, and then the extension holds separators. In that case the URL no longer mirrors the on-disk shard and key; `UrlMirrorsLayout` proves the URL mirrors the layout exactly when the extension holds no separator. The miss itself suffers too. The target then lies in a directory below the shard, named by the key and the directory part of the extension (`ExtensionWithSeparatorNestsTarget`). mkdir only makes the shard, so unless that directory already exists, every miss fails to save (`MissBelowMissingDirFails`). When the extension holds no separator, a rendered miss is saved and served whenever the target is not a directory and the shard exists or can be made (`MissSucceeds`).

Further facts about the code that the model keeps:

- The hashed string is not injective (`BoxesCollide`).
- New entries are saved straight to the target path, with no temporary file and no rename.
- mkdir's result is ignored. In plain PHP only the save after it can then fail, and that failure is the library's exception.
- Only local sources are handled.

## Model

| member | source | states |
|---|---|---|
| Php.NatToString | EasyThumbnailImage.php:86 | the decimal text PHP concatenates for a non-negative integer: at least one character, all digits |
| Php.DecimalValueOfNatToString | EasyThumbnailImage.php:86 | reading the decimal text back gives the integer again (no information lost in the concatenated parts) |
| Php.IntToStringInjective | EasyThumbnailImage.php:199 | distinct integers are written as distinct texts, so an error code is recoverable from its message |
| Php.IntToString | EasyThumbnailImage.php:86 | the text of an integer as PHP concatenates it: a leading '-' exactly for negatives, digits otherwise (recoverable by `IntToStringInjective`) |
| Php.Strrchr | EasyThumbnailImage.php:85 | strrchr: false exactly when the character does not occur; otherwise a suffix of the input that starts with the character and holds no later occurrence of it |
| Php.Prefix | EasyThumbnailImage.php:136 | substr($s, 0, n): the first n characters, or the whole string when it is shorter |
| Php.LastSegment | EasyThumbnailImage.php:133-134 | the regex match of non-separators at the end: a suffix without separators that is the whole string or is preceded by a separator |
| Php.LastSegmentAfterSeparator | EasyThumbnailImage.php:133-134 | after a separator, the match is exactly the separator-free remainder |
| Php.LastSegmentShorterThanTail | EasyThumbnailImage.php:133-134 | when the tail holds a separator, the match is shorter than the tail |
| EasyThumbnailImage.Extension | EasyThumbnailImage.php:85 | the extension is empty exactly when the source path has no '.', and otherwise is the suffix from the last '.' of the whole path |
| EasyThumbnailImage.JobFor | EasyThumbnailImage.php:101-107 | the library is given the request's source and box, mode THUMBNAIL_OUTBOUND (the default of the signature at line 77) when none is passed, else the passed mode, and quality 50 when none is passed, else the passed quality |
| EasyThumbnailImage.MtimeChangesHashInput | EasyThumbnailImage.php:86 | HashInput: with source, box and mode fixed, different source mtimes give different hashed strings |
| EasyThumbnailImage.KeyHasNoSeparator | EasyThumbnailImage.php:86 | CacheKey: md5's hexadecimal digest holds neither a separator nor a '.' |
| EasyThumbnailImage.TargetInsideCache | EasyThumbnailImage.php:87-88 | ShardDir and ThumbnailPath: the thumbnail path lies inside the cache directory |
| EasyThumbnailImage.ExpiryIsMonotone | EasyThumbnailImage.php:91 | Expired: with expiry 0 nothing expires; otherwise an entry is kept while its age is at most the expiry, and once expired stays expired |
| EasyThumbnailImage.ThumbnailUrl | EasyThumbnailImage.php:133-136 | the URL starts with the cache URL and a '/', and ends with the path's last segment |
| EasyThumbnailImage.Layout | EasyThumbnailImage.php:86-88 | the shard is a direct child of the cache directory named by the key's first two characters; the thumbnail sits directly in it, and the shard name is the first two characters of the file name |
| EasyThumbnailImage.BoxesCollide | EasyThumbnailImage.php:86 | boxes 1x23 and 12x3 give the same hashed string and the same path, for every source, mode, mtime and digest |
| EasyThumbnailImage.UrlMirrorsLayout | EasyThumbnailImage.php:130-136 | the URL is cache URL / key[0:2] / key + ext exactly when the extension holds no separator |
| EasyThumbnailImage.ErrorHandler | EasyThumbnailImage.php:193-201 | a missing file gives "File doesn't exist"; any other failure gives "Error " followed by its code |
| EasyThumbnailImage.ErrorHandlerDistinguishes | EasyThumbnailImage.php:193-201 | equal messages mean the same kind of failure, and the same code for the other failures |
| EasyThumbnailImage.ThumbnailFileSpec | EasyThumbnailImage.php:77-111 | a missing source gives FileNotFound and leaves the disk unchanged; the only path ever returned is the layout path, and it exists afterwards; a fresh entry is served with nothing touched; nothing but the target changes, and the only new paths are the target and directories of its shard chain |
| EasyThumbnailImage.Cleared | EasyThumbnailImage.php:90-92 | the first step of a miss removes the target exactly when it is a regular file, and changes nothing else |
| EasyThumbnailImage.Prepared | EasyThumbnailImage.php:97-99 | the second step keeps every entry; the only new entries are the shard directory and the directories above it; afterwards the shard is a directory whenever it was one or mkdir could make it |
| EasyThumbnailImage.Generated | EasyThumbnailImage.php:101-110 | the last step reports the library's exception code with the disk unchanged; a rendered image is saved and its path returned exactly when the target can be written, and otherwise gives `Failed(0)` with the disk unchanged; success means a fresh file at the target and nothing else changed |
| EasyThumbnailImage.MissSucceeds | EasyThumbnailImage.php:97-110 | a miss whose image is rendered, with no separator in the extension, no directory at the target and a shard that exists or can be made, returns the target path |
| EasyThumbnailImage.MissSteps | EasyThumbnailImage.php:90-110 | a miss is exactly the unlink step, then the mkdir step, then the render-and-save step |
| EasyThumbnailImage.ShardReady | EasyThumbnailImage.php:92-99 | after the unlink and mkdir steps the shard is a directory when it was one or could be made, and no directory stands at the target |
| EasyThumbnailImage.TargetInShard | EasyThumbnailImage.php:87-88 | with no separator in the extension, the target is the shard, a separator and a separator-free file name |
| EasyThumbnailImage.MissBelowMissingDirFails | EasyThumbnailImage.php:85-110 | when a directory between the shard and the target is missing, a miss never succeeds and leaves the source alone |
| EasyThumbnailImage.ExtensionWithSeparatorNestsTarget | EasyThumbnailImage.php:85-88 | when the extension holds a separator, the target lies in a directory below the shard |
| EasyThumbnailImage.MissFillsCache | EasyThumbnailImage.php:97-110 | after a miss that succeeds, the shard directory exists and a fresh file stands at the returned path |
| EasyThumbnailImage.StaleEntryDiscarded | EasyThumbnailImage.php:90-92 | an expired thumbnail file is never kept: it is gone or replaced by a new one |
| EasyThumbnailImage.RepeatedRequestIsServed | EasyThumbnailImage.php:90-96 | for any source other than the target itself, asking again before expiry returns the same path, leaves the disk as it is and never calls the image library |
| EasyThumbnailImage.PathIsDeterministic | EasyThumbnailImage.php:85-88 | the returned path depends only on source path, box, mode, source mtime and cache directory: not on quality, clock, the rest of the disk or the image library |
| EasyThumbnailImage.ThumbnailFile | EasyThumbnailImage.php:77-111 | the step-by-step version (is_file, file_exists, expiry check, unlink, is_dir, mkdir, render, save) returns and leaves exactly what ThumbnailFileSpec says |
| EasyThumbnailImage.ThumbnailFileUrl | EasyThumbnailImage.php:127-137 | the URL of thumbnailFile's path, or thumbnailFile's error, with thumbnailFile's effect on the disk |
| EasyThumbnailImage.ImgMarkup | EasyThumbnailImage.php:153-162 | a tag exactly when a URL was produced; otherwise the error handler's message, so no failure of thumbnailFileUrl escapes |
| EasyThumbnailImage.ThumbnailImg | EasyThumbnailImage.php:150-163 | the markup for thumbnailFileUrl's outcome, with its effect on the disk |
| EasyThumbnailImage.ImgOutcomes | EasyThumbnailImage.php:150-163 | a missing source shows "File doesn't exist"; any other message is "Error " and a code; a tag's URL mirrors the disk layout when the extension holds no separator |
| Filesystem.Unlinked | EasyThumbnailImage.php:92 | unlink of a regular file removes exactly that path and keeps the disk well formed |
| Filesystem.MadeDir | EasyThumbnailImage.php:98 | recursive mkdir makes the directory and only the missing directories above it, keeps every existing entry, keeps the disk well formed |
| Filesystem.Written | EasyThumbnailImage.php:109 | saving puts a fresh file at the path and changes nothing else |
| Filesystem.RemovedDir | EasyThumbnailImage.php:184 | rmdir of an empty directory removes exactly that path |
| Filesystem.Glob | EasyThumbnailImage.php:183 | the star pattern lists exactly the entries directly inside the directory whose name does not start with a dot |
| Filesystem.FileSystem.Unlink | EasyThumbnailImage.php:92 | succeeds exactly on a regular file; then the disk loses that file, otherwise it is unchanged |
| Filesystem.FileSystem.Mkdir | EasyThumbnailImage.php:98 | succeeds exactly when the path is new and no file stands above it; then the directory chain is made, otherwise nothing changes |
| Filesystem.FileSystem.Save | EasyThumbnailImage.php:109 | succeeds exactly when every directory above the path exists and the path is not a directory |
| Filesystem.FileSystem.Rmdir | EasyThumbnailImage.php:184 | succeeds exactly on an empty directory, which is then removed |
| CacheAdmin.Swept | EasyThumbnailImage.php:178-186 | after the wipe, everything outside the tree and everything hidden behind a dot-name is kept as it was; any other survivor in the tree is a directory that still holds something hidden; the disk stays well formed |
| CacheAdmin.RemoveDir | EasyThumbnailImage.php:178-186 | the recursive wipe over glob's listing, ignoring failures, leaves exactly Swept |
| CacheAdmin.ClearCache | EasyThumbnailImage.php:171-176 | wipes the cache directory, then returns whether the final recursive mkdir succeeded, with the disk that leaves |
| CacheAdmin.ClearCacheOutcome | EasyThumbnailImage.php:171-186 | below the cache directory only hidden entries and the directories holding them survive; mkdir succeeds exactly when the path is canonical, nothing hidden was there and no file stands above it; the directory then exists and is empty |
| CacheAdmin.ListedChildOnTheWay | EasyThumbnailImage.php:183 | every entry of a tree that is not hidden lies within the tree of some entry glob lists |
| CacheAdmin.HiddenThroughChild | EasyThumbnailImage.php:183 | below a listed child, being hidden from the parent and being hidden from the child are the same |

## Left out

- The image library's work: opening, `thumbnail($box, $mode)` with its crop and pad geometry, and encoding. It is the parameter `pipeline`, which only says whether saving may proceed or which code was raised. A failed write is the exception code 0 (`SAVE_FAILED`).
- md5's internals: md5 is a parameter, any function producing 32 lower-case hexadecimal characters.
- `Yii::getAlias` and `FileHelper::normalizePath`: the source path and the cache directory and URL come in resolved and normalized. The double normalization in `thumbnailFileUrl` and `thumbnailImg` is taken as idempotent and not modelled.
- `Html::img` rendering and its `$options`: the markup is `Img(url)`. `Yii::warning` logging in `errorHandler` is not modelled either.
- `thumbnail()` only opens the file through the library; it is not modelled. EasyThumbnail.php, which copies configuration into the static fields, is not part of this model.
- FileNotFoundException.php is not part of this model. Its exception is the `FileNotFound` case of `Error`.
- Only the two exception kinds `thumbnailImg` tells apart are modelled: file not found, and any other with an integer code.
- Yii's conversion of PHP warnings into exceptions is not modelled. A failed `unlink`, `mkdir` or `rmdir` returns false and changes nothing, as with plain PHP. Under Yii, a failing `unlink` or `mkdir` in `thumbnailFile` (neither carries `@`) would raise an exception instead. `thumbnailFile` ignores the results of `unlink` and `mkdir`; `removeDir` ignores those of `unlink` and `rmdir`; `clearCache` returns that of its final `mkdir`.
- `thumbnailImg` resolves the source alias before its `try`, so an unknown alias raises an exception that escapes it. Alias resolution is outside the model, so this path is not covered; `ImgMarkup` speaks only of failures inside `thumbnailFileUrl`.
- glob: metacharacters in directory names are not interpreted, and the sorted listing order is not modelled. The wipe's outcome does not depend on that order.
- Directory mtimes are not updated on changes below them. Permission bits (mode 0755) and ownership are not modelled.
- Paths are canonical: non-empty, no doubled or trailing separator. `..` is not interpreted. A request to create a non-canonical path fails.
- PHP's 64-bit integer overflow is not modelled; integers are unbounded. `time() - filemtime()` and the decimal text of the box and mtime are exact.
- Remote sources, freshness policies, atomic publishing by rename and concurrent writers do not exist in the code and are not modelled.
- EasyThumbnailImage.ThumbnailFileSpec: when the target path is a directory, the model follows the code. The directory is served while fresh. Once it expires, unlink fails and so does saving; the result is `Failed(0)`, or the library's code when the library raised first.

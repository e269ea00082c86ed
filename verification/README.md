# dropletfs-fuse: a verified model of the write-back cache

dropletfs-fuse mounts an object store. FUSE callbacks work on local cache files; `release` uploads a
file, compressed if so configured; a later `open` downloads and decodes it; a collector drops files
that have not been used for a while. This project models that protocol and the algorithms under it in
Dafny and proves what they promise.

| file | part of the program |
|---|---|
| `Cache.dfy` | each callback and one collector pass as a function on the whole state |
| `CacheInvariant.dfy` | the invariant that every callback keeps |
| `CacheRuns.dfy` | whole runs: reachable states, reference counts, comparison with a plain map |
| `CacheExact.dfy` | what each callback does exactly, told without the functions that compute it |
| `CacheFindings.dfy` | exact conditions for eviction, release, create and append, and what happens without them |
| `CacheExample.dfy` | concrete runs, which show that the hypotheses on runs can be met |
| `DropletFs.dfy` | the mutable table of path entries; every method refines its function in `Cache`, and every callback keeps the invariant |
| `Transfer.dfy` | raw or compressed upload, decoding at download, the byte loops |
| `Codec.dfy`, `Zip.dfy`, `CodecWitness.dfy` | the contract with zlib, the chunk loops over it, a codec that keeps it |
| `Rename.dfy` | renaming on the remote store under arbitrary failures |
| `Metadata.dfy`, `Retry.dfy`, `LinkedList.dfy`, `TmpStr.dfy` | stat records as text, back-off, lists in place, the string ring |

Outcomes of foreign calls (libdroplet, libc, zlib, the kernel) are inputs: fields of the `...Env`
records, functions such as `Zip.Faults`, or nondeterministic choices in `Rename.RemoteStore`. Theorems
hold for all of them unless they say otherwise.

What is assumed of the outside is written as `CacheRuns.Enabled`, `CacheInvariant.HonestRelease`,
`Codec.DeflateLaws` and `Codec.InflateLaws`: callbacks are atomic and allocation succeeds; the kernel
hands out unused descriptors, refuses writes on read-only handles, creates only what a lookup did not
find, and releases every open handle once; no cached path is another one with ".tmp" added;
descriptor 0 is in use; fstat tells the length of the file and lseek rewinds it; encryption is off;
`dpl_mknod` leaves an empty object without metadata; an object becomes what was sent when `dpl_close`
succeeds. `CacheFindings` says what breaks without the assumptions on lseek and on ".tmp", and
`Transfer` without those on fstat and on descriptor 0.

An uncompressed upload reads the cache file through the descriptor of its entry and moves it; only
`lseek` brings it back. That every upload starts at offset 0 is therefore a theorem about runs.

`tainted` and `leaks` are history variables of the cache state, used in proofs. The theorems on whole
runs are stated without them: `CleanFor` says of the operations of a run that every open, create and
release of a path was clean, and `Lost` counts the operations that lost a reference to it.

## Model

| member | source | states |
|---|---|---|
| CacheRuns.ReachableStates | src/hash.h:23-45 | after any run over any remote store and with any failures, each entry is local exactly when it has a descriptor, which is on its own cache file at offset 0; a remote entry has metadata; both mutexes are free; the reference count is the live handles plus the number of opens, creates and releases of the run that lost a reference; and an unwritable local file of a path that the run treated cleanly is what its object decodes to |
| CacheRuns.CleanPathIsCoherent | src/open.c:163-218 | cache coherence of one path: if every open, create and release of it in the run is clean, then, whatever fails on other paths, its content and every read of it are those of a plain map from paths to bytes, and an unwritable local file equals its decoded object |
| CacheRuns.UploadMakesUp | src/release.c:173-218 | a successful upload makes up for every failure before it: whatever a run did to a path, after a writer's release that returns 0 the path is coherent as long as it is treated cleanly |
| CacheRuns.CleanRunsAreCoherent | src/release.c:104-234 | in runs where remote calls succeed every unwritable local file equals its decoded object, and the run returns exactly what the plain map returns |
| CacheRuns.StepTaints | src/release.c:208-218 | a step leaves the cache file and the object of a path different only if it is an open, create or release of that path that is not clean |
| CacheRuns.RunLeaks | src/release.c:110-120 | the references that nobody will give back are the failed opens, the creates that failed after their open and the releases that failed before they gave one back |
| CacheRuns.StepKeeps | src/hash.c:199-207 | every callback keeps the invariant and returns: it waits on no mutex or semaphore; a read returns the errno of pread or the number of its bytes |
| CacheRuns.ReachableHandles | src/gc.c:32-35 | in every reachable state a live handle has a usable descriptor and a positive count, and no collector pass removes or changes its entry |
| CacheRuns.StepAgrees | src/write.c:30 | one step of the cached system does what the same operation does to the plain map, and a read of an unhit path returns the plain bytes |
| CacheInvariant.OpenKeeps | src/open.c:163-218 | dfs_open keeps the invariant, returns, changes only its own path, empties it when it truncates and otherwise leaves its content unless tainted |
| CacheInvariant.CreateKeeps | src/create.c:17-123 | dfs_create keeps the invariant in every way it can end, and success leaves an empty file |
| CacheInvariant.ReadKeeps | src/read.c:21-38 | dfs_read on a live handle returns byte for byte the requested range of the content of the path, nothing at or behind end of file, or the errno of pread; the bad-descriptor branch is unreachable |
| CacheInvariant.WriteKeeps | src/write.c:22-35 | dfs_write returns the errno of pwrite, EBADF exactly on a read-only descriptor, or the number of bytes written; it changes one path by one positional write of those bytes; the bad-descriptor branch is unreachable |
| CacheInvariant.ReleaseSendingKeeps | src/release.c:133-240 | an uploading release returns 0 exactly when the upload gets through, and exactly then the path ends untainted; the object then decodes to the whole cache file, announces the size it was sent with and carries the stat record of the file in its metadata, however many releases came before |
| CacheInvariant.SentKeeps | src/release.c:137-205 | an upload from offset 0 may move the descriptor, and nothing else but the object and the history; rewinding the descriptor restores it |
| CacheInvariant.SentForm | src/release.c:202-205 | the descriptor has moved exactly when the upload was raw, the file was not empty, the object could be opened and the first read worked |
| CacheInvariant.ReleaseKeeps | src/release.c:81-245 | dfs_release keeps the invariant in every branch, never blocks on the semaphore and changes the content of no path |
| CacheInvariant.GetattrKeeps | src/getattr.c:248-305 | dfs_getattr ends with the metadata mutex free and moves no content, so the branch that leaves it locked is unreachable |
| CacheInvariant.GcKeeps | src/gc.c:16-78 | one pass keeps the invariant and all handles, and moves content only on paths evicted while tainted |
| CacheInvariant.PreadBytes | src/read.c:30 | byte for byte what a positional read gives: the smaller of the size and what is left, and nothing at or behind end of file |
| CacheInvariant.GcExactly | src/gc.c:32-77 | an entry leaves the table exactly when it is unreferenced, unlocked, has a descriptor and fstat fails or one of its three times is too old (ten times the threshold when excluded); survivors are untouched, every other entry loses cell, descriptor and, unless unlink fails, cache file |
| CacheInvariant.EvictedAreIdle | src/gc.c:32-38 | an evicted entry has no live handle and no lost reference, and is synchronised unless tainted |
| CacheInvariant.LiveHandleUsable | src/open.c:192-213 | a live handle has a counted, local entry whose descriptor is on the right file at offset 0 |
| CacheInvariant.DigestShortcutNeverTaken | src/file.c:422-428 | the digest comparison of dfs_get_local_copy never matches when it is called, so a download always makes a new file |
| CacheInvariant.FetchKeeps | src/file.c:430-492 | a new local copy touches one cache file, its scratch file and one descriptor, and holds the decoded object unless decoding stayed unfinished |
| CacheExact.OpenExactly | src/open.c:163-218 | a truncating open succeeds exactly when the cache file can be opened, and makes a new writable descriptor; any other open of a local file always succeeds on the old descriptor; an open of any other file succeeds exactly when every call of the download works and the object can be decoded; with the entry, descriptors and metadata afterwards |
| CacheExact.TruncatedWritesIff | src/open.c:97-106 | after a truncating open a write succeeds exactly when pwrite does, even if the file was open read-only before |
| CacheExact.CreateExactly | src/create.c:34-115 | dfs_create returns the first failure, or 0 with an empty file behind a writable descriptor, the stat record under the requested mode as metadata, and an empty object unless the path is excluded |
| CacheExact.GetattrExactly | src/getattr.c:248-305 | dfs_getattr returns 0 exactly on the root, a local file that fstat accepts, a remote one, or a path that is looked up and found with its headers, which then is remote with those metadata; a failed lookup returns its status; every other entry stays as it was |
| CacheExact.ReleaseExactly | src/release.c:104-245 | dfs_release returns 0 exactly when fstat works and nothing on the way of an upload fails; handle, reference, mark, scratch file and descriptors afterwards; the object is the stream if compressing worked and else the file, tagged, sized and described accordingly, or what a failure left |
| CacheFindings.EvictionIsInvisible | src/gc.c:64-73 | evicting an idle file and opening it again read-only gives a reader the same bytes at every size and offset |
| CacheFindings.ReleasedContentKeptIff | src/release.c:120-218 | when the last handle is released with an upload and the file is then evicted, the content is still there if and only if the upload got through or what it left decodes to the file (if nothing could be sent: if the object was up to date before) |
| CacheFindings.FailedUploadIsLost | src/release.c:120 | an instance: the reference is given back before the upload, so a failed last upload followed by a pass over an old file drops the only copy |
| CacheFindings.RewoundIff | src/release.c:222-225 | after a release the descriptor is at offset 0 if and only if lseek worked or nothing was read from it |
| CacheFindings.LostRewindTruncates | src/release.c:202-225 | after a failed lseek the next raw upload reports success, announces the whole file and stores only what is behind the offset |
| CacheFindings.CreateSucceedsIff | src/create.c:17-123 | dfs_create returns 0 if and only if the file is regular, the lookup (unless excluded), the local calls and dpl_mknod (unless excluded) work and the flags truncate; with O_APPEND it therefore always fails |
| CacheFindings.CreatedMetaReadsBack | src/create.c:86-104 | the metadata stored at creation reads back as the stat record with the requested mode |
| CacheFindings.PwriteBytes | src/write.c:30 | byte for byte what a positional write leaves, gap included, and that reading the range gives the written bytes |
| CacheFindings.OpenTruncatesIff | src/open.c:66-76 | a successful open empties a file that was not empty if and only if it does not append and may create or write |
| CacheFindings.AppendWritesIff | src/open.c:119-126 | an append open of a local file succeeds, and a write through it succeeds if and only if the descriptor that was already there is writable and pwrite works |
| CacheFindings.AppendAfterReadFails | src/open.c:111-131 | from every state in which the file is not local: opened for reading and then for appending, both opens succeed and every write is refused |
| CacheFindings.ScratchNameBreaks | src/release.c:152-232 | a compressed upload of a path leaves the entry of the path with ".tmp" added sound if and only if that entry was not local |
| CacheExample.LifeIsLegalAndClean | src/release.c:81-245 | create, write, release with a compressed upload, collect, open and read is a legal and clean run, and reads back the byte that was written |
| CacheExample.SomeLife | src/zip.c:38-86 | with a concrete codec there is such a run, so the hypotheses of the coherence theorems can be met |
| CacheExample.AppendIsRefused | src/open.c:119-126 | over a store with one object, opening for reading, opening for appending and writing is a legal run whose write is refused |
| DropletFs.PathEntry.constructor | src/hash.c:17-79 | a new entry is unset, without descriptor or metadata, unreferenced and unlocked |
| DropletFs.PathEntry.DecRefcount | src/hash.c:198-207 | one reference less, or blocked exactly at zero |
| DropletFs.PathEntry.CompareDigest | src/file.c:196-227 | 0 exactly when the entry is local and the etag equals its digest; the digest of a local entry becomes the etag |
| DropletFs.PathEntry.GetattrRemote | src/getattr.c:99-123 | 0 exactly when there are metadata, and the mutex is free again; without them -1, with the mutex left held |
| DropletFs.PathEntry.GetattrUnset | src/getattr.c:152-244 | 0 exactly when the lookup and the headers work and the mutex is free; metadata is then stored before the entry becomes remote; nothing is stored otherwise |
| DropletFs.DropletFs.constructor | src/dropletfs.c:346-351 | the mounted system is valid: an empty table over the given remote store |
| DropletFs.DropletFs.OpenByMode | src/open.c:195-213 | refines the dispatch on the mode, open_creat, open_existing and the change to the local state |
| DropletFs.DropletFs.FuseOpen | src/open.c:163-218 | opens exactly as `OpenExactly` says and stays valid; a truncating open succeeds exactly when the file can be opened, and its handle is writable; no other path changes content |
| DropletFs.DropletFs.FuseCreate | src/create.c:17-123 | creates exactly as `CreateExactly` says, stays valid and never blocks; success leaves an empty file, and no other path changes content |
| DropletFs.DropletFs.FuseRead | src/read.c:11-42 | returns byte for byte the requested range of the content of the path, or the errno of pread, and changes nothing |
| DropletFs.DropletFs.FuseWrite | src/write.c:9-40 | returns the errno of pwrite, EBADF exactly on a read-only descriptor, or the number of bytes written; the content of the path changes by one positional write of those bytes, no other content changes |
| DropletFs.DropletFs.SendFile | src/release.c:133-205 | refines the choice of what to send, dpl_openwrite, the copy loop and dpl_close; the descriptor ends where the copy loop left it |
| DropletFs.DropletFs.FuseRelease | src/release.c:81-245 | releases exactly as `ReleaseExactly` says, stays valid and never blocks; no content changes, and an uploading release that returns 0 leaves the object equal to the file |
| DropletFs.DropletFs.FuseGetattr | src/getattr.c:248-305 | returns and stores exactly what `GetattrExactly` says, stays valid (both mutexes free) and never blocks; no content changes |
| DropletFs.DropletFs.CollectGarbage | src/gc.c:80-95 | a pass over the keys in any order treats every entry exactly as `GcExactly` says and stays valid; every handle keeps its entry, and only a path evicted while tainted changes content |
| DropletFs.DropletFs.Decompress | src/file.c:229-323 | refines handle_compression on the downloaded file and the scratch file |
| DropletFs.DropletFs.GetLocalCopy | src/file.c:365-508 | refines dfs_get_local_copy: files, descriptors, entry and return value |
| DropletFs.DropletFs.GcCallback | src/gc.c:16-78 | one key: nothing changes if the entry is referenced, locked, without descriptor or young in all three times, otherwise cell, descriptor and cache file go |
| Transfer.TagTellsTruth | src/release.c:22-79 | for every fallback the compressed copy is sent exactly when no local call failed, and else the whole file; the tag is "zlib" exactly for compressed bytes if and only if the scratch file did not get descriptor 0; nothing is sent exactly when the source cannot be opened for compression |
| Transfer.SizeTellsTruth | src/release.c:137-194 | for every fallback and offset the announced size is the size sent if and only if the bytes are compressed or fstat told what is left from the offset on; the size in the metadata is the one of fstat |
| Transfer.UploadDescribes | src/release.c:146 | compressed or not, the uploaded metadata read back, field by field, as the stat record of the file |
| Transfer.UploadDownloadRoundTrip | src/release.c:137-205 | for all bytes, settings and fallbacks, the uploaded object decodes to the file, and every download that succeeds restores it |
| Transfer.MisroutedLosesFile | src/release.c:176-179 | with descriptor 0 raw bytes are tagged "zlib", and bytes that are no stream can no longer be decoded |
| Transfer.DecodedExactlyWhen | src/file.c:229-323 | a download that is not refused has the decoded bytes exactly when the object was plain or the rename worked (or packing changed nothing); a failed rename passes the packed bytes on |
| Transfer.CleanDownload | src/file.c:229-323 | without local failures a download is accepted exactly when the object can be decoded, and refused with -1 otherwise |
| Transfer.DecompressExactly | src/file.c:229-323 | every exit of handle_compression: the return code, the file and the scratch file, exactly |
| Transfer.WriteAll | src/file.c:74-100 | for every pattern of short writes and interrupts: success means exactly the bytes were appended, failure that a prefix was, and it fails exactly when a write failed |
| Transfer.ReceiveChunks | src/file.c:134-150 | the chunks of a download are concatenated in the file, or a prefix of that on failure |
| Transfer.SendBlocksWhole | src/file.c:102-132 | everything from the offset to the end of file is passed on, whatever each read returns, or a prefix of it on failure; the descriptor ends at the end of file, and stays put exactly when nothing was left or the first read failed |
| Transfer.SendSucceedsIff | src/file.c:102-132 | the copy loop succeeds exactly when no read and no write up to end of file fails |
| Transfer.ReadWriteAll | src/file.c:102-132 | the loop in place computes the return code, the bytes and the offset of that specification |
| Zip.Zip | src/zip.c:38-86 | on Z_OK the destination is exactly one complete stream that carries the whole source, for every length, after exactly as many reads as the source takes; Z_ERRNO is given exactly when a read or write fails; without I/O faults the result is Z_OK; the three assertions hold and both loops end |
| Zip.Unzip | src/zip.c:94-150 | Z_OK exactly for inputs that start with a complete stream, whose payload is then the output; anything else, empty input included, gives Z_DATA_ERROR, and a failed read or write Z_ERRNO; a call without progress is not fatal |
| Zip.ZipThenUnzip | src/zip.c:38-150 | unzip inverts zip for every source and every way zlib cuts its calls |
| Zip.InflateCall | src/zip.c:117-137 | what one inflate call inside the loop says about the whole source |
| CodecWitness.DeflaterIsLawful | src/zip.c:63-84 | the assumptions on deflate are satisfiable |
| CodecWitness.InflaterIsLawful | src/zip.c:117-141 | the assumptions on inflate are satisfiable, with the same format |
| Rename.RemoteStore.RenameFile | src/rename.c:17-51 | -1 leaves everything but the destination as it was, 1 means copied but not removed, 0 moved; whatever fails, the file is at its old or its new place in every state on the way; if nothing fails it has moved |
| Rename.RemoteStore.RenameDirectory | src/rename.c:53-139 | for disjoint paths, whatever fails and whatever stale type is used: every file stays at its old or new place with its content in every state on the way, nothing outside the two trees changes and the old tree gains nothing; if no primitive fails the whole tree has moved exactly; the recursion ends |
| Rename.RemoteStore.Rename | src/rename.c:141-186 | the same for dfs_rename, whose test of the first lookup lets failures through |
| Rename.RemoteStore.Copy | src/rename.c:29-34 | a copy that fails leaves the source intact |
| Rename.RemoteStore.Unlink | src/unlink.c:28-33 | only the named file can go |
| Rename.RemoteStore.Mkdir | src/mkdir.c:24-29 | only an absent path can become a directory |
| Rename.RemoteStore.Rmdir | src/rmdir.c:24-29 | only an empty directory can go |
| Rename.SafeChild | src/rename.c:98-126 | a child renamed safely is a safe step of the rename of its parent |
| Rename.PartStep | src/rename.c:98-126 | a child moved completely extends the part of the tree that has moved |
| Rename.PartFinish | src/rename.c:128-133 | with every child moved the old directory is empty, and removing it completes the move |
| Rename.FileMoved | src/rename.c:29-48 | copy and unlink of a file is a complete move |
| Rename.MovedIsExact | src/rename.c:53-139 | a complete move has exactly one result |
| Rename.MovedBack | src/rename.c:53-139 | over a free destination, moving back restores the store |
| Metadata.StatRoundTrip | src/metadata.c:23-78 | every stat record survives the text form over any target, except that a 64-bit field equal to -1 leaves the target's field |
| Metadata.StatRestoredIff | src/metadata.c:35-64 | the record comes back over every target if and only if no 64-bit field is -1 |
| Metadata.TextRoundTrip | src/metadata.c:15-47 | what "%lu" prints, strtoull reads back, for every 64-bit value |
| Metadata.TextForms | src/metadata.c:47 | other texts: larger numbers saturate, blanks and a sign are read, anything else is zero |
| Metadata.SymlinkStat | src/metadata.c:75-76 | the object of a symbolic link gives its size and the two bits of the file type, and leaves every other field alone |
| Metadata.OrLinkBits | src/metadata.c:76 | the two bits are set and no other bit changes |
| Metadata.StatBuf.FillFromMetadata | src/metadata.c:63-78 | the record filled in place, field by field, is the value of the specification |
| Retry.CallWithRetry | src/timeout.c:6-37 | at most one call more than the allowed retries, stops at the first final status of the operation, returns the last status, sleeps 2^k - 1 seconds for k retries |
| Retry.StopsAt | src/timeout.c:21-34 | which status stops which wrapper |
| Retry.DelayFitsIff | src/timeout.c:6-11 | the doubled delay fits a 32-bit int if and only if there were at most 30 retries |
| Retry.AllDelaysFitIff | src/timeout.c:6-37 | no delay can overflow if and only if the setting allows at most 30 retries |
| LinkedList.Add | src/list.c:15-29 | one node in front, the rest shared |
| LinkedList.Remove | src/list.c:31-64 | exactly the first match goes, in place |
| LinkedList.RemoveAll | src/list.c:66-107 | exactly the matches go, order kept, and no read or write of the loop touches a freed node |
| LinkedList.Filter | src/list.c:135-160 | the remaining elements are right, and the loop writes through a freed node if and only if the first two elements are both dropped |
| LinkedList.ListFilter | src/list.c:162-168 | what satisfies the criterion goes, and null payloads |
| LinkedList.ListRFilter | src/list.c:170-176 | what does not satisfy the criterion goes, and null payloads |
| LinkedList.FiltersComplement | src/list.c:162-176 | the two filters split the non-null elements into complementary ordered parts |
| LinkedList.FiltersConserve | src/list.c:162-176 | the two filters together lose and duplicate nothing else |
| LinkedList.KeepIsDropFirstRepeated | src/list.c:31-107 | removing all matches is removing the first match until nothing changes |
| TmpStr.SameSlotIff | src/tmpstr.c:13-20 | two calls share a slot exactly when they are a multiple of 32 apart |
| TmpStr.Lifetime | src/tmpstr.c:22-33 | a string survives 31 further calls, and from the 32nd on the slot holds the latest text that came back to it |
| TmpStr.CutIsPrefix | src/tmpstr.c:22-33 | a slot holds the text, or its first 2047 characters |
| TmpStr.PathsIntactIff | src/rename.c:104-123 | for the texts that a rename prints: the two paths handed to the recursive call on a directory survive it at every moment, wherever they are in the ring, if and only if it prints at most 30 texts |
| TmpStr.ValueViewIff | src/rename.c:98-126 | paths behave as values throughout a directory rename if and only if every direct subdirectory prints at most 30 texts |
| TmpStr.FlatDirectoryBound | src/unlink.c:35-54 | a subdirectory of plain files stays within the bound exactly up to 9 files, or 7 when they have table entries |
| TmpStr.TenFilesOverwrite | src/rename.c:104-126 | an instance: renaming a directory that holds a directory of ten files overwrites the paths of the call on it |
| TmpStr.Buffers.Format | src/tmpstr.c:22-33 | the ring in place is the ring as a value, and the returned slot holds the cut text |

## Findings

Properties that the code does not have as one might expect, each with the exact condition proved above.

- Opening an existing file for writing without O_APPEND truncates it (`OpenTruncatesIff`).
- A file cannot be created with O_APPEND (`CreateSucceedsIff`), and an append open may get a read-only descriptor (`AppendWritesIff`, `AppendIsRefused`).
- A release gives its reference back before it uploads; if the upload fails the collector may drop the only copy (`ReleasedContentKeptIff`, `FailedUploadIsLost`).
- A failed rewind after an upload goes unnoticed until a later upload stores a part of the file as the whole (`RewoundIff`, `LostRewindTruncates`).
- A failed local rename after decompression hands the packed bytes to the reader (`DecodedExactlyWhen`).
- A scratch file on descriptor 0 would tag raw bytes as "zlib" (`TagTellsTruth`, `MisroutedLosesFile`).
- Renaming a directory with a subdirectory of ten or more files overwrites the ring slots that hold its paths (`FlatDirectoryBound`, `TenFilesOverwrite`).
- The shared loop of the list filters writes through a freed node when it drops the first two elements (`Filter`).
- A time or size of -1 does not survive the metadata (`StatRestoredIff`); the back-off delay overflows from 31 retries on (`DelayFitsIff`).

## Left out

- Rename.RemoteStore.RenameDirectory: paths are values here; `TmpStr` proves when the ring buffers of the source allow that, for a rename in which every primitive succeeds.
- Rename.RemoteStore.Rename: the special destination "." is not modelled, nor are nodes that are neither file nor directory.
- DropletFs.DropletFs.FuseGetattr: only the effect on the entry; the stat buffer it fills is the subject of `Metadata`.
- DropletFs.DropletFs.CollectGarbage: one pass over a snapshot of the keys, as one step; GLib forbids removing cells while iterating, and the endless loop and its guard on the settings are not modelled.
- LinkedList.Remove: the early return for a null search key, and list_search, list_free, list_map and list_length.
- TmpStr.PathsIntactIff: the trees are not tied to the store of `Rename`, and names are given without the trailing slash that the source cuts off.
- Transfer.TagTellsTruth: the scratch file is taken to be rewound before it is sent.
- Retry.CallWithRetry: the statuses are abstract, and `delay` is unbounded; its width is the subject of `DelayFitsIff`.
- Descriptors that the source leaks: the one an open for writing replaces stays open in the model, but temporary descriptors of a download are not tracked.
- Interleavings inside a callback, with the collector in between, and the entry mutex, which open never takes and release unlocks without locking.
- libdroplet, FUSE, GLib, pthread and zlib beyond the contracts above; allocation failures; the system log.
- The index of directory entries, and what dfs_unlink, dfs_rmdir and dfs_rename do to the path table.
- Encryption: the source never turns it on for downloads (src/file.c:348-350).
- chmod, chown, symlink, readlink, fsync, statfs, xattr, the periodic metadata refresh (src/cachedir.c), configuration, mkdir_tree and path spelling.

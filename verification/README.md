# Direct-FUSE: a verified model

Direct-FUSE is a virtual file system in user space: libsysio with several file system back ends
behind it. This project models the parts of it that are hard to get right, in Dafny, one module a
part, and proves what they promise for every input, every run or every interleaving. Methods follow
the source's loops and updates in place; each is tied to a specification that does not look at the
loop.

| module | part |
|---|---|
| `Reconcile` | strided I/O: pairing memory segments with file extents around a driver that may be short |
| `IncoreFile` | the in-core driver's read, write and truncate, alone and below strided I/O |
| `FtpUpload` | the streaming FTP upload: two threads, four semaphores, a shared buffer |
| `SftpRead`, `SftpReadAhead` | SFTP reads split into outstanding requests; read-ahead under a modification version |
| `SftpFlush` | the ring of outstanding SFTP writes and the flush that splices it |
| `LinkTransform` | rewriting absolute symbolic links into relative ones |
| `AttrCache`, `AttrCacheRace` | the attribute and directory cache, one operation at a time and under concurrency |
| `NameTables`, `PathWalk`, `NamePath` | the hashed names table; path walking with mounts and symbolic links; printing a path and walking it again |
| `Prune` | pruning the name space cache |
| `Inodes` | the life of i-nodes |
| `IncoreDir`, `FuseDir` | two packed directory formats, against one specification by histories |
| `OpenFiles` | the open-file table |
| `Basics` | what the others share |

`dafny verify dfyconfig.toml` checks everything.

## What the proofs found

Where the code does not do what its comments or its purpose suggest, the model follows the code.

- Strided I/O stops early when empty segments stand before a segment that crosses the end of a run of
  contiguous extents and either come first or follow a segment that crosses one
  (`Reconcile.EmptySegmentStalls`, `Reconcile.EmptySegmentMovesNothing`); `Reconcile.CompleteIffNoStall` says that this is exactly when not
  everything is moved.
- A write to an FTP file without a connection that does not continue at the position returns its full size
  and drops its bytes, and that is the only way a write returns its size without handing its bytes to the
  transport (`FtpUpload.AtOnceIff`, `FtpUpload.OutOfPlaceWriteIsDropped`, `FtpUpload.WriteContract`).
- An empty write ends the upload (`FtpUpload.EmptyWriteEndsTheUpload`). A write may hang if and only if it is
  called when the connection's upload has been ended so and no error has been recorded, and then it does
  (`FtpUpload.WriteMayHangIff`, `FtpUpload.WriteHangs`); a flush, and so a close, never hangs
  (`FtpUpload.FlushNeverHangs`), and every call makes a bounded number of steps (`FtpUpload.CallEnds`).
- The upload thread looks at the length of the buffer while the writer may own it (`FtpUpload.ThreadsMeet`);
  it does so only where the length makes no difference (`FtpUpload.LookIsHarmless`).
- An SFTP read whose first piece fails returns 0, as at the end of the file; the error comes out only if the
  same chunk is asked again (`SftpRead.FailedReadReturnsZero`). `SftpRead.SplitRead` says exactly when a
  read returns 0, which error is then on record, and that a first read of a chunk never returns one.
- The attribute cache counts writes but not chmod, chown, truncate and utime, and does not look at the count when
  it adds a listing; so a chmod can be overtaken by a getattr, and a mkdir by a getdir, that leaves a stale
  entry which nothing purges (`AttrCacheRace.UncountedChangeLeavesStale`, `AttrCacheRace.MkdirLeavesStale`);
  `AttrCacheRace.StepKeepsInvIff` says exactly when.
- `_sysio_p_prune` does not return the number of aliases left, as its comment says: unreferenced ones that
  have an alias left below them are not counted (`Prune.CountMissesInterior`, `Prune.CountIs`,
  `Prune.CountsAllIff`). Its zero is right (`Prune.ZeroIffGone`).
- The walk accepts trailing separators behind anything, although a comment calls them illegal behind what is
  no directory: it refuses nothing that it does not refuse without them (`NamePath.WalkTrailing`), and a file
  with a separator behind its name is found (`NamePath.FileWithSeparator`).
- A walk that is not to follow a link in the last place does not follow one in the last place of any other link
  either: with `a` a link to `b` and `b` one to a directory, `a/x` is refused
  (`PathWalk.NoFollowLeaksIntoLinks`, `NamePath.NoFollowIsHandedDown`). It is at worst refused
  (`PathWalk.NoFollowOnlyRefuses`).
- `strip_common` leaves the last common component where both strings end in it without a separator: a link
  to exactly the base path is not rewritten (`LinkTransform.LinkToBaseStays`). If the path asked about had a
  dot below what it has in common with the target, the new link would lead elsewhere
  (`LinkTransform.DottedPath`); `LinkTransform.TransformSymlink` has both exact conditions.
- The second record of every directory of either driver is named `.. ` with a blank: `..` is not found and can
  be inserted (`IncoreDir.DotDotIsNotThere`, `FuseDir.DotsAreNames`).
- Duplicating a descriptor onto itself returns it, open or not, and forced or not
  (`OpenFiles.DupOntoItself`, `OpenFiles.FileTable.FdDup`).

## Model

| member | source | states |
|---|---|---|
| `Reconcile.EnumerateIovec` | src/reconcile.c:273-335 | the bytes moved are exactly the first ones of the concatenated segments, in order, at consecutive offsets; every call asks for a piece of the vector at the matching offset, below the limit; the result is below the clipped total exactly if the driver's last answer was short |
| `Reconcile.NextRun` | src/reconcile.c:183-204 | the extents collected follow each other without a gap, the next one, if any, does not, and the offset stream is that run followed by the rest |
| `Reconcile.RunStopAtGap` | src/reconcile.c:196-204 | the extents taken into a run are consecutive, and it ends at a gap or with the last |
| `Reconcile.RunEndsByRun` | src/reconcile.c:183-204 | where the runs end, told from one extent to the next, is where the runs collected end |
| `Reconcile.NextGroup` | src/reconcile.c:226-245 | exactly the leading segments that fit whole into the run are collected |
| `Reconcile.DoIO` | src/reconcile.c:164-372 | for any driver that transfers a prefix of each request: the first `acc` bytes of both vectors are paired and moved, byte by byte, and nothing else; incomplete exactly if the driver was short, at exactly the byte it refused; every call made belongs to a logged request vector, which is what comes next of the segments, totals at most its limit and lies in one contiguous run of the extents |
| `Reconcile.CompleteIffNoStall` | src/reconcile.c:164-271 | with a driver that is never short everything both vectors name is moved if and only if one reading of the segments, left to right, finds no empty ones before a segment that crosses the end of a run, at the start or behind another that does |
| `Reconcile.NoEmptySegmentNoStall` | src/reconcile.c:164-271 | without empty segments the transfer never stalls |
| `Reconcile.EmptySegmentStalls` | src/reconcile.c:226-254 | a concrete pair of vectors on which nothing is moved although both name bytes |
| `Reconcile.EmptySegmentMovesNothing` | src/reconcile.c:226-254 | the transfer of these vectors returns 0 and leaves any driver as it was |
| `Reconcile.TouchingExtents` | src/reconcile.c:183-204 | two extents that touch are one run: a concrete transfer of ten bytes that would stall if they were two |
| `IncoreFile.IncoreInode.Trunc` | drivers/incore/fs_incore.c:447-478 | the new contents, size, block count and errors |
| `IncoreFile.IncoreInode.Write` | drivers/incore/fs_incore.c:1558-1587 | a hole is refused; otherwise the file ends no sooner than the write and has its bytes |
| `IncoreFile.IncoreInode.Read` | drivers/incore/fs_incore.c:1531-1548 | the file's own bytes, as many as there are |
| `IncoreFile.ContentsAreHistory` | drivers/incore/fs_incore.c:447-478 | after any run of writes and truncates every byte below the size is the last one written there or a zero, never uninitialised |
| `IncoreFile.WriteTrace` | drivers/incore/fs_incore.c:1558-1587 | over any run of writes the file never shrinks and holds, at every place, what the last write there took from memory |
| `IncoreFile.ReadTrace` | drivers/incore/fs_incore.c:1531-1548 | over any run of reads the caller's memory holds what the file holds, the last store winning |
| `IncoreFile.SameCount` | src/reconcile.c:164-372 | writing through strided I/O and reading back into segments of the same shape returns the same count or error, also when the write stopped at a hole |
| `IncoreFile.RoundTrip` | drivers/incore/fs_incore.c:1511-1587 | with pairwise disjoint extents and pairwise disjoint destination segments the same bytes come back, in order, wherever the write stopped |
| `IncoreFile.WriteThenRead` | drivers/incore/fs_incore.c:1511-1598 | the two transfers composed: same count, same bytes, and the file never shrinks |
| `FtpUpload.StepKeepsInv` | drivers/curlftpfs/ftpfs.c:468-621 | every step of writer, upload thread and libcurl, failing or not, keeps the invariant that ties the program counters, flags and semaphores together |
| `FtpUpload.BytesInOrder` | drivers/curlftpfs/ftpfs.c:468-508 | in every reachable state the bytes at the transport followed by the buffer are all bytes accepted, in order, and the writer never fills the buffer while the thread copies from it |
| `FtpUpload.GivesWhatIsAsked` | drivers/curlftpfs/ftpfs.c:480-497 | libcurl is given the first bytes of the buffer, as many as it asks for or all |
| `FtpUpload.LookIsHarmless` | drivers/curlftpfs/ftpfs.c:477-479 | the thread looks at the buffer's length while the writer owns it only before anything was drained, and its next step is then the same whatever length it sees |
| `FtpUpload.ThreadsMeet` | drivers/curlftpfs/ftpfs.c:477-479 | and there it does |
| `FtpUpload.WriteContract` | drivers/curlftpfs/ftpfs.c:1123-1209 | over every run a write returns its size or an error, and an error exactly if the transfer has failed, it is out of place in an upload, or the upload may not start; its size, with a connection, means that exactly its bytes were accepted behind those before and that all are at the transport, and without one that it was out of place and changed nothing |
| `FtpUpload.WriteSucceeds` | drivers/curlftpfs/ftpfs.c:1123-1209 | a reachable state in which a write of three bytes has returned 3 and they are at the transport |
| `FtpUpload.FlushContract` | drivers/curlftpfs/ftpfs.c:1211-1257 | over every run a flush without a connection changes nothing; with one it accepts nothing, ends the connection, and succeeds exactly if the transfer has not failed and the server reports the position as the size |
| `FtpUpload.FailsIffGivenUp` | drivers/curlftpfs/ftpfs.c:528-560 | over every run the transfer has failed, once its thread has ended, exactly if libcurl has given up or a flush has found a file of another size |
| `FtpUpload.FlushSucceeds` | drivers/curlftpfs/ftpfs.c:1211-1257 | a reachable state in which a flush behind that write has succeeded |
| `FtpUpload.FlushFindsEverything` | drivers/curlftpfs/ftpfs.c:1211-1244 | a flush succeeds exactly if the transfer did and the server reports the position as the size; everything accepted is then at the transport, so the size check fails only if the server reports something else than it was sent |
| `FtpUpload.ThreadGetsOn` | drivers/curlftpfs/ftpfs.c:468-560 | every step of the upload thread decreases a rank, whatever libcurl does |
| `FtpUpload.BlockedOnlyIfStuck` | drivers/curlftpfs/ftpfs.c:596-621 | inside a call, a waiting writer or flush faces a thread that can move, except in the states described as stuck, in which nothing ever moves again |
| `FtpUpload.WriteMayHangIff` | drivers/curlftpfs/ftpfs.c:1123-1209 | a write may come to such a state if and only if, when it is called, there is a connection whose upload an empty write has ended and no error has been recorded |
| `FtpUpload.WriteHangs` | drivers/curlftpfs/ftpfs.c:1123-1209 | and then it never returns: every run of it is bounded and can only end stuck |
| `FtpUpload.FlushNeverHangs` | drivers/curlftpfs/ftpfs.c:1211-1257 | no run of a flush comes to such a state, from whatever handle |
| `FtpUpload.CallEnds` | drivers/curlftpfs/ftpfs.c:468-621 | every run of a call, with all steps of both threads, has boundedly many states, and where it cannot go on the call has returned or is stuck |
| `FtpUpload.WriterIsReleased` | drivers/curlftpfs/ftpfs.c:1123-1244 | without an empty write the writer is released after boundedly many steps of the thread |
| `FtpUpload.WriteAfterEmptyHangs` | drivers/curlftpfs/ftpfs.c:1123-1209 | after an empty write any further write blocks for good |
| `FtpUpload.EmptyWriteEndsTheUpload` | drivers/curlftpfs/ftpfs.c:468-508 | that state is reachable |
| `FtpUpload.AtOnceIff` | drivers/curlftpfs/ftpfs.c:1123-1175 | a write returns its size at once, nothing accepted, exactly if there is no connection, no recorded error and it does not continue at the position; it fails at once exactly if an error was recorded or the upload may not start |
| `FtpUpload.OutOfPlaceWriteIsDropped` | drivers/curlftpfs/ftpfs.c:1136-1209 | three bytes at offset 5 of a fresh handle, concretely |
| `SftpRead.ReadChunk.End` | drivers/sshfs/sshfs.c:2590-2627 | a reply ends one request, with the result that the reply itself calls for: zero for the end of the file or no data, the length of data that fits, and otherwise the error it carries or EIO; one unfinished request less |
| `SftpRead.EndsByReply` | drivers/sshfs/sshfs.c:2590-2627 | whatever the order of arrival, a request has ended exactly if it was replied to, and as its first reply says |
| `SftpRead.ReadChunk.Wait` | drivers/sshfs/sshfs.c:2681-2737 | delivers the next bytes on offer, fewer only if there are no more, and leaves exactly the rest; an error is returned exactly if it was recorded before, and a failed piece is recorded |
| `SftpRead.SendRead` | drivers/sshfs/sshfs.c:2635-2679 | the requests cover the range in order, each at most `max_read` long; one that cannot be sent has failed and is the last, and without one they cover all of it |
| `SftpRead.SplitRead` | drivers/sshfs/sshfs.c:2739-2746 | for every sequence of replies and refusals: blocked exactly while a request has not ended, then returns the bytes up to the first short or failed piece; never an error, and 0 exactly if the reply to the first request was not data that fits; the chunk has then recorded the error of that reply, or the end of the file |
| `SftpRead.FailedReadReturnsZero` | drivers/sshfs/sshfs.c:2681-2737 | a read whose request fails returns 0, and the next one on the chunk the error |
| `SftpRead.SliceAt` | drivers/sshfs/sshfs.c:2590-2627 | what is meant by the bytes of a range, byte by byte |
| `SftpRead.StatusReadTwice` | drivers/sshfs/sshfs.c:2597-2605 | a read answered with a status error returns 0, and the next one on the chunk that error |
| `SftpRead.AnyOrderReadsTheFile` | drivers/sshfs/sshfs.c:2590-2746 | for every arrival order and a server that returns prefixes, what is returned are the file's bytes from the offset asked for |
| `SftpRead.FullServerOffersAll` | drivers/sshfs/sshfs.c:2681-2737 | a server short only at end of file: all bytes of the range are returned |
| `SftpReadAhead.SshFile.SyncRead` | drivers/sshfs/sshfs.c:2739-2746 | the file's bytes in the range |
| `SftpReadAhead.SshFile.AsyncRead` | drivers/sshfs/sshfs.c:2748-2820 | the same count and bytes as the synchronous read, from any state of the read-ahead; requests are sent exactly for what has not been read ahead and, in sequence, for as much again behind it |
| `SftpReadAhead.ReadThrough` | drivers/sshfs/sshfs.c:2772-2820 | a file read in sequence from its start: the right bytes, and from the third read on each finds its own chunk read ahead |
| `SftpReadAhead.RunHistory` | drivers/sshfs/sshfs.c:2681-2820 | over any history of reads, writes and truncates the results are those of synchronous reads, one for one |
| `SftpFlush.Splice` | drivers/sshfs/sshfs.c:2542-2549 | the file's ring is an empty circular list, and the flusher's head has taken its place among the same writes in the same order |
| `SftpFlush.FileWrites.Begin` | drivers/sshfs/sshfs.c:2837-2843 | both rings stay well-formed and apart, and the lists make the protocol's step |
| `SftpFlush.FileWrites.End` | drivers/sshfs/sshfs.c:2845-2863 | the same, whichever ring the write is on |
| `SftpFlush.FileWrites.FlushStart` | drivers/sshfs/sshfs.c:2541-2546 | the same; the flush is over at once exactly if nothing is outstanding, and otherwise has taken over the file's ring |
| `SftpFlush.FileWrites.FlushMayEnd` | drivers/sshfs/sshfs.c:2547-2548 | the test on the flusher's ring is true exactly if the flush may finish |
| `SftpFlush.FileWrites.FlushEnd` | drivers/sshfs/sshfs.c:2550-2554 | the error handed out is the one recorded, and is forgotten |
| `SftpFlush.Run` | drivers/sshfs/sshfs.c:2528-2893 | every run of the protocol is a run of the lists: both rings stay well-formed circular lists without a node in common and hold exactly the outstanding writes |
| `SftpFlush.ListAdd` | drivers/sshfs/sshfs.c:478-486 | a circular doubly linked list stays one, with the entry behind the head |
| `SftpFlush.ListDel` | drivers/sshfs/sshfs.c:488-495 | a circular doubly linked list stays one, without the entry |
| `SftpFlush.Remove` | drivers/sshfs/sshfs.c:2845-2863 | a write leaves whichever ring it is on, in place |
| `SftpFlush.StepKeepsInv` | drivers/sshfs/sshfs.c:2837-2893 | the two sets of writes partition those outstanding, and an error is recorded exactly while some failure is unreported |
| `SftpFlush.FlushWaitsForEarlierWrites` | drivers/sshfs/sshfs.c:2528-2555 | over every run a flush can finish exactly when all writes begun before it have ended; later ones never hold it up |
| `SftpFlush.NoErrorIsLost` | drivers/sshfs/sshfs.c:2551-2554 | a failed write's error is still recorded or a finished flush returned an error after it |
| `SftpFlush.NoErrorIsInvented` | drivers/sshfs/sshfs.c:2551-2554 | the error on record is that of a failed write not reported yet, and every error a flush returned is that of a write it reported |
| `LinkTransform.CountComponents` | drivers/sshfs/sshfs.c:1951-1961 | the number of components |
| `LinkTransform.StripCommon` | drivers/sshfs/sshfs.c:1963-1974 | takes the same leading components off both strings, and exactly when it comes to the end of the second |
| `LinkTransform.LeadsToTarget` | drivers/sshfs/sshfs.c:1976-2015 | climbing out of the names below the common ones and down those of the link resolves to the target, dots in it or not |
| `LinkTransform.NewLink` | drivers/sshfs/sshfs.c:1998-2014 | the text written and its NUL fit the length allocated |
| `LinkTransform.TransformSymlink` | drivers/sshfs/sshfs.c:1976-2015 | rewritten exactly under a stated condition; the new link is relative and, below every base path, resolves from the directory of `path` to the old target exactly if no dot is among the names it climbs out of; then, without dots in the target, to exactly its components below the base path |
| `LinkTransform.DotMisleads` | drivers/sshfs/sshfs.c:1992-2002 | with a dot there it leads elsewhere |
| `LinkTransform.DottedPath` | drivers/sshfs/sshfs.c:1992-2002 | a concrete such path |
| `LinkTransform.LinkToBaseStays` | drivers/sshfs/sshfs.c:1986-1990 | a link to exactly the base path, neither ending in a separator, is not rewritten |
| `LinkTransform.LinkToBase` | drivers/sshfs/sshfs.c:1986-1990 | `/b` below `/b`, concretely |
| `AttrCache.CleaningIsInvisible` | drivers/sshfs/cache.c:77-96 | cleaning changes no answer at any later time |
| `AttrCache.RenameDropsSubtree` | drivers/sshfs/cache.c:148-167 | every key at or below the old path is gone |
| `AttrCache.ParentOfChild` | drivers/sshfs/cache.c:108-120 | the key purged as the parent of an entry is that of the directory it is listed in |
| `AttrCache.UnderByParent` | drivers/sshfs/cache.c:148-167 | a path lies below another exactly if it is that path or its parent does |
| `AttrCache.RenameKeepsCoherent` | drivers/sshfs/cache.c:157-167 | nothing a rename may have changed is answered from the table |
| `AttrCache.Cache.Clean` | drivers/sshfs/cache.c:86-96 | no answer changes, now or later; when it is due exactly the expired nodes go |
| `AttrCache.Cache.AddAttr` | drivers/sshfs/cache.c:180-197 | added exactly if no write was counted since, answered then exactly until the timeout, and no other answer changes |
| `AttrCache.Cache.GetAttr` | drivers/sshfs/cache.c:236-274 | the back end's answer; the back end is asked exactly if the cache has none, and what it says is kept until the timeout |
| `AttrCache.Cache.GetDir` | drivers/sshfs/cache.c:300-352 | the back end's listing; the back end is asked exactly if the cache has none, and the listing and the attributes that came with it are kept until their timeouts |
| `AttrCache.GetAttrTwice` | drivers/sshfs/cache.c:236-274 | asked twice within the timeout the back end is asked at most once |
| `AttrCache.Cache.ChangeEntry` | drivers/sshfs/cache.c:370-408 | the path and its parent, and nothing else, are purged; the cache stays coherent with the changed back end |
| `AttrCache.Cache.ChangeAttr` | drivers/sshfs/cache.c:428-467 | the path, and nothing else, is purged; the cache stays coherent with the changed back end; only a write counts |
| `AttrCache.Cache.Rename` | drivers/sshfs/cache.c:410-416 | exactly the keys that begin with the old path, the new path and both parents are purged; the cache stays coherent, and nothing below the old path is left |
| `AttrCache.RunOps` | drivers/sshfs/cache.c:264-500 | any run of operations gets, one for one, the answers of the back end alone |
| `AttrCacheRace.StepKeepsInvIff` | drivers/sshfs/cache.c:180-213 | attributes and listings: from a state where everything cached or about to be cached is current or awaits a purge, a step leads to such a state if and only if it is no purge that overtakes a reader between its fetch and its add without stopping it |
| `AttrCacheRace.CountedIsNoHazard` | drivers/sshfs/cache.c:132-138 | a write, which counts, overtakes no reader of attributes |
| `AttrCacheRace.HazardLeavesStale` | drivers/sshfs/cache.c:199-213 | any such purge lets a stale entry in that nothing purges |
| `AttrCacheRace.CachedOrPending` | drivers/sshfs/cache.c:253-352 | under every interleaving without one, cached attributes and listings are the back end's unless a change to that path has not invalidated yet |
| `AttrCacheRace.UncountedChangeLeavesStale` | drivers/sshfs/cache.c:428-434 | a chmod between the fetch and the add of a getattr is one |
| `AttrCacheRace.MkdirLeavesStale` | drivers/sshfs/cache.c:378-384 | a mkdir between the fetch and the add of a getdir is one |
| `PathWalk.NameSpace.BaseOf` | src/inode.c:630-671 | the base node of a name, found through the names table or made there; name space and table still agree |
| `PathWalk.NameSpace.FindAlias` | src/inode.c:621-695 | returns the alias of that name below that alias, found or made, with one reference more on it; nothing else moves |
| `PathWalk.NameSpace.LookupComponent` | src/namei.c:98-170 | gives one reference, on the node it returns, or none; the node is the one the name leads to, through all covers; a permission check that is asked for and fails is the result, with no node, and otherwise the driver's answer is |
| `PathWalk.NameSpace.Walk` | src/namei.c:182-506 | ends, whatever the links; one reference more, on the result, or none on an error; for drivers that never change their mind it returns the node, or fails with the error, that `Resolve` reads off the path, with links followed, permissions checked unless the flag says no, and nodes that may be missing; with any drivers but no links the result is where the components lead |
| `PathWalk.ResolveGrows` | src/namei.c:182-506 | where a path leads, links followed, does not change as the cache grows |
| `PathWalk.LeadsCached` | src/namei.c:182-506 | so the walk returns what the path resolved to before it, if all of it was cached |
| `PathWalk.LinkToItself` | src/namei.c:264-268 | a link to itself ends in ELOOP, however deep nesting may go |
| `PathWalk.NoFollowOnlyRefuses` | src/namei.c:279-289 | without following the last link a path is refused with ENOTDIR, ends on a link, or ends as it does with |
| `PathWalk.NoFollowLeaksIntoLinks` | src/namei.c:279-289 | a path that is refused so although its last component is no link |
| `PathWalk.Forbidden` | src/namei.c:112-120 | where every permission check fails, every path with a component, from a directory, fails with that error |
| `PathWalk.NegOkOnlyAdmits` | src/namei.c:444-451 | a walk that may end on a missing node ends as one that may not, or that one fails with ENOENT and this one ends on a node that is missing |
| `PathWalk.NameSpace.FollowLink` | src/namei.c:258-307 | the reference moves on to where the text of the link leads from its parent, or stays on an error; at MAX_SYMLINK the error is ELOOP |
| `PathWalk.AlongGrows` | src/inode.c:621-695 | what a list of names leads to stays so, however the cache grows |
| `PathWalk.TopOfCovers` | src/namei.c:146-157 | the node a walk climbs to is what all covers lead to, one by one, and is not covered |
| `NameTables.NameTable.PbNew` | src/inode.c:384-431 | a new node, one more name, all tables consistent |
| `NameTables.NameTable.PbDestroy` | src/inode.c:433-460 | the node is gone from all tables, one name less |
| `NameTables.NameTable.FindChild` | src/inode.c:630-661 | through the hash or not, the answer of a scan of the parent's children, and none exactly if there is no such child |
| `NameTables.NameTable.GetChild` | src/inode.c:630-671 | exactly one node with that parent and name afterwards |
| `NameTables.BucketAnswersAsChildren` | src/inode.c:635-645 | a bucket answers as the list of children does |
| `NameTables.NameTable.PbPath` | src/inode.c:831-880 | the buffer holds exactly the path and a NUL |
| `NamePath.ComponentsOfFlat` | src/namei.c:80-93 | the components of a printed path are the names printed |
| `NamePath.TrailingSlashIsIgnored` | src/namei.c:80-93 | a trailing separator changes no component |
| `PathWalk.OnlySlashesAreSkipped` | src/namei.c:83-84 | before a component separators are skipped, and nothing else |
| `NamePath.WalkTrailing` | src/namei.c:182-506 | a walk with a separator behind the path ends as it says of the path without |
| `NamePath.FileWithSeparator` | src/namei.c:469-481 | `/f/`, with `f` a file, returns the file |
| `NamePath.NoFollowIsHandedDown` | src/namei.c:279-289 | the walk itself refuses `a/x` of `NoFollowLeaksIntoLinks`, and reaches `x` if the last link is to be followed |
| `NamePath.WalkForbidden` | src/namei.c:112-120 | where every check fails a checked walk of any path with a component, from a directory, returns that error and leaves every reference as it was |
| `NamePath.ForbiddenFile` | src/namei.c:112-120 | a file in a directory that may not be searched is found exactly if permissions are not checked, and is otherwise refused with the error of the check |
| `NamePath.WalkMissing` | src/namei.c:444-451 | a name of a missing node: the walk returns the node if that is asked for, and ENOENT otherwise |
| `NamePath.NamesLeadBack` | src/inode.c:831-880 | the names of a node lead, from the root of its mount, to the node |
| `NamePath.WalkBack` | src/namei.c:182-506 | where nothing on the way is covered and there are no symbolic links, walking what was printed for a node ends on that node; the walk uses the same names table the path was printed from |
| `Prune.NameCache.PPrune` | src/inode.c:721-822 | what is left, the count, and n_names still the number of base nodes |
| `Prune.NameCache.SweepBase` | src/inode.c:697-719 | of nodes without aliases exactly those that lead to one with an alias are left |
| `Prune.NameCache.PGone` | src/inode.c:561-577 | a base node goes with its last alias and child |
| `Prune.ExactlySurvivors` | src/inode.c:727-822 | left are, on other mounts, all aliases, and on this mount exactly those with a referenced alias or mount root at or below them |
| `Prune.OtherMountsStay` | src/inode.c:742-750 | aliases on other mounts are untouched |
| `Prune.ParentsStay` | src/inode.c:792-797 | the parent of every alias left is left, on every mount |
| `Prune.StaysIff` | src/inode.c:561-577 | a base node stays exactly if an alias at or below it does |
| `Prune.PruneTrims` | src/inode.c:697-822 | what is left is the tree without some of its nodes: nothing moves |
| `Prune.DeadLeftIff` | src/inode.c:697-752 | no base node without an alias at or below it is left exactly if there was none where neither pass looks |
| `Prune.ZeroIffGone` | src/inode.c:721-726 | the count is zero exactly if nothing of the sub-tree on that mount is left |
| `Prune.CountIs` | src/inode.c:721-822 | the count is the number of aliases on the mount in the tree that is left, less the unreferenced ones there with another one below |
| `Prune.CountsAllIff` | src/inode.c:721-726 | it is that number exactly if, in the tree given, no unreferenced alias on the mount has a referenced one or a mount root below it |
| `Prune.CountMissesInterior` | src/inode.c:721-726 | a concrete tree that stays as it is, with two aliases, of which one is counted |
| `Inodes.InodeCache.New` | src/inode.c:228-288 | a new i-node with one holder, in all tables; others go only by reclaiming, above the limit |
| `Inodes.InodeCache.Find` | src/inode.c:290-314 | none exactly if all with that identifier are zombies; never a zombie; the one found has one reference more, and nothing else changes |
| `Inodes.InodeCache.Bind` | src/inode.c:583-615 | a base node takes over the i-node looked up; one that it had before is only released, and all others stay as they were |
| `Inodes.InodeCache.Reclaim` | src/inode.c:170-209 | frees exactly the idle ones among the i-nodes at the head of the queue, looking no further than it must to get below half of the limit; raises the limit if it is too low or too many are left |
| `Inodes.InodeCache.IGone` | src/inode.c:316-333 | an unreferenced i-node leaves all tables |
| `Inodes.InodeCache.IRele` | include/inode.h:195-202 | one reference less; a zombie's last frees it |
| `Inodes.InodeCache.Unlink` | src/unlink.c:105-124 | the name lets go and the i-node lives on as a zombie exactly while something holds it; nothing else changes |
| `Inodes.InodeCache.Rename` | src/rename.c:188-194 | what the new name had is killed and the reference of the old name moves; no other i-node changes, and none if both names have the same |
| `Inodes.InodeCache.Open` | src/file.c:102-123 | an open file holds the i-node of its name; nothing else changes |
| `Inodes.InodeCache.Close` | src/file.c:126-141 | closing gives that reference back |
| `Inodes.ThereWhileHeld` | include/inode.h:183-211 | what is held is there, and a zombie is there only while held |
| `Inodes.InodeCache.Run` | src/inode.c:174-345 | over any run every count is the number of holders, nothing held is freed, no zombie is in a table, n_inodes counts the i-nodes, and an i-node is a zombie exactly if it was one before or some step has removed a name of it |
| `IncoreDir.ChainRises` | drivers/incore/fs_incore.c:751-793 | the chain of records starts at zero, rises strictly and ends at the size; gaps are zero |
| `IncoreDir.Directory.Probe` | drivers/incore/fs_incore.c:751-824 | finds the record with the name and the one before it, or the last |
| `IncoreDir.Directory.InsertEntry` | drivers/incore/fs_incore.c:1067-1169 | refuses a name in use; otherwise exactly that name is added, with its i-node and kind, behind the last record; the directory grows as far as it must, and the layout is kept |
| `IncoreDir.Directory.UnlinkEntry` | drivers/incore/fs_incore.c:1243-1290 | exactly that name is removed, its place becomes a gap, and layout and size are kept |
| `IncoreDir.Directory.IsEmpty` | drivers/incore/fs_incore.c:1292-1317 | the link-count test is an exact test for emptiness |
| `IncoreDir.Directory.Run` | drivers/incore/fs_incore.c:1067-1290 | over any run each call returns what the history calls for, the entries have the i-node and kind last inserted and not removed, and the link count is the number of names in use, the first two included |
| `IncoreDir.DotDotIsNotThere` | drivers/incore/fs_incore.c:410-412 | a new directory does not find `..` and takes it as a new name |
| `FuseDir.TilesExactly` | drivers/fuse/sysio_fuse.c:574-614 | the records, tombstones included, tile the directory exactly |
| `FuseDir.FuseDirectory.InsertEntry` | drivers/fuse/sysio_fuse.c:733-838 | always grows, by exactly the new record, so `n` has a value where it is used; exactly that name is added, with its i-node and kind |
| `FuseDir.FuseDirectory.UnlinkEntry` | drivers/fuse/sysio_fuse.c:876-906 | the record, any record, becomes a tombstone, the size stays, exactly that name is removed |
| `FuseDir.FuseDirectory.Run` | drivers/fuse/sysio_fuse.c:733-906 | over any run the directory answers as the history of names, i-nodes and kinds does |
| `FuseDir.DotsAreNames` | drivers/fuse/sysio_fuse.c:566-568 | a new directory does not find `..` and takes it as a new name; even `.` can be removed then |
| `OpenFiles.FileTable.FdGrow` | src/file.c:164-193 | every slot keeps what it had; a size above INT_MAX is refused |
| `OpenFiles.FileTable.FindFree` | src/file.c:205-231 | the lowest free slot at or above the request |
| `OpenFiles.FileTable.FdClose` | src/file.c:245-263 | the record is destroyed exactly with its last slot |
| `OpenFiles.FileTable.FdSet` | src/file.c:265-305 | only the slot chosen changes, and the record it had is destroyed exactly if that was its last |
| `OpenFiles.FileTable.FdDup` | src/file.c:307-332 | both descriptors share the record, also if they did before; the result is open unless a closed descriptor was duplicated onto itself |
| `OpenFiles.FileTable.FdCloseAll` | src/file.c:334-361 | every slot is free and every record ever made has been destroyed |
| `OpenFiles.FileTable.Open` | src/open.c:218-246 | a new record in the lowest free slot, or none and the record destroyed at once |
| `OpenFiles.DupOntoItself` | src/file.c:321-322 | a descriptor that is not open, duplicated onto itself, is returned and still not open |
| `OpenFiles.FileTable.Run` | include/file.h:104-119 | over any run every count is the number of slots, and every record is live or destroyed once |

## Left out

- libcurl, ssh start-up, sockets, pseudo-terminals, the native, yod, glusterfs, cruise and bbfs wrappers, logging: foreign calls or thin wrappers.
- Overflow checks of `ssize_t` and `off_t` sums in strided I/O, and `_sysio_validx`: lengths are unbounded here.
- Failure of memory allocation, everywhere.
- `Reconcile.DoIO`: the callback is a function of the driver's state and the request; a driver that aborts is not modelled.
- `FtpUpload.StepKeepsInv`: one writer thread; that the thread and the connection cannot be started is not modelled; opening with truncation and the reconnect options are not modelled, nor is what libcurl does with the bytes.
- `SftpReadAhead.RunHistory`: operations one at a time, all requests accepted by the transport; truncation by opening another handle is outside, since it does not change the version.
- `SftpFlush.FileWrites.FlushStart`: one flusher at a time for each file.
- Reconnects and `outstanding_len` of SFTP requests; reference counts of chunks.
- `AttrCache.RunOps`: no hard links and no cached readlink; a failed operation of the back end is one that changes nothing and is not asked for.
- `PathWalk.NameSpace.Walk`: intents and the path hint passed to drivers are not modelled, nor is automounting; nodes are not reclaimed during a walk. What a path resolves to is stated for drivers that do not change their mind and for permission checks that do not fail with ENOENT, which `_sysio_permitted` never does.
- `PathWalk.NameSpace.PRef`: the order of the queue of path nodes, used only for reclaiming, is not modelled.
- `NameTables.NameTable.PbNew`: the reclaiming that may come first is not modelled; a name whose hash is zero, on which the source aborts, is treated like any other.
- `Prune.NameCache.PPrune`: the sub-tree is a value, so update in place of the intrusive lists is not captured; a base node has at most one alias for each mount, which the way aliases are made ensures.
- `Inodes.InodeCache.Bind`: a lookup that fails leaves a node that had no i-node without one, as the drivers' lookups do.
- `Inodes.InodeCache.New`: device operations put into the i-node are not modelled.
- `IncoreDir.Directory.InsertEntry`: bytes of a record's header are kept together in its first one; d_type is carried along, times are not. Filling in directory entries from a position and directory rename are not modelled.
- `IncoreDir.Directory.UnlinkEntry`: not for the two first records, on which the source asserts.
- `FuseDir.FuseDirectory.InsertEntry`: names are not empty, which path components never are; a tombstone would match an empty name.
- `OpenFiles.FileTable.Open`: what the driver does at open and close, and the reference to the path node, are not modelled here.
- `OpenFiles.FileTable.FdCloseAll`: the release of the working directory is not modelled.
- FTP listing parsing, charset conversion, option parsing, the boot-string parser and the stat conversions: they translate between formats at the edge of the program, mostly by `sscanf`, `strptime` and iconv, and keep no state that another operation relies on.
- The FTP driver's own cache, the non-`d_off` layout of the in-core driver and `src/file_hack.c`: alternate configurations.

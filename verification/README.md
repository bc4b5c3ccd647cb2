# FernFS: a verified model of its core

FernFS is a user-space NFS version 3 server. These modules model the parts of it
that carry invariants and prove what those parts promise, for all inputs, all
answers of the disk, the clock and the network, and all runs.

| part | modules |
|---|---|
| path/id/inode cache of the mirror file system | `FsMapState` (operations as functions on a state value), `FsMapInvariant`, `FsMapTree`, `FsMapClear`, `FsMapReturns` (what removing a tree keeps, what it removes, when it returns), `FsMapRename`, `FsMapRefresh`, `FsMapAnswers` (what refreshes and relistings answer, and when), `FsMap` (the class that updates the maps in place) |
| mirror file system calls | `MirrorFsCalls` (transitions), `MirrorFsRuns`, `MirrorFsExact` (safety of runs), `MirrorFsPromises`, `MirrorFsEffects` (what a call promises), `MirrorFsAnswers`, `MirrorFsOutcomes` (what each call answers, and when), `MirrorFsRelist`, `MirrorFsPaging` (an unchanging directory, page by page), `MirrorFsListing`, `MirrorFsCycle`, `MirrorFsOwnId` (two runs, call by call), `MirrorFs` (the class) |
| XDR and RPC messages | `Xdr`, `XdrRpc`, `XdrNfs`, `XdrNfsStreams`, `Portmap`, `Handles` (file handles), `WireFormat` (the words on the wire) |
| record marking | `RecordMarking` |
| duplicate request cache, command worker | `TransactionTracker`, `WorkQueue`, `WorkFold`, `WorkClock` (interleaved connections against one fold), `RpcWorker`, `RpcAnswers` (which calls reach a handler) |
| READDIR and READDIRPLUS | `DirPage` (one page), `DirListing` (paging as a whole), `DirAnswers` (what a client reads, and how full a page is) |
| READ | `FileBytes`, `SequentialRead`, `ReadAnswers` (what a client reads) |
| in-memory file system | `DemoTable` (entry table), `DemoTree` (what stays below the root), `DemoFs` (the class with shared buffers) |
| MNT | `Mount`, `MountAnswers` (what a client reads) |
| shared | `Wrappers`, `Ordered` (symbols, paths and the order of `BTreeSet`/`BTreeMap`), `NfsReply` |

Objects that the program changes in place are classes; each method is tied to a
function on the object's value, and the invariants and main theorems are lemmas
about those functions. `dafny verify dfyconfig.toml` checks everything.

Inputs from outside are parameters: which paths exist and their metadata, the
outcome of a disk call, a directory scan, clock readings, handler replies, the
byte stream of a connection, the order in which a hash map yields its keys.
Nothing relates one answer of the disk to the next, so the theorems about the
cache hold while the disk is changed behind the server's back.

## Where the code does not do what one might expect

Each of these is proved, with the condition under which the code does meet the
expectation.

* After `refresh_entry` answers Delete the id can stay in the cache as a dead
  entry, because its aliases were unmapped before `remove_path` looked for them
  (`FsMapRefresh.GoneYetLive`). Paths and aliases stay exact inverses if and only
  if some alias still existed on disk (`FsMapRefresh.RefreshExactIff`). The id is
  forgotten if and only if exactly one did; for a directory with cached children,
  when none of those that exist lies below the first of them
  (`FsMapRefresh.DeleteForgetsIff`).
* `rename_path_prefix` depends on the iteration order of a hash map. It is an
  exact relabelling in every order if and only if no moved path lands on a moved
  path, or on a cached one with a different id (`FsMapRename.RenameExactIff`). The
  rename call clears the cached tree at its target first, so there it moves the
  subtree and its ids whenever neither path lies below the other
  (`MirrorFsPromises.RenameMovesSubtree`), and keeps paths and aliases exact
  inverses if and only if no moved path lands on what survived the clearing under
  another id (`MirrorFsPromises.RenameExactIffClear`). When the children cached below
  the target agree with the path map, what survives is what they do not reach
  (`MirrorFsPromises.RenameExactIffLandsClear`).
* `remove_path_tree` need not return. On a given id it returns whatever path it is
  called with if and only if no cycle of cached children can be reached from that
  id (`FsMapReturns.ReturnsIff`); it returns at one path under the same condition,
  when the directories reached have a path elsewhere (`FsMapReturns.ReturnsAtIff`).
  Four directory listings, with two moves on disk between them, lead from start-up to
  such a cycle and on to a refresh that never returns (`MirrorFsCycle.CycleReached`).
* A lookup can return the directory's own id for a name that the disk no longer
  has: exactly if the name is cached as that id and is cached under the
  directory's next alias too (`MirrorFsPromises.LookupMissing`). Four directory
  listings from start-up lead there (`MirrorFsOwnId.OwnIdFound`).
* Interleaved connections need not keep the store that one worker would that took
  their commands in the same order. They do, but for the commands being executed, if
  and only if no check sweeps, later than the sweep before, while commands that are
  going to fail are all the store holds (`WorkClock.StoresAgreeIff`); then they also
  answer alike (`WorkClock.InterleavingIsProcessAll`). After such a sweep a request
  can be executed a second time that the single worker would replay
  (`WorkClock.SweepTimingMatters`).
* A call of another RPC version is told that versions 0 to 0 are supported, where
  section 9 of RFC 5531 has the lowest and highest version, 2 and 2, there
  (`RpcAnswers.CallIsAnswered`).
* `write_fragment` sends nothing for an empty message, so a stream delivers
  exactly its messages if and only if all are non-empty and within the record
  limit (`RecordMarking.RoundTripIff`).
* A paging client gets the whole listing if and only if every entry fits a page of
  its own; otherwise it stops at TOOSMALL before the first that does not
  (`DirListing.ClientCompleteIff`).
* In the in-memory file system a rename onto the same name in the same directory
  loses the entry (`DemoTable.RenameKeepsListedIff`), `remove` leaves the size of
  the emptied entry, which no directory lists any more (`DemoFs.DemoFS.Remove`),
  and setting a size updates one of several hard links (`DemoFs.DemoFS.SetSize`).
  A rename keeps all listed entries below the root if and only if it does not move a
  directory into itself or below itself, nor into one that is gone, nor replace a
  directory that holds anything but the moved entry (`DemoTree.RenameKeepsRootedIff`).
* Slashes are ignored after the export's name, not in front of it
  (`Mount.DoubledSlashRejected`).

## Model

| member | source | states |
|---|---|---|
| FsMap.FSMap.constructor | src/bin/fernfs/fs_map.rs:54-69 | a new cache is the start state: the root is id 0 at the empty path, bound to its inode |
| FsMap.FSMap.RemovePath | src/bin/fernfs/fs_map.rs:90-107 | unmaps the path, moves the primary name to the least remaining alias, drops the entry and its inode with the last alias |
| FsMap.FSMap.RenamePathPrefix | src/bin/fernfs/fs_map.rs:110-136 | the result is that of moving the paths below the prefix one by one in some order of the hash map |
| FsMap.FSMap.RemovePathTree | src/bin/fernfs/fs_map.rs:139-162 | the recursion over the cached children, ending with the path itself |
| FsMap.FSMap.DeleteEntry | src/bin/fernfs/fs_map.rs:165-169 | a live entry's primary path is removed as a tree |
| FsMap.FSMap.FindChild | src/bin/fernfs/fs_map.rs:182-190 | a child is what the directory's primary path extended by the name maps to |
| FsMap.FSMap.ForgetMissing | src/bin/fernfs/fs_map.rs:195-208 | the loop unmaps exactly the aliases missing from the disk, keeps the others and picks the least of them |
| FsMap.FSMap.RefreshEntry | src/bin/fernfs/fs_map.rs:193-256 | every branch of a refresh, for any answers of the disk |
| FsMap.FSMap.RefreshDirList | src/bin/fernfs/fs_map.rs:259-304 | every branch of a relisting, including scans cut short by an error |
| FsMap.FSMap.CreateEntry | src/bin/fernfs/fs_map.rs:307-340 | same path and inode updates, reused path detaches, known inode becomes a hard link, otherwise a new id |
| FsMapInvariant.InitialExact | src/bin/fernfs/fs_map.rs:54-69 | the start state has the index invariant in its exact form |
| FsMapInvariant.RemovePathKeeps | src/bin/fernfs/fs_map.rs:90-107 | remove_path keeps the index invariant, also the exact one, and all id/inode bindings |
| FsMapInvariant.CreateEntryKeeps | src/bin/fernfs/fs_map.rs:307-340 | create_entry keeps the index invariant, also the exact one, and never rebinds or reissues an id |
| FsMapInvariant.CreateEntryMaps | src/bin/fernfs/fs_map.rs:307-340 | create_entry maps its path to the id it returns and changes no other path |
| FsMapInvariant.CreateEntryBinds | src/bin/fernfs/fs_map.rs:307-340 | the returned id is live and bound to the inode given, so hard links share an id |
| FsMapAnswers.CreateEntryAnswers | src/bin/fernfs/fs_map.rs:307-340 | the id is that of the path if it is cached as the inode, else that of the inode, whose entry gains the path as an alias, else the next one, for an entry without other aliases or children; its attributes are those reported |
| FsMapTree.RemovePathPrunes | src/bin/fernfs/fs_map.rs:90-107 | remove_path removes no other path and drops no id that has another alias |
| FsMapTree.TreeRemoval | src/bin/fernfs/fs_map.rs:139-162 | remove_path_tree removes only paths that extend its path, keeps every alias outside and so every id with one, keeps the invariant and the exact one if it held |
| FsMapClear.TreeClears | src/bin/fernfs/fs_map.rs:139-162 | remove_path_tree unmaps every path reached through cached children, given that these agree with the path map |
| FsMapClear.TreeUnmapsReached | src/bin/fernfs/fs_map.rs:139-162 | a path that remove_path_tree unmaps is reached through cached children, agreeing or not |
| FsMapClear.TreeUnmapsIff | src/bin/fernfs/fs_map.rs:139-162 | with agreeing children exactly the paths reached are unmapped |
| FsMapReturns.NoCycleReturns | src/bin/fernfs/fs_map.rs:139-162 | without a reachable cycle of cached children a deletion returns, nesting no deeper than there are entries |
| FsMapReturns.ReturnsIff | src/bin/fernfs/fs_map.rs:139-162 | a deletion of an id returns whatever the path if and only if no cycle of cached children can be reached from that id |
| FsMapReturns.FirstCycleNeverReturns | src/bin/fernfs/fs_map.rs:139-162 | a cycle through children visited first, of any length, never returns at any path |
| FsMapReturns.LassoNeverReturns | src/bin/fernfs/fs_map.rs:139-162 | a chain of cached children that comes back to itself, through directories that each have a path elsewhere, never returns, whatever was removed below the path before |
| FsMapReturns.ReturnsAtIff | src/bin/fernfs/fs_map.rs:139-162 | at one path, when the directories reached have a path elsewhere, a deletion returns if and only if no cycle is reached |
| FsMapReturns.DepthIrrelevant | src/bin/fernfs/fs_map.rs:139-162 | a deletion that returns has the same result however deep it was allowed to go |
| MirrorFsCycle.CycleReached | src/bin/fernfs/fs.rs:304-360 | four READDIR calls from start-up, with two moves on disk between them, reach a cycle within the exact index invariant; refreshing a directory of it that has vanished then never returns |
| FsMapRename.RenameKeeps | src/bin/fernfs/fs_map.rs:110-136 | in any order and for any prefixes the index invariant survives and ids keep their inodes |
| FsMapRename.NoClashRelabels | src/bin/fernfs/fs_map.rs:115-126 | without a clash each from++s moves to to++s with its id and all other paths are untouched, whatever the order |
| FsMapRename.NoChainOverlays | src/bin/fernfs/fs_map.rs:115-126 | when no moved path lands on a moved one, every order lays the moved subtree over what is at the target: moved paths win, all others stay |
| FsMapRename.OverlayIff | src/bin/fernfs/fs_map.rs:110-136 | a rename is that overlay in every order if and only if no moved path lands on a moved one |
| FsMapRename.NoChainEntries | src/bin/fernfs/fs_map.rs:127-134 | then aliases and primary names move with the paths, also where a path is overwritten |
| FsMapRename.NoClashKeepsExact | src/bin/fernfs/fs_map.rs:110-136 | without a clash paths and aliases stay exact inverses |
| FsMapRename.RenameKeepsExactIff | src/bin/fernfs/fs_map.rs:110-136 | when no moved path lands on a moved one, paths and aliases stay exact inverses if and only if there is no clash |
| FsMapRename.ChainLoses | src/bin/fernfs/fs_map.rs:124-126 | when a path lands on another moved path, some order of the hash map loses it |
| FsMapRename.RenameExactIff | src/bin/fernfs/fs_map.rs:110-136 | a rename is an exact relabelling in every order if and only if no moved path lands on a moved path or on a cached path with a different id |
| FsMapRename.DescendantsKeepIds | src/bin/fernfs/fs_map.rs:110-136 | when neither path lies below the other, descendants of a renamed directory resolve to the ids they had |
| FsMapAnswers.RefreshAnswers | src/bin/fernfs/fs_map.rs:193-256 | a refresh of a live id answers Delete if and only if no alias exists or what is there has another inode or type than those cached, IO if and only if an alias exists without metadata, and otherwise Noop or Reload by whether its attributes are those cached |
| FsMapAnswers.RefreshLeaves | src/bin/fernfs/fs_map.rs:195-256 | unless it answers Delete, exactly the aliases that are gone are unmapped, the first remaining one is the name, the attributes are those reported on Reload and the old ones otherwise, children, inodes and every other entry stay |
| FsMapAnswers.DeleteLeaves | src/bin/fernfs/fs_map.rs:218-247 | after Delete the first path that still existed is unmapped, and of the paths outside its tree only aliases that are gone |
| FsMapRefresh.RefreshKeeps | src/bin/fernfs/fs_map.rs:193-256 | any refresh keeps the index invariant and all id/inode bindings |
| FsMapRefresh.RefreshUnmaps | src/bin/fernfs/fs_map.rs:198-208 | after a refresh no alias missing from the disk is mapped, and no path is mapped anew or differently |
| FsMapRefresh.RefreshConfirms | src/bin/fernfs/fs_map.rs:224-255 | Reload and Noop leave the id live, bound to the inode the disk reports, named by its least existing alias, with current attributes |
| FsMapRefresh.GoneYetLive | src/bin/fernfs/fs_map.rs:198-217 | when no alias exists the answer is Delete, yet the entry stays in the cache with stale aliases |
| FsMapRefresh.RefreshExactIff | src/bin/fernfs/fs_map.rs:198-217 | a refresh keeps paths and aliases exact inverses if and only if some alias exists on disk |
| FsMapRefresh.DeleteForgetsIff | src/bin/fernfs/fs_map.rs:210-230 | an id answered with Delete is forgotten if and only if exactly one alias still existed; for a directory with cached children, given that no existing alias lies below the first existing one |
| FsMapAnswers.RelistAnswers | src/bin/fernfs/fs_map.rs:259-304 | on a directory a relisting succeeds if and only if the scan opened, every entry has metadata and none ended it early, and otherwise answers the status of opening, IO, or the error that ended it; a file is left alone |
| FsMapAnswers.RelistFails | src/bin/fernfs/fs_map.rs:272-290 | a relisting that fails keeps the cached children, and every name not listed resolves as before |
| FsMapAnswers.RelistFailedSees | src/bin/fernfs/fs_map.rs:278-286 | a name listed before the failure resolves to an id bound to the inode it was last seen with |
| FsMapAnswers.RelistTouches | src/bin/fernfs/fs_map.rs:259-304 | a successful relisting unmaps the cached children that were not listed, and no other path that was not listed changes |
| FsMapRefresh.RelistKeeps | src/bin/fernfs/fs_map.rs:259-304 | any relisting, also one that fails half way, keeps the index invariant and the exact one |
| FsMapRefresh.RelistAgrees | src/bin/fernfs/fs_map.rs:259-304 | after a relisting the cached children are exactly the listed names, each resolves to its recorded live id, and dropped children no longer resolve |
| FsMapRefresh.RelistBinds | src/bin/fernfs/fs_map.rs:278-286 | the id recorded for a listed name is bound to the inode the scan saw for it last |
| FsMapRefresh.RelistElsewhere | src/bin/fernfs/fs_map.rs:259-304 | a name the scan missed resolves afterwards only if it was no cached child, and then as before |
| MirrorFs.MirrorFS.Lookup | src/bin/fernfs/fs.rs:179-217 | cached hit refreshed first, then the disk, refresh of the directory, relisting |
| MirrorFs.MirrorFS.CreateObject | src/bin/fernfs/fs.rs:71-159 | cache bookkeeping of create, mkdir and symlink |
| MirrorFs.MirrorFS.MakeNode | src/bin/fernfs/fs.rs:859-876 | cache bookkeeping of mknod |
| MirrorFs.MirrorFS.Link | src/bin/fernfs/fs.rs:651-699 | cache bookkeeping of link |
| MirrorFs.MirrorFS.Remove | src/bin/fernfs/fs.rs:500-529 | cache bookkeeping of remove |
| MirrorFs.MirrorFS.Rename | src/bin/fernfs/fs.rs:532-611 | refusals, clearing of the target, move, cached children and both refreshes |
| MirrorFs.MirrorFS.Listing | src/bin/fernfs/fs.rs:314-360 | the loop over the children builds the full listing or the first error |
| MirrorFs.MirrorFS.ReadDir | src/bin/fernfs/fs.rs:304-360 | refresh, relisting, then the full listing |
| MirrorFsRuns.CallKeeps | src/bin/fernfs/fs.rs:71-876 | every call keeps the index invariant and the bindings, for any answers of the disk |
| MirrorFsRuns.RunKeepsInvariant | src/bin/fernfs/fs_map.rs:90-340 | over every run of calls from start-up every mapped path names a live id that lists it, the inode maps are inverses, their domain is the live ids, and all ids are below next_fileid |
| MirrorFsRuns.RunKeepsIds | src/bin/fernfs/fs_map.rs:331-339 | over a whole run an id once bound to an inode is never bound to another, and a dropped id never comes back |
| MirrorFsRuns.SameIdIffSameInode | src/bin/fernfs/fs_map.rs:307-340 | two create_entry results anywhere in a run are the same id exactly when the inodes are, while both stay live |
| MirrorFsExact.CleanRunExact | src/bin/fernfs/fs_map.rs:90-340 | over every run in which each refresh finds one of the id's aliases and no rename overwrites another id's path, mapped paths and listed aliases are exactly inverse to each other |
| MirrorFsAnswers.LookupOnDiskAnswers | src/bin/fernfs/fs.rs:198-217 | without a cached answer, each answer under the disk's answers: NOENT for a name or directory that is gone, IO without metadata, the scan's error, and with a complete scan the id of the inode the name was listed with last, NOENT for a cached child not listed |
| MirrorFsAnswers.LookupAnswers | src/bin/fernfs/fs.rs:179-217 | a cached name is answered with its id if the disk confirms that, IO if the disk does not say, and what the disk has otherwise |
| MirrorFsAnswers.UncachedIsFound | src/bin/fernfs/fs.rs:198-217 | a name that is not cached is found when its directory is confirmed and a complete scan lists it |
| MirrorFsAnswers.ReplacedIsFound | src/bin/fernfs/fs.rs:187-217 | a cached file that was replaced on disk is found as what the scan lists, under another id when that is another inode |
| MirrorFsPromises.LookupResolves | src/bin/fernfs/fs.rs:179-217 | a successful lookup returns a live id that the name resolves to afterwards, unless it is the directory's own id and the refresh gave the directory another name |
| MirrorFsPromises.LookupOwnId | src/bin/fernfs/fs.rs:183-197 | in that case the name resolves afterwards to what is cached under the directory's new name |
| MirrorFsOwnId.OwnIdFound | src/bin/fernfs/fs.rs:183-197 | four READDIR calls from start-up, with moves on disk between and during them, reach a cache in which this happens: a vanished name is found as its directory's own id and is another entry afterwards |
| MirrorFsPromises.LookupMissing | src/bin/fernfs/fs.rs:183-208 | a name that is gone from the disk is found if and only if it is cached as the directory's own id and is cached under the directory's next alias too |
| MirrorFsPromises.LookupFresh | src/bin/fernfs/fs.rs:179-217 | the returned id is bound to an inode the disk reported during the call, or was cached for a name that the relisting could not see: one the scan missed and that was no cached child, or one in no directory |
| MirrorFsPromises.RenameMovesSubtree | src/bin/fernfs/fs.rs:577-604 | whatever is cached at the target, a rename leaves nothing below the source, gives each path below the target the id of the path moved there or else what survived the clearing, and leaves the rest; neither path lies below the other and the source is cached |
| MirrorFsPromises.RenameThenFind | src/bin/fernfs/fs.rs:577-604 | after any such rename the target's directory finds the new name with the source's id |
| MirrorFsPromises.RenameExactIffClear | src/bin/fernfs/fs.rs:577-604 | such a rename keeps paths and aliases exact inverses if and only if no moved path lands on one that survived the clearing under another id |
| MirrorFsPromises.RenameExactIffLandsClear | src/bin/fernfs/fs.rs:577-604 | the same before the call: with agreeing cached children at the target, if and only if every moved path lands on one the clearing reaches, on one of its own id, or on none |
| MirrorFsPromises.RenameOntoKnownTree | src/bin/fernfs/fs.rs:577-604 | when all that is cached below the target is reached through its cached children, exactly the moved paths are below it afterwards, and the exact form survives |
| MirrorFsPromises.ListingComplete | src/bin/fernfs/fs.rs:324-360 | after a relisting the full listing is the directory as ".", what its parent's path maps to as "..", and every listed name once, each with the id it resolves to and its cached attributes; it fails exactly if the parent's path is not cached |
| MirrorFsAnswers.ListingErrors | src/bin/fernfs/fs.rs:314-360 | a listing answers NOTDIR exactly for a file, IO exactly when the children or the parent's path are not cached, and NOENT for a live directory only when a child is gone |
| MirrorFsAnswers.ReadDirAnswers | src/bin/fernfs/fs.rs:304-360 | READDIR answers NOENT, IO, NOTDIR or the scan's error each under its condition, and otherwise the directory, its parent and exactly the names listed, or IO when the parent's path is not cached |
| MirrorFsOutcomes.CreateAnswers | src/bin/fernfs/fs.rs:71-159 | each answer of create, mkdir and symlink under the disk's answers; when the object was made and seen its path stands for its inode, and the directory's aliases that are gone are unmapped |
| MirrorFsOutcomes.CreateEnters | src/bin/fernfs/fs.rs:71-159 | with the directory in place they succeed, with the attributes the disk reports, and the name joins the cached children, if there are any |
| MirrorFsOutcomes.MakeNodeAnswers | src/bin/fernfs/fs.rs:859-876 | mknod succeeds if and only if the directory is cached, the node was made and can be read; exactly its path is mapped then, and otherwise nothing changes |
| MirrorFsOutcomes.LinkAnswers | src/bin/fernfs/fs.rs:651-699 | each answer of link under the disk's answers, the path and cached child it adds, and the source's attributes, answered and cached |
| MirrorFsOutcomes.RemoveAnswers | src/bin/fernfs/fs.rs:500-529 | remove succeeds if and only if the directory is cached and the file was there and removed; then the path is unmapped, the name leaves the cached children, and the directory's aliases that are gone are unmapped |
| MirrorFsOutcomes.RenameAnswers | src/bin/fernfs/fs.rs:532-576 | rename answers NOENT, IO or success each exactly under its condition, and leaves the cache alone unless the disk moved something |
| MirrorFsOutcomes.MoveLeaves | src/bin/fernfs/fs.rs:577-604 | for a directory below neither path its cached children are what they were, without the old name in the source's and with the new name for the moved id in the target's |
| MirrorFsOutcomes.BothRefreshed | src/bin/fernfs/fs.rs:605-609 | the refreshes at the end unmap the aliases of both directories that are gone, the target's whenever the source's is confirmed, and map nothing anew |
| MirrorFsOutcomes.RenameRefreshes | src/bin/fernfs/fs.rs:532-611 | so after a rename that moved something an alias of the source's directory that is gone is not mapped, wherever it lies below neither path, nor one of the target's when the source's is confirmed |
| MirrorFsOutcomes.RefreshesKeepRename | src/bin/fernfs/fs.rs:605-609 | with both directories in place and all their aliases there, they keep every path and the cached children of both |
| MirrorFsRelist.RelistAgain | src/bin/fernfs/fs_map.rs:259-304 | relisting a second time from the same scan without repeated names changes nothing in the cache |
| MirrorFsRelist.ReadDirAgain | src/bin/fernfs/fs.rs:304-360 | after one READDIR of a directory that is as the cache knows it, every further one leaves the cache as it is and gives the same listing |
| MirrorFsPaging.PagedListingIff | src/vfs.rs:362-380 | although every page lists the directory afresh, a client paging through an unchanging one gets its whole listing in order if and only if every entry fits a page of its own |
| MirrorFsEffects.CreateResolves | src/bin/fernfs/fs.rs:71-159 | a created object resolves to the returned live id, bound to the inode the disk reported, unless the refresh renamed or deleted its directory |
| MirrorFsEffects.MakeNodeResolves | src/bin/fernfs/fs.rs:859-876 | a made node resolves to the returned live id, bound to its inode |
| MirrorFsEffects.LinkResolves | src/bin/fernfs/fs.rs:651-699 | a new link resolves to the id of its inode, which is the source's id exactly if the disk reports the source's inode |
| MirrorFsEffects.RemovedIsGone | src/bin/fernfs/fs.rs:500-529 | a removed name no longer resolves, unless the refresh gave its directory another name |
| Xdr.U32RoundTrip | src/protocol/xdr/mod.rs:180-193 | a 32-bit word followed by anything is read back and leaves what followed |
| Xdr.U64RoundTrip | src/protocol/xdr/mod.rs:195-208 | the same for 64-bit words |
| Xdr.BoolRoundTrip | src/protocol/xdr/mod.rs:119-148 | the same for booleans |
| Xdr.OpaqueRoundTrip | src/protocol/xdr/mod.rs:296-320 | opaque data is read back exactly if it is within the decoder's bound, and refused otherwise |
| Xdr.ArrayRoundTrip | src/protocol/xdr/mod.rs:383-410 | arrays of words are read back exactly if within the bound |
| Xdr.PaddingLen | src/protocol/xdr/utils.rs:5-7 | fewer than four bytes, and they complete the length to a multiple of four |
| Xdr.Writer.WritePadding | src/protocol/xdr/utils.rs:18-25 | appends exactly the padding, in zeros |
| Xdr.Writer.WriteOpaque | src/protocol/xdr/mod.rs:296-304 | appends the encoding of opaque data |
| Xdr.Writer.WriteArray | src/protocol/xdr/mod.rs:383-392 | the element loop appends the encoding of the array |
| Xdr.Reader.ReadOpaque | src/protocol/xdr/mod.rs:307-320 | reads what the decoder says and consumes exactly that |
| Xdr.Reader.ReadArray | src/protocol/xdr/mod.rs:394-410 | the element loop reads what the decoder says |
| XdrRpc.AuthUnixRoundTrip | src/protocol/xdr/rpc.rs:61-74 | AUTH_UNIX credentials round trip, within their bounds |
| XdrRpc.MsgRoundTrip | src/protocol/xdr/rpc.rs:124-417 | any call or reply, with every nested arm, followed by anything is read back exactly if its opaques are bounded, leaving what followed |
| XdrRpc.MsgPrefixFree | src/protocol/xdr/rpc.rs:124-417 | no encoded message is a prefix of another's encoding |
| XdrRpc.MsgAligned | src/protocol/xdr/rpc.rs:124-417 | every encoded message is a whole number of four-byte units and not empty |
| XdrRpc.SerializeMsg | src/protocol/xdr/rpc.rs:130-165 | writing a message in place appends its encoding |
| XdrRpc.DeserializeMsg | src/protocol/xdr/rpc.rs:130-181 | reading a message in place gives what the decoder says and consumes exactly that |
| XdrNfs.FattrRoundTrip | src/protocol/xdr/nfs3/mod.rs:398-440 | file attributes round trip with a tail |
| XdrNfs.PostOpAttrRoundTrip | src/protocol/xdr/mod.rs:445-470 | optional attributes round trip with a tail |
| XdrNfs.EntryRoundTrip | src/protocol/xdr/nfs3/dir.rs:83-92 | READDIR entries round trip with a tail |
| XdrNfs.EntryPlusRoundTrip | src/protocol/xdr/nfs3/dir.rs:119-132 | READDIRPLUS entries with attributes and handle round trip with a tail |
| XdrNfsStreams.SerializeFattr | src/protocol/xdr/nfs3/mod.rs:436-440 | writing file attributes field by field appends their encoding |
| XdrNfsStreams.DeserializeFattr | src/protocol/xdr/nfs3/mod.rs:433-435 | reading file attributes field by field gives what the decoder says and consumes exactly that |
| XdrNfsStreams.SerializePostOpAttr | src/protocol/xdr/mod.rs:445-457 | writing optional attributes appends their encoding |
| XdrNfsStreams.DeserializePostOpAttr | src/protocol/xdr/mod.rs:460-470 | reading optional attributes gives what the decoder says |
| XdrNfsStreams.SerializeEntry | src/protocol/xdr/nfs3/dir.rs:83-92 | writing a READDIR entry appends its encoding |
| XdrNfsStreams.DeserializeEntry | src/protocol/xdr/nfs3/dir.rs:83-92 | reading a READDIR entry gives what the decoder says |
| XdrNfsStreams.SerializeEntryPlus | src/protocol/xdr/nfs3/dir.rs:119-132 | writing a READDIRPLUS entry appends its encoding |
| XdrNfsStreams.DeserializeEntryPlus | src/protocol/xdr/nfs3/dir.rs:119-132 | reading a READDIRPLUS entry gives what the decoder says |
| Handles.HandleOfGeneration | src/vfs.rs:669-701 | a handle resolves to its id for the generation that issued it, is stale for every later and bad for every earlier one |
| Handles.ResolvesIff | src/vfs.rs:669-701 | only the handle issued for an id resolves to it |
| WireFormat.U32Bytes | src/protocol/xdr/mod.rs:180-193 | a word is its four bytes, most significant first |
| WireFormat.U64Words | src/protocol/xdr/mod.rs:195-208 | a double word is its high word and then its low word |
| WireFormat.OpaqueBytes | src/protocol/xdr/mod.rs:296-304 | opaque data is its length, its bytes, and fewer than four zeros up to a multiple of four |
| WireFormat.CallWords | src/protocol/xdr/rpc.rs:95-200 | a call is its transaction, 0, the four numbers, credentials and verifier |
| WireFormat.MessageWords | src/protocol/xdr/rpc.rs:124-417 | a reply with an empty verifier is word for word what section 9 of RFC 5531 says, for every arm |
| WireFormat.FattrIsWords | src/protocol/xdr/nfs3/mod.rs:398-440 | attributes are twenty-one words in the order of RFC 1813 |
| WireFormat.EntryWords | src/protocol/xdr/nfs3/dir.rs:83-132 | an entry is file id, name and cookie, for READDIRPLUS then attributes and handle |
| WireFormat.RefusalRead | src/protocol/xdr/nfs3/mod.rs:226-320 | a client reads a refusal as its number in RFC 1813, and that number as the refusal |
| WireFormat.OneFragment | src/protocol/rpc/wire.rs:209-240 | a message of up to 2^31 - 1 bytes is its length with the highest bit set and itself |
| Portmap.NodeRoundTrip | src/protocol/xdr/portmap.rs:50-71 | a mapping list of any length round trips with a tail |
| Portmap.SerializeNode | src/protocol/xdr/portmap.rs:50-55 | the recursive serializer appends the encoding of the list |
| Portmap.BuildList | src/protocol/nfs/portmap/dump.rs:41-47 | the reverse loop builds the list in table order |
| Portmap.PmapProcDump | src/protocol/nfs/portmap/dump.rs:24-58 | a client that decodes the reply reads exactly the table's mappings, also when there are none |
| RecordMarking.WriteFragment | src/protocol/rpc/wire.rs:209-240 | the loop sends the message cut into maximal fragments, the last one flagged |
| RecordMarking.SocketMessageHandler.ReadFragment | src/protocol/rpc/wire.rs:170-192 | appends one fragment, or stops on a record over the limit or a stream cut short; the reassembly buffer never exceeds the limit |
| RecordMarking.SocketMessageHandler.Read | src/protocol/rpc/wire.rs:324-339 | a last fragment hands the record on and leaves the buffer empty |
| RecordMarking.SocketMessageHandler.Run | src/protocol/rpc/wire.rs:318-339 | repeated reading of a stream yields the records and ending that the stream means |
| RecordMarking.RoundTripIff | src/protocol/rpc/wire.rs:209-240 | messages written one after another are read back exactly if and only if each is non-empty and within the limit |
| RecordMarking.StreamRead | src/protocol/rpc/wire.rs:170-240 | what any sequence of messages is read as: empty ones vanish and the first oversize one ends the session |
| RecordMarking.SplitReassembles | src/protocol/rpc/wire.rs:170-192 | any other split of a record into fragments, zero-length ones included, reassembles to the same record |
| RecordMarking.RecordsBounded | src/protocol/rpc/wire.rs:180-186 | no record handed on is longer than the record limit, whatever the bytes |
| TransactionTracker.IntervalWithinRetention | src/protocol/rpc/transaction_tracker.rs:54-68 | the sweep interval never exceeds the retention period |
| TransactionTracker.Tracker.Housekeeping | src/protocol/rpc/transaction_tracker.rs:128-138 | the retain loop keeps unfinished entries and completed ones not older than the cutoff |
| TransactionTracker.Tracker.Check | src/protocol/rpc/transaction_tracker.rs:74-97 | sweep when due, then New, InProgress or the stored reply with its time renewed |
| TransactionTracker.Tracker.RecordResponse | src/protocol/rpc/transaction_tracker.rs:104-109 | the entry becomes completed with the reply |
| TransactionTracker.Tracker.Clear | src/protocol/rpc/transaction_tracker.rs:112-116 | the entry is removed |
| TransactionTracker.HistoryExplained | src/protocol/rpc/transaction_tracker.rs:74-138 | in any interleaving each key's entry is what its last call left, or was evicted after the retention period |
| TransactionTracker.NewOnlyIf | src/protocol/rpc/transaction_tracker.rs:74-98 | New is answered only to a key never seen, cleared, or whose reply was last used longer ago than the retention period |
| TransactionTracker.DuplicateAnswer | src/protocol/rpc/transaction_tracker.rs:89-97 | a duplicate is dropped exactly while its run is unfinished, otherwise gets the last bytes |
| TransactionTracker.ReplayIsRecorded | src/protocol/rpc/transaction_tracker.rs:91-94 | every replay, however often repeated, gives exactly the bytes last recorded for its key |
| TransactionTracker.ExecutedTwice | src/protocol/rpc/transaction_tracker.rs:74-138 | between two executions of one request lies a clear or a silence longer than the retention period |
| TransactionTracker.RetentionBound | src/protocol/rpc/transaction_tracker.rs:54-83 | after a check no completed entry is older than the retention period plus a quarter of it, or plus a second if that is more; for a period below a second, twice the period |
| TransactionTracker.DroppedIff | src/protocol/rpc/transaction_tracker.rs:54-138 | a check drops another request's entry if and only if that was completed longer ago than the retention period and that interval has passed since the last sweep or the clock went back; otherwise the entry stays as it is |
| WorkQueue.RetransmissionReplays | src/protocol/rpc/wire.rs:84-97 | a retransmission within the retention period gets the bytes of the first reply, whatever commands were processed in between |
| WorkQueue.DroppedIffEmptyReply | src/protocol/rpc/wire.rs:381-388 | why replies are assumed non-empty below: only a reply without bytes would leave its request unfinished and drop a retransmission; every handler here writes some |
| WorkQueue.NextConsistent | src/protocol/rpc/command_queue.rs:109-145 | at every step, for any interleaving, the unfinished entries are exactly the commands being executed |
| WorkQueue.TakeNeverBusy | src/protocol/rpc/command_queue.rs:113-121 | when a command is taken no entry of its client is unfinished, so it is not dropped |
| WorkQueue.EveryConnectionAnswersInOrder | src/protocol/rpc/command_queue.rs:109-145 | over every interleaving of connections with one worker each: answers come one by one in order, none is a drop, failures belong to malformed or failed requests, and every reply was produced by its own request |
| WorkFold.InterleavingIsFold | src/protocol/rpc/command_queue.rs:109-145 | however connections interleave within one retention period, each is answered what one worker's fold over the commands in the order taken answers for it |
| WorkClock.TakeStores | src/protocol/rpc/command_queue.rs:113-136 | checking a request answers the same in system and fold; their stores agree afterwards if and only if the check was no sweep of failing commands alone |
| WorkClock.StoresAgreeIff | src/protocol/rpc/command_queue.rs:109-145 | up to any step of a run under a clock that never goes back, the system keeps the fold's store, but for running commands, if and only if no check before it was such a sweep |
| WorkClock.InterleavingIsProcessAll | src/protocol/rpc/command_queue.rs:109-145 | each connection is answered what the fold answers for it, for runs of any length under such a clock, as long as no check was such a sweep |
| WorkClock.SweepTimingMatters | src/protocol/rpc/transaction_tracker.rs:74-83 | a run whose second check is such a sweep: a repeated request is executed a second time where the fold replays the first reply |
| WorkQueue.TakeFinishIsProcess | src/protocol/rpc/command_queue.rs:113-138 | a command not interleaved with others has the outcome of one step of the sequential fold |
| RpcWorker.OwnRepliesNonEmpty | src/protocol/rpc/wire.rs:99-141 | version and program errors always carry a reply |
| RpcWorker.HandleRpc | src/protocol/rpc/wire.rs:73-154 | decoding, credentials, duplicate check, dispatch and the clearing of failed runs |
| RpcAnswers.MalformedIff | src/protocol/rpc/wire.rs:73-83 | a record carries no request if and only if it does not decode, is a reply, or is a call with AUTH_UNIX credentials that do not decode |
| RpcAnswers.CallIsAnswered | src/protocol/rpc/wire.rs:99-141 | a well-formed call is the request of its own transaction and client; its handler answers it if it is of RPC version 2 and NFS version 3 or one of the other two programs, and otherwise the reply decodes to the rejection its numbers call for |
| RpcAnswers.HandlerDecidesIff | src/protocol/rpc/wire.rs:106-141 | the handler decides what is answered if and only if the call is one of those |
| RpcWorker.ProcessRpcCommand | src/protocol/rpc/wire.rs:360-391 | one command does one step of the sequential fold |
| RpcWorker.WorkOne | src/protocol/rpc/command_queue.rs:113-136 | a turn with a reused, possibly dirty buffer gives the reply of a fresh one |
| RpcWorker.RunWorker | src/protocol/rpc/command_queue.rs:109-145 | the worker loop refines the left fold over the submitted commands |
| DirPage.ListFrom | src/bin/fernfs/fs.rs:362-385 | the loop yields the slice from an index, always one entry if any is left, and whether it ends the listing |
| DirPage.ReadDirIndexDirect | src/vfs.rs:362-380 | listing from the start and splitting off equals listing from the index |
| DirPage.WriteCounter.Write | src/write_counter.rs:75-81 | the count is always the number of bytes passed through |
| DirPage.Commit | src/protocol/nfs/v3/readdirplus.rs:217-246 | an entry is written exactly if both budgets allow it |
| DirPage.WriteItems | src/protocol/nfs/v3/readdirplus.rs:188-246 | the loop commits the longest run of entries within the budgets, with consecutive cookies |
| DirPage.NfsProcReadDir | src/protocol/nfs/v3/readdirplus.rs:49-263 | every refusal and every page of READDIR and READDIRPLUS, byte by byte |
| DirListing.PageIsSlice | src/protocol/nfs/v3/readdir.rs:106-188 | BAD_COOKIE exactly beyond the listing, TOOSMALL exactly if the first entry does not fit alone, otherwise a non-empty slice from the cookie with eof exactly at the end |
| DirListing.PageWithinLimits | src/protocol/nfs/v3/readdirplus.rs:173-263 | a page with entries is shorter than the client's limit less 120, its directory bytes are below dircount |
| DirListing.PageDecodes | src/protocol/nfs/v3/readdirplus.rs:173-263 | decoding the reply gives exactly the slice, with attributes, handles, consecutive cookies and the eof flag |
| DirAnswers.VerifierGoodIff | src/protocol/nfs/v3/readdir.rs:81-97 | the verifier sent with a page is accepted later if and only if the directory still has the modification time it was sent with, given that this is not zero |
| DirAnswers.ReplyStatus | src/protocol/nfs/v3/readdirplus.rs:49-263 | the status a client reads: that of the handle, 13 for a denied access, that of a failed check, 10003 for a verifier that does not fit or a cookie beyond the listing, that of the listing, 10005 for an entry that fits no page, else 0 |
| DirAnswers.PageIff | src/protocol/nfs/v3/readdir.rs:49-188 | a client reads a page if and only if the handle resolved, it may read, the verifier fits, the directory was listed, and the cookie is within the listing at an entry that fits a page |
| DirAnswers.PageIsFull | src/protocol/nfs/v3/readdirplus.rs:173-246 | a page that is not the last has one entry for each sixteen bytes of dircount, or one more entry would exceed a limit; none has more entries than that or exceeds one |
| DirListing.LastCookieResumes | src/protocol/nfs/v3/readdir.rs:129-144 | each entry's cookie is the index after it, so the last one resumes at the first entry not sent |
| DirListing.ClientGets | src/protocol/nfs/v3/readdirplus.rs:173-263 | a client from any cookie gets, in order and once each, exactly the entries before the first that fits no page alone |
| DirListing.ClientCompleteIff | src/protocol/nfs/v3/readdirplus.rs:173-263 | it gets the full listing, eof on the last page only and at most one page per entry, if and only if every entry fits alone |
| FileBytes.SplicedAt | examples/demo_fs/fs.rs:91-95 | a write changes exactly its range and zero-fills a gap |
| FileBytes.ReadAfterWrite | examples/demo_fs/fs.rs:91-95 | a later read of any range sees the written bytes where they overlap and the old ones elsewhere |
| FileBytes.EofIff | src/bin/fernfs/fs.rs:288-296 | within the file eof holds exactly if offset plus the returned count is the size |
| SequentialRead.ReadFile | src/bin/fernfs/fs.rs:286-300 | the range that exists and its eof flag; it stops exactly if the range's end overflows and, in a build without overflow checks, the wrapped end lies before the end of the file |
| SequentialRead.NfsProcRead | src/protocol/nfs/v3/read.rs:39-95 | every refusal and the data reply, with the count clamped, and when the handler stops in either kind of build |
| ReadAnswers.NoReplyIff | src/protocol/nfs/v3/read.rs:57-95 | no reply is made if and only if a readable file's range ends beyond 2^64 and the build checks that or the wrapped end lies before the file's |
| ReadAnswers.ReplyStatus | src/protocol/nfs/v3/read.rs:47-95 | the status a client reads: that of the handle, 13 for a denied access, that of a failed check, that of the file, else 0 |
| ReadAnswers.DataIff | src/protocol/nfs/v3/read.rs:47-95 | a client reads data if and only if the handle resolved, it may read, the file could be read and the range does not overflow |
| ReadAnswers.DataRead | src/protocol/nfs/v3/read.rs:57-82 | that data is the file's bytes at the offset, as many as the least of count, the server's maximum, 4 MiB and what is left, with eof exactly if the range reaches the end, its length and the attributes |
| SequentialRead.FetchedIsNext | src/protocol/nfs/v3/read.rs:57-85 | what a client decodes from a reply within the file is exactly the next bytes up to the clamped count |
| SequentialRead.DownloadIff | src/protocol/nfs/v3/read.rs:57-82 | whatever sizes are asked for, the client has exactly the file's next bytes, and is done if and only if it asked for at least what was left |
| SequentialRead.DownloadRebuildsFile | src/protocol/nfs/v3/read.rs:57-82 | positive sizes rebuild the file within one request per byte |
| DemoTable.PushStructured | examples/demo_fs/fs.rs:126-131 | a pushed entry keeps the table's structure: ids are indices, lists are duplicate-free, children name their directory, the root is unlisted |
| DemoTable.ListsDisjoint | examples/demo_fs/fs.rs:403-409 | no entry is listed in two directories |
| DemoTable.RemoveStructured | examples/demo_fs/fs.rs:351-359 | removal keeps the structure and unlists the entry everywhere |
| DemoTable.LinkStructured | examples/demo_fs/fs.rs:589-612 | linking keeps the structure, lists the link, and gives it the source's buffer and sizes |
| DemoTable.RenameKeepsListedIff | examples/demo_fs/fs.rs:400-440 | renaming keeps the structure, and loses the entry if and only if it is renamed onto its own name in its own directory |
| DemoTable.MovedIsFoundIff | examples/demo_fs/fs.rs:400-440 | an entry moved to another directory is what its new name finds if and only if only the replaced entry had that name |
| DemoTable.RenamedIsFoundIff | examples/demo_fs/fs.rs:400-440 | an entry renamed within its directory is what its new name finds if and only if no entry listed before it but the replaced one had that name |
| DemoTable.CreatedIsFoundIff | examples/demo_fs/fs.rs:127-131 | a new entry is what its name finds if and only if the name was free |
| DemoTree.RenameKeepsRootedIff | examples/demo_fs/fs.rs:400-440 | with all listed entries below the root, a rename keeps them there if and only if the target directory is below the root and is not the moved entry or below it, and the replaced entry holds nothing but the moved one |
| DemoTree.PushKeepsRootedIff | examples/demo_fs/fs.rs:126-131 | a new entry keeps all below the root if and only if its directory is |
| DemoTree.RemoveKeepsRooted | examples/demo_fs/fs.rs:351-359 | removing a file keeps all below the root |
| DemoFs.DemoFS.constructor | examples/demo_fs/fs.rs:28-42 | the new table has its structure and coherent sizes |
| DemoFs.DemoFS.Write | examples/demo_fs/fs.rs:68-113 | panics exactly if the file would outgrow a vector; otherwise splices exactly its range into the shared buffer, updates the size of every entry sharing it and nothing else, and keeps sizes coherent |
| DemoFs.DemoFS.UpdateSizes | examples/demo_fs/fs.rs:100-109 | the loop sets the size of exactly the entries with this very buffer |
| DemoFs.DemoFS.Read | examples/demo_fs/fs.rs:242-267 | the existing part of the range and its eof flag, and when it panics in either kind of build |
| DemoFs.DemoFS.SetSize | examples/demo_fs/fs.rs:226-236 | sizes stay coherent, of all entries or of the listed ones, if and only if no other such entry shares the buffer or the size is unchanged; a size beyond a vector's panics |
| DemoFs.DemoFS.Find | examples/demo_fs/fs.rs:330-337 | the search loop finds the first entry of that name |
| DemoFs.DemoFS.Lookup | examples/demo_fs/fs.rs:147-174 | dot, dot-dot, first entry of the name, and the errors |
| DemoFs.DemoFS.Create | examples/demo_fs/fs.rs:117-133 | when it panics, what is pushed, and that structure and coherence survive |
| DemoFs.DemoFS.Mkdir | examples/demo_fs/fs.rs:446-487 | its refusals exactly, the listed directory, structure and coherence |
| DemoFs.DemoFS.Symlink | examples/demo_fs/fs.rs:490-530 | its refusals exactly, the new entry holding the target, structure and coherence |
| DemoFs.DemoFS.Link | examples/demo_fs/fs.rs:555-615 | its refusals exactly, the shared buffer, structure, coherence, and coherence of listed entries exactly if the source's size is right |
| DemoFs.DemoFS.Mknod | examples/demo_fs/fs.rs:618-709 | its refusals exactly, the node by kind, structure and coherence |
| DemoFs.DemoFS.Remove | examples/demo_fs/fs.rs:314-361 | the file is unlisted and gets an empty buffer of its own; the sizes of listed entries stay coherent, those of all entries if and only if its size was zero |
| DemoFs.DemoFS.Rename | examples/demo_fs/fs.rs:365-443 | its refusals exactly, the move, structure and coherence, and exactly when all listed entries stay below the root |
| DemoFs.WriteThenRead | examples/demo_fs/fs.rs:68-113 | a read through any link of the written file sees the splice, a read of any other file what it held before |
| Mount.TrimStartSlashes | src/protocol/nfs/mount/mnt.rs:13-18 | the loop removes the leading slashes |
| Mount.TrimEndSlashes | src/protocol/nfs/mount/mnt.rs:20-25 | the loop removes the trailing slashes |
| Mount.RebuiltComponents | src/protocol/nfs/mount/mnt.rs:78-82 | trimming and rebuilding changes no component |
| Mount.SpelledComponents | src/vfs.rs:714-724 | splitting recovers exactly the components a path was made of, however many slashes there are between them |
| Mount.PathToId | src/vfs.rs:714-724 | the loop is the fold of lookup over the non-empty components |
| Mount.ExportShape | src/tcp.rs:248-253 | a normalised export has one leading slash, none at the end, and the name's components |
| Mount.SubpathIff | src/protocol/nfs/mount/mnt.rs:31-47 | a request matches if and only if it is the export or goes on at a component boundary, and its components are the export's and the remainder's |
| Mount.DoubledSlashRejected | src/protocol/nfs/mount/mnt.rs:39-46 | a request with the same components but a doubled leading slash never matches a non-root export |
| Mount.MountProc3Mnt | src/protocol/nfs/mount/mnt.rs:67-111 | the answer is the walk over the remainder's components, or NOENT, and the reply's bytes |
| Mount.MountResolves | src/protocol/nfs/mount/mnt.rs:76-90 | the export followed by any components, with any extra slashes before, between and after them, resolves to the fold of lookup over them |
| MountAnswers.WalkIff | src/vfs.rs:714-724 | the walk arrives at an id if and only if looking up each name in the directory found before it leads there from the root |
| MountAnswers.MountedIff | src/protocol/nfs/mount/mnt.rs:31-90 | a request is answered with an id if and only if it is the export or goes on after it with a slash, and its components beyond the export's lead there from the root |
| MountAnswers.AnswerDecodes | src/protocol/nfs/mount/mnt.rs:84-111 | a client reads status 2, or status 0, a handle that resolves to the id on this server, and the flavors 0 and 1 |
| MountAnswers.MountSucceedsIff | src/protocol/nfs/mount/mnt.rs:67-111 | it reads success if and only if its request is at or below the export and leads somewhere |

## Left out

- FsMapRefresh.DeleteForgetsIff: directories with cached children are excluded when an existing alias lies below the first; removing the tree there may then remove that alias as well.
- MirrorFsPromises.RenameMovesSubtree: renames of which one path lies below the other, which the disk refuses, and of a source that is not cached, which move nothing, are excluded here and in the other rename promises; all are about the cache before both directories are refreshed at the end, where `FsMapRefresh.RefreshUnmaps` applies.
- FsMapReturns.ReturnsAtIff: for one particular path, cycles through a directory without a path elsewhere are not decided, as removing may cut them; `FirstCycleNeverReturns` covers those through first children and `ReturnsIff` the paths taken together.
- MirrorFsAnswers.ReplacedIsFound: the replaced file has no cached children of its own and none of its aliases is mapped to another id; for a directory with cached children `MirrorFsAnswers.LookupAnswers` and `MirrorFsAnswers.LookupOnDiskAnswers` say what is answered from the cache its deletion leaves.
- MirrorFsOutcomes.RefreshesKeepRename: a directory whose name changes or whose aliases are gone loses paths in the refreshes; `MirrorFsOutcomes.BothRefreshed` covers those.
- FsMap.FSMap.RemovePathTree: called only when the recursion returns; `depth` is a ghost bound on its nesting.
- FsMap.FSMap.CreateEntry: `next_fileid` is unbounded here; its wrap-around after 2^64 ids is not modelled.
- FsMap.FSMap.FindChild: string interning is an injective naming of symbols by numbers, so a name that was never interned is one that no cached path contains.
- MirrorFs.MirrorFS.CreateObject: the exclusive branch and `exclusive_verifier` are unreachable, since `create_exclusive` answers NOTSUPP.
- MirrorFs.MirrorFS.Listing: produces names as symbols; `MirrorFsPaging` takes any way of writing a listing out as bytes.
- MirrorFsPaging.PagedListingIff: the disk gives every page of the session the same answers, the directory still is the one cached, and its scan repeats no name and does not list the directory itself.
- Xdr.OpaqueRoundTrip: payloads are below 2^32 bytes; the serializer's error for longer ones is not modelled.
- DirPage.NfsProcReadDir: READDIR and READDIRPLUS are one method with the procedure as a parameter; reading the request's bytes and the file system's calls are parameters.
- RecordMarking.SocketMessageHandler.Run: sockets, duplex pipes and task spawning are left out; a connection is the sequence of bytes that arrives.
- WorkQueue.EveryConnectionAnswersInOrder: assumes, as the server arranges, one worker per client address, and handlers that do not succeed without writing a reply, as none of those in the repository does.
- TransactionTracker.NewOnlyIf: assumes a clock that never goes back; the tracker's transitions themselves are modelled for any clock.
- SequentialRead.DownloadIff: the file does not change during the download.
- DemoFs.DemoFS.Create: whether a name is UTF-8 is a parameter; a panic poisons the table's lock, so what a panicking call leaves behind is not observable and, in Write, not modelled.
- DemoFs.DemoFS.Link: link counts are unbounded; times other than mtime and the id inside the attributes are not kept.
- Mount.MountProc3Mnt: `lookup` is a function during one walk; the mount signal is not modelled.
- Attribute conversion and permission checks (`fs_util.rs`, `access_mask`), GETATTR, SETATTR of the mirror file system beyond its cache update, WRITE to disk, FSINFO, FSSTAT, PATHCONF, COMMIT: thin or foreign to the modelled state.
- The other codecs of `nfs3` (`sattr3`, `mknoddata3`, request arguments), floats, portmap SET/UNSET/GETPORT: repetitive.

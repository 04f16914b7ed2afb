# A Dafny model of the Longhorn engine

Longhorn engine is a replicated block device.  Each replica stores the volume as a tree of sparse layers (snapshots under
a writable head); a controller sends writes to all replicas and rebuilds failed ones while I/O goes on.  This project
models the parts in which data could be lost and proves what they promise, for every input, every run and every crash
point.  `dafny verify dfyconfig.toml` checks the whole project.

| file | what it models |
|---|---|
| `Layers.dfy` | a sparse layer, the overlay image of a stack of layers, splicing a write into it, folding and pruning |
| `SectorMap.dfy`, `DiffDisk.dfy` | the layered device: sector cache, batched reads, read-modify-write, layer removal, expansion, unmap |
| `SnapshotTree.dfy` | parent links, paths, and the image of every disk under each change of the tree |
| `LiveChain.dfy`, `Replica.dfy` | the replica: child sets, live chain, opened files; snapshot, expand, revert, remove, replace, purge, unmap |
| `Purge.dfy`, `PurgeRun.dfy` | the effect of one removal, and a whole purge as the sync agent traces it up from the leaves |
| `DiskSteps.dfy` | `createDisk` and `revertDisk` as steps on a directory: crash points and rollback |
| `Backup.dfy` | loading the sector table from extents, and the block list of an incremental backup |
| `Controller.dfy`, `Expansion.dfy` | replica modes, fan-out, error attribution, expansion of the volume |
| `Replication.dfy` | the whole system as a state machine: writes, snapshots, failures and the online rebuild |
| `ReplicationRuns.dfy` | what the steps of `Replication.dfy` achieve: readable replicas, rebuilds that end in a promotion, snapshots that stay as taken |
| `Refinement.dfy` | the replicas of `Replication.dfy` are those of `Replica.dfy`: writes, snapshots and purges correspond |
| `DataConn.dfy`, `Wire.dfy` | request matching, clean-up after errors, shared timeouts, message framing |
| `Integers.dfy` | bounds of the stored integer types, laws of division |
| `RevisionCounter.dfy` | the counter's text in its reused block and the goroutine that persists it |

Classes keep the fields that the Go code updates in place; each of their methods is proved against functions and predicates
on values, and the laws are lemmas about those.

## Main results

- **Replication.**  `Replication.RunsAgree`, `Replication.AcknowledgedWritesPresent`: in every run of writes, snapshots, failures, removals and
  rebuilds, all RW replicas show one volume, which is the first volume with exactly the acknowledged writes laid over it.
  `Replication.VerifyKeeps`: at promotion the rebuilt replica shows that volume, also if the replica its files come from has failed or has been
  removed meanwhile (`Replication.CopyGoesOn`).
  `ReplicationRuns.RebuildCompletes`: a rebuild that is prepared, copied and reloaded ends with a promotion that makes the new replica readable, if and only if
  no file was left over in it.  `ReplicationRuns.SnapshotsPointInTime`: in every run a snapshot shows the volume that was promised when it was taken.
- **Purge.**  `PurgeRuns.PurgeSnapshots`: after a whole purge nothing that can go is left, that is, every disk still marked removed has several
  children or lies directly under the head, where it shares no sector with the head; the head and every disk not marked keep their images.
  `Replicas.Replica.ProcessRemove`: the exact effect of each removal on tree and files.  `Replicas.Replica.Purge`: any sequence of removals.
- **Layered device.**  Reads, writes, lookups, removals, replacement and expansion keep every cache entry equal to a full top-down search;
  a write splices the flat volume and touches nothing else.
- **Crash safety.**  `DiskSteps.CreateCrashSafe`, `DiskSteps.RevertCrashSafe`: stopped after any step, a directory opens with the old head's image
  (or, late in a revert, the target's), if and only if the chain is within the limit of 250.  `DiskSteps.CreatedFiles`, `DiskSteps.RevertedFiles`: what a
  completed snapshot or revert leaves, file by file.  `DiskSteps.RollbackRestores`, `DiskSteps.RollbackExact`: a failed step is undone.
- **Data connection.**  `DataConn.RepliesExplained`: in every run of a client loop whatever a request receives is the data of a response under its own
  number, taken while it was pending, or the error that ended it.
- **Backup, expansion, framing, revision counter**: see the table.

Some promises hold only under a condition, and the condition is proved to be exact:

- An unaligned read can return stale bytes after an expansion, because the scratch buffer of the first sector is reused for the last one
  (`SectorMaps.StaleTail` is an input, `SectorMaps.ReadExactIff` the condition).
- A failed write is marked in the cache like a successful one, so that it can lose data (`SectorMaps.FailedWriteLoses`); whatever it stored, the
  cache stays exact if and only if the head held all the touched sectors before, or is the only layer (`SectorMaps.FailedWriteSafeIff`).
- A snapshot of a full chain of 250 disks is taken, but the directory cannot be opened afterwards (`DiskSteps.FullChain` is such a directory,
  `DiskSteps.CreateCrashSafe` the condition).
- A snapshot that is stopped before the volume metadata is replaced leaves the new head's file behind, and every later snapshot is refused
  (`DiskSteps.StopRefusesSnapshots`).  Stopped later, it can leave the old head's file, and at most eight more snapshots are possible, because head
  names come round (`DiskSteps.LeftoverLimits`).  `DiskSteps.CreatedRootedIff` says when it leaves a disk without a parent.
- Unmap counts the removed disks but unmaps that many disks directly under the head: it is safe for every volume if and only if the removed ones
  form an unbroken run (`LiveChains.UnmapSafeIff`; `LiveChains.BrokenRunExample` is a snapshot that loses data).
- What an unmapped sector reads as depends on whether it had been looked up before, so that replicas with equal files can differ on it
  (`SectorMaps.UnmappedReads`, `SectorMaps.UnmappedAgreeIff`).
- Reverting to the head's own file leaves a tree without a root, and the reload fails (`LiveChains.RevertRootedIff`, `Replicas.Replica.Revert`).
- While a replica is being rebuilt, an unaligned write is refused if the first reader tried fails, although another one works
  (`Controllers.WorkingReplicaUnused` is an input, `Controllers.WriteRefusedByRead` the condition).
- While a replica is being rebuilt, a snapshot puts it out of step with an RW replica if and only if just one of them knows the name.  Files that
  have been copied are known only after the reload (`Replication.SnapshotInStepIff`); `Replication.CopiedNameClash` is a rebuild that such a name
  leaves with a cycle of parents.  Even if none of them knows the name, the new head keeps a path if and only if the name is not on the path below it
  (`Replication.SnapRootedIff`; `Replication.TargetNameClash` is a rebuild in which it is).  The runs leave out such names, and names whose files
  are still to be copied, as the copy would replace the new snapshot.
- Opening a replica ends if and only if the way up the parents from the head meets no disk twice (`LiveChains.WalkEndsIff`).
- A request loses a pending one exactly when its sequence number is still in use (`DataConn.RegisterKeepsAllIff`).
- A message of 4 GiB or more cannot be read back (`Wires.RoundTripIff`).  A stream that ends within a message is noticed, but for an end right after
  the header, which reads like a clean one (`Wires.CutFrame`).
- A rebuild with no other request in between can end in a promotion if and only if the new replica began with no unknown file that the replica giving
  the list does not have (`ReplicationRuns.RebuildCompletes`).
- Setting the revision counter is safe exactly while the counter goroutine is ready (`RevisionCounter.SetIsSafeIff`); the comment on it
  asks only for no pending I/O, but a failed data write leaves the goroutine unready with nothing pending
  (`RevisionCounter.FailedWriteStrands`).
- A write inside one sector reports 4096 bytes, whatever its length (`DiffDisks.DiffDisk.WriteAt`).

## Model

| member | source | states |
|---|---|---|
| `Layers.WriteSplices` | pkg/replica/diff_disk.go:96-133 | storing whole touched sectors in the top layer shows, in every sector, the old image with the buffer spliced in |
| `Layers.FlatSplice` | pkg/replica/diff_disk.go:63-94 | the flat volume after a write is the old one with exactly the buffer replaced |
| `SectorMaps.SearchFinds` | pkg/replica/diff_disk.go:270-287 | the top-down search yields the topmost layer above the base with data, or the base, and nothing else does |
| `SectorMaps.ShownIsImage` | pkg/replica/diff_disk.go:174-289 | outside unmapped sectors, reading through the cache shows the overlay of the layers |
| `SectorMaps.VolumeIsImage` | pkg/replica/diff_disk.go:174-289 | with nothing unmapped the device presents the overlay image |
| `SectorMaps.ShiftKeepsCache` | pkg/replica/diff_disk.go:35-45 | the index shift keeps every known entry equal to the search, whatever layer is removed |
| `SectorMaps.ReplaceKeepsCache` | pkg/replica/replica.go:382-419 | the shift stays right when a coalesced file takes its child's place |
| `SectorMaps.ReadRun` | pkg/replica/diff_disk.go:192-217 | a batch read from one layer extends the sector-by-sector read |
| `SectorMaps.CleanRead` | pkg/replica/diff_disk.go:226-258 | into a cleared buffer a read yields the volume, zeros beyond short layers included |
| `SectorMaps.AlignedWrite` | pkg/replica/diff_disk.go:116-133 | an aligned write splices the volume, changes only touched head sectors and keeps the cache exact |
| `SectorMaps.ReadExactIff` | pkg/replica/diff_disk.go:148-169 | an unaligned read is exact if and only if no uncovered tail byte meets a nonzero byte of the first sector |
| `SectorMaps.StaleTail` | pkg/replica/diff_disk.go:163-169 | a concrete read after an expansion that returns a stale byte |
| `SectorMaps.FailedWriteSafeIff` | pkg/replica/diff_disk.go:121-132 | whatever a failed write stores, the cache stays exact if and only if the head held every touched sector before, or is the only layer |
| `SectorMaps.FailedWriteCache` | pkg/replica/diff_disk.go:121-132 | for one outcome of a failed write, the exact condition on what is stored |
| `SectorMaps.FailedWriteLoses` | pkg/replica/diff_disk.go:121-132 | a concrete failed write after which old data reads as zero |
| `SectorMaps.AddedBytes` | pkg/replica/diff_disk.go:50-61 | bytes added by an expansion are the image's, hence zero when no layer holds data beyond the old size |
| `SectorMaps.TrimIsLargest` | pkg/replica/diff_disk.go:296-316 | the unsigned trimming never wraps and yields the largest aligned range inside the request |
| `SectorMaps.PunchOutside` | pkg/replica/diff_disk.go:322-360 | reads outside the punched range are unchanged |
| `SectorMaps.UnmapKeepsCache` | pkg/replica/diff_disk.go:291-367 | the untouched cache stays exact outside the unmapped sectors |
| `SectorMaps.UnmappedReads` | pkg/replica/diff_disk.go:260-367 | exactly what a read of an unmapped byte yields |
| `SectorMaps.UnmappedAgreeIff` | pkg/replica/diff_disk.go:260-367 | exactly when two replicas with equal files read an unmapped byte alike |
| `DiffDisks.DiffDisk.Lookup` | pkg/replica/diff_disk.go:260-289 | returns the layer the search finds, caches it, and changes no sector's layer |
| `DiffDisks.DiffDisk.Read` | pkg/replica/diff_disk.go:226-258 | fills exactly the bytes inside the file; the error exactly beyond file and volume; the count in both cases |
| `DiffDisks.DiffDisk.FullReadAt` | pkg/replica/diff_disk.go:174-220 | the batched read equals the sector-by-sector one, also past the volume; error and count exactly; misaligned requests are refused |
| `DiffDisks.DiffDisk.FullWriteAt` | pkg/replica/diff_disk.go:116-133 | the volume is spliced, only touched head sectors change; the whole effect of a failed write, and exactly when it leaves the cache exact; misaligned requests change nothing |
| `DiffDisks.DiffDisk.ReadModifyWrite` | pkg/replica/diff_disk.go:96-114 | writing part of a sector splices only that part; a failed one leaves every other sector and makes this one read as the head holds it |
| `DiffDisks.DiffDisk.WriteAt` | pkg/replica/diff_disk.go:63-94 | for every range the volume is spliced exactly, no lower layer and no other sector changes, the cache stays exact; when a part fails, exactly which one, its length, which bytes are written and which stay, and the count |
| `DiffDisks.DiffDisk.ReadAt` | pkg/replica/diff_disk.go:135-172 | every byte returned, including the ones taken from the reused scratch buffer |
| `DiffDisks.DiffDisk.RemoveIndex` | pkg/replica/diff_disk.go:30-48 | removes one layer, shifts the entries, keeps the cache exact |
| `DiffDisks.DiffDisk.AppendHead` | pkg/replica/replica.go:994-996 | an empty head on top changes no byte and keeps the cache exact |
| `DiffDisks.DiffDisk.Expand` | pkg/replica/diff_disk.go:50-61 | the table grows, the volume keeps its old bytes, the added ones are the image's, zero when no layer holds data beyond the old size |
| `DiffDisks.DiffDisk.UnmapAt` | pkg/replica/diff_disk.go:291-367 | exactly the counted layers lose the trimmed range; no byte outside it changes; the overflow guard never fires |
| `SnapshotTree.PathUnique` | pkg/replica/replica.go:579-595 | a disk has one path, so the parent relation has no cycle |
| `SnapshotTree.SnapshotPaths` | pkg/replica/replica.go:969-996 | paths of all disks after a snapshot |
| `SnapshotTree.RemovalPaths` | pkg/replica/replica.go:442-451 | paths of all disks after a removal |
| `SnapshotTree.ReplaceKeepsImages` | pkg/replica/replica.go:382-419 | a folded file taking its child's name keeps every other disk's image |
| `SnapshotTree.ShadowedKeepsImages` | pkg/replica/replica.go:519-546 | folding into or pruning a disk under its only child changes no other image |
| `LiveChains.SnapshotStep` | pkg/replica/replica.go:942-996 | a snapshot keeps tree, chain and files aligned; snapshot and new head show what the head showed, all others are unchanged |
| `LiveChains.NamesComeRound` | pkg/replica/replica.go:687-699 | a head name comes back with the tenth snapshot and not before |
| `LiveChains.LeftoverStops` | pkg/replica/replica.go:705-713 | a file left under a head's name ends the snapshots before that name comes round |
| `LiveChains.RemovalTreeOk` | pkg/replica/replica.go:423-469 | removing a node with at most one child keeps the whole tree invariant |
| `LiveChains.ReplaceStep` | pkg/replica/replica.go:382-419 | the replace keeps tree, files, cache and images |
| `LiveChains.WroteIsWriteTop` | pkg/replica/diff_disk.go:63-133 | the device's write is the layer-level write of the replication model |
| `LiveChains.UnmapsRemovedIff` | pkg/replica/replica.go:1340-1359 | the disks that an unmap treats below the head are all marked removed if and only if the removed ones form an unbroken run |
| `LiveChains.UnmapSafeIff` | pkg/replica/replica.go:1331-1362 | an unmap keeps the images of all other disks, for every volume and range, if and only if the removed disks form an unbroken run |
| `LiveChains.BrokenRunExample` | pkg/replica/replica.go:1346-1359 | three disks of which the live snapshot is unmapped and loses its data |
| `LiveChains.UnmapOthers` | pkg/replica/replica.go:1331-1362 | a disk that is neither head nor removed keeps its image |
| `LiveChains.RevertImages` | pkg/replica/replica.go:854-894 | after a revert the head shows the target and all other disks are unchanged |
| `LiveChains.RevertRootedIff` | pkg/replica/replica.go:859-887 | the reverted tree is rooted if and only if the target is not the old head |
| `LiveChains.OpenedOk` | pkg/replica/replica.go:1047-1069 | opening a rooted directory establishes the tree invariant and aligned files |
| `LiveChains.WalkEndsIff` | pkg/replica/replica.go:579-595 | the walk up the parents ends if and only if it meets no disk twice |
| `Replicas.ReadChildren` | pkg/replica/replica.go:1143-1156 | metadata read in any order gives exactly the inverse of the parents |
| `Replicas.WalkPath` | pkg/replica/replica.go:579-595 | the walk up the parents is the path of the disk, or meets a disk without metadata and then there is none |
| `Replicas.Open` | pkg/replica/replica.go:1047-1097 | opens exactly when the head has a path of at most 250 disks, with exactly what is on disk; the invariant if every disk has a path |
| `Replicas.Replica.DeviceShowsHead` | pkg/replica/replica.go:1047-1069 | with nothing unmapped the device presents the image of the head in the tree |
| `Replicas.Replica.FindDisk` | pkg/replica/replica.go:305-315 | the position of a disk in the live chain, 0 exactly when it is not there |
| `Replicas.Replica.Chain` | pkg/replica/replica.go:579-595 | the chain walk terminates and is the active list from the head down |
| `Replicas.Replica.CreateDisk` | pkg/replica/replica.go:896-1000 | exactly when it fails (a backing file counts as a snapshot) and that a failure changes nothing; otherwise the new tree, chain, files, the count, and every image kept |
| `Replicas.Replica.CountSnapshots` | pkg/replica/replica.go:1408-1426 | the loop counts exactly the disks that are neither removed nor the head, and a backing file |
| `LiveChains.MarkCounts` | pkg/replica/replica.go:1418-1424 | marking a disk that counts lowers the count by one, any other leaves it |
| `LiveChains.SnapshotCounts` | pkg/replica/replica.go:1418-1424 | a snapshot raises the count by one, unless the head was marked |
| `LiveChains.RemovalCounts` | pkg/replica/replica.go:1418-1424 | removing a disk lowers the count by one exactly if it counted |
| `LiveChains.NoneCounts` | pkg/replica/replica.go:1418-1424 | a volume with nothing but a head counts no snapshot |
| `Replicas.Replica.RemoveDiskNode` | pkg/replica/replica.go:423-469 | refuses several children; otherwise takes the node out of tree, chain, files and cache |
| `Replicas.Replica.RemoveDiffDisk` | pkg/replica/replica.go:317-334 | refuses the head and several children; otherwise disk and file are gone and the disks that do not hang on it, for a leaf all others, keep their images |
| `Replicas.Replica.ReplaceDisk` | pkg/replica/replica.go:382-419 | the folded file takes its child's place, every other image kept, the invariant kept |
| `Replicas.Replica.MarkDiskAsRemoved` | pkg/replica/replica.go:336-361 | marks exactly that disk, which then no longer counts; the head is refused |
| `Replicas.Replica.PrepareRemoveDisk` | pkg/replica/replica.go:471-552 | the plan for each kind of disk, and exactly when it is refused |
| `Replicas.Replica.ProcessRemove` | pkg/sync/rpc/server.go:1378-1427 | the exact effect on tree and files: a leaf goes with its file, an only child takes over its parent's place and sectors, a disk under the head loses what the head holds, otherwise nothing changes; all other images are kept |
| `Replicas.Replica.Purge` | pkg/sync/rpc/server.go:1378-1427 | any sequence of removals leaves exactly the planned tree and its files, the head's file, and the images of the head and of all disks not marked removed |
| `Purges.LeavesIff` | pkg/replica/replica.go:503-546 | a removal takes a disk out of the tree if and only if it has no children or an only child that is not the head |
| `Purges.TraceStart` | pkg/sync/rpc/server.go:1167-1173 | when the trace of a leaf begins, every disk is settled, on this trace, or above another leaf still to be traced |
| `Purges.TraceStep` | pkg/sync/rpc/server.go:1173-1205 | each removal of a trace keeps that, although the trace follows the tree as it was when it began |
| `Purges.LastStep` | pkg/sync/rpc/server.go:1217-1221 | with all leaves traced nothing that can go is left, and the disk kept for the end stays in the tree |
| `PurgeRuns.MarkSystem` | pkg/sync/rpc/server.go:1140-1153 | marks exactly the given disks, never the head |
| `PurgeRuns.TraceLeaf` | pkg/sync/rpc/server.go:1167-1205 | one trace settles every disk on its way; it fails exactly if it starts at a head that is marked removed |
| `PurgeRuns.PurgeSnapshots` | pkg/sync/rpc/server.go:1112-1234 | fails exactly if the head is marked removed; otherwise every disk still marked has several children or lies directly under the head, sharing no sector with it; all live images are kept, and exactly the files of the disks that are gone are gone |
| `Replicas.Replica.WriteAt` | pkg/replica/replica.go:1279-1306 | the volume is spliced, or, exactly if a part fails, the parts before it are; only touched sectors of the head's file change, every other disk's image is kept |
| `Replicas.Replica.Expand` | pkg/replica/replica.go:1253-1277 | all refusals; otherwise the new size, the old bytes kept, zeros added, and every image kept |
| `Replicas.Replica.ScanRemoved` | pkg/replica/replica.go:1340-1359 | the count is one more than the removed disks reached from the head, and the marks made on request |
| `Replicas.Replica.UnmapAt` | pkg/replica/replica.go:1331-1362 | exactly the counted files lose the trimmed range; these are the head and removed disks if and only if the run is unbroken or marked, and then all other images are kept |
| `Replicas.Replica.Revert` | pkg/replica/replica.go:854-894 | exactly when it fails, for the head as target and a full chain too; otherwise the reloaded replica's head is empty over the target and shows it, all other disks keep their metadata, file and image, and the limit stays |
| `DiskSteps.CreateCrashSafe` | pkg/replica/replica.go:896-1069 | after any number of forward steps the directory reopens with the head's old image if and only if the chain, one disk longer after step 12, is within 250 |
| `DiskSteps.FullChain` | pkg/replica/replica.go:1053-1055 | a directory of 250 disks that opens, and does not open any more once a snapshot has replaced the volume metadata |
| `DiskSteps.CreatedRootedIff` | pkg/replica/replica.go:942-969 | after which steps every disk of the directory has a path |
| `DiskSteps.StopRefusesSnapshots` | pkg/replica/replica.go:705-713 | a stop before the metadata rename leaves a file under the next head's name, which refuses the next snapshot; a later stop leaves the old head's file |
| `DiskSteps.LeftoverLimits` | pkg/replica/replica.go:687-713 | with the old head's file left behind at most eight more snapshots can be taken |
| `DiskSteps.CreatedTree` | pkg/replica/replica.go:942-996 | completed, the directory describes exactly the tree of the snapshot operation |
| `DiskSteps.CreatedFiles` | pkg/replica/replica.go:920-996 | completed, file by file: the old head's image, metadata and checksum and all temporary files are gone, snapshot and new head are there, every other file is as before |
| `DiskSteps.CreatedStore` | pkg/replica/replica.go:920-996 | the disks and image files are then those of the snapshot operation |
| `DiskSteps.RevertedFiles` | pkg/replica/replica.go:866-887 | completed, the three files of the old head and all temporary files are gone, the new head lies on the target, and disks and image files are those of the revert |
| `DiskSteps.RollbackExact` | pkg/replica/replica.go:920-991 | from a directory without leftovers of the new names, the rollback of any failing step restores every file |
| `DiskSteps.RevertCrashSafe` | pkg/replica/replica.go:854-894 | before the metadata rename the old head opens, afterwards exactly the target's image, each if and only if its chain is within 250 |
| `DiskSteps.RollbackRestores` | pkg/replica/replica.go:920-991 | whichever step fails, the rollback restores metadata, files, chain image and bookkeeping |
| `Backups.MarkExtent` | pkg/replica/extents.go:26-29 | marks exactly the sectors of the extent |
| `Backups.LoadLocationList` | pkg/replica/extents.go:11-37 | batch by batch, exactly the sectors the file holds are marked |
| `Backups.Preload` | pkg/replica/diff_disk.go:375-400 | every entry is the topmost layer with data, 0 if there is none |
| `Backups.CompareSnapshot` | pkg/replica/backup.go:190-216 | increasing, disjoint, aligned blocks, exactly those that contain a changed sector |
| `Backups.IncrementalComplete` | pkg/replica/backup.go:164-217 | the older image with the listed blocks of the newer one is the newer image |
| `Backups.ListedIff` | pkg/replica/backup.go:190-216 | a block is listed if and only if a layer above the older snapshot holds one of its sectors |
| `Backups.FindIndex` | pkg/replica/backup.go:219-237 | the index of a snapshot, or of the empty or backing image, or -1 exactly when it is missing |
| `Controllers.Replicator.BuildReaderWriters` | pkg/controller/replicator.go:170-201 | readers are exactly the RW backends, writers exactly those not ERR, with right index maps, in any map order |
| `Controllers.Replicator.AddBackend` | pkg/controller/replicator.go:53-70 | adds a new backend, keeps a known one, and the tables stay right |
| `Controllers.Replicator.RemoveBackend` | pkg/controller/replicator.go:72-90 | removes exactly that backend, the tables stay right |
| `Controllers.Replicator.ChangeMode` | pkg/controller/replicator.go:203-215 | changes exactly that mode, the tables stay right |
| `Controllers.Replicator.ReadAt` | pkg/controller/replicator.go:92-122 | served exactly when some RW replica works; the error names exactly the readers tried, in ring order, before the one that served, all of them if none did |
| `Controllers.RoundRobin` | pkg/controller/replicator.go:102-104 | among any n reads in a row each of the n readers is tried first exactly once |
| `Controllers.Replicator.WriteAt` | pkg/controller/replicator.go:124-145 | the error names exactly the writers that failed |
| `Controllers.Collect` | pkg/controller/multi_writer_at.go:53-68 | full length if some writer succeeded, an error if some failed |
| `Controllers.Controller.HasReplica` | pkg/controller/control.go:477-484 | finds exactly the registered addresses |
| `Controllers.Controller.HasWOReplica` | pkg/controller/control.go:148-155 | true exactly when some replica is write-only |
| `Controllers.Controller.CanAdd` | pkg/controller/control.go:157-168 | exactly a new address with no write-only replica and no expansion |
| `Controllers.Controller.AddReplica` | pkg/controller/control.go:433-475 | exactly when it is refused, snapshot failures included, and that a refusal changes no mode; otherwise controller and replicator agree and at most one replica is write-only; a step of the runs of `Controllers.ModeRuns` |
| `Controllers.Controller.RemoveReplica` | pkg/controller/control.go:486-505 | removes it everywhere, except the last one of a running volume; a step of the runs of `Controllers.ModeRuns` |
| `Controllers.Controller.SetReplicaMode` | pkg/controller/control.go:511-540 | sets RW or ERR on both sides, never leaves ERR, refuses write-only; a step of the runs of `Controllers.ModeRuns` |
| `Controllers.Controller.HandleError` | pkg/controller/control.go:1165-1199 | exactly the named replicas go to ERR, but for existing snapshots; when the error is dropped; a step of the runs of `Controllers.ModeRuns` |
| `Controllers.Controller.WriteAt` | pkg/controller/control.go:1035-1091 | when the write is sent (in range, and direct or its first reader works), when it is acknowledged, its count, and exactly which replicas go to ERR |
| `Controllers.WriteRefusedByRead` | pkg/controller/control.go:1059-1076 | a write in range whose first reader fails is not sent if and only if it is unaligned and a replica is being rebuilt |
| `Controllers.WorkingReplicaUnused` | pkg/controller/control.go:1074-1076 | a write that is not sent although one of two RW replicas works |
| `Controllers.Controller.ReadAt` | pkg/controller/control.go:1097-1113 | answered exactly in range and when some RW replica works; exactly the readers tried before it go to ERR |
| `Controllers.Controller.Reset` | pkg/controller/control.go:1207-1210 | no replica and no backend is left, the tables stay right |
| `Controllers.ModeRuns` | pkg/controller/control.go:157-168 | in every run at most one replica is write-only, and ERR is left only by removal |
| `Expansions.ExpandBackends` | pkg/controller/replicator.go:254-317 | success if some replica has the new size; out of sync are then those that have not, otherwise those not known to be as before |
| `Expansions.Volume.ExpandReplicas` | pkg/controller/control.go:337-362 | exactly which replicas stay in use and with which size |
| `Expansions.ExpansionAgreement` | pkg/controller/control.go:347-362 | after error handling the replicas left share one size: new if any succeeded, old otherwise |
| `Expansions.Volume.StartExpansion` | pkg/controller/control.go:370-402 | exactly when an expansion starts |
| `Expansions.Volume.Expand` | pkg/controller/control.go:312-419 | exactly which replicas go to ERR, none if all rolled back cleanly; one size among the replicas left, never below the controller's, which never shrinks; exactly when it becomes the new one |
| `Replication.WriteShows` | pkg/controller/control.go:1035-1057 | a replica that shows the volume shows the spliced volume after a write |
| `Replication.AlignedWriteSame` | pkg/controller/control.go:1059-1064 | an aligned write stores the same on a replica that cannot be read yet |
| `Replication.WideSame` | pkg/controller/control.go:1066-1081 | the write widened to whole sectors is aligned and splices the volume like the original |
| `Replication.WriteKeeps` | pkg/controller/control.go:1035-1091 | writes with any failures keep all RW replicas equal and the rebuilt one in step |
| `Replication.SnapshotKeeps` | pkg/controller/replicator.go:217-244 | snapshots with any failures keep the invariant: under any name while nothing is rebuilt, otherwise under a name that all replicas in use know, or that none knows and that is neither still to be copied nor on the target's path |
| `Replication.SnapshotInStepIff` | pkg/controller/control.go:1165-1192 | during a rebuild a snapshot keeps an RW replica and the new one in step if and only if both or neither know its name |
| `Replication.CopiedNameClash` | pkg/replica/replica.go:778-809 | a rebuild in which a copied but unknown name is taken: heads and parents differ and the new head has no path |
| `Replication.SnapRootedIff` | pkg/replica/replica.go:778-809 | after a snapshot over a file left under its name, the head has a path if and only if that name was not on its path |
| `Replication.TargetNameClash` | pkg/replica/replica.go:778-809 | a rebuild in which no replica knows a name on the target's path: both take it and agree, and the new head has no path |
| `Replication.AddKeeps` | pkg/controller/control.go:433-475 | adding a write-only replica under a fresh snapshot makes all heads equal |
| `Replication.AddRefusedKeeps` | pkg/controller/control.go:455-461 | an addition that fails half way keeps all RW images |
| `Replication.PrepareKeeps` | pkg/controller/rebuild.go:131-192 | preparing a rebuild sets a target that shows the volume |
| `Replication.CopyKeeps` | pkg/sync/rpc/server.go:421-460 | copying files while writes go on approaches the target, whatever has become of the replica they come from; the new replica does not know them yet |
| `Replication.CopyGoesOn` | pkg/sync/rpc/server.go:509-538 | the copying goes on when the replica the files come from fails or is removed |
| `Replication.ReloadKeeps` | pkg/sync/sync.go:538-542 | the reload makes the copied disks known and keeps the invariant |
| `Replication.VerifyKeeps` | pkg/controller/rebuild.go:38-94 | a promotion makes the new replica readable, beside the others, and it shows the volume; no replica is being rebuilt any more |
| `Replication.RunsAgree` | pkg/controller/control.go:1035-1057 | in every state of every run all RW replicas show one volume |
| `Replication.AcknowledgedWritesPresent` | pkg/controller/control.go:1165-1199 | every RW replica shows exactly the acknowledged writes, in order |
| `Replication.ReadsPromised` | pkg/controller/control.go:1097-1113 | a read from any RW replica returns the promised bytes |
| `ReplicationRuns.StepReadable` | pkg/controller/control.go:511-540 | after each step exactly which replicas are readable: only failures and removals end that, only a promotion begins it |
| `ReplicationRuns.StepRebuilding` | pkg/controller/control.go:157-168 | after each step exactly which replica is being rebuilt |
| `ReplicationRuns.WriteAcknowledgedIff` | pkg/controller/control.go:1035-1057 | a write inside the volume is acknowledged if and only if a readable replica does not break, and all such replicas show it |
| `ReplicationRuns.CopyStep` | pkg/sync/rpc/server.go:509-538 | each copy brings the source's disk and leaves one less to be copied |
| `ReplicationRuns.RebuildCompletes` | pkg/controller/rebuild.go:38-192 | prepared, copied and reloaded, the new replica shows the volume; it is promoted and readable if and only if no unknown file was left over in it |
| `ReplicationRuns.SnapshotTaken` | pkg/controller/replicator.go:217-244 | every replica that stays readable has a snapshot that shows the volume, under an empty head; a replica being rebuilt has the same disk |
| `ReplicationRuns.SnapshotStays` | pkg/replica/replica.go:942-996 | no step but a purge of that replica changes what a snapshot shows |
| `ReplicationRuns.SnapshotsPointInTime` | pkg/replica/replica.go:942-996 | in every run a snapshot shows the volume promised when it was taken, as long as its replica is readable and not purged |
| `ReplicationRuns.PromotedSnapshots` | pkg/controller/rebuild.go:63-78 | a promoted replica has all snapshots of the rebuild's target, with what they show |
| `Refinement.ChainRefines` | pkg/replica/replica.go:1047-1069 | the layers of a replica in the replication model are the live chain of the tree model |
| `Refinement.WriteRefines` | pkg/replica/replica.go:1279-1306 | the device's write is the write of the replication model |
| `Refinement.SnapshotRefines` | pkg/replica/replica.go:942-996 | the tree model's snapshot is the snapshot of the replication model |
| `Refinement.CompactRefines` | pkg/replica/replica.go:502-552 | an operation that keeps the head's image, like a purge, is an allowed step of the replication model |
| `Refinement.WriteReplica` | pkg/replica/replica.go:1279-1306 | a replica object that fails a write keeps its snapshot disks and files; one that stores it, with no touched sector unmapped, makes the write of the replication model |
| `Refinement.SnapshotReplica` | pkg/replica/replica.go:1205-1210 | a snapshot of a replica object is the snapshot of the replication model, a refused one changes nothing |
| `Refinement.PurgeReplica` | pkg/sync/rpc/server.go:1378-1427 | any purge of a replica object keeps the volume it shows |
| `DataConn.HandleKeeps` | pkg/dataconn/client.go:144-212 | every event keeps: one reply per request, its own or an error; exact in-flight count; nothing pending after an error |
| `DataConn.AskedEffect` | pkg/dataconn/client.go:172-186 | a request gets the next number and waits, or the recorded error at once; the clock starts exactly if nothing was in flight |
| `DataConn.AnsweredEffect` | pkg/dataconn/client.go:187-209 | the request pending under the number receives the response's data, all others are left alone; an unknown number changes nothing |
| `DataConn.BrokenEffect` | pkg/dataconn/client.go:144-171 | exactly the pending requests receive the error, and nothing is pending |
| `DataConn.RepliesExplained` | pkg/dataconn/client.go:126-212 | in every run each reply is the data of a response under the request's own number while it was pending, or the error that ended it |
| `DataConn.RegisterKeepsAllIff` | pkg/dataconn/client.go:214-248 | a new request leaves all pending ones waiting if and only if its number is free |
| `DataConn.SharedTimeouts.CheckAndDecrement` | pkg/util/shared_timeouts.go:44-63 | which timeout is exceeded and that exactly then the consumer is given back |
| `DataConn.Client.HandleClientError` | pkg/dataconn/client.go:144-154 | every pending request receives the error once, in any map order |
| `DataConn.Client.OnRequest` | pkg/dataconn/client.go:172-186 | a request is refused with the recorded error or registered under the next number and counted, exactly as in the machine that `PoolRuns` is about |
| `DataConn.Client.OnResponse` | pkg/dataconn/client.go:187-209 | a response hands its data to exactly the request pending under its number and renews the clock for I/O; any other response changes nothing; as in that machine |
| `DataConn.Client.OnTick` | pkg/dataconn/client.go:160-171 | exactly an exceeded timeout ends everything in flight and lowers the shared count, as in that machine |
| `DataConn.Client.OnEnd` | pkg/dataconn/client.go:135-142 | the consumer is given back unless a timeout did so |
| `DataConn.PoolStep` | pkg/util/shared_timeouts.go:29-63 | the count is the number of loops yet to decrement, and a tick lowers it exactly if its timeout is exceeded; a short timeout never takes it to zero |
| `DataConn.PoolRuns` | pkg/dataconn/client.go:126-212 | over any number of loops and any schedule: replies are final, no loop decrements twice, an ended one has decremented |
| `Wires.Wire.Write` | pkg/dataconn/wire.go:30-60 | appends exactly the encoding of the message |
| `Wires.Wire.Read` | pkg/dataconn/wire.go:62-101 | decodes one message or reports each of the errors, consuming exactly that |
| `Wires.RoundTripIff` | pkg/dataconn/wire.go:30-101 | a written message is read back if and only if its version is right and its payload is under 4 GiB |
| `Wires.Layout` | pkg/dataconn/wire.go:30-47 | which byte of which field stands at which place of a frame, in two's complement for the offset |
| `Wires.CutFrame` | pkg/dataconn/wire.go:62-98 | what every proper prefix of a message reads as: the end of the stream at 0 and 26 bytes, else an unexpected end |
| `Wires.WrongVersionRead` | pkg/dataconn/wire.go:73-76 | a message of another version is refused with its version |
| `Wires.DecodeIsEncoded` | pkg/dataconn/wire.go:62-101 | the bytes consumed by a successful read are the encoding of its message |
| `Wires.StreamRoundTrip` | pkg/dataconn/wire.go:30-101 | any sequence of messages written back to back reads back as that sequence |
| `RevisionCounter.BlockRoundTrip` | pkg/replica/revision_counter.go:22-58 | every int64 in a block reads back exactly |
| `RevisionCounter.FormatFits` | pkg/replica/revision_counter.go:46-51 | twenty bytes hold every int64 |
| `RevisionCounter.DigitsAt` | pkg/replica/revision_counter.go:46-51 | the text is decimal, digit by digit and with no place left out |
| `RevisionCounter.RevisionFile.WriteCounter` | pkg/replica/revision_counter.go:41-58 | whatever the reused buffer held, the file reads back as the new counter |
| `RevisionCounter.RevisionFile.Init` | pkg/replica/revision_counter.go:66-91 | a missing file starts at 0, an unreadable one is an error, otherwise cache and file agree |
| `RevisionCounter.RevisionFile.SetRevisionCounter` | pkg/replica/revision_counter.go:130-136 | file and cache hold the new value |
| `RevisionCounter.PersistedCounterIff` | pkg/replica/revision_counter.go:93-113 | in every interleaving the file is the cached value or one more and at least start plus acknowledged, if and only if it has not passed the largest int64 |
| `RevisionCounter.SetIsSafeIff` | pkg/replica/revision_counter.go:126-136 | setting the counter keeps that, in every later interleaving, if and only if the goroutine is ready |
| `RevisionCounter.FailedWriteStrands` | pkg/replica/replica.go:1288-1303 | one failed data write leaves the goroutine waiting with nothing pending |

## Left out

- Volume and layer sizes are multiples of 4096, as the constant for the volume sector size asks; the rounding of a location table for other sizes is not modelled.
- Layer indices fit a byte: fewer than 256 files are required where a layer is added.
- Errors of the file system inside the layered device other than failed writes of the head, read-only replicas, and file locking.
- Refinement.WriteReplica: that the write is the replication model's is stated for sectors that are not unmapped.
- File system extents, folding and pruning are pure functions: extents are exact, sector aligned and ordered; the child wins in a fold; a prune removes what the child holds.
- Hard links are copies by value: a file relinked under a new name and written through both names is not modelled.
- A backing file is a read-only base layer that is not a disk of the tree.
- Snapshot labels, creation times and the dirty flag; the user-created flag appears as the set of disks that a purge marks.
- Crashes while a rollback runs, while the first disk of a volume is created, and inside a purge.
- DiskSteps.RollbackRestores: files left over under the snapshot's name, which the link step clears, are not restored.
- PurgeRuns.PurgeSnapshots: a snapshot taken while a purge runs, errors of the file operations, and its progress figures are not modelled.
- Replicas.Replica.RemoveDiffDisk: forced removal of a disk with several children is not modelled.
- Replicas.Replica.ReplaceDisk: only as a purge calls it, for a disk that has been folded with its only child.
- Replicas.WalkPath: a cycle of parents, on which the source does not terminate, is excluded (`LiveChains.WalkEndsIff` says exactly when).
- Replicas.Open: the same cycle of parents is excluded.
- Backups.IncrementalComplete: the newer snapshot is the one the chain was opened at, as the backup opens it.
- Expansions.Volume.Expand: replica errors that match the text for an existing snapshot are not modelled.
- Controllers.Controller.AddReplica: that a replica's size becomes the volume's when it is the first one is not modelled.
- Replication.AddKeeps: a new replica has the volume's size and backing file, and the snapshot taken for it has a fresh name.
- Replication.SnapshotKeeps: during a rebuild, names that only some replicas know are left to `Replication.SnapshotInStepIff`, and names on the target's path to `Replication.SnapRootedIff`; a name whose file is still to be copied is left out, as the copy replaces the new snapshot.
- Replication.CopyKeeps: the replica the files come from keeps its snapshot files when it breaks (`Refinement.WriteReplica` proves this of failed writes) and after its removal.
- Replication.PrepareKeeps: the replica that gives the file list and the one that gives the files hold equal disks.
- Replication.VerifyKeeps: only this way of promotion; setting a rebuilding replica to RW directly and restoring replicas bypass it.
- Purges appear in the replication model as a step that keeps a replica's image (see `Refinement.CompactRefines`), and not during a rebuild; reverts, expansions and unmaps are not steps of it (for unmaps see `SectorMaps.UnmappedAgreeIff`).
- Refinement.SnapshotRefines: for a head that is not marked removed, as no operation marks it.
- Attribution of unmap errors, which tests for another error type than it receives.
- Interleavings inside one controller request: requests to the controller are serialised.
- DataConn.Client.OnTick: timeouts are positive; real time is a parameter.
- Requests still pending when a client loop is closed: they are not answered.
- Wires.Wire.Write: connection errors are not modelled.
- Failed writes of the revision counter file, which end the goroutine.
- Frontends, gRPC services, the command line, metrics, filesystem freezing, snapshot hashing, backup and restore status, salvage at start-up.

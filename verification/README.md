# fstorex: the metadata state machine, its replicas, orphan collection and file I/O

A Dafny model of the parts of fstorex in which state is shared, moved or replicated, with proofs about every
input, every run and every interleaving.

It has two layers. `Namespace.Apply` says on plain values what a committed command does to a metadata state: the
tree is a flat map from component sequences to attributes, so a rename is one re-keying of the map and a `mkdir -p`
one union. The class `MetadataServers.MetadataServer` is the program's own pointer tree: entries linked by
`children` maps, walked by loops and mutated in place. Each of its methods is proved to end in the state, and to
return the error, that the value layer gives. The ghost field `paths` names every entry by its one path; it is what
makes the tree a tree (rooted, no sharing, no cycle) and what the recursive walks terminate on. What holds over
whole runs is then proved about `Namespace.Apply` and carries over to the class.

| file | what is in it |
|---|---|
| `Paths.dfy`, `FsTypes.dfy` | path strings and component sequences; the values everything else shares |
| `Namespace.dfy` | what each committed command does, on values; the tree invariant |
| `Commands.dfy` | what each command does, place by place, said without those definitions |
| `TreeShape.dfy`, `Pictures.dfy` | when pointers form a tree whose nodes are named by paths, and what attaching, cutting, moving and grafting do to one, for any type of node |
| `MetadataServers.dfy` | the pointer tree, the `apply` methods, snapshot and restore, the collector's walk, the create service |
| `Snapshots.dfy`, `Replication.dfy` | snapshots as values; several nodes that follow one log with their own clocks |
| `History.dfy`, `Identity.dfy` | properties of whole runs: failures, membership, exclusive create, FileIDs, replica coherence, rename |
| `Placement.dfy` | choosing data nodes with a wrapping hash; the create service on values |
| `Posix.dfy` | delete and rename against the documents and POSIX, with the exact conditions under which they differ |
| `ByteFiles.dfy`, `DataNodes.dfy` | byte files and the data node that stores them |
| `HandleOutcomes.dfy` | what each operation of a handle does, byte by byte and field by field |
| `FileIO.dfy`, `HandleRuns.dfy`, `HandleWitnesses.dfy`, `FileHandles.dfy` | the client's handle on values, its runs, short runs in which it goes wrong, and the classes proved against it |
| `Services.dfy` | the rename and delete services around their commands |
| `GcProtocol.dfy`, `GcThreats.dfy`, `GcRuns.dfy` | orphan collection interleaved with commits and clients; exactly when it can lose a live file's bytes; runs in which it does |
| `Gc.dfy`, `GcCycles.dfy` | one cycle as the leader runs it; that it takes only steps the protocol allows |
| `SmallCluster.dfy` | the one-node cluster of the concrete runs |

Clock readings, fates of remote calls, disk failures and new FileIDs are parameters: a theorem about them holds
for all of them.

## Where the program and its documents disagree

The model follows the code. Each case has its exact condition, for all inputs, and a concrete run that shows the failure.

* An overwriting create keeps the FileID of the file it replaces but installs replicas minted for a new one
  (internal/metadata/apply.go:103 and 114). A run keeps every file's replicas under `/data/` and its FileID if and
  only if no create of the run lands on an existing file (`RunCoherence`). Within the time bounds, collection can get to
  delete a replica of a live file before the next commit if and only if some live file has a replica under another
  FileID and the replica's node may be listed, by a cycle in flight or by one that starts from now on
  (`ReplicasAreSafe`). With no cycle in flight and every commit older than the lag, that is: on a node registered in the
  committed state (`QuietReplicasAreSafe`). `OverwriteLosesBytes` reaches such a state with a heartbeat and two creates;
  when the node then leaves the cluster, the bytes are safe (`DepartedNodeKeepsBytes`).
* A written file stays pending in the metadata: `WriteAt` marks only the handle complete
  (internal/client/file_handle.go:114-117), so `Close` completes the file if and only if nothing was written
  (`CloseCompletesOnlyUnwritten`, `ClosedStaysPending`).
* An empty write past the end raises the recorded size but no file's length; it is the only write that lets the
  metadata run ahead of the data (`WriteKeepsOrder`, `EmptyWriteRunsAhead`, `EmptyWriteHappens`). Truncations that fail
  on some replica, or whose size update is lost, do so under the condition of `TruncateKeepsOrder` (`LostTruncationHappens`). Over whole runs the
  sizes stay in order if and only if every operation meets its condition (`MetadataNeverAhead`).
* Truncating a file that no data node holds yet is an error, despite the comment at
  internal/datanode/datanode.go:310-311; hence a file that was created and never written cannot be opened with
  `O_TRUNC` (`TruncatingOpen`, `UnwrittenCannotBeTruncated`).
* Size updates and truncations go to the path the handle was opened with, not to the FileID
  (internal/client/file_handle.go:121 and 157-161), although the handle's comment promises that it follows the file
  through a rename. The record of the handle's own file moves if and only if the path still names it
  (`ResizeFollowsThePath`, `RenamedThenWritten`); when the path names another file, a truncation cuts that file and
  leaves the handle's own bytes alone (`TruncateFollowsThePath`, `StaleHandleHappens`).
* A delete removes non-empty directories (internal/metadata/apply.go:153); docs/filesystem-semantics.md:302 says it
  should refuse. The outcomes differ if and only if the path has children (`DeleteOutcome`, `DeleteTakesOne`,
  `DeleteTakesChildren`).
* The rename command lets a directory replace a file (internal/metadata/apply.go:221-228), and refuses two renames that
  `rename()` of IEEE Std 1003.1-2017 allows: a directory over an empty directory, and a directory to itself. For all
  trees and paths these are the only differences (`RenameOutcome`, `RenameJoinsKinds`, `DirectoryReplacesFile`,
  `EmptyDirectoryStays`, `DirectoryToItselfRefused`). The service grants equal strings without a look at the tree
  (internal/metadata/mds.go:330-333): right for whatever exists, wrong for a missing path; for all pairs of strings its
  answer is characterised by `RenameServiceOutcome` (`NothingIsRenamed`).
* A delete tells the client which data to remove from a look at the path before its command commits
  (internal/metadata/mds.go:293-316). The client then destroys data of a live file if and only if the file looked at was
  moved away from the path in between (`DeleteHitsLive`, `DeleteHitsOwn`, `EarlyLookHappens`).

## Model

| member | source | states |
|---|---|---|
| `Paths.SplitPath` | internal/metadata/mds.go:462-475 | trimming, splitting and filtering yield exactly the maximal slash-free runs of the string, the reference meaning of a path |
| `Paths.ComponentsOfJoined` | internal/metadata/mds.go:462-475 | joining two strings with a slash concatenates their components, so leading, trailing and doubled slashes never matter |
| `Paths.ComponentsRoundTrip` | internal/metadata/mds.go:462-475 | every sequence of proper names is what some path string splits into |
| `TreeShape.WalkFindsPath` | internal/metadata/mds.go:477-489 | following pointers from the root answers, for every path, exactly what the flat map answers |
| `TreeShape.OnePathEach` | internal/metadata/mds.go:65-81 | an entry reached along two paths was reached along the same path twice: no sharing and no cycles |
| `TreeShape.MoveKeepsTree` | internal/metadata/apply.go:188-241 | re-hanging a node under a directory that is not below it leaves a tree, in which the whole subtree is named by its new paths |
| `Namespace.ApplyKeepsTree` | internal/metadata/apply.go:11-256 | after any command the tree is still closed under parents, only directories have children, and every entry's name is its key |
| `Namespace.FileStopsMkdir` | internal/metadata/apply.go:44-61 | a file met by the mkdir loop while all levels above it exist decides the failure of the whole command and its level, so nothing was created before it |
| `Namespace.WithDirsStep` | internal/metadata/apply.go:44-61 | creating the levels one by one gives the tree in which exactly the missing prefixes are new, and each receiving directory is touched |
| `Commands.MkdirOutcome` | internal/metadata/apply.go:40-63 | a mkdir succeeds if and only if no file is on the way or at the path; then exactly the missing prefixes are new plain directories of mode 0755, and of the old places only the deepest one on the way gets a new time; a failure names the level of a file and changes nothing |
| `Commands.CreateRefusals` | internal/metadata/apply.go:65-94 | for each refusal and for success, the exact condition on tree, path and mode; a refusal changes nothing |
| `Commands.CreateRecords` | internal/metadata/apply.go:96-117 | a successful create makes or replaces one pending record of mode 0644 with the size and replicas it carries; creation time and FileID are the old ones if there was a file; elsewhere only the parent's time changes |
| `Commands.CompleteOutcome` | internal/metadata/apply.go:120-131 | when it is refused; else status and time of the one record change and everything else stays, its size included |
| `Commands.ResizeOutcome` | internal/metadata/apply.go:245-256 | when it is refused; else size and time of the one record change and everything else stays |
| `Commands.DeleteOutcome` | internal/metadata/apply.go:133-156 | when it is refused; else everything at and below the path leaves and of the rest only the parent's time changes |
| `Commands.RenameRefusals` | internal/metadata/apply.go:162-224 | for each refusal and for success, the exact condition, in the order of the checks; a refusal changes nothing |
| `Commands.HeartbeatRecords` | internal/metadata/apply.go:11-26 | the heartbeat's time is recorded and no other; a new node goes to the end of the list, a known one stays where it is |
| `Commands.RemovalForgets` | internal/metadata/apply.go:28-38 | the time is forgotten and the first listing cut out, whatever the list |
| `Commands.DispatchOutcome` | internal/metadata/state_machine.go:11-41 | every command works on the components of its own paths with its own payload and leaves the members alone; an unknown operation is refused and changes nothing |
| `Namespace.RenameIsIncomparable` | internal/metadata/apply.go:188-218 | a rename that passes the checks has equal paths or paths of which neither is above the other |
| `Posix.DeleteOutcome` | internal/metadata/apply.go:133-156 | a delete succeeds where the documents ask for it if and only if the path is the root, missing or without children |
| `Posix.DeleteTakesOne` | internal/metadata/apply.go:150-155 | a successful delete removes the one path and no other if and only if there was nothing below it |
| `Posix.DeleteTakesChildren` | internal/metadata/apply.go:150-155 | a concrete tree in which deleting a directory removes a file, which the documents forbid |
| `Posix.RenameOutcome` | internal/metadata/apply.go:162-241 | over all trees and pairs of paths, the command succeeds as POSIX asks if and only if none of three differences applies: directory over file, directory over empty directory, directory to itself |
| `Posix.RenameServiceOutcome` | internal/metadata/mds.go:320-345 | over all states and pairs of path strings, the service's answer is the one POSIX asks for if and only if: for equal strings, they name the root or something that exists; for others, none of the three differences applies |
| `Posix.NothingIsRenamed` | internal/metadata/mds.go:330-333 | a rename of a missing path to itself is granted, which POSIX refuses |
| `Posix.DirectoryToItselfRefused` | internal/metadata/apply.go:220-224 | a directory renamed to another spelling of its own path is refused, which POSIX allows |
| `Posix.RenameJoinsKinds` | internal/metadata/apply.go:220-228 | a successful rename replaces like by like if and only if no directory came to where a file was |
| `Posix.DirectoryReplacesFile` | internal/metadata/apply.go:220-234 | a concrete tree in which a directory takes the place of a file |
| `Posix.EmptyDirectoryStays` | internal/metadata/apply.go:220-224 | a concrete tree in which a rename over an empty directory is refused that POSIX allows |
| `MetadataServers.MetadataServer.constructor` | internal/metadata/mds.go:101-115 | a new server shows the initial state, with an empty root directory |
| `MetadataServers.MetadataServer.WalkDirs` | internal/metadata/apply.go:141-148 | the parent walk succeeds exactly when the path names a directory of the tree, and ends at that entry |
| `MetadataServers.MetadataServer.Lookup` | internal/metadata/mds.go:477-489 | the entry at the path, for every path string, and nil exactly when there is none |
| `MetadataServers.MetadataServer.MeetsPointer` | internal/metadata/apply.go:190-208 | the pointer-identity test finds the source directory exactly when its path is a prefix of the destination's parent path, also when that parent is missing part-way |
| `MetadataServers.MetadataServer.ApplyMkdir` | internal/metadata/apply.go:40-63 | the in-place loop ends in the tree with all prefixes added, or fails with the level of the file in the way and leaves the tree untouched |
| `MetadataServers.MetadataServer.ApplyCreateFile` | internal/metadata/apply.go:65-118 | all four refusals and both modes; an overwrite keeps identity and creation time; only the file and its parent's time change |
| `MetadataServers.MetadataServer.ApplyCompleteFile` | internal/metadata/apply.go:120-131 | status and time of one file change, and nothing else in the tree |
| `MetadataServers.MetadataServer.ApplyUpdateSize` | internal/metadata/apply.go:245-256 | size and time of one file change, and nothing else in the tree |
| `MetadataServers.MetadataServer.ApplyDelete` | internal/metadata/apply.go:133-156 | exactly the entries at and below the path leave, all others keep their identity as objects and their path; errors change nothing |
| `MetadataServers.MetadataServer.ApplyRename` | internal/metadata/apply.go:158-241 | the same entries, re-keyed from source to destination; every refusal in the program's order; the structure is a tree again |
| `MetadataServers.MetadataServer.ApplyHeartbeat` | internal/metadata/apply.go:11-26 | the node is listed once, at the end if new, and its time is recorded |
| `MetadataServers.MetadataServer.ApplyRemoveDataNode` | internal/metadata/apply.go:28-38 | the node's listing and time are gone and the others keep their order |
| `MetadataServers.MetadataServer.Apply` | internal/metadata/state_machine.go:11-41 | the pointer structure refines the value specification for every command: same state, same result, invariant kept, only new entries added |
| `MetadataServers.ToEntry` | internal/metadata/mds.go:595-614 | only newly allocated entries, forming a tree that shows exactly what the snapshot holds |
| `MetadataServers.MetadataServer.Snapshot` | internal/metadata/state_machine.go:43-52 | the snapshot of the state that the server shows; reading changes nothing |
| `MetadataServers.MetadataServer.Restore` | internal/metadata/state_machine.go:54-74 | for every snapshot: a tree of new entries, sharing none with any older one, that shows what the snapshot says; the server is valid afterwards if and only if that is well formed; empty data changes nothing |
| `MetadataServers.MetadataServer.CollectValidFileIDs` | internal/metadata/gc.go:99-125 | exactly the non-empty FileIDs of the live files; in a tree of proper names, which every run keeps, exactly those of files that a lookup of some path string finds |
| `MetadataServers.MetadataServer.CreateFile` | internal/metadata/mds.go:222-271 | reply and new state of the service, whatever commands commit between its checks and its own; a client is promised a coherent choice of one to three different nodes under the new FileID |
| `MetadataServers.MetadataServer.Rename` | internal/metadata/mds.go:318-345 | reply and new state of the service for all strings, its early answers included |
| `MetadataServers.MetadataServer.Delete` | internal/metadata/mds.go:287-316 | the reply tells of the entry found before the interleaved commands, whatever the command then removes |
| `Services.DeleteHitsLive` | internal/metadata/mds.go:293-316 | after any run without overwriting creates, a successful delete makes its client destroy a replica of a live file if and only if the file looked at is alive elsewhere when the command commits |
| `Services.DeleteHitsOwn` | internal/client/client.go:306-337 | while the path still names the file looked at, no replica of a live file is destroyed |
| `Services.RenameServiceState` | internal/metadata/mds.go:320-345 | the state changes by the command only, and only for different strings neither of which is empty or the root; each reply with its exact condition |
| `Services.DeleteServiceOutcome` | internal/metadata/mds.go:288-316 | a missing path commits nothing; else the command takes effect after what committed in between, and the reply tells of the entry seen before |
| `Services.SameReplicas` | internal/metadata/apply.go:96-115 | over a run without overwriting creates a file keeps its replicas, wherever it is moved |
| `Placement.ChecksAreEarly` | internal/metadata/mds.go:233-258 | when nothing commits in between, the service's early checks change no state and no reply: the command would refuse alike |
| `Snapshots.TakenAt` | internal/metadata/mds.go:573-593 | a subtree's snapshot answers every relative path as the tree does |
| `Snapshots.RoundTrip` | internal/metadata/mds.go:549-613 | a restored snapshot is the state it was taken from: every lookup, and so every later run, is the same |
| `Snapshots.RestoredPlaces` | internal/metadata/mds.go:595-614 | every entry of any snapshot is restored at the names that lead to it, those below files excepted, and nothing else is |
| `Snapshots.RestoredWithoutRoot` | internal/metadata/mds.go:549-559 | a snapshot without a root restores to an empty root directory of mode 0755 |
| `Replication.StepAgrees` | internal/metadata/state_machine.go:11-41 | on two states that differ only in times, one command applied at two clock readings succeeds or fails alike, with the same error, and leaves states that differ only in times |
| `Replication.InvHolds` | internal/metadata/state_machine.go:11-74 | in every execution of commits, applies, snapshots, crashes with replay and installed snapshots, every node and every saved snapshot is, up to times, the log's prefix run at its index |
| `Replication.NodesAgree` | internal/metadata/state_machine.go:11-74 | any two nodes at equal index agree on everything but times, and the next command has the same result on both |
| `History.FailedLeaveNoTrace` | internal/metadata/apply.go:11-256 | deleting all failed commands from any log leaves its end state the same, times included |
| `History.RemovalCutsOne` | internal/metadata/apply.go:28-38 | removal cuts out the one listing, keeps the order of the rest and makes nothing double |
| `History.RejoinGoesLast` | internal/metadata/apply.go:11-38 | a removed node that sends a heartbeat is listed exactly once, at the end |
| `History.MembersAgreeOnEveryRun` | internal/metadata/apply.go:11-38 | in every reachable state the listed nodes are distinct and are those with a recorded heartbeat |
| `History.PathStaysOverRun` | internal/metadata/apply.go:133-241 | a path stays in the tree over any part of a run in which no successful delete or rename takes it or a directory above it |
| `History.ExclusiveCreate` | internal/metadata/apply.go:82-91 | after a successful create of a path, an exclusive create of it succeeds only if in between a successful delete, or rename by source, took that path or one of its ancestors |
| `Identity.Provenance` | internal/metadata/apply.go:96-115 | after any command every file is new with the command's FileID, or is a file that existed, with its FileID and creation time; only an overwrite gives it other replicas |
| `Identity.DistinctOrigins` | internal/metadata/apply.go:162-241 | two entries after a command never come from one entry before it |
| `Identity.LiveMeansFound` | internal/metadata/mds.go:462-489 | in every reachable state all names are proper, and a FileID is live if and only if a lookup of some path string finds a file with it |
| `Identity.IDsAreUnique` | internal/metadata/apply.go:96-115 | when creates carry fresh FileIDs, no two paths ever hold the same one, and every live one was brought in by a create of the log |
| `Identity.NeverResurrected` | internal/metadata/apply.go:96-241 | a FileID that was created earlier and is live later was live, with the same creation time, at every point between: what left never returns |
| `Identity.CreationTimeIsFixed` | internal/metadata/apply.go:96-115 | at any two points of a run at which a FileID is live it has the same creation time |
| `Identity.CoherenceStep` | internal/metadata/apply.go:96-115 | one command keeps every file's replicas under its own FileID if and only if it is not an overwriting create that finds a file |
| `Identity.RunCoherence` | internal/metadata/apply.go:82-115 | the same for whole runs: coherent at every point if and only if no create lands on an existing file |
| `Identity.ReplicasComeFromCreate` | internal/metadata/apply.go:96-115 | in every reachable state a file's replicas are those of some create of the log, which carried its FileID or landed on it |
| `Identity.LandedNeverLives` | internal/metadata/apply.go:96-104 | the FileID of a create that landed on an existing file is never the FileID of any file |
| `Identity.RenameMovesOneSubtree` | internal/metadata/apply.go:162-241 | every suffix under the destination is what was under the source; nothing is left under the source; all other paths are as before up to the two parents' times; at most the overwritten file's FileID leaves |
| `Placement.WindowDistinct` | internal/metadata/mds.go:525-537 | a ring window no longer than the ring never names a node twice |
| `Placement.SelectionIsCoherent` | internal/metadata/mds.go:501-539 | for every path and hash value the choice is of min(count, nodes) different nodes, all under `/data/` and the FileID |
| `Placement.HashIsPolynomial` | internal/metadata/mds.go:513-517 | the hash is the polynomial of the characters in 31, up to a multiple of 2^64, in the signed 64-bit range |
| `Placement.RemainderTruncates` | internal/metadata/mds.go:518-521 | the remainder has the dividend's sign, is smaller than the divisor and differs from the dividend by a multiple |
| `Placement.SelectionIs` | internal/metadata/mds.go:504-539 | the window starts at the hash's absolute value on the ring, goes on node by node over its end, and has the wished length but at least one and at most as many as there are nodes |
| `Placement.CreateServiceOutcome` | internal/metadata/mds.go:222-271 | each early refusal with its condition; else the command's effect after what committed in between; on success three replicas, or as many as there are nodes, all on listed nodes and under the new FileID |
| `Placement.SelectDataNodes` | internal/metadata/mds.go:501-539 | the start index under wrapping 64-bit hashing and truncated remainder is in range, and the loop returns the full ring window from distinct nodes; never a node twice even from a list with repetitions |
| `ByteFiles.HistoryDecides` | internal/datanode/datanode.go:111-318 | after any history of stores, writes and truncations the length and each byte are those of the last operation that decided them, gaps reading as zero |
| `ByteFiles.SliceIs` | internal/datanode/datanode.go:243-262 | a read returns the bytes from the offset clipped at the end, and reports the end exactly when offset plus length exceeds the file |
| `ByteFiles.ReadBack` | internal/datanode/datanode.go:230-298 | written bytes are read back exactly, wherever they were written |
| `DataNodes.NodeHistoryDecides` | internal/datanode/datanode.go:111-318 | after any history of calls on a node, failed ones included, a file exists exactly when the history says so, and its length and every byte are those of the last operation that decided them; a failed store, or a truncation of a missing file, amounts to nothing |
| `DataNodes.DataNode.StoreData` | internal/datanode/datanode.go:110-139 | all or nothing: on success the file is the byte operation "store" of what it was, with a new time; when the disk fails it is as before; no other file changes, and the node is as after one more call of its history |
| `DataNodes.DataNode.DeleteData` | internal/datanode/datanode.go:164-185 | the one file is gone and no other; deleting it again is no error |
| `DataNodes.DataNode.PartialWrite` | internal/datanode/datanode.go:265-298 | the file is the byte operation "write" of the bytes that reached the disk, also when the disk failed part-way; success exactly when all did; a file that could not be opened is as before, and a negative offset leaves at most a new empty file |
| `DataNodes.DataNode.Truncate` | internal/datanode/datanode.go:300-318 | succeeds exactly on an existing file and a non-negative size, and then is the byte operation "truncate"; a failure changes nothing |
| `DataNodes.DataNode.RangeRead` | internal/datanode/datanode.go:228-263 | a missing file reads as empty at its end; otherwise the clipped slice with its end mark |
| `DataNodes.DataNode.ListAllPaths` | internal/datanode/datanode.go:193-226 | every file but the temporary ones, with its time, each exactly once and nothing else; a scan that stops at an error gives no list |
| `FileIO.WriteFirstAt` | internal/client/file_handle.go:79-89 | calls to replicas on different nodes do not see each other, so their order does not matter |
| `HandleRuns.WriteKeepsOrder` | internal/client/file_handle.go:71-129 | a write keeps recorded size <= cached size <= every replica's length if and only if it is not an empty write, taken by all replicas, past the end of one of them; whatever calls and disks fail |
| `HandleRuns.TruncateKeepsOrder` | internal/client/file_handle.go:151-169 | for every size and all fates of the calls, on some replicas or all: the order is kept if and only if all is served, or no replica that is cut loses bytes of the cached size and no lost answer raises the record above it |
| `HandleRuns.ResizeFollowsThePath` | internal/client/file_handle.go:108-127 | for every fate of the size update: the record of the handle's own file gets the new size if and only if the update is served and the path still names that file; else the record stays, and whoever holds the path gets it |
| `HandleRuns.TruncateFollowsThePath` | internal/client/file_handle.go:151-169 | a successful truncation cuts data and record of whatever file the path now names; if that is another, the handle's own file keeps its record and every byte on every replica |
| `HandleRuns.ForeignKeepsFile` | internal/metadata/apply.go:40-256 | commands on other paths leave a file's record exactly as it is, also when they move, remove or create directories around it |
| `HandleRuns.MetadataNeverAhead` | internal/client/file_handle.go:71-169 | over every run of writes and truncations with arbitrary failures, among foreign commands and foreign changes on the nodes: recorded size <= cached size <= every replica's length at every point, if and only if every operation meets its condition |
| `HandleRuns.NewFileSizes` | internal/client/client.go:400-417 | the same from the open that creates the file on; so always, when all writes carry data and there is no truncation |
| `HandleRuns.CreatedHandle` | internal/client/client.go:387-465 | a creating open yields a pending file and a handle that agree on identity and replicas, on different nodes, with ordered sizes, whatever commits before the create |
| `HandleRuns.StatusOnRun` | internal/client/file_handle.go:102-127 | over every run the recorded status stays pending, while the handle's becomes complete exactly when a write succeeded |
| `HandleRuns.CloseCompletesOnlyUnwritten` | internal/client/file_handle.go:131-149 | after any run and for every fate of the call, close leaves the file complete if and only if no write through the handle succeeded and the call is served; after a write it cannot fail |
| `HandleRuns.ReadAfterWrite` | internal/client/file_handle.go:37-129 | after a successful write, and through any foreign commands, a read of the range returns exactly the bytes written, whichever replica answers and however the replicas differed before; it fails only if none answers |
| `HandleOutcomes.ReadOutcome` | internal/client/file_handle.go:37-63 | the first replica that responds decides: the bytes of its file from the offset on, clipped at the end, and the end reported if and only if fewer than asked for are left; an error if and only if none responds or the offset is negative |
| `HandleOutcomes.WriteOutcome` | internal/client/file_handle.go:71-129 | success if and only if every replica takes every byte; what each replica holds afterwards, byte by byte and with its time, under every fate of its call; cached size, status and recorded size move on success only |
| `HandleOutcomes.WriteSpares` | internal/datanode/datanode.go:265-298 | no file that is not a replica of the handle changes, on any node |
| `HandleOutcomes.TruncateOutcome` | internal/client/file_handle.go:151-169 | success if and only if all replicas the path names have the file and answer, and the size update is served and answered; what each replica holds afterwards under every fate; when the record moves |
| `HandleOutcomes.CloseOutcome` | internal/client/file_handle.go:131-149 | the completion is asked for if and only if the handle believes the file pending; when close fails; no data changes |
| `HandleOutcomes.PlainOpen` | internal/client/client.go:387-465 | an existing file opens if and only if the metadata calls are served, with the record's identity, replicas, size and status, and no data changes, whatever commits meanwhile on other paths |
| `HandleOutcomes.OpenRefusals` | internal/client/client.go:387-425 | each early refusal with its exact condition; none changes anything |
| `HandleOutcomes.CreatingOpen` | internal/client/client.go:400-417 | a creating open fails if and only if its create is unserved, unanswered or refused, or the file is not found afterwards; what was created stays |
| `HandleRuns.TruncatingOpen` | internal/client/client.go:427-465 | an open with O_TRUNC succeeds if and only if the metadata calls are served and every replica answers and holds the file; then data, record and handle are all empty |
| `HandleRuns.UnwrittenCannotBeTruncated` | internal/client/client.go:400-442 | a file that was created and that no node holds yet cannot be opened with O_TRUNC, under any fates |
| `HandleRuns.EmptyWriteRunsAhead` | internal/client/file_handle.go:107-121 | an empty write past the start of any file just created puts the metadata ahead of the data |
| `HandleRuns.RenamedThenWritten` | internal/client/file_handle.go:107-127 | after any rename of a file just created, a write through its handle succeeds and leaves the file's record at zero |
| `HandleWitnesses.EmptyWriteHappens` | internal/client/file_handle.go:107-121 | a concrete run from an empty cluster in which an empty write breaks the order of the sizes |
| `HandleWitnesses.StaleHandleHappens` | internal/client/file_handle.go:107-169 | a concrete run in which a handle outlives a rename: its write is recorded nowhere, and its truncation empties another file and spares its own byte |
| `HandleWitnesses.ClosedStaysPending` | internal/client/file_handle.go:107-149 | a concrete run in which a file is created, written and closed, every call served, and stays pending |
| `HandleWitnesses.LostTruncationHappens` | internal/client/file_handle.go:151-169 | a concrete run in which the answer of a truncation is lost and the sizes are out of order |
| `HandleWitnesses.EarlyLookHappens` | internal/metadata/mds.go:293-316 | a concrete run in which a delete removes one file and tells the client to destroy the data of another that lives on |
| `FileHandles.Client.PartialWrite` | internal/client/client.go:551-569 | effect and answer of one remote write under every fate of the call: not served, disk failing part-way, answer lost |
| `FileHandles.Client.TruncateReplicas` | internal/client/client.go:480-506 | every replica is asked, whatever the others answer, and success means that all succeeded |
| `FileHandles.Client.TruncateAndResize` | internal/client/file_handle.go:151-169 | the metadata follow only when all replicas were cut; the replicas are those the server now names under the path |
| `FileHandles.Open` | internal/client/client.go:379-465 | every branch of flags and path state, every fate of its calls to data and metadata, and any commands that commit between its steps: the handle that results and the state of data and metadata behind it |
| `FileHandles.FileHandle.ReadAt` | internal/client/file_handle.go:37-63 | the answer of the first replica that answers; an error exactly when none does |
| `FileHandles.FileHandle.CountSuccesses` | internal/client/file_handle.go:91-105 | the count equals the number of replicas exactly when none failed |
| `FileHandles.FileHandle.WriteAt` | internal/client/file_handle.go:65-129 | success exactly when every replica took all the data; only then do cached size, status and recorded size move |
| `FileHandles.FileHandle.Truncate` | internal/client/file_handle.go:151-169 | the cached size moves only when data and metadata both did |
| `FileHandles.FileHandle.Close` | internal/client/file_handle.go:131-149 | completion is asked for exactly when the handle still believes the file pending |
| `GcProtocol.InvHolds` | internal/metadata/gc.go:41-69 | over every interleaving of commits, client writes and deletes, passing time and any number of cycles: every stored file is dated after the commit of the create with its FileID, and every cycle's set is the live set of a log prefix |
| `GcProtocol.DeleteIsSafe` | internal/metadata/gc.go:143-171 | in any state that satisfies the invariant, with delays inside the window, a deletion the cycle may make is not of `/data/{id}` for an `id` live in the committed tree |
| `GcRuns.SafetyWindow` | internal/metadata/gc.go:11-23 | collection is safe in all runs if and only if tree lag plus both clock errors is below the 30 second window |
| `GcRuns.LateWalk` | internal/metadata/gc.go:42-69 | for any bounds outside the window, a run of no longer than the window on a cluster with one registered node, in which a cycle deletes a live file's data |
| `GcThreats.ReplicasAreSafe` | internal/metadata/gc.go:41-69 | inside the window, after any run whose creates are as the server mints them: collection can get to delete a live file's replica before another commit if and only if the replica is not under the file's FileID, and its node may be listed late enough by a cycle in flight, at whatever step it is, or by a new one |
| `GcThreats.QuietReplicasAreSafe` | internal/metadata/gc.go:56-66 | with no cycle in flight and every commit older than the lag: if and only if a live file has a replica under another FileID on a registered node |
| `GcThreats.CoherentIsSafe` | internal/metadata/gc.go:127-174 | where every file's replicas lie under its FileID, no cycle, in flight or to come, can delete one of them |
| `GcThreats.StrayNeverLives` | internal/metadata/apply.go:96-115 | the FileID that a live file's stray replica was minted for is live at no point of the log |
| `GcRuns.OverwriteLosesBytes` | internal/metadata/apply.go:99-115 | for any bounds, a run of a heartbeat and two creates of one path, the second overwriting, after which collection can get to delete the file's only replica |
| `GcRuns.DepartedNodeKeepsBytes` | internal/metadata/gc.go:56-66 | after the same creates and the removal of the replica's node, no later cycle deletes it, although the file's replicas are not under its FileID |
| `GcProtocol.TrimUndoesRemotePath` | internal/metadata/gc.go:149-153 | the collector's trimming recovers the FileID from the physical path of any file |
| `GcProtocol.NodeFollowsLog` | internal/metadata/state_machine.go:11-74 | in every execution of the cluster, each node agrees with the run of the log prefix it has applied, whichever clocks the run took |
| `GcProtocol.AnyNodeMayWalk` | internal/metadata/gc.go:56-60 | so the state of any node, through any snapshots and restarts, meets the premise of the walk and of the reading of the node list, if the node is not too far behind |
| `GcProtocol.CollectionSparesHandles` | internal/metadata/gc.go:143-171 | a safe deletion is foreign activity that leaves a live file's replicas alone, so what holds of handles holds while cycles run |
| `Gc.CheckDataNodeHealth` | internal/metadata/gc.go:71-97 | a node stays if and only if it was heard of in the last ten minutes or its removal does not commit; those who stay keep their order, and the tree is untouched |
| `Gc.SurvivingOneMore` | internal/metadata/gc.go:86-96 | removals commute with filtering, so the order in which the dead nodes are visited does not matter |
| `Gc.GarbageCollectNode` | internal/metadata/gc.go:127-174 | file by file: one stays, unchanged, if and only if it is referenced, was modified less than 30 seconds before the start or later, is temporary or cannot be deleted, or the listing failed |
| `Gc.RunGC` | internal/metadata/gc.go:41-69 | the same on every node that stays registered and can be reached, each with its own faults, against the live set of the tree; all other nodes and the tree are left alone |
| `GcCycles.CycleIsLegal` | internal/metadata/gc.go:41-69 | the protocol allows a run of steps, from the clock reading to the end, that leaves on every node exactly what the code's cycle leaves |
| `GcCycles.CycleIsSafe` | internal/metadata/gc.go:127-174 | inside the window, no file that the code's cycle removes is the data of a file in the committed tree, also when the server's tree lags behind |
| `GcProtocol.OrphanIs` | internal/metadata/gc.go:147-162 | a listed file is an orphan if and only if it is not referenced and at least 30 seconds older than the cycle's start |
| `Gc.CollectedIsClean` | internal/metadata/gc.go:143-171 | after a cycle without faults, every file on a collected node is referenced, recent or temporary, and no live file lost data |

## Left out

- Election, log replication and the write-ahead log: entries are committed in one order, and a service replies after its command is applied.
- Leader checks, dialling, redirects and retries, logging, tickers, signals and the command-line programs: input and output without a property of their own.
- JSON bytes, the encoding of times, and payloads or snapshots that do not decode: the decoded values are modelled.
- Random FileIDs: the caller supplies one, and theorems that need it say that creates carry fresh ones; in the collection protocol, none is empty or ends like a temporary file, as is so for hexadecimal strings.
- `resolvePath`, the temporary file behind a store, `Sync`, `HealthCheck`, `GetData`, `GetFile`: operating-system behaviour or single branches.
- `ListDir`, `Stat`, `ListDataNodes`: they would only add easy members. The slice `ListDataNodes` returns shares its array with the server; data nodes are a value here, so that sharing is not captured.
- `PutFile`: it records a size before any data exists and goes on with some replicas missing, so it is outside the size results; in the collection protocol it is a create followed by client writes and deletes.
- Several handles or concurrent writers on one file: excluded by docs/filesystem-semantics.md:369-372, and the size results do not hold there.
- Calls to replicas run at the same time in the program and one after another here; `FileIO.WriteFirstAt` shows that on different nodes the order cannot matter.
- Sizes, offsets and times are unbounded integers; only the placement hash wraps at 64 bits. A negative read length, which cannot come from a buffer, is not modelled.
- Path strings are sequences of characters; invalid UTF-8, over which the hash would iterate differently, is not modelled.
- A data node's clock is only bounded from below in the collection protocol: a file's time that is too late only protects it longer.
- MetadataServers.MetadataServer.ApplyHeartbeat: the list of nodes is a sequence, so the reuse of its array is not captured.
- MetadataServers.MetadataServer.ApplyRemoveDataNode: the in-place shift of the slice's array is the removal from a sequence.
- FileHandles.Open: access modes are not modelled, as the program does not use them.
- MetadataServers.MetadataServer.CreateFile: as for rename and delete, a command that is submitted and never commits is not a case; it would leave the state as it is.
- Gc.RunGC: nobody interferes; `GcProtocol` is about interference.

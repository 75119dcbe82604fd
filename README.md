# FileOperator tree cache, modelled in Dafny

This project models `FileOperator` from `remoteFileOps/fileoperator.cpp`. It is the tree-cache engine behind the remote file browser. It keeps a cache of the remote file tree and does three things:

- **Single-flight gate.** Every mutating request (delete, move, copy, rename, create folder, upload, upload buffer, download, compress, decompress) first claims the `fileOpPending` lock. A NULL dispatch releases the lock again. Otherwise the reply handler releases it.
- **Folder refresh and reconciliation.** `enactFolderRefresh` lists a folder at most once at a time, and clears its contents only after the listing has been dispatched. After a successful mutation, `lsClosestNode` and `lsClosestNodeToParent` pick which known folder to re-list.
- **Speculative path resolution.** The two `speculateNodeWithName` overloads produce a node for a path the cache does not know yet. They walk from the closest known ancestor and attach stub nodes on the way. The walk is refused under a file, or under a folder whose contents are confirmed.

## Modules

- `Wrappers` (`wrappers.dfy`): `Option`.
- `FileTree` (`file_tree.dfy`): the cached tree as a value.
  - It is a map from full path (a sequence of segments; the root "/" is the empty sequence) to the node's type, size and `NodeState`.
  - Also here: the tree lookups (`getClosestNodeWithName`, `getNodeWithName`), `deleteFolderContentsData`, and the choice of folder to re-list.
- `Remote` (`remote.dfy`): what crosses the remote data interface.
  - One constructor per request the operator dispatches.
  - The reply states, the returned metadata, and the reply handlers a request can be connected to.
- `Speculation` (`speculation.dfy`): the speculative walk as a pure reference function `Walk`, the listings it dispatches on the way to the target as `OnWayListings`, and the lemmas about them.
- `FileOperation` (`file_operator.dfy`): the stateful engine.
  - `EasyBoolLock` is a class with one `closed` field.
  - `FileOperator` is a class whose fields are the tree, the listing-task and buffer-task flags (as sets of paths), and the fatal-error flag. It also keeps three ghost logs: the requests dispatched (`sent`), the reply handlers connected (`connected`) and the `fileOpDone` emissions (`opsDone`).
  - Every `send*Req`, `get*Reply`, refresh and speculation member of the source is a method of this class that modifies those fields.
  - `SpeculateFromNode` is proved against `Speculation.Walk` through a loop invariant.
  - `Snapshot()` gives the state as a `Cache` value. The refresh, reconciliation and walk contracts are value predicates (`Refreshed`, `Relisted`, `BufferFetched`, `OnTrack`, `ReachedGoal`) relating the snapshot before a call to the one after it.

How the parts outside this file are represented:

- **Remote calls.** A dispatch appends its request to `sent` and returns a handle or NULL at the interface's choice, modelled as a nondeterministic boolean.
- **Reply handlers.** Each handler is a method called with the reply state, the metadata and the request's parameters. The parameters stand for what `QObject::sender()` provides in the source.
- **Fatal error.** `fatalInterfaceError`, reached through `totalResetErrorProcedure` or a missing parameter, sets the `fatalError` flag.

## Model

| member | source | states |
|---|---|---|
| FileOperation.EasyBoolLock.CheckAndClaim | remoteFileOps/fileoperator.cpp:153 | the claim succeeds exactly when the lock was open, and the lock is closed afterwards |
| FileOperation.EasyBoolLock.Release | remoteFileOps/fileoperator.cpp:170 | the lock is open afterwards |
| FileOperation.FileOperator.OperationIsPending | remoteFileOps/fileoperator.cpp:146-149 | a mutating operation is pending exactly when the lock is closed |
| FileOperation.FileOperator.constructor | remoteFileOps/fileoperator.cpp:47-54 | the operator starts with an open lock and empty logs; the model's constructor also already holds what the first resetFileData leaves behind before its listing: a fresh root folder with unknown contents and no tasks |
| FileOperation.FileOperator.TotalResetErrorProcedure | remoteFileOps/fileoperator.cpp:84-88 | the fatal error is raised |
| FileOperation.FileOperator.GetStringFromInitParams | remoteFileOps/fileoperator.cpp:90-106 | returns the request's parameter under the key; the fatal error is raised exactly when the key is missing, and then the empty path is returned |
| FileOperation.FileOperator.ResetFileData | remoteFileOps/fileoperator.cpp:66-82 | the tree becomes a single fresh root with no buffer tasks, and a listing of "/" is dispatched; either the root has the listing task, or the dispatch was NULL and the fatal error is raised |
| FileOperation.FileOperator.EnactRootRefresh | remoteFileOps/fileoperator.cpp:108-120 | a listing of "/" is always dispatched, with no check for an existing root listing task, as in the source; either the root gains the listing task, or the fatal error is raised and no task is attached |
| FileOperation.FileOperator.EnactFolderRefresh | remoteFileOps/fileoperator.cpp:122-144 | if the node already has a listing task, nothing is dispatched and nothing changes; otherwise one listing of the node is dispatched; on NULL the fatal error is raised and the tree and the flags are unchanged; on a handle the node is cleared (if clearData: its descendants and their flags removed, its state FOLDER_KNOWN_CONTENTS_NOT) and only then gains the task |
| FileOperation.FileOperator.SendDeleteReq | remoteFileOps/fileoperator.cpp:151-166 | an already claimed lock: nothing dispatched, nothing connected, lock still closed; otherwise the delete is dispatched, and the reply handler is connected exactly when the lock stays closed (NULL releases it); the tree is never touched |
| FileOperation.FileOperator.SendMoveReq | remoteFileOps/fileoperator.cpp:176-192 | the same gate, around the move request and its reply handler |
| FileOperation.FileOperator.SendCopyReq | remoteFileOps/fileoperator.cpp:207-223 | the same gate, around the copy request |
| FileOperation.FileOperator.SendRenameReq | remoteFileOps/fileoperator.cpp:237-252 | the same gate, around the rename request |
| FileOperation.FileOperator.SendCreateFolderReq | remoteFileOps/fileoperator.cpp:267-283 | the same gate, around the create-folder request |
| FileOperation.FileOperator.SendUploadReq | remoteFileOps/fileoperator.cpp:297-310 | the same gate, around the upload request, connected to the upload reply handler |
| FileOperation.FileOperator.SendUploadBuffReq | remoteFileOps/fileoperator.cpp:312-324 | the same gate, around the buffer upload, connected to the upload reply handler |
| FileOperation.FileOperator.SendDownloadReq | remoteFileOps/fileoperator.cpp:338-351 | the same gate, around the download request |
| FileOperation.FileOperator.SendCompressReq | remoteFileOps/fileoperator.cpp:384-406 | a claimed lock on a node that is not a folder is released with no job run; otherwise the same gate, around the "compress" job with input compression_type=tgz in the node's folder |
| FileOperation.FileOperator.SendDecompressReq | remoteFileOps/fileoperator.cpp:421-444 | a claimed lock on a folder is released with no job run; otherwise the same gate, around the "extract" job with input inputFile=the node's path and no working folder |
| FileOperation.FileOperator.SendDownloadBuffReq | remoteFileOps/fileoperator.cpp:369-382 | not gated by the lock; nothing if the node has a buffer task; otherwise one buffer fetch is dispatched, and the node either gains the buffer task or does not (the handle is not observed); the tree, the listing tasks and the fatal error are never touched |
| FileOperation.FileOperator.LsClosestNode | remoteFileOps/fileoperator.cpp:464-468 | one folder refresh, as above, of the closest known node to the path, with clearData passed through |
| FileOperation.FileOperator.LsClosestNodeToParent | remoteFileOps/fileoperator.cpp:470-485 | one folder refresh of the parent of a known path (of the root itself for the root), with clearData passed through; for an unknown path, of the closest known node, with clearData not passed on |
| FileOperation.FileOperator.GetNodeFromName | remoteFileOps/fileoperator.cpp:487-490 | a node is found exactly when the path is known, and it is the path's own node, which is then also its closest node |
| FileOperation.FileOperator.GetClosestNodeFromName | remoteFileOps/fileoperator.cpp:492-495 | a known ancestor-or-self of the path, below which no longer prefix of the path is known |
| FileOperation.FileOperator.GetDeleteReply | remoteFileOps/fileoperator.cpp:168-174 | releases the lock, emits fileOpDone with the reply state and, whatever the state, re-lists the folder of the "toDelete" parameter's path: the tree and buffer tasks are unchanged; the old requests stay and at most one request per target folder is added; each added request lists a target folder that had no listing task, and only such folders gain one; every target folder without a task is listed, and none twice unless the fatal error is raised; a fatal error raised before stays raised; each then has a listing task unless the fatal error is raised; a missing parameter raises the error, and a new error needs a missing parameter or a dispatched listing |
| FileOperation.FileOperator.GetMoveReply | remoteFileOps/fileoperator.cpp:194-205 | releases the lock and emits fileOpDone; on GOOD re-lists the parent of the "from" path and the closest known node to the revised path: the tree and buffer tasks are unchanged; the old requests stay and at most one request per target folder is added; each added request lists a target folder that had no listing task, and only such folders gain one; every target folder without a task is listed, and none twice unless the fatal error is raised; a fatal error raised before stays raised; each then has a listing task unless the fatal error is raised, as for delete; on any other state changes nothing else |
| FileOperation.FileOperator.GetCopyReply | remoteFileOps/fileoperator.cpp:225-235 | releases and emits; on GOOD re-lists the closest known node to the new path: the tree and buffer tasks are unchanged; the old requests stay and at most one request per target folder is added; each added request lists a target folder that had no listing task, and only such folders gain one; every target folder without a task is listed, and none twice unless the fatal error is raised; a fatal error raised before stays raised; each then has a listing task unless the fatal error is raised; otherwise nothing else changes |
| FileOperation.FileOperator.GetRenameReply | remoteFileOps/fileoperator.cpp:254-265 | releases and emits; on GOOD re-lists the parents of the old name (the "fullName" parameter) and of the new name: the tree and buffer tasks are unchanged; the old requests stay and at most one request per target folder is added; each added request lists a target folder that had no listing task, and only such folders gain one; every target folder without a task is listed, and none twice unless the fatal error is raised; a fatal error raised before stays raised; each then has a listing task unless the fatal error is raised, as for delete; otherwise nothing else changes |
| FileOperation.FileOperator.GetMkdirReply | remoteFileOps/fileoperator.cpp:285-295 | releases and emits; on GOOD re-lists the closest known node to the folder that contains the new folder: the tree and buffer tasks are unchanged; the old requests stay and at most one request per target folder is added; each added request lists a target folder that had no listing task, and only such folders gain one; every target folder without a task is listed, and none twice unless the fatal error is raised; a fatal error raised before stays raised; each then has a listing task unless the fatal error is raised; otherwise nothing else changes |
| FileOperation.FileOperator.GetUploadReply | remoteFileOps/fileoperator.cpp:326-336 | releases and emits; on GOOD re-lists the parent of the uploaded file: the tree and buffer tasks are unchanged; the old requests stay and at most one request per target folder is added; each added request lists a target folder that had no listing task, and only such folders gain one; every target folder without a task is listed, and none twice unless the fatal error is raised; a fatal error raised before stays raised; each then has a listing task unless the fatal error is raised; otherwise nothing else changes |
| FileOperation.FileOperator.GetDownloadReply | remoteFileOps/fileoperator.cpp:353-367 | releases and emits, never touches the tree or the task flags; the fatal error is raised exactly when the state is GOOD and "localDest" is missing |
| FileOperation.FileOperator.GetCompressReply | remoteFileOps/fileoperator.cpp:408-419 | releases and emits; changes nothing else |
| FileOperation.FileOperator.GetDecompressReply | remoteFileOps/fileoperator.cpp:446-457 | releases and emits; changes nothing else |
| FileOperation.FileOperator.SpeculateFromNode | remoteFileOps/fileoperator.cpp:530-584 | the result, the tree and the dispatched requests are exactly those of Walk on the state before the call; listing and buffer tasks are attached only for requests of that walk, each of its listings ends with a task unless the fatal error is raised, and the error is raised only when the walk dispatches a listing, and never lowered; a returned node is in the tree afterwards |
| FileOperation.FileOperator.AttachStub | remoteFileOps/fileoperator.cpp:553-569 | one missing segment: the stub is attached and its folder re-listed as Walk prescribes, which keeps the loop on track to the walk's outcome one segment further down, with an earlier fatal error still raised |
| FileOperation.FileOperator.SpeculateNodeWithName | remoteFileOps/fileoperator.cpp:497-528 | a known path is returned with nothing changed and nothing dispatched; otherwise the result is that of the walk from the closest known node over exactly the segments of the path beyond it; a node is returned only for the requested path, and it is then in the tree; an earlier fatal error stays raised |
| FileOperation.AttachStubStaysOnTrack | remoteFileOps/fileoperator.cpp:553-571 | attaching a stub for the missing segment and dispatching the stub folder's listing (as enactFolderRefresh does it) preserves the walk invariant |
| FileOperation.RefusedWalkIsGoal | remoteFileOps/fileoperator.cpp:542-551 | a walk refused under a file or a loaded folder has returned no node and dispatched only what was dispatched before |
| FileOperation.FinishedWalkIsGoal | remoteFileOps/fileoperator.cpp:574-583 | once the target is reached, the final folder refresh or buffer fetch completes the walk's outcome |
| FileOperation.KnownChildStaysOnTrack | remoteFileOps/fileoperator.cpp:534-541 | a segment that is already known is walked through with no request, and the walk stays on track |
| FileOperation.StubRefreshStep | remoteFileOps/fileoperator.cpp:565-568 | the refresh of the folder that just received a stub dispatches exactly the listing the walk asks for there, and changes the listing tasks and the fatal error only for that listing |
| FileOperation.OneRefreshReconciles | remoteFileOps/fileoperator.cpp:168-174 | a handler that reads its parameter and then refreshes one folder without clearing leaves the cache reconciled for that folder: tree and buffer tasks unchanged, at most one listing added, and only when the folder had no listing task; the folder then has its task unless the fatal error is raised, and an earlier fatal error stays raised |
| FileOperation.TwoRefreshesReconcile | remoteFileOps/fileoperator.cpp:194-205 | a handler that reads its parameter and then refreshes two folders without clearing leaves the cache reconciled for both: at most two listings added, each of a target that had no listing task, and the same folder listed twice only when the fatal error is raised; an earlier fatal error stays raised; the tree is unchanged between the two refreshes |
| FileOperation.TwoRefreshesSend | remoteFileOps/fileoperator.cpp:194-205 | two refreshes in a row add the first folder's listing, then the second's, each only when that folder had no listing task; listing tasks only grow, and listing the same folder twice means the fatal error was raised |
| FileOperation.TwoRefreshesTasks | remoteFileOps/fileoperator.cpp:124-143 | over two refreshes without clearing, the tree and buffer tasks stay as they were; only the two folders can gain a listing task, and each has one at the end unless the fatal error is raised; the error is never lowered, and it is raised only when a listing was dispatched |
| FileTree.AncestorsInTree | remoteFileOps/fileoperator.cpp:477 | in a well-formed tree every prefix of a known path is known: getParentNode always leads to a node |
| FileTree.Parent | remoteFileOps/fileoperator.cpp:477 | getParentNode of a non-root node is the strict prefix one segment shorter |
| FileTree.AttachKeepsTree | remoteFileOps/fileoperator.cpp:564 | attaching a node under a known parent keeps the tree well formed |
| FileTree.Closest | remoteFileOps/fileoperator.cpp:466 | getClosestNodeWithName returns a known ancestor-or-self of the path |
| FileTree.ClosestFrom | remoteFileOps/fileoperator.cpp:466 | the descent stops at a known prefix of the path whose next segment is not known |
| FileTree.ClosestIsDeepest | remoteFileOps/fileoperator.cpp:483 | no prefix of the path longer than the closest node is known |
| FileTree.ClosestIsExactIffKnown | remoteFileOps/fileoperator.cpp:499-504 | a path is known exactly when its closest node is the path itself |
| FileTree.ClearContents | remoteFileOps/fileoperator.cpp:139-142 | deleteFolderContentsData keeps exactly the nodes not strictly below the folder, sets the folder to FOLDER_KNOWN_CONTENTS_NOT and leaves every other kept node as it was |
| FileTree.ClearContentsKeepsTree | remoteFileOps/fileoperator.cpp:139-142 | clearing a folder keeps the tree well formed, keeps the folder (its state FOLDER_KNOWN_CONTENTS_NOT) and every node outside it unchanged, and removes everything below it |
| FileTree.ParentTarget | remoteFileOps/fileoperator.cpp:472-484 | the folder lsClosestNodeToParent refreshes is a known prefix of the path, and for a known non-root path it is one segment shorter |
| FileTree.ParentTargetIsContainingFolder | remoteFileOps/fileoperator.cpp:470-485 | the node lsClosestNodeToParent refreshes is known and lies on the path; for a known non-root path it is one segment shorter, the root is refreshed for the root, and for an unknown path no longer prefix is known |
| FileTree.RenameRelistsContainingFolder | remoteFileOps/fileoperator.cpp:258-262 | renaming a/b to a/c inside the known folder a re-lists a for the old name and, whether or not a/c is already known, for the new name too |
| Remote.ContainingPath | remoteFileOps/fileoperator.cpp:291 | the containing path of a non-root file is its path without the last segment; the root contains itself |
| Speculation.StubData | remoteFileOps/fileoperator.cpp:553-563 | a stub has size 0 and is a file exactly for the last segment of a file path, a folder otherwise |
| Speculation.Walk | remoteFileOps/fileoperator.cpp:530-584 | the reference definition of the speculative walk; it never removes a node, and it dispatches at most one request per segment plus the final one |
| Speculation.FirstMissing | remoteFileOps/fileoperator.cpp:534-541 | the number of leading segments already known below the node: that prefix is known and the next one is not |
| Speculation.WalkFindsTarget | remoteFileOps/fileoperator.cpp:530-584 | a walk that returns a node returns the node for the base path followed by the added segments |
| Speculation.WalkAddsOnlyStubs | remoteFileOps/fileoperator.cpp:553-571 | the walk keeps the tree well formed and changes no node it found; every node it adds lies strictly below the base on the way to the target and is a stub (a folder, or a file at the end of a file path, of size 0) |
| Speculation.WalkBelowStubSucceeds | remoteFileOps/fileoperator.cpp:564-571 | below a freshly attached folder stub the walk is never refused |
| Speculation.WalkRefusedIffBlocked | remoteFileOps/fileoperator.cpp:542-551 | the walk returns no node exactly when the first missing segment lies under a file or a FOLDER_CONTENTS_LOADED folder, and a refused walk attaches nothing and dispatches nothing |
| Speculation.WalkToKnownNode | remoteFileOps/fileoperator.cpp:536-541 | when the target is already known the walk returns it, attaches nothing and asks only for the final listing or buffer |
| Speculation.WalkIgnoresShallowListing | remoteFileOps/fileoperator.cpp:565-571 | a listing task attached to a node above the current one does not change the rest of the walk |
| Speculation.WalkPastStub | remoteFileOps/fileoperator.cpp:553-571 | past a missing segment the walk is the folder's listing request followed by the walk from the new stub, even once that folder has its listing task |
| Speculation.OnWayListingsAreOnWay | remoteFileOps/fileoperator.cpp:553-571 | every request of the on-way listings from a depth is a listing of a prefix of the target at that depth or deeper, whose next segment was missing, that had no listing task and was unknown or in a state calling for a refresh |
| Speculation.OnWayListingsDeep | remoteFileOps/fileoperator.cpp:553-571 | every request of the on-way listings from a depth is a listing at that depth or deeper |
| Speculation.OnWayListingsInOrder | remoteFileOps/fileoperator.cpp:532-571 | the on-way listings go one folder deeper each time, so no folder is listed twice |
| Speculation.OnWayListingsComplete | remoteFileOps/fileoperator.cpp:553-571 | every folder on the way that meets those conditions is among the on-way listings |
| Speculation.OnWayListingsBelowStub | remoteFileOps/fileoperator.cpp:559-564 | attaching a stub at one depth changes none of the on-way listings from that depth down |
| Speculation.WalkAsks | remoteFileOps/fileoperator.cpp:553-584 | the requests of a successful walk are exactly the on-way listings from its start node followed by the final folder refresh or buffer fetch |
| Speculation.WalkFoundIsKnown | remoteFileOps/fileoperator.cpp:536-571 | the node a successful walk returns is in the tree it leaves |
| Speculation.SpeculateFileUnderFreshRoot | remoteFileOps/fileoperator.cpp:530-584 | resolving the file /docs/report.txt under a fresh root attaches folder docs and file report.txt, lists docs and fetches the buffer of report.txt |
| Speculation.SpeculateUnderLoadedFolderRefused | remoteFileOps/fileoperator.cpp:547-551 | a loaded folder lacking the next segment refuses the walk and leaves everything unchanged |

## Left out

- The Qt item model, column headers, `linkToFileTree`, `fileNodesChange` and the signal wiring: presentation plumbing. ResetFileData keeps only "a fresh root and a root listing".
- `quickInfoPopup`, `deletePopup` and all `qDebug` output: user interface and logging. The download completion notice survives only as its read of the "localDest" parameter.
- `setCurrentRemoteWorkingDirectory` before move and copy: transport state of the remote interface with no effect on the cache.
- The `QObject::sender()` lookup in `getStringFromInitParams`: the reply's parameters are passed to each handler explicitly, so the "no sender" fatal branch does not arise.
- The empty-string test of `getStringFromInitParams`: the parameter map has no empty values, and a missing key stands for both a missing and an empty value.
- The NULL test after `getClosestNodeWithName` in `speculateNodeWithName(fullPath, folder)`: in this model the root is always known and every path starts at the root, so the closest node always exists.
- FileTreeNode and EasyBoolLock are not part of this model. They are specified only through their use in `FileOperator`:
  - `deleteFolderContentsData` removes the node's descendants and leaves the node in FOLDER_KNOWN_CONTENTS_NOT;
  - a new folder stub starts in FOLDER_SPECULATE_IDLE;
  - `setLStask` is modelled only as the node gaining its listing task; the state change it makes to the node while the listing is in flight, and the handling of listing and buffer replies, are not modelled.
- The default value of `clearData` is taken to be false, because its declaration is not part of this model. Speculation relists a folder just after attaching a stub to it, so clearing there would drop that stub.
- Listing-reply parsing, and replies to buffer fetches: they are handled inside FileTreeNode, not by `FileOperator`.
- FileOperation.FileOperator.GetMoveReply: once the fatal error is raised, the contract does not say which folder still lacks a listing task. The dispatch result is nondeterministic, so the model does not say which listing came back NULL. The same holds for GetDeleteReply, GetCopyReply, GetRenameReply, GetMkdirReply and GetUploadReply.
- FileOperation.FileOperator.SpeculateFromNode: the fatal-error clause says only that a new error needs a dispatched listing, not which dispatch was NULL. The same holds for SpeculateNodeWithName.
- FileOperation.FileOperator.SendDownloadBuffReq: as in the source, a NULL buffer fetch is silent. The contract leaves open whether the task was attached, so that it states exactly what a caller can rely on.
- Nodes are identified by their full path rather than by object identity. A node pointer in the source is its path in the model, and the node returned by speculation is `Some(path)` or `None` for NULL.

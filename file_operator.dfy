/**
 * FileOperator: the tree cache engine.  It owns the tree of known remote
 * nodes and a single-flight lock, dispatches requests to the remote data
 * interface, and reconciles the tree when a reply handler is called.
 *
 * A dispatch returns a handle or NULL, at the remote interface's choice;
 * the ghost log sent records every request dispatched, connected every
 * reply handler registered, and opsDone every fileOpDone emitted.
 */
module FileOperation {
  import opened Wrappers
  import opened FileTree
  import opened Remote
  import opened Speculation

  /** The single-flight gate for mutating operations. */
  class EasyBoolLock {
    var closed: bool

    constructor ()
      ensures !closed
    {
      closed := false;
    }

    predicate LockClosed()
      reads this
    {
      closed
    }

    /** Claims the lock if it is open; a claimed lock stays claimed. */
    method CheckAndClaim() returns (claimed: bool)
      modifies this
      ensures claimed == !old(closed)
      ensures closed
    {
      claimed := !closed;
      closed := true;
    }

    method Release()
      modifies this
      ensures !closed
    {
      closed := false;
    }
  }

  /** The tree, the task flags, the error flag and the request log of a file operator. */
  datatype Cache = Cache(tree: Tree, ls: set<Path>, bf: set<Path>, fatal: bool, sent: seq<Request>)

  /**
   * One call of enactFolderRefresh(node, clearData) taking c0 to c1: nothing
   * if node has a listing task; otherwise one listing of node is dispatched,
   * and either (a handle) node is cleared when clearData is set and then
   * gains the task, or (NULL) the fatal error is raised and nothing else
   * changes.
   */
  ghost predicate Refreshed(c0: Cache, c1: Cache, node: Path, clearData: bool)
  {
    if node in c0.ls then c1 == c0
    else
      && c1.sent == c0.sent + [RemoteLs(node)]
      && if node in c1.ls then
           && c1.fatal == c0.fatal
           && node in c0.tree
           && c1.tree == (if clearData then ClearContents(c0.tree, node) else c0.tree)
           && c1.ls == (if clearData then Pruned(c0.ls, node) else c0.ls) + {node}
           && c1.bf == (if clearData then Pruned(c0.bf, node) else c0.bf)
         else
           c1.fatal && c1.tree == c0.tree && c1.ls == c0.ls && c1.bf == c0.bf
  }

  /**
   * A reply handler's reconciliation taking c0 to c1, where targets are the
   * folders it refreshes, in order: the tree and buffer tasks are as before;
   * at most one request per refresh is dispatched, each a listing of a
   * target that had no listing task, and the same listing twice only once
   * the fatal error is raised; every target that had no listing task is
   * listed; listing tasks are gained only by targets, and each target has
   * one unless the fatal error is raised; a missing parameter raises it,
   * and it is new only if a parameter was missing or a listing was
   * dispatched.
   */
  ghost predicate Relisted(c0: Cache, c1: Cache, targets: seq<Path>, paramMissing: bool)
  {
    && c1.tree == c0.tree && c1.bf == c0.bf
    && |c0.sent| <= |c1.sent| <= |c0.sent| + |targets| && c1.sent[..|c0.sent|] == c0.sent
    && (forall i :: |c0.sent| <= i < |c1.sent| ==>
          c1.sent[i].RemoteLs? && c1.sent[i].path in targets && c1.sent[i].path !in c0.ls)
    && (forall i, j :: |c0.sent| <= i < j < |c1.sent| && c1.sent[i] == c1.sent[j] ==> c1.fatal)
    && c0.ls <= c1.ls
    && (forall p :: p in c1.ls ==> p in c0.ls || p in targets)
    && (forall x :: x in targets ==> x in c0.ls || RemoteLs(x) in c1.sent[|c0.sent|..])
    && (forall x :: x in targets ==> x in c1.ls || c1.fatal)
    && (paramMissing ==> c1.fatal)
    && (c0.fatal ==> c1.fatal)
    && (c1.fatal ==> c0.fatal || paramMissing || c1.sent != c0.sent)
  }

  /**
   * A handler that reads its parameter (raising the fatal error when it is
   * missing) and then refreshes the folder x, without clearing, reconciles x.
   */
  lemma OneRefreshReconciles(c0: Cache, c1: Cache, c2: Cache, x: Path, paramMissing: bool)
    requires c1 == c0.(fatal := c0.fatal || paramMissing)
    requires Refreshed(c1, c2, x, false)
    ensures Relisted(c0, c2, [x], paramMissing)
  {
    if x !in c1.ls {
      assert c2.sent[|c0.sent|..] == [RemoteLs(x)];
    }
  }

  /**
   * The requests of two refreshes, of x and then of y: each is a listing of
   * a folder that had no listing task, and the second repeats the first
   * only if the first came back NULL.
   */
  lemma TwoRefreshesSend(c1: Cache, c2: Cache, c3: Cache, x: Path, y: Path)
    requires Refreshed(c1, c2, x, false)
    requires Refreshed(c2, c3, y, false)
    ensures var a := if x in c1.ls then [] else [RemoteLs(x)];
            var b := if y in c2.ls then [] else [RemoteLs(y)];
            && c2.sent == c1.sent + a && c3.sent == c1.sent + (a + b)
            && c1.ls <= c2.ls <= c3.ls
            && (a != [] && b != [] && x == y ==> c3.fatal)
  {
    var a := if x in c1.ls then [] else [RemoteLs(x)];
    var b := if y in c2.ls then [] else [RemoteLs(y)];
    assert c3.sent == c1.sent + a + b;
    assert c1.sent + a + b == c1.sent + (a + b);
  }

  /**
   * The listing tasks of two refreshes, of x and then of y: only x and y
   * can gain one, each ends with one unless the fatal error is raised, the
   * error is never lowered, and it is raised only by a dispatched listing.
   */
  lemma TwoRefreshesTasks(c1: Cache, c2: Cache, c3: Cache, x: Path, y: Path)
    requires Refreshed(c1, c2, x, false)
    requires Refreshed(c2, c3, y, false)
    ensures c2.tree == c1.tree && c3.tree == c1.tree && c3.bf == c1.bf
    ensures c1.ls <= c3.ls && forall p :: p in c3.ls ==> p in c1.ls || p == x || p == y
    ensures (x in c3.ls || c3.fatal) && (y in c3.ls || c3.fatal)
    ensures c1.fatal ==> c3.fatal
    ensures c3.fatal ==> c1.fatal || c3.sent != c1.sent
    ensures y in c2.ls && y !in c1.ls ==> y == x
  {
    assert c1.sent <= c2.sent <= c3.sent;
  }

  /**
   * The facts two refreshes establish, from c0 before the parameter is
   * read to c3 after both refreshes, make up Relisted for the targets x, y.
   */
  lemma TwoListingsRelisted(c0: Cache, c3: Cache, x: Path, y: Path, a: seq<Request>, b: seq<Request>, paramMissing: bool)
    requires c3.tree == c0.tree && c3.bf == c0.bf
    requires a == (if x in c0.ls then [] else [RemoteLs(x)])
    requires b == [] || (b == [RemoteLs(y)] && y !in c0.ls)
    requires b == [] ==> y in c0.ls || (y == x && a != [])
    requires c3.sent == c0.sent + (a + b)
    requires a != [] && b != [] && x == y ==> c3.fatal
    requires c0.ls <= c3.ls && forall p :: p in c3.ls ==> p in c0.ls || p == x || p == y
    requires (x in c3.ls || c3.fatal) && (y in c3.ls || c3.fatal)
    requires (paramMissing || c0.fatal) ==> c3.fatal
    requires c3.fatal ==> c0.fatal || paramMissing || a + b != []
    ensures Relisted(c0, c3, [x, y], paramMissing)
  {
    var n := |c0.sent|;
    assert c3.sent[n..] == a + b;
    assert forall i :: n <= i < |c3.sent| ==> c3.sent[i] in a + b;
  }

  /**
   * A handler that reads its parameter and then refreshes x and y, in that
   * order and without clearing, reconciles both.
   */
  lemma TwoRefreshesReconcile(c0: Cache, c1: Cache, c2: Cache, c3: Cache, x: Path, y: Path, paramMissing: bool)
    requires c1 == c0.(fatal := c0.fatal || paramMissing)
    requires Refreshed(c1, c2, x, false)
    requires Refreshed(c2, c3, y, false)
    ensures c2.tree == c0.tree
    ensures Relisted(c0, c3, [x, y], paramMissing)
  {
    var a := if x in c1.ls then [] else [RemoteLs(x)];
    var b := if y in c2.ls then [] else [RemoteLs(y)];
    TwoRefreshesSend(c1, c2, c3, x, y);
    TwoRefreshesTasks(c1, c2, c3, x, y);
    TwoListingsRelisted(c0, c3, x, y, a, b, paramMissing);
  }

  /**
   * One call of sendDownloadBuffReq(node) taking c0 to c1: nothing if node
   * has a buffer task; otherwise one buffer fetch of node is dispatched, and
   * node either gains the task or does not (the handle is not observed).
   * Nothing else changes.
   */
  ghost predicate BufferFetched(c0: Cache, c1: Cache, node: Path)
  {
    && c1.tree == c0.tree && c1.ls == c0.ls && c1.fatal == c0.fatal
    && if node in c0.bf then c1 == c0
       else c1.sent == c0.sent + [DownloadBuffer(node)] && (c1.bf == c0.bf + {node} || c1.bf == c0.bf)
  }

  /**
   * Part way through a speculative walk that started in start and is to end
   * as goal: done has been dispatched so far, and the rest of the walk, from
   * node over rest in the current state c, completes goal.
   */
  ghost predicate OnTrack(c: Cache, start: Cache, goal: Outcome, done: seq<Request>,
                          node: Path, rest: seq<string>, folder: bool)
  {
    && ValidTree(c.tree) && c.ls <= c.tree.Keys && c.bf <= c.tree.Keys && node in c.tree
    && c.sent == start.sent + done
    && (var cur := Walk(c.tree, c.ls, c.bf, node, rest, folder);
        cur.found == goal.found && cur.tree == goal.tree && done + cur.asks == goal.asks)
    && c.bf == start.bf
    && start.ls <= c.ls <= start.ls + Listed(done)
    && (forall p :: p in Listed(done) ==> |p| < |node|)
    && (Listed(done) <= c.ls || c.fatal)
    && (start.fatal ==> c.fatal)
    && (c.fatal ==> start.fatal || Listed(done) != {})
  }

  /**
   * The refresh of node after a stub is attached below it (c0 to c1)
   * dispatches exactly the listing the walk asks for there.
   */
  lemma StubRefreshStep(c0: Cache, c1: Cache, node: Path, folder: bool)
    requires node in c0.tree
    requires if NeedsRefresh(c0.tree[node].state) then Refreshed(c0, c1, node, false) else c1 == c0
    ensures c1.tree == c0.tree && c1.bf == c0.bf
    ensures c1.sent == c0.sent + StubRefresh(c0.tree, c0.ls, node)
    ensures Listed(StubRefresh(c0.tree, c0.ls, node)) <= {node}
    ensures c0.ls <= c1.ls <= c0.ls + Listed(StubRefresh(c0.tree, c0.ls, node))
    ensures Listed(StubRefresh(c0.tree, c0.ls, node)) <= c1.ls || c1.fatal
    ensures c0.fatal ==> c1.fatal
    ensures c1.fatal ==> c0.fatal || Listed(StubRefresh(c0.tree, c0.ls, node)) != {}
  {
    assert Listed([RemoteLs(node)]) == {node};
    assert Listed([]) == {};
  }

  /**
   * Attaching the stub for the missing segment rest[0] under node (c to
   * attached), and then dispatching the listing the walk asks for there
   * (attached to c'), keeps the walk on track one segment further down.
   */
  lemma AttachStubStaysOnTrack(c: Cache, c': Cache, start: Cache, goal: Outcome, done: seq<Request>,
                               node: Path, rest: seq<string>, folder: bool)
    requires OnTrack(c, start, goal, done, node, rest, folder)
    requires rest != [] && node + [rest[0]] !in c.tree
    requires c.tree[node].ftype == Dir && c.tree[node].state != FolderContentsLoaded
    requires var attached := c.(tree := c.tree[node + [rest[0]] := StubData(|rest| == 1, folder)]);
      if NeedsRefresh(c.tree[node].state) then Refreshed(attached, c', node, false) else c' == attached
    ensures OnTrack(c', start, goal, done + StubRefresh(c.tree, c.ls, node), node + [rest[0]], rest[1..], folder)
  {
    var child := node + [rest[0]];
    var t' := c.tree[child := StubData(|rest| == 1, folder)];
    var refresh := StubRefresh(c.tree, c.ls, node);
    assert t'[node] == c.tree[node];
    StubRefreshStep(c.(tree := t'), c', node, folder);
    assert StubRefresh(t', c.ls, node) == refresh;
    assert ValidTree(t') && c'.ls <= t'.Keys && c.bf <= t'.Keys by {
      AttachKeepsTree(c.tree, child, StubData(|rest| == 1, folder));
    }
    assert Listed(done + refresh) == Listed(done) + Listed(refresh) by {
      ListedAppend(done, refresh);
    }
    BetweenSets(c.ls, c'.ls, node);
    var next := Walk(t', c'.ls, c.bf, child, rest[1..], folder);
    WalkPastStub(c.tree, c.ls, c'.ls, c.bf, node, rest, folder);
    AppendAssoc(done, refresh, next.asks);
  }

  /**
   * The end of a speculative walk from start, in the state c: the result,
   * the tree and the requests dispatched since start are goal's; listing
   * and buffer tasks are attached only for requests of goal, every listing
   * of goal ends with a task unless the fatal error was raised, and the
   * error is raised only when a listing was dispatched.
   */
  ghost predicate ReachedGoal(c: Cache, start: Cache, goal: Outcome, found: Option<Path>)
  {
    && found == goal.found && c.tree == goal.tree && c.sent == start.sent + goal.asks
    && start.ls <= c.ls <= start.ls + Listed(goal.asks)
    && start.bf <= c.bf <= start.bf + Fetched(goal.asks)
    && (Listed(goal.asks) <= c.ls || c.fatal)
    && (start.fatal ==> c.fatal)
    && (c.fatal ==> start.fatal || Listed(goal.asks) != {})
  }

  /** A segment that is already known is walked through without any request. */
  lemma KnownChildStaysOnTrack(c: Cache, start: Cache, goal: Outcome, done: seq<Request>,
                               node: Path, rest: seq<string>, folder: bool)
    requires OnTrack(c, start, goal, done, node, rest, folder)
    requires rest != [] && node + [rest[0]] in c.tree
    ensures OnTrack(c, start, goal, done, node + [rest[0]], rest[1..], folder)
  {
  }

  /**
   * A walk refused under a file or a loaded folder ends with what was
   * dispatched before it reached there.
   */
  lemma RefusedWalkIsGoal(c: Cache, start: Cache, goal: Outcome, done: seq<Request>,
                          node: Path, rest: seq<string>, folder: bool)
    requires OnTrack(c, start, goal, done, node, rest, folder)
    requires rest != [] && node + [rest[0]] !in c.tree
    requires c.tree[node].ftype != Dir || c.tree[node].state == FolderContentsLoaded
    ensures ReachedGoal(c, start, goal, None)
  {
    assert goal.asks == done;
  }

  /**
   * Once the walk has reached its target, the final folder refresh or
   * buffer fetch (c to c') completes goal.
   */
  lemma FinishedWalkIsGoal(c: Cache, c': Cache, start: Cache, goal: Outcome, done: seq<Request>, node: Path, folder: bool)
    requires OnTrack(c, start, goal, done, node, [], folder)
    requires if folder then Refreshed(c, c', node, false) else BufferFetched(c, c', node)
    ensures ReachedGoal(c', start, goal, Some(node))
  {
    assert Listed([]) == {} && Fetched([]) == {};
    if folder {
      assert Listed([RemoteLs(node)]) == {node} && Fetched([RemoteLs(node)]) == {};
    } else {
      assert Listed([DownloadBuffer(node)]) == {} && Fetched([DownloadBuffer(node)]) == {node};
    }
    ListedAppend(done, FinalAsks(c.ls, c.bf, node, folder));
  }

  class FileOperator {
    const fileOpPending: EasyBoolLock
    /** The known nodes (rootFileNode and everything below it). */
    var tree: Tree
    /** The nodes that have a listing task (haveLStask). */
    var lsTasks: set<Path>
    /** The nodes that have a buffer task (haveBuffTask). */
    var buffTasks: set<Path>
    /** Set once fatalInterfaceError has been raised. */
    var fatalError: bool
    ghost var sent: seq<Request>
    ghost var connected: seq<ReplySlot>
    ghost var opsDone: seq<RequestState>

    ghost predicate Valid()
      reads this
    {
      ValidTree(tree) && lsTasks <= tree.Keys && buffTasks <= tree.Keys
    }

    /** A file operator with a fresh root and an open lock. */
    constructor ()
      ensures Valid() && fresh(fileOpPending) && !OperationIsPending()
      ensures tree == map[RootPath := RootData] && lsTasks == {} && buffTasks == {}
      ensures !fatalError && sent == [] && connected == [] && opsDone == []
    {
      fileOpPending := new EasyBoolLock();
      tree := map[RootPath := RootData];
      lsTasks, buffTasks := {}, {};
      fatalError := false;
      sent, connected, opsDone := [], [], [];
    }

    /** A call into the remote data interface: true for a handle, false for NULL. */
    method Dispatch(r: Request) returns (handle: bool)
      modifies this`sent
      ensures sent == old(sent) + [r]
    {
      sent := sent + [r];
      handle := *;
    }

    /** The fields the refresh and reconciliation contracts speak about. */
    ghost function Snapshot(): Cache
      reads this
    {
      Cache(tree, lsTasks, buffTasks, fatalError, sent)
    }

    /** One call of enactFolderRefresh(node, clearData), in terms of the state before and after it. */
    twostate predicate RefreshOutcome(node: Path, clearData: bool)
      reads this
    {
      Refreshed(old(Snapshot()), Snapshot(), node, clearData)
    }

    /** The tree, the task flags, the error flag and the request log are as before. */
    twostate predicate Untouched()
      reads this
    {
      tree == old(tree) && lsTasks == old(lsTasks) && buffTasks == old(buffTasks)
      && fatalError == old(fatalError) && sent == old(sent)
    }

    /** A reply handler's reconciliation of targets, from the state before the handler. */
    twostate predicate Reconciled(targets: seq<Path>, paramMissing: bool)
      reads this
    {
      Relisted(old(Snapshot()), Snapshot(), targets, paramMissing)
    }

    /** totalResetErrorProcedure: escalates to the application's fatal error. */
    method TotalResetErrorProcedure()
      modifies this`fatalError
      ensures fatalError
    {
      fatalError := true;
    }

    /**
     * getStringFromInitParams: the parameter the reply's request was started
     * with; a missing one raises the fatal error and yields the empty string.
     */
    method GetStringFromInitParams(params: map<string, Path>, key: string) returns (ret: Path)
      modifies this`fatalError
      ensures ret == ParamPath(params, key)
      ensures fatalError == (old(fatalError) || key !in params)
    {
      if key !in params {
        fatalError := true;
        return [];
      }
      ret := params[key];
    }

    /**
     * resetFileData, without the item model: a fresh root replaces the tree
     * and its listing is requested.
     */
    method ResetFileData()
      modifies this`tree, this`lsTasks, this`buffTasks, this`fatalError, this`sent
      ensures Valid() && tree == map[RootPath := RootData] && buffTasks == {}
      ensures sent == old(sent) + [RemoteLs(RootPath)]
      ensures (lsTasks == {RootPath} && fatalError == old(fatalError)) || (lsTasks == {} && fatalError)
    {
      tree := map[RootPath := RootData];
      lsTasks, buffTasks := {}, {};
      EnactRootRefresh();
    }

    /**
     * enactRootRefresh: lists "/" and attaches the task to the root; a NULL
     * dispatch raises the fatal error.  An existing root task is not checked.
     */
    method EnactRootRefresh()
      requires Valid()
      modifies this`lsTasks, this`fatalError, this`sent
      ensures Valid()
      ensures sent == old(sent) + [RemoteLs(RootPath)]
      ensures (lsTasks == old(lsTasks) + {RootPath} && fatalError == old(fatalError))
           || (lsTasks == old(lsTasks) && fatalError)
    {
      var handle := Dispatch(RemoteLs(RootPath));
      if !handle {
        TotalResetErrorProcedure();
        return;
      }
      lsTasks := lsTasks + {RootPath};
    }

    /**
     * enactFolderRefresh: nothing if the node already has a listing task;
     * otherwise the listing is dispatched, and only once it has a handle is
     * the node cleared (when clearData is set) and the task attached.
     */
    method EnactFolderRefresh(node: Path, clearData: bool)
      requires Valid() && node in tree
      modifies this`tree, this`lsTasks, this`buffTasks, this`fatalError, this`sent
      ensures Valid()
      ensures RefreshOutcome(node, clearData)
    {
      if node in lsTasks {
        return;
      }
      var handle := Dispatch(RemoteLs(node));
      if !handle {
        TotalResetErrorProcedure();
        return;
      }
      if clearData {
        ClearContentsKeepsTree(tree, node);
        tree := ClearContents(tree, node);
        lsTasks := Pruned(lsTasks, node);
        buffTasks := Pruned(buffTasks, node);
      }
      lsTasks := lsTasks + {node};
    }

    /** operationIsPending: whether a mutating operation holds the lock. */
    predicate OperationIsPending()
      reads this, fileOpPending
    {
      fileOpPending.LockClosed()
    }

    /**
     * A mutating request after the claim attempt: refused with nothing
     * dispatched if the lock was already claimed; otherwise dispatched, and
     * either connected to its reply handler with the lock held, or, on a
     * NULL dispatch, not connected and the lock released.
     */
    twostate predicate Gated(r: Request, slot: ReplySlot)
      reads this, fileOpPending
    {
      if old(OperationIsPending()) then
        OperationIsPending() && sent == old(sent) && connected == old(connected)
      else
        && sent == old(sent) + [r]
        && (OperationIsPending() <==> connected == old(connected) + [slot])
        && (!OperationIsPending() <==> connected == old(connected))
    }

    /** Steps shared by every mutating request once the lock is claimed. */
    method DispatchOrRelease(r: Request, slot: ReplySlot)
      requires OperationIsPending()
      modifies this`sent, this`connected, fileOpPending
      ensures sent == old(sent) + [r]
      ensures OperationIsPending() <==> connected == old(connected) + [slot]
      ensures !OperationIsPending() <==> connected == old(connected)
    {
      var handle := Dispatch(r);
      if !handle {
        fileOpPending.Release();
        return;
      }
      connected := connected + [slot];
    }

    /** sendDeleteReq */
    method SendDeleteReq(node: Path)
      modifies this`sent, this`connected, fileOpPending
      ensures Gated(DeleteFile(node), DeleteReply)
    {
      var claimed := fileOpPending.CheckAndClaim();
      if !claimed { return; }
      DispatchOrRelease(DeleteFile(node), DeleteReply);
    }

    /** sendMoveReq */
    method SendMoveReq(moveFrom: Path, newName: string)
      modifies this`sent, this`connected, fileOpPending
      ensures Gated(MoveFile(moveFrom, newName), MoveReply)
    {
      var claimed := fileOpPending.CheckAndClaim();
      if !claimed { return; }
      DispatchOrRelease(MoveFile(moveFrom, newName), MoveReply);
    }

    /** sendCopyReq */
    method SendCopyReq(copyFrom: Path, newName: string)
      modifies this`sent, this`connected, fileOpPending
      ensures Gated(CopyFile(copyFrom, newName), CopyReply)
    {
      var claimed := fileOpPending.CheckAndClaim();
      if !claimed { return; }
      DispatchOrRelease(CopyFile(copyFrom, newName), CopyReply);
    }

    /** sendRenameReq */
    method SendRenameReq(node: Path, newName: string)
      modifies this`sent, this`connected, fileOpPending
      ensures Gated(RenameFile(node, newName), RenameReply)
    {
      var claimed := fileOpPending.CheckAndClaim();
      if !claimed { return; }
      DispatchOrRelease(RenameFile(node, newName), RenameReply);
    }

    /** sendCreateFolderReq: makes the folder newName inside node. */
    method SendCreateFolderReq(node: Path, newName: string)
      modifies this`sent, this`connected, fileOpPending
      ensures Gated(MkRemoteDir(node, newName), MkdirReply)
    {
      var claimed := fileOpPending.CheckAndClaim();
      if !claimed { return; }
      DispatchOrRelease(MkRemoteDir(node, newName), MkdirReply);
    }

    /** sendUploadReq */
    method SendUploadReq(uploadTarget: Path, localFile: string)
      modifies this`sent, this`connected, fileOpPending
      ensures Gated(UploadFile(uploadTarget, localFile), UploadReply)
    {
      var claimed := fileOpPending.CheckAndClaim();
      if !claimed { return; }
      DispatchOrRelease(UploadFile(uploadTarget, localFile), UploadReply);
    }

    /** sendUploadBuffReq: answered by the same handler as sendUploadReq. */
    method SendUploadBuffReq(uploadTarget: Path, fileBuff: seq<bv8>, newName: string)
      modifies this`sent, this`connected, fileOpPending
      ensures Gated(UploadBuffer(uploadTarget, fileBuff, newName), UploadReply)
    {
      var claimed := fileOpPending.CheckAndClaim();
      if !claimed { return; }
      DispatchOrRelease(UploadBuffer(uploadTarget, fileBuff, newName), UploadReply);
    }

    /** sendDownloadReq */
    method SendDownloadReq(targetFile: Path, localDest: string)
      modifies this`sent, this`connected, fileOpPending
      ensures Gated(DownloadFile(localDest, targetFile), DownloadReply)
    {
      var claimed := fileOpPending.CheckAndClaim();
      if !claimed { return; }
      DispatchOrRelease(DownloadFile(localDest, targetFile), DownloadReply);
    }

    /**
     * sendCompressReq: a claimed lock is released again, with no job run,
     * unless the node is a folder.
     */
    method SendCompressReq(selectedFolder: Path)
      requires selectedFolder in tree
      modifies this`sent, this`connected, fileOpPending
      ensures !old(OperationIsPending()) && tree[selectedFolder].ftype != Dir ==>
                !OperationIsPending() && sent == old(sent) && connected == old(connected)
      ensures old(OperationIsPending()) || tree[selectedFolder].ftype == Dir ==>
                Gated(RunRemoteJob("compress", map["compression_type" := Text("tgz")], Some(selectedFolder)), CompressReply)
    {
      var claimed := fileOpPending.CheckAndClaim();
      if !claimed { return; }
      var oneInput := map["compression_type" := Text("tgz")];
      if tree[selectedFolder].ftype != Dir {
        fileOpPending.Release();
        return;
      }
      DispatchOrRelease(RunRemoteJob("compress", oneInput, Some(selectedFolder)), CompressReply);
    }

    /**
     * sendDecompressReq: a claimed lock is released again, with no job run,
     * if the node is a folder.
     */
    method SendDecompressReq(selectedFolder: Path)
      requires selectedFolder in tree
      modifies this`sent, this`connected, fileOpPending
      ensures !old(OperationIsPending()) && tree[selectedFolder].ftype == Dir ==>
                !OperationIsPending() && sent == old(sent) && connected == old(connected)
      ensures old(OperationIsPending()) || tree[selectedFolder].ftype != Dir ==>
                Gated(RunRemoteJob("extract", map["inputFile" := PathText(selectedFolder)], None), DecompressReply)
    {
      var claimed := fileOpPending.CheckAndClaim();
      if !claimed { return; }
      if tree[selectedFolder].ftype == Dir {
        fileOpPending.Release();
        return;
      }
      var oneInput := map["inputFile" := PathText(selectedFolder)];
      DispatchOrRelease(RunRemoteJob("extract", oneInput, None), DecompressReply);
    }

    /**
     * sendDownloadBuffReq: not gated by the lock; nothing if the node has a
     * buffer task, otherwise the fetch is dispatched and a handle becomes
     * the node's buffer task.
     */
    method SendDownloadBuffReq(targetFile: Path)
      requires Valid() && targetFile in tree
      modifies this`buffTasks, this`sent
      ensures Valid()
      ensures BufferFetched(old(Snapshot()), Snapshot(), targetFile)
    {
      if targetFile in buffTasks {
        return;
      }
      var handle := Dispatch(DownloadBuffer(targetFile));
      if !handle {
        return;
      }
      buffTasks := buffTasks + {targetFile};
    }

    /** lsClosestNode: re-lists the closest known node to fullPath. */
    method LsClosestNode(fullPath: Path, clearData: bool)
      requires Valid()
      modifies this`tree, this`lsTasks, this`buffTasks, this`fatalError, this`sent
      ensures Valid()
      ensures RefreshOutcome(Closest(old(tree), fullPath), clearData)
    {
      var nodeToRefresh := Closest(tree, fullPath);
      EnactFolderRefresh(nodeToRefresh, clearData);
    }

    /**
     * lsClosestNodeToParent: re-lists the parent of a known node (the root
     * itself for the root), or else the closest known node, in which case
     * clearData is not passed on.
     */
    method LsClosestNodeToParent(fullPath: Path, clearData: bool)
      requires Valid()
      modifies this`tree, this`lsTasks, this`buffTasks, this`fatalError, this`sent
      ensures Valid()
      ensures RefreshOutcome(ParentTarget(old(tree), fullPath), fullPath in old(tree) && clearData)
    {
      if fullPath in tree {
        var nodeToRefresh := fullPath;
        if nodeToRefresh != RootPath {
          nodeToRefresh := Parent(nodeToRefresh);
        }
        EnactFolderRefresh(nodeToRefresh, clearData);
        return;
      }
      var nodeToRefresh := Closest(tree, fullPath);
      EnactFolderRefresh(nodeToRefresh, false);
    }

    /** getNodeFromName */
    function GetNodeFromName(fullPath: Path): (r: Option<Path>)
      reads this
      requires Valid()
      ensures r.Some? <==> fullPath in tree
      ensures r.Some? ==> r.value == fullPath && Closest(tree, fullPath) == fullPath
    {
      ClosestIsExactIffKnown(tree, fullPath);
      if fullPath in tree then Some(fullPath) else None
    }

    /** getClosestNodeFromName: the deepest known ancestor of fullPath. */
    function GetClosestNodeFromName(fullPath: Path): (r: Path)
      reads this
      requires Valid()
      ensures r in tree && r <= fullPath
      ensures forall j :: |r| < j <= |fullPath| ==> fullPath[..j] !in tree
    {
      ClosestIsDeepest(tree, fullPath);
      Closest(tree, fullPath)
    }

    // Reply handlers.  Each releases the lock first and emits fileOpDone(replyState).

    /** getDeleteReply: re-lists the parent of the deleted path whatever the reply state. */
    method GetDeleteReply(replyState: RequestState, params: map<string, Path>)
      requires Valid()
      modifies fileOpPending, this`tree, this`lsTasks, this`buffTasks, this`fatalError, this`sent, this`opsDone
      ensures Valid() && !OperationIsPending() && opsDone == old(opsDone) + [replyState]
      ensures Reconciled([ParentTarget(old(tree), ParamPath(params, "toDelete"))], "toDelete" !in params)
    {
      ghost var c0 := Snapshot();
      fileOpPending.Release();
      var toDelete := GetStringFromInitParams(params, "toDelete");
      ghost var c1 := Snapshot();
      LsClosestNodeToParent(toDelete, false);
      OneRefreshReconciles(c0, c1, Snapshot(), ParentTarget(c0.tree, toDelete), "toDelete" !in params);
      opsDone := opsDone + [replyState];
    }

    /**
     * getMoveReply: on GOOD, re-lists the parent of the source path and the
     * closest known node to the destination path.
     */
    method GetMoveReply(replyState: RequestState, revisedFileData: FileMetaData, params: map<string, Path>)
      requires Valid()
      modifies fileOpPending, this`tree, this`lsTasks, this`buffTasks, this`fatalError, this`sent, this`opsDone
      ensures Valid() && !OperationIsPending() && opsDone == old(opsDone) + [replyState]
      ensures replyState == Good ==>
                Reconciled([ParentTarget(old(tree), ParamPath(params, "from")),
                            Closest(old(tree), revisedFileData.fullPath)], "from" !in params)
      ensures replyState != Good ==> Untouched()
    {
      ghost var c0 := Snapshot();
      fileOpPending.Release();
      if replyState == Good {
        var from := GetStringFromInitParams(params, "from");
        ghost var c1 := Snapshot();
        LsClosestNodeToParent(from, false);
        ghost var c2 := Snapshot();
        LsClosestNode(revisedFileData.fullPath, false);
        TwoRefreshesReconcile(c0, c1, c2, Snapshot(), ParentTarget(c0.tree, from),
                              Closest(c2.tree, revisedFileData.fullPath), "from" !in params);
      }
      opsDone := opsDone + [replyState];
    }

    /** getCopyReply: on GOOD, re-lists the closest known node to the new path. */
    method GetCopyReply(replyState: RequestState, newFileData: FileMetaData)
      requires Valid()
      modifies fileOpPending, this`tree, this`lsTasks, this`buffTasks, this`fatalError, this`sent, this`opsDone
      ensures Valid() && !OperationIsPending() && opsDone == old(opsDone) + [replyState]
      ensures replyState == Good ==> Reconciled([Closest(old(tree), newFileData.fullPath)], false)
      ensures replyState != Good ==> Untouched()
    {
      ghost var c0 := Snapshot();
      fileOpPending.Release();
      if replyState == Good {
        LsClosestNode(newFileData.fullPath, false);
        OneRefreshReconciles(c0, c0, Snapshot(), Closest(c0.tree, newFileData.fullPath), false);
      }
      opsDone := opsDone + [replyState];
    }

    /** getRenameReply: on GOOD, re-lists the parents of the old and the new name. */
    method GetRenameReply(replyState: RequestState, newFileData: FileMetaData, params: map<string, Path>)
      requires Valid()
      modifies fileOpPending, this`tree, this`lsTasks, this`buffTasks, this`fatalError, this`sent, this`opsDone
      ensures Valid() && !OperationIsPending() && opsDone == old(opsDone) + [replyState]
      ensures replyState == Good ==>
                Reconciled([ParentTarget(old(tree), ParamPath(params, "fullName")),
                            ParentTarget(old(tree), newFileData.fullPath)], "fullName" !in params)
      ensures replyState != Good ==> Untouched()
    {
      ghost var c0 := Snapshot();
      fileOpPending.Release();
      if replyState == Good {
        var fullName := GetStringFromInitParams(params, "fullName");
        ghost var c1 := Snapshot();
        LsClosestNodeToParent(fullName, false);
        ghost var c2 := Snapshot();
        LsClosestNodeToParent(newFileData.fullPath, false);
        TwoRefreshesReconcile(c0, c1, c2, Snapshot(), ParentTarget(c0.tree, fullName),
                              ParentTarget(c2.tree, newFileData.fullPath), "fullName" !in params);
      }
      opsDone := opsDone + [replyState];
    }

    /** getMkdirReply: on GOOD, re-lists the closest known node to the folder that holds the new one. */
    method GetMkdirReply(replyState: RequestState, newFolderData: FileMetaData)
      requires Valid()
      modifies fileOpPending, this`tree, this`lsTasks, this`buffTasks, this`fatalError, this`sent, this`opsDone
      ensures Valid() && !OperationIsPending() && opsDone == old(opsDone) + [replyState]
      ensures replyState == Good ==> Reconciled([Closest(old(tree), ContainingPath(newFolderData))], false)
      ensures replyState != Good ==> Untouched()
    {
      ghost var c0 := Snapshot();
      fileOpPending.Release();
      if replyState == Good {
        LsClosestNode(ContainingPath(newFolderData), false);
        OneRefreshReconciles(c0, c0, Snapshot(), Closest(c0.tree, ContainingPath(newFolderData)), false);
      }
      opsDone := opsDone + [replyState];
    }

    /** getUploadReply: on GOOD, re-lists the parent of the uploaded file. */
    method GetUploadReply(replyState: RequestState, newFileData: FileMetaData)
      requires Valid()
      modifies fileOpPending, this`tree, this`lsTasks, this`buffTasks, this`fatalError, this`sent, this`opsDone
      ensures Valid() && !OperationIsPending() && opsDone == old(opsDone) + [replyState]
      ensures replyState == Good ==> Reconciled([ParentTarget(old(tree), newFileData.fullPath)], false)
      ensures replyState != Good ==> Untouched()
    {
      ghost var c0 := Snapshot();
      fileOpPending.Release();
      if replyState == Good {
        LsClosestNodeToParent(newFileData.fullPath, false);
        OneRefreshReconciles(c0, c0, Snapshot(), ParentTarget(c0.tree, newFileData.fullPath), false);
      }
      opsDone := opsDone + [replyState];
    }

    /**
     * getDownloadReply: never touches the tree; on GOOD the completion
     * notice reads the "localDest" parameter, whose absence is fatal.
     */
    method GetDownloadReply(replyState: RequestState, params: map<string, Path>)
      modifies fileOpPending, this`fatalError, this`opsDone
      ensures !OperationIsPending() && opsDone == old(opsDone) + [replyState]
      ensures fatalError == (old(fatalError) || (replyState == Good && "localDest" !in params))
    {
      fileOpPending.Release();
      opsDone := opsDone + [replyState];
      if replyState == Good {
        var localDest := GetStringFromInitParams(params, "localDest");
      }
    }

    /** getCompressReply: never touches the tree. */
    method GetCompressReply(finalState: RequestState)
      modifies fileOpPending, this`opsDone
      ensures !OperationIsPending() && opsDone == old(opsDone) + [finalState]
    {
      fileOpPending.Release();
      opsDone := opsDone + [finalState];
    }

    /** getDecompressReply: never touches the tree. */
    method GetDecompressReply(finalState: RequestState)
      modifies fileOpPending, this`opsDone
      ensures !OperationIsPending() && opsDone == old(opsDone) + [finalState]
    {
      fileOpPending.Release();
      opsDone := opsDone + [finalState];
    }

    /** The end of a speculative walk that computes o on the state before it. */
    twostate predicate WalkDone(o: Outcome, new r: Option<Path>)
      reads this
    {
      ReachedGoal(Snapshot(), old(Snapshot()), o, r)
    }

    /**
     * One missing segment of the walk: a stub for it is attached under
     * searchNode (a folder for an interior segment, a file for the last
     * segment of a file path, of size 0), and searchNode is re-listed when
     * its state is FOLDER_KNOWN_CONTENTS_NOT or FOLDER_SPECULATE_IDLE.
     */
    method AttachStub(searchNode: Path, pathParts: seq<string>, i: nat, folder: bool,
                      ghost start: Cache, ghost goal: Outcome, ghost done: seq<Request>)
      returns (nextNode: Path, ghost done': seq<Request>)
      requires i < |pathParts|
      requires OnTrack(Snapshot(), start, goal, done, searchNode, pathParts[i..], folder)
      requires searchNode + [pathParts[i]] !in tree
      requires tree[searchNode].ftype == Dir && tree[searchNode].state != FolderContentsLoaded
      modifies this`tree, this`lsTasks, this`buffTasks, this`fatalError, this`sent
      ensures nextNode == searchNode + [pathParts[i]]
      ensures OnTrack(Snapshot(), start, goal, done', nextNode, pathParts[i + 1..], folder)
    {
      ghost var rest := pathParts[i..];
      assert rest[0] == pathParts[i] && rest[1..] == pathParts[i + 1..];
      ghost var c := Snapshot();
      nextNode := searchNode + [pathParts[i]];
      var ftype := Dir;
      if i + 1 == |pathParts| && !folder {
        ftype := File;
      }
      var newNodeData := NodeData(ftype, 0, if ftype == Dir then FolderSpeculateIdle else OtherState);
      assert newNodeData == StubData(|rest| == 1, folder);
      assert Parent(nextNode) == searchNode;
      tree := tree[nextNode := newNodeData];
      assert Snapshot() == c.(tree := c.tree[nextNode := newNodeData]);
      if NeedsRefresh(tree[searchNode].state) {
        EnactFolderRefresh(searchNode, false);
      }
      AttachStubStaysOnTrack(c, Snapshot(), start, goal, done, searchNode, rest, folder);
      done' := done + StubRefresh(c.tree, c.ls, searchNode);
    }

    /**
     * speculateNodeWithName(baseNode, addedPath, folder): walks addedPath
     * from baseNode, attaching stubs where segments are missing, and
     * requests the resolved node's listing or buffer.
     */
    method SpeculateFromNode(baseNode: Path, addedPath: seq<string>, folder: bool) returns (r: Option<Path>)
      requires Valid() && baseNode in tree
      modifies this`tree, this`lsTasks, this`buffTasks, this`fatalError, this`sent
      ensures Valid()
      ensures WalkDone(Walk(old(tree), old(lsTasks), old(buffTasks), baseNode, addedPath, folder), r)
      ensures r.Some? ==> r.value in tree
    {
      WalkFoundIsKnown(tree, lsTasks, buffTasks, baseNode, addedPath, folder);
      ghost var goal := Walk(tree, lsTasks, buffTasks, baseNode, addedPath, folder);
      ghost var start := Snapshot();
      ghost var done: seq<Request> := [];
      assert Listed(done) == {};
      var searchNode := baseNode;
      var pathParts := addedPath;
      var i := 0;
      while i < |pathParts|
        invariant 0 <= i <= |pathParts|
        invariant OnTrack(Snapshot(), start, goal, done, searchNode, pathParts[i..], folder)
      {
        ghost var rest := pathParts[i..];
        assert rest[0] == pathParts[i] && rest[1..] == pathParts[i + 1..];
        var nextNode := searchNode + [pathParts[i]];
        if nextNode in tree {
          KnownChildStaysOnTrack(Snapshot(), start, goal, done, searchNode, rest, folder);
          searchNode := nextNode;
          i := i + 1;
          continue;
        }
        if tree[searchNode].ftype != Dir {
          RefusedWalkIsGoal(Snapshot(), start, goal, done, searchNode, rest, folder);
          return None;
        }
        if tree[searchNode].state == FolderContentsLoaded {
          RefusedWalkIsGoal(Snapshot(), start, goal, done, searchNode, rest, folder);
          return None;
        }
        searchNode, done := AttachStub(searchNode, pathParts, i, folder, start, goal, done);
        i := i + 1;
      }
      assert pathParts[i..] == [];
      ghost var c := Snapshot();
      if folder {
        EnactFolderRefresh(searchNode, false);
      } else {
        SendDownloadBuffReq(searchNode);
      }
      FinishedWalkIsGoal(c, Snapshot(), start, goal, done, searchNode, folder);
      r := Some(searchNode);
    }

    /**
     * speculateNodeWithName(fullPath, folder): a known node is returned as
     * it is; otherwise the walk continues from the closest known node with
     * the segments of fullPath beyond it.
     */
    method SpeculateNodeWithName(fullPath: Path, folder: bool) returns (r: Option<Path>)
      requires Valid()
      modifies this`tree, this`lsTasks, this`buffTasks, this`fatalError, this`sent
      ensures Valid()
      ensures r.Some? ==> r.value == fullPath && r.value in tree
      ensures fullPath in old(tree) ==> r == Some(fullPath) && Untouched()
      ensures fullPath !in old(tree) ==>
                var base := Closest(old(tree), fullPath);
                WalkDone(Walk(old(tree), old(lsTasks), old(buffTasks), base, fullPath[|base|..], folder), r)
    {
      if fullPath in tree {
        return Some(fullPath);
      }
      var scanNode := Closest(tree, fullPath);
      var fullPathParts := fullPath;
      var scanPathParts := scanNode;
      var accountedParts: int := |scanPathParts|;
      var pathSoFar: seq<string> := [];
      for i := 0 to |fullPathParts|
        invariant accountedParts == if i <= |scanPathParts| then |scanPathParts| - i else 0
        invariant pathSoFar == if i <= |scanPathParts| then [] else fullPathParts[|scanPathParts|..i]
      {
        if accountedParts <= 0 {
          pathSoFar := pathSoFar + [fullPathParts[i]];
        } else {
          accountedParts := accountedParts - 1;
        }
      }
      assert pathSoFar == fullPath[|scanNode|..];
      assert scanNode + pathSoFar == fullPath;
      WalkFindsTarget(tree, lsTasks, buffTasks, scanNode, pathSoFar, folder);
      r := SpeculateFromNode(scanNode, pathSoFar, folder);
    }
  }
}

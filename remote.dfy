/**
 * What the file operator exchanges with the RemoteDataInterface: the
 * requests it dispatches, the reply states and metadata that come back, and
 * the reply slots it connects to a dispatched request.
 */
module Remote {
  import opened Wrappers
  import opened FileTree

  /** The outcome a remote reply reports. */
  datatype RequestState = Good | ExplicitError | OtherFailure

  /** The metadata a reply returns for the file it created or moved. */
  datatype FileMetaData = FileMetaData(fullPath: Path, ftype: FileType, size: nat)

  /** getContainingPath: the folder that holds the file. */
  function ContainingPath(m: FileMetaData): (r: Path)
    ensures m.fullPath != [] ==> r < m.fullPath && |r| + 1 == |m.fullPath|
    ensures m.fullPath == [] ==> r == []
  {
    if m.fullPath == [] then [] else Parent(m.fullPath)
  }

  /** One input value of a remote job. */
  datatype JobInput = Text(text: string) | PathText(path: Path)

  /** One call into the RemoteDataInterface. */
  datatype Request =
    | RemoteLs(path: Path)
    | DeleteFile(path: Path)
    | MoveFile(path: Path, newName: string)
    | CopyFile(path: Path, newName: string)
    | RenameFile(path: Path, newName: string)
    | MkRemoteDir(path: Path, newName: string)
    | UploadFile(path: Path, localFile: string)
    | UploadBuffer(path: Path, buffer: seq<bv8>, newName: string)
    | DownloadFile(localDest: string, path: Path)
    | DownloadBuffer(path: Path)
    | RunRemoteJob(app: string, inputs: map<string, JobInput>, workingDir: Option<Path>)

  // A remote job's working folder is None where the source passes the empty string.

  /** The reply handler a dispatched mutation is connected to. */
  datatype ReplySlot =
    | DeleteReply | MoveReply | CopyReply | RenameReply | MkdirReply
    | UploadReply | DownloadReply | CompressReply | DecompressReply

  /** The folders whose listing appears among reqs. */
  ghost function Listed(reqs: seq<Request>): set<Path>
  {
    set r | r in reqs && r.RemoteLs? :: r.path
  }

  /** The files whose buffer fetch appears among reqs. */
  ghost function Fetched(reqs: seq<Request>): set<Path>
  {
    set r | r in reqs && r.DownloadBuffer? :: r.path
  }

  lemma ListedAppend(a: seq<Request>, b: seq<Request>)
    ensures Listed(a + b) == Listed(a) + Listed(b)
    ensures Fetched(a + b) == Fetched(a) + Fetched(b)
  {
    assert forall r :: r in a + b <==> r in a || r in b;
  }

  lemma AppendAssoc(a: seq<Request>, b: seq<Request>, c: seq<Request>)
    ensures a + b + c == a + (b + c)
  {
  }

  /** A set between s and s + {x} is one of the two. */
  lemma BetweenSets(s: set<Path>, s': set<Path>, x: Path)
    requires s <= s' <= s + {x}
    ensures s' == s || s' == s + {x}
  {
    if x in s' {
      assert s' == s + {x};
    } else {
      assert s' == s;
    }
  }

  /**
   * getStringFromInitParams, as a path: the parameter the request was
   * started with, or the empty string when it is missing.  Every parameter
   * is kept as a sequence of segments; "localDest", a local file name, is
   * read the same way, and its value is never used.
   */
  function ParamPath(params: map<string, Path>, key: string): Path
  {
    if key in params then params[key] else []
  }
}

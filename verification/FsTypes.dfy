/**
Values shared by the components (internal/types/types.go, internal/metadata/mds.go:43-81).

Times are integers in nanoseconds. A tree is a flat map from component sequences to the attributes of
the entry found there.
*/
module FsTypes {
  import opened Paths

  type Time = int

  datatype Option<+T> = None | Some(value: T)

  datatype Replica = Replica(addr: string, remotePath: string)

  datatype Status = NoStatus | Pending | Complete

  datatype CreateMode = CreateIfNotExist | OverwriteIfExists

  /** The fields of an entry other than `children`. */
  datatype Meta = Meta(
    name: Name,
    isDir: bool,
    size: int,
    mode: nat,
    createdAt: Time,
    modTime: Time,
    status: Status,
    fileID: string,
    replicas: seq<Replica>)

  const DIR_MODE := 493   // 0755
  const FILE_MODE := 420  // 0644

  type Tree = map<Path, Meta>

  datatype State = State(tree: Tree, dataNodes: seq<string>, lastHeartbeat: map<string, Time>)

  /** A committed log entry: the operation and the payload fields it uses. */
  datatype Command =
    | Heartbeat(addr: string)
    | RemoveDataNode(addr: string)
    | Mkdir(path: string)
    | CreateFile(path: string, size: int, replicas: seq<Replica>, createMode: CreateMode, fileID: string)
    | CompleteFile(path: string)
    | Delete(path: string)
    | Rename(path: string, dstPath: string)
    | UpdateSize(path: string, newSize: int)
    | UnknownOp(op: string)

  datatype ApplyError =
    | NotADirectory(level: nat)
    | InvalidPath
    | ParentNotFound
    | IsADirectory
    | AlreadyExists
    | PathNotFound
    | CannotDeleteRoot
    | SourceNotFound
    | IntoOwnSubtree
    | DestinationParentNotFound
    | DestinationIsDirectory
    | UnknownOperation

  datatype Outcome = Done | Failed(error: ApplyError)

  datatype Applied = Applied(state: State, outcome: Outcome)

  function RemotePathOf(fileID: string): string {
    "/data/" + fileID
  }

  /** Leftovers of interrupted stores have this ending. */
  predicate IsTemp(path: string) {
    |path| >= 4 && path[|path|-4..] == ".tmp"
  }

  lemma TempEnding(path: string)
    ensures IsTemp(path) <==> exists s :: path == s + ".tmp"
  {
    if IsTemp(path) {
      assert path == path[..|path|-4] + ".tmp";
    }
    if s :| path == s + ".tmp" {
      assert path[|path|-4..] == ".tmp";
    }
  }
}

/**
What the operations of a file handle do, on values (internal/client/file_handle.go, internal/client/client.go:379-588):
to the files of the data nodes, to the metadata, and to the sizes and statuses that the handle caches.

Each remote call has a fate. A call may not be served, may be served with its answer lost, and a write may end with a
disk error after some bytes.
*/
module FileIO {
  import opened Paths
  import opened FsTypes
  import opened Namespace
  import opened ByteFiles
  import opened DataNodes
  import opened History
  import opened Placement

  datatype Call = Served | NotServed | AnswerLost | DiskFails(wrote: nat)

  datatype Handle = Handle(path: string, fileID: string, replicas: seq<Replica>, size: int, status: Status)

  type Nodes = map<string, Files>

  datatype Deployment = Deployment(mds: State, nodes: Nodes)

  datatype ReadResult = ReadBytes(data: Bytes, eof: bool) | ReadError

  function DiskOf(call: Call): Disk {
    if call.DiskFails? then FailsAfter(call.wrote) else Works
  }

  function FilesAt(nodes: Nodes, addr: string): Files {
    if addr in nodes then nodes[addr] else map[]
  }

  /** The bytes that a replica holds. */
  function Held(nodes: Nodes, r: Replica): Bytes {
    Content(FilesAt(nodes, r.addr), r.remotePath)
  }

  predicate Reached(nodes: Nodes, r: Replica, call: Call) {
    r.addr in nodes && call != NotServed
  }

  // ----- one replica -----

  function WriteOne(nodes: Nodes, r: Replica, offset: nat, data: Bytes, now: Time, call: Call): Nodes {
    if Reached(nodes, r, call)
    then nodes[r.addr := Written(nodes[r.addr], r.remotePath, offset, Reaching(data, DiskOf(call)), now)]
    else nodes
  }

  predicate WriteOk(nodes: Nodes, r: Replica, data: Bytes, call: Call) {
    Reached(nodes, r, call) && call != AnswerLost && Reaching(data, DiskOf(call)) == data
  }

  function TruncateOne(nodes: Nodes, r: Replica, size: nat, now: Time, call: Call): Nodes {
    if Reached(nodes, r, call) && !call.DiskFails? && r.remotePath in nodes[r.addr]
    then nodes[r.addr := Truncated(nodes[r.addr], r.remotePath, size, now)]
    else nodes
  }

  predicate TruncateOk(nodes: Nodes, r: Replica, call: Call) {
    Reached(nodes, r, call) && call == Served && r.remotePath in nodes[r.addr]
  }

  // ----- all replicas -----

  function CallAt(calls: seq<Call>, i: nat): Call {
    if i < |calls| then calls[i] else NotServed
  }

  /** The calls to the first `k` replicas. */
  function WriteFirst(nodes: Nodes, rs: seq<Replica>, k: nat, offset: nat, data: Bytes, now: Time,
                      calls: seq<Call>): Nodes
    requires k <= |rs|
  {
    if k == 0 then nodes
    else WriteOne(WriteFirst(nodes, rs, k - 1, offset, data, now, calls), rs[k-1], offset, data, now,
        CallAt(calls, k - 1))
  }

  function TruncateFirst(nodes: Nodes, rs: seq<Replica>, k: nat, size: nat, now: Time, calls: seq<Call>): Nodes
    requires k <= |rs|
  {
    if k == 0 then nodes
    else TruncateOne(TruncateFirst(nodes, rs, k - 1, size, now, calls), rs[k-1], size, now, CallAt(calls, k - 1))
  }

  ghost predicate DistinctAddrs(rs: seq<Replica>) {
    forall i, j :: 0 <= i < j < |rs| ==> rs[i].addr != rs[j].addr
  }

  /** Calls to replicas on different nodes do not see each other: each starts from what its node held at first. */
  lemma {:induction false} WriteFirstAt(nodes: Nodes, rs: seq<Replica>, k: nat, offset: nat, data: Bytes, now: Time,
                                        calls: seq<Call>)
    requires k <= |rs| && DistinctAddrs(rs)
    ensures var after := WriteFirst(nodes, rs, k, offset, data, now, calls);
      && after.Keys == nodes.Keys
      && (forall i :: 0 <= i < k ==>
          FilesAt(after, rs[i].addr) ==
            FilesAt(WriteOne(nodes, rs[i], offset, data, now, CallAt(calls, i)), rs[i].addr))
      && (forall a :: a in nodes && (forall i :: 0 <= i < k ==> rs[i].addr != a) ==> after[a] == nodes[a])
  {
    if k > 0 {
      WriteFirstAt(nodes, rs, k - 1, offset, data, now, calls);
    }
  }

  lemma {:induction false} WriteOkStays(nodes: Nodes, rs: seq<Replica>, k: nat, offset: nat, data: Bytes, now: Time,
                                        calls: seq<Call>)
    requires k < |rs|
    ensures WriteOk(WriteFirst(nodes, rs, k, offset, data, now, calls), rs[k], data, CallAt(calls, k))
         == WriteOk(nodes, rs[k], data, CallAt(calls, k))
  {
    WriteFirstKeys(nodes, rs, k, offset, data, now, calls);
  }

  lemma {:induction false} WriteFirstKeys(nodes: Nodes, rs: seq<Replica>, k: nat, offset: nat, data: Bytes, now: Time,
                                          calls: seq<Call>)
    requires k <= |rs|
    ensures WriteFirst(nodes, rs, k, offset, data, now, calls).Keys == nodes.Keys
  {
    if k > 0 {
      WriteFirstKeys(nodes, rs, k - 1, offset, data, now, calls);
    }
  }

  lemma {:induction false} TruncateFirstAt(nodes: Nodes, rs: seq<Replica>, k: nat, size: nat, now: Time,
                                           calls: seq<Call>)
    requires k <= |rs| && DistinctAddrs(rs)
    ensures var after := TruncateFirst(nodes, rs, k, size, now, calls);
      && after.Keys == nodes.Keys
      && (forall i :: 0 <= i < k ==>
          FilesAt(after, rs[i].addr) == FilesAt(TruncateOne(nodes, rs[i], size, now, CallAt(calls, i)), rs[i].addr))
      && (forall a :: a in nodes && (forall i :: 0 <= i < k ==> rs[i].addr != a) ==> after[a] == nodes[a])
  {
    if k > 0 {
      TruncateFirstAt(nodes, rs, k - 1, size, now, calls);
    }
  }

  /** Truncation neither makes nor removes files. */
  lemma {:induction false} TruncateFirstKeys(nodes: Nodes, rs: seq<Replica>, k: nat, size: nat, now: Time,
                                             calls: seq<Call>)
    requires k <= |rs|
    ensures var after := TruncateFirst(nodes, rs, k, size, now, calls);
      after.Keys == nodes.Keys && forall a :: a in nodes ==> after[a].Keys == nodes[a].Keys
  {
    if k > 0 {
      TruncateFirstKeys(nodes, rs, k - 1, size, now, calls);
    }
  }

  lemma TruncateOkStays(nodes: Nodes, rs: seq<Replica>, k: nat, size: nat, now: Time, calls: seq<Call>)
    requires k < |rs|
    ensures TruncateOk(TruncateFirst(nodes, rs, k, size, now, calls), rs[k], CallAt(calls, k))
         == TruncateOk(nodes, rs[k], CallAt(calls, k))
  {
    TruncateFirstKeys(nodes, rs, k, size, now, calls);
  }

  predicate AllWritesOk(nodes: Nodes, rs: seq<Replica>, data: Bytes, calls: seq<Call>) {
    forall i :: 0 <= i < |rs| ==> WriteOk(nodes, rs[i], data, CallAt(calls, i))
  }

  predicate AllTruncatesOk(nodes: Nodes, rs: seq<Replica>, calls: seq<Call>) {
    forall i :: 0 <= i < |rs| ==> TruncateOk(nodes, rs[i], CallAt(calls, i))
  }

  // ----- the metadata calls -----

  /** `UpdateSize` at the leader: its argument checks, then the command. */
  function ResizeCall(s: State, path: string, size: int, now: Time, call: Call): State {
    if call == NotServed || path == "" || size < 0 then s else Apply(s, UpdateSize(path, size), now).state
  }

  predicate ResizeOk(s: State, path: string, size: int, now: Time, call: Call) {
    call == Served && path != "" && size >= 0 && Apply(s, UpdateSize(path, size), now).outcome == Done
  }

  function CompleteCall(s: State, path: string, now: Time, call: Call): State {
    if call == NotServed then s else Apply(s, CompleteFile(path), now).state
  }

  predicate CompleteOk(s: State, path: string, now: Time, call: Call) {
    call == Served && Apply(s, CompleteFile(path), now).outcome == Done
  }

  // ----- the handle's operations -----

  predicate WriteSucceeds(d: Deployment, h: Handle, data: Bytes, offset: int, calls: seq<Call>) {
    offset >= 0 && h.replicas != [] && AllWritesOk(d.nodes, h.replicas, data, calls)
  }

  /** `WriteAt`. The metadata follow the data, and only when every replica has it. */
  function WriteAt(d: Deployment, h: Handle, data: Bytes, offset: int, now: Time, calls: seq<Call>, resize: Call)
    : (Deployment, Handle)
  {
    if offset < 0 || h.replicas == [] then (d, h)
    else
      var nodes := WriteFirst(d.nodes, h.replicas, |h.replicas|, offset, data, now, calls);
      if !AllWritesOk(d.nodes, h.replicas, data, calls) then (Deployment(d.mds, nodes), h)
      else
        var end := offset + |data|;
        var mds := if end > h.size then ResizeCall(d.mds, h.path, end, now, resize) else d.mds;
        (Deployment(mds, nodes),
         h.(size := Max(h.size, end), status := if h.status == Pending then Complete else h.status))
  }

  predicate Answers(nodes: Nodes, r: Replica, call: Call) {
    Reached(nodes, r, call) && call == Served
  }

  /** What a replica answers; a missing file reads as empty, at its end. */
  function AnswerOf(nodes: Nodes, r: Replica, offset: nat, length: nat): ReadResult {
    if r.remotePath !in FilesAt(nodes, r.addr) then ReadBytes([], true)
    else var s := Slice(Held(nodes, r), offset, length); ReadBytes(s.0, s.1)
  }

  function ReadFrom(nodes: Nodes, rs: seq<Replica>, offset: nat, length: nat, calls: seq<Call>, k: nat): ReadResult
    requires k <= |rs|
    decreases |rs| - k
  {
    if k == |rs| then ReadError
    else if Answers(nodes, rs[k], CallAt(calls, k)) then AnswerOf(nodes, rs[k], offset, length)
    else ReadFrom(nodes, rs, offset, length, calls, k + 1)
  }

  /** `ReadAt`: the first replica that answers decides. */
  function ReadAt(d: Deployment, h: Handle, offset: int, length: nat, calls: seq<Call>): ReadResult {
    if offset < 0 || h.replicas == [] then ReadError else ReadFrom(d.nodes, h.replicas, offset, length, calls, 0)
  }

  /** The replicas that the metadata now name under the path: truncation asks for them again. */
  function LocatedReplicas(s: State, path: string): Option<seq<Replica>> {
    if IsFileAt(s.tree, Components(path)) then Some(s.tree[Components(path)].replicas) else None
  }

  /** The commands of `between` commit after the replicas were asked for and before the size update. */
  predicate TruncateSucceeds(d: Deployment, path: string, size: int, now: Time, calls: seq<Call>, resize: Call,
                             between: seq<Step> := [])
  {
    && size >= 0 && LocatedReplicas(d.mds, path).Some?
    && AllTruncatesOk(d.nodes, LocatedReplicas(d.mds, path).value, calls)
    && ResizeOk(Run(d.mds, between), path, size, now, resize)
  }

  function TruncateAll(d: Deployment, path: string, size: int, now: Time, calls: seq<Call>, resize: Call,
                       between: seq<Step> := []): Deployment
  {
    if size < 0 || LocatedReplicas(d.mds, path).None? then d
    else
      var rs, mds := LocatedReplicas(d.mds, path).value, Run(d.mds, between);
      var nodes := TruncateFirst(d.nodes, rs, |rs|, size, now, calls);
      if AllTruncatesOk(d.nodes, rs, calls) then Deployment(ResizeCall(mds, path, size, now, resize), nodes)
      else Deployment(mds, nodes)
  }

  function TruncateVia(d: Deployment, h: Handle, size: int, now: Time, calls: seq<Call>, resize: Call)
    : (Deployment, Handle) {
    (TruncateAll(d, h.path, size, now, calls, resize),
     if TruncateSucceeds(d, h.path, size, now, calls, resize) then h.(size := size) else h)
  }

  /** `Close`: the completion is requested only while the handle believes the file to be pending. */
  function Close(d: Deployment, h: Handle, now: Time, complete: Call): Deployment {
    if h.status == Pending then d.(mds := CompleteCall(d.mds, h.path, now, complete)) else d
  }

  predicate CloseOk(d: Deployment, h: Handle, now: Time, complete: Call) {
    h.status == Pending ==> CompleteOk(d.mds, h.path, now, complete)
  }

  // ----- open -----

  datatype Flags = Flags(creat: bool, excl: bool, trunc: bool)

  datatype OpenResult =
    | Opened(h: Handle) | StatFailed | NoSuchFile | FileExists | OpenedDirectory | CreateFailed | TruncateFailed
      | LocationFailed

  /** What happens around the calls of an open: the fates of its calls to the metadata, and the commands that commit
      after its first look at the path, between the checks and the command of its create, between the data and the
      metadata of its truncation, and before it asks for the location. */
  datatype OpenFates = OpenFates(
    stat: bool, afterStat: seq<Step>,
    create: Call, afterCheck: seq<Step>,
    resize: Call, inTruncate: seq<Step>,
    beforeLocation: seq<Step>, location: bool)

  /** Every call is served and nothing commits in between. */
  const CALM := OpenFates(true, [], Served, [], Served, [], [], true)

  /** A path that was not there at the first look: create it, then ask for its location. */
  function CreateNew(s: State, path: string, fileID: string, now: Time, g: OpenFates): (State, OpenResult) {
    var p, s1 := Components(path), Run(s, g.afterStat);
    if g.create == NotServed then (s1, CreateFailed)
    else
      var (s2, reply) := CreateService(s1, path, 0, CreateIfNotExist, fileID, g.afterCheck, now);
      if !reply.Created? || g.create != Served then (s2, CreateFailed)
      else
        var s3 := Run(s2, g.beforeLocation);
        if !g.location || !IsFileAt(s3.tree, p) then (s3, LocationFailed)
        else (s3, Opened(Handle(path, s3.tree[p].fileID, reply.replicas, 0, Pending)))
  }

  /** A path that was there with attributes `m`: truncate the data first and the metadata after, then ask for the
      location. */
  function OpenOld(d: Deployment, path: string, flags: Flags, m: Meta, now: Time, calls: seq<Call>, g: OpenFates)
    : (Deployment, OpenResult)
  {
    if flags.excl then (d, FileExists)
    else if m.isDir then (d, OpenedDirectory)
    else
      var p, d1 := Components(path), d.(mds := Run(d.mds, g.afterStat));
      if flags.trunc && !TruncateSucceeds(d1, path, 0, now, calls, g.resize, g.inTruncate)
      then (TruncateAll(d1, path, 0, now, calls, g.resize, g.inTruncate), TruncateFailed)
      else
        var d2 := if flags.trunc then TruncateAll(d1, path, 0, now, calls, g.resize, g.inTruncate) else d1;
        var d3 := d2.(mds := Run(d2.mds, g.beforeLocation));
        if !g.location || !IsFileAt(d3.mds.tree, p) then (d3, LocationFailed)
        else
          var l := d3.mds.tree[p];
          (d3, Opened(Handle(path, l.fileID, l.replicas, if flags.trunc then 0 else m.size, l.status)))
  }

  /** `Open`. A new file gets the FileID `fileID`. */
  function OpenAt(d: Deployment, path: string, flags: Flags, fileID: string, now: Time, calls: seq<Call>, g: OpenFates)
    : (Deployment, OpenResult)
  {
    if !g.stat then (d, StatFailed)
    else if Components(path) in d.mds.tree then OpenOld(d, path, flags, d.mds.tree[Components(path)], now, calls, g)
    else if !flags.creat then (d, NoSuchFile)
    else var r := CreateNew(d.mds, path, fileID, now, g); (d.(mds := r.0), r.1)
  }
}

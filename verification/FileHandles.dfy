/**
The client's file handle over real data nodes and the metadata server (internal/client/file_handle.go:71-169,
internal/client/client.go:379-528), proved against `FileIO`.

The calls to the replicas run at the same time in the program. They go to different nodes and share nothing, so they are
made one after another here. Fates of calls and clock readings are parameters.
*/
module FileHandles {
  import opened Paths
  import opened FsTypes
  import opened Namespace
  import opened History
  import opened Placement
  import opened MetadataServers
  import opened ByteFiles
  import opened DataNodes
  import FileIO

  type Call = FileIO.Call

  class Client {
    const mds: MetadataServer
    const nodes: map<string, DataNode>

    constructor (mds: MetadataServer, nodes: map<string, DataNode>)
      ensures this.mds == mds && this.nodes == nodes
    {
      this.mds, this.nodes := mds, nodes;
    }

    ghost predicate Valid()
      reads mds, mds.repr
    {
      mds.Valid() && forall a, b :: a in nodes && b in nodes && a != b ==> nodes[a] != nodes[b]
    }

    ghost function Stored(): FileIO.Nodes
      reads nodes.Values
    {
      map a | a in nodes :: nodes[a].files
    }

    ghost function View(): FileIO.Deployment
      reads mds, mds.repr, nodes.Values
    {
      FileIO.Deployment(mds.View(), Stored())
    }

    // ----- calls to one data node -----

    method PartialWrite(r: Replica, offset: nat, data: Bytes, now: Time, call: Call) returns (ok: bool)
      requires Valid()
      modifies nodes.Values
      ensures Stored() == FileIO.WriteOne(old(Stored()), r, offset, data, now, call)
      ensures ok == FileIO.WriteOk(old(Stored()), r, data, call)
    {
      hide MetadataServer.Valid, Written, Reaching;
      if r.addr !in nodes || call == FileIO.NotServed {
        return false;
      }
      var res := nodes[r.addr].PartialWrite(r.remotePath, offset, data, now, FileIO.DiskOf(call));
      ok := res == Fine && call != FileIO.AnswerLost;
    }

    method TruncateReplica(r: Replica, size: nat, now: Time, call: Call) returns (ok: bool)
      requires Valid()
      modifies nodes.Values
      ensures Stored() == FileIO.TruncateOne(old(Stored()), r, size, now, call)
      ensures ok == FileIO.TruncateOk(old(Stored()), r, call)
    {
      hide MetadataServer.Valid, Resize;
      if r.addr !in nodes || call == FileIO.NotServed || call.DiskFails? {
        return false;
      }
      var res := nodes[r.addr].Truncate(r.remotePath, size, now);
      ok := res == Fine && call == FileIO.Served;
    }

    method RangeRead(r: Replica, offset: nat, length: nat, call: Call) returns (ok: bool, data: Bytes, eof: bool)
      requires Valid()
      ensures ok == FileIO.Answers(Stored(), r, call)
      ensures ok ==> FileIO.ReadBytes(data, eof) == FileIO.AnswerOf(Stored(), r, offset, length)
    {
      ok, data, eof := false, [], false;
      if r.addr !in nodes || call == FileIO.NotServed {
        return;
      }
      var res;
      res, data, eof := nodes[r.addr].RangeRead(r.remotePath, offset, length);
      ok := res == Fine && call == FileIO.Served;
    }

    /** `truncateAllReplicas`: every replica is asked, whatever the others answer. */
    method TruncateReplicas(rs: seq<Replica>, size: nat, now: Time, calls: seq<Call>) returns (ok: bool)
      requires Valid()
      modifies nodes.Values
      ensures Stored() == FileIO.TruncateFirst(old(Stored()), rs, |rs|, size, now, calls)
      ensures ok == FileIO.AllTruncatesOk(old(Stored()), rs, calls)
    {
      hide MetadataServer.Valid, FileIO.TruncateOne, FileIO.TruncateOk;
      ghost var stored := Stored();
      var errs := new bool[|rs|];
      for i := 0 to |rs|
        invariant Stored() == FileIO.TruncateFirst(stored, rs, i, size, now, calls)
        invariant forall k :: 0 <= k < i ==> errs[k] == !FileIO.TruncateOk(stored, rs[k], FileIO.CallAt(calls, k))
      {
        FileIO.TruncateOkStays(stored, rs, i, size, now, calls);
        var done := TruncateReplica(rs[i], size, now, FileIO.CallAt(calls, i));
        errs[i] := !done;
      }
      ok := true;
      for i := 0 to |rs|
        invariant ok && forall k :: 0 <= k < i ==> !errs[k]
      {
        if errs[i] {
          return false;
        }
      }
    }

    /** `getFileLocation`. */
    method Locate(path: string) returns (rs: Option<seq<Replica>>)
      requires Valid()
      ensures rs == FileIO.LocatedReplicas(mds.View(), path)
    {
      hide MetadataServer.Valid, MetadataServer.Flat;
      mds.FlatAt(Components(path));
      var e := mds.Lookup(path);
      if e == null || e.isDir {
        return None;
      }
      rs := Some(e.replicas);
    }

    /** First the data, then the metadata. */
    method TruncateAndResize(path: string, size: int, now: Time, calls: seq<Call>, resize: Call, between: seq<Step>)
      returns (ok: bool)
      requires Valid()
      modifies mds, mds.repr, nodes.Values
      ensures Valid() && fresh(mds.repr - old(mds.repr))
      ensures View() == FileIO.TruncateAll(old(View()), path, size, now, calls, resize, between)
      ensures ok == FileIO.TruncateSucceeds(old(View()), path, size, now, calls, resize, between)
    {
      hide MetadataServer.Valid, MetadataServer.View, FileIO.LocatedReplicas, FileIO.ResizeCall, FileIO.ResizeOk,
        FileIO.AllTruncatesOk;
      if size < 0 {
        return false;
      }
      var rs := Locate(path);
      if rs == None {
        return false;
      }
      ok := TruncateReplicas(rs.value, size, now, calls);
      mds.CommitAll(between);
      if ok {
        ok := UpdateSize(path, size, now, resize);
      }
    }

    // ----- calls to the metadata server -----

    method UpdateSize(path: string, size: int, now: Time, call: Call) returns (ok: bool)
      requires Valid()
      modifies mds, mds.repr
      ensures Valid() && fresh(mds.repr - old(mds.repr))
      ensures mds.View() == FileIO.ResizeCall(old(mds.View()), path, size, now, call)
      ensures ok == FileIO.ResizeOk(old(mds.View()), path, size, now, call)
    {
      hide MetadataServer.Valid, MetadataServer.View;
      if call == FileIO.NotServed || path == "" || size < 0 {
        return false;
      }
      var r := mds.Apply(Command.UpdateSize(path, size), now);
      ok := r == Done && call == FileIO.Served;
    }

    method CompleteFile(path: string, now: Time, call: Call) returns (ok: bool)
      requires Valid()
      modifies mds, mds.repr
      ensures Valid() && fresh(mds.repr - old(mds.repr))
      ensures mds.View() == FileIO.CompleteCall(old(mds.View()), path, now, call)
      ensures ok == FileIO.CompleteOk(old(mds.View()), path, now, call)
    {
      hide MetadataServer.Valid, MetadataServer.View;
      if call == FileIO.NotServed {
        return false;
      }
      var r := mds.Apply(Command.CompleteFile(path), now);
      ok := r == Done && call == FileIO.Served;
    }
  }

  /** The part of `Open` for a path that was not there. */
  method OpenNew(client: Client, path: string, fileID: string, now: Time, g: FileIO.OpenFates)
    returns (r: FileIO.OpenResult)
    requires client.Valid() && MembersAgree(client.mds.View())
    modifies client.mds, client.mds.repr
    ensures client.Valid() && fresh(client.mds.repr - old(client.mds.repr))
    ensures (client.mds.View(), r) == FileIO.CreateNew(old(client.mds.View()), path, fileID, now, g)
  {
    hide MetadataServer.Valid, MetadataServer.Flat, CreateService, MembersAgree;
    var mds := client.mds;
    RunKeepsMembers(mds.View(), g.afterStat);
    mds.CommitAll(g.afterStat);
    if g.create == FileIO.NotServed {
      return FileIO.CreateFailed;
    }
    NodesAreDistinct(mds.View());
    var reply := mds.CreateFile(path, 0, CreateIfNotExist, fileID, g.afterCheck, now);
    if !reply.Created? || g.create != FileIO.Served {
      return FileIO.CreateFailed;
    }
    mds.CommitAll(g.beforeLocation);
    mds.FlatAt(Components(path));
    var made := mds.Lookup(path);
    if !g.location || made == null || made.isDir {
      return FileIO.LocationFailed;
    }
    r := FileIO.Opened(FileIO.Handle(path, made.fileID, reply.replicas, 0, Pending));
  }

  lemma NodesAreDistinct(s: State)
    requires MembersAgree(s)
    ensures Distinct(s.dataNodes)
  {
  }

  /** The part of `Open` for a path that was there. */
  method OpenExisting(client: Client, path: string, flags: FileIO.Flags, isDir: bool, size: int, ghost m: Meta,
                      now: Time, calls: seq<Call>, g: FileIO.OpenFates)
    returns (r: FileIO.OpenResult)
    requires client.Valid() && m.isDir == isDir && m.size == size
    modifies client.mds, client.mds.repr, client.nodes.Values
    ensures client.Valid() && fresh(client.mds.repr - old(client.mds.repr))
    ensures (client.View(), r) == FileIO.OpenOld(old(client.View()), path, flags, m, now, calls, g)
  {
    hide MetadataServer.Valid, MetadataServer.View, FileIO.TruncateAll, FileIO.TruncateSucceeds, Client.Stored;
    if flags.excl {
      return FileIO.FileExists;
    }
    if isDir {
      return FileIO.OpenedDirectory;
    }
    client.mds.CommitAll(g.afterStat);
    if flags.trunc {
      var ok := client.TruncateAndResize(path, 0, now, calls, g.resize, g.inTruncate);
      if !ok {
        return FileIO.TruncateFailed;
      }
    }
    client.mds.CommitAll(g.beforeLocation);
    var l := Location(client.mds, path);
    if !g.location || l == null {
      return FileIO.LocationFailed;
    }
    r := FileIO.Opened(FileIO.Handle(path, l.fileID, l.replicas, if flags.trunc then 0 else size, l.status));
  }

  method Location(mds: MetadataServer, path: string) returns (l: Entry?)
    requires mds.Valid()
    ensures if IsFileAt(mds.View().tree, Components(path))
        then l != null && mds.View().tree[Components(path)] == l.Attributes() else l == null
  {
    hide MetadataServer.Valid, MetadataServer.Flat;
    mds.FlatAt(Components(path));
    var e := mds.Lookup(path);
    l := if e == null || e.isDir then null else e;
  }

  /** `Open` with its flags. */
  method Open(client: Client, path: string, flags: FileIO.Flags, fileID: string, now: Time, calls: seq<Call>,
              g: FileIO.OpenFates)
    returns (fh: FileHandle?, r: FileIO.OpenResult)
    requires client.Valid() && MembersAgree(client.mds.View())
    modifies client.mds, client.mds.repr, client.nodes.Values
    ensures client.Valid() && fresh(client.mds.repr - old(client.mds.repr))
    ensures (client.View(), r) == FileIO.OpenAt(old(client.View()), path, flags, fileID, now, calls, g)
    ensures if r.Opened? then fh != null && fresh(fh) && fh.client == client && fh.View() == r.h else fh == null
  {
    hide MetadataServer.Valid, MetadataServer.Flat, FileIO.CreateNew, FileIO.OpenOld, MembersAgree,
      FileIO.LocatedReplicas,
      Components, MetadataServer.Kids, MetadataServer.Attrs, Client.Stored;
    fh := null;
    if !g.stat {
      return null, FileIO.StatFailed;
    }
    client.mds.FlatAt(Components(path));
    var e := client.mds.Lookup(path);
    if e == null {
      if !flags.creat {
        return null, FileIO.NoSuchFile;
      }
      r := OpenNew(client, path, fileID, now, g);
    } else {
      r := OpenExisting(client, path, flags, e.isDir, e.size, e.Attributes(), now, calls, g);
    }
    if r.Opened? {
      fh := new FileHandle(client, r.h);
    }
  }

  class FileHandle {
    const client: Client
    const path: string
    const fileID: string
    const replicas: seq<Replica>
    var size: int
    var status: Status

    constructor (client: Client, h: FileIO.Handle)
      ensures this.client == client && View() == h
    {
      this.client := client;
      path, fileID, replicas, size, status := h.path, h.fileID, h.replicas, h.size, h.status;
    }

    ghost function View(): FileIO.Handle
      reads this
    {
      FileIO.Handle(path, fileID, replicas, size, status)
    }

    // ----- read -----

    method ReadAt(offset: int, length: nat, calls: seq<Call>) returns (r: FileIO.ReadResult)
      requires client.Valid()
      ensures r == FileIO.ReadAt(client.View(), View(), offset, length, calls)
    {
      hide MetadataServer.Valid, MetadataServer.View;
      if offset < 0 || |replicas| == 0 {
        return FileIO.ReadError;
      }
      for i := 0 to |replicas|
        invariant FileIO.ReadAt(client.View(), View(), offset, length, calls)
               == FileIO.ReadFrom(client.Stored(), replicas, offset, length, calls, i)
      {
        var ok, data, eof := client.RangeRead(replicas[i], offset, length, FileIO.CallAt(calls, i));
        if ok {
          return FileIO.ReadBytes(data, eof);
        }
      }
      r := FileIO.ReadError;
    }

    // ----- write -----

    static predicate NoneFailed(errs: seq<bool>) {
      forall i :: 0 <= i < |errs| ==> !errs[i]
    }

    /** The calls to all replicas: `errs[i]` says whether the `i`-th failed. */
    method WriteReplicas(offset: nat, data: Bytes, now: Time, calls: seq<Call>, errs: array<bool>)
      requires client.Valid() && errs.Length == |replicas|
      modifies client.nodes.Values, errs
      ensures client.Stored() == FileIO.WriteFirst(old(client.Stored()), replicas, |replicas|, offset, data, now, calls)
      ensures NoneFailed(errs[..]) <==> FileIO.AllWritesOk(old(client.Stored()), replicas, data, calls)
    {
      hide MetadataServer.Valid, FileIO.WriteOne, FileIO.WriteOk;
      ghost var nodes := client.Stored();
      for i := 0 to |replicas|
        invariant client.Stored() == FileIO.WriteFirst(nodes, replicas, i, offset, data, now, calls)
        invariant forall k :: 0 <= k < i ==>
            errs[k] == !FileIO.WriteOk(nodes, replicas[k], data, FileIO.CallAt(calls, k))
      {
        FileIO.WriteOkStays(nodes, replicas, i, offset, data, now, calls);
        var ok := client.PartialWrite(replicas[i], offset, data, now, FileIO.CallAt(calls, i));
        errs[i] := !ok;
      }
    }

    static method CountSuccesses(errs: array<bool>) returns (count: nat)
      ensures count <= errs.Length
      ensures count == errs.Length <==> NoneFailed(errs[..])
    {
      count := 0;
      for i := 0 to errs.Length
        invariant count <= i && (count == i <==> forall k :: 0 <= k < i ==> !errs[k])
      {
        if !errs[i] {
          count := count + 1;
        }
      }
    }

    method WriteAt(data: Bytes, offset: int, now: Time, calls: seq<Call>, resize: Call) returns (n: nat, ok: bool)
      requires client.Valid()
      modifies this, client.mds, client.mds.repr, client.nodes.Values
      ensures client.Valid() && fresh(client.mds.repr - old(client.mds.repr))
      ensures (client.View(), View())
          == FileIO.WriteAt(old(client.View()), old(View()), data, offset, now, calls, resize)
      ensures ok == FileIO.WriteSucceeds(old(client.View()), old(View()), data, offset, calls)
      ensures n == if ok then |data| else 0
    {
      hide MetadataServer.Valid, MetadataServer.View, FileIO.AllWritesOk, FileIO.WriteFirst, FileIO.ResizeCall,
        Client.Stored, NoneFailed;
      if offset < 0 || |replicas| == 0 {
        return 0, false;
      }
      var errs := new bool[|replicas|];
      ghost var stored := client.Stored();
      WriteReplicas(offset, data, now, calls, errs);
      var successCount := CountSuccesses(errs);
      if successCount != |replicas| {
        return 0, false;
      }
      assert FileIO.AllWritesOk(stored, replicas, data, calls) && client.mds.View() == old(client.mds.View());
      Record(offset + |data|, now, resize);
      return |data|, true;
    }

    /** Every replica has the data: the cached size and status, and the size update outside the lock. */
    method Record(newEnd: int, now: Time, resize: Call)
      requires client.Valid()
      modifies this, client.mds, client.mds.repr
      ensures client.Valid() && fresh(client.mds.repr - old(client.mds.repr))
      ensures size == Max(old(size), newEnd)
      ensures status == if old(status) == Pending then Complete else old(status)
      ensures client.mds.View()
           == if newEnd > old(size) then FileIO.ResizeCall(old(client.mds.View()), path, newEnd, now, resize)
               else old(client.mds.View())
    {
      hide MetadataServer.Valid, MetadataServer.View, FileIO.ResizeCall;
      var needUpdate := newEnd > size;
      if needUpdate {
        size := newEnd;
      }
      if status == Pending {
        status := Complete;
      }
      if needUpdate {
        var _ := client.UpdateSize(path, newEnd, now, resize);
      }
    }

    // ----- truncate -----

    /** Cutting or extending goes to the replicas that the server now names under the path. */
    method Truncate(newSize: int, now: Time, calls: seq<Call>, resize: Call) returns (ok: bool)
      requires client.Valid()
      modifies this`size, client.mds, client.mds.repr, client.nodes.Values
      ensures client.Valid() && fresh(client.mds.repr - old(client.mds.repr))
      ensures (client.View(), View())
          == FileIO.TruncateVia(old(client.View()), old(View()), newSize, now, calls, resize)
      ensures ok == FileIO.TruncateSucceeds(old(client.View()), path, newSize, now, calls, resize)
    {
      hide MetadataServer.Valid, MetadataServer.View, FileIO.TruncateAll, FileIO.TruncateSucceeds;
      ok := client.TruncateAndResize(path, newSize, now, calls, resize, []);
      if ok {
        size := newSize;
      }
    }

    // ----- close -----

    method Close(now: Time, complete: Call) returns (ok: bool)
      requires client.Valid()
      modifies client.mds, client.mds.repr
      ensures client.Valid() && fresh(client.mds.repr - old(client.mds.repr))
      ensures client.View() == FileIO.Close(old(client.View()), View(), now, complete)
      ensures ok == FileIO.CloseOk(old(client.View()), View(), now, complete)
    {
      hide MetadataServer.Valid, MetadataServer.View, FileIO.CompleteCall, FileIO.CompleteOk;
      ok := true;
      if status == Pending {
        ok := client.CompleteFile(path, now, complete);
      }
    }
  }
}

/**
A data node: byte files named by virtual paths, with modification times (internal/datanode/datanode.go:110-318).

The clock and disk failures are parameters. Path resolution and the temporary file behind a store are not modelled.
*/
module DataNodes {
  import opened FsTypes
  import opened ByteFiles

  datatype File = File(bytes: Bytes, mtime: Time)

  type Files = map<string, File>

  datatype NodeFile = NodeFile(path: string, modTime: Time)

  /** What the disk does during a call that writes: all of it, an error after the first `wrote` bytes, or an error
      before the file is open. */
  datatype Disk = Works | FailsAfter(wrote: nat) | Unavailable

  datatype DiskResult = Fine | DiskError

  function Content(files: Files, path: string): Bytes {
    if path in files then files[path].bytes else []
  }

  /** The bytes of `data` that reach the disk. */
  function Reaching(data: Bytes, disk: Disk): Bytes {
    if disk.FailsAfter? && disk.wrote < |data| then data[..disk.wrote] else data
  }

  predicate Takes(disk: Disk, data: Bytes) {
    disk != Unavailable && Reaching(data, disk) == data
  }

  // ----- the calls, on values -----

  datatype NodeCall =
    | StoreCall(path: string, content: Bytes, disk: Disk)
    | WriteCall(path: string, offset: int, data: Bytes, disk: Disk)
    | TruncateCall(path: string, size: int)
    | DeleteCall(path: string)

  /** Opening for a write creates the file; its time moves when it is created or bytes are written. */
  function Written(files: Files, path: string, offset: nat, data: Bytes, now: Time): Files {
    if data == [] && path in files then files
    else files[path := File(Overlay(Content(files, path), offset, data), now)]
  }

  /** Cutting or extending moves the file's time when it changes the length. */
  function Truncated(files: Files, path: string, size: nat, now: Time): Files
    requires path in files
  {
    files[path := File(Resize(files[path].bytes, size), if |files[path].bytes| == size then files[path].mtime else now)]
  }

  function AfterCall(files: Files, call: NodeCall, now: Time): Files {
    match call
    case StoreCall(path, content, disk) => if Takes(disk, content) then files[path := File(content, now)] else files
    case WriteCall(path, offset, data, disk) =>
      if disk == Unavailable then files
      else if offset < 0 then Written(files, path, 0, [], now)
      else Written(files, path, offset, Reaching(data, disk), now)
    case TruncateCall(path, size) => if path in files && size >= 0 then Truncated(files, path, size, now) else files
    case DeleteCall(path) => files - {path}
  }

  /** A history of calls, each with the clock reading it took, on a node that starts empty. */
  function AfterCalls(calls: seq<(NodeCall, Time)>): Files {
    if calls == [] then map[]
    else AfterCall(AfterCalls(calls[..|calls|-1]), calls[|calls|-1].0, calls[|calls|-1].1)
  }

  /** The byte operations that a history amounts to for the file at `path`, or none if there is no such file. Failed
      stores, truncations of a missing file and deletes of a missing file amount to nothing. */
  function OpsOn(calls: seq<(NodeCall, Time)>, path: string): Option<seq<FileOp>> {
    if calls == [] then None
    else
      var before, call := OpsOn(calls[..|calls|-1], path), calls[|calls|-1].0;
      var ops := if before.Some? then before.value else [];
      if call.path != path then before
      else
        match call
        case StoreCall(_, content, disk) => if Takes(disk, content) then Some(ops + [Store(content)]) else before
        case WriteCall(_, offset, data, disk) =>
          if disk == Unavailable then before
          else if offset < 0 then Some(ops + [Write(0, [])])
          else Some(ops + [Write(offset, Reaching(data, disk))])
        case TruncateCall(_, size) => if before.Some? && size >= 0 then Some(ops + [Truncate(size)]) else before
        case DeleteCall(_) => None
  }

  /** After any history of calls a file exists exactly when the history says so, and then its length and every byte are
      those of the last operation that decided them. */
  lemma NodeHistoryDecides(calls: seq<(NodeCall, Time)>, path: string, i: nat)
    ensures path in AfterCalls(calls) <==> OpsOn(calls, path).Some?
    ensures OpsOn(calls, path).Some? ==>
      var ops := OpsOn(calls, path).value;
      |AfterCalls(calls)[path].bytes| == LengthOf(ops) && ByteAt(AfterCalls(calls)[path].bytes, i) == LastByte(ops, i)
  {
    CallsAreOps(calls, path);
    if OpsOn(calls, path).Some? {
      HistoryDecides(OpsOn(calls, path).value, i);
    }
  }

  lemma {:induction false} CallsAreOps(calls: seq<(NodeCall, Time)>, path: string)
    ensures path in AfterCalls(calls) <==> OpsOn(calls, path).Some?
    ensures OpsOn(calls, path).Some? ==> AfterCalls(calls)[path].bytes == DoAll(OpsOn(calls, path).value)
  {
    if calls != [] {
      var n := |calls| - 1;
      CallsAreOps(calls[..n], path);
      var before := OpsOn(calls[..n], path);
      var ops := if before.Some? then before.value else [];
      assert forall op :: (ops + [op])[..|ops|] == ops && DoAll(ops + [op]) == Do(DoAll(ops), op);
      CallIsOp(AfterCalls(calls[..n]), calls[n].0, calls[n].1, path, DoAll(ops));
    }
  }

  /** One call changes the file that it names as its byte operation says, and no other file. */
  lemma CallIsOp(files: Files, call: NodeCall, now: Time, path: string, b: Bytes)
    requires Content(files, path) == b
    ensures var after := AfterCall(files, call, now);
      if call.path != path then (path in after <==> path in files) && (path in files ==> after[path] == files[path])
      else
        match call
        case StoreCall(_, content, disk) =>
          if Takes(disk, content) then path in after && after[path].bytes == content else after == files
        case WriteCall(_, offset, data, disk) =>
          if disk == Unavailable then after == files
          else path in after && after[path].bytes == if offset < 0 then b else Overlay(b, offset, Reaching(data, disk))
        case TruncateCall(_, size) =>
          (path in after <==> path in files) && (path in files && size >= 0 ==> after[path].bytes == Resize(b, size))
          && (path !in files || size < 0 ==> after == files)
        case DeleteCall(_) => path !in after
  {
  }

  // ----- the node -----

  predicate OthersKept(before: Files, after: Files, path: string) {
    after - {path} == before - {path}
  }

  class DataNode {
    var files: Files

    constructor ()
      ensures files == map[]
    {
      files := map[];
    }

    /** All or nothing: the content goes to a temporary file first. */
    method StoreData(path: string, content: Bytes, now: Time, disk: Disk) returns (r: DiskResult)
      modifies this
      ensures r == Fine <==> Takes(disk, content)
      ensures r == Fine ==> path in files && files[path].bytes == Do(old(Content(files, path)), Store(content))
      ensures r == Fine ==> files[path].mtime == now
      ensures r != Fine ==> files == old(files)
      ensures OthersKept(old(files), files, path)
      ensures files == AfterCall(old(files), StoreCall(path, content, disk), now)
    {
      if disk == Unavailable {
        return DiskError;
      }
      var tmp := Reaching(content, disk);
      if tmp != content {
        return DiskError;
      }
      files := files[path := File(tmp, now)];
      r := Fine;
    }

    /** Idempotent: a missing file is no error. */
    method DeleteData(path: string)
      modifies this
      ensures files == old(files) - {path}
      ensures forall now :: files == AfterCall(old(files), DeleteCall(path), now)
    {
      if path in files {
        files := files - {path};
      }
    }

    /** A failed write may leave a part behind, or a new empty file. */
    method PartialWrite(path: string, offset: int, data: Bytes, now: Time, disk: Disk) returns (r: DiskResult)
      modifies this
      ensures r == Fine <==> offset >= 0 && Takes(disk, data)
      ensures disk != Unavailable ==> path in files
      ensures disk != Unavailable && offset >= 0
          ==> files[path].bytes == Do(old(Content(files, path)), Write(offset, Reaching(data, disk)))
      ensures disk == Unavailable || offset < 0 ==> Content(files, path) == old(Content(files, path))
      ensures disk != Unavailable ==>
        files[path].mtime == if path !in old(files) || (offset >= 0 && data != [] && disk != FailsAfter(0)) then now
          else old(files)[path].mtime
      ensures OthersKept(old(files), files, path)
      ensures files == AfterCall(old(files), WriteCall(path, offset, data, disk), now)
    {
      if disk == Unavailable {
        return DiskError;
      }
      if path !in files {
        files := files[path := File([], now)];
      }
      if offset < 0 {
        return DiskError;
      }
      var b := files[path].bytes;
      var n := 0;
      var reached := Reaching(data, disk);
      if reached != [] {
        files := files[path := File(Overlay(b, offset, reached), now)];
        n := |reached|;
      }
      r := if n != |data| then DiskError else Fine;
    }

    /** Cutting or extending an existing file. A missing file is an error, whatever the size. */
    method Truncate(path: string, size: int, now: Time) returns (r: DiskResult)
      modifies this
      ensures r == Fine <==> path in old(files) && size >= 0
      ensures r == Fine ==> path in files && files[path].bytes == Do(old(Content(files, path)), FileOp.Truncate(size))
      ensures r == Fine ==>
        files[path].mtime == if |old(files)[path].bytes| == size then old(files)[path].mtime else now
      ensures r != Fine ==> files == old(files)
      ensures OthersKept(old(files), files, path)
      ensures files == AfterCall(old(files), TruncateCall(path, size), now)
    {
      if path !in files || size < 0 {
        return DiskError;
      }
      var f := files[path];
      files := files[path := File(Resize(f.bytes, size), if |f.bytes| == size then f.mtime else now)];
      r := Fine;
    }

    /** A missing file reads as empty, at its end. */
    method RangeRead(path: string, offset: int, length: nat) returns (r: DiskResult, data: Bytes, eof: bool)
      ensures path !in files ==> r == Fine && data == [] && eof
      ensures path in files ==> (r == Fine <==> offset >= 0)
      ensures path in files && offset >= 0 ==> (data, eof) == Slice(files[path].bytes, offset, length)
    {
      if path !in files {
        return Fine, [], true;
      }
      if offset < 0 {
        return DiskError, [], false;
      }
      r := Fine;
      var s := Slice(files[path].bytes, offset, length);
      data, eof := s.0, s.1;
    }

    /** Every file with its time, in some order, each once, except temporary files. A scan that meets an error after
        `failsAfter` files gives no list. */
    method ListAllPaths(failsAfter: Option<nat>) returns (r: DiskResult, list: seq<NodeFile>)
      ensures r == Fine <==> failsAfter == None || failsAfter.value >= |files|
      ensures r == Fine ==> forall nf :: nf in list <==>
          nf.path in files && !IsTemp(nf.path) && files[nf.path].mtime == nf.modTime
      ensures forall i, j :: 0 <= i < j < |list| ==> list[i].path != list[j].path
      ensures r != Fine ==> list == []
    {
      list := [];
      var todo := files.Keys;
      var visited := 0;
      while todo != {}
        invariant todo <= files.Keys && visited + |todo| == |files.Keys|
        invariant failsAfter == None || failsAfter.value >= visited
        invariant forall nf :: nf in list <==>
            nf.path in files && nf.path !in todo && !IsTemp(nf.path) && files[nf.path].mtime == nf.modTime
        invariant forall i, j :: 0 <= i < j < |list| ==> list[i].path != list[j].path
      {
        if failsAfter == Some(visited) {
          return DiskError, [];
        }
        var p :| p in todo;
        todo, visited := todo - {p}, visited + 1;
        if IsTemp(p) {
          continue;
        }
        forall i | 0 <= i < |list|
          ensures list[i].path != p
        {
          assert list[i] in list;
        }
        list := list + [NodeFile(p, files[p].mtime)];
      }
      r := Fine;
    }
  }
}

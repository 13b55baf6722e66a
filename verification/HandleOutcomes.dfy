/**
What each operation of a file handle does, byte by byte and field by field (internal/client/file_handle.go:37-169,
internal/client/client.go:379-588).
*/
module HandleOutcomes {
  import opened Paths
  import opened FsTypes
  import opened Namespace
  import opened History
  import opened ByteFiles
  import opened DataNodes
  import opened Placement
  import opened FileIO
  import opened HandleRuns

  // ----- read -----

  /** The replica can be reached, the call is served and its answer comes back. */
  predicate Responds(nodes: Nodes, r: Replica, call: Call) {
    r.addr in nodes && call == Served
  }

  ghost predicate FirstToRespond(nodes: Nodes, rs: seq<Replica>, calls: seq<Call>, k: nat) {
    && k < |rs| && Responds(nodes, rs[k], CallAt(calls, k))
    && forall i :: 0 <= i < k ==> !Responds(nodes, rs[i], CallAt(calls, i))
  }

  /** The bytes from the offset on, as many as asked for or left; the end is met when fewer than asked for are left. */
  ghost predicate Clipped(b: Bytes, offset: nat, length: nat, data: Bytes, eof: bool) {
    && |data| == (if offset >= |b| then 0 else if offset + length <= |b| then length else |b| - offset)
    && (forall i :: 0 <= i < |data| ==> data[i] == b[offset + i])
    && (eof <==> offset + length > |b|)
  }

  /** A read is answered by the first replica that responds, with the bytes of its file and the end reported exactly
      when it is met; a file that is not there reads as empty. When no replica responds, or the offset is negative, it
      fails. */
  lemma ReadOutcome(d: Deployment, h: Handle, offset: int, length: nat, calls: seq<Call>)
    requires length > 0
    ensures var r := ReadAt(d, h, offset, length, calls);
      && (r == ReadError <==> offset < 0 || forall k: nat :: !FirstToRespond(d.nodes, h.replicas, calls, k))
      && (forall k: nat :: offset >= 0 && FirstToRespond(d.nodes, h.replicas, calls, k) ==>
            r.ReadBytes? && Clipped(Held(d.nodes, h.replicas[k]), offset, length, r.data, r.eof))
      && ((exists k: nat :: FirstToRespond(d.nodes, h.replicas, calls, k)) <==>
            exists i :: 0 <= i < |h.replicas| && Responds(d.nodes, h.replicas[i], CallAt(calls, i)))
  {
    if i :| 0 <= i < |h.replicas| && Responds(d.nodes, h.replicas[i], CallAt(calls, i)) {
      var _ := FirstOf(d.nodes, h.replicas, calls, i);
    }
    if offset >= 0 {
      if forall k: nat :: !FirstToRespond(d.nodes, h.replicas, calls, k) {
        NoneResponds(d.nodes, h.replicas, offset, length, calls, 0);
      }
      forall k: nat | FirstToRespond(d.nodes, h.replicas, calls, k)
        ensures ReadAt(d, h, offset, length, calls).ReadBytes?
        ensures var r := ReadAt(d, h, offset, length, calls);
          Clipped(Held(d.nodes, h.replicas[k]), offset, length, r.data, r.eof)
      {
        FirstResponds(d.nodes, h.replicas, offset, length, calls, 0, k);
        SliceIs(Held(d.nodes, h.replicas[k]), offset, length);
      }
    }
  }

  lemma {:induction false} FirstOf(nodes: Nodes, rs: seq<Replica>, calls: seq<Call>, i: nat) returns (k: nat)
    requires i < |rs| && Responds(nodes, rs[i], CallAt(calls, i))
    ensures FirstToRespond(nodes, rs, calls, k)
  {
    if FirstToRespond(nodes, rs, calls, i) {
      k := i;
    } else {
      var j :| 0 <= j < i && Responds(nodes, rs[j], CallAt(calls, j));
      k := FirstOf(nodes, rs, calls, j);
    }
  }

  lemma {:induction false} FirstResponds(nodes: Nodes, rs: seq<Replica>, offset: nat, length: nat, calls: seq<Call>,
                                         j: nat, k: nat)
    requires j <= k < |rs| && Responds(nodes, rs[k], CallAt(calls, k))
    requires forall i :: j <= i < k ==> !Responds(nodes, rs[i], CallAt(calls, i))
    ensures ReadFrom(nodes, rs, offset, length, calls, j) == AnswerOf(nodes, rs[k], offset, length)
    decreases k - j
  {
    if j < k { FirstResponds(nodes, rs, offset, length, calls, j + 1, k); }
  }

  lemma {:induction false} NoneResponds(nodes: Nodes, rs: seq<Replica>, offset: nat, length: nat, calls: seq<Call>,
                                        j: nat)
    requires j <= |rs| && forall i :: j <= i < |rs| ==> !Responds(nodes, rs[i], CallAt(calls, i))
    ensures ReadFrom(nodes, rs, offset, length, calls, j) == ReadError
    decreases |rs| - j
  {
    if j < |rs| { NoneResponds(nodes, rs, offset, length, calls, j + 1); }
  }

  // ----- write -----

  /** How many bytes of a write reach the replica's disk, if the call reaches its node. */
  function BytesTaken(data: Bytes, call: Call): nat {
    if call.DiskFails? && call.wrote < |data| then call.wrote else |data|
  }

  predicate TakesAll(nodes: Nodes, r: Replica, data: Bytes, call: Call) {
    r.addr in nodes && call != NotServed && call != AnswerLost && BytesTaken(data, call) == |data|
  }

  /** What a write leaves on one replica. */
  ghost predicate WrittenOn(before: Nodes, after: Nodes, r: Replica, offset: nat, data: Bytes, now: Time, call: Call) {
    var b, c, n := Held(before, r), Held(after, r), BytesTaken(data, call);
    if r.addr !in before || call == NotServed then c == b
    else
      && r.remotePath in FilesAt(after, r.addr)
      && |c| == (if n == 0 || offset + n <= |b| then |b| else offset + n)
      && (forall i: nat :: ByteAt(c, i) == if offset <= i < offset + n then data[i - offset] else ByteAt(b, i))
      && FilesAt(after, r.addr)[r.remotePath].mtime
         == (if n > 0 || r.remotePath !in before[r.addr] then now else before[r.addr][r.remotePath].mtime)
  }

  /** A write succeeds exactly when every replica takes all of it. Each replica that the call reaches has what its
      disk took, whether or not the answer came back. Only on success do the cached size and status and the recorded
      size move. */
  lemma WriteOutcome(d: Deployment, h: Handle, data: Bytes, offset: int, now: Time, calls: seq<Call>, resize: Call)
    requires DistinctAddrs(h.replicas)
    ensures var (d', h') := WriteAt(d, h, data, offset, now, calls, resize);
      var ok := WriteSucceeds(d, h, data, offset, calls);
      && (ok <==>
            && offset >= 0 && h.replicas != []
            && forall i :: 0 <= i < |h.replicas| ==> TakesAll(d.nodes, h.replicas[i], data, CallAt(calls, i)))
      && (offset < 0 ==> d' == d)
      && (offset >= 0 ==> forall i :: 0 <= i < |h.replicas| ==>
            WrittenOn(d.nodes, d'.nodes, h.replicas[i], offset, data, now, CallAt(calls, i)))
      && h' == (if !ok then h
                else h.(size := if offset + |data| > h.size then offset + |data| else h.size,
                        status := if h.status == Pending then Complete else h.status))
      && d'.mds == (if ok && offset + |data| > h.size && resize != NotServed && h.path != ""
                    then Apply(d.mds, UpdateSize(h.path, offset + |data|), now).state else d.mds)
  {
    if offset >= 0 && h.replicas != [] {
      forall i | 0 <= i < |h.replicas|
        ensures WriteOk(d.nodes, h.replicas[i], data, CallAt(calls, i)) <==>
          TakesAll(d.nodes, h.replicas[i], data, CallAt(calls, i))
      {
      }
      var after := WriteFirst(d.nodes, h.replicas, |h.replicas|, offset, data, now, calls);
      forall i | 0 <= i < |h.replicas|
        ensures WrittenOn(d.nodes, after, h.replicas[i], offset, data, now, CallAt(calls, i))
      {
        OneWritten(d.nodes, h.replicas, offset, data, now, calls, i);
      }
      hide WrittenOn, WriteFirst, TakesAll, WriteOk, Apply;
    }
  }

  lemma OneWritten(nodes: Nodes, rs: seq<Replica>, offset: nat, data: Bytes, now: Time, calls: seq<Call>, i: nat)
    requires DistinctAddrs(rs) && i < |rs|
    ensures WrittenOn(nodes, WriteFirst(nodes, rs, |rs|, offset, data, now, calls), rs[i], offset, data, now,
        CallAt(calls, i))
  {
    var call, after := CallAt(calls, i), WriteFirst(nodes, rs, |rs|, offset, data, now, calls);
    WriteFirstAt(nodes, rs, |rs|, offset, data, now, calls);
    var b, reached := Held(nodes, rs[i]), Reaching(data, DiskOf(call));
    forall j: nat
      ensures |Overlay(b, offset, reached)| == if reached == [] then |b| else Max(|b|, offset + |reached|)
      ensures ByteAt(Overlay(b, offset, reached), j)
           == if offset <= j < offset + |reached| then reached[j - offset] else ByteAt(b, j)
    {
      OverlayAt(b, offset, reached, j);
    }
    hide Overlay, WriteFirst, ByteAt;
  }

  /** Files that are no replicas of the handle stay as they are, on the same nodes and on others. */
  lemma {:induction false} WriteSpares(nodes: Nodes, rs: seq<Replica>, k: nat, offset: nat, data: Bytes, now: Time,
                                       calls: seq<Call>, addr: string, path: string)
    requires k <= |rs| && Replica(addr, path) !in rs
    ensures var after := WriteFirst(nodes, rs, k, offset, data, now, calls);
      && (path in FilesAt(after, addr) <==> path in FilesAt(nodes, addr))
      && (path in FilesAt(nodes, addr) ==> FilesAt(after, addr)[path] == FilesAt(nodes, addr)[path])
  {
    if k > 0 {
      WriteSpares(nodes, rs, k - 1, offset, data, now, calls, addr, path);
      assert rs[k-1] in rs && (rs[k-1].addr != addr || rs[k-1].remotePath != path);
    }
  }

  // ----- truncate and close -----

  /** What a truncation leaves on one replica. */
  ghost predicate CutOn(before: Nodes, after: Nodes, r: Replica, size: nat, call: Call) {
    var b, c := Held(before, r), Held(after, r);
    if r.addr !in before || call == NotServed || call.DiskFails? || r.remotePath !in before[r.addr] then c == b
    else |c| == size && forall j: nat :: ByteAt(c, j) == if j < size then ByteAt(b, j) else 0
  }

  /** A truncation succeeds exactly when the path names a file, all whose replicas have its data and answer, and the
      size update is served and answered. Replicas that the call reaches are cut or extended in any case; the size is
      recorded once all were; only on success does the cached size move. */
  lemma TruncateOutcome(d: Deployment, h: Handle, size: int, now: Time, calls: seq<Call>, resize: Call)
    requires forall rs :: LocatedReplicas(d.mds, h.path) == Some(rs) ==> DistinctAddrs(rs)
    ensures var (d', h') := TruncateVia(d, h, size, now, calls, resize);
      var p, t := Components(h.path), d.mds.tree;
      var rs := if IsFileAt(t, p) then t[p].replicas else [];
      var cut := size >= 0 && IsFileAt(t, p) && forall i :: 0 <= i < |rs| ==>
        rs[i].addr in d.nodes && CallAt(calls, i) == Served && rs[i].remotePath in d.nodes[rs[i].addr];
      && h' == (if cut && resize == Served && h.path != "" then h.(size := size) else h)
      && d'.mds == (if cut && resize != NotServed && h.path != ""
                    then Apply(d.mds, UpdateSize(h.path, size), now).state else d.mds)
      && (size < 0 ==> d'.nodes == d.nodes)
      && (size >= 0 ==> forall i :: 0 <= i < |rs| ==> CutOn(d.nodes, d'.nodes, rs[i], size, CallAt(calls, i)))
  {
    var p, t := Components(h.path), d.mds.tree;
    if size >= 0 && IsFileAt(t, p) {
      var rs := t[p].replicas;
      assert LocatedReplicas(d.mds, h.path) == Some(rs);
      var after := TruncateFirst(d.nodes, rs, |rs|, size, now, calls);
      forall i | 0 <= i < |rs|
        ensures CutOn(d.nodes, after, rs[i], size, CallAt(calls, i))
      {
        OneCut(d.nodes, rs, size, now, calls, i);
      }
      SizeIsRecorded(d.mds, h.path, size, now, resize);
      hide TruncateFirst, CutOn, Apply, ResizeCall, ResizeOk;
    }
  }

  lemma OneCut(nodes: Nodes, rs: seq<Replica>, size: nat, now: Time, calls: seq<Call>, i: nat)
    requires DistinctAddrs(rs) && i < |rs|
    ensures CutOn(nodes, TruncateFirst(nodes, rs, |rs|, size, now, calls), rs[i], size, CallAt(calls, i))
  {
    HeldAfterTruncate(nodes, rs, size, now, calls, i);
    var b := Held(nodes, rs[i]);
    forall j: nat
      ensures |Resize(b, size)| == size && ByteAt(Resize(b, size), j) == if j < size then ByteAt(b, j) else 0
    {
      ResizeAt(b, size, j);
    }
    hide Held, TruncateFirst, Resize, ByteAt;
  }

  /** The size update of a path that names a file. */
  lemma SizeIsRecorded(s: State, path: string, size: nat, now: Time, resize: Call)
    requires IsFileAt(s.tree, Components(path))
    ensures ResizeOk(s, path, size, now, resize) <==> resize == Served && path != ""
    ensures ResizeCall(s, path, size, now, resize)
         == if resize != NotServed && path != "" then Apply(s, UpdateSize(path, size), now).state else s
  {
  }

  /** Close asks for the completion exactly when the handle believes the file pending, and touches no data. */
  lemma CloseOutcome(d: Deployment, h: Handle, now: Time, complete: Call)
    ensures var d' := Close(d, h, now, complete);
      && d'.nodes == d.nodes
      && d'.mds == (if h.status == Pending && complete != NotServed
                    then Apply(d.mds, CompleteFile(h.path), now).state else d.mds)
      && (CloseOk(d, h, now, complete) <==>
            h.status != Pending || (complete == Served && IsFileAt(d.mds.tree, Components(h.path))))
  {
  }

  // ----- open -----

  /** Opening a file that is there, without truncation: a handle that agrees with the record, and nothing changes. */
  lemma PlainOpen(d: Deployment, path: string, flags: Flags, fileID: string, now: Time, calls: seq<Call>, g: OpenFates)
    requires WellFormed(d.mds.tree) && IsFileAt(d.mds.tree, Components(path)) && Components(path) != []
    requires !flags.trunc && !flags.excl
    requires SparesPath(g.afterStat, Components(path)) && SparesPath(g.beforeLocation, Components(path))
    ensures var (d', r) := OpenAt(d, path, flags, fileID, now, calls, g);
      var m := d.mds.tree[Components(path)];
      && d'.nodes == d.nodes
      && (r.Opened? <==> g.stat && g.location)
      && (r.Opened? ==> r.h == Handle(path, m.fileID, m.replicas, m.size, m.status))
      && (r.Opened? ==> d'.mds == Run(Run(d.mds, g.afterStat), g.beforeLocation))
  {
    SparedFileStays(d.mds, g.afterStat, Components(path));
    SparedFileStays(Run(d.mds, g.afterStat), g.beforeLocation, Components(path));
    hide Run, WellFormed, Components;
  }

  /** The other answers to a first look at the path; none of them changes anything. */
  lemma OpenRefusals(d: Deployment, path: string, flags: Flags, fileID: string, now: Time, calls: seq<Call>,
                     g: OpenFates)
    ensures var (d', r) := OpenAt(d, path, flags, fileID, now, calls, g);
      var t, p := d.mds.tree, Components(path);
      && (r == StatFailed <==> !g.stat)
      && (r == NoSuchFile <==> g.stat && p !in t && !flags.creat)
      && (r == FileExists <==> g.stat && p in t && flags.excl)
      && (r == OpenedDirectory <==> g.stat && IsDirAt(t, p) && !flags.excl)
      && (r in {StatFailed, NoSuchFile, FileExists, OpenedDirectory} ==> d' == d)
      && (r in {CreateFailed} ==> g.stat && p !in t && flags.creat)
      && (r == TruncateFailed ==> g.stat && IsFileAt(t, p) && flags.trunc && !flags.excl)
  {
    hide CreateService, TruncateAll, TruncateSucceeds, Run, Components;
  }

  /** A creating open fails exactly when its create is not served, not answered or refused, or the file is not found
      afterwards; what was created stays. */
  lemma CreatingOpen(d: Deployment, path: string, flags: Flags, fileID: string, now: Time, calls: seq<Call>,
                     g: OpenFates)
    requires g.stat && Components(path) !in d.mds.tree && flags.creat
    ensures var (d', r) := OpenAt(d, path, flags, fileID, now, calls, g);
      var s := Run(d.mds, g.afterStat);
      var (u, reply) := CreateService(s, path, 0, CreateIfNotExist, fileID, g.afterCheck, now);
      && d'.nodes == d.nodes
      && (r == CreateFailed <==> g.create != Served || !reply.Created?)
      && (r == CreateFailed ==> d'.mds == if g.create == NotServed then s else u)
      && (r != CreateFailed ==> d'.mds == Run(u, g.beforeLocation) && (r.Opened? || r == LocationFailed))
  {
    hide CreateService, Run, Components;
  }
}

/**
One open handle over whole runs of writes and truncations, with reads and close at any point of them, among foreign
commands and foreign changes on the data nodes, and with arbitrary failures of the handle's own calls
(internal/client/file_handle.go).
*/
module HandleRuns {
  import opened Paths
  import opened FsTypes
  import opened Namespace
  import opened ByteFiles
  import opened DataNodes
  import opened FileIO
  import opened History
  import opened Identity
  import opened Placement

  // ----- what one write leaves on the replicas -----

  lemma HeldAfterWrite(nodes: Nodes, rs: seq<Replica>, offset: nat, data: Bytes, now: Time, calls: seq<Call>, i: nat)
    requires DistinctAddrs(rs) && i < |rs|
    ensures Held(WriteFirst(nodes, rs, |rs|, offset, data, now, calls), rs[i]) ==
      if Reached(nodes, rs[i], CallAt(calls, i))
      then Overlay(Held(nodes, rs[i]), offset, Reaching(data, DiskOf(CallAt(calls, i)))) else Held(nodes, rs[i])
  {
    WriteFirstAt(nodes, rs, |rs|, offset, data, now, calls);
  }

  /** The call reaches the file and changes its length. */
  predicate Cuts(nodes: Nodes, r: Replica, call: Call) {
    Reached(nodes, r, call) && !call.DiskFails? && r.remotePath in nodes[r.addr]
  }

  lemma HeldAfterTruncate(nodes: Nodes, rs: seq<Replica>, size: nat, now: Time, calls: seq<Call>, i: nat)
    requires DistinctAddrs(rs) && i < |rs|
    ensures Held(TruncateFirst(nodes, rs, |rs|, size, now, calls), rs[i])
         == if Cuts(nodes, rs[i], CallAt(calls, i)) then Resize(Held(nodes, rs[i]), size) else Held(nodes, rs[i])
  {
    TruncateFirstAt(nodes, rs, |rs|, size, now, calls);
  }

  /** A replica that is not asked is not changed, even on a node that is. */
  lemma {:induction false} TruncateSpares(nodes: Nodes, rs: seq<Replica>, k: nat, size: nat, now: Time,
                                          calls: seq<Call>, r: Replica)
    requires k <= |rs| && r !in rs
    ensures Held(TruncateFirst(nodes, rs, k, size, now, calls), r) == Held(nodes, r)
  {
    if k > 0 {
      TruncateSpares(nodes, rs, k - 1, size, now, calls, r);
      assert rs[k-1] in rs && (rs[k-1].addr != r.addr || rs[k-1].remotePath != r.remotePath);
    }
  }

  // ----- metadata never runs ahead of data -----

  /** Recorded size, cached size, and every replica's physical length are in order. */
  ghost predicate SizesOrdered(d: Deployment, h: Handle) {
    && IsFileAt(d.mds.tree, Components(h.path)) && Components(h.path) != []
    && d.mds.tree[Components(h.path)].size <= h.size
    && 0 <= h.size
    && forall i :: 0 <= i < |h.replicas| ==> h.size <= |Held(d.nodes, h.replicas[i])|
  }

  lemma NonEmptyPath(path: string)
    requires Components(path) != []
    ensures path != ""
  {
  }

  /** Not an empty write, taken by all replicas, past the end of one of them: such a write raises the sizes but no
      file. */
  predicate WriteIsOrderly(d: Deployment, h: Handle, data: Bytes, offset: int, calls: seq<Call>) {
    WriteSucceeds(d, h, data, offset, calls) && data == [] ==>
      forall i :: 0 <= i < |h.replicas| ==> offset <= |Held(d.nodes, h.replicas[i])|
  }

  lemma WriteKeepsOrder(d: Deployment, h: Handle, data: Bytes, offset: int, now: Time, calls: seq<Call>, resize: Call)
    requires SizesOrdered(d, h) && DistinctAddrs(h.replicas)
    ensures var (d', h') := WriteAt(d, h, data, offset, now, calls, resize);
      SizesOrdered(d', h') <==> WriteIsOrderly(d, h, data, offset, calls)
  {
    if offset >= 0 && h.replicas != [] {
      hide Held, WriteFirst, AllWritesOk;
      NonEmptyPath(h.path);
      var after := WriteFirst(d.nodes, h.replicas, |h.replicas|, offset, data, now, calls);
      var ok := AllWritesOk(d.nodes, h.replicas, data, calls);
      forall i | 0 <= i < |h.replicas|
        ensures LengthsAfterWrite(ok, |Held(d.nodes, h.replicas[i])|, |Held(after, h.replicas[i])|, offset, data)
      {
        WriteGrows(d.nodes, h.replicas, offset, data, now, calls, i);
      }
    }
  }

  predicate LengthsAfterWrite(ok: bool, before: nat, after: nat, offset: nat, data: Bytes) {
    before <= after && (ok ==> after == if data == [] then before else Max(before, offset + |data|))
  }

  lemma WriteGrows(nodes: Nodes, rs: seq<Replica>, offset: nat, data: Bytes, now: Time, calls: seq<Call>, i: nat)
    requires DistinctAddrs(rs) && i < |rs|
    ensures LengthsAfterWrite(AllWritesOk(nodes, rs, data, calls), |Held(nodes, rs[i])|,
              |Held(WriteFirst(nodes, rs, |rs|, offset, data, now, calls), rs[i])|, offset, data)
  {
    hide Held, WriteFirst;
    HeldAfterWrite(nodes, rs, offset, data, now, calls, i);
    OverlayAt(Held(nodes, rs[i]), offset, Reaching(data, DiskOf(CallAt(calls, i))), 0);
    assert AllWritesOk(nodes, rs, data, calls) ==> WriteOk(nodes, rs[i], data, CallAt(calls, i));
  }

  /** The exact condition under which a truncation keeps the sizes in order, whatever fates its calls have: all of it is
      served and answered; or no replica that is cut loses bytes of the cached size, and no size update whose answer is
      lost raises the record above the cached size. */
  predicate TruncationIsOrderly(d: Deployment, h: Handle, size: int, calls: seq<Call>, resize: Call) {
    var all := AllTruncatesOk(d.nodes, h.replicas, calls);
    || size < 0
    || (all && resize == Served)
    || (&& (forall i :: 0 <= i < |h.replicas| && Cuts(d.nodes, h.replicas[i], CallAt(calls, i)) ==> h.size <= size)
        && (all && resize != NotServed ==> size <= h.size))
  }

  lemma TruncateKeepsOrder(d: Deployment, h: Handle, size: int, now: Time, calls: seq<Call>, resize: Call)
    requires SizesOrdered(d, h) && DistinctAddrs(h.replicas) && LocatedReplicas(d.mds, h.path) == Some(h.replicas)
    ensures var (d', h') := TruncateVia(d, h, size, now, calls, resize);
      SizesOrdered(d', h') <==> TruncationIsOrderly(d, h, size, calls, resize)
  {
    if size >= 0 {
      var rs := h.replicas;
      var after := TruncateFirst(d.nodes, rs, |rs|, size, now, calls);
      NonEmptyPath(h.path);
      forall i | 0 <= i < |rs|
        ensures |Held(after, rs[i])| == if Cuts(d.nodes, rs[i], CallAt(calls, i)) then size else |Held(d.nodes, rs[i])|
        ensures AllTruncatesOk(d.nodes, rs, calls) ==> Cuts(d.nodes, rs[i], CallAt(calls, i))
      {
        CutLength(d.nodes, rs, size, now, calls, i);
      }
      hide Held, TruncateFirst, AllTruncatesOk, Cuts;
    }
  }

  lemma CutLength(nodes: Nodes, rs: seq<Replica>, size: nat, now: Time, calls: seq<Call>, i: nat)
    requires DistinctAddrs(rs) && i < |rs|
    ensures |Held(TruncateFirst(nodes, rs, |rs|, size, now, calls), rs[i])|
         == if Cuts(nodes, rs[i], CallAt(calls, i)) then size else |Held(nodes, rs[i])|
    ensures AllTruncatesOk(nodes, rs, calls) ==> Cuts(nodes, rs[i], CallAt(calls, i))
  {
    HeldAfterTruncate(nodes, rs, size, now, calls, i);
    ResizeAt(Held(nodes, rs[i]), size, 0);
    assert AllTruncatesOk(nodes, rs, calls) ==> TruncateOk(nodes, rs[i], CallAt(calls, i));
  }

  // ----- the path that a handle keeps -----

  /** The size update goes to the path, not to the file: the record of the handle's own file, wherever it now is, moves
      exactly when the path still names it and the update is served. */
  lemma ResizeFollowsThePath(d: Deployment, h: Handle, data: Bytes, offset: int, now: Time, calls: seq<Call>,
                             resize: Call, q: Path)
    requires WriteSucceeds(d, h, data, offset, calls) && offset + |data| > h.size
    requires IsFileAt(d.mds.tree, q) && d.mds.tree[q].fileID == h.fileID && d.mds.tree[q].size <= h.size
    requires h.path != ""
    ensures var (d', h') := WriteAt(d, h, data, offset, now, calls, resize);
      && IsFileAt(d'.mds.tree, q)
      && (d'.mds.tree[q].size == h'.size <==> q == Components(h.path) && resize != NotServed)
      && (q != Components(h.path) ==> d'.mds.tree[q] == d.mds.tree[q])
      && (IsFileAt(d.mds.tree, Components(h.path)) && resize != NotServed
          ==> d'.mds.tree[Components(h.path)].size == h'.size)
  {
  }

  /** Truncation goes to the path with both data and metadata. While the path names the handle's own file, that file
      is cut; when it names another, the other file's data and record are cut, and the handle's own file keeps every
      byte. */
  lemma TruncateFollowsThePath(d: Deployment, h: Handle, size: int, now: Time, calls: seq<Call>, resize: Call, q: Path)
    requires TreeCoherent(d.mds.tree) && UniqueIDs(d.mds.tree)
    requires IsFileAt(d.mds.tree, q) && d.mds.tree[q].fileID == h.fileID && d.mds.tree[q].replicas == h.replicas
    requires TruncateSucceeds(d, h.path, size, now, calls, resize)
    ensures var (d', h') := TruncateVia(d, h, size, now, calls, resize);
      var p, rs := Components(h.path), LocatedReplicas(d.mds, h.path).value;
      && IsFileAt(d'.mds.tree, p) && d'.mds.tree[p].size == h'.size == size
      && (forall i :: 0 <= i < |rs| ==> Held(d'.nodes, rs[i]) == Resize(Held(d.nodes, rs[i]), size))
      && (if q == p then rs == h.replicas
          else
            && IsFileAt(d'.mds.tree, q) && d'.mds.tree[q] == d.mds.tree[q]
            && forall i :: 0 <= i < |h.replicas| ==> Held(d'.nodes, h.replicas[i]) == Held(d.nodes, h.replicas[i]))
  {
    var p, rs := Components(h.path), LocatedReplicas(d.mds, h.path).value;
    assert IsFileAt(d.mds.tree, p) && Coherent(d.mds.tree[p].fileID, rs) && Coherent(h.fileID, h.replicas);
    forall i | 0 <= i < |rs|
      ensures Held(TruncateFirst(d.nodes, rs, |rs|, size, now, calls), rs[i]) == Resize(Held(d.nodes, rs[i]), size)
    {
      HeldAfterTruncate(d.nodes, rs, size, now, calls, i);
      assert TruncateOk(d.nodes, rs[i], CallAt(calls, i));
    }
    if q != p {
      forall i | 0 <= i < |h.replicas|
        ensures Held(TruncateFirst(d.nodes, rs, |rs|, size, now, calls), h.replicas[i]) == Held(d.nodes, h.replicas[i])
      {
        OthersReplica(d.mds.tree[p].fileID, rs, h.fileID, h.replicas, i);
        TruncateSpares(d.nodes, rs, |rs|, size, now, calls, h.replicas[i]);
      }
    }
  }

  lemma OthersReplica(a: string, rs: seq<Replica>, b: string, qs: seq<Replica>, i: nat)
    requires Coherent(a, rs) && Coherent(b, qs) && a != b && i < |qs|
    ensures qs[i] !in rs
  {
    if qs[i] in rs {
      var k :| 0 <= k < |rs| && rs[k] == qs[i];
      RemotePathInjective(a, b);
    }
  }

  // ----- foreign activity -----

  /** The command does not touch the file at `p`: no overwrite, resize, completion, removal or replacement of it. */
  predicate LeavesAlone(c: Command, p: Path) {
    match c
    case CreateFile(path, _, _, createMode, _) => Components(path) != p || createMode == CreateIfNotExist
    case CompleteFile(path) => Components(path) != p
    case UpdateSize(path, _) => Components(path) != p
    case Delete(path) => !Below(Components(path), p)
    case Rename(path, dstPath) => !Below(Components(path), p) && Components(dstPath) != p
    case _ => true
  }

  lemma ForeignKeepsFile(s: State, c: Command, now: Time, p: Path)
    requires WellFormed(s.tree) && IsFileAt(s.tree, p) && p != [] && LeavesAlone(c, p)
    ensures var t := Apply(s, c, now).state.tree; WellFormed(t) && IsFileAt(t, p) && t[p] == s.tree[p]
  {
    ApplyKeepsTree(s, c, now);
    match c
    case Rename(path, dstPath) => ForeignRename(s.tree, Components(path), Components(dstPath), now, p);
    case Mkdir(path) => ForeignMkdir(s.tree, Components(path), now, p);
    case CreateFile(path, size, replicas, createMode, id) =>
      ForeignCreate(s.tree, Components(path), size, replicas, createMode, id, now, p);
    case Delete(path) => ForeignDelete(s.tree, Components(path), now, p);
    case _ =>
  }

  lemma ForeignRename(t: Tree, src: Path, dst: Path, now: Time, p: Path)
    requires WellFormed(t) && IsFileAt(t, p) && p != [] && !Below(src, p) && dst != p
    ensures var r := RenameIn(t, src, dst, now).0; IsFileAt(r, p) && r[p] == t[p]
  {
    if RenameIn(t, src, dst, now).1 == Done {
      RenamedAt(t, src, dst, now, p);
      if Below(dst, p) { PrefixIsDir(t, dst, p); }
    }
  }

  lemma ForeignMkdir(t: Tree, q: Path, now: Time, p: Path)
    requires WellFormed(t) && IsFileAt(t, p)
    ensures var r := MkdirIn(t, q, now).0; IsFileAt(r, p) && r[p] == t[p]
  {
    if FileLevel(t, q) == None && Below(p, q) {
      NoFileAbove(t, q, p);
    }
  }

  lemma ForeignCreate(t: Tree, q: Path, size: int, replicas: seq<Replica>, createMode: CreateMode, id: string,
                      now: Time, p: Path)
    requires IsFileAt(t, p) && (q != p || createMode == CreateIfNotExist)
    ensures var r := CreateIn(t, q, size, replicas, createMode, id, now).0; IsFileAt(r, p) && r[p] == t[p]
  {
  }

  lemma ForeignDelete(t: Tree, q: Path, now: Time, p: Path)
    requires IsFileAt(t, p) && !Below(q, p)
    ensures var r := DeleteIn(t, q, now).0; IsFileAt(r, p) && r[p] == t[p]
  {
  }

  // ----- runs -----

  datatype Op =
    | DoWrite(data: Bytes, offset: int, at: Time, calls: seq<Call>, resize: Call)
    | DoTruncate(size: int, at: Time, calls: seq<Call>, resize: Call)
    | ForeignCommand(cmd: Command, at: Time)
    | ForeignNodes(nodes: Nodes)

  function Perform(d: Deployment, h: Handle, op: Op): (Deployment, Handle) {
    match op
    case DoWrite(data, offset, at, calls, resize) => WriteAt(d, h, data, offset, at, calls, resize)
    case DoTruncate(size, at, calls, resize) => TruncateVia(d, h, size, at, calls, resize)
    case ForeignCommand(cmd, at) => (d.(mds := Apply(d.mds, cmd, at).state), h)
    case ForeignNodes(nodes) => (d.(nodes := nodes), h)
  }

  /** Foreign commands leave the file alone, and foreign changes on the data nodes its replicas. */
  ghost predicate Allowed(d: Deployment, h: Handle, op: Op) {
    match op
    case ForeignCommand(cmd, _) => LeavesAlone(cmd, Components(h.path))
    case ForeignNodes(nodes) => SameReplicas(d.nodes, nodes, h.replicas)
    case _ => true
  }

  /** The handle's own operations meet their conditions. */
  ghost predicate Orderly(d: Deployment, h: Handle, op: Op) {
    match op
    case DoWrite(data, offset, _, calls, _) => WriteIsOrderly(d, h, data, offset, calls)
    case DoTruncate(size, _, calls, resize) => TruncationIsOrderly(d, h, size, calls, resize)
    case _ => true
  }

  ghost predicate SameReplicas(a: Nodes, b: Nodes, rs: seq<Replica>) {
    forall i :: 0 <= i < |rs| ==>
      (rs[i].addr in a <==> rs[i].addr in b)
        && (rs[i].remotePath in FilesAt(a, rs[i].addr) <==> rs[i].remotePath in FilesAt(b, rs[i].addr))
      && Held(a, rs[i]) == Held(b, rs[i])
  }

  function PerformAll(d: Deployment, h: Handle, ops: seq<Op>): (Deployment, Handle) {
    if ops == [] then (d, h)
    else var (d1, h1) := PerformAll(d, h, ops[..|ops|-1]); Perform(d1, h1, ops[|ops|-1])
  }

  ghost predicate AllAllowed(d: Deployment, h: Handle, ops: seq<Op>) {
    forall i :: 0 <= i < |ops| ==> Allowed(PerformAll(d, h, ops[..i]).0, PerformAll(d, h, ops[..i]).1, ops[i])
  }

  lemma AllowedPrefix(d: Deployment, h: Handle, ops: seq<Op>)
    requires AllAllowed(d, h, ops) && ops != []
    ensures AllAllowed(d, h, ops[..|ops|-1])
    ensures Allowed(PerformAll(d, h, ops[..|ops|-1]).0, PerformAll(d, h, ops[..|ops|-1]).1, ops[|ops|-1])
  {
    var pre := ops[..|ops|-1];
    assert forall i :: 0 <= i < |pre| ==> pre[..i] == ops[..i];
  }

  ghost predicate NamesFile(t: Tree, h: Handle) {
    WellFormed(t) && Components(h.path) != [] && IsFileAt(t, Components(h.path))
  }

  /** No operation changes more than the size and time of the record that the handle's path names, and none what the
      handle names. */
  lemma OpMetadata(d: Deployment, h: Handle, op: Op)
    requires NamesFile(d.mds.tree, h) && Allowed(d, h, op)
    ensures var (d', h') := Perform(d, h, op);
      var t, t', p := d.mds.tree, d'.mds.tree, Components(h.path);
      && NamesFile(t', h') && t'[p].(size := t[p].size, modTime := t[p].modTime) == t[p]
      && h'.path == h.path && h'.replicas == h.replicas && h'.fileID == h.fileID
      && h'.status == (if op.DoWrite? && WriteSucceeds(d, h, op.data, op.offset, op.calls) && h.status == Pending
          then Complete else h.status)
  {
    hide WellFormed, Namespace.Apply, ResizeCall, LeavesAlone;
    match op
    case DoWrite(data, offset, at, calls, resize) => ResizeMetadata(d.mds, h.path, offset + |data|, at, resize);
    case DoTruncate(size, at, calls, resize) => ResizeMetadata(d.mds, h.path, size, at, resize);
    case ForeignCommand(cmd, at) => ForeignKeepsFile(d.mds, cmd, at, Components(h.path));
    case ForeignNodes(nodes) =>
  }

  lemma ResizeMetadata(s: State, path: string, size: int, now: Time, call: Call)
    requires WellFormed(s.tree) && IsFileAt(s.tree, Components(path))
    ensures var t, t', p := s.tree, ResizeCall(s, path, size, now, call).tree, Components(path);
      WellFormed(t') && IsFileAt(t', p) && t'[p].(size := t[p].size, modTime := t[p].modTime) == t[p]
  {
    UpdateWellFormed(s.tree, Components(path), size, now);
    hide WellFormed;
  }

  /** The state before the `i`-th operation, or after all of them. */
  function StateAt(d: Deployment, h: Handle, ops: seq<Op>, i: nat): (Deployment, Handle)
    requires i <= |ops|
  {
    PerformAll(d, h, ops[..i])
  }

  lemma StateStep(d: Deployment, h: Handle, ops: seq<Op>, i: nat)
    requires i < |ops|
    ensures StateAt(d, h, ops, i + 1) == Perform(StateAt(d, h, ops, i).0, StateAt(d, h, ops, i).1, ops[i])
  {
    assert ops[..i+1][..i] == ops[..i];
  }

  lemma {:induction false} NamesFileOnRun(d: Deployment, h: Handle, ops: seq<Op>, i: nat)
    requires NamesFile(d.mds.tree, h) && LocatedReplicas(d.mds, h.path) == Some(h.replicas) && AllAllowed(d, h, ops)
        && i <= |ops|
    ensures var (d', h') := StateAt(d, h, ops, i);
      NamesFile(d'.mds.tree, h') && LocatedReplicas(d'.mds, h'.path) == Some(h'.replicas) && h'.path == h.path
        && h'.replicas == h.replicas
  {
    if i > 0 {
      NamesFileOnRun(d, h, ops, i - 1);
      StateStep(d, h, ops, i - 1);
      var (d1, h1) := StateAt(d, h, ops, i - 1);
      OpMetadata(d1, h1, ops[i-1]);
    }
  }

  lemma OpKeepsOrder(d: Deployment, h: Handle, op: Op)
    requires WellFormed(d.mds.tree) && SizesOrdered(d, h) && DistinctAddrs(h.replicas) && Allowed(d, h, op)
    requires LocatedReplicas(d.mds, h.path) == Some(h.replicas)
    ensures var (d', h') := Perform(d, h, op); SizesOrdered(d', h') <==> Orderly(d, h, op)
  {
    hide WriteIsOrderly, TruncationIsOrderly, LeavesAlone;
    match op
    case DoWrite(data, offset, at, calls, resize) => WriteKeepsOrder(d, h, data, offset, at, calls, resize);
    case DoTruncate(size, at, calls, resize) => TruncateKeepsOrder(d, h, size, at, calls, resize);
    case ForeignCommand(cmd, at) => ForeignKeepsFile(d.mds, cmd, at, Components(h.path));
    case ForeignNodes(nodes) =>
  }

  /** Over a run, with any failures: recorded size <= cached size <= every replica's length at every point, exactly when
      every write and truncation of the run meets its condition. */
  lemma MetadataNeverAhead(d: Deployment, h: Handle, ops: seq<Op>)
    requires WellFormed(d.mds.tree) && SizesOrdered(d, h) && DistinctAddrs(h.replicas) && AllAllowed(d, h, ops)
    requires LocatedReplicas(d.mds, h.path) == Some(h.replicas)
    ensures (forall i :: 0 <= i <= |ops| ==> OrderedAt(d, h, ops, i))
        <==> (forall i :: 0 <= i < |ops| ==> OrderlyAt(d, h, ops, i))
  {
    forall i | 0 <= i < |ops| && OrderedAt(d, h, ops, i)
      ensures OrderedAt(d, h, ops, i + 1) <==> OrderlyAt(d, h, ops, i)
    {
      OrderStep(d, h, ops, i);
    }
    assert ops[..0] == [] && OrderedAt(d, h, ops, 0);
    hide SizesOrdered, OrderedAt, OrderlyAt, AllAllowed;
    if forall i :: 0 <= i < |ops| ==> OrderlyAt(d, h, ops, i) {
      for i := 0 to |ops|
        invariant forall k :: 0 <= k <= i ==> OrderedAt(d, h, ops, k)
      {
        assert OrderlyAt(d, h, ops, i);
        assert OrderedAt(d, h, ops, i + 1);
      }
    } else {
      var i :| 0 <= i < |ops| && !OrderlyAt(d, h, ops, i);
      assert !OrderedAt(d, h, ops, i) || !OrderedAt(d, h, ops, i + 1);
    }
  }

  ghost predicate OrderedAt(d: Deployment, h: Handle, ops: seq<Op>, i: nat)
    requires i <= |ops|
  {
    var (d', h') := StateAt(d, h, ops, i); SizesOrdered(d', h')
  }

  ghost predicate OrderlyAt(d: Deployment, h: Handle, ops: seq<Op>, i: nat)
    requires i < |ops|
  {
    var (d', h') := StateAt(d, h, ops, i); Orderly(d', h', ops[i])
  }

  lemma OrderStep(d: Deployment, h: Handle, ops: seq<Op>, i: nat)
    requires WellFormed(d.mds.tree) && SizesOrdered(d, h) && DistinctAddrs(h.replicas) && AllAllowed(d, h, ops)
    requires LocatedReplicas(d.mds, h.path) == Some(h.replicas) && i < |ops| && OrderedAt(d, h, ops, i)
    ensures OrderedAt(d, h, ops, i + 1) <==> OrderlyAt(d, h, ops, i)
  {
    NamesFileOnRun(d, h, ops, i);
    StateStep(d, h, ops, i);
    var (d', h') := StateAt(d, h, ops, i);
    assert Allowed(d', h', ops[i]);
    OpKeepsOrder(d', h', ops[i]);
  }

  // ----- pending and complete -----

  /** Some write of the run succeeded. */
  ghost predicate WroteSomething(d: Deployment, h: Handle, ops: seq<Op>) {
    exists i :: 0 <= i < |ops| && ops[i].DoWrite?
      && WriteSucceeds(PerformAll(d, h, ops[..i]).0, PerformAll(d, h, ops[..i]).1, ops[i].data, ops[i].offset,
          ops[i].calls)
  }

  lemma {:induction false} StatusOnRun(d: Deployment, h: Handle, ops: seq<Op>)
    requires NamesFile(d.mds.tree, h)
    requires h.status == Pending && d.mds.tree[Components(h.path)].status == Pending && AllAllowed(d, h, ops)
    ensures var (d', h') := PerformAll(d, h, ops);
      && NamesFile(d'.mds.tree, h') && h'.path == h.path
      && d'.mds.tree[Components(h.path)].status == Pending
      && h'.status == if WroteSomething(d, h, ops) then Complete else Pending
  {
    if ops != [] {
      var n := |ops| - 1;
      AllowedPrefix(d, h, ops);
      StatusOnRun(d, h, ops[..n]);
      var (d1, h1) := PerformAll(d, h, ops[..n]);
      WroteStep(d, h, ops);
      OpMetadata(d1, h1, ops[n]);
      hide NamesFile, WellFormed, AllAllowed, Allowed, Perform;
    }
  }

  lemma WroteStep(d: Deployment, h: Handle, ops: seq<Op>)
    requires ops != []
    ensures var n := |ops| - 1;
      WroteSomething(d, h, ops) <==>
        WroteSomething(d, h, ops[..n])
        || (ops[n].DoWrite? && WriteSucceeds(PerformAll(d, h, ops[..n]).0, PerformAll(d, h, ops[..n]).1, ops[n].data,
            ops[n].offset, ops[n].calls))
  {
    var n := |ops| - 1;
    assert forall i :: 0 <= i < n ==> ops[..n][..i] == ops[..i] && ops[..n][i] == ops[i];
  }

  /** A new file that is written and closed stays pending in the metadata: closing completes it exactly when no write of
      the handle succeeded and the call is served, because a write marks the handle complete without telling the server.
      After a write, closing asks for nothing and cannot fail. */
  lemma CloseCompletesOnlyUnwritten(d: Deployment, h: Handle, ops: seq<Op>, now: Time, complete: Call)
    requires NamesFile(d.mds.tree, h)
    requires h.status == Pending && d.mds.tree[Components(h.path)].status == Pending && AllAllowed(d, h, ops)
    ensures var (d', h') := PerformAll(d, h, ops);
      var wrote, after := WroteSomething(d, h, ops), Close(d', h', now, complete).mds.tree;
      && (CloseOk(d', h', now, complete) <==> wrote || complete == Served)
      && IsFileAt(after, Components(h.path))
      && after[Components(h.path)].status == if !wrote && complete != NotServed then Complete else Pending
  {
    StatusOnRun(d, h, ops);
    hide PerformAll, AllAllowed, WroteSomething, WellFormed;
  }

  // ----- read after write -----

  /** No write or truncation through the handle, and foreign changes on the data nodes keep its replicas. Foreign
      commands are free: the path may be renamed, deleted or taken by another file. */
  ghost predicate Undisturbed(d: Deployment, h: Handle, ops: seq<Op>) {
    forall i :: 0 <= i < |ops| ==>
      !ops[i].DoWrite? && !ops[i].DoTruncate?
        && (ops[i].ForeignNodes? ==> SameReplicas(PerformAll(d, h, ops[..i]).0.nodes, ops[i].nodes, h.replicas))
  }

  lemma {:induction false} QuietRun(d: Deployment, h: Handle, ops: seq<Op>)
    requires Undisturbed(d, h, ops)
    ensures PerformAll(d, h, ops).1 == h && SameReplicas(d.nodes, PerformAll(d, h, ops).0.nodes, h.replicas)
  {
    if ops != [] {
      var pre := ops[..|ops|-1];
      assert forall i :: 0 <= i < |pre| ==> pre[..i] == ops[..i] && pre[i] == ops[i];
      QuietRun(d, h, pre);
    }
  }

  /** After a successful write, and through any foreign activity, a read of the written range returns exactly the
      written bytes whichever replica answers first, whatever the replicas held before. */
  lemma ReadAfterWrite(d: Deployment, h: Handle, data: Bytes, offset: nat, now: Time, calls: seq<Call>, resize: Call,
                       ops: seq<Op>, readCalls: seq<Call>)
    requires DistinctAddrs(h.replicas) && WriteSucceeds(d, h, data, offset, calls)
    requires var (d1, h1) := WriteAt(d, h, data, offset, now, calls, resize); Undisturbed(d1, h1, ops)
    ensures var (d1, h1) := WriteAt(d, h, data, offset, now, calls, resize);
      var (d2, h2) := PerformAll(d1, h1, ops);
      ReadAt(d2, h2, offset, |data|, readCalls)
      == if exists i :: 0 <= i < |h.replicas| && Answers(d2.nodes, h.replicas[i], CallAt(readCalls, i))
         then ReadBytes(data, false) else ReadError
  {
    var (d1, h1) := WriteAt(d, h, data, offset, now, calls, resize);
    QuietRun(d1, h1, ops);
    var (d2, h2) := PerformAll(d1, h1, ops);
    forall i | 0 <= i < |h.replicas|
      ensures AnswerOf(d2.nodes, h.replicas[i], offset, |data|) == ReadBytes(data, false)
    {
      WrittenAnswers(d.nodes, h.replicas, offset, data, now, calls, i);
    }
    FirstAnswer(d2.nodes, h.replicas, offset, |data|, readCalls, 0, ReadBytes(data, false));
  }

  lemma WrittenAnswers(nodes: Nodes, rs: seq<Replica>, offset: nat, data: Bytes, now: Time, calls: seq<Call>, i: nat)
    requires DistinctAddrs(rs) && i < |rs| && AllWritesOk(nodes, rs, data, calls)
    ensures AnswerOf(WriteFirst(nodes, rs, |rs|, offset, data, now, calls), rs[i], offset, |data|)
        == ReadBytes(data, false)
  {
    assert WriteOk(nodes, rs[i], data, CallAt(calls, i));
    HeldAfterWrite(nodes, rs, offset, data, now, calls, i);
    WriteFirstAt(nodes, rs, |rs|, offset, data, now, calls);
    ReadBack(Held(nodes, rs[i]), offset, data);
  }

  lemma {:induction false} FirstAnswer(nodes: Nodes, rs: seq<Replica>, offset: nat, length: nat, calls: seq<Call>,
                                       k: nat, r: ReadResult)
    requires k <= |rs| && forall i :: k <= i < |rs| ==> AnswerOf(nodes, rs[i], offset, length) == r
    ensures ReadFrom(nodes, rs, offset, length, calls, k)
         == if exists i :: k <= i < |rs| && Answers(nodes, rs[i], CallAt(calls, i)) then r else ReadError
    decreases |rs| - k
  {
    if k < |rs| {
      FirstAnswer(nodes, rs, offset, length, calls, k + 1, r);
    }
  }

  // ----- open -----

  /** Commands that commit during an open and leave the file at `p` alone. */
  ghost predicate SparesPath(log: seq<Step>, p: Path) {
    forall i :: 0 <= i < |log| ==> LeavesAlone(log[i].cmd, p)
  }

  lemma {:induction false} SparedFileStays(s: State, log: seq<Step>, p: Path)
    requires WellFormed(s.tree) && IsFileAt(s.tree, p) && p != [] && SparesPath(log, p)
    ensures var t := Run(s, log).tree; WellFormed(t) && IsFileAt(t, p) && t[p] == s.tree[p]
  {
    hide LeavesAlone, WellFormed;
    if log != [] {
      SparedFileStays(s, log[..|log|-1], p);
      ForeignKeepsFile(Run(s, log[..|log|-1]), log[|log|-1].cmd, log[|log|-1].now, p);
    }
  }

  /** A creating open of a path that was not there yields a handle from which the results above start, whatever commits
      before the create, and as long as no command touches the new file before its location is asked for. */
  lemma CreatedHandle(d: Deployment, path: string, flags: Flags, fileID: string, now: Time, calls: seq<Call>,
                      g: OpenFates)
    requires WellFormed(d.mds.tree) && MembersAgree(d.mds) && Components(path) !in d.mds.tree
    requires SparesPath(g.beforeLocation, Components(path))
    requires OpenAt(d, path, flags, fileID, now, calls, g).1.Opened?
    ensures flags.creat
    ensures var (d', r) := OpenAt(d, path, flags, fileID, now, calls, g);
      var m := if IsFileAt(d'.mds.tree, Components(path)) then Some(d'.mds.tree[Components(path)]) else None;
      && WellFormed(d'.mds.tree) && m.Some? && Components(path) != [] && d'.nodes == d.nodes
      && r.h.path == path && r.h.fileID == fileID == m.value.fileID && r.h.replicas == m.value.replicas
      && r.h.size == 0 == m.value.size && r.h.status == Pending == m.value.status && Coherent(fileID, r.h.replicas)
      && SizesOrdered(d', r.h) && DistinctAddrs(r.h.replicas)
  {
    var s := Run(d.mds, g.afterStat);
    RunStaysWellFormed(d.mds, g.afterStat);
    RunKeepsMembers(d.mds, g.afterStat);
    ServiceCreates(s, path, fileID, g.afterCheck, now);
    var (u, reply) := CreateService(s, path, 0, CreateIfNotExist, fileID, g.afterCheck, now);
    hide CreateService, LeavesAlone, MembersAgree, WellFormed, Run;
    SparedFileStays(u, g.beforeLocation, Components(path));
  }

  /** A successful exclusive create makes a pending, empty file with the replicas of the reply. */
  lemma ServiceCreates(s: State, path: string, fileID: string, between: seq<Step>, now: Time)
    requires WellFormed(s.tree) && MembersAgree(s)
    requires CreateService(s, path, 0, CreateIfNotExist, fileID, between, now).1.Created?
    ensures var (u, reply) := CreateService(s, path, 0, CreateIfNotExist, fileID, between, now);
      var p := Components(path);
      && WellFormed(u.tree) && p != [] && IsFileAt(u.tree, p) && Coherent(fileID, reply.replicas)
      && u.tree[p].fileID == fileID && u.tree[p].replicas == reply.replicas && u.tree[p].size == 0
          && u.tree[p].status == Pending
  {
    SelectionIsCoherent(s.dataNodes, path, fileID, REPLICA_COUNT);
    RunStaysWellFormed(s, between);
    var c := Command.CreateFile(path, 0, Selected(s.dataNodes, path, fileID, REPLICA_COUNT), CreateIfNotExist, fileID);
    ApplyKeepsTree(Run(s, between), c, now);
    hide Selected, Run, WellFormed, Coherent;
  }

  /** From the open that creates a file on: the sizes are in order at every point of a run exactly when every write and
      truncation meets its condition, so always when all writes carry data and none is a truncation. */
  lemma NewFileSizes(d: Deployment, path: string, flags: Flags, fileID: string, now: Time, calls: seq<Call>,
                     g: OpenFates, ops: seq<Op>)
    requires WellFormed(d.mds.tree) && MembersAgree(d.mds) && Components(path) !in d.mds.tree
    requires SparesPath(g.beforeLocation, Components(path))
    requires OpenAt(d, path, flags, fileID, now, calls, g).1.Opened?
    requires var (d1, r) := OpenAt(d, path, flags, fileID, now, calls, g); AllAllowed(d1, r.h, ops)
    ensures var (d1, r) := OpenAt(d, path, flags, fileID, now, calls, g);
      && ((forall i :: 0 <= i <= |ops| ==> OrderedAt(d1, r.h, ops, i)) <==>
          (forall i :: 0 <= i < |ops| ==> OrderlyAt(d1, r.h, ops, i)))
      && ((forall i :: 0 <= i < |ops| ==> CarriesData(ops[i])) ==>
            forall i :: 0 <= i <= |ops| ==> OrderedAt(d1, r.h, ops, i))
  {
    CreatedHandle(d, path, flags, fileID, now, calls, g);
    var (d1, r) := OpenAt(d, path, flags, fileID, now, calls, g);
    MetadataNeverAhead(d1, r.h, ops);
    forall i | 0 <= i < |ops| && CarriesData(ops[i])
      ensures OrderlyAt(d1, r.h, ops, i)
    {
    }
  }

  predicate CarriesData(op: Op) {
    !op.DoTruncate? && (op.DoWrite? ==> op.data != [])
  }

  /** Opening an existing file for truncation succeeds exactly when the metadata calls are served and every replica
      answers and holds the file already: a file that was created and never written cannot be opened this way. */
  lemma TruncatingOpen(d: Deployment, path: string, flags: Flags, fileID: string, now: Time, calls: seq<Call>,
                       g: OpenFates)
    requires WellFormed(d.mds.tree) && IsFileAt(d.mds.tree, Components(path)) && flags.trunc && !flags.excl
    requires Components(path) != [] && DistinctAddrs(d.mds.tree[Components(path)].replicas)
    requires SparesPath(g.afterStat, Components(path)) && SparesPath(g.inTruncate, Components(path))
    requires SparesPath(g.beforeLocation, Components(path))
    ensures var rs := d.mds.tree[Components(path)].replicas;
      var (d', r) := OpenAt(d, path, flags, fileID, now, calls, g);
      && (r.Opened? <==> g.stat && AllTruncatesOk(d.nodes, rs, calls) && g.resize == Served && g.location)
      && (g.stat && !AllTruncatesOk(d.nodes, rs, calls) ==> r == TruncateFailed)
      && (r.Opened? ==>
            && SizesOrdered(d', r.h) && r.h.size == 0 == d'.mds.tree[Components(path)].size
            && r.h.fileID == d.mds.tree[Components(path)].fileID
            && forall i :: 0 <= i < |rs| ==> Held(d'.nodes, rs[i]) == [])
  {
    SparedResize(d.mds, path, now, g);
    CutEmpties(d.nodes, d.mds.tree[Components(path)].replicas, now, calls);
    hide Run, WellFormed, AllTruncatesOk, TruncateFirst, ResizeCall, ResizeOk, Held, SparesPath, Components;
  }

  /** The metadata of a truncating open, when what commits meanwhile leaves the file alone. */
  lemma SparedResize(s: State, path: string, now: Time, g: OpenFates)
    requires WellFormed(s.tree) && IsFileAt(s.tree, Components(path)) && Components(path) != []
    requires SparesPath(g.afterStat, Components(path)) && SparesPath(g.inTruncate, Components(path))
    requires SparesPath(g.beforeLocation, Components(path))
    ensures var p, s1 := Components(path), Run(s, g.afterStat);
      var w := Run(s1, g.inTruncate);
      var v := Run(ResizeCall(w, path, 0, now, g.resize), g.beforeLocation).tree;
      && IsFileAt(s1.tree, p) && s1.tree[p] == s.tree[p]
      && (ResizeOk(w, path, 0, now, g.resize) <==> g.resize == Served)
      && IsFileAt(v, p) && v[p].fileID == s.tree[p].fileID && v[p].replicas == s.tree[p].replicas
      && (g.resize == Served ==> v[p].size == 0)
  {
    var p, s1 := Components(path), Run(s, g.afterStat);
    NonEmptyPath(path);
    SparedFileStays(s, g.afterStat, p);
    SparedFileStays(s1, g.inTruncate, p);
    var w := Run(s1, g.inTruncate);
    ResizeMetadata(w, path, 0, now, g.resize);
    assert ResizeOk(w, path, 0, now, g.resize) <==> g.resize == Served;
    assert g.resize == Served ==> ResizeCall(w, path, 0, now, g.resize).tree[p].size == 0;
    hide Run, WellFormed, ResizeCall, ResizeOk, SparesPath, Components;
    SparedFileStays(ResizeCall(w, path, 0, now, g.resize), g.beforeLocation, p);
  }

  lemma CutEmpties(nodes: Nodes, rs: seq<Replica>, now: Time, calls: seq<Call>)
    requires DistinctAddrs(rs)
    ensures AllTruncatesOk(nodes, rs, calls) ==>
      forall i :: 0 <= i < |rs| ==> Held(TruncateFirst(nodes, rs, |rs|, 0, now, calls), rs[i]) == []
  {
    if AllTruncatesOk(nodes, rs, calls) {
      forall i | 0 <= i < |rs|
        ensures Held(TruncateFirst(nodes, rs, |rs|, 0, now, calls), rs[i]) == []
      {
        HeldAfterTruncate(nodes, rs, 0, now, calls, i);
        assert TruncateOk(nodes, rs[i], CallAt(calls, i));
      }
    }
  }

  // ----- the conditions fail in reachable states -----

  /** A file that was created and never written, so that no node holds it, cannot be opened for truncation. */
  lemma UnwrittenCannotBeTruncated(d: Deployment, path: string, flags: Flags, fileID: string, now: Time,
                                   calls: seq<Call>, g: OpenFates,
                                   again: Flags, id: string, later: Time, more: seq<Call>, g': OpenFates)
    requires WellFormed(d.mds.tree) && MembersAgree(d.mds) && Components(path) !in d.mds.tree
    requires SparesPath(g.beforeLocation, Components(path))
    requires OpenAt(d, path, flags, fileID, now, calls, g).1.Opened? && NowhereStored(d.nodes, fileID)
    requires again.trunc && !again.excl
    requires SparesPath(g'.afterStat, Components(path)) && SparesPath(g'.inTruncate, Components(path))
    requires SparesPath(g'.beforeLocation, Components(path))
    ensures var (d1, _) := OpenAt(d, path, flags, fileID, now, calls, g);
      OpenAt(d1, path, again, id, later, more, g').1 in {StatFailed, TruncateFailed}
  {
    CreatedHandle(d, path, flags, fileID, now, calls, g);
    var (d1, r) := OpenAt(d, path, flags, fileID, now, calls, g);
    assert r.h.replicas[0].remotePath == RemotePathOf(fileID);
    TruncatingOpen(d1, path, again, id, later, more, g');
  }

  ghost predicate NowhereStored(nodes: Nodes, fileID: string) {
    forall a :: a in nodes ==> RemotePathOf(fileID) !in nodes[a]
  }

  /** An empty write past the start of a file that was just created puts the metadata ahead of the data. */
  lemma EmptyWriteRunsAhead(d: Deployment, path: string, flags: Flags, fileID: string, now: Time, calls: seq<Call>,
                            g: OpenFates,
                            offset: int, later: Time, more: seq<Call>, resize: Call)
    requires WellFormed(d.mds.tree) && MembersAgree(d.mds) && Components(path) !in d.mds.tree
    requires SparesPath(g.beforeLocation, Components(path))
    requires OpenAt(d, path, flags, fileID, now, calls, g).1.Opened? && NowhereStored(d.nodes, fileID)
    requires var (d1, r) := OpenAt(d, path, flags, fileID, now, calls, g);
      WriteSucceeds(d1, r.h, [], offset, more) && offset > 0
    ensures var (d1, r) := OpenAt(d, path, flags, fileID, now, calls, g);
      var (d2, h2) := WriteAt(d1, r.h, [], offset, later, more, resize); !SizesOrdered(d2, h2)
  {
    CreatedHandle(d, path, flags, fileID, now, calls, g);
    var (d1, r) := OpenAt(d, path, flags, fileID, now, calls, g);
    assert r.h.replicas[0].remotePath == RemotePathOf(fileID);
    assert Held(d1.nodes, r.h.replicas[0]) == [];
    WriteKeepsOrder(d1, r.h, [], offset, later, more, resize);
  }

  /** After a rename of a new file, a write through its handle takes the data and leaves the file's record at zero. */
  lemma RenamedThenWritten(d: Deployment, path: string, flags: Flags, fileID: string, now: Time, calls: seq<Call>,
                           g: OpenFates,
                           dst: string, data: Bytes, offset: int, later: Time, more: seq<Call>, resize: Call)
    requires WellFormed(d.mds.tree) && MembersAgree(d.mds) && Components(path) !in d.mds.tree
    requires SparesPath(g.beforeLocation, Components(path))
    requires OpenAt(d, path, flags, fileID, now, calls, g).1.Opened? && Components(dst) != Components(path)
        && data != []
    requires var (d1, r) := OpenAt(d, path, flags, fileID, now, calls, g);
      var a := Apply(d1.mds, Rename(path, dst), later);
      a.outcome == Done && WriteSucceeds(d1.(mds := a.state), r.h, data, offset, more)
    ensures var (d1, r) := OpenAt(d, path, flags, fileID, now, calls, g);
      var (d2, h2) := WriteAt(d1.(mds := Apply(d1.mds, Rename(path, dst), later).state), r.h, data, offset, later, more,
          resize);
      var q := Components(dst);
      IsFileAt(d2.mds.tree, q) && d2.mds.tree[q].fileID == fileID && d2.mds.tree[q].size == 0 < h2.size
  {
    CreatedHandle(d, path, flags, fileID, now, calls, g);
    var (d1, r) := OpenAt(d, path, flags, fileID, now, calls, g);
    NonEmptyPath(path);
    RenameCarriesRecord(d1.mds, path, dst, later);
    hide OpenAt, Apply, WellFormed, WriteAt, Components, MembersAgree, AllWritesOk;
    ResizeFollowsThePath(d1.(mds := Apply(d1.mds, Rename(path, dst), later).state), r.h, data, offset, later, more,
      resize, Components(dst));
  }

  lemma RenameCarriesRecord(s: State, path: string, dst: string, now: Time)
    requires Apply(s, Rename(path, dst), now).outcome == Done && IsFileAt(s.tree, Components(path))
    ensures var t, src, q := Apply(s, Rename(path, dst), now).state.tree, Components(path), Components(dst);
      IsFileAt(t, q) && t[q].size == s.tree[src].size && t[q].fileID == s.tree[src].fileID
        && t[q].replicas == s.tree[src].replicas
  {
    var src, q := Components(path), Components(dst);
    RenamedAt(s.tree, src, q, now, q);
    assert Below(q, q) && Rebase(q, q, src) == src;
  }
}

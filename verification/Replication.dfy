/**
Several metadata servers that follow one committed log, each with its own clock (internal/metadata/state_machine.go).

The log itself, with its election and replication, is given: entries are committed in one order. A node applies the
next entry, takes a snapshot, crashes and starts again from its last snapshot, or installs the snapshot of another node.
*/
module Replication {
  import opened Paths
  import opened FsTypes
  import opened TreeShape
  import opened Namespace
  import opened Snapshots

  // ----- agreement up to clocks -----

  ghost predicate SameBut(m: Meta, n: Meta) {
    m.(createdAt := n.createdAt, modTime := n.modTime) == n
  }

  ghost predicate TreesAgree(t: Tree, u: Tree) {
    t.Keys == u.Keys && forall p :: p in t ==> SameBut(t[p], u[p])
  }

  /** Tree shape, names, sizes, modes, statuses, FileIDs, replicas, the order of the data nodes and which of them have a
      heartbeat on record agree; only times may differ. */
  ghost predicate Agree(s: State, u: State) {
    TreesAgree(s.tree, u.tree) && s.dataNodes == u.dataNodes && s.lastHeartbeat.Keys == u.lastHeartbeat.Keys
  }

  lemma {:induction false} FileLevelsAgree(t: Tree, u: Tree, p: Path)
    requires TreesAgree(t, u)
    ensures FileLevel(t, p) == FileLevel(u, p)
    decreases |p|
  {
    if p != [] {
      FileLevelsAgree(t, u, Parent(p));
    }
  }

  lemma MkdirsAgree(t: Tree, u: Tree, p: Path, a: Time, b: Time)
    requires TreesAgree(t, u)
    ensures TreesAgree(MkdirIn(t, p, a).0, MkdirIn(u, p, b).0) && MkdirIn(t, p, a).1 == MkdirIn(u, p, b).1
  {
    FileLevelsAgree(t, u, p);
  }

  lemma CreatesAgree(t: Tree, u: Tree, p: Path, size: int, replicas: seq<Replica>, mode: CreateMode, id: string,
                     a: Time, b: Time)
    requires TreesAgree(t, u)
    ensures TreesAgree(CreateIn(t, p, size, replicas, mode, id, a).0, CreateIn(u, p, size, replicas, mode, id, b).0)
    ensures CreateIn(t, p, size, replicas, mode, id, a).1 == CreateIn(u, p, size, replicas, mode, id, b).1
  {
  }

  lemma DeletesAgree(t: Tree, u: Tree, p: Path, a: Time, b: Time)
    requires TreesAgree(t, u)
    ensures TreesAgree(DeleteIn(t, p, a).0, DeleteIn(u, p, b).0) && DeleteIn(t, p, a).1 == DeleteIn(u, p, b).1
  {
  }

  lemma RenamesAgree(t: Tree, u: Tree, src: Path, dst: Path, a: Time, b: Time)
    requires TreesAgree(t, u)
    ensures TreesAgree(RenameIn(t, src, dst, a).0, RenameIn(u, src, dst, b).0)
        && RenameIn(t, src, dst, a).1 == RenameIn(u, src, dst, b).1
  {
    if RenameIn(t, src, dst, a).1 == Done {
      forall q
        ensures q in Renamed(t, src, dst, a) <==> q in Renamed(u, src, dst, b)
        ensures q in Renamed(t, src, dst, a) ==> SameBut(Renamed(t, src, dst, a)[q], Renamed(u, src, dst, b)[q])
      {
        RenamedAgree(t, u, src, dst, a, b, q);
      }
      hide Renamed, SameBut;
    }
  }

  lemma RenamedAgree(t: Tree, u: Tree, src: Path, dst: Path, a: Time, b: Time, q: Path)
    requires TreesAgree(t, u) && src != [] && dst != [] && src in t
    ensures q in Renamed(t, src, dst, a) <==> q in Renamed(u, src, dst, b)
    ensures q in Renamed(t, src, dst, a) ==> SameBut(Renamed(t, src, dst, a)[q], Renamed(u, src, dst, b)[q])
  {
    RenamedAt(t, src, dst, a, q);
    RenamedAt(u, src, dst, b, q);
    hide Renamed, Below, Rebase, Origin;
  }

  lemma UpdatesAgree(t: Tree, u: Tree, p: Path, size: int, a: Time, b: Time)
    requires TreesAgree(t, u)
    ensures TreesAgree(CompleteIn(t, p, a).0, CompleteIn(u, p, b).0) && CompleteIn(t, p, a).1 == CompleteIn(u, p, b).1
    ensures TreesAgree(ResizeIn(t, p, size, a).0, ResizeIn(u, p, size, b).0)
        && ResizeIn(t, p, size, a).1 == ResizeIn(u, p, size, b).1
  {
  }

  /** One command, applied with two clocks to agreeing states: agreeing states again, and the same result. */
  lemma StepAgrees(s: State, u: State, c: Command, a: Time, b: Time)
    requires Agree(s, u)
    ensures Agree(Apply(s, c, a).state, Apply(u, c, b).state)
    ensures Apply(s, c, a).outcome == Apply(u, c, b).outcome
  {
    hide TreesAgree, MkdirIn, CreateIn, DeleteIn, RenameIn, CompleteIn, ResizeIn;
    match c
    case Mkdir(path) => MkdirsAgree(s.tree, u.tree, Components(path), a, b);
    case CreateFile(path, size, replicas, mode, id) =>
      CreatesAgree(s.tree, u.tree, Components(path), size, replicas, mode, id, a, b);
    case CompleteFile(path) => UpdatesAgree(s.tree, u.tree, Components(path), 0, a, b);
    case UpdateSize(path, size) => UpdatesAgree(s.tree, u.tree, Components(path), size, a, b);
    case Delete(path) => DeletesAgree(s.tree, u.tree, Components(path), a, b);
    case Rename(path, dstPath) => RenamesAgree(s.tree, u.tree, Components(path), Components(dstPath), a, b);
    case Heartbeat(_) =>
    case RemoveDataNode(_) =>
    case UnknownOp(_) =>
  }

  // ----- the nodes -----

  /** `saved` is the last snapshot and the number of log entries it covers. */
  datatype Node = Node(state: State, applied: nat, saved: Option<MetaSnapshot>, savedAt: nat)

  datatype Cluster = Cluster(log: seq<Command>, nodes: seq<Node>)

  /** What a node has after a start: the initial state, replaced by the saved snapshot if there is one. */
  function Started(saved: Option<MetaSnapshot>, now: Time): State {
    if saved.Some? then RestoredState(saved.value) else InitialState(now)
  }

  datatype Action =
    | Commit(cmd: Command)
    | ApplyNext(node: nat, now: Time)
    | TakeSnapshot(node: nat)
    | Restart(node: nat, now: Time)
    | InstallSnapshot(node: nat, from: nat)

  ghost predicate Init(c: Cluster) {
    && c.log == []
    && forall i :: 0 <= i < |c.nodes| ==> exists now :: c.nodes[i] == Node(InitialState(now), 0, None, 0)
  }

  predicate Enabled(c: Cluster, a: Action) {
    match a
    case Commit(_) => true
    case ApplyNext(i, _) => i < |c.nodes| && c.nodes[i].applied < |c.log|
    case TakeSnapshot(i) => i < |c.nodes| && [] in c.nodes[i].state.tree  // there always is a root, by `Inv`
    case Restart(i, _) => i < |c.nodes|
    case InstallSnapshot(i, j) => i < |c.nodes| && j < |c.nodes| && c.nodes[j].saved.Some?
  }

  function Next(c: Cluster, a: Action): Cluster
    requires Enabled(c, a)
  {
    match a
    case Commit(cmd) => c.(log := c.log + [cmd])
    case ApplyNext(i, now) =>
      var n := c.nodes[i];
      c.(nodes := c.nodes[i := n.(state := Apply(n.state, c.log[n.applied], now).state, applied := n.applied + 1)])
    case TakeSnapshot(i) =>
      var n := c.nodes[i];
      c.(nodes := c.nodes[i := n.(saved := Some(SnapshotOf(n.state)), savedAt := n.applied)])
    case Restart(i, now) =>
      var n := c.nodes[i];
      c.(nodes := c.nodes[i := n.(state := Started(n.saved, now), applied := n.savedAt)])
    case InstallSnapshot(i, j) =>
      var n := c.nodes[j];
      c.(nodes := c.nodes[i := Node(RestoredState(n.saved.value), n.savedAt, n.saved, n.savedAt)])
  }

  ghost predicate Steps(c: Cluster, d: Cluster) {
    exists a :: Enabled(c, a) && d == Next(c, a)
  }

  ghost predicate Execution(trace: seq<Cluster>) {
    trace != [] && Init(trace[0]) && forall i :: 0 < i < |trace| ==> Steps(trace[i-1], trace[i])
  }

  // ----- agreement of all nodes -----

  /** The state after the first `k` entries, on a node whose clock stands at zero. */
  function Reference(log: seq<Command>, k: nat): State
    requires k <= |log|
  {
    if k == 0 then InitialState(0) else Apply(Reference(log, k - 1), log[k - 1], 0).state
  }

  ghost predicate Faithful(log: seq<Command>, s: State, k: nat) {
    k <= |log| && WellFormed(s.tree) && Agree(s, Reference(log, k))
  }

  ghost predicate NodeInv(log: seq<Command>, n: Node) {
    && Faithful(log, n.state, n.applied)
    && (if n.saved.Some? then Faithful(log, RestoredState(n.saved.value), n.savedAt) else n.savedAt == 0)
  }

  ghost predicate Inv(c: Cluster) {
    forall i :: 0 <= i < |c.nodes| ==> NodeInv(c.log, c.nodes[i])
  }

  lemma {:induction false} ReferenceExtends(log: seq<Command>, cmd: Command, k: nat)
    requires k <= |log|
    ensures Reference(log + [cmd], k) == Reference(log, k)
  {
    if k > 0 {
      ReferenceExtends(log, cmd, k - 1);
    }
  }

  lemma FaithfulExtends(log: seq<Command>, cmd: Command, s: State, k: nat)
    requires Faithful(log, s, k)
    ensures Faithful(log + [cmd], s, k)
  {
    ReferenceExtends(log, cmd, k);
  }

  lemma CommitKeeps(log: seq<Command>, cmd: Command, n: Node)
    requires NodeInv(log, n)
    ensures NodeInv(log + [cmd], n)
  {
    FaithfulExtends(log, cmd, n.state, n.applied);
    if n.saved.Some? {
      FaithfulExtends(log, cmd, RestoredState(n.saved.value), n.savedAt);
    }
  }

  lemma ApplyKeeps(log: seq<Command>, n: Node, now: Time)
    requires NodeInv(log, n) && n.applied < |log|
    ensures NodeInv(log, n.(state := Apply(n.state, log[n.applied], now).state, applied := n.applied + 1))
  {
    hide WellFormed, Agree, Apply;
    StepAgrees(n.state, Reference(log, n.applied), log[n.applied], now, 0);
    ApplyKeepsTree(n.state, log[n.applied], now);
  }

  lemma InitiallyFaithful(log: seq<Command>, now: Time)
    ensures Faithful(log, InitialState(now), 0)
  {
  }

  lemma SnapshotKeeps(log: seq<Command>, n: Node)
    requires NodeInv(log, n)
    ensures NodeInv(log, n.(saved := Some(SnapshotOf(n.state)), savedAt := n.applied))
  {
    RoundTrip(n.state);
  }

  lemma RestartKeeps(log: seq<Command>, n: Node, now: Time)
    requires NodeInv(log, n)
    ensures NodeInv(log, n.(state := Started(n.saved, now), applied := n.savedAt))
  {
    InitiallyFaithful(log, now);
  }

  lemma NextKeepsInv(c: Cluster, a: Action)
    requires Inv(c) && Enabled(c, a)
    ensures Inv(Next(c, a))
  {
    hide NodeInv, Apply, Started, SnapshotOf;
    match a
    case Commit(cmd) =>
      forall i | 0 <= i < |c.nodes|
        ensures NodeInv(c.log + [cmd], c.nodes[i])
      {
        CommitKeeps(c.log, cmd, c.nodes[i]);
      }
    case ApplyNext(i, now) => ApplyKeeps(c.log, c.nodes[i], now);
    case TakeSnapshot(i) => SnapshotKeeps(c.log, c.nodes[i]);
    case Restart(i, now) => RestartKeeps(c.log, c.nodes[i], now);
    case InstallSnapshot(i, j) => InstallKeeps(c.log, c.nodes[j]);
  }

  lemma InstallKeeps(log: seq<Command>, n: Node)
    requires NodeInv(log, n) && n.saved.Some?
    ensures NodeInv(log, Node(RestoredState(n.saved.value), n.savedAt, n.saved, n.savedAt))
  {
  }

  lemma InitInv(c: Cluster)
    requires Init(c)
    ensures Inv(c)
  {
    forall i | 0 <= i < |c.nodes|
      ensures NodeInv(c.log, c.nodes[i])
    {
      var now :| c.nodes[i] == Node(InitialState(now), 0, None, 0);
      InitiallyFaithful(c.log, now);
    }
  }

  lemma {:induction false} InvHolds(trace: seq<Cluster>)
    requires Execution(trace)
    ensures Inv(trace[|trace|-1])
  {
    hide Inv, Init, Steps;
    var n := |trace| - 1;
    if n == 0 {
      InitInv(trace[0]);
    } else {
      InvHolds(trace[..n]);
      StepKeepsInv(trace[n-1], trace[n]);
    }
  }

  lemma StepKeepsInv(c: Cluster, d: Cluster)
    requires Inv(c) && Steps(c, d)
    ensures Inv(d)
  {
    hide Inv, Next, Enabled;
    var a :| Enabled(c, a) && d == Next(c, a);
    NextKeepsInv(c, a);
  }

  /** In every execution, two nodes that have applied equally many entries agree up to clocks, and the next command
      succeeds or fails alike on both. */
  lemma NodesAgree(trace: seq<Cluster>, i: nat, j: nat, cmd: Command, a: Time, b: Time)
    requires Execution(trace)
    requires var c := trace[|trace|-1]; i < |c.nodes| && j < |c.nodes| && c.nodes[i].applied == c.nodes[j].applied
    ensures var c := trace[|trace|-1];
      && Agree(c.nodes[i].state, c.nodes[j].state)
      && Apply(c.nodes[i].state, cmd, a).outcome == Apply(c.nodes[j].state, cmd, b).outcome
  {
    InvHolds(trace);
    var c := trace[|trace|-1];
    assert NodeInv(c.log, c.nodes[i]) && NodeInv(c.log, c.nodes[j]);
    StepAgrees(c.nodes[i].state, c.nodes[j].state, cmd, a, b);
  }
}

/**
Orphan collection interleaved with commits and client writes (internal/metadata/gc.go:41-69 and 99-174).

Any number of collection cycles run at once. A cycle reads its clock, walks the metadata tree of the server it runs on,
reads that server's list of data nodes, visits the listed nodes in order, except those it cannot reach, and deletes
listed files one at a time. Between any two of these steps commands may commit, clients may write and delete, and time
may pass. Clients write under `/data/{id}` only after a create with that FileID has committed
(internal/metadata/mds.go:264-268, internal/client/client.go:129-167).
*/
module GcProtocol {
  import opened FsTypes
  import opened Paths
  import opened Namespace
  import opened History
  import opened Identity
  import Replication
  import FileIO
  import HandleRuns

  const GC_SAFETY_WINDOW: Time := 30_000_000_000

  /** How far things may be off: the walked tree behind the committed log, a data node's clock behind real time, and
      the collecting server's clock ahead of it. */
  datatype Bounds = Bounds(lag: nat, nodeSkew: nat, serverSkew: nat)

  ghost predicate WithinWindow(b: Bounds) {
    b.lag + b.nodeSkew + b.serverSkew < GC_SAFETY_WINDOW
  }

  /** One collection cycle: its clock reading, the identities its walk found and how much of the log the walked tree
      had applied, the data nodes it read from the server's state, how many of them it is done with, and what is left
      of the listing of the last one. */
  datatype Cycle =
    | Started(start: Time)
    | Walked(start: Time, valid: set<string>, seen: nat)
    | Visiting(start: Time, valid: set<string>, seen: nat, nodes: seq<string>, next: nat, files: map<string, Time>)

  /** The node whose listing the cycle works on. */
  function Visited(cy: Cycle): string
    requires cy.Visiting?
  {
    if 0 < cy.next <= |cy.nodes| then cy.nodes[cy.next-1] else ""
  }

  /** `stores` holds each data node's files with their modification times. */
  datatype World = World(now: Time, log: seq<Step>, stores: map<string, map<string, Time>>, cycles: map<nat, Cycle>)

  datatype Action =
    | Tick(elapsed: nat)
    | Commit(cmd: Command)
    | ClientWrite(addr: string, path: string, mtime: Time)
    | ClientDelete(addr: string, path: string)
    | Start(cycle: nat, start: Time)
    | Walk(cycle: nat, seen: nat, state: State)
    | ReadNodes(cycle: nat, seen: nat, state: State)
    | List(cycle: nat, index: nat)
    | GcDelete(cycle: nat, path: string)
    | GcSkip(cycle: nat, path: string)

  function StoreAt(w: World, addr: string): map<string, Time> {
    if addr in w.stores then w.stores[addr] else map[]
  }

  /** What a data node lists. */
  function Listing(w: World, addr: string): map<string, Time> {
    map p | p in StoreAt(w, addr) && !IsTemp(p) :: StoreAt(w, addr)[p]
  }

  predicate Usable(id: string) {
    id != "" && !IsTemp(RemotePathOf(id))
  }

  function CommittedState(log: seq<Step>): State {
    Run(InitialState(0), log)
  }

  /** The part of a physical path that is compared with FileIDs. */
  function TrimData(path: string): string {
    if |path| >= 6 && path[..6] == "/data/" then path[6..] else path
  }

  /** The tests that make a listed file an orphan. */
  predicate IsOrphan(path: string, mtime: Time, valid: set<string>, start: Time) {
    !(TrimData(path) != "" && TrimData(path) in valid) && mtime <= start - GC_SAFETY_WINDOW
  }

  /** A file's time is no earlier than the commit of the create it was written under, up to the node's clock error. */
  ghost predicate Dated(b: Bounds, log: seq<Step>, path: string, mtime: Time) {
    exists i :: 0 <= i < |log| && log[i].cmd.CreateFile? && path == RemotePathOf(log[i].cmd.fileID)
        && mtime >= log[i].now - b.nodeSkew
  }

  /** A server that has applied `k` entries at time `now` is not behind by more than the lag. */
  ghost predicate UpToDate(b: Bounds, log: seq<Step>, now: Time, k: nat) {
    k <= |log| && forall i :: 0 <= i < |log| && log[i].now < now - b.lag ==> i < k
  }

  /** A client writes under an identity after its create committed; the file's time is a reading of the node's clock
      that was taken at some moment since then. Server-made identities are not empty and never look like temporary
      files. A cycle may be abandoned for a new one at any time, a node that it lists too late may be out of reach,
      and a deletion may fail. */
  ghost predicate Enabled(b: Bounds, w: World, a: Action) {
    match a
    case Tick(_) => true
    case Commit(cmd) => cmd.CreateFile? ==> Usable(cmd.fileID) && cmd.fileID !in CreatedIDs(w.log)
    case ClientWrite(_, path, mtime) => Dated(b, w.log, path, mtime)
    case ClientDelete(_, _) => true
    case Start(_, start) => start <= w.now + b.serverSkew
    case Walk(c, seen, state) =>
      && c in w.cycles && w.cycles[c].Started?
      && UpToDate(b, w.log, w.now, seen) && Replication.Agree(state, CommittedState(w.log[..seen]))
    case ReadNodes(c, seen, state) =>
      && c in w.cycles && w.cycles[c].Walked? && w.cycles[c].seen <= seen
      && UpToDate(b, w.log, w.now, seen) && Replication.Agree(state, CommittedState(w.log[..seen]))
    case List(c, j) => c in w.cycles && w.cycles[c].Visiting? && w.cycles[c].next <= j < |w.cycles[c].nodes|
    case GcDelete(c, path) =>
      && c in w.cycles && w.cycles[c].Visiting? && path in w.cycles[c].files
      && IsOrphan(path, w.cycles[c].files[path], w.cycles[c].valid, w.cycles[c].start)
    case GcSkip(c, path) => c in w.cycles && w.cycles[c].Visiting? && path in w.cycles[c].files
  }

  function Next(w: World, a: Action): World {
    match a
    case Tick(elapsed) => w.(now := w.now + elapsed)
    case Commit(cmd) => w.(log := w.log + [Step(cmd, w.now)])
    case ClientWrite(addr, path, mtime) => w.(stores := w.stores[addr := StoreAt(w, addr)[path := mtime]])
    case ClientDelete(addr, path) => w.(stores := w.stores[addr := StoreAt(w, addr) - {path}])
    case Start(c, start) => w.(cycles := w.cycles[c := Started(start)])
    case Walk(c, seen, state) =>
      if c in w.cycles then w.(cycles := w.cycles[c := Walked(w.cycles[c].start, LiveIDs(state.tree) - {""}, seen)])
          else w
    case ReadNodes(c, seen, state) =>
      if c in w.cycles && w.cycles[c].Walked?
      then w.(cycles := w.cycles[c :=
        Visiting(w.cycles[c].start, w.cycles[c].valid, w.cycles[c].seen, state.dataNodes, 0, map[])])
      else w
    case List(c, j) =>
      if c in w.cycles && w.cycles[c].Visiting? && j < |w.cycles[c].nodes|
      then w.(cycles := w.cycles[c := w.cycles[c].(next := j + 1, files := Listing(w, w.cycles[c].nodes[j]))])
      else w
    case GcDelete(c, path) =>
      if c in w.cycles && w.cycles[c].Visiting?
      then
        var addr := Visited(w.cycles[c]);
        w.(stores := w.stores[addr := StoreAt(w, addr) - {path}], cycles := Handled(w.cycles, c, path))
      else w
    case GcSkip(c, path) =>
      if c in w.cycles && w.cycles[c].Visiting? then w.(cycles := Handled(w.cycles, c, path)) else w
  }

  /** The cycle handles each file of a listing once. */
  function Handled(cycles: map<nat, Cycle>, c: nat, path: string): map<nat, Cycle>
    requires c in cycles && cycles[c].Visiting?
  {
    cycles[c := cycles[c].(files := cycles[c].files - {path})]
  }

  function Begin(now: Time): World {
    World(now, [], map[], map[])
  }

  function After(w: World, acts: seq<Action>): World {
    if acts == [] then w else Next(After(w, acts[..|acts|-1]), acts[|acts|-1])
  }

  /** Every action is allowed when it is taken. */
  ghost predicate Legal(b: Bounds, w: World, acts: seq<Action>) {
    forall i :: 0 <= i < |acts| ==> Enabled(b, After(w, acts[..i]), acts[i])
  }

  // ----- the invariant -----

  ghost predicate FilesDated(b: Bounds, log: seq<Step>, files: map<string, Time>) {
    forall path :: path in files ==> Dated(b, log, path, files[path])
  }

  ghost predicate CycleInv(b: Bounds, w: World, c: Cycle) {
    && c.start <= w.now + b.serverSkew
    && (!c.Started? ==>
          && c.seen <= |w.log| && c.valid == LiveIDs(CommittedState(w.log[..c.seen]).tree) - {""}
          && forall i :: c.seen <= i < |w.log| ==> w.log[i].now >= c.start - b.serverSkew - b.lag)
    && (c.Visiting? ==> c.next <= |c.nodes| && (c.files != map[] ==> c.next > 0) && FilesDated(b, w.log, c.files))
  }

  ghost predicate LogInv(w: World) {
    && FreshIDs(w.log)
    && (forall i :: 0 <= i < |w.log| ==>
        w.log[i].now <= w.now && (w.log[i].cmd.CreateFile? ==> Usable(w.log[i].cmd.fileID)))
  }

  ghost predicate Inv(b: Bounds, w: World) {
    && LogInv(w)
    && (forall addr :: addr in w.stores ==> FilesDated(b, w.log, w.stores[addr]))
    && (forall c :: c in w.cycles ==> CycleInv(b, w, w.cycles[c]))
  }

  lemma AgreeingIDs(t: Tree, u: Tree)
    requires Replication.TreesAgree(t, u)
    ensures LiveIDs(t) == LiveIDs(u)
  {
    assert forall p :: IsFileAt(t, p) <==> IsFileAt(u, p);
    assert forall p :: p in t ==> t[p].fileID == u[p].fileID;
  }

  lemma FilesStayDated(b: Bounds, log: seq<Step>, s: Step, files: map<string, Time>)
    requires FilesDated(b, log, files)
    ensures FilesDated(b, log + [s], files)
  {
    forall path | path in files
      ensures Dated(b, log + [s], path, files[path])
    {
      var i :| 0 <= i < |log| && log[i].cmd.CreateFile? && path == RemotePathOf(log[i].cmd.fileID)
          && files[path] >= log[i].now - b.nodeSkew;
      assert (log + [s])[i] == log[i];
    }
  }

  lemma CommitKeepsCycle(b: Bounds, w: World, cmd: Command, c: Cycle)
    requires CycleInv(b, w, c)
    ensures CycleInv(b, Next(w, Action.Commit(cmd)), c)
  {
    var log := w.log + [Step(cmd, w.now)];
    if !c.Started? {
      assert log[..c.seen] == w.log[..c.seen];
    }
    if c.Visiting? {
      FilesStayDated(b, w.log, Step(cmd, w.now), c.files);
    }
  }

  lemma CommitKeeps(b: Bounds, w: World, cmd: Command)
    requires Inv(b, w) && Enabled(b, w, Action.Commit(cmd))
    ensures Inv(b, Next(w, Action.Commit(cmd)))
  {
    var w' := Next(w, Action.Commit(cmd));
    forall c | c in w.cycles
      ensures CycleInv(b, w', w.cycles[c])
    {
      CommitKeepsCycle(b, w, cmd, w.cycles[c]);
    }
    forall addr | addr in w.stores
      ensures FilesDated(b, w'.log, w.stores[addr])
    {
      FilesStayDated(b, w.log, Step(cmd, w.now), w.stores[addr]);
    }
  }

  lemma WriteKeeps(b: Bounds, w: World, addr: string, path: string, mtime: Time)
    requires Inv(b, w) && Enabled(b, w, ClientWrite(addr, path, mtime))
    ensures Inv(b, Next(w, ClientWrite(addr, path, mtime)))
  {
    hide CycleInv, Dated, LogInv;
    var w' := Next(w, ClientWrite(addr, path, mtime));
    forall c | c in w.cycles
      ensures CycleInv(b, w', w.cycles[c])
    {
      StoresDoNotMatter(b, w, w', w.cycles[c]);
    }
    LogStays(w, w');
  }

  lemma LogStays(w: World, w': World)
    requires LogInv(w) && w'.log == w.log && w'.now == w.now
    ensures LogInv(w')
  {
  }

  lemma StoresDoNotMatter(b: Bounds, w: World, w': World, c: Cycle)
    requires CycleInv(b, w, c) && w'.log == w.log && w'.now == w.now
    ensures CycleInv(b, w', c)
  {
  }

  lemma WalkKeeps(b: Bounds, w: World, c: nat, seen: nat, state: State)
    requires Inv(b, w) && Enabled(b, w, Walk(c, seen, state))
    ensures Inv(b, Next(w, Walk(c, seen, state)))
  {
    AgreeingIDs(state.tree, CommittedState(w.log[..seen]).tree);
  }

  lemma TickKeeps(b: Bounds, w: World, elapsed: nat)
    requires Inv(b, w)
    ensures Inv(b, Next(w, Tick(elapsed)))
  {
    hide FilesDated, FreshIDs, LiveIDs, CommittedState;
  }

  lemma CycleKeeps(b: Bounds, w: World, a: Action)
    requires Inv(b, w) && Enabled(b, w, a) && (a.Start? || a.ReadNodes? || a.List?)
    ensures Inv(b, Next(w, a))
  {
    if a.List? { ListingDated(b, w, w.cycles[a.cycle].nodes[a.index]); }
    hide FilesDated, FreshIDs, LiveIDs, CommittedState, Listing, StoreAt;
    assert FilesDated(b, w.log, map[]) by { NoFilesDated(b, w.log, map[]); }
  }

  lemma NoFilesDated(b: Bounds, log: seq<Step>, files: map<string, Time>)
    requires files == map[]
    ensures FilesDated(b, log, files)
  {
  }

  lemma ListingDated(b: Bounds, w: World, addr: string)
    requires Inv(b, w)
    ensures FilesDated(b, w.log, Listing(w, addr))
  {
  }

  lemma ClientDeleteKeeps(b: Bounds, w: World, addr: string, path: string)
    requires Inv(b, w)
    ensures Inv(b, Next(w, ClientDelete(addr, path)))
  {
    StoreShrinks(b, w, addr, path, w.cycles);
  }

  lemma StoreShrinks(b: Bounds, w: World, addr: string, path: string, cycles: map<nat, Cycle>)
    requires Inv(b, w) && forall c :: c in cycles ==> CycleInv(b, w, cycles[c])
    ensures Inv(b, w.(stores := w.stores[addr := StoreAt(w, addr) - {path}], cycles := cycles))
  {
    hide CycleInv, Dated, LogInv;
    var w' := w.(stores := w.stores[addr := StoreAt(w, addr) - {path}], cycles := cycles);
    forall c | c in cycles
      ensures CycleInv(b, w', cycles[c])
    {
      StoresDoNotMatter(b, w, w', cycles[c]);
    }
    LogStays(w, w');
  }

  lemma HandledKeeps(b: Bounds, w: World, c: nat, path: string)
    requires Inv(b, w) && c in w.cycles && w.cycles[c].Visiting?
    ensures forall k :: k in w.cycles ==> CycleInv(b, w, Handled(w.cycles, c, path)[k])
  {
    hide Dated, LogInv, CommittedState, LiveIDs;
    assert CycleInv(b, w, w.cycles[c]);
  }

  lemma GcKeeps(b: Bounds, w: World, a: Action)
    requires Inv(b, w) && Enabled(b, w, a) && (a.GcDelete? || a.GcSkip?)
    ensures Inv(b, Next(w, a))
  {
    HandledKeeps(b, w, a.cycle, a.path);
    hide CycleInv, LogInv, FilesDated;
    if a.GcDelete? {
      StoreShrinks(b, w, Visited(w.cycles[a.cycle]), a.path, Handled(w.cycles, a.cycle, a.path));
    } else {
      SameButCycles(b, w, Handled(w.cycles, a.cycle, a.path));
    }
  }

  lemma SameButCycles(b: Bounds, w: World, cycles: map<nat, Cycle>)
    requires Inv(b, w) && forall c :: c in cycles ==> CycleInv(b, w, cycles[c])
    ensures Inv(b, w.(cycles := cycles))
  {
    hide Dated, LiveIDs, CommittedState, FilesDated;
  }

  lemma NextKeepsInv(b: Bounds, w: World, a: Action)
    requires Inv(b, w) && Enabled(b, w, a)
    ensures Inv(b, Next(w, a))
  {
    hide *;
    match a
    case Tick(elapsed) => TickKeeps(b, w, elapsed);
    case Commit(cmd) => CommitKeeps(b, w, cmd);
    case ClientWrite(addr, path, mtime) => WriteKeeps(b, w, addr, path, mtime);
    case Walk(c, seen, state) => WalkKeeps(b, w, c, seen, state);
    case Start(_, _) => CycleKeeps(b, w, a);
    case ReadNodes(_, _, _) => CycleKeeps(b, w, a);
    case List(_, _) => CycleKeeps(b, w, a);
    case ClientDelete(addr, path) => ClientDeleteKeeps(b, w, addr, path);
    case GcDelete(_, _) => GcKeeps(b, w, a);
    case GcSkip(_, _) => GcKeeps(b, w, a);
  }

  lemma {:induction false} InvStays(b: Bounds, w: World, acts: seq<Action>)
    requires Inv(b, w) && Legal(b, w, acts)
    ensures Inv(b, After(w, acts))
  {
    hide Inv, Enabled;
    if acts != [] {
      var n := |acts| - 1;
      assert forall i :: 0 <= i < n ==> acts[..n][..i] == acts[..i];
      InvStays(b, w, acts[..n]);
      NextKeepsInv(b, After(w, acts[..n]), acts[n]);
    }
  }

  lemma InvHolds(b: Bounds, now: Time, acts: seq<Action>)
    requires Legal(b, Begin(now), acts)
    ensures Inv(b, After(Begin(now), acts))
  {
    hide Legal, After;
    assert Inv(b, Begin(now));
    InvStays(b, Begin(now), acts);
  }

  // ----- safety -----

  /** No file of the tree lives under this physical path. */
  ghost predicate Unreferenced(t: Tree, path: string) {
    forall p :: IsFileAt(t, p) ==> path != RemotePathOf(t[p].fileID)
  }

  lemma TrimUndoesRemotePath(id: string)
    ensures TrimData(RemotePathOf(id)) == id
  {
    assert RemotePathOf(id)[..6] == "/data/" && RemotePathOf(id)[6..] == id;
  }

  /** What is compared with FileIDs: the rest after "/data/", and the whole path when it begins otherwise. */
  lemma TrimmedIs(path: string)
    ensures (exists s :: path == "/data/" + s) ==> path == "/data/" + TrimData(path)
    ensures (forall s :: path != "/data/" + s) ==> TrimData(path) == path
  {
    if |path| >= 6 && path[..6] == "/data/" {
      assert path == "/data/" + path[6..];
    }
  }

  /** A listed file is an orphan when it is not referenced and at least 30 seconds older than the cycle's start. */
  lemma OrphanIs(path: string, mtime: Time, valid: set<string>, start: Time)
    ensures IsOrphan(path, mtime, valid, start) <==>
      (TrimData(path) == "" || TrimData(path) !in valid) && start - mtime >= 30_000_000_000
  {
    hide TrimData;
  }

  /** What a cycle may delete is not, at that moment, the data of a file in the committed tree. */
  lemma DeleteIsSafe(b: Bounds, w: World, c: nat, path: string)
    requires WithinWindow(b) && Inv(b, w) && Enabled(b, w, GcDelete(c, path))
    ensures Unreferenced(CommittedState(w.log).tree, path)
  {
    var y, t := w.cycles[c], CommittedState(w.log).tree;
    forall p | IsFileAt(t, p) && path == RemotePathOf(t[p].fileID)
      ensures false
    {
      var id := t[p].fileID;
      var i :| 0 <= i < |w.log| && w.log[i].cmd.CreateFile? && path == RemotePathOf(w.log[i].cmd.fileID)
        && y.files[path] >= w.log[i].now - b.nodeSkew;
      RemotePathInjective(id, w.log[i].cmd.fileID);
      TrimUndoesRemotePath(id);
      if i < y.seen {
        CreatedBefore(w.log, y.seen, i);
        assert w.log[..|w.log|] == w.log;
        assert LivesSince(t, id, t[p].createdAt);
        NeverResurrected(0, w.log, y.seen, |w.log|, id, t[p].createdAt);
        LiveIsLiving(CommittedState(w.log[..y.seen]).tree, id);
      }
    }
  }

  lemma CreatedBefore(log: seq<Step>, k: nat, i: nat)
    requires i < k <= |log| && log[i].cmd.CreateFile?
    ensures log[i].cmd.fileID in CreatedIDs(log[..k])
  {
    assert log[..k][i] == log[i];
  }

  lemma ReferencedByID(t: Tree, path: string)
    requires TreeCoherent(t) && Unreferenced(t, path)
    ensures forall p, addr :: IsFileAt(t, p) ==> Replica(addr, path) !in t[p].replicas
  {
    forall p, r | IsFileAt(t, p) && r in t[p].replicas
      ensures r.remotePath == RemotePathOf(t[p].fileID)
    {
      assert Coherent(t[p].fileID, t[p].replicas);
    }
  }

  // ----- where the walked tree comes from -----

  /** Running the log with the clocks of one node or with another's gives states that agree. */
  lemma {:induction false} RunsAgree(cmds: seq<Command>, log: seq<Step>, k: nat)
    requires k <= |log| == |cmds| && forall i :: 0 <= i < |log| ==> log[i].cmd == cmds[i]
    ensures Replication.Agree(Replication.Reference(cmds, k), CommittedState(log[..k]))
  {
    if k > 0 {
      RunsAgree(cmds, log, k - 1);
      RunStep(InitialState(0), log, k - 1);
      Replication.StepAgrees(Replication.Reference(cmds, k - 1), CommittedState(log[..k-1]), cmds[k-1], 0,
        log[k-1].now);
    }
  }

  lemma AgreeThrough(s: State, m: State, u: State)
    requires Replication.Agree(s, m) && Replication.Agree(m, u)
    ensures Replication.Agree(s, u)
  {
  }

  /** A node of a replicated cluster, whatever snapshots and restarts it went through, agrees with the prefix of the log
      that it has applied. */
  lemma NodeFollowsLog(trace: seq<Replication.Cluster>, i: nat, log: seq<Step>)
    requires Replication.Execution(trace) && i < |trace[|trace|-1].nodes| && |trace[|trace|-1].log| == |log|
    requires forall k :: 0 <= k < |log| ==> log[k].cmd == trace[|trace|-1].log[k]
    ensures var n := trace[|trace|-1].nodes[i];
      n.applied <= |log| && Replication.Agree(n.state, CommittedState(log[..n.applied]))
  {
    var cl := trace[|trace|-1];
    Replication.InvHolds(trace);
    assert Replication.NodeInv(cl.log, cl.nodes[i]);
    hide CommittedState, Replication.Execution, WellFormed, Replication.Reference, Replication.TreesAgree;
    RunsAgree(cl.log, log, cl.nodes[i].applied);
    AgreeThrough(cl.nodes[i].state, Replication.Reference(cl.log, cl.nodes[i].applied),
      CommittedState(log[..cl.nodes[i].applied]));
  }

  /** So its state may be the one that a cycle walks and reads its nodes from, if the node is not too far behind. */
  lemma AnyNodeMayWalk(b: Bounds, trace: seq<Replication.Cluster>, i: nat, w: World, c: nat)
    requires Replication.Execution(trace) && i < |trace[|trace|-1].nodes| && |trace[|trace|-1].log| == |w.log|
    requires forall k :: 0 <= k < |w.log| ==> w.log[k].cmd == trace[|trace|-1].log[k]
    requires c in w.cycles
    requires forall k :: 0 <= k < |w.log| && w.log[k].now < w.now - b.lag ==> k < trace[|trace|-1].nodes[i].applied
    ensures var n := trace[|trace|-1].nodes[i];
      && (w.cycles[c].Started? ==> Enabled(b, w, Walk(c, n.applied, n.state)))
      && (w.cycles[c].Walked? && w.cycles[c].seen <= n.applied ==> Enabled(b, w, ReadNodes(c, n.applied, n.state)))
  {
    hide CommittedState, Replication.Execution, Replication.Agree;
    NodeFollowsLog(trace, i, w.log);
  }

  /** To a handle on a live file of a coherent tree, a safe deletion is foreign activity that leaves its replicas alone:
      what is proved of handles among foreign activity holds while cycles run. */
  lemma CollectionSparesHandles(t: Tree, p: Path, nodes: FileIO.Nodes, addr: string, path: string)
    requires TreeCoherent(t) && Unreferenced(t, path) && IsFileAt(t, p) && addr in nodes
    ensures HandleRuns.SameReplicas(nodes, nodes[addr := nodes[addr] - {path}], t[p].replicas)
  {
    ReferencedByID(t, path);
    forall i | 0 <= i < |t[p].replicas|
      ensures t[p].replicas[i].addr != addr || t[p].replicas[i].remotePath != path
    {
      assert t[p].replicas[i] in t[p].replicas;
      assert t[p].replicas[i] == Replica(t[p].replicas[i].addr, t[p].replicas[i].remotePath);
    }
  }

  // ----- runs, action by action -----

  lemma NoActions(b: Bounds, w: World)
    ensures Legal(b, w, []) && After(w, []) == w
  {
  }

  lemma OneMore(b: Bounds, w: World, acts: seq<Action>, here: World, a: Action)
    returns (more: seq<Action>, there: World)
    requires Legal(b, w, acts) && After(w, acts) == here && Enabled(b, here, a)
    ensures more == acts + [a] && there == Next(here, a)
    ensures Legal(b, w, more) && After(w, more) == there
  {
    more, there := acts + [a], Next(here, a);
    assert more[..|acts|] == acts;
    assert forall i :: 0 <= i < |acts| ==> more[..i] == acts[..i];
  }
}

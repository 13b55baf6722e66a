/**
When collection can delete bytes that a reader of a live file would fetch (internal/metadata/gc.go:41-69 and 127-174).

Inside the time bounds a cycle never deletes `/data/{id}` of a live `id` (`GcProtocol.DeleteIsSafe`). A replica of a
live file can still be lost when it lies under another FileID, on a node that some cycle gets to list.
*/
module GcThreats {
  import opened FsTypes
  import opened Paths
  import opened Namespace
  import opened History
  import opened Identity
  import opened GcProtocol

  /** The deletion is of a replica of a live file, on the node that the replica is on. */
  ghost predicate TakesReplica(w: World, c: nat, path: string) {
    var t := CommittedState(w.log).tree;
    c in w.cycles && w.cycles[c].Visiting?
    && exists p :: IsFileAt(t, p) && Replica(Visited(w.cycles[c]), path) in t[p].replicas
  }

  ghost predicate CommitFree(acts: seq<Action>) {
    forall i :: 0 <= i < |acts| ==> !acts[i].Commit?
  }

  ghost predicate LosesReplica(b: Bounds, w: World, acts: seq<Action>, c: nat, path: string) {
    CommitFree(acts) && Legal(b, w, acts) && Enabled(b, After(w, acts), GcDelete(c, path))
      && TakesReplica(After(w, acts), c, path)
  }

  /** Without another commit, collection can get to delete a replica of a live file. */
  ghost predicate CanLoseBytes(b: Bounds, w: World) {
    exists acts, c, path :: LosesReplica(b, w, acts, c, path)
  }

  // ----- the exact condition -----

  /** A live file has the replica `r`, which was minted for the `i`-th command and does not lie under the file's
      FileID. */
  ghost predicate Stray(log: seq<Step>, r: Replica, i: nat) {
    var t := CommittedState(log).tree;
    && i < |log| && log[i].cmd.CreateFile? && r.remotePath == RemotePathOf(log[i].cmd.fileID)
    && exists p :: IsFileAt(t, p) && r in t[p].replicas && r.remotePath != RemotePathOf(t[p].fileID)
  }

  /** A server that has applied at least `from` entries, and is not behind by more than the lag at `now`, may have the
      node registered. */
  ghost predicate MayList(b: Bounds, log: seq<Step>, now: Time, from: nat, addr: string) {
    exists k :: from <= k && UpToDate(b, log, now, k) && addr in CommittedState(log[..k]).dataNodes
  }

  /** A cycle in flight may list the replica's node, or has the replica in its listing, and its clock reading is late
      enough for data of the create's time to be old. */
  ghost predicate CycleThreatens(b: Bounds, w: World, cy: Cycle, r: Replica, i: nat)
    requires i < |w.log|
  {
    && w.log[i].now - b.nodeSkew <= cy.start - GC_SAFETY_WINDOW
    && match cy
       case Started(_) => MayList(b, w.log, w.now, 0, r.addr)
       case Walked(_, _, seen) => MayList(b, w.log, w.now, seen, r.addr)
       case Visiting(start, _, _, nodes, next, files) =>
         || (exists j :: next <= j < |nodes| && nodes[j] == r.addr)
         || (Visited(cy) == r.addr && r.remotePath in files && files[r.remotePath] <= start - GC_SAFETY_WINDOW)
  }

  function Later(a: Time, b: Time): Time {
    if a >= b then a else b
  }

  /** The first moment from now on at which a cycle's clock reading can be late enough. */
  function Ripe(b: Bounds, w: World, i: nat): Time
    requires i < |w.log|
  {
    Later(w.now, w.log[i].now - b.nodeSkew + GC_SAFETY_WINDOW - b.serverSkew)
  }

  ghost predicate Threatens(b: Bounds, w: World, r: Replica, i: nat)
    requires i < |w.log|
  {
    || MayList(b, w.log, Ripe(b, w, i), 0, r.addr)
    || exists c :: c in w.cycles && CycleThreatens(b, w, w.cycles[c], r, i)
  }

  ghost predicate Threatened(b: Bounds, w: World) {
    exists r, i :: Stray(w.log, r, i) && Threatens(b, w, r, i)
  }

  /** Within the window, and after any run with minted creates: collection can get to delete a replica of a live file
      before the next commit exactly when some live file has a stray replica whose node a cycle in flight, or one that
      starts from now on, may list. */
  lemma ReplicasAreSafe(b: Bounds, now: Time, acts: seq<Action>)
    requires WithinWindow(b) && Legal(b, Begin(now), acts)
    requires var log := After(Begin(now), acts).log; forall i :: 0 <= i < |log| ==> Minted(log[i].cmd)
    ensures var w := After(Begin(now), acts); CanLoseBytes(b, w) <==> Threatened(b, w)
  {
    hide *;
    var w := After(Begin(now), acts);
    InvHolds(b, now, acts);
    if CanLoseBytes(b, w) {
      LossIsThreat(b, w);
    }
    if Threatened(b, w) {
      ThreatIsLoss(b, w);
    }
  }

  // ----- a loss needs a threat -----

  lemma LossIsThreat(b: Bounds, w: World)
    requires WithinWindow(b) && Inv(b, w) && CanLoseBytes(b, w)
    ensures Threatened(b, w)
  {
    hide WithinWindow, Inv, Enabled, Legal, After, TakesReplica, Stray, Threatens;
    var acts, c, path :| LosesReplica(b, w, acts, c, path);
    InvStays(b, w, acts);
    var r, i := DeletionIsThreat(b, After(w, acts), c, path);
    SameLog(w, acts);
    StrayIsCreate(w.log, r, i);
    ThreatWasThere(b, w, acts, r, i);
  }

  lemma DeletionIsThreat(b: Bounds, w: World, c: nat, path: string) returns (r: Replica, i: nat)
    requires WithinWindow(b) && Inv(b, w) && Enabled(b, w, GcDelete(c, path)) && TakesReplica(w, c, path)
    ensures Stray(w.log, r, i) && Threatens(b, w, r, i)
  {
    DeleteIsSafe(b, w, c, path);
    var cy := w.cycles[c];
    r := Replica(Visited(cy), path);
    assert CycleInv(b, w, cy);
    assert Dated(b, w.log, path, cy.files[path]);
    i :| 0 <= i < |w.log| && w.log[i].cmd.CreateFile? && path == RemotePathOf(w.log[i].cmd.fileID)
      && cy.files[path] >= w.log[i].now - b.nodeSkew;
    hide CommittedState, Inv, LogInv, FilesDated, MayList;
    assert Stray(w.log, r, i);
    assert CycleThreatens(b, w, cy, r, i);
  }

  lemma {:induction false} SameLog(w: World, acts: seq<Action>)
    requires CommitFree(acts)
    ensures After(w, acts).log == w.log
  {
    if acts != [] {
      SameLog(w, acts[..|acts|-1]);
    }
  }

  /** What threatens after steps without a commit threatened before them. */
  lemma {:induction false} ThreatWasThere(b: Bounds, w: World, acts: seq<Action>, r: Replica, i: nat)
    requires CommitFree(acts) && Legal(b, w, acts) && i < |w.log| == |After(w, acts).log|
        && Threatens(b, After(w, acts), r, i)
    ensures Threatens(b, w, r, i)
  {
    hide Threatens, Enabled;
    if acts != [] {
      var n := |acts| - 1;
      assert forall i :: 0 <= i < n ==> acts[..n][..i] == acts[..i];
      SameLog(w, acts[..n]);
      StepBack(b, After(w, acts[..n]), acts[n], r, i);
      ThreatWasThere(b, w, acts[..n], r, i);
    }
  }

  lemma StepBack(b: Bounds, w: World, a: Action, r: Replica, i: nat)
    requires !a.Commit? && Enabled(b, w, a) && i < |w.log| && Threatens(b, Next(w, a), r, i)
    ensures Threatens(b, w, r, i)
  {
    hide MayList, Dated, Listing;
    var w' := Next(w, a);
    if MayList(b, w'.log, Ripe(b, w', i), 0, r.addr) {
      ListsEarlier(b, w.log, Ripe(b, w, i), Ripe(b, w', i), 0, 0, r.addr);
    } else {
      var c :| c in w'.cycles && CycleThreatens(b, w', w'.cycles[c], r, i);
      if c in w.cycles && w.cycles[c] == w'.cycles[c] {
        SameCycle(b, w, w', c, r, i);
      } else {
        ChangedCycle(b, w, a, c, r, i);
      }
    }
  }

  lemma ListsEarlier(b: Bounds, log: seq<Step>, now: Time, later: Time, from: nat, more: nat, addr: string)
    requires now <= later && from <= more && MayList(b, log, later, more, addr)
    ensures MayList(b, log, now, from, addr)
  {
    var k :| more <= k && UpToDate(b, log, later, k) && addr in CommittedState(log[..k]).dataNodes;
    assert UpToDate(b, log, now, k);
  }

  lemma SameCycle(b: Bounds, w: World, w': World, c: nat, r: Replica, i: nat)
    requires w'.log == w.log && w.now <= w'.now && i < |w.log|
    requires c in w.cycles && c in w'.cycles && w.cycles[c] == w'.cycles[c] && CycleThreatens(b, w', w'.cycles[c], r, i)
    ensures Threatens(b, w, r, i)
  {
    hide MayList;
    if !w.cycles[c].Visiting? {
      var from := if w.cycles[c].Walked? then w.cycles[c].seen else 0;
      ListsEarlier(b, w.log, w.now, w'.now, from, from, r.addr);
    }
    assert CycleThreatens(b, w, w.cycles[c], r, i);
  }

  lemma ChangedCycle(b: Bounds, w: World, a: Action, c: nat, r: Replica, i: nat)
    requires !a.Commit? && Enabled(b, w, a) && i < |w.log|
    requires var w' := Next(w, a);
      c in w'.cycles && (c !in w.cycles || w.cycles[c] != w'.cycles[c]) && CycleThreatens(b, w', w'.cycles[c], r, i)
    ensures Threatens(b, w, r, i)
  {
    hide MayList, Dated, Listing, CommittedState, UpToDate;
    match a
    case Start(_, start) =>
      assert Ripe(b, w, i) == w.now;
    case Walk(_, seen, state) =>
      ListsEarlier(b, w.log, w.now, w.now, 0, seen, r.addr);
      assert CycleThreatens(b, w, w.cycles[c], r, i);
    case ReadNodes(_, seen, state) =>
      ReadIsListing(b, w.log, w.now, w.cycles[c].seen, seen, state, r.addr);
      assert CycleThreatens(b, w, w.cycles[c], r, i);
    case List(_, j) =>
      assert CycleThreatens(b, w, w.cycles[c], r, i);
    case GcDelete(_, path) =>
      assert CycleThreatens(b, w, w.cycles[c], r, i);
    case GcSkip(_, path) =>
      assert CycleThreatens(b, w, w.cycles[c], r, i);
    case _ =>
  }

  lemma ReadIsListing(b: Bounds, log: seq<Step>, now: Time, from: nat, seen: nat, state: State, addr: string)
    requires from <= seen && UpToDate(b, log, now, seen) && Replication.Agree(state, CommittedState(log[..seen]))
    requires addr in state.dataNodes
    ensures MayList(b, log, now, from, addr)
  {
  }

  // ----- a threat can be carried out -----

  lemma ThreatIsLoss(b: Bounds, w: World)
    requires Inv(b, w) && Threatened(b, w)
    requires forall i :: 0 <= i < |w.log| ==> Minted(w.log[i].cmd)
    ensures CanLoseBytes(b, w)
  {
    var r, i :| Stray(w.log, r, i) && Threatens(b, w, r, i);
    hide Inv, Enabled, Legal, After, TakesReplica, MayList, Stray, CycleThreatens, Minted, CommittedState;
    StrayIsCreate(w.log, r, i);
    NoActions(b, w);
    var acts, c;
    if MayList(b, w.log, Ripe(b, w, i), 0, r.addr) {
      acts, c := FromNothing(b, w, r, i);
    } else {
      c :| c in w.cycles && CycleThreatens(b, w, w.cycles[c], r, i);
      acts := FromCycle(b, w, [], w, c, r, i);
    }
    assert LosesReplica(b, w, acts, c, r.remotePath);
  }

  lemma StrayIsCreate(log: seq<Step>, r: Replica, i: nat)
    requires Stray(log, r, i)
    ensures i < |log| && log[i].cmd.CreateFile? && r.remotePath == RemotePathOf(log[i].cmd.fileID)
  {
  }

  /** The FileID of a stray replica never lives: its create landed on the file that has the replica. */
  lemma StrayNeverLives(log: seq<Step>, r: Replica, i: nat, k: nat)
    requires FreshIDs(log) && Stray(log, r, i) && k <= |log|
    requires forall j :: 0 <= j < |log| ==> Minted(log[j].cmd)
    ensures log[i].cmd.fileID !in LiveIDs(CommittedState(log[..k]).tree)
  {
    StrayLanded(log, r, i);
    FreshPrefix(log, k);
    IDsAreUnique(0, log[..k]);
    if i < k {
      assert log[..k][..i] == log[..i] && log[..k][i] == log[i];
      assert Landed(0, log[..k], i);
      LandedNeverLives(0, log[..k], i);
    } else {
      NotYetCreated(log, i, k);
    }
  }

  lemma NotYetCreated(log: seq<Step>, i: nat, k: nat)
    requires FreshIDs(log) && k <= i < |log| && log[i].cmd.CreateFile?
    ensures log[i].cmd.fileID !in CreatedIDs(log[..k])
  {
  }

  lemma StrayLanded(log: seq<Step>, r: Replica, i: nat)
    requires FreshIDs(log) && Stray(log, r, i)
    requires forall j :: 0 <= j < |log| ==> Minted(log[j].cmd)
    ensures Landed(0, log, i)
  {
    var t := CommittedState(log).tree;
    var p :| IsFileAt(t, p) && r in t[p].replicas && r.remotePath != RemotePathOf(t[p].fileID);
    ReplicasComeFromCreate(0, log, p);
    var j :| 0 <= j < |log| && GaveReplicas(0, log, j, t[p]);
    assert Minted(log[j].cmd) && Coherent(log[j].cmd.fileID, t[p].replicas);
    var k :| 0 <= k < |t[p].replicas| && t[p].replicas[k] == r;
    RemotePathInjective(log[j].cmd.fileID, log[i].cmd.fileID);
  }

  /** The run goes on from `w` and has come to `here` without a commit; the cycle `c` threatens. */
  ghost predicate OnTheWay(b: Bounds, w: World, done: seq<Action>, here: World, c: nat, r: Replica, i: nat) {
    && Inv(b, w) && CommitFree(done) && Legal(b, w, done) && After(w, done) == here
    && (forall j :: 0 <= j < |w.log| ==> Minted(w.log[j].cmd)) && Stray(w.log, r, i)
    && here.log == w.log && i < |w.log| && c in here.cycles && CycleThreatens(b, here, here.cycles[c], r, i)
  }

  lemma FromCycle(b: Bounds, w: World, done: seq<Action>, here: World, c: nat, r: Replica, i: nat)
    returns (acts: seq<Action>)
    requires OnTheWay(b, w, done, here, c, r, i)
    ensures LosesReplica(b, w, acts, c, r.remotePath)
  {
    match here.cycles[c]
    case Started(_) => acts := FromStarted(b, w, done, here, c, r, i);
    case Walked(_, _, _) => acts := FromWalked(b, w, done, here, c, r, i);
    case Visiting(_, _, _, _, _, _) => acts := FromVisiting(b, w, done, here, c, r, i);
  }

  lemma FromNothing(b: Bounds, w: World, r: Replica, i: nat) returns (acts: seq<Action>, c: nat)
    requires Inv(b, w) && Stray(w.log, r, i) && forall j :: 0 <= j < |w.log| ==> Minted(w.log[j].cmd)
    requires i < |w.log| && MayList(b, w.log, Ripe(b, w, i), 0, r.addr)
    ensures LosesReplica(b, w, acts, c, r.remotePath)
  {
    hide Inv, Minted, Stray, Legal, After, MayList;
    c := 0;
    NoActions(b, w);
    var here := w;
    acts, here := OneMore(b, w, [], here, Tick(Ripe(b, w, i) - w.now));
    acts, here := OneMore(b, w, acts, here, Start(0, here.now + b.serverSkew));
    assert CycleThreatens(b, here, here.cycles[0], r, i);
    acts := FromStarted(b, w, acts, here, 0, r, i);
  }

  lemma FromStarted(b: Bounds, w: World, done: seq<Action>, here: World, c: nat, r: Replica, i: nat)
    returns (acts: seq<Action>)
    requires OnTheWay(b, w, done, here, c, r, i) && here.cycles[c].Started?
    ensures LosesReplica(b, w, acts, c, r.remotePath)
  {
    hide Inv, Minted, Stray, Legal, After, CommittedState, Replication.Agree, LiveIDs;
    var k: nat :| UpToDate(b, w.log, here.now, k) && r.addr in CommittedState(w.log[..k]).dataNodes;
    assert k <= |w.log|;
    hide UpToDate;
    var s := CommittedState(w.log[..k]);
    AgreesWithItself(s);
    var there;
    acts, there := OneMore(b, w, done, here, Walk(c, k, s));
    assert MayList(b, w.log, there.now, k, r.addr);
    assert CycleThreatens(b, there, there.cycles[c], r, i);
    acts := FromWalked(b, w, acts, there, c, r, i);
  }

  lemma AgreesWithItself(s: State)
    ensures Replication.Agree(s, s)
  {
  }

  lemma FromWalked(b: Bounds, w: World, done: seq<Action>, here: World, c: nat, r: Replica, i: nat)
    returns (acts: seq<Action>)
    requires OnTheWay(b, w, done, here, c, r, i) && here.cycles[c].Walked?
    ensures LosesReplica(b, w, acts, c, r.remotePath)
  {
    hide Inv, Minted, Stray, Legal, After, CommittedState, Replication.Agree, LiveIDs;
    var k :| here.cycles[c].seen <= k && UpToDate(b, w.log, here.now, k)
        && r.addr in CommittedState(w.log[..k]).dataNodes;
    assert k <= |w.log|;
    hide UpToDate;
    var s := CommittedState(w.log[..k]);
    AgreesWithItself(s);
    var there;
    acts, there := OneMore(b, w, done, here, ReadNodes(c, k, s));
    assert CycleThreatens(b, there, there.cycles[c], r, i);
    acts := FromVisiting(b, w, acts, there, c, r, i);
  }

  lemma FromVisiting(b: Bounds, w: World, done: seq<Action>, here: World, c: nat, r: Replica, i: nat)
    returns (acts: seq<Action>)
    requires OnTheWay(b, w, done, here, c, r, i) && here.cycles[c].Visiting?
    ensures LosesReplica(b, w, acts, c, r.remotePath)
  {
    WayIsOpen(b, w, done, here, c, r, i);
    hide Inv, Minted, Legal, After, CommittedState, Dated, IsTemp, TrimData, Stray, Listing;
    var cy := here.cycles[c];
    if Visited(cy) == r.addr && r.remotePath in cy.files && cy.files[r.remotePath] <= cy.start - GC_SAFETY_WINDOW {
      acts := done;
      TakesStray(w.log, r, i, here, c);
    } else {
      var j :| cy.next <= j < |cy.nodes| && cy.nodes[j] == r.addr;
      acts := ListAndDelete(b, w, done, here, c, r, i, j);
    }
  }

  /** The data are there, with the oldest time they can have, and the cycle comes to the node. */
  lemma ListAndDelete(b: Bounds, w: World, done: seq<Action>, here: World, c: nat, r: Replica, i: nat, j: nat)
    returns (acts: seq<Action>)
    requires CommitFree(done) && Legal(b, w, done) && After(w, done) == here && here.log == w.log && i < |w.log|
    requires c in here.cycles && here.cycles[c].Visiting? && here.cycles[c].next <= j < |here.cycles[c].nodes|
    requires here.cycles[c].nodes[j] == r.addr && w.log[i].now - b.nodeSkew <= here.cycles[c].start - GC_SAFETY_WINDOW
    requires Stray(w.log, r, i) && Dated(b, w.log, r.remotePath, w.log[i].now - b.nodeSkew) && !IsTemp(r.remotePath)
    requires TrimData(r.remotePath) !in here.cycles[c].valid
    ensures LosesReplica(b, w, acts, c, r.remotePath)
  {
    hide Legal, After, CommittedState, Dated, IsTemp, TrimData, Stray, TakesReplica;
    var there;
    acts, there := OneMore(b, w, done, here, ClientWrite(r.addr, r.remotePath, w.log[i].now - b.nodeSkew));
    acts, there := OneMore(b, w, acts, there, List(c, j));
    TakesStray(w.log, r, i, there, c);
  }

  lemma WayIsOpen(b: Bounds, w: World, done: seq<Action>, here: World, c: nat, r: Replica, i: nat)
    requires OnTheWay(b, w, done, here, c, r, i) && !here.cycles[c].Started?
    ensures TrimData(r.remotePath) !in here.cycles[c].valid && !IsTemp(r.remotePath)
    ensures Dated(b, w.log, r.remotePath, w.log[i].now - b.nodeSkew)
  {
    hide Inv, Minted, Legal, After, CommittedState, Dated, IsTemp, TrimData, Stray, CycleThreatens;
    StrayIsUsable(b, w, r, i);
    InvStays(b, w, done);
    OrphanInCycle(b, here, c, r, i);
  }

  lemma StrayIsUsable(b: Bounds, w: World, r: Replica, i: nat)
    requires Inv(b, w) && Stray(w.log, r, i)
    ensures Dated(b, w.log, r.remotePath, w.log[i].now - b.nodeSkew) && !IsTemp(r.remotePath)
  {
    assert LogInv(w);
  }

  /** No cycle's identities protect a stray replica. */
  lemma OrphanInCycle(b: Bounds, w: World, c: nat, r: Replica, i: nat)
    requires Inv(b, w) && c in w.cycles && !w.cycles[c].Started? && Stray(w.log, r, i)
    requires forall j :: 0 <= j < |w.log| ==> Minted(w.log[j].cmd)
    ensures TrimData(r.remotePath) !in w.cycles[c].valid
  {
    assert CycleInv(b, w, w.cycles[c]);
    StrayNeverLives(w.log, r, i, w.cycles[c].seen);
    TrimUndoesRemotePath(w.log[i].cmd.fileID);
  }

  lemma TakesStray(log: seq<Step>, r: Replica, i: nat, w: World, c: nat)
    requires w.log == log && Stray(log, r, i) && c in w.cycles && w.cycles[c].Visiting?
        && Visited(w.cycles[c]) == r.addr
    ensures TakesReplica(w, c, r.remotePath)
  {
    assert r == Replica(r.addr, r.remotePath);
  }

  // ----- when nothing is in flight -----

  /** A live file has a replica that lies under another FileID on a registered node. */
  ghost predicate StrayOnRegistered(s: State) {
    exists p, r :: IsFileAt(s.tree, p) && r in s.tree[p].replicas && r.remotePath != RemotePathOf(s.tree[p].fileID)
      && r.addr in s.dataNodes
  }

  /** When no cycle is in flight and every commit is older than the lag, the condition speaks of the committed state
      alone. */
  lemma QuietReplicasAreSafe(b: Bounds, now: Time, acts: seq<Action>)
    requires WithinWindow(b) && Legal(b, Begin(now), acts)
    requires var w := After(Begin(now), acts);
      w.cycles == map[] && forall i :: 0 <= i < |w.log| ==> Minted(w.log[i].cmd) && w.log[i].now < w.now - b.lag
    ensures var w := After(Begin(now), acts); CanLoseBytes(b, w) <==> StrayOnRegistered(CommittedState(w.log))
  {
    hide *;
    var w := After(Begin(now), acts);
    ReplicasAreSafe(b, now, acts);
    QuietThreat(b, w);
  }

  lemma QuietThreat(b: Bounds, w: World)
    requires w.cycles == map[] && forall i :: 0 <= i < |w.log| ==> Minted(w.log[i].cmd) && w.log[i].now < w.now - b.lag
    ensures Threatened(b, w) <==> StrayOnRegistered(CommittedState(w.log))
  {
    var s := CommittedState(w.log);
    assert w.log[..|w.log|] == w.log;
    if Threatened(b, w) {
      var r, i :| Stray(w.log, r, i) && Threatens(b, w, r, i);
      QuietList(b, w, Ripe(b, w, i), r.addr);
      hide CommittedState, MayList;
      assert StrayOnRegistered(s);
    }
    if StrayOnRegistered(s) {
      var p, r :| IsFileAt(s.tree, p) && r in s.tree[p].replicas && r.remotePath != RemotePathOf(s.tree[p].fileID)
        && r.addr in s.dataNodes;
      var i := StrayHasCreate(w.log, p, r);
      assert MayList(b, w.log, Ripe(b, w, i), 0, r.addr);
    }
  }

  lemma QuietList(b: Bounds, w: World, ripe: Time, addr: string)
    requires ripe >= w.now && forall i :: 0 <= i < |w.log| ==> w.log[i].now < w.now - b.lag
    ensures MayList(b, w.log, ripe, 0, addr) <==> addr in CommittedState(w.log).dataNodes
  {
    assert w.log[..|w.log|] == w.log && UpToDate(b, w.log, ripe, |w.log|);
    hide CommittedState;
    forall k: nat | UpToDate(b, w.log, ripe, k)
      ensures k == |w.log|
    {
      if w.log != [] { assert w.log[|w.log|-1].now < ripe - b.lag; }
    }
  }

  lemma StrayHasCreate(log: seq<Step>, p: Path, r: Replica) returns (i: nat)
    requires forall j :: 0 <= j < |log| ==> Minted(log[j].cmd)
    requires var t := CommittedState(log).tree;
      IsFileAt(t, p) && r in t[p].replicas && r.remotePath != RemotePathOf(t[p].fileID)
    ensures Stray(log, r, i)
  {
    var m := CommittedState(log).tree[p];
    ReplicasComeFromCreate(0, log, p);
    i :| 0 <= i < |log| && GaveReplicas(0, log, i, m);
    assert Minted(log[i].cmd) && Coherent(log[i].cmd.fileID, m.replicas);
    var k :| 0 <= k < |m.replicas| && m.replicas[k] == r;
  }

  /** In a coherent tree nothing is stray: no cycle, in flight or to come, can delete a replica of a live file. */
  lemma CoherentIsSafe(b: Bounds, w: World)
    requires WithinWindow(b) && Inv(b, w) && TreeCoherent(CommittedState(w.log).tree)
    ensures !CanLoseBytes(b, w)
  {
    forall r, i: nat
      ensures !Stray(w.log, r, i)
    {
      NothingStray(w.log, r, i);
    }
    hide Stray, Threatens, CanLoseBytes, Inv, WithinWindow;
    assert !Threatened(b, w);
    if CanLoseBytes(b, w) {
      LossIsThreat(b, w);
    }
  }

  lemma NothingStray(log: seq<Step>, r: Replica, i: nat)
    requires TreeCoherent(CommittedState(log).tree)
    ensures !Stray(log, r, i)
  {
    forall p | IsFileAt(CommittedState(log).tree, p)
      ensures Coherent(CommittedState(log).tree[p].fileID, CommittedState(log).tree[p].replicas)
    {
    }
  }
}

/**
Runs in which collection deletes bytes of a live file, on a cluster with one registered data node
(internal/metadata/gc.go:11-23, internal/metadata/apply.go:99-115), and what follows for the bounds.
*/
module GcRuns {
  import opened FsTypes
  import opened Paths
  import opened Namespace
  import opened History
  import opened Identity
  import opened GcProtocol
  import opened GcThreats
  import opened SmallCluster

  // ----- the time bounds are exact -----

  /** Collection is safe under these bounds: in no run does a cycle delete the data of a live file. */
  ghost predicate SafeUnder(b: Bounds) {
    forall now, acts, c, path ::
      Legal(b, Begin(now), acts) && Enabled(b, After(Begin(now), acts), GcDelete(c, path)) ==>
      Unreferenced(CommittedState(After(Begin(now), acts).log).tree, path)
  }

  /** Collection is safe exactly when lag and clock errors together stay below the 30 second window. */
  lemma SafetyWindow(b: Bounds)
    ensures SafeUnder(b) <==> b.lag + b.nodeSkew + b.serverSkew < 30_000_000_000
  {
    if WithinWindow(b) {
      forall now, acts, c, path | Legal(b, Begin(now), acts) && Enabled(b, After(Begin(now), acts), GcDelete(c, path))
        ensures Unreferenced(CommittedState(After(Begin(now), acts).log).tree, path)
      {
        InvHolds(b, now, acts);
        DeleteIsSafe(b, After(Begin(now), acts), c, path);
      }
    } else {
      var acts, path := LateWalk(b);
    }
  }

  // ----- a small cluster -----

  const JOIN: Command := Heartbeat("dn")

  function Create(id: string, createMode: CreateMode): Command {
    CreateFile("f", 0, [Replica("dn", RemotePathOf(id))], createMode, id)
  }

  const JOINED: seq<Step> := [Step(JOIN, 0)]

  function Created(): seq<Step> {
    JOINED + [Step(Create("A", CreateIfNotExist), 0)]
  }

  function Overwritten(): seq<Step> {
    Created() + [Step(Create("B", OverwriteIfExists), 0)]
  }

  function OnlyF(id: string, place: string): Tree {
    InitialTree(0)[["f"] := NewRecord("f", id).(replicas := [Replica("dn", RemotePathOf(place))])]
  }

  lemma JoinedState(log: seq<Step>)
    requires log == JOINED
    ensures CommittedState(log) == State(InitialTree(0), ["dn"], MEMBERS)
  {
    assert CommittedState(log[..0]) == InitialState(0);
  }

  function NewF(t: Tree, id: string): Meta {
    var was := ["f"] in t;
    Meta("f", false, 0, FILE_MODE, if was then t[["f"]].createdAt else 0, 0, Pending, if was then t[["f"]].fileID
      else id,
         [Replica("dn", RemotePathOf(id))])
  }

  lemma CreatesF(t: Tree, id: string, createMode: CreateMode)
    requires IsDirAt(t, []) && t[[]].modTime == 0
        && (["f"] in t ==> IsFileAt(t, ["f"]) && createMode == OverwriteIfExists)
    ensures Apply(State(t, ["dn"], MEMBERS), Create(id, createMode), 0).state
        == State(t[["f"] := NewF(t, id)], ["dn"], MEMBERS)
  {
    ComponentsOfName("f");
    hide Components, CreateIn;
    CreatesAt(t, ["f"], id, createMode);
  }

  lemma CreatesAt(t: Tree, p: Path, id: string, createMode: CreateMode)
    requires IsDirAt(t, []) && t[[]].modTime == 0 && (p in t ==> IsFileAt(t, p) && createMode == OverwriteIfExists)
    requires p == ["f"]
    ensures CreateIn(t, p, 0, [Replica("dn", RemotePathOf(id))], createMode, id, 0) == (t[p := NewF(t, id)], Done)
  {
    TouchedAtZero(t);
    hide Touch, RemotePathOf;
    assert Parent(p) == [] && Last(p) == "f";
  }

  lemma TouchedAtZero(t: Tree)
    requires [] in t && t[[]].modTime == 0
    ensures Touch(t, [], 0) == t
  {
  }

  lemma CreatedState()
    ensures CommittedState(Created()) == State(OnlyF("A", "A"), ["dn"], MEMBERS)
  {
    assert Created()[..1] == JOINED;
    JoinedState(JOINED);
    CreatesF(InitialTree(0), "A", CreateIfNotExist);
    hide Apply;
  }

  lemma OverwrittenState()
    ensures CommittedState(Overwritten()) == State(OnlyF("A", "B"), ["dn"], MEMBERS)
  {
    assert Overwritten()[..2] == Created();
    CreatedState();
    CreatesF(OnlyF("A", "A"), "B", OverwriteIfExists);
    assert OnlyF("A", "A")[["f"] := OnlyF("A", "B")[["f"]]] == OnlyF("A", "B");
    hide Apply;
  }

  lemma OneLetterIsUsable(id: string)
    requires |id| == 1
    ensures Usable(id)
  {
    var path := RemotePathOf(id);
    assert |path| == 7 && path[3..][0] == 't';
  }

  lemma NoneCreated(log: seq<Step>)
    requires log == [] || log == JOINED
    ensures CreatedIDs(log) == {}
  {
  }

  lemma OneCreated()
    ensures CreatedIDs(Created()) == {"A"}
  {
    assert Created()[1].cmd.fileID == "A";
  }

  // ----- outside the bounds -----

  /** A tree that is too far behind: a file is created and written, and a walk that has not applied the create lets the
      cycle delete the data. The run takes no longer than the window. */
  lemma LateWalk(b: Bounds) returns (acts: seq<Action>, path: string)
    requires !WithinWindow(b)
    ensures Legal(b, Begin(0), acts) && Enabled(b, After(Begin(0), acts), GcDelete(0, path))
    ensures !Unreferenced(CommittedState(After(Begin(0), acts).log).tree, path)
    ensures After(Begin(0), acts).now <= GC_SAFETY_WINDOW
  {
    hide After, Legal, CommittedState, LiveIDs, CreatedIDs, Replication.Agree, Usable, IsTemp, RemotePathOf, TrimData;
    var lag := if b.lag <= GC_SAFETY_WINDOW then b.lag else GC_SAFETY_WINDOW;
    var slow := if b.nodeSkew <= GC_SAFETY_WINDOW - lag then b.nodeSkew else GC_SAFETY_WINDOW - lag;
    path := RemotePathOf("A");
    var w;
    acts, w := CreateRun(b);
    FitForDelete();
    DatedA(b, slow);
    acts, w := OneMore(b, Begin(0), acts, w, ClientWrite("dn", path, 0 - slow));
    acts, w := OneMore(b, Begin(0), acts, w, Tick(lag));
    acts, w := EarlyCycle(b, acts, w, path, slow);
    CreatedState();
    assert IsFileAt(OnlyF("A", "A"), ["f"]);
  }

  /** A cycle whose server has applied the heartbeat only. */
  lemma EarlyCycle(b: Bounds, done: seq<Action>, here: World, path: string, slow: nat)
    returns (acts: seq<Action>, there: World)
    requires Legal(b, Begin(0), done) && After(Begin(0), done) == here && here.log == Created() && here.now <= b.lag
    requires here.now <= GC_SAFETY_WINDOW - slow <= here.now + b.serverSkew
    requires path in StoreAt(here, "dn") && StoreAt(here, "dn")[path] == 0 - slow && !IsTemp(path)
    ensures Legal(b, Begin(0), acts) && After(Begin(0), acts) == there && there.log == here.log && there.now == here.now
    ensures Enabled(b, there, GcDelete(0, path))
  {
    FitForDelete();
    hide After, Legal, CommittedState, LiveIDs, Replication.Agree, IsTemp, TrimData;
    var w := here;
    acts, w := OneMore(b, Begin(0), done, w, Start(0, GC_SAFETY_WINDOW - slow));
    assert w.log[..1] == JOINED;
    acts, w := OneMore(b, Begin(0), acts, w, Walk(0, 1, State(InitialTree(0), ["dn"], MEMBERS)));
    acts, w := OneMore(b, Begin(0), acts, w, ReadNodes(0, 1, State(InitialTree(0), ["dn"], MEMBERS)));
    acts, w := OneMore(b, Begin(0), acts, w, List(0, 0));
    there := w;
  }

  lemma FitForDelete()
    ensures var s := State(InitialTree(0), ["dn"], MEMBERS);
      Replication.Agree(s, CommittedState(JOINED)) && LiveIDs(s.tree) == {} && !IsTemp(RemotePathOf("A"))
  {
    JoinedState(JOINED);
    OneLetterIsUsable("A");
  }

  lemma DatedA(b: Bounds, slow: nat)
    requires slow <= b.nodeSkew
    ensures Dated(b, Created(), RemotePathOf("A"), 0 - slow)
  {
    assert Created()[1].cmd.CreateFile? && Created()[1].cmd.fileID == "A";
  }

  lemma CreateRun(b: Bounds) returns (acts: seq<Action>, w: World)
    ensures Legal(b, Begin(0), acts) && After(Begin(0), acts) == w && w == World(0, Created(), map[], map[])
  {
    hide After, Legal, CreatedIDs, Usable;
    w := Begin(0);
    NoActions(b, w);
    NoneCreated([]);
    NoneCreated(JOINED);
    OneLetterIsUsable("A");
    acts, w := OneMore(b, Begin(0), [], w, Action.Commit(JOIN));
    assert w.log == JOINED;
    acts, w := OneMore(b, Begin(0), acts, w, Action.Commit(Create("A", CreateIfNotExist)));
  }

  // ----- within any bounds -----

  /** Two creates of one path, the second in overwrite mode, break the tie between identity and physical path: the file
      keeps identity "A", its replica lies under "B" on a registered node, and within any bounds a cycle can get to
      delete it. */
  lemma OverwriteLosesBytes(b: Bounds) returns (acts: seq<Action>)
    ensures Legal(b, Begin(0), acts) && After(Begin(0), acts).log == Overwritten()
    ensures CanLoseBytes(b, After(Begin(0), acts))
  {
    hide After, Legal, CreatedIDs, Usable, Inv, CanLoseBytes;
    var w;
    acts, w := CreateRun(b);
    OneCreated();
    OneLetterIsUsable("B");
    acts, w := OneMore(b, Begin(0), acts, w, Action.Commit(Create("B", OverwriteIfExists)));
    InvHolds(b, 0, acts);
    StrayB(b, w);
    ThreatIsLoss(b, w);
  }

  lemma StrayB(b: Bounds, w: World)
    requires w.log == Overwritten()
    ensures Threatened(b, w) && forall i :: 0 <= i < |w.log| ==> Minted(w.log[i].cmd)
  {
    var r := Replica("dn", RemotePathOf("B"));
    BIsStray(w.log, r);
    assert w.log[..3] == w.log;
    OverwrittenState();
    AllMinted(w.log);
    hide CommittedState, Minted, Stray, RemotePathOf;
    assert UpToDate(b, w.log, Ripe(b, w, 2), 3);
    assert MayList(b, w.log, Ripe(b, w, 2), 0, "dn");
    assert Threatens(b, w, r, 2);
  }

  lemma BIsStray(log: seq<Step>, r: Replica)
    requires log == Overwritten() && r == Replica("dn", RemotePathOf("B"))
    ensures Stray(log, r, 2)
  {
    OverwrittenState();
    assert log[2].cmd == Create("B", OverwriteIfExists);
    assert RemotePathOf("A")[6] != RemotePathOf("B")[6];
    hide CommittedState, RemotePathOf;
    assert IsFileAt(OnlyF("A", "B"), ["f"]) && r in OnlyF("A", "B")[["f"]].replicas
        && OnlyF("A", "B")[["f"]].fileID == "A";
  }

  /** When the replica's node leaves the cluster no cycle that starts later visits it, and nothing is lost. */
  lemma DepartedNodeKeepsBytes(b: Bounds, w: World)
    requires WithinWindow(b) && Inv(b, w) && w.cycles == map[]
    requires w.log == Overwritten() + [Step(RemoveDataNode("dn"), 0)] && w.now > b.lag
    ensures !CanLoseBytes(b, w) && !TreeCoherent(CommittedState(w.log).tree)
  {
    DepartedState(w.log);
    var s := CommittedState(w.log);
    hide CommittedState, Inv, WithinWindow, CanLoseBytes, Minted, Threatened, TreeCoherent, IsFileAt;
    QuietThreat(b, w);
    if CanLoseBytes(b, w) {
      LossIsThreat(b, w);
    }
  }

  lemma DepartedState(log: seq<Step>)
    requires log == Overwritten() + [Step(RemoveDataNode("dn"), 0)]
    ensures CommittedState(log).dataNodes == [] && !TreeCoherent(CommittedState(log).tree)
    ensures forall i :: 0 <= i < |log| ==> Minted(log[i].cmd)
  {
    assert log[..3] == Overwritten();
    OverwrittenState();
    AllMinted(log);
    assert CommittedState(log).tree == OnlyF("A", "B") && CommittedState(log).dataNodes == [];
    hide CommittedState, Apply, Minted;
    NotCoherent();
  }

  lemma NotCoherent()
    ensures !TreeCoherent(OnlyF("A", "B"))
  {
    var m := OnlyF("A", "B")[["f"]];
    assert RemotePathOf("A")[6] != RemotePathOf("B")[6];
    assert IsFileAt(OnlyF("A", "B"), ["f"]) && m.replicas[0].remotePath != RemotePathOf(m.fileID);
  }

  lemma AllMinted(log: seq<Step>)
    requires log == Overwritten() || log == Overwritten() + [Step(RemoveDataNode("dn"), 0)]
    ensures forall i :: 0 <= i < |log| ==> Minted(log[i].cmd)
  {
  }
}

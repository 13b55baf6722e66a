/**
Short runs on one data node in which a handle's sizes, its status or its path go wrong
(internal/client/file_handle.go:107-169), and in which a delete destroys data of a live file. The general statements are
in `HandleRuns` and `Services`; these runs show that their conditions are met in reachable states.
*/
module HandleWitnesses {
  import opened Paths
  import opened FsTypes
  import opened Namespace
  import opened ByteFiles
  import opened DataNodes
  import opened Placement
  import opened FileIO
  import opened History
  import opened HandleRuns
  import opened Services
  import opened SmallCluster

  const CREATE := Flags(true, false, false)

  /** A cluster with an empty tree and one empty data node. */
  function OneNode(): Deployment {
    Deployment(State(InitialTree(0), ["dn"], MEMBERS), map["dn" := map[]])
  }

  function NewHandle(path: string, id: string): Handle {
    Handle(path, id, [Replica("dn", RemotePathOf(id))], 0, Pending)
  }

  lemma OneReplica(path: string, id: string)
    ensures Selected(["dn"], path, id, REPLICA_COUNT) == [Replica("dn", RemotePathOf(id))]
  {
  }

  lemma OpensNew(d: Deployment, n: Name, id: string)
    requires IsComponent(n) && IsDirAt(d.mds.tree, []) && [n] !in d.mds.tree && d.mds.dataNodes == ["dn"]
    ensures OpenAt(d, n, CREATE, id, 0, [], CALM)
         == (d.(mds := d.mds.(tree := Touch(d.mds.tree, [], 0)[[n] := NewRecord(n, id)])), Opened(NewHandle(n, id)))
  {
    ComponentsOfName(n);
    OneReplica(n, id);
    assert Parent([n]) == [] && Last([n]) == n;
    ChecksAreEarly(d.mds, n, 0, CreateIfNotExist, id, 0);
    hide Selected;
  }

  const F_CREATED: Tree := InitialTree(0)[["f"] := NewRecord("f", "A")]

  lemma OpensF()
    ensures OpenAt(OneNode(), "f", CREATE, "A", 0, [], CALM)
        == (OneNode().(mds := State(F_CREATED, ["dn"], MEMBERS)), Opened(NewHandle("f", "A")))
  {
    OpensNew(OneNode(), "f", "A");
    assert Touch(InitialTree(0), [], 0) == InitialTree(0);
  }

  /** An empty write that every replica takes, and the sizes are out of order. */
  lemma EmptyWriteHappens()
    ensures var (d1, r) := OpenAt(OneNode(), "f", CREATE, "A", 0, [], CALM);
      && r.Opened? && SizesOrdered(d1, r.h) && WriteSucceeds(d1, r.h, [], 1, [Served])
      && var (d2, h2) := WriteAt(d1, r.h, [], 1, 0, [Served], Served); !SizesOrdered(d2, h2)
  {
    OpensF();
    ComponentsOfName("f");
    var d1 := OneNode().(mds := State(F_CREATED, ["dn"], MEMBERS));
    var h := NewHandle("f", "A");
    assert WriteOk(d1.nodes, h.replicas[0], [], Served);
    assert SizesOrdered(d1, h) && WriteSucceeds(d1, h, [], 1, [Served]);
    assert Held(d1.nodes, h.replicas[0]) == [];
    WriteKeepsOrder(d1, h, [], 1, 0, [Served], Served);
  }

  const G_MOVED: Tree := InitialTree(0)[["g"] := NewRecord("g", "A")]

  lemma RenamesToG()
    ensures Apply(State(F_CREATED, ["dn"], MEMBERS), Rename("f", "g"), 0)
        == Applied(State(G_MOVED, ["dn"], MEMBERS), Done)
  {
    ComponentsOfName("f");
    ComponentsOfName("g");
    hide Components, Renamed, RenameIn;
    RenameAccepted(["f"], ["g"]);
    RenamedTree(["f"], ["g"]);
  }

  lemma RenameAccepted(src: Path, dst: Path)
    requires src == ["f"] && dst == ["g"]
    ensures RenameIn(F_CREATED, src, dst, 0) == (Renamed(F_CREATED, src, dst, 0), Done)
  {
    hide Renamed;
    assert Parent(src) == [] == Parent(dst) && Last(dst) == "g";
  }

  lemma RenamedTree(src: Path, dst: Path)
    requires src == ["f"] && dst == ["g"]
    ensures Renamed(F_CREATED, src, dst, 0) == G_MOVED
  {
    hide Renamed;
    forall q
      ensures q in Renamed(F_CREATED, src, dst, 0) <==> q in G_MOVED
      ensures q in G_MOVED ==> Renamed(F_CREATED, src, dst, 0)[q] == G_MOVED[q]
    {
      MovedTo(src, dst, q);
    }
  }

  lemma MovedTo(src: Path, dst: Path, q: Path)
    requires src == ["f"] && dst == ["g"]
    ensures q in Renamed(F_CREATED, src, dst, 0) <==> q in G_MOVED
    ensures q in G_MOVED ==> Renamed(F_CREATED, src, dst, 0)[q] == G_MOVED[q]
  {
    RenamedAt(F_CREATED, src, dst, 0, q);
    hide Renamed;
    assert src in F_CREATED && dst !in F_CREATED && Below(src, src) && Below(dst, dst) && Rebase(dst, dst, src) == src;
    assert |q| == 1 || q == [] || q !in F_CREATED;
    if Below(dst, q) {
      if q != dst { assert |Rebase(q, dst, src)| > 1; }
    }
    if Below(src, q) && q in F_CREATED {
      assert q == src;
    }
  }

  /** One byte written through a new handle with one replica. */
  lemma ByteWritten(d: Deployment, h: Handle, r: Replica, b: byte)
    requires h.replicas == [r] && h.size == 0 && h.status == Pending && r.addr in d.nodes
        && r.remotePath !in d.nodes[r.addr]
    ensures WriteSucceeds(d, h, [b], 0, [Served])
    ensures WriteAt(d, h, [b], 0, 0, [Served], Served)
         == (Deployment(ResizeCall(d.mds, h.path, 1, 0, Served),
             d.nodes[r.addr := d.nodes[r.addr][r.remotePath := File([b], 0)]]),
             h.(size := 1, status := Complete))
  {
    assert WriteOk(d.nodes, h.replicas[0], [b], Served);
    assert Overlay([], 0, [b]) == [b];
    assert WriteFirst(d.nodes, h.replicas, 0, 0, [b], 0, [Served]) == d.nodes;
    hide ResizeCall, Overlay;
  }

  /** A handle outlives a rename of its file and a new file takes the path. Its write is recorded nowhere, and its
      truncation empties the other file and leaves its own byte. */
  lemma StaleHandleHappens()
    ensures var (d1, r1) := OpenAt(OneNode(), "f", CREATE, "A", 0, [], CALM);
      var d2 := d1.(mds := Apply(d1.mds, Rename("f", "g"), 0).state);
      r1.Opened? && WriteSucceeds(d2, r1.h, [5], 0, [Served])
      && var (d3, h3) := WriteAt(d2, r1.h, [5], 0, 0, [Served], Served);
      IsFileAt(d3.mds.tree, ["g"]) && d3.mds.tree[["g"]].fileID == h3.fileID && d3.mds.tree[["g"]].size < h3.size
      && var (d4, r4) := OpenAt(d3, "f", CREATE, "B", 0, [], CALM);
      r4.Opened? && WriteSucceeds(d4, r4.h, [7], 0, [Served])
      && var (d5, h5) := WriteAt(d4, r4.h, [7], 0, 0, [Served], Served);
      TruncateSucceeds(d5, h3.path, 0, 0, [Served], Served) && SizesOrdered(d5, h5)
      && var (d6, h6) := TruncateVia(d5, h3, 0, 0, [Served], Served);
      && Held(d5.nodes, h5.replicas[0]) == [7] && Held(d6.nodes, h5.replicas[0]) == []
      && Held(d5.nodes, h6.replicas[0]) == [5] == Held(d6.nodes, h6.replicas[0]) && !SizesOrdered(d6, h5)
  {
    OpensF();
    RenamesToG();
    var d2 := Deployment(State(G_MOVED, ["dn"], MEMBERS), map["dn" := map[]]);
    StaleWrite(d2);
    var d3 := d2.(nodes := map["dn" := map[RemotePathOf("A") := File([5], 0)]]);
    OpensNew(d3, "f", "B");
    assert d3.mds.(tree := Touch(G_MOVED, [], 0)[["f"] := NewRecord("f", "B")]) == State(G_AND_F, ["dn"], MEMBERS);
    var d4 := Deployment(State(G_AND_F, ["dn"], MEMBERS), d3.nodes);
    OtherWrite(d4);
    var d5 := Deployment(State(GrownTree(), ["dn"], MEMBERS), BothStored(File([7], 0)));
    StaleTruncate(d5);
    hide *;
  }

  const G_AND_F: Tree := Touch(G_MOVED, [], 0)[["f"] := NewRecord("f", "B")]

  function GrownTree(): Tree {
    G_AND_F[["f"] := NewRecord("f", "B").(size := 1)]
  }

  function BothStored(other: File): Nodes {
    map["dn" := map[RemotePathOf("A") := File([5], 0), RemotePathOf("B") := other]]
  }

  lemma DifferentPaths()
    ensures RemotePathOf("A") != RemotePathOf("B")
  {
    assert RemotePathOf("A")[6] != RemotePathOf("B")[6];
  }

  lemma StaleWrite(d: Deployment)
    requires d == Deployment(State(G_MOVED, ["dn"], MEMBERS), map["dn" := map[]])
    ensures WriteSucceeds(d, NewHandle("f", "A"), [5], 0, [Served])
    ensures WriteAt(d, NewHandle("f", "A"), [5], 0, 0, [Served], Served)
         == (d.(nodes := map["dn" := map[RemotePathOf("A") := File([5], 0)]]),
             NewHandle("f", "A").(size := 1, status := Complete))
  {
    ComponentsOfName("f");
    ByteWritten(d, NewHandle("f", "A"), Replica("dn", RemotePathOf("A")), 5);
    assert ResizeCall(d.mds, "f", 1, 0, Served) == d.mds;
    hide WriteAt, Components, RemotePathOf, ResizeCall;
    assert d.nodes["dn" := d.nodes["dn"][RemotePathOf("A") := File([5], 0)]]
        == map["dn" := map[RemotePathOf("A") := File([5], 0)]];
  }

  lemma OtherWrite(d: Deployment)
    requires d == Deployment(State(G_AND_F, ["dn"], MEMBERS), map["dn" := map[RemotePathOf("A") := File([5], 0)]])
    ensures WriteSucceeds(d, NewHandle("f", "B"), [7], 0, [Served])
    ensures WriteAt(d, NewHandle("f", "B"), [7], 0, 0, [Served], Served)
         == (Deployment(State(GrownTree(), ["dn"], MEMBERS), BothStored(File([7], 0))),
             NewHandle("f", "B").(size := 1, status := Complete))
  {
    DifferentPaths();
    hide WriteAt, WriteSucceeds, RemotePathOf, ResizeCall;
    ByteWritten(d, NewHandle("f", "B"), Replica("dn", RemotePathOf("B")), 7);
    RecordGrows();
    StoredBeside(RemotePathOf("A"), RemotePathOf("B"), File([5], 0), File([7], 0));
  }

  lemma RecordGrows()
    ensures ResizeCall(State(G_AND_F, ["dn"], MEMBERS), "f", 1, 0, Served) == State(GrownTree(), ["dn"], MEMBERS)
  {
    ComponentsOfName("f");
    hide Components;
  }

  lemma StoredBeside(a: string, b: string, file: File, other: File)
    requires a != b
    ensures var nodes: Nodes := map["dn" := map[a := file]];
      nodes["dn" := nodes["dn"][b := other]] == map["dn" := map[a := file, b := other]]
  {
  }

  lemma OneCut(nodes: Nodes, r: Replica)
    requires r.addr in nodes && r.remotePath in nodes[r.addr] && |nodes[r.addr][r.remotePath].bytes| > 0
    ensures AllTruncatesOk(nodes, [r], [Served])
    ensures TruncateFirst(nodes, [r], 1, 0, 0, [Served]) == nodes[r.addr := nodes[r.addr][r.remotePath := File([], 0)]]
  {
    assert TruncateFirst(nodes, [r], 0, 0, 0, [Served]) == nodes;
    assert Resize(nodes[r.addr][r.remotePath].bytes, 0) == [];
  }

  lemma StaleTruncate(d: Deployment)
    requires d == Deployment(State(GrownTree(), ["dn"], MEMBERS), BothStored(File([7], 0)))
    ensures var h, other := NewHandle("f", "A").(size := 1, status := Complete),
        NewHandle("f", "B").(size := 1, status := Complete);
      TruncateSucceeds(d, "f", 0, 0, [Served], Served) && SizesOrdered(d, other)
      && var (d', h') := TruncateVia(d, h, 0, 0, [Served], Served);
      && Held(d.nodes, other.replicas[0]) == [7] && Held(d'.nodes, other.replicas[0]) == []
      && Held(d.nodes, h'.replicas[0]) == [5] == Held(d'.nodes, h'.replicas[0]) && !SizesOrdered(d', other)
  {
    ComponentsOfName("f");
    DifferentPaths();
    hide Components, RemotePathOf;
    var r := Replica("dn", RemotePathOf("B"));
    assert LocatedReplicas(d.mds, "f") == Some([r]);
    OneCut(d.nodes, r);
    hide TruncateFirst, AllTruncatesOk;
  }

  // ----- after the first write -----

  const F_WRITTEN: Tree := InitialTree(0)[["f"] := NewRecord("f", "A").(size := 1)]

  function OneByte(): Deployment {
    Deployment(State(F_WRITTEN, ["dn"], MEMBERS), map["dn" := map[RemotePathOf("A") := File([5], 0)]])
  }

  function WrittenHandle(): Handle {
    NewHandle("f", "A").(size := 1, status := Complete)
  }

  /** The first write after the open that creates "f". */
  lemma FirstWrite()
    ensures var (d1, r) := OpenAt(OneNode(), "f", CREATE, "A", 0, [], CALM);
      r.Opened? && WriteSucceeds(d1, r.h, [5], 0, [Served])
      && WriteAt(d1, r.h, [5], 0, 0, [Served], Served) == (OneByte(), WrittenHandle())
  {
    OpensF();
    var d1 := OneNode().(mds := State(F_CREATED, ["dn"], MEMBERS));
    ByteWritten(d1, NewHandle("f", "A"), Replica("dn", RemotePathOf("A")), 5);
    FirstRecordGrows();
    hide WriteAt, WriteSucceeds, OpenAt, ResizeCall, RemotePathOf;
    assert d1.nodes["dn" := d1.nodes["dn"][RemotePathOf("A") := File([5], 0)]] == OneByte().nodes;
  }

  lemma FirstRecordGrows()
    ensures ResizeCall(State(F_CREATED, ["dn"], MEMBERS), "f", 1, 0, Served) == State(F_WRITTEN, ["dn"], MEMBERS)
  {
    ComponentsOfName("f");
    hide Components;
  }

  /** A file that was created, written and closed is pending, although every call was served. */
  lemma ClosedStaysPending()
    ensures var (d1, r) := OpenAt(OneNode(), "f", CREATE, "A", 0, [], CALM);
      r.Opened? && WriteSucceeds(d1, r.h, [5], 0, [Served])
      && var (d2, h2) := WriteAt(d1, r.h, [5], 0, 0, [Served], Served);
      CloseOk(d2, h2, 0, Served)
      && var t := Close(d2, h2, 0, Served).mds.tree; IsFileAt(t, ["f"]) && t[["f"]].status == Pending
  {
    FirstWrite();
    hide WriteAt, WriteSucceeds, OpenAt;
  }

  /** A truncation cuts the only replica, its answer is lost, and the sizes are out of order. */
  lemma LostTruncationHappens()
    ensures var (d1, r) := OpenAt(OneNode(), "f", CREATE, "A", 0, [], CALM);
      r.Opened?
      && var (d2, h2) := WriteAt(d1, r.h, [5], 0, 0, [Served], Served);
      SizesOrdered(d2, h2)
      && var (d3, h3) := TruncateVia(d2, h2, 0, 0, [AnswerLost], Served); !SizesOrdered(d3, h3)
  {
    FirstWrite();
    OneByteOrdered();
    hide WriteAt, WriteSucceeds, OpenAt, SizesOrdered, TruncationIsOrderly;
    TruncateKeepsOrder(OneByte(), WrittenHandle(), 0, 0, [AnswerLost], Served);
  }

  lemma OneByteOrdered()
    ensures var d, h := OneByte(), WrittenHandle();
      && SizesOrdered(d, h) && DistinctAddrs(h.replicas) && LocatedReplicas(d.mds, h.path) == Some(h.replicas)
      && !TruncationIsOrderly(d, h, 0, [AnswerLost], Served)
  {
    ComponentsOfName("f");
    var d, h := OneByte(), WrittenHandle();
    assert Cuts(d.nodes, h.replicas[0], CallAt([AnswerLost], 0));
    assert !TruncateOk(d.nodes, h.replicas[0], CallAt([AnswerLost], 0));
    hide Components, RemotePathOf;
  }

  // ----- a delete that looks too early -----

  function MeanwhileMoved(): seq<Step> {
    [Step(Rename("f", "g"), 0),
     Step(Command.CreateFile("f", 0, [Replica("dn", RemotePathOf("B"))], CreateIfNotExist, "B"), 0)]
  }

  /** Between the look and the command of a delete the file is renamed and another takes its path. The other is removed,
      and the reply tells the client to delete the data of the first, which lives on. */
  lemma EarlyLookHappens()
    ensures var (d1, r) := OpenAt(OneNode(), "f", CREATE, "A", 0, [], CALM);
      r.Opened?
      && var (u, reply) := DeleteService(d1.mds, "f", MeanwhileMoved(), 0);
      && reply == Deleted(false, r.h.replicas) && HitsLive(u.tree, reply.replicas)
      && GotAway(Run(d1.mds, MeanwhileMoved()).tree, r.h.fileID, ["f"])
  {
    OpensF();
    MovedMeanwhile();
    var s := State(F_CREATED, ["dn"], MEMBERS);
    var w := State(G_AND_F, ["dn"], MEMBERS);
    assert Run(s, MeanwhileMoved()) == w;
    hide OpenAt, Run;
    ComponentsOfName("f");
    hide Components;
    var q: Path, p: Path := ["g"], ["f"];
    assert IsFileAt(G_AND_F, q) && G_AND_F[q].fileID == "A" && !Below(p, q);
    DeleteSparesFiles(w, "f", 0) by { assert Parent(p) == []; }
    var u := Apply(w, Delete("f"), 0).state;
    hide Apply;
    assert IsFileAt(u.tree, q) && Replica("dn", RemotePathOf("A")) in u.tree[q].replicas;
  }

  lemma MovedMeanwhile()
    ensures Run(State(F_CREATED, ["dn"], MEMBERS), MeanwhileMoved()) == State(G_AND_F, ["dn"], MEMBERS)
  {
    var s, log := State(F_CREATED, ["dn"], MEMBERS), MeanwhileMoved();
    RenamesToG();
    CreatesOther();
    assert log[..1][..0] == [] && Run(s, log[..1][..0]) == s;
    assert log[..1] == [Step(Rename("f", "g"), 0)] && Run(s, log[..1]) == State(G_MOVED, ["dn"], MEMBERS);
    hide Apply;
  }

  lemma CreatesOther()
    ensures Apply(State(G_MOVED, ["dn"], MEMBERS),
                  Command.CreateFile("f", 0, [Replica("dn", RemotePathOf("B"))], CreateIfNotExist, "B"), 0).state
         == State(G_AND_F, ["dn"], MEMBERS)
  {
    ComponentsOfName("f");
    hide Components, Touch, RemotePathOf;
    var p: Path := ["f"];
    assert Parent(p) == [] && Last(p) == "f";
  }
}

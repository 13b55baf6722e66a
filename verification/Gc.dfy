/**
One garbage collection cycle as the leader runs it (internal/metadata/gc.go:41-69, 71-97 and 127-174). `GcProtocol` says
what its steps do when commits and clients interleave with them.

Clock readings and failing calls are parameters.
*/
module Gc {
  import opened FsTypes
  import opened Namespace
  import opened History
  import opened Identity
  import opened MetadataServers
  import opened DataNodes
  import opened GcProtocol

  const HEARTBEAT_TIMEOUT: Time := 600_000_000_000

  // ----- health check -----

  /** `nodes` without those in `gone`, in their order. */
  function Surviving(nodes: seq<string>, gone: set<string>): seq<string> {
    if nodes == [] then []
    else (if nodes[0] in gone then [] else [nodes[0]]) + Surviving(nodes[1..], gone)
  }

  lemma {:induction false} SurvivingNone(nodes: seq<string>, none: set<string>)
    requires none == {}
    ensures Surviving(nodes, none) == nodes
  {
    if nodes != [] {
      SurvivingNone(nodes[1..], none);
    }
  }

  lemma {:induction false} SurvivingMember(nodes: seq<string>, gone: set<string>, a: string)
    ensures a in Surviving(nodes, gone) <==> a in nodes && a !in gone
  {
    if nodes != [] {
      SurvivingMember(nodes[1..], gone, a);
    }
  }

  lemma {:induction false} SurvivingOneMore(nodes: seq<string>, gone: set<string>, a: string)
    requires Distinct(nodes)
    ensures RemoveMember(Surviving(nodes, gone), a) == Surviving(nodes, gone + {a})
  {
    if nodes != [] {
      var rest := nodes[1..];
      assert nodes[0] !in rest;
      SurvivingOneMore(rest, gone, a);
      var w := Surviving(rest, gone);
      if nodes[0] == a {
        SurvivingMember(rest, gone, a);
        RemoveAbsent(w, a);
        assert w == Surviving(rest, gone + {a});
      }
      if nodes[0] in gone {
        assert Surviving(nodes, gone) == [] + w == w;
      } else {
        assert Surviving(nodes, gone) == [nodes[0]] + w && ([nodes[0]] + w)[1..] == w;
      }
    }
  }

  lemma {:induction false} SurvivingDistinct(nodes: seq<string>, gone: set<string>)
    requires Distinct(nodes)
    ensures Distinct(Surviving(nodes, gone))
  {
    if nodes != [] {
      SurvivingDistinct(nodes[1..], gone);
      SurvivingMember(nodes[1..], gone, nodes[0]);
    }
  }

  function Silent(lastHeartbeat: map<string, Time>, now: Time): set<string> {
    set a | a in lastHeartbeat && lastHeartbeat[a] < now - HEARTBEAT_TIMEOUT
  }

  /** Those who stay: with a heartbeat in the last ten minutes, or whose removal is not committed. */
  lemma SurvivorsAre(s: State, refused: set<string>, now: Time)
    requires MembersAgree(s)
    ensures forall a :: a in Surviving(s.dataNodes, Silent(s.lastHeartbeat, now) - refused) <==>
      a in s.dataNodes && (a in refused || s.lastHeartbeat[a] >= now - 600_000_000_000)
  {
    forall a
      ensures a in Surviving(s.dataNodes, Silent(s.lastHeartbeat, now) - refused) <==>
        a in s.dataNodes && (a in refused || s.lastHeartbeat[a] >= now - 600_000_000_000)
    {
      SurvivingMember(s.dataNodes, Silent(s.lastHeartbeat, now) - refused, a);
    }
  }

  ghost predicate Before(xs: seq<string>, a: string, b: string) {
    exists i, j :: 0 <= i < j < |xs| && xs[i] == a && xs[j] == b
  }

  lemma {:induction false} SurvivorsInOrder(nodes: seq<string>, gone: set<string>)
    ensures forall a, b :: Before(Surviving(nodes, gone), a, b) ==> Before(nodes, a, b)
  {
    if nodes != [] {
      var rest := nodes[1..];
      SurvivorsInOrder(rest, gone);
      var w := Surviving(rest, gone);
      forall a, b | Before(Surviving(nodes, gone), a, b)
        ensures Before(nodes, a, b)
      {
        var xs := Surviving(nodes, gone);
        var i, j :| 0 <= i < j < |xs| && xs[i] == a && xs[j] == b;
        if nodes[0] in gone || i > 0 {
          var d := if nodes[0] in gone then 0 else 1;
          assert w[i-d] == a && w[j-d] == b && Before(rest, a, b);
          var k, l :| 0 <= k < l < |rest| && rest[k] == a && rest[l] == b;
          assert nodes[k+1] == a && nodes[l+1] == b;
        } else {
          SurvivingMember(rest, gone, b);
          assert w[j-1] == b;
          var l :| 0 <= l < |rest| && rest[l] == b;
          assert nodes[0] == a && nodes[l+1] == b;
        }
      }
    }
  }

  /** Nodes silent for longer than the timeout leave, except those whose removal is not committed; the others stay in
      order, and the tree is untouched. */
  method CheckDataNodeHealth(mds: MetadataServer, refused: set<string>, now: Time)
    requires mds.Valid() && MembersAgree(mds.View())
    modifies mds, mds.repr
    ensures mds.Valid() && fresh(mds.repr - old(mds.repr)) && mds.Flat() == old(mds.Flat())
    ensures var gone := Silent(old(mds.lastHeartbeat), now) - refused;
      mds.dataNodes == Surviving(old(mds.dataNodes), gone) && mds.lastHeartbeat == old(mds.lastHeartbeat) - gone
    ensures forall a :: a in mds.dataNodes <==>
      a in old(mds.dataNodes) && (a in refused || old(mds.lastHeartbeat)[a] >= now - 600_000_000_000)
    ensures forall a, c :: Before(mds.dataNodes, a, c) ==> Before(old(mds.dataNodes), a, c)
  {
    hide MetadataServer.Valid, MetadataServer.Flat;
    SurvivorsAre(mds.View(), refused, now);
    SurvivorsInOrder(mds.dataNodes, Silent(mds.lastHeartbeat, now) - refused);
    var cutoff := now - HEARTBEAT_TIMEOUT;
    var dead := set a | a in mds.lastHeartbeat && mds.lastHeartbeat[a] < cutoff;
    RemoveAll(mds, dead, refused, now);
  }

  /** One removal after the other; those in `refused` are not committed. */
  method RemoveAll(mds: MetadataServer, dead: set<string>, refused: set<string>, now: Time)
    requires mds.Valid() && Distinct(mds.View().dataNodes)
    modifies mds, mds.repr
    ensures mds.Valid() && fresh(mds.repr - old(mds.repr))
    ensures mds.View() == Removed(old(mds.View()), dead - refused)
  {
    hide MetadataServer.Valid, MetadataServer.View, Removed;
    var todo := dead;
    ghost var s, done := mds.View(), {};
    RemovedNone(s, done - refused);
    while todo != {}
      invariant todo + done == dead && todo !! done
      invariant mds.Valid() && fresh(mds.repr - old(mds.repr))
      invariant mds.View() == Removed(s, done - refused)
    {
      var a :| a in todo;
      if a in refused {
        assert done + {a} - refused == done - refused;
      } else {
        RemovedOneMore(s, done - refused, a, now);
        var _ := mds.Apply(RemoveDataNode(a), now);
        assert done + {a} - refused == done - refused + {a};
      }
      todo, done := todo - {a}, done + {a};
    }
    assert done == dead;
  }

  function Removed(s: State, gone: set<string>): State {
    State(s.tree, Surviving(s.dataNodes, gone), s.lastHeartbeat - gone)
  }

  lemma RemovedNone(s: State, none: set<string>)
    requires none == {}
    ensures Removed(s, none) == s
  {
    SurvivingNone(s.dataNodes, none);
  }

  lemma RemovedOneMore(s: State, gone: set<string>, a: string, now: Time)
    requires Distinct(s.dataNodes)
    ensures Apply(Removed(s, gone), RemoveDataNode(a), now).state == Removed(s, gone + {a})
  {
    SurvivingOneMore(s.dataNodes, gone, a);
    assert s.lastHeartbeat - gone - {a} == s.lastHeartbeat - (gone + {a});
  }

  // ----- one data node -----

  /** What may fail on a node: deletions of some files, and the scan for the listing after some number of files. */
  datatype Faults = Faults(undeletable: set<string>, scanStops: Option<nat>)

  const NO_FAULTS := Faults({}, None)

  predicate Lists(files: Files, faults: Faults) {
    faults.scanStops == None || faults.scanStops.value >= |files|
  }

  /** What a collection leaves: everything but the listed orphans whose deletion did not fail. */
  function Collected(files: Files, valid: set<string>, gcStart: Time, faults: Faults): Files {
    if !Lists(files, faults) then files
    else
      map p | p in files && (!IsOrphan(p, files[p].mtime, valid, gcStart) || IsTemp(p) || p in faults.undeletable) ::
        files[p]
  }

  /** File by file: what is referenced, recent, temporary or undeletable stays, and everything when the scan stops. */
  lemma CollectedFile(files: Files, valid: set<string>, gcStart: Time, faults: Faults, p: string)
    ensures var left := Collected(files, valid, gcStart, faults);
      && (p in left ==> p in files && left[p] == files[p])
      && (p in files ==>
            (p in left <==>
              || (faults.scanStops.Some? && faults.scanStops.value < |files|)
              || (TrimData(p) != "" && TrimData(p) in valid)
              || files[p].mtime > gcStart - 30_000_000_000
              || IsTemp(p) || p in faults.undeletable))
  {
  }

  method GarbageCollectNode(dn: DataNode, valid: set<string>, gcStart: Time, faults: Faults)
    modifies dn
    ensures dn.files == Collected(old(dn.files), valid, gcStart, faults)
    ensures forall p :: p in dn.files ==> p in old(dn.files) && dn.files[p] == old(dn.files)[p]
    ensures forall p :: p in old(dn.files) ==>
      (p in dn.files <==>
        || (faults.scanStops.Some? && faults.scanStops.value < |old(dn.files)|)
        || (TrimData(p) != "" && TrimData(p) in valid)
        || old(dn.files)[p].mtime > gcStart - 30_000_000_000
        || IsTemp(p) || p in faults.undeletable)
  {
    var listed, nodeFiles := dn.ListAllPaths(faults.scanStops);
    if listed != Fine {
      return;
    }
    var cutoff := gcStart - GC_SAFETY_WINDOW;
    ghost var all := dn.files;
    for i := 0 to |nodeFiles|
      invariant dn.files == map p | p in all &&
        (!IsOrphan(p, all[p].mtime, valid, gcStart) || p in faults.undeletable
          || NodeFile(p, all[p].mtime) !in nodeFiles[..i]) :: all[p]
    {
      var nf := nodeFiles[i];
      assert nf in nodeFiles;
      assert nodeFiles[..i+1] == nodeFiles[..i] + [nf];
      var fileID := TrimData(nf.path);
      if fileID != "" && fileID in valid {
        continue;
      }
      if nf.modTime > cutoff {
        continue;
      }
      if nf.path in faults.undeletable {
        continue;
      }
      dn.DeleteData(nf.path);
    }
    assert nodeFiles[..|nodeFiles|] == nodeFiles;
  }

  // ----- the cycle -----

  function FaultsAt(faults: map<string, Faults>, addr: string): Faults {
    if addr in faults then faults[addr] else NO_FAULTS
  }

  /** `runGC` with nobody interfering: every registered node that answers keeps exactly its referenced and recent files,
      and what could not be deleted there. */
  method RunGC(mds: MetadataServer, net: map<string, DataNode>, refused: set<string>, faults: map<string, Faults>,
               gcStart: Time, now: Time)
    requires mds.Valid() && MembersAgree(mds.View())
    requires forall a, b :: a in net && b in net && a != b ==> net[a] != net[b]
    modifies mds, mds.repr, net.Values
    ensures mds.Valid() && mds.Flat() == old(mds.Flat())
    ensures var gone := Silent(old(mds.lastHeartbeat), now) - refused;
      mds.dataNodes == Surviving(old(mds.dataNodes), gone) && mds.lastHeartbeat == old(mds.lastHeartbeat) - gone
    ensures forall a :: a in net ==>
      net[a].files == if a in mds.dataNodes
                      then Collected(old(net[a].files), LiveIDs(mds.Flat()) - {""}, gcStart, FaultsAt(faults, a))
                      else old(net[a].files)
    ensures forall a :: a in mds.dataNodes <==>
      a in old(mds.dataNodes) && (a in refused || old(mds.lastHeartbeat)[a] >= now - 600_000_000_000)
    ensures forall a, p :: a in net && p in net[a].files ==>
      p in old(net[a].files) && net[a].files[p] == old(net[a].files)[p]
    ensures forall a, p :: a in net && p in old(net[a].files) ==>
      (p in net[a].files <==>
        || a !in mds.dataNodes
        || (FaultsAt(faults, a).scanStops.Some? && FaultsAt(faults, a).scanStops.value < |old(net[a].files)|)
        || (TrimData(p) != "" && TrimData(p) in LiveIDs(mds.Flat()))
        || old(net[a].files)[p].mtime > gcStart - 30_000_000_000
        || IsTemp(p) || p in FaultsAt(faults, a).undeletable)
  {
    hide MetadataServer.Valid, MetadataServer.Flat, Collected, LiveIDs, FaultsAt, Silent;
    SurvivingDistinct(mds.dataNodes, Silent(mds.lastHeartbeat, now) - refused);
    CheckDataNodeHealth(mds, refused, now);
    var valid := mds.CollectValidFileIDs();
    CollectNodes(mds.dataNodes, net, valid, faults, gcStart);
    forall a, p | a in net
      ensures p in net[a].files ==> p in old(net[a].files) && net[a].files[p] == old(net[a].files)[p]
    {
      CollectedFile(old(net[a].files), valid, gcStart, FaultsAt(faults, a), p);
    }
    forall a, p | a in net && p in old(net[a].files)
      ensures p in net[a].files <==>
        || a !in mds.dataNodes
        || (FaultsAt(faults, a).scanStops.Some? && FaultsAt(faults, a).scanStops.value < |old(net[a].files)|)
        || (TrimData(p) != "" && TrimData(p) in LiveIDs(mds.Flat()))
        || old(net[a].files)[p].mtime > gcStart - 30_000_000_000
        || IsTemp(p) || p in FaultsAt(faults, a).undeletable
    {
      CollectedFile(old(net[a].files), valid, gcStart, FaultsAt(faults, a), p);
    }
  }

  method CollectNodes(nodes: seq<string>, net: map<string, DataNode>, valid: set<string>, faults: map<string, Faults>,
                      gcStart: Time)
    requires Distinct(nodes)
    requires forall a, b :: a in net && b in net && a != b ==> net[a] != net[b]
    modifies net.Values
    ensures forall a :: a in net ==>
      net[a].files == if a in nodes then Collected(old(net[a].files), valid, gcStart, FaultsAt(faults, a))
        else old(net[a].files)
  {
    hide Collected, FaultsAt;
    for i := 0 to |nodes|
      invariant forall a :: a in net ==>
        net[a].files == if a in nodes[..i] then Collected(old(net[a].files), valid, gcStart, FaultsAt(faults, a))
          else old(net[a].files)
    {
      assert nodes[..i+1] == nodes[..i] + [nodes[i]] && nodes[i] !in nodes[..i];
      if nodes[i] in net {
        GarbageCollectNode(net[nodes[i]], valid, gcStart, FaultsAt(faults, nodes[i]));
      }
    }
    assert nodes[..|nodes|] == nodes;
  }

  /** After a cycle without faults, every file on a collected node is referenced by the tree, was modified inside the
      window or is temporary; and a file of the tree lost none of its data. */
  lemma CollectedIsClean(files: Files, t: Tree, gcStart: Time)
    ensures var left := Collected(files, LiveIDs(t) - {""}, gcStart, NO_FAULTS);
      && (forall p :: p in left ==>
          TrimData(p) in LiveIDs(t) || left[p].mtime > gcStart - GC_SAFETY_WINDOW || IsTemp(p))
      && (forall q :: IsFileAt(t, q) && t[q].fileID != "" && RemotePathOf(t[q].fileID) in files ==>
            RemotePathOf(t[q].fileID) in left && left[RemotePathOf(t[q].fileID)] == files[RemotePathOf(t[q].fileID)])
  {
    forall q | IsFileAt(t, q)
      ensures TrimData(RemotePathOf(t[q].fileID)) in LiveIDs(t)
    {
      TrimUndoesRemotePath(t[q].fileID);
    }
    forall q | IsFileAt(t, q)
      ensures TrimData(RemotePathOf(t[q].fileID)) == t[q].fileID
    {
      TrimUndoesRemotePath(t[q].fileID);
    }
  }
}

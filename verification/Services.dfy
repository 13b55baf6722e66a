/**
The server's rename and delete services around their commands (internal/metadata/mds.go:287-345). `Placement` has the
create service.
*/
module Services {
  import opened Paths
  import opened FsTypes
  import opened Namespace
  import opened History
  import opened Identity

  // ----- rename -----

  datatype RenameReply = Granted | EmptyPath | RootPath | NotRenamed(error: ApplyError)

  /** `Rename` at the leader. Equal strings are granted without a command. */
  function RenameService(s: State, src: string, dst: string, now: Time): (State, RenameReply) {
    if src == "" || dst == "" then (s, EmptyPath)
    else if src == "/" || dst == "/" then (s, RootPath)
    else if src == dst then (s, Granted)
    else
      var a := Apply(s, Rename(src, dst), now);
      (a.state, if a.outcome == Done then Granted else NotRenamed(a.outcome.error))
  }

  /** The state changes by the command only, and only when the strings differ and neither is empty or the root; the
      reply is the command's. */
  lemma RenameServiceState(s: State, src: string, dst: string, now: Time)
    ensures var (u, reply) := RenameService(s, src, dst, now);
      var a := Apply(s, Rename(src, dst), now);
      && (src in {"", "/"} || dst in {"", "/"} || src == dst ==> u == s)
      && (src !in {"", "/"} && dst !in {"", "/"} && src != dst ==> u == a.state)
      && (reply == EmptyPath <==> src == "" || dst == "")
      && (reply == RootPath <==> src != "" && dst != "" && (src == "/" || dst == "/"))
      && (reply == Granted <==>
            src !in {"", "/"} && dst !in {"", "/"} && (src == dst || a.outcome == Done))
      && (forall e :: reply == NotRenamed(e) <==>
            src !in {"", "/"} && dst !in {"", "/"} && src != dst && a.outcome == Failed(e))
  {
    hide Apply;
  }

  // ----- delete -----

  datatype DeleteReply = Deleted(isDir: bool, replicas: seq<Replica>) | NotFound | NotDeleted(error: ApplyError)

  /** `Delete` at the leader: it looks at the path for its reply before the command. The commands of `between` commit
      after that look. */
  function DeleteService(s: State, path: string, between: seq<Step>, now: Time): (State, DeleteReply) {
    var p := Components(path);
    if p !in s.tree then (s, NotFound)
    else
      var a := Apply(Run(s, between), Delete(path), now);
      (a.state, if a.outcome == Done then Deleted(s.tree[p].isDir, s.tree[p].replicas) else NotDeleted(a.outcome.error))
  }

  /** A missing path is not found, and nothing is committed. Else the command takes effect after what committed in
      between, and on success the reply tells of the entry that was there at the look. */
  lemma DeleteServiceOutcome(s: State, path: string, between: seq<Step>, now: Time)
    ensures var (u, reply) := DeleteService(s, path, between, now);
      var p, a := Components(path), Apply(Run(s, between), Delete(path), now);
      && (reply == NotFound <==> p !in s.tree)
      && u == (if p in s.tree then a.state else s)
      && (p in s.tree && a.outcome == Done ==> reply == Deleted(s.tree[p].isDir, s.tree[p].replicas))
      && (forall e :: reply == NotDeleted(e) <==> p in s.tree && a.outcome == Failed(e))
  {
    hide Apply, Run, Components;
  }

  /** One of the replicas is a replica of a file of the tree. A client deletes the data of all replicas in a reply
      (internal/client/client.go:316-332). */
  ghost predicate HitsLive(t: Tree, replicas: seq<Replica>) {
    exists q, r :: IsFileAt(t, q) && r in t[q].replicas && r in replicas
  }

  /** The file is still there, at a place that a delete of `p` spares. */
  ghost predicate GotAway(t: Tree, id: string, p: Path) {
    exists q :: IsFileAt(t, q) && t[q].fileID == id && !Below(p, q)
  }

  /** After any run without overwriting creates, the client of a successful delete destroys data of a live file exactly
      when the file that the service looked at was moved out of the path before the command. */
  lemma DeleteHitsLive(now: Time, log: seq<Step>, between: seq<Step>, path: string, at: Time)
    requires Untangled(now, log + between)
    requires var s := Run(InitialState(now), log);
      IsFileAt(s.tree, Components(path)) && DeleteService(s, path, between, at).1.Deleted?
    ensures var s := Run(InitialState(now), log);
      var (u, reply) := DeleteService(s, path, between, at);
      HitsLive(u.tree, reply.replicas) <==>
        GotAway(Run(s, between).tree, s.tree[Components(path)].fileID, Components(path))
  {
    var s, p := Run(InitialState(now), log), Components(path);
    var m, w := s.tree[p], Run(s, between);
    RunAppend(InitialState(now), log, between);
    CoherentEnds(now, log, between);
    hide Untangled;
    var u := DeleteService(s, path, between, at).0.tree;
    DeleteSparesFiles(w, path, at);
    assert Coherent(m.fileID, m.replicas);
    if HitsLive(u, m.replicas) {
      var q, r :| IsFileAt(u, q) && r in u[q].replicas && r in m.replicas;
      SharedReplica(m.fileID, m.replicas, w.tree[q].fileID, w.tree[q].replicas, r);
      assert GotAway(w.tree, m.fileID, p);
    }
    if GotAway(w.tree, m.fileID, p) {
      var q :| IsFileAt(w.tree, q) && w.tree[q].fileID == m.fileID && !Below(p, q);
      SameReplicas(now, log, between, p, q);
      assert m.replicas[0] in m.replicas && IsFileAt(u, q) && m.replicas[0] in u[q].replicas;
    }
  }

  /** While the path still names the file at the command, nothing live is hit. */
  lemma DeleteHitsOwn(now: Time, log: seq<Step>, between: seq<Step>, path: string, at: Time)
    requires Untangled(now, log + between)
    requires var s := Run(InitialState(now), log);
      IsFileAt(s.tree, Components(path)) && DeleteService(s, path, between, at).1.Deleted?
    requires var s, p := Run(InitialState(now), log), Components(path);
      IsFileAt(Run(s, between).tree, p) && Run(s, between).tree[p].fileID == s.tree[p].fileID
    ensures var (u, reply) := DeleteService(Run(InitialState(now), log), path, between, at);
      !HitsLive(u.tree, reply.replicas)
  {
    DeleteHitsLive(now, log, between, path, at);
    RunAppend(InitialState(now), log, between);
    assert FreshIDs(log + between);
    IDsAreUnique(now, log + between);
    hide Run, DeleteService, HitsLive, Untangled, Apply;
  }

  /** Creates carry fresh identities and replicas as the server mints them, and none lands on an existing file. */
  ghost predicate Untangled(now: Time, log: seq<Step>) {
    && FreshIDs(log)
    && forall i :: 0 <= i < |log| ==> Minted(log[i].cmd) && !LandsOnFile(Run(InitialState(now), log[..i]), log[i].cmd)
  }

  lemma {:induction false} RunAppend(s: State, log: seq<Step>, more: seq<Step>)
    ensures Run(s, log + more) == Run(Run(s, log), more)
  {
    if more == [] {
      assert log + more == log;
    } else {
      assert (log + more)[..|log + more|-1] == log + more[..|more|-1];
      RunAppend(s, log, more[..|more|-1]);
    }
  }

  lemma CoherentEnds(now: Time, log: seq<Step>, between: seq<Step>)
    requires Untangled(now, log + between)
    ensures TreeCoherent(Run(InitialState(now), log).tree) && TreeCoherent(Run(InitialState(now), log + between).tree)
  {
    RunCoherence(now, log + between);
    assert (log + between)[..|log|] == log && (log + between)[..|log + between|] == log + between;
    hide TreeCoherent, LandsOnFile, Minted, Run, FreshIDs;
  }

  lemma DeleteSparesFiles(s: State, path: string, now: Time)
    requires Apply(s, Delete(path), now).outcome == Done
    ensures var u := Apply(s, Delete(path), now).state.tree;
      forall q :: (IsFileAt(u, q) <==> IsFileAt(s.tree, q) && !Below(Components(path), q))
          && (IsFileAt(u, q) ==> u[q] == s.tree[q])
  {
    var p := Components(path);
    forall q
      ensures IsFileAt(DeleteIn(s.tree, p, now).0, q) <==> IsFileAt(s.tree, q) && !Below(p, q)
      ensures IsFileAt(DeleteIn(s.tree, p, now).0, q) ==> DeleteIn(s.tree, p, now).0[q] == s.tree[q]
    {
      DeleteSparesAt(s.tree, p, now, q);
    }
    hide DeleteIn, Below;
  }

  lemma DeleteSparesAt(t: Tree, p: Path, now: Time, q: Path)
    requires DeleteIn(t, p, now).1 == Done
    ensures var u := DeleteIn(t, p, now).0;
      (IsFileAt(u, q) <==> IsFileAt(t, q) && !Below(p, q)) && (IsFileAt(u, q) ==> u[q] == t[q])
  {
    hide Below;
    assert p != [] && IsDirAt(t, Parent(p));
    TouchAt(TreeShape.Without(t, p), Parent(p), now, q);
  }

  lemma SharedReplica(a: string, rs: seq<Replica>, b: string, qs: seq<Replica>, r: Replica)
    requires Coherent(a, rs) && Coherent(b, qs) && r in rs && r in qs
    ensures a == b
  {
    RemotePathInjective(a, b);
  }

  /** A file keeps its replicas over a run without overwriting creates. */
  lemma SameReplicas(now: Time, log: seq<Step>, between: seq<Step>, p: Path, q: Path)
    requires Untangled(now, log + between)
    requires var t, u := Run(InitialState(now), log).tree, Run(InitialState(now), log + between).tree;
      IsFileAt(t, p) && IsFileAt(u, q) && t[p].fileID == u[q].fileID
    ensures Run(InitialState(now), log).tree[p].replicas == Run(InitialState(now), log + between).tree[q].replicas
  {
    var full := log + between;
    var u := Run(InitialState(now), full).tree;
    assert full[..|log|] == log && full[..|full|] == full;
    FreshPrefix(full, |log|);
    IDsAreUnique(now, log);
    assert LivesWith(u, u[q].fileID, u[q].replicas);
    hide Run, FreshIDs;
    ReplicasStay(now, full, |log|, |full|, u[q].fileID, u[q].replicas);
  }

  ghost predicate LivesWith(t: Tree, id: string, replicas: seq<Replica>) {
    exists p :: IsFileAt(t, p) && t[p].fileID == id && t[p].replicas == replicas
  }

  lemma {:induction false} ReplicasStay(now: Time, log: seq<Step>, j: nat, k: nat, id: string, replicas: seq<Replica>)
    requires Untangled(now, log) && j <= k <= |log| && id in CreatedIDs(log[..j])
    requires LivesWith(Run(InitialState(now), log[..k]).tree, id, replicas)
    ensures LivesWith(Run(InitialState(now), log[..j]).tree, id, replicas)
    decreases k
  {
    hide *;
    if j < k {
      StepOfRun(now, log, j, k - 1, id);
      CarriesReplicas(Run(InitialState(now), log[..k-1]), log[k-1].cmd, log[k-1].now, id, replicas);
      ReplicasStay(now, log, j, k - 1, id, replicas);
    }
  }

  lemma StepOfRun(now: Time, log: seq<Step>, j: nat, k: nat, id: string)
    requires Untangled(now, log) && j <= k < |log| && id in CreatedIDs(log[..j])
    ensures var s, c := Run(InitialState(now), log[..k]), log[k].cmd;
      && WellFormed(s.tree) && !LandsOnFile(s, c) && (c.CreateFile? ==> c.fileID != id)
      && Run(InitialState(now), log[..k+1]) == Apply(s, c, log[k].now).state
  {
    RunStep(InitialState(now), log, k);
    RunStaysWellFormed(InitialState(now), log[..k]);
    if log[k].cmd.CreateFile? { CreatedEarlier(log, j, k); }
    hide Apply, WellFormed, LandsOnFile, FreshIDs, Minted, Run, InitialState, CreatedIDs;
  }

  lemma CarriesReplicas(s: State, c: Command, now: Time, id: string, replicas: seq<Replica>)
    requires WellFormed(s.tree) && !LandsOnFile(s, c) && (c.CreateFile? ==> c.fileID != id)
    requires LivesWith(Apply(s, c, now).state.tree, id, replicas)
    ensures LivesWith(s.tree, id, replicas)
  {
    var t' := Apply(s, c, now).state.tree;
    var p :| IsFileAt(t', p) && t'[p].fileID == id && t'[p].replicas == replicas;
    Provenance(s, c, now, p);
    OverwritingLands(s, c, now, p);
    hide Apply, WellFormed, LandsOnFile;
    assert IsFileAt(s.tree, CameFrom(s, c, now, p));
  }

  lemma OverwritingLands(s: State, c: Command, now: Time, p: Path)
    ensures Overwritten(s, c, now, p) ==> LandsOnFile(s, c)
  {
  }
}

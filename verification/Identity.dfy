/**
FileIDs over whole runs: unique, never resurrected, and bound to one creation time
(internal/metadata/apply.go:96-115 and 158-241), and what that means for the replicas of live files.
*/
module Identity {
  import opened Paths
  import opened FsTypes
  import opened TreeShape
  import opened Namespace
  import opened History

  /** The FileIDs of the files in the tree. */
  function LiveIDs(t: Tree): set<string> {
    set p | p in t && !t[p].isDir :: t[p].fileID
  }

  /** A lookup of some path string finds a file with this identity. */
  ghost predicate FoundByLookup(t: Tree, id: string) {
    exists s :: IsFileAt(t, Components(s)) && t[Components(s)].fileID == id
  }

  /** Lookups reach every file when all names are proper. */
  lemma LookupFindsAll(t: Tree)
    requires ProperNames(t)
    ensures forall id :: id in LiveIDs(t) <==> FoundByLookup(t, id)
  {
    forall id | id in LiveIDs(t)
      ensures FoundByLookup(t, id)
    {
      var p :| p in t && !t[p].isDir && t[p].fileID == id;
      ComponentsRoundTrip(p);
      assert IsFileAt(t, Components(Join(p)));
    }
  }

  /** In every reachable state the live identities are those that lookups find. */
  lemma LiveMeansFound(now: Time, log: seq<Step>, id: string)
    ensures ProperNames(Run(InitialState(now), log).tree)
    ensures id in LiveIDs(Run(InitialState(now), log).tree) <==> FoundByLookup(Run(InitialState(now), log).tree, id)
  {
    assert ProperNames(InitialState(now).tree);
    RunKeepsNames(InitialState(now), log);
    LookupFindsAll(Run(InitialState(now), log).tree);
  }

  ghost predicate UniqueIDs(t: Tree) {
    forall p, q :: IsFileAt(t, p) && IsFileAt(t, q) && t[p].fileID == t[q].fileID ==> p == q
  }

  // ----- collecting the FileIDs of a subtree -----

  /** The non-empty FileIDs of the files at or below `p`. */
  function IDsUnder(t: Tree, p: Path): set<string> {
    set q | q in t && Below(p, q) && !t[q].isDir && t[q].fileID != "" :: t[q].fileID
  }

  /** The part of them that lies below the children with names in `done`. */
  function IDsBelow(t: Tree, p: Path, done: set<Name>): set<string> {
    set q | q in t && Below(p, q) && q != p && q[|p|] in done && !t[q].isDir && t[q].fileID != "" :: t[q].fileID
  }

  lemma IDsOfFile(t: Tree, p: Path)
    requires WellFormed(t) && IsFileAt(t, p)
    ensures IDsUnder(t, p) == if t[p].fileID == "" then {} else {t[p].fileID}
  {
    forall q | q in t && Below(p, q)
      ensures q == p
    {
      if q != p { PrefixIsDir(t, p, q); }
    }
    assert Below(p, p);
  }

  lemma IDsStart(t: Tree, p: Path, none: set<Name>)
    requires none == {}
    ensures IDsBelow(t, p, none) == {}
  {
  }

  lemma IDsStep(t: Tree, p: Path, done: set<Name>, n: Name)
    ensures IDsBelow(t, p, done + {n}) == IDsBelow(t, p, done) + IDsUnder(t, Child(p, n))
  {
    var c := Child(p, n);
    forall q | q in t && !t[q].isDir && t[q].fileID != ""
      ensures Below(p, q) && q != p && q[|p|] in done + {n}
          <==> (Below(p, q) && q != p && q[|p|] in done) || Below(c, q)
    {
      if Below(c, q) {
        assert Below(p, c);
        BelowTransitive(p, c, q);
        assert q[|p|] == q[..|c|][|p|];
      }
      if Below(p, q) && q != p && q[|p|] == n {
        assert q[..|c|] == c;
      }
    }
  }

  lemma IDsEnd(t: Tree, p: Path, all: set<Name>)
    requires WellFormed(t) && IsDirAt(t, p)
    requires forall n :: Child(p, n) in t ==> n in all
    ensures IDsBelow(t, p, all) == IDsUnder(t, p)
  {
    forall q | q in t && Below(p, q) && !t[q].isDir
      ensures q != p && q[|p|] in all
    {
      BranchInTree(t, p, q);
      assert Child(p, q[|p|]) in t;
    }
    hide WellFormed;
  }

  lemma BranchInTree(t: Tree, p: Path, q: Path)
    requires WellFormed(t) && q in t && Below(p, q) && q != p
    ensures Child(p, q[|p|]) in t
  {
    var c := Child(p, q[|p|]);
    assert Below(c, q);
    if c != q { PrefixIsDir(t, c, q); }
  }

  // ----- where a file comes from -----

  /** The place before the command of what is at `q` after it. */
  function CameFrom(s: State, c: Command, now: Time, q: Path): Path {
    if c.Rename? && Apply(s, c, now).outcome == Done
    then Origin(q, Components(c.path), Components(c.dstPath))
    else q
  }

  /** The command created the file at `q`, where nothing was before. */
  predicate Born(s: State, c: Command, now: Time, q: Path) {
    c.CreateFile? && Apply(s, c, now).outcome == Done && q == Components(c.path) && q !in s.tree
  }

  predicate Overwritten(s: State, c: Command, now: Time, q: Path) {
    c.CreateFile? && Apply(s, c, now).outcome == Done && q == Components(c.path) && q in s.tree
  }

  /** Every file after a command is either new, with the FileID of the command, or is a file that was there before,
      with its FileID and creation time. Only an overwriting create gives it other replicas. */
  lemma Provenance(s: State, c: Command, now: Time, q: Path)
    requires WellFormed(s.tree) && IsFileAt(Apply(s, c, now).state.tree, q)
    ensures var t' := Apply(s, c, now).state.tree;
      if Born(s, c, now, q) then t'[q].fileID == c.fileID && t'[q].replicas == c.replicas
      else
        && SameFile(t', q, s.tree, CameFrom(s, c, now, q))
        && t'[q].replicas == if Overwritten(s, c, now, q) then c.replicas else s.tree[CameFrom(s, c, now, q)].replicas
  {
    hide WellFormed, MkdirIn, CreateIn, CompleteIn, ResizeIn, DeleteIn, Renamed, Below, Rebase, SameFile;
    match c
    case Rename(path, dstPath) => RenameKeeps(s.tree, Components(path), Components(dstPath), now, q);
    case CreateFile(path, size, replicas, createMode, fileID) =>
      CreateKeeps(s.tree, Components(path), size, replicas, createMode, fileID, now, q);
    case Mkdir(path) => OthersKeep(s.tree, Components(path), 0, now, q);
    case CompleteFile(path) => OthersKeep(s.tree, Components(path), 0, now, q);
    case UpdateSize(path, newSize) => OthersKeep(s.tree, Components(path), newSize, now, q);
    case Delete(path) => OthersKeep(s.tree, Components(path), 0, now, q);
    case Heartbeat(_) => StaysSame(s.tree, q);
    case RemoveDataNode(_) => StaysSame(s.tree, q);
    case UnknownOp(_) => StaysSame(s.tree, q);
  }

  lemma StaysSame(t: Tree, q: Path)
    requires IsFileAt(t, q)
    ensures SameFile(t, q, t, q)
  {
  }

  lemma RenameKeeps(t: Tree, src: Path, dst: Path, now: Time, q: Path)
    ensures var r, o := RenameIn(t, src, dst, now), if RenameIn(t, src, dst, now).1 == Done then Origin(q, src, dst)
        else q;
      IsFileAt(r.0, q) ==> SameFile(r.0, q, t, o) && r.0[q].replicas == t[o].replicas
  {
    if RenameIn(t, src, dst, now).1 == Done {
      RenamedAt(t, src, dst, now, q);
    }
    hide Renamed;
  }

  /** The file at `q` in `t'` is the one at `o` in `t`. */
  predicate SameFile(t': Tree, q: Path, t: Tree, o: Path)
  {
    IsFileAt(t', q) && IsFileAt(t, o) && t'[q].fileID == t[o].fileID && t'[q].createdAt == t[o].createdAt
  }

  lemma CreateKeeps(t: Tree, p: Path, size: int, replicas: seq<Replica>, createMode: CreateMode, fileID: string,
                    now: Time, q: Path)
    ensures var r := CreateIn(t, p, size, replicas, createMode, fileID, now);
      IsFileAt(r.0, q) ==>
        if r.1 == Done && q == p
        then r.0[q].replicas == replicas && if p in t then SameFile(r.0, q, t, q) else r.0[q].fileID == fileID
        else SameFile(r.0, q, t, q) && r.0[q].replicas == t[q].replicas
  {
  }

  lemma OthersKeep(t: Tree, p: Path, size: int, now: Time, q: Path)
    ensures forall r | r in {MkdirIn(t, p, now), CompleteIn(t, p, now), ResizeIn(t, p, size, now),
        DeleteIn(t, p, now)} ::
      IsFileAt(r.0, q) ==> SameFile(r.0, q, t, q) && r.0[q].replicas == t[q].replicas
  {
  }

  lemma DistinctOrigins(s: State, c: Command, now: Time, p: Path, q: Path)
    requires WellFormed(s.tree) && p in Apply(s, c, now).state.tree && q in Apply(s, c, now).state.tree
    requires CameFrom(s, c, now, p) == CameFrom(s, c, now, q)
    ensures p == q
  {
    if c.Rename? && Apply(s, c, now).outcome == Done {
      var src, dst := Components(c.path), Components(c.dstPath);
      RenamedAt(s.tree, src, dst, now, p);
      RenamedAt(s.tree, src, dst, now, q);
      MovedKeys(s.tree, src, dst, p);
      MovedKeys(s.tree, src, dst, q);
      OriginInjective(s.tree, src, dst, p, q);
    }
  }

  // ----- runs with fresh FileIDs -----

  function CreatedIDs(log: seq<Step>): set<string> {
    set i | 0 <= i < |log| && log[i].cmd.CreateFile? :: log[i].cmd.fileID
  }

  /** Every create command carries an identity that no earlier create carried. */
  ghost predicate FreshIDs(log: seq<Step>) {
    forall i, j :: 0 <= i < j < |log| && log[i].cmd.CreateFile? && log[j].cmd.CreateFile? ==>
      log[i].cmd.fileID != log[j].cmd.fileID
  }

  lemma FreshPrefix(log: seq<Step>, i: nat)
    requires FreshIDs(log) && i <= |log|
    ensures FreshIDs(log[..i])
    ensures i < |log| && log[i].cmd.CreateFile? ==> log[i].cmd.fileID !in CreatedIDs(log[..i])
  {
  }

  /** No two paths hold the same FileID, and every live one was brought in by a create of the log. */
  lemma {:induction false} IDsAreUnique(now: Time, log: seq<Step>)
    requires FreshIDs(log)
    ensures UniqueIDs(Run(InitialState(now), log).tree)
    ensures LiveIDs(Run(InitialState(now), log).tree) <= CreatedIDs(log)
  {
    if log != [] {
      var n := |log| - 1;
      var s, c, t := Run(InitialState(now), log[..n]), log[n].cmd, log[n].now;
      FreshPrefix(log, n);
      IDsAreUnique(now, log[..n]);
      RunStaysWellFormed(InitialState(now), log[..n]);
      assert forall id :: id in CreatedIDs(log[..n]) ==> id in CreatedIDs(log);
      var t' := Apply(s, c, t).state.tree;
      forall q | IsFileAt(t', q)
        ensures t'[q].fileID in CreatedIDs(log)
      {
        StepIDs(s, c, t, q);
      }
      forall p, q | IsFileAt(t', p) && IsFileAt(t', q) && t'[p].fileID == t'[q].fileID
        ensures p == q
      {
        StepIDs(s, c, t, p);
        StepIDs(s, c, t, q);
        if !Born(s, c, t, p) && !Born(s, c, t, q) {
          DistinctOrigins(s, c, t, p, q);
        }
      }
    }
  }

  lemma StepIDs(s: State, c: Command, now: Time, q: Path)
    requires WellFormed(s.tree) && IsFileAt(Apply(s, c, now).state.tree, q)
    ensures var id := Apply(s, c, now).state.tree[q].fileID;
      if Born(s, c, now, q) then id == c.fileID
      else
        && IsFileAt(s.tree, CameFrom(s, c, now, q)) && s.tree[CameFrom(s, c, now, q)].fileID == id
        && id in LiveIDs(s.tree)
  {
    Provenance(s, c, now, q);
  }

  /** The creation time of a live FileID. */
  ghost predicate LivesSince(t: Tree, id: string, at: Time) {
    exists p :: IsFileAt(t, p) && t[p].fileID == id && t[p].createdAt == at
  }

  /** An identity once created that is live at some later point of the log was live, with the same creation time, all
      the time in between: what has left the tree never returns, under no command. */
  lemma {:induction false} NeverResurrected(now: Time, log: seq<Step>, j: nat, k: nat, id: string, at: Time)
    requires FreshIDs(log) && j <= k <= |log|
    requires id in CreatedIDs(log[..j])
    requires LivesSince(Run(InitialState(now), log[..k]).tree, id, at)
    ensures LivesSince(Run(InitialState(now), log[..j]).tree, id, at)
    decreases k
  {
    if j < k {
      var s, c, t := Run(InitialState(now), log[..k-1]), log[k-1].cmd, log[k-1].now;
      RunStep(InitialState(now), log, k - 1);
      RunStaysWellFormed(InitialState(now), log[..k-1]);
      var t' := Apply(s, c, t).state.tree;
      var p :| IsFileAt(t', p) && t'[p].fileID == id && t'[p].createdAt == at;
      Provenance(s, c, t, p);
      if c.CreateFile? { CreatedEarlier(log, j, k - 1); }
      assert IsFileAt(s.tree, CameFrom(s, c, t, p));
      NeverResurrected(now, log, j, k - 1, id, at);
    }
  }

  lemma CreatedEarlier(log: seq<Step>, j: nat, k: nat)
    requires FreshIDs(log) && j <= k < |log| && log[k].cmd.CreateFile?
    ensures log[k].cmd.fileID !in CreatedIDs(log[..j])
  {
  }

  lemma LiveIsLiving(t: Tree, id: string)
    ensures id in LiveIDs(t) <==> exists at :: LivesSince(t, id, at)
  {
    if id in LiveIDs(t) {
      var p :| p in t && !t[p].isDir && t[p].fileID == id;
      assert IsFileAt(t, p) && t[p].createdAt == t[p].createdAt;
      assert LivesSince(t, id, t[p].createdAt);
    }
  }

  /** The binding of an identity to its creation time never changes while the file lives. */
  lemma CreationTimeIsFixed(now: Time, log: seq<Step>, j: nat, k: nat, id: string, a: Time, b: Time)
    requires FreshIDs(log) && j <= k <= |log|
    requires LivesSince(Run(InitialState(now), log[..j]).tree, id, a)
    requires LivesSince(Run(InitialState(now), log[..k]).tree, id, b)
    ensures a == b
  {
    FreshPrefix(log, j);
    IDsAreUnique(now, log[..j]);
    LiveIsLiving(Run(InitialState(now), log[..j]).tree, id);
    NeverResurrected(now, log, j, k, id, b);
  }

  // ----- replicas and identities -----

  ghost predicate Coherent(id: string, replicas: seq<Replica>) {
    && 1 <= |replicas| <= 3
    && (forall i :: 0 <= i < |replicas| ==> replicas[i].remotePath == RemotePathOf(id))
    && (forall i, j :: 0 <= i < j < |replicas| ==> replicas[i].addr != replicas[j].addr)
  }

  /** Every file's replicas lie under `/data/` and its FileID, on one to three different nodes. */
  ghost predicate TreeCoherent(t: Tree) {
    forall p :: IsFileAt(t, p) ==> Coherent(t[p].fileID, t[p].replicas)
  }

  /** The payload of a create as the server mints it (`Placement.SelectDataNodes`). */
  ghost predicate Minted(c: Command) {
    c.CreateFile? ==> Coherent(c.fileID, c.replicas)
  }

  /** A create in overwrite mode that finds a file. */
  predicate LandsOnFile(s: State, c: Command) {
    c.CreateFile? && c.createMode == OverwriteIfExists && Components(c.path) != []
      && IsFileAt(s.tree, Components(c.path))
  }

  lemma RemotePathInjective(a: string, b: string)
    requires RemotePathOf(a) == RemotePathOf(b)
    ensures a == b
  {
    assert RemotePathOf(a)[6..] == a && RemotePathOf(b)[6..] == b;
  }

  /** A step from a coherent tree ends in a coherent tree exactly when it is not such a create: the entry keeps the old
      FileID but gets the replicas minted for the new one. */
  lemma CoherenceStep(s: State, c: Command, now: Time)
    requires WellFormed(s.tree) && TreeCoherent(s.tree) && Minted(c)
    requires c.CreateFile? ==> c.fileID !in LiveIDs(s.tree)
    ensures TreeCoherent(Apply(s, c, now).state.tree) <==> !LandsOnFile(s, c)
  {
    var t' := Apply(s, c, now).state.tree;
    if LandsOnFile(s, c) {
      var p := Components(c.path);
      Provenance(s, c, now, p);
      assert s.tree[p].fileID in LiveIDs(s.tree);
      if RemotePathOf(c.fileID) == RemotePathOf(s.tree[p].fileID) {
        RemotePathInjective(c.fileID, s.tree[p].fileID);
      }
      assert t'[p].replicas[0].remotePath == RemotePathOf(c.fileID);
    } else {
      forall q | IsFileAt(t', q)
        ensures Coherent(t'[q].fileID, t'[q].replicas)
      {
        Provenance(s, c, now, q);
      }
    }
  }

  /** A run with fresh identities stays coherent throughout exactly when no create of it lands on an existing file. */
  lemma RunCoherence(now: Time, log: seq<Step>)
    requires FreshIDs(log) && forall i :: 0 <= i < |log| ==> Minted(log[i].cmd)
    ensures (forall i :: 0 <= i <= |log| ==> TreeCoherent(Run(InitialState(now), log[..i]).tree))
       <==> (forall i :: 0 <= i < |log| ==> !LandsOnFile(Run(InitialState(now), log[..i]), log[i].cmd))
  {
    hide TreeCoherent, LandsOnFile, Run, FreshIDs, Minted, InitialState;
    if forall i :: 0 <= i <= |log| ==> TreeCoherent(Run(InitialState(now), log[..i]).tree) {
      forall i | 0 <= i < |log|
        ensures !LandsOnFile(Run(InitialState(now), log[..i]), log[i].cmd)
      {
        assert TreeCoherent(Run(InitialState(now), log[..i+1]).tree);
        CoherenceAt(now, log, i);
      }
    }
    if forall i :: 0 <= i < |log| ==> !LandsOnFile(Run(InitialState(now), log[..i]), log[i].cmd) {
      StaysCoherent(now, log);
    }
  }

  lemma EmptyIsCoherent(now: Time, log: seq<Step>)
    requires log == []
    ensures TreeCoherent(Run(InitialState(now), log).tree)
  {
  }

  lemma StaysCoherent(now: Time, log: seq<Step>)
    requires FreshIDs(log) && forall i :: 0 <= i < |log| ==> Minted(log[i].cmd)
    requires forall i :: 0 <= i < |log| ==> !LandsOnFile(Run(InitialState(now), log[..i]), log[i].cmd)
    ensures forall i :: 0 <= i <= |log| ==> TreeCoherent(Run(InitialState(now), log[..i]).tree)
  {
    EmptyIsCoherent(now, log[..0]);
    hide TreeCoherent, LandsOnFile, Run, FreshIDs, Minted, InitialState;
    for i := 0 to |log|
      invariant forall k :: 0 <= k <= i ==> TreeCoherent(Run(InitialState(now), log[..k]).tree)
    {
      CoherenceAt(now, log, i);
    }
  }

  lemma CoherenceAt(now: Time, log: seq<Step>, i: nat)
    requires FreshIDs(log) && i < |log| && Minted(log[i].cmd)
    requires TreeCoherent(Run(InitialState(now), log[..i]).tree)
    ensures TreeCoherent(Run(InitialState(now), log[..i+1]).tree)
        <==> !LandsOnFile(Run(InitialState(now), log[..i]), log[i].cmd)
  {
    FreshPrefix(log, i);
    IDsAreUnique(now, log[..i]);
    RunStaysWellFormed(InitialState(now), log[..i]);
    RunStep(InitialState(now), log, i);
    CoherenceStep(Run(InitialState(now), log[..i]), log[i].cmd, log[i].now);
  }

  // ----- where replicas come from -----

  /** The `i`-th command is a create that gave the file with attributes `m` its replicas, under its own FileID or by
      landing on it. */
  ghost predicate GaveReplicas(now: Time, log: seq<Step>, i: nat, m: Meta)
    requires i < |log|
  {
    && log[i].cmd.CreateFile? && log[i].cmd.replicas == m.replicas
    && (log[i].cmd.fileID == m.fileID || Landed(now, log, i))
  }

  ghost predicate Landed(now: Time, log: seq<Step>, i: nat)
    requires i < |log|
  {
    log[i].cmd.CreateFile? && OutcomeAt(InitialState(now), log, i) == Done
      && LandsOnFile(Run(InitialState(now), log[..i]), log[i].cmd)
  }

  lemma {:induction false} ReplicasComeFromCreate(now: Time, log: seq<Step>, p: Path)
    requires IsFileAt(Run(InitialState(now), log).tree, p)
    ensures exists i :: 0 <= i < |log| && GaveReplicas(now, log, i, Run(InitialState(now), log).tree[p])
  {
    if log != [] {
      var n := |log| - 1;
      var s, c, t := Run(InitialState(now), log[..n]), log[n].cmd, log[n].now;
      RunStaysWellFormed(InitialState(now), log[..n]);
      Provenance(s, c, t, p);
      var m := Run(InitialState(now), log).tree[p];
      if Born(s, c, t, p) || Overwritten(s, c, t, p) {
        assert GaveReplicas(now, log, n, m);
      } else {
        var o := CameFrom(s, c, t, p);
        ReplicasComeFromCreate(now, log[..n], o);
        var i :| 0 <= i < n && GaveReplicas(now, log[..n], i, s.tree[o]);
        assert log[..n][..i] == log[..i] && log[..n][i] == log[i];
        assert GaveReplicas(now, log, i, m);
      }
    }
  }

  /** A FileID whose create landed on an existing file never lives. */
  lemma LandedNeverLives(now: Time, log: seq<Step>, i: nat)
    requires FreshIDs(log) && i < |log| && Landed(now, log, i)
    ensures log[i].cmd.fileID !in LiveIDs(Run(InitialState(now), log).tree)
  {
    var id := log[i].cmd.fileID;
    assert log[..|log|] == log && id in CreatedIDs(log[..i+1]) by { assert log[..i+1][i] == log[i]; }
    hide Run, LandsOnFile, FreshIDs, LiveIDs, CreatedIDs, LivesSince, Apply, InitialState, WellFormed, UniqueIDs;
    if id in LiveIDs(Run(InitialState(now), log).tree) {
      LiveIsLiving(Run(InitialState(now), log).tree, id);
      var at :| LivesSince(Run(InitialState(now), log).tree, id, at);
      NeverResurrected(now, log, i + 1, |log|, id, at);
      LiveIsLiving(Run(InitialState(now), log[..i+1]).tree, id);
      RunStep(InitialState(now), log, i);
      RunStaysWellFormed(InitialState(now), log[..i]);
      FreshPrefix(log, i);
      IDsAreUnique(now, log[..i]);
      LandingBringsNoID(Run(InitialState(now), log[..i]), log[i].cmd, log[i].now);
    }
  }

  lemma LandingBringsNoID(s: State, c: Command, now: Time)
    requires WellFormed(s.tree) && LandsOnFile(s, c) && c.fileID !in LiveIDs(s.tree)
    ensures c.fileID !in LiveIDs(Apply(s, c, now).state.tree)
  {
    var t' := Apply(s, c, now).state.tree;
    forall q | q in t' && !t'[q].isDir
      ensures t'[q].fileID != c.fileID
    {
      assert IsFileAt(t', q);
      StepIDs(s, c, now, q);
    }
  }

  // ----- rename -----

  /** A successful rename carries one subtree, unchanged but for the name and time of its top, empties its old place,
      leaves every path elsewhere as it was up to the times of the two parents, and at most one FileID leaves the
      tree: that of an overwritten file. */
  lemma RenameMovesOneSubtree(t: Tree, src: Path, dst: Path, now: Time)
    requires WellFormed(t) && RenameIn(t, src, dst, now).1 == Done
    ensures var r := RenameIn(t, src, dst, now).0;
      && (forall x: Path :: dst + x in r <==> src + x in t)
      && (forall x: Path :: x != [] && src + x in t ==> r[dst + x] == t[src + x])
      && r[dst] == t[src].(name := Last(dst), modTime := now)
      && (src != dst ==> forall q :: q in r ==> !Below(src, q))
      && (forall q :: !Below(src, q) && !Below(dst, q) ==>
            (q in r <==> q in t)
            && (q in t ==> r[q] == if q == Parent(src) || q == Parent(dst) then t[q].(modTime := now) else t[q]))
      && LiveIDs(r) <= LiveIDs(t)
      && LiveIDs(t) <= LiveIDs(r) + (if dst in t && dst != src then {t[dst].fileID} else {})
  {
    var r := Renamed(t, src, dst, now);
    forall x: Path
      ensures dst + x in r <==> src + x in t
      ensures x != [] && src + x in t ==> r[dst + x] == t[src + x]
    {
      RenamedBelow(t, src, dst, now, x);
    }
    RenamedBelow(t, src, dst, now, []);
    forall q
      ensures src != dst && q in r ==> !Below(src, q)
      ensures !Below(src, q) && !Below(dst, q) ==>
        (q in r <==> q in t)
        && (q in t ==> r[q] == if q == Parent(src) || q == Parent(dst) then t[q].(modTime := now) else t[q])
    {
      RenamedOutside(t, src, dst, now, q);
    }
    RenameIDs(t, src, dst, now);
    assert src + [] == src && dst + [] == dst;
    hide Renamed, WellFormed, LiveIDs, Below;
  }

  lemma RenamedBelow(t: Tree, src: Path, dst: Path, now: Time, x: Path)
    requires WellFormed(t) && RenameIn(t, src, dst, now).1 == Done
    ensures var r := Renamed(t, src, dst, now);
      && (dst + x in r <==> src + x in t)
      && (src + x in t ==> r[dst + x] == if x == [] then t[src].(name := Last(dst), modTime := now) else t[src + x])
  {
    RenameIsIncomparable(t, src, dst, now);
    RenamedAt(t, src, dst, now, dst + x);
    assert (dst + x)[|dst|..] == x && (dst + x)[..|dst|] == dst && Below(dst, dst + x);
    assert Rebase(dst + x, dst, src) == src + x == Origin(dst + x, src, dst);
    BelowParent(dst, src);
    assert !Below(dst, Parent(dst)) && !Below(dst, Parent(src));
    assert x == [] ==> src + x == src && dst + x == dst;
    hide Renamed, WellFormed;
  }

  lemma RenamedOutside(t: Tree, src: Path, dst: Path, now: Time, q: Path)
    requires WellFormed(t) && RenameIn(t, src, dst, now).1 == Done
    ensures var r := Renamed(t, src, dst, now);
      && (src != dst && q in r ==> !Below(src, q))
      && (!Below(src, q) && !Below(dst, q) ==>
            && (q in r <==> q in t)
            && (q in t ==> r[q] == if q == Parent(src) || q == Parent(dst) then t[q].(modTime := now) else t[q]))
  {
    RenameIsIncomparable(t, src, dst, now);
    RenamedAt(t, src, dst, now, q);
    assert Below(dst, dst);
    if Below(src, q) && Below(dst, q) { BelowLinear(src, dst, q); }
    hide Renamed, WellFormed;
  }

  lemma RenameIDs(t: Tree, src: Path, dst: Path, now: Time)
    requires WellFormed(t) && RenameIn(t, src, dst, now).1 == Done
    ensures var r := Renamed(t, src, dst, now);
      LiveIDs(r) <= LiveIDs(t) && LiveIDs(t) <= LiveIDs(r) + (if dst in t && dst != src then {t[dst].fileID} else {})
  {
    var r := Renamed(t, src, dst, now);
    forall id | id in LiveIDs(r)
      ensures id in LiveIDs(t)
    {
      var q :| q in r && !r[q].isDir && r[q].fileID == id;
      RenamedAt(t, src, dst, now, q);
    }
    forall p | IsFileAt(t, p)
      ensures t[p].fileID in LiveIDs(r) || (dst in t && dst != src && p == dst)
    {
      RenamedFile(t, src, dst, now, p);
    }
  }

  lemma RenamedFile(t: Tree, src: Path, dst: Path, now: Time, p: Path)
    requires WellFormed(t) && RenameIn(t, src, dst, now).1 == Done && IsFileAt(t, p)
    ensures (p == dst && dst != src) || t[p].fileID in LiveIDs(Renamed(t, src, dst, now))
  {
    var r := Renamed(t, src, dst, now);
    if Below(src, p) {
      var q := Rebase(p, src, dst);
      RebaseBack(p, src, dst);
      RenamedAt(t, src, dst, now, q);
      hide Renamed;
      assert q in r && !r[q].isDir && r[q].fileID == t[p].fileID;
    } else if Below(dst, p) {
      if p != dst { PrefixIsDir(t, dst, p); }
    } else {
      RenamedAt(t, src, dst, now, p);
      hide Renamed;
      assert p in r && !r[p].isDir && r[p].fileID == t[p].fileID;
    }
  }
}

/**
What each committed command does, place by place (internal/metadata/apply.go, internal/metadata/mds.go:101-115). The
statements are in terms of what is in the tree before and after, and of literal constants, so that they can be compared
with the program without the definitions in `Namespace`.
*/
module Commands {
  import opened Paths
  import opened FsTypes
  import opened Namespace

  /** The two trees agree at `q`. */
  predicate SameAt(t: Tree, u: Tree, q: Path) {
    (q in u <==> q in t) && (q in t ==> u[q] == t[q])
  }

  /** They agree at `q` but for a new time. */
  predicate TouchedAt(t: Tree, u: Tree, q: Path, now: Time) {
    q in t && q in u && u[q] == t[q].(modTime := now)
  }

  // ----- mkdir -----

  /** The last directory on the way to `p` that is there, when `p` is not. */
  ghost predicate Deepest(t: Tree, p: Path, q: Path) {
    p !in t && q in t && Below(q, p) && forall r :: r in t && Below(r, p) ==> |r| <= |q|
  }

  /** A mkdir succeeds exactly when no file is on the way, itself included; the failure names the level of the file.
      Every prefix is there afterwards: new ones are plain directories, and of the old places only the one that
      received the first new level changes, in its time. */
  lemma MkdirOutcome(t: Tree, p: Path, now: Time)
    requires WellFormed(t)
    ensures var (u, r) := MkdirIn(t, p, now);
      && (r == Done <==> forall q :: Below(q, p) ==> !IsFileAt(t, q))
      && (r != Done ==> u == t && exists i :: 0 <= i < |p| && r == Failed(NotADirectory(i)) && IsFileAt(t, p[..i+1]))
      && (r == Done ==> forall q ::
            && (q in u <==> q in t || Below(q, p))
            && (q in u && q !in t ==> q != [] && u[q] == Meta(Last(q), true, 0, 493, now, now, NoStatus, "", []))
            && (q in t && Deepest(t, p, q) ==> TouchedAt(t, u, q, now))
            && (q in t && !Deepest(t, p, q) ==> u[q] == t[q]))
  {
    LevelOfFile(t, p);
    if FileLevel(t, p) == None {
      forall q
        ensures var u := WithDirs(t, p, now);
          && (q in u <==> q in t || Below(q, p))
          && (q in u && q !in t ==> q != [] && u[q] == Meta(Last(q), true, 0, 493, now, now, NoStatus, "", []))
          && (q in t && Deepest(t, p, q) ==> TouchedAt(t, u, q, now))
          && (q in t && !Deepest(t, p, q) ==> u[q] == t[q])
      {
        if q in t { DeepestIs(t, p, q); }
      }
    }
  }

  lemma LevelOfFile(t: Tree, p: Path)
    requires WellFormed(t)
    ensures FileLevel(t, p) == None <==> forall q :: Below(q, p) ==> !IsFileAt(t, q)
    ensures forall i :: FileLevel(t, p) == Some(i) ==> i < |p| && IsFileAt(t, p[..i+1])
  {
    if FileLevel(t, p) == None {
      forall q | Below(q, p)
        ensures !IsFileAt(t, q)
      {
        NoFileAbove(t, p, q);
      }
    } else {
      var i := FileLevel(t, p).value;
      FileAtLevel(t, p, i);
      hide FileLevel, WellFormed;
      assert Below(p[..i+1], p);
    }
  }

  lemma {:induction false} FileAtLevel(t: Tree, p: Path, i: nat)
    requires FileLevel(t, p) == Some(i)
    ensures i < |p| && IsFileAt(t, p[..i+1])
    decreases |p|
  {
    LevelAbove(t, p, i);
    hide *;
    if i < |p| - 1 {
      FileAtLevel(t, Parent(p), i);
      PrefixOfParent(p, i);
    }
  }

  /** The level is that of the parent path, or the file is at the path itself. */
  lemma LevelAbove(t: Tree, p: Path, i: nat)
    requires FileLevel(t, p) == Some(i)
    ensures p != [] && i < |p|
    ensures if i < |p| - 1 then FileLevel(t, Parent(p)) == Some(i) else IsFileAt(t, p[..i+1])
    decreases |p|
  {
    if FileLevel(t, Parent(p)).Some? {
      LevelAbove(t, Parent(p), i);
    } else {
      assert p[..|p|] == p;
    }
  }

  lemma PrefixOfParent(p: Path, i: nat)
    requires i < |p| - 1
    ensures p[..i+1] == Parent(p)[..i+1]
  {
  }

  lemma DeepestIs(t: Tree, p: Path, q: Path)
    requires WellFormed(t) && q in t
    ensures Deepest(t, p, q) <==> q != p && Below(q, p) && p[..|q|+1] !in t
  {
    if q != p && Below(q, p) {
      var c := p[..|q|+1];
      assert Below(c, p) && |c| == |q| + 1;
      if c !in t {
        forall r | r in t && Below(r, p)
          ensures |r| <= |q|
        {
          if |r| > |q| {
            assert c == r[..|q|+1] && Below(c, r);
            if c != r { PrefixIsDir(t, c, r); }
          }
        }
        if p in t && c != p { PrefixIsDir(t, c, p); }
      }
    }
  }

  // ----- create -----

  /** The answer of a create, in the order of the checks. */
  lemma CreateRefusals(t: Tree, p: Path, size: int, replicas: seq<Replica>, mode: CreateMode, id: string, now: Time)
    ensures var (u, r) := CreateIn(t, p, size, replicas, mode, id, now);
      && (r != Done ==> u == t)
      && (r == Failed(InvalidPath) <==> p == [])
      && (r == Failed(ParentNotFound) <==> p != [] && !IsDirAt(t, Parent(p)))
      && (r == Failed(IsADirectory) <==> p != [] && IsDirAt(t, Parent(p)) && IsDirAt(t, p))
      && (r == Failed(AlreadyExists) <==>
            p != [] && IsDirAt(t, Parent(p)) && IsFileAt(t, p) && mode == CreateIfNotExist)
      && (r == Done <==>
            p != [] && IsDirAt(t, Parent(p)) && (p !in t || (IsFileAt(t, p) && mode == OverwriteIfExists)))
  {
  }

  /** A successful create makes or replaces one record: all it carries is recorded, an existing file keeps its creation
      time and FileID, and elsewhere only the parent's time changes. */
  lemma CreateRecords(t: Tree, p: Path, size: int, replicas: seq<Replica>, mode: CreateMode, id: string, now: Time)
    requires CreateIn(t, p, size, replicas, mode, id, now).1 == Done
    ensures var u := CreateIn(t, p, size, replicas, mode, id, now).0;
      && u.Keys == t.Keys + {p} && !u[p].isDir && u[p].name == Last(p)
      && u[p].size == size && u[p].replicas == replicas && u[p].status == Pending && u[p].mode == 420
      && u[p].modTime == now
      && u[p].createdAt == (if p in t then t[p].createdAt else now)
      && u[p].fileID == (if p in t then t[p].fileID else id)
      && TouchedAt(t, u, Parent(p), now)
      && forall q :: q != p && q != Parent(p) ==> SameAt(t, u, q)
  {
  }

  // ----- complete and resize -----

  /** A completion is refused for a missing path and for a directory; else the one file is complete, with a new time,
      and keeps everything else, its size included. */
  lemma CompleteOutcome(t: Tree, p: Path, now: Time)
    ensures var (u, r) := CompleteIn(t, p, now);
      && r == (if p !in t then Failed(PathNotFound) else if t[p].isDir then Failed(IsADirectory) else Done)
      && (r != Done ==> u == t)
      && (r == Done ==> p in u && u[p] == t[p].(status := Complete, modTime := now))
      && forall q :: q != p ==> SameAt(t, u, q)
  {
  }

  /** A size update likewise: the one file has the size, a new time, and keeps everything else. */
  lemma ResizeOutcome(t: Tree, p: Path, size: int, now: Time)
    ensures var (u, r) := ResizeIn(t, p, size, now);
      && r == (if p !in t then Failed(PathNotFound) else if t[p].isDir then Failed(IsADirectory) else Done)
      && (r != Done ==> u == t)
      && (r == Done ==> p in u && u[p] == t[p].(size := size, modTime := now))
      && forall q :: q != p ==> SameAt(t, u, q)
  {
  }

  // ----- delete -----

  /** A delete is refused for the root and for a missing path; else exactly the places at and below the path leave,
      and of the others only the parent changes, in its time. */
  lemma DeleteOutcome(t: Tree, p: Path, now: Time)
    requires WellFormed(t)
    ensures var (u, r) := DeleteIn(t, p, now);
      && r == (if p == [] then Failed(CannotDeleteRoot) else if p !in t then Failed(PathNotFound) else Done)
      && (r != Done ==> u == t)
      && (r == Done ==>
            && (forall q :: Below(p, q) ==> q !in u)
            && TouchedAt(t, u, Parent(p), now)
            && forall q :: !Below(p, q) && q != Parent(p) ==> SameAt(t, u, q))
  {
    if p != [] && p in t {
      assert IsDirAt(t, Parent(p)) && !Below(p, Parent(p));
    }
  }

  // ----- rename -----

  /** The answer of a rename, in the order of the checks. What a successful rename does is `RenameMovesOneSubtree`. */
  lemma RenameRefusals(t: Tree, src: Path, dst: Path, now: Time)
    requires WellFormed(t)
    ensures var (u, r) := RenameIn(t, src, dst, now);
      && (r != Done ==> u == t)
      && (r == Failed(InvalidPath) <==> src == [] || dst == [])
      && (src != [] && dst != [] ==>
            && (r == Failed(SourceNotFound) <==> src !in t)
            && (r == Failed(IntoOwnSubtree) <==> IsDirAt(t, src) && Below(src, Parent(dst)))
            && (r == Failed(DestinationParentNotFound) <==>
                  src in t && !(t[src].isDir && Below(src, Parent(dst))) && !IsDirAt(t, Parent(dst)))
            && (r == Failed(DestinationIsDirectory) <==>
                  src in t && !(t[src].isDir && Below(src, Parent(dst))) && IsDirAt(t, dst))
            && (r == Done <==>
                  && src in t && !(t[src].isDir && Below(src, Parent(dst)))
                  && IsDirAt(t, Parent(dst)) && !IsDirAt(t, dst)))
  {
    if src != [] && src in t {
      assert IsDirAt(t, Parent(src));
    }
    if dst != [] && dst in t {
      assert IsDirAt(t, Parent(dst));
    }
    hide Renamed, Below;
  }

  // ----- membership -----

  /** A heartbeat records its time, and lists the node at the end if it was not listed. */
  lemma HeartbeatRecords(s: State, addr: string, now: Time)
    ensures var a := Apply(s, Heartbeat(addr), now);
      && a.outcome == Done && a.state.tree == s.tree
      && addr in a.state.lastHeartbeat && a.state.lastHeartbeat[addr] == now
      && (forall x :: x != addr ==>
            (x in a.state.lastHeartbeat <==> x in s.lastHeartbeat)
            && (x in s.lastHeartbeat ==> a.state.lastHeartbeat[x] == s.lastHeartbeat[x]))
      && (addr in s.dataNodes ==> a.state.dataNodes == s.dataNodes)
      && (addr !in s.dataNodes ==> a.state.dataNodes == s.dataNodes + [addr])
  {
  }

  /** A removal forgets the node's time, and takes its first listing out of its place. */
  lemma RemovalForgets(s: State, addr: string, now: Time)
    ensures var a := Apply(s, RemoveDataNode(addr), now);
      && a.outcome == Done && a.state.tree == s.tree && addr !in a.state.lastHeartbeat
      && (forall x :: x != addr ==>
            (x in a.state.lastHeartbeat <==> x in s.lastHeartbeat)
            && (x in s.lastHeartbeat ==> a.state.lastHeartbeat[x] == s.lastHeartbeat[x]))
      && (addr !in s.dataNodes ==> a.state.dataNodes == s.dataNodes)
      && forall i :: 0 <= i < |s.dataNodes| && s.dataNodes[i] == addr && addr !in s.dataNodes[..i] ==>
           a.state.dataNodes == s.dataNodes[..i] + s.dataNodes[i+1..]
  {
    if addr !in s.dataNodes {
      RemoveAbsent(s.dataNodes, addr);
    }
    forall i | 0 <= i < |s.dataNodes| && s.dataNodes[i] == addr && addr !in s.dataNodes[..i]
      ensures RemoveMember(s.dataNodes, addr) == s.dataNodes[..i] + s.dataNodes[i+1..]
    {
      RemoveAt(s.dataNodes, i, addr);
    }
  }

  // ----- the dispatch and the initial state -----

  /** Each command on paths does its work on the components of its path strings and leaves the members alone; an unknown
      operation is refused. */
  lemma DispatchOutcome(s: State, c: Command, now: Time)
    ensures var a := Apply(s, c, now);
      var r := (a.state.tree, a.outcome);
      && (!c.Heartbeat? && !c.RemoveDataNode? ==>
            a.state.dataNodes == s.dataNodes && a.state.lastHeartbeat == s.lastHeartbeat)
      && (c.UnknownOp? ==> a.outcome == Failed(UnknownOperation) && a.state == s)
      && (c.Mkdir? ==> r == MkdirIn(s.tree, Components(c.path), now))
      && (c.CreateFile? ==>
            r == CreateIn(s.tree, Components(c.path), c.size, c.replicas, c.createMode, c.fileID, now))
      && (c.CompleteFile? ==> r == CompleteIn(s.tree, Components(c.path), now))
      && (c.UpdateSize? ==> r == ResizeIn(s.tree, Components(c.path), c.newSize, now))
      && (c.Delete? ==> r == DeleteIn(s.tree, Components(c.path), now))
      && (c.Rename? ==> r == RenameIn(s.tree, Components(c.path), Components(c.dstPath), now))
  {
  }

  lemma InitialStateIs(now: Time)
    ensures InitialState(now)
         == State(map[[] := Meta("/", true, 0, 493, now, now, NoStatus, "", [])], [], map[])
  {
  }
}

/**
What each committed command does to the metadata state, on values (internal/metadata/apply.go,
internal/metadata/state_machine.go:11-41). The tree is a flat map, so that a rename is one re-keying and a mkdir one
union; `MetadataServers` proves that the pointer code does the same.
*/
module Namespace {
  import opened Paths
  import opened FsTypes
  import opened TreeShape

  // ----- the tree -----

  ghost predicate WellFormed(t: Tree)
  {
    && [] in t && t[[]].isDir
    && (forall p {:trigger Parent(p)} {:trigger t[p].name} :: p in t && p != [] ==>
          Parent(p) in t && t[Parent(p)].isDir && t[p].name == Last(p))
  }

  predicate IsDirAt(t: Tree, p: Path) {
    p in t && t[p].isDir
  }

  predicate IsFileAt(t: Tree, p: Path) {
    p in t && !t[p].isDir
  }

  lemma {:induction false} PrefixIsDir(t: Tree, a: Path, p: Path)
    requires WellFormed(t) && p in t && Below(a, p) && a != p
    ensures IsDirAt(t, a)
    decreases |p|
  {
    BelowParent(a, p);
    if a != Parent(p) {
      PrefixIsDir(t, a, Parent(p));
    }
  }

  function NewDir(n: Name, now: Time): Meta {
    Meta(n, true, 0, DIR_MODE, now, now, NoStatus, "", [])
  }

  function Touch(t: Tree, p: Path, now: Time): Tree {
    if p in t then t[p := t[p].(modTime := now)] else t
  }

  // ----- mkdir -----

  function Prefixes(p: Path): (ps: set<Path>)
    ensures forall q :: q in ps <==> Below(q, p)
  {
    set i | 0 <= i <= |p| :: p[..i]
  }

  /** The level of the path component that names a file, if there is one. */
  function FileLevel(t: Tree, p: Path): Option<nat>
    decreases |p|
  {
    if p == [] then None
    else if FileLevel(t, Parent(p)).Some? then FileLevel(t, Parent(p))
    else if IsFileAt(t, p) then Some(|p| - 1)
    else None
  }

  /** What a mkdir of `p` leaves at `q`: a new directory, a directory touched because it received the first new
      level, or what was there. */
  function LevelAt(t: Tree, p: Path, now: Time, q: Path): Meta {
    if q !in t then (if q == [] then NewDir("", now) else NewDir(Last(q), now))
    else if q != p && Below(q, p) && p[..|q|+1] !in t then t[q].(modTime := now)
    else t[q]
  }

  /** Every prefix of `p` exists afterwards. */
  function WithDirs(t: Tree, p: Path, now: Time): Tree {
    map q | q in t.Keys + Prefixes(p) :: LevelAt(t, p, now, q)
  }

  function MkdirIn(t: Tree, p: Path, now: Time): (Tree, Outcome) {
    match FileLevel(t, p)
    case Some(i) => (t, Failed(NotADirectory(i)))
    case None => (WithDirs(t, p, now), Done)
  }

  lemma WithNoDirs(t: Tree, now: Time)
    requires [] in t
    ensures WithDirs(t, [], now) == t && FileLevel(t, []) == None
  {
    var none: Path := [];
    assert none[..0] == none;
  }

  /** One more level: nothing changes when it exists, else it is added under its parent. */
  lemma WithDirsStep(t: Tree, p: Path, now: Time)
    requires WellFormed(t) && p != []
    ensures var w := WithDirs(t, Parent(p), now);
      && (p in w <==> p in t)
      && Parent(p) in w
      && (FileLevel(t, Parent(p)) == None ==> FileLevel(t, p) == if IsFileAt(t, p) then Some(|p| - 1) else None)
      && (p in t ==> WithDirs(t, Parent(p), now) == t && WithDirs(t, p, now) == t)
      && (p !in t ==> WithDirs(t, p, now) == Touch(w, Parent(p), now)[p := NewDir(Last(p), now)])
  {
    assert Below(Parent(p), Parent(p)) && !Below(p, Parent(p));
    if p in t {
      BelowParent(Parent(p), p);
      assert Below(p, p);
      WithExistingDirs(t, p, p, now);
      WithExistingDirs(t, p, Parent(p), now);
      hide WithDirs, WellFormed;
    } else {
      WithNewLevel(t, p, now);
      hide WellFormed, LevelAt, Touch;
    }
  }

  lemma WithExistingDirs(t: Tree, p: Path, a: Path, now: Time)
    requires WellFormed(t) && p in t && Below(a, p)
    ensures WithDirs(t, a, now) == t
  {
    forall q | Below(q, a)
      ensures q in t
    {
      BelowTransitive(q, a, p);
      if q != p { PrefixIsDir(t, q, p); }
    }
  }

  lemma WithNewLevel(t: Tree, p: Path, now: Time)
    requires WellFormed(t) && p != [] && p !in t
    ensures WithDirs(t, p, now) == Touch(WithDirs(t, Parent(p), now), Parent(p), now)[p := NewDir(Last(p), now)]
  {
    var w, w' := WithDirs(t, Parent(p), now), WithDirs(t, p, now);
    var v := Touch(w, Parent(p), now)[p := NewDir(Last(p), now)];
    assert p[..|p|] == p && Below(Parent(p), p);
    forall q
      ensures q in w' <==> q in v
      ensures q in w' ==> w'[q] == v[q]
    {
      WithNewLevelAt(t, p, now, q);
    }
  }

  lemma WithNewLevelAt(t: Tree, p: Path, now: Time, q: Path)
    requires WellFormed(t) && p != [] && p !in t
    ensures var w, w' := WithDirs(t, Parent(p), now), WithDirs(t, p, now);
      && (q in w' <==> q in w || q == p)
      && (q in w && q != Parent(p) && q != p ==> w'[q] == w[q])
      && (q == p ==> w'[q] == NewDir(Last(p), now))
      && (q == Parent(p) ==> q in w && w'[q] == w[q].(modTime := now))
  {
    BelowParent(q, p);
    var d := Parent(p);
    assert Below(p, p) && Below(d, d);
    if q in t && q != p && q != d && Below(q, d) {
      assert d[..|q|+1] == p[..|q|+1];
    } else if q == d {
      assert p[..|d|+1] == p;
    }
  }

  /** A file on the way ends a mkdir before any level is missing, so nothing was added yet. */
  lemma {:induction false} FileStopsMkdir(t: Tree, p: Path, i: nat)
    requires i < |p| && FileLevel(t, p[..i]) == None && IsFileAt(t, p[..i+1])
    ensures FileLevel(t, p) == Some(i)
    decreases |p|
  {
    if |p| == i + 1 {
      assert p[..i+1] == p && Parent(p) == p[..i];
    } else {
      assert Parent(p)[..i] == p[..i] && Parent(p)[..i+1] == p[..i+1];
      FileStopsMkdir(t, Parent(p), i);
    }
  }

  // ----- create, complete, resize -----

  function CreateIn(t: Tree, p: Path, size: int, replicas: seq<Replica>, createMode: CreateMode, fileID: string,
                    now: Time): (Tree, Outcome)
  {
    if p == [] then (t, Failed(InvalidPath))
    else if !IsDirAt(t, Parent(p)) then (t, Failed(ParentNotFound))
    else if IsDirAt(t, p) then (t, Failed(IsADirectory))
    else if p in t && createMode != OverwriteIfExists then (t, Failed(AlreadyExists))
    else
      var createdAt := if p in t then t[p].createdAt else now;
      var id := if p in t then t[p].fileID else fileID;
      (Touch(t, Parent(p), now)[p := Meta(Last(p), false, size, FILE_MODE, createdAt, now, Pending, id, replicas)],
        Done)
  }

  function CompleteIn(t: Tree, p: Path, now: Time): (Tree, Outcome) {
    if p !in t then (t, Failed(PathNotFound))
    else if t[p].isDir then (t, Failed(IsADirectory))
    else (t[p := t[p].(status := Complete, modTime := now)], Done)
  }

  function ResizeIn(t: Tree, p: Path, size: int, now: Time): (Tree, Outcome) {
    if p !in t then (t, Failed(PathNotFound))
    else if t[p].isDir then (t, Failed(IsADirectory))
    else (t[p := t[p].(size := size, modTime := now)], Done)
  }

  // ----- delete and rename -----

  function DeleteIn(t: Tree, p: Path, now: Time): (Tree, Outcome) {
    if p == [] then (t, Failed(CannotDeleteRoot))
    else if !IsDirAt(t, Parent(p)) || p !in t then (t, Failed(PathNotFound))
    else (Touch(Without(t, p), Parent(p), now), Done)
  }

  function RenameIn(t: Tree, src: Path, dst: Path, now: Time): (Tree, Outcome) {
    if src == [] || dst == [] then (t, Failed(InvalidPath))
    else if !IsDirAt(t, Parent(src)) || src !in t then (t, Failed(SourceNotFound))
    else if t[src].isDir && Below(src, Parent(dst)) then (t, Failed(IntoOwnSubtree))
    else if !IsDirAt(t, Parent(dst)) then (t, Failed(DestinationParentNotFound))
    else if IsDirAt(t, dst) then (t, Failed(DestinationIsDirectory))
    else (Renamed(t, src, dst, now), Done)
  }

  function Renamed(t: Tree, src: Path, dst: Path, now: Time): Tree
    requires src != [] && dst != [] && src in t
  {
    var arrived := t[src].(name := Last(dst), modTime := now);
    Touch(Touch(Moved(t, src, dst)[dst := arrived], Parent(src), now), Parent(dst), now)
  }

  /** What a rename leaves at `q`, given what was at the place `q` comes from. */
  function RenamedMeta(m: Meta, q: Path, src: Path, dst: Path, now: Time): Meta
    requires src != [] && dst != []
  {
    var n := if q == dst then m.(name := Last(dst)) else m;
    if q == dst || q == Parent(src) || q == Parent(dst) then n.(modTime := now) else n
  }

  lemma RenamedAt(t: Tree, src: Path, dst: Path, now: Time, q: Path)
    requires src != [] && dst != [] && src in t
    ensures q in Renamed(t, src, dst, now) <==>
      if Below(dst, q) then Rebase(q, dst, src) in t else q in t && !Below(src, q)
    ensures q in Renamed(t, src, dst, now) ==>
      Origin(q, src, dst) in t && Renamed(t, src, dst, now)[q] == RenamedMeta(t[Origin(q, src, dst)], q, src, dst, now)
  {
    MovedKeys(t, src, dst, q);
    MovedKeys(t, src, dst, dst);
    assert Rebase(dst, dst, src) == src && Below(dst, dst) && Origin(dst, src, dst) == src;
    var arrived := Moved(t, src, dst)[dst := t[src].(name := Last(dst), modTime := now)];
    TouchAt(arrived, Parent(src), now, q);
    TouchAt(Touch(arrived, Parent(src), now), Parent(dst), now, q);
    hide Moved, Below, Rebase, Origin, Touch;
  }

  lemma TouchAt(t: Tree, p: Path, now: Time, q: Path)
    ensures q in Touch(t, p, now) <==> q in t
    ensures q in t ==> Touch(t, p, now)[q] == if q == p then t[q].(modTime := now) else t[q]
  {
  }

  /** A source that is a file, or a directory that passed the cycle check, is not above the destination's parent. */
  lemma NotAboveDestination(t: Tree, src: Path, dir: Path)
    requires WellFormed(t) && src in t && IsDirAt(t, dir)
    requires t[src].isDir ==> !Below(src, dir)
    ensures !Below(src, dir)
  {
    if Below(src, dir) && src != dir {
      PrefixIsDir(t, src, dir);
    }
  }

  /** A rename that passes all checks moves between places neither of which is strictly above the other. */
  lemma RenameIsIncomparable(t: Tree, src: Path, dst: Path, now: Time)
    requires WellFormed(t) && RenameIn(t, src, dst, now).1 == Done
    ensures src == dst || (!Below(src, dst) && !Below(dst, src))
  {
    NotAboveDestination(t, src, Parent(dst));
    BelowParent(src, dst);
    if Below(dst, src) && src != dst {
      PrefixIsDir(t, dst, src);
    }
  }

  // ----- every command keeps the tree well formed -----

  lemma RenamedWellFormed(t: Tree, src: Path, dst: Path, now: Time)
    requires WellFormed(t) && RenameIn(t, src, dst, now).1 == Done
    ensures WellFormed(Renamed(t, src, dst, now))
  {
    var r := Renamed(t, src, dst, now);
    NotAboveDestination(t, src, Parent(dst));
    RenamedAt(t, src, dst, now, []);
    assert !Below(src, []) && !Below(dst, []);
    hide Renamed, Below;
    forall p | p in r && p != []
      ensures Parent(p) in r && r[Parent(p)].isDir && r[p].name == Last(p)
    {
      if p == dst {
        RenamedTop(t, src, dst, now);
      } else {
        RenamedElsewhere(t, src, dst, now, p);
      }
    }
  }

  /** Below the top of a moved subtree, and outside it, going up commutes with looking back. */
  lemma OriginOfParent(p: Path, src: Path, dst: Path)
    requires p != [] && p != dst
    ensures var o := Origin(p, src, dst);
      o != [] && Origin(Parent(p), src, dst) == Parent(o) && Last(o) == Last(p)
    ensures Below(dst, Parent(p)) <==> Below(dst, p)
  {
    BelowParent(dst, p);
    if Below(dst, p) {
      RebaseChild(p, dst, src);
    }
  }

  lemma RenamedTop(t: Tree, src: Path, dst: Path, now: Time)
    requires src != [] && dst != [] && src in t && IsDirAt(t, Parent(dst)) && !Below(src, Parent(dst))
    ensures var r := Renamed(t, src, dst, now);
      dst in r && r[dst].name == Last(dst) && Parent(dst) in r && r[Parent(dst)].isDir
  {
    RenamedAt(t, src, dst, now, dst);
    RenamedAt(t, src, dst, now, Parent(dst));
    assert !Below(dst, Parent(dst)) && Below(dst, dst) && Rebase(dst, dst, src) == src;
    hide Renamed, Below, Rebase;
  }

  lemma RenamedElsewhere(t: Tree, src: Path, dst: Path, now: Time, p: Path)
    requires WellFormed(t) && src != [] && dst != [] && src in t
    requires p in Renamed(t, src, dst, now) && p != [] && p != dst
    ensures var r := Renamed(t, src, dst, now); Parent(p) in r && r[Parent(p)].isDir && r[p].name == Last(p)
  {
    RenamedAt(t, src, dst, now, p);
    RenamedAt(t, src, dst, now, Parent(p));
    BelowParent(src, p);
    OriginOfParent(p, src, dst);
    var o := Origin(p, src, dst);
    assert Parent(o) in t && t[Parent(o)].isDir && t[o].name == Last(o);
    assert Below(dst, Parent(p)) ==> Rebase(Parent(p), dst, src) == Parent(o);
    hide Renamed, WellFormed, Below, Rebase;
  }

  lemma RenameWellFormed(t: Tree, src: Path, dst: Path, now: Time)
    requires WellFormed(t)
    ensures WellFormed(RenameIn(t, src, dst, now).0)
  {
    if RenameIn(t, src, dst, now).1 == Done {
      RenamedWellFormed(t, src, dst, now);
    }
  }

  lemma MkdirWellFormed(t: Tree, p: Path, now: Time)
    requires WellFormed(t)
    ensures WellFormed(MkdirIn(t, p, now).0)
  {
    var w := WithDirs(t, p, now);
    if FileLevel(t, p).Some? { return; }
    forall q | q in w && q != []
      ensures Parent(q) in w && w[Parent(q)].isDir && w[q].name == Last(q)
    {
      if q !in t {
        BelowTransitive(Parent(q), q, p);
        NoFileAbove(t, p, Parent(q));
      }
    }
  }

  lemma {:induction false} NoFileAbove(t: Tree, p: Path, q: Path)
    requires WellFormed(t) && FileLevel(t, p) == None && Below(q, p)
    ensures !IsFileAt(t, q)
    decreases |p|
  {
    if q != p {
      BelowParent(q, p);
      NoFileAbove(t, Parent(p), q);
    }
  }

  lemma UpdateWellFormed(t: Tree, p: Path, size: int, now: Time)
    requires WellFormed(t)
    ensures WellFormed(CompleteIn(t, p, now).0) && WellFormed(ResizeIn(t, p, size, now).0)
  {
    if IsFileAt(t, p) {
      KeepsWellFormed(t, p, t[p].(status := Complete, modTime := now));
      KeepsWellFormed(t, p, t[p].(size := size, modTime := now));
    }
  }

  lemma KeepsWellFormed(t: Tree, p: Path, m: Meta)
    requires WellFormed(t) && p in t && m.isDir == t[p].isDir && m.name == t[p].name
    ensures WellFormed(t[p := m])
  {
    forall q | q in t[p := m] && q != []
      ensures Parent(q) in t && t[p := m][Parent(q)].isDir && t[p := m][q].name == Last(q)
    {
      assert t[q].name == Last(q);
    }
  }

  lemma PutWellFormed(t: Tree, dir: Path, p: Path, m: Meta, now: Time)
    requires WellFormed(t) && p != [] && Parent(p) == dir && IsDirAt(t, dir)
    requires m.name == Last(p) && (p in t ==> !t[p].isDir && !m.isDir)
    ensures WellFormed(Touch(t, dir, now)[p := m])
  {
    var r := Touch(t, dir, now)[p := m];
    forall q | q in r && q != []
      ensures Parent(q) in r && r[Parent(q)].isDir && r[q].name == Last(q)
    {
      assert q != p ==> t[q].name == Last(q);
    }
  }

  lemma CreateWellFormed(t: Tree, p: Path, size: int, replicas: seq<Replica>, createMode: CreateMode, fileID: string,
                         now: Time)
    requires WellFormed(t)
    ensures WellFormed(CreateIn(t, p, size, replicas, createMode, fileID, now).0)
  {
    var r := CreateIn(t, p, size, replicas, createMode, fileID, now);
    if r.1 == Done {
      PutWellFormed(t, Parent(p), p, r.0[p], now);
    }
  }

  lemma DeleteWellFormed(t: Tree, p: Path, now: Time)
    requires WellFormed(t)
    ensures WellFormed(DeleteIn(t, p, now).0)
  {
    var w := DeleteIn(t, p, now).0;
    if DeleteIn(t, p, now).1.Failed? { return; }
    forall q | q in w && q != []
      ensures Parent(q) in w && w[Parent(q)].isDir && w[q].name == Last(q)
    {
      BelowParent(p, q);
      assert t[q].name == Last(q);
    }
  }

  // ----- proper names -----

  /** Every place in the tree has a path string. */
  ghost predicate ProperNames(t: Tree) {
    forall p, n :: p in t && n in p ==> IsComponent(n)
  }

  lemma ApplyKeepsNames(s: State, c: Command, now: Time)
    requires ProperNames(s.tree)
    ensures ProperNames(Apply(s, c, now).state.tree)
  {
    match c
    case Rename(path, dstPath) =>
      ComponentsAreNames(dstPath);
      RenameKeepsNames(s.tree, Components(path), Components(dstPath), now);
    case Mkdir(path) =>
      ComponentsAreNames(path);
      MkdirKeepsNames(s.tree, Components(path), now);
    case CreateFile(path, _, _, _, _) => ComponentsAreNames(path);
    case _ =>
  }

  lemma MkdirKeepsNames(t: Tree, p: Path, now: Time)
    requires ProperNames(t) && forall n :: n in p ==> IsComponent(n)
    ensures ProperNames(MkdirIn(t, p, now).0)
  {
    forall q, n | q in MkdirIn(t, p, now).0 && n in q
      ensures IsComponent(n)
    {
      if q !in t {
        assert Below(q, p) && n in p;
      }
    }
  }

  lemma RenameKeepsNames(t: Tree, src: Path, dst: Path, now: Time)
    requires ProperNames(t) && forall n :: n in dst ==> IsComponent(n)
    ensures ProperNames(RenameIn(t, src, dst, now).0)
  {
    if RenameIn(t, src, dst, now).1 == Done {
      forall q, n | q in Renamed(t, src, dst, now) && n in q
        ensures IsComponent(n)
      {
        RenamedAt(t, src, dst, now, q);
        if Below(dst, q) {
          assert q == dst + q[|dst|..] && Rebase(q, dst, src) in t;
          assert n in dst || n in Rebase(q, dst, src);
        }
      }
    }
  }

  // ----- membership -----

  function AddMember(nodes: seq<string>, addr: string): seq<string> {
    if addr in nodes then nodes else nodes + [addr]
  }

  /** Without the first occurrence of `addr`; the others keep their order. */
  function RemoveMember(nodes: seq<string>, addr: string): seq<string> {
    if nodes == [] then []
    else if nodes[0] == addr then nodes[1..]
    else [nodes[0]] + RemoveMember(nodes[1..], addr)
  }

  lemma {:induction false} RemoveAbsent(nodes: seq<string>, addr: string)
    requires addr !in nodes
    ensures RemoveMember(nodes, addr) == nodes
  {
    if nodes != [] {
      RemoveAbsent(nodes[1..], addr);
    }
  }

  lemma {:induction false} RemoveAt(nodes: seq<string>, i: nat, addr: string)
    requires i < |nodes| && nodes[i] == addr && addr !in nodes[..i]
    ensures RemoveMember(nodes, addr) == nodes[..i] + nodes[i+1..]
  {
    if i > 0 {
      assert addr !in nodes[1..][..i-1] by { assert nodes[1..][..i-1] == nodes[..i][1..]; }
      assert nodes[0] in nodes[..i];
      RemoveAt(nodes[1..], i - 1, addr);
      assert nodes[1..][i..] == nodes[i+1..];
    }
  }

  // ----- the state machine -----

  /** The tree of one entry. */
  function OnlyRoot(m: Meta): Tree {
    map[[] := m]
  }

  function InitialTree(now: Time): Tree {
    OnlyRoot(NewDir("/", now))
  }

  function InitialState(now: Time): State {
    State(InitialTree(now), [], map[])
  }

  function OnTree(s: State, r: (Tree, Outcome)): Applied {
    Applied(s.(tree := r.0), r.1)
  }

  function Apply(s: State, c: Command, now: Time): Applied {
    match c
    case Heartbeat(addr) =>
      Applied(s.(dataNodes := AddMember(s.dataNodes, addr), lastHeartbeat := s.lastHeartbeat[addr := now]), Done)
    case RemoveDataNode(addr) =>
      Applied(s.(dataNodes := RemoveMember(s.dataNodes, addr), lastHeartbeat := s.lastHeartbeat - {addr}), Done)
    case Mkdir(path) => OnTree(s, MkdirIn(s.tree, Components(path), now))
    case CreateFile(path, size, replicas, createMode, fileID) =>
      OnTree(s, CreateIn(s.tree, Components(path), size, replicas, createMode, fileID, now))
    case CompleteFile(path) => OnTree(s, CompleteIn(s.tree, Components(path), now))
    case Delete(path) => OnTree(s, DeleteIn(s.tree, Components(path), now))
    case Rename(path, dstPath) => OnTree(s, RenameIn(s.tree, Components(path), Components(dstPath), now))
    case UpdateSize(path, newSize) => OnTree(s, ResizeIn(s.tree, Components(path), newSize, now))
    case UnknownOp(_) => Applied(s, Failed(UnknownOperation))
  }

  /** The tree stays a tree: prefix-closed, only directories have children, and every name equals its key. */
  lemma ApplyKeepsTree(s: State, c: Command, now: Time)
    requires WellFormed(s.tree)
    ensures WellFormed(Apply(s, c, now).state.tree)
  {
    match c
    case CreateFile(path, size, replicas, createMode, fileID) =>
      CreateWellFormed(s.tree, Components(path), size, replicas, createMode, fileID, now);
    case CompleteFile(path) => UpdateWellFormed(s.tree, Components(path), 0, now);
    case UpdateSize(path, newSize) => UpdateWellFormed(s.tree, Components(path), newSize, now);
    case Mkdir(path) =>
      MkdirWellFormed(s.tree, Components(path), now);
    case Delete(path) =>
      DeleteWellFormed(s.tree, Components(path), now);
    case Rename(path, dstPath) =>
      RenameWellFormed(s.tree, Components(path), Components(dstPath), now);
    case _ =>
  }
}

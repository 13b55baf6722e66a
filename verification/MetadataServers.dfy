/**
The metadata server's pointer tree and the commands that mutate it in place (internal/metadata/apply.go,
internal/metadata/state_machine.go:11-41, internal/metadata/mds.go:65-94 and 478-489).

Each method is proved against the function of the same purpose in `Namespace`. The ghost field `paths` names every
entry of the tree by its one path; `Valid` ties it to the pointers.
*/
module MetadataServers {
  import opened Paths
  import opened FsTypes
  import opened TreeShape
  import opened Namespace
  import opened Pictures
  import opened Snapshots
  import opened History
  import opened Identity
  import opened Placement
  import opened Services

  lemma FileOrDir(t: Tree, p: Path)
    requires p in t
    ensures if t[p].isDir then IsDirAt(t, p) else IsFileAt(t, p)
  {
  }

  class Entry {
    var name: Name
    var isDir: bool
    var size: int
    var mode: nat
    var createdAt: Time
    var modTime: Time
    var status: Status
    var fileID: string
    var replicas: seq<Replica>
    var children: map<Name, Entry>

    ghost function Attributes(): Meta
      reads this`name, this`isDir, this`size, this`mode, this`createdAt, this`modTime, this`status, this`fileID,
        this`replicas
    {
      Meta(name, isDir, size, mode, createdAt, modTime, status, fileID, replicas)
    }

    constructor (m: Meta)
      ensures Attributes() == m && isDir == m.isDir && children == map[]
    {
      name, isDir, size, mode := m.name, m.isDir, m.size, m.mode;
      createdAt, modTime, status := m.createdAt, m.modTime, m.status;
      fileID, replicas := m.fileID, m.replicas;
      children := map[];
    }
  }

  ghost function KidsOf(nodes: set<Entry>): map<Entry, map<Name, Entry>>
    reads nodes
  {
    map e | e in nodes :: e.children
  }

  ghost function AttrsOf(nodes: set<Entry>): map<Entry, Meta>
    reads nodes
  {
    map e | e in nodes :: e.Attributes()
  }

  /** `entrySnapshot.toEntry`: a new tree of new entries. */
  method ToEntry(s: EntrySnapshot) returns (e: Entry, ghost sub: map<Path, Entry>, ghost nodes: set<Entry>)
    ensures fresh(nodes) && e in nodes
    ensures Shows(e, KidsOf(nodes), AttrsOf(nodes), sub, FlatOf(s))
    decreases s
  {
    hide *;
    e := new Entry(s.meta);
    sub, nodes := map[[] := e], {e};
    NewShows(e, s.meta, sub, nodes);
    var todo := if s.meta.isDir then s.children.Keys else {};
    ghost var done := {};
    PartialEnds(s, done);
    while todo != {}
      invariant todo + done == (if s.meta.isDir then s.children.Keys else {}) && todo !! done
      invariant e in nodes && fresh(nodes) && e.children.Keys == done
      invariant Shows(e, KidsOf(nodes), AttrsOf(nodes), sub, Partial(s, done))
    {
      var k :| k in todo;
      var child, childSub, childNodes := ToEntry(s.children[k]);
      PartialStep(s, done, k);
      HangUp(e, nodes, sub, Partial(s, done), k, child, childNodes, childSub, FlatOf(s.children[k]));
      sub, nodes := Grafted(sub, k, childSub), nodes + childNodes;
      todo, done := todo - {k}, done + {k};
    }
    PartialEnds(s, done);
  }

  /** `metaSnapshot.toEntry`: a snapshot without a root gives an empty root directory. */
  method RootFrom(root: Option<EntrySnapshot>) returns (e: Entry, ghost sub: map<Path, Entry>, ghost nodes: set<Entry>)
    ensures fresh(nodes) && e in nodes
    ensures Shows(e, KidsOf(nodes), AttrsOf(nodes), sub, if root.Some? then FlatOf(root.value) else InitialTree(0))
  {
    hide Shows, FlatOf, Entry.Attributes;
    if root == None {
      e := new Entry(NewDir("/", 0));
      sub, nodes := map[[] := e], {e};
      NewShows(e, NewDir("/", 0), sub, nodes);
    } else {
      e, sub, nodes := ToEntry(root.value);
    }
  }

  lemma NewShows(e: Entry, m: Meta, sub: map<Path, Entry>, nodes: set<Entry>)
    requires e.Attributes() == m && e.children == map[] && sub == map[[] := e] && nodes == {e}
    ensures Shows(e, KidsOf(nodes), AttrsOf(nodes), sub, OnlyRoot(m))
  {
    SingleShows(e, m);
    assert KidsOf({e}) == map[e := map[]] && AttrsOf({e}) == map[e := m];
  }

  /** `e.children[k] = child`, where `child` is the root of a tree of its own. */
  method HangUp(e: Entry, ghost nodes: set<Entry>, ghost sub: map<Path, Entry>, ghost t: Tree, k: Name,
                child: Entry, ghost childNodes: set<Entry>, ghost childSub: map<Path, Entry>, ghost u: Tree)
    requires e in nodes && nodes !! childNodes && k !in e.children
    requires Shows(e, KidsOf(nodes), AttrsOf(nodes), sub, t)
    requires Shows(child, KidsOf(childNodes), AttrsOf(childNodes), childSub, u)
    modifies e`children
    ensures e.children == old(e.children)[k := child]
    ensures Shows(e, KidsOf(nodes + childNodes), AttrsOf(nodes + childNodes), Grafted(sub, k, childSub),
        Grafted(t, k, u))
  {
    hide Shows, Grafted, Entry.Attributes;
    GraftShows(e, KidsOf(nodes), AttrsOf(nodes), sub, t, k, child, KidsOf(childNodes), AttrsOf(childNodes), childSub,
      u);
    Link(e, nodes, k, child, childNodes);
  }

  method Link(e: Entry, ghost nodes: set<Entry>, k: Name, child: Entry, ghost childNodes: set<Entry>)
    requires e in nodes && nodes !! childNodes
    modifies e`children
    ensures e.children == old(e.children)[k := child]
    ensures KidsOf(nodes + childNodes) == GraftedKids(e, old(KidsOf(nodes)), k, child, old(KidsOf(childNodes)))
    ensures AttrsOf(nodes + childNodes) == old(AttrsOf(nodes) + AttrsOf(childNodes))
  {
    hide Entry.Attributes;
    ghost var kids, attrs := KidsOf(nodes + childNodes), AttrsOf(nodes + childNodes);
    assert kids == KidsOf(nodes) + KidsOf(childNodes) && attrs == AttrsOf(nodes) + AttrsOf(childNodes);
    e.children := e.children[k := child];
    assert KidsOf(nodes + childNodes) == kids[e := e.children];
    assert AttrsOf(nodes + childNodes) == attrs;
  }

  class MetadataServer {
    var root: Entry
    var dataNodes: seq<string>
    var lastHeartbeat: map<string, Time>
    ghost var paths: map<Path, Entry>
    ghost var repr: set<Entry>

    ghost function Kids(): map<Entry, map<Name, Entry>>
      reads this`repr, repr
    {
      KidsOf(repr)
    }

    ghost function Attrs(): map<Entry, Meta>
      reads this`repr, repr
    {
      AttrsOf(repr)
    }

    /** The tree that the entries show. */
    ghost function Flat(): Tree
      reads this`paths, this`repr, repr
    {
      ViewOf(paths, Attrs())
    }

    ghost function View(): State
      reads this, repr
    {
      State(Flat(), dataNodes, lastHeartbeat)
    }

    ghost predicate Valid()
      reads this`paths, this`root, this`repr, repr
    {
      Depicts(root, Kids(), Attrs(), paths, Flat())
    }

    lemma Rooted()
      requires Valid()
      ensures [] in paths && paths[[]] == root && root in repr && root.isDir
    {
      assert Flat()[[]] == root.Attributes();
    }

    lemma FlatAt(p: Path)
      requires Valid()
      ensures p in Flat() <==> p in paths
      ensures p in paths ==> paths[p] in repr && paths[p] in Kids() && paths[p] in Attrs()
      ensures p in paths ==> Flat()[p] == paths[p].Attributes() == Attrs()[paths[p]]
      ensures p in paths ==> Flat()[p].isDir == paths[p].isDir && Kids()[paths[p]] == paths[p].children
    {
    }

    lemma ValidIsWellFormed()
      requires Valid()
      ensures WellFormed(Flat())
    {
    }

    lemma SamePath(p: Path, q: Path)
      requires Valid() && p in paths && q in paths
      ensures paths[p] == paths[q] <==> p == q
    {
    }

    lemma DirAbove(a: Path, p: Path)
      requires Valid() && p in paths && Below(a, p)
      ensures a in paths && (a != p ==> paths[a].isDir)
    {
      FlatAt(a);
      if a != p {
        PrefixIsDir(Flat(), a, p);
      }
    }

    /** One pointer step, in terms of paths. */
    lemma StepDown(here: Path, n: Name)
      requires Valid() && here in paths
      ensures n in paths[here].children <==> Child(here, n) in paths
      ensures n in paths[here].children ==> paths[here].children[n] == paths[Child(here, n)]
      ensures n in paths[here].children ==> paths[here].children[n] in repr
    {
      assert paths[here] in repr;
      assert n in Kids()[paths[here]] ==> Child(here, n) in paths;
      assert Child(here, n) in paths ==> n in Kids()[paths[here]];
    }

    lemma Picture()
      requires Valid()
      ensures Depicts(root, Kids(), Attrs(), paths, Flat()) && WellFormed(Flat())
      ensures Kids().Keys == Attrs().Keys == repr
    {
    }

    /** Re-establishing the invariant. */
    lemma Rebuild(t: Tree)
      requires Depicts(root, Kids(), Attrs(), paths, t)
      ensures Valid() && Flat() == t
    {
    }

    constructor (now: Time)
      ensures Valid() && fresh(repr)
      ensures View() == InitialState(now)
    {
      var r := new Entry(NewDir("/", now));
      root := r;
      dataNodes := [];
      lastHeartbeat := map[];
      paths := map[[] := r];
      repr := {r};
      new;
      hide Shows, Valid, Flat, Entry.Attributes;
      NewShows(r, NewDir("/", now), paths, repr);
      Adopted(InitialTree(now));
    }

    lemma Adopted(t: Tree)
      requires Shows(root, KidsOf(repr), AttrsOf(repr), paths, t)
      ensures Flat() == t && TreeOf(root, Kids(), paths) && (Valid() <==> WellFormed(t))
    {
    }

    // ----- field assignments, and what they do to the picture -----

    method PutChild(d: Entry, n: Name, e: Entry)
      requires d in repr
      modifies d`children
      ensures Kids() == old(Kids()[d := Kids()[d][n := e]]) && Attrs() == old(Attrs())
    {
      d.children := d.children[n := e];
    }

    method DropChild(d: Entry, n: Name)
      requires d in repr
      modifies d`children
      ensures Kids() == old(Kids()[d := Kids()[d] - {n}]) && Attrs() == old(Attrs())
    {
      d.children := d.children - {n};
    }

    method SetModTime(d: Entry, now: Time)
      requires d in repr
      modifies d`modTime
      ensures Kids() == old(Kids()) && Attrs() == old(Attrs()[d := Attrs()[d].(modTime := now)])
    {
      d.modTime := now;
    }

    method SetName(d: Entry, n: Name)
      requires d in repr
      modifies d`name
      ensures Kids() == old(Kids()) && Attrs() == old(Attrs()[d := Attrs()[d].(name := n)])
    {
      d.name := n;
    }

    method SetStatus(d: Entry, status: Status)
      requires d in repr
      modifies d`status
      ensures Kids() == old(Kids()) && Attrs() == old(Attrs()[d := Attrs()[d].(status := status)])
    {
      d.status := status;
    }

    method SetSize(d: Entry, size: int)
      requires d in repr
      modifies d`size
      ensures Kids() == old(Kids()) && Attrs() == old(Attrs()[d := Attrs()[d].(size := size)])
    {
      d.size := size;
    }

    ghost method Adopt(e: Entry)
      modifies this`repr
      ensures repr == old(repr) + {e}
      ensures Kids() == old(Kids())[e := e.children] && Attrs() == old(Attrs())[e := e.Attributes()]
    {
      repr := repr + {e};
    }

    // ----- walking -----

    /** The loop over the parent components that create, delete and rename share. */
    method WalkDirs(parts: Path) returns (found: bool, current: Entry)
      requires Valid()
      ensures found <==> IsDirAt(Flat(), parts)
      ensures found ==> parts in paths && current == paths[parts] && current in repr && current.isDir
    {
      hide Valid, Flat, Depicts, WellFormed;
      Rooted();
      FlatAt(parts);
      FlatAt([]);
      current := root;
      for i := 0 to |parts|
        invariant parts[..i] in paths && current == paths[parts[..i]] && current.isDir && current in repr
      {
        StepDown(parts[..i], parts[i]);
        assert parts[..i+1] == Child(parts[..i], parts[i]);
        FlatAt(parts[..i+1]);
        if parts[i] !in current.children || !current.children[parts[i]].isDir {
          if IsDirAt(Flat(), parts) && parts[..i+1] != parts {
            DirAbove(parts[..i+1], parts);
          }
          return false, current;
        }
        current := current.children[parts[i]];
      }
      assert parts[..|parts|] == parts;
      found := true;
    }

    method Lookup(path: string) returns (e: Entry?)
      requires Valid()
      ensures e == if Components(path) in paths then paths[Components(path)] else null
      ensures e != null ==> e in repr
    {
      hide Valid, Flat, Depicts, WellFormed;
      var parts := SplitPath(path);
      Rooted();
      var current := root;
      for i := 0 to |parts|
        invariant parts[..i] in paths && current == paths[parts[..i]] && current in repr
      {
        StepDown(parts[..i], parts[i]);
        assert parts[..i+1] == Child(parts[..i], parts[i]);
        if parts[i] !in current.children {
          if parts in paths {
            DirAbove(parts[..i+1], parts);
          }
          return null;
        }
        current := current.children[parts[i]];
      }
      assert parts[..|parts|] == parts;
      e := current;
    }

    /** `dir.children[n] = e; dir.modTime = now`, the assignments with which mkdir and create add an entry. */
    method Attach(dir: Entry, ghost here: Path, n: Name, e: Entry, now: Time)
      requires Valid()
      requires here in paths && paths[here] == dir && dir.isDir
      requires e !in repr && e.children == map[] && e.Attributes().name == n
      requires Child(here, n) in paths ==> !paths[Child(here, n)].isDir && !e.Attributes().isDir
      modifies this`paths, this`repr, dir`children, dir`modTime
      ensures Valid() && repr == old(repr) + {e}
      ensures paths == old(paths)[Child(here, n) := e]
      ensures Flat() == Touch(old(Flat()), here, now)[Child(here, n) := e.Attributes()]
    {
      hide Valid, Depicts, Flat, WellFormed, TreeOf, Kids, Attrs, ViewOf, Entry.Attributes;
      Picture();
      FlatAt(here);
      FlatAt(Child(here, n));
      PutDepicts(root, Kids(), Attrs(), paths, Flat(), here, n, e, e.Attributes(), now);
      ghost var t := Touch(Flat(), here, now)[Child(here, n) := e.Attributes()];
      PutChild(dir, n, e);
      SetModTime(dir, now);
      Adopt(e);
      paths := paths[Child(here, n) := e];
      Rebuild(t);
    }

    // ----- mkdir -----

    /** The case of a missing level. */
    method AddDir(dir: Entry, ghost here: Path, n: Name, now: Time) returns (child: Entry)
      requires Valid()
      requires here in paths && paths[here] == dir && dir.isDir && Child(here, n) !in paths
      modifies this`paths, this`repr, dir`children, dir`modTime
      ensures Valid() && fresh(child) && repr == old(repr) + {child}
      ensures child.isDir && paths == old(paths)[Child(here, n) := child]
      ensures Flat() == Touch(old(Flat()), here, now)[Child(here, n) := NewDir(n, now)]
    {
      hide Valid, Flat, Touch;
      child := new Entry(NewDir(n, now));
      Attach(dir, here, n, child, now);
    }

    method ApplyMkdir(path: string, now: Time) returns (r: Outcome)
      requires Valid()
      modifies this`paths, this`repr, repr
      ensures Valid() && fresh(repr - old(repr))
      ensures (Flat(), r) == MkdirIn(old(Flat()), Components(path), now)
    {
      hide Valid, Depicts, Flat, WellFormed, FileLevel, WithDirs, LevelAt, Touch, Entry.Attributes;
      var parts := SplitPath(path);
      ghost var t := Flat();
      Picture();
      Rooted();
      FlatAt([]);
      WithNoDirs(t, now);
      var current := root;
      for i := 0 to |parts|
        invariant Valid() && fresh(repr - old(repr))
        invariant parts[..i] in paths && current == paths[parts[..i]] && current.isDir && current in repr
        invariant FileLevel(t, parts[..i]) == None
        invariant Flat() == WithDirs(t, parts[..i], now)
      {
        ghost var here, next := parts[..i], parts[..i+1];
        assert Parent(next) == here && next == Child(here, parts[i]);
        StepDown(here, parts[i]);
        FlatAt(next);
        WithDirsStep(t, next, now);
        if parts[i] !in current.children {
          current := AddDir(current, here, parts[i], now);
        } else {
          var child := current.children[parts[i]];
          if !child.isDir {
            FileStopsMkdir(t, parts, i);
            return Failed(NotADirectory(i));
          }
          current := child;
        }
      }
      assert parts[..|parts|] == parts;
      r := Done;
    }

    // ----- create, complete, resize -----

    method ApplyCreateFile(path: string, size: int, replicas: seq<Replica>, createMode: CreateMode, fileID: string,
                           now: Time)
      returns (r: Outcome)
      requires Valid()
      modifies this`paths, this`repr, repr
      ensures Valid() && fresh(repr - old(repr))
      ensures (Flat(), r) == CreateIn(old(Flat()), Components(path), size, replicas, createMode, fileID, now)
    {
      hide Valid, Flat, Depicts, WellFormed;
      var parts := SplitPath(path);
      if |parts| == 0 {
        return Failed(InvalidPath);
      }
      var dirParts, fileName := parts[..|parts|-1], parts[|parts|-1];
      var found, current := WalkDirs(dirParts);
      if !found {
        return Failed(ParentNotFound);
      }
      assert parts == Child(dirParts, fileName);
      StepDown(dirParts, fileName);
      FlatAt(parts);
      var createdAt, id := now, fileID;
      if fileName in current.children {
        var existing := current.children[fileName];
        if existing.isDir {
          return Failed(IsADirectory);
        }
        if createMode != OverwriteIfExists {
          return Failed(AlreadyExists);
        }
        createdAt, id := existing.createdAt, existing.fileID;
      }
      var e := new Entry(Meta(fileName, false, size, FILE_MODE, createdAt, now, Pending, id, replicas));
      Attach(current, dirParts, fileName, e, now);
      r := Done;
    }

    method ApplyCompleteFile(path: string, now: Time) returns (r: Outcome)
      requires Valid()
      modifies repr
      ensures Valid()
      ensures (Flat(), r) == CompleteIn(old(Flat()), Components(path), now)
    {
      hide Valid, Depicts, Flat, WellFormed, TreeOf, Kids, Attrs, ViewOf, Entry.Attributes;
      var e := Lookup(path);
      FlatAt(Components(path));
      if e == null {
        return Failed(PathNotFound);
      }
      if e.isDir {
        return Failed(IsADirectory);
      }
      ghost var t := Flat()[Components(path) := e.Attributes().(status := Complete, modTime := now)];
      ghost var attrs := Attrs();
      Picture();
      SetDepicts(root, Kids(), Attrs(), paths, Flat(), Components(path), t[Components(path)]);
      SetStatus(e, Complete);
      SetModTime(e, now);
      assert Attrs() == attrs[e := t[Components(path)]];
      Rebuild(t);
      r := Done;
    }

    method ApplyUpdateSize(path: string, newSize: int, now: Time) returns (r: Outcome)
      requires Valid()
      modifies repr
      ensures Valid()
      ensures (Flat(), r) == ResizeIn(old(Flat()), Components(path), newSize, now)
    {
      hide Valid, Depicts, Flat, WellFormed, TreeOf, Kids, Attrs, ViewOf, Entry.Attributes;
      var e := Lookup(path);
      FlatAt(Components(path));
      if e == null {
        return Failed(PathNotFound);
      }
      if e.isDir {
        return Failed(IsADirectory);
      }
      ghost var t := Flat()[Components(path) := e.Attributes().(size := newSize, modTime := now)];
      ghost var attrs := Attrs();
      Picture();
      SetDepicts(root, Kids(), Attrs(), paths, Flat(), Components(path), t[Components(path)]);
      SetSize(e, newSize);
      SetModTime(e, now);
      assert Attrs() == attrs[e := t[Components(path)]];
      Rebuild(t);
      r := Done;
    }

    // ----- delete and rename -----

    method ApplyDelete(path: string, now: Time) returns (r: Outcome)
      requires Valid()
      modifies this`paths, this`repr, repr
      ensures Valid() && repr == old(repr)
      ensures (Flat(), r) == DeleteIn(old(Flat()), Components(path), now)
      ensures paths == if r == Done then Without(old(paths), Components(path)) else old(paths)
    {
      hide Valid, Depicts, Flat, WellFormed, TreeOf, Kids, Attrs, ViewOf, Entry.Attributes;
      var parts := SplitPath(path);
      if |parts| == 0 {
        return Failed(CannotDeleteRoot);
      }
      var dirParts, fileName := parts[..|parts|-1], parts[|parts|-1];
      var found, current := WalkDirs(dirParts);
      if !found {
        return Failed(PathNotFound);
      }
      assert parts == Child(dirParts, fileName);
      StepDown(dirParts, fileName);
      FlatAt(parts);
      if fileName !in current.children {
        return Failed(PathNotFound);
      }
      Picture();
      CutDepicts(root, Kids(), Attrs(), paths, Flat(), parts, now);
      ghost var t := Touch(Without(Flat(), parts), dirParts, now);
      DropChild(current, fileName);
      SetModTime(current, now);
      paths := Without(paths, parts);
      Rebuild(t);
      r := Done;
    }

    /** The walk of the cycle check: does the chain from the root along `dirParts` run into the entry `target`? It
        stops at the first missing component. The pointer test decides a question about paths. */
    method MeetsPointer(dirParts: Path, target: Entry, ghost at: Path) returns (met: bool)
      requires Valid()
      requires at in paths && paths[at] == target && target.isDir
      ensures met <==> Below(at, dirParts)
    {
      hide Valid, Flat, Depicts, WellFormed;
      Rooted();
      var ancestor := root;
      for i := 0 to |dirParts|
        invariant dirParts[..i] in paths && ancestor == paths[dirParts[..i]]
        invariant !Below(at, dirParts) || |at| >= i
      {
        if ancestor == target {
          SamePath(dirParts[..i], at);
          return true;
        }
        StepDown(dirParts[..i], dirParts[i]);
        ghost var next := dirParts[..i+1];
        assert next == Child(dirParts[..i], dirParts[i]);
        if dirParts[i] !in ancestor.children || !ancestor.children[dirParts[i]].isDir {
          if Below(at, dirParts) {
            assert |at| > i && Below(next, at) by { assert at[..i+1] == dirParts[..|at|][..i+1] == next; }
            DirAbove(next, at);
          }
          return false;
        }
        ancestor := ancestor.children[dirParts[i]];
      }
      assert dirParts[..|dirParts|] == dirParts;
      met := ancestor == target;
      SamePath(dirParts, at);
    }

    method ApplyRename(path: string, dstPath: string, now: Time) returns (r: Outcome)
      requires Valid()
      modifies this`paths, this`repr, repr
      ensures Valid() && repr == old(repr)
      ensures (Flat(), r) == RenameIn(old(Flat()), Components(path), Components(dstPath), now)
      ensures paths == if r == Done then Moved(old(paths), Components(path), Components(dstPath)) else old(paths)
    {
      hide Valid, Flat, Depicts, WellFormed;
      var src := SplitPath(path);
      var dst := SplitPath(dstPath);
      if |src| == 0 || |dst| == 0 {
        return Failed(InvalidPath);
      }
      var srcName, dstName := src[|src|-1], dst[|dst|-1];
      var srcDir, dstDir := src[..|src|-1], dst[..|dst|-1];
      assert src == Child(srcDir, srcName) && dst == Child(dstDir, dstName);
      var found, srcParent := WalkDirs(srcDir);
      if !found {
        return Failed(SourceNotFound);
      }
      StepDown(srcDir, srcName);
      FlatAt(src);
      if srcName !in srcParent.children {
        return Failed(SourceNotFound);
      }
      var srcEntry := srcParent.children[srcName];
      if srcEntry.isDir {
        var met := MeetsPointer(dstDir, srcEntry, src);
        if met {
          return Failed(IntoOwnSubtree);
        }
      }
      var dstFound, dstParent := WalkDirs(dstDir);
      if !dstFound {
        return Failed(DestinationParentNotFound);
      }
      StepDown(dstDir, dstName);
      FlatAt(dst);
      if dstName in dstParent.children && dstParent.children[dstName].isDir {
        return Failed(DestinationIsDirectory);
      }
      Splice(src, dst, srcParent, dstParent, srcEntry, now);
      r := Done;
    }

    /** The assignments of a rename that has passed its checks. */
    method Splice(src: Path, dst: Path, srcParent: Entry, dstParent: Entry, srcEntry: Entry, now: Time)
      requires Valid()
      requires RenameIn(Flat(), src, dst, now).1 == Done
      requires src in paths && srcEntry == paths[src] && srcEntry in repr
      requires Parent(src) in paths && srcParent == paths[Parent(src)] && srcParent in repr
      requires Parent(dst) in paths && dstParent == paths[Parent(dst)] && dstParent in repr
      modifies this`paths, srcParent, dstParent, srcEntry
      ensures Valid()
      ensures Flat() == Renamed(old(Flat()), src, dst, now)
      ensures paths == Moved(old(paths), src, dst) && repr == old(repr)
    {
      hide Valid, Depicts, Flat, WellFormed, TreeOf, Kids, Attrs, ViewOf, Entry.Attributes;
      hide Moved, Renamed, RenameIn, Below, Rebase, RelinkedKids, RestampedAttrs;
      Picture();
      SpliceDepicts(root, Kids(), Attrs(), paths, Flat(), src, dst, now);
      FlatAt(Parent(dst));
      ghost var t := Renamed(Flat(), src, dst, now);
      Relink(srcParent, Last(src), dstParent, Last(dst), srcEntry, now);
      paths := Moved(paths, src, dst);
      Rebuild(t);
    }

    method Relink(srcParent: Entry, srcName: Name, dstParent: Entry, dstName: Name, srcEntry: Entry, now: Time)
      requires srcParent in repr && dstParent in repr && srcEntry in repr
      modifies srcParent`children, dstParent`children, srcEntry`name
      modifies srcParent`modTime, dstParent`modTime, srcEntry`modTime
      ensures Kids() == RelinkedKids(old(Kids()), srcParent, srcName, dstParent, dstName, srcEntry)
      ensures Attrs() == RestampedAttrs(old(Attrs()), srcParent, dstParent, srcEntry, dstName, now)
    {
      hide Kids, Attrs;
      DropExisting(dstParent, dstName);
      DropChild(srcParent, srcName);
      SetName(srcEntry, dstName);
      PutChild(dstParent, dstName, srcEntry);
      SetModTime(srcParent, now);
      SetModTime(dstParent, now);
      SetModTime(srcEntry, now);
    }

    method DropExisting(d: Entry, n: Name)
      requires d in repr
      modifies d`children
      ensures Kids() == old(if n in Kids()[d] then Kids()[d := Kids()[d] - {n}] else Kids()) && Attrs() == old(Attrs())
    {
      if n in d.children {
        DropChild(d, n);
      }
    }

    // ----- membership -----

    method ApplyHeartbeat(addr: string, now: Time)
      modifies this`dataNodes, this`lastHeartbeat
      ensures dataNodes == AddMember(old(dataNodes), addr)
      ensures lastHeartbeat == old(lastHeartbeat)[addr := now]
    {
      var found := false;
      for i := 0 to |dataNodes|
        invariant !found && addr !in dataNodes[..i]
      {
        if dataNodes[i] == addr {
          found := true;
          break;
        }
      }
      if !found {
        dataNodes := dataNodes + [addr];
      }
      lastHeartbeat := lastHeartbeat[addr := now];
    }

    method ApplyRemoveDataNode(addr: string)
      modifies this`dataNodes, this`lastHeartbeat
      ensures dataNodes == RemoveMember(old(dataNodes), addr)
      ensures lastHeartbeat == old(lastHeartbeat) - {addr}
    {
      if addr !in dataNodes {
        RemoveAbsent(dataNodes, addr);
      }
      for i := 0 to |dataNodes|
        invariant dataNodes == old(dataNodes)
        invariant addr !in dataNodes[..i]
      {
        if dataNodes[i] == addr {
          RemoveAt(dataNodes, i, addr);
          dataNodes := dataNodes[..i] + dataNodes[i+1..];
          break;
        }
      }
      lastHeartbeat := lastHeartbeat - {addr};
    }

    // ----- the state machine interface -----

    /** One committed command: the new state and the result are those of the specification. */
    method Apply(c: Command, now: Time) returns (r: Outcome)
      requires Valid()
      modifies this, repr
      ensures Valid() && fresh(repr - old(repr))
      ensures View() == Namespace.Apply(old(View()), c, now).state
      ensures r == Namespace.Apply(old(View()), c, now).outcome
    {
      hide Valid, Flat, Depicts, WellFormed;
      match c {
        case Heartbeat(addr) => ApplyHeartbeat(addr, now); r := Done;
        case RemoveDataNode(addr) => ApplyRemoveDataNode(addr); r := Done;
        case Mkdir(path) => r := ApplyMkdir(path, now);
        case CreateFile(path, size, replicas, createMode, fileID) =>
          r := ApplyCreateFile(path, size, replicas, createMode, fileID, now);
        case CompleteFile(path) => r := ApplyCompleteFile(path, now);
        case Delete(path) => r := ApplyDelete(path, now);
        case Rename(path, dstPath) => r := ApplyRename(path, dstPath, now);
        case UpdateSize(path, newSize) => r := ApplyUpdateSize(path, newSize, now);
        case UnknownOp(_) => r := Failed(UnknownOperation);
      }
    }

    // ----- snapshot and restore -----

    /** `entry.toSnapshot`. */
    method ToSnapshot(e: Entry, ghost p: Path) returns (s: EntrySnapshot)
      requires Valid() && p in paths && e == paths[p]
      ensures s == Take(Flat(), p)
      decreases Under(Flat(), p)
    {
      hide *;
      FlatAt(p);
      ChildrenAt(p);
      var children := map[];
      if e.isDir {
        var todo := e.children.Keys;
        while todo != {}
          invariant todo <= e.children.Keys && children.Keys == e.children.Keys - todo
          invariant forall n :: n in children ==> Child(p, n) in Flat() && children[n] == Take(Flat(), Child(p, n))
        {
          var n :| n in todo;
          UnderChild(Flat(), p, n);
          var child := ToSnapshot(e.children[n], Child(p, n));
          children := children[n := child];
          todo := todo - {n};
        }
      }
      TakeIs(Flat(), p, children);
      s := EntrySnapshot(Meta(e.name, e.isDir, e.size, e.mode, e.createdAt, e.modTime, e.status, e.fileID, e.replicas),
        children);
      AttributesOf(e);
    }

    lemma AttributesOf(e: Entry)
      ensures e.Attributes() == Meta(e.name, e.isDir, e.size, e.mode, e.createdAt, e.modTime, e.status, e.fileID,
          e.replicas)
    {
    }

    lemma ChildrenAt(p: Path)
      requires Valid() && p in paths
      ensures p in Flat() && paths[p].children.Keys == ChildNames(Flat(), p)
      ensures forall n :: n in paths[p].children ==>
        Child(p, n) in paths && Child(p, n) in Flat() && paths[p].children[n] == paths[Child(p, n)]
    {
      hide Valid, Flat;
      FlatAt(p);
      forall n
        ensures n in paths[p].children <==> n in ChildNames(Flat(), p)
        ensures n in paths[p].children ==>
          Child(p, n) in paths && Child(p, n) in Flat() && paths[p].children[n] == paths[Child(p, n)]
      {
        StepDown(p, n);
        FlatAt(Child(p, n));
      }
    }

    method Snapshot() returns (m: MetaSnapshot)
      requires Valid()
      ensures [] in Flat() && m == SnapshotOf(View())
    {
      hide Valid, Flat, Depicts, WellFormed;
      Rooted();
      FlatAt([]);
      var r := ToSnapshot(root, []);
      m := MetaSnapshot(Some(r), dataNodes, lastHeartbeat);
    }

    /** Restoring from nothing changes nothing; restoring a snapshot builds a new tree that shares no entry with the
        old. Any snapshot is accepted. What it says is shown, and the server is valid exactly when that is well
        formed. */
    method Restore(data: Option<MetaSnapshot>)
      modifies this
      ensures data == None ==> View() == old(View()) && repr == old(repr) && Valid() == old(Valid())
      ensures data.Some? ==> View() == RestoredState(data.value) && fresh(repr)
      ensures data.Some? ==> TreeOf(root, Kids(), paths) && (Valid() <==> WellFormed(RestoredState(data.value).tree))
    {
      hide Valid, Flat, WellFormed, Shows, FlatOf, InitialTree, KidsOf, AttrsOf;
      if data == None {
        return;
      }
      var m := data.value;
      var e, sub, nodes := RootFrom(m.root);
      root, paths, repr := e, sub, nodes;
      dataNodes, lastHeartbeat := m.dataNodes, m.lastHeartbeat;
      Adopted(RestoredState(m).tree);
    }

    // ----- the walk of the garbage collector -----

    /** `collectFileIDsRecursive`; the map of found identities is passed along. */
    method CollectFileIDs(e: Entry, ghost p: Path, ids: set<string>) returns (found: set<string>)
      requires Valid() && p in paths && e == paths[p]
      ensures found == ids + IDsUnder(Flat(), p)
      decreases Under(Flat(), p)
    {
      hide *;
      FlatAt(p);
      ValidIsWellFormed();
      AttributesOf(e);
      found := ids;
      if !e.isDir {
        FileOrDir(Flat(), p);
        IDsOfFile(Flat(), p);
        if e.fileID != "" {
          found := found + {e.fileID};
        }
        return;
      }
      ChildrenAt(p);
      var todo := e.children.Keys;
      ghost var done := {};
      IDsStart(Flat(), p, done);
      while todo != {}
        invariant todo + done == e.children.Keys && todo !! done
        invariant found == ids + IDsBelow(Flat(), p, done)
      {
        var n :| n in todo;
        UnderChild(Flat(), p, n);
        IDsStep(Flat(), p, done, n);
        found := CollectFileIDs(e.children[n], Child(p, n), found);
        todo, done := todo - {n}, done + {n};
      }
      FileOrDir(Flat(), p);
      IDsEnd(Flat(), p, done);
    }

    /** `collectValidFileIDs`: exactly the non-empty FileIDs of the files that a lookup can reach. */
    method CollectValidFileIDs() returns (ids: set<string>)
      requires Valid()
      ensures ids == LiveIDs(Flat()) - {""}
      ensures ProperNames(Flat()) ==> forall id :: id in ids <==> id != "" && FoundByLookup(Flat(), id)
    {
      Rooted();
      ids := CollectFileIDs(root, [], {});
      assert forall q: Path :: Below([], q);
      if ProperNames(Flat()) {
        LookupFindsAll(Flat());
      }
    }

    // ----- the service: create -----

    method CommitAll(log: seq<Step>)
      requires Valid()
      modifies this, repr
      ensures Valid() && fresh(repr - old(repr))
      ensures View() == Run(old(View()), log)
    {
      hide Valid, View;
      ghost var s := View();
      for i := 0 to |log|
        invariant Valid() && fresh(repr - old(repr)) && View() == Run(s, log[..i])
      {
        RunStep(s, log, i);
        var _ := Apply(log[i].cmd, log[i].now);
      }
      assert log[..|log|] == log;
    }

    /** `CreateFile` on the leader: checks against the current tree, a choice of nodes, and the committed command,
        before which the commands of `between` commit. The FileID comes from the caller instead of a random source. */
    method CreateFile(path: string, size: int, createMode: CreateMode, fileID: string, between: seq<Step>, now: Time)
      returns (reply: CreateReply)
      requires Valid() && Distinct(dataNodes)
      modifies this, repr
      ensures Valid() && fresh(repr - old(repr))
      ensures (View(), reply) == CreateService(old(View()), path, size, createMode, fileID, between, now)
      ensures reply.Created? ==> Coherent(fileID, reply.replicas)
    {
      hide Valid, Flat, Depicts, WellFormed, Selected, Coherent;
      if |dataNodes| == 0 {
        return NoDataNodes;
      }
      SelectionIsCoherent(dataNodes, path, fileID, REPLICA_COUNT);
      var parts := SplitPath(path);
      if |parts| == 0 {
        return Rejected(InvalidPath);
      }
      var found, _ := WalkDirs(parts[..|parts|-1]);
      if !found {
        return Rejected(ParentNotFound);
      }
      var replicas := SelectDataNodes(dataNodes, path, fileID, REPLICA_COUNT);
      CommitAll(between);
      var r := Apply(Command.CreateFile(path, size, replicas, createMode, fileID), now);
      reply := if r == Done then Created(replicas) else Rejected(r.error);
    }

    // ----- the services: rename and delete -----

    method Rename(src: string, dst: string, now: Time) returns (reply: RenameReply)
      requires Valid()
      modifies this, repr
      ensures Valid() && fresh(repr - old(repr))
      ensures (View(), reply) == RenameService(old(View()), src, dst, now)
    {
      hide Valid, View;
      if src == "" || dst == "" {
        return EmptyPath;
      }
      if src == "/" || dst == "/" {
        return RootPath;
      }
      if src == dst {
        return Granted;
      }
      var r := Apply(Command.Rename(src, dst), now);
      reply := if r == Done then Granted else NotRenamed(r.error);
    }

    /** The reply tells what was at the path before the commands of `between` committed. */
    method Delete(path: string, between: seq<Step>, now: Time) returns (reply: DeleteReply)
      requires Valid()
      modifies this, repr
      ensures Valid() && fresh(repr - old(repr))
      ensures (View(), reply) == DeleteService(old(View()), path, between, now)
    {
      hide Valid, Flat;
      FlatAt(Components(path));
      var target := Lookup(path);
      if target == null {
        return NotFound;
      }
      var isDir, replicas := target.isDir, target.replicas;
      CommitAll(between);
      var r := Apply(Command.Delete(path), now);
      reply := if r == Done then Deleted(isDir, replicas) else NotDeleted(r.error);
    }
  }
}

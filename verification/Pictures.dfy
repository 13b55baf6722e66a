/**
A picture of a metadata tree: nodes, their children maps, their attributes, and the flat tree they show.

`Depicts` is the invariant of the pointer tree, on values. For each edit that a command makes there is one lemma:
the edited nodes depict the tree that the specification of the command yields.
*/
module Pictures {
  import opened Paths
  import opened FsTypes
  import opened TreeShape
  import opened Namespace

  ghost function ViewOf<N>(paths: map<Path, N>, attrs: map<N, Meta>): Tree
  {
    map p | p in paths && paths[p] in attrs :: attrs[paths[p]]
  }

  /** The nodes form a tree that shows `t`. */
  ghost predicate Shows<N>(root: N, kids: map<N, map<Name, N>>, attrs: map<N, Meta>, paths: map<Path, N>, t: Tree)
  {
    TreeOf(root, kids, paths) && (forall p :: p in paths ==> paths[p] in attrs) && t == ViewOf(paths, attrs)
  }

  ghost predicate Depicts<N>(root: N, kids: map<N, map<Name, N>>, attrs: map<N, Meta>, paths: map<Path, N>, t: Tree)
  {
    Shows(root, kids, attrs, paths, t) && WellFormed(t)
  }

  lemma SingleShows<N>(e: N, m: Meta)
    ensures Shows(e, map[e := map[]], map[e := m], map[[] := e], map[[] := m])
  {
  }

  /** A second tree hung up under the root of the first. */
  lemma GraftShows<N>(root: N, kids: map<N, map<Name, N>>, attrs: map<N, Meta>, paths: map<Path, N>, t: Tree, k: Name,
                      top: N, kids': map<N, map<Name, N>>, attrs': map<N, Meta>, sub: map<Path, N>, u: Tree)
    requires Shows(root, kids, attrs, paths, t) && Shows(top, kids', attrs', sub, u)
    requires kids.Keys == attrs.Keys && kids'.Keys == attrs'.Keys && kids.Keys !! kids'.Keys
    requires root in kids && k !in kids[root]
    ensures Shows(root, GraftedKids(root, kids, k, top, kids'), attrs + attrs', Grafted(paths, k, sub),
        Grafted(t, k, u))
  {
    assert CanGraft(root, kids, paths, k, top, kids', sub);
    hide *;
    GraftKeepsTree(root, kids, paths, k, top, kids', sub);
    var m, all := Grafted(paths, k, sub), attrs + attrs';
    forall p
      ensures p in m ==> m[p] in all
      ensures p in m <==> p in Grafted(t, k, u)
      ensures p in m ==> all[m[p]] == Grafted(t, k, u)[p]
    {
      GraftedShows(root, kids, attrs, paths, t, k, top, kids', attrs', sub, u, p);
    }
    ShowsIntro(root, GraftedKids(root, kids, k, top, kids'), all, m, Grafted(t, k, u));
  }

  lemma ShowsIntro<N>(root: N, kids: map<N, map<Name, N>>, attrs: map<N, Meta>, paths: map<Path, N>, t: Tree)
    requires TreeOf(root, kids, paths)
    requires forall p :: p in paths ==> paths[p] in attrs
    requires forall p :: p in paths <==> p in t
    requires forall p :: p in paths ==> attrs[paths[p]] == t[p]
    ensures Shows(root, kids, attrs, paths, t)
  {
  }

  lemma GraftedShows<N>(root: N, kids: map<N, map<Name, N>>, attrs: map<N, Meta>, paths: map<Path, N>, t: Tree, k: Name,
                        top: N, kids': map<N, map<Name, N>>, attrs': map<N, Meta>, sub: map<Path, N>, u: Tree, p: Path)
    requires Shows(root, kids, attrs, paths, t) && Shows(top, kids', attrs', sub, u)
    requires kids.Keys == attrs.Keys && kids'.Keys == attrs'.Keys && kids.Keys !! kids'.Keys
    requires root in kids && k !in kids[root]
    ensures var m, all := Grafted(paths, k, sub), attrs + attrs';
      && (p in m <==> p in Grafted(t, k, u))
      && (p in m ==> m[p] in all && all[m[p]] == Grafted(t, k, u)[p])
  {
    GraftedNode(root, kids, paths, k, top, kids', sub, p);
    GraftedAt(t, k, u, p);
    GraftedAt(paths, k, sub, p);
    hide TreeOf, GraftedKids, Grafted;
  }

  /** Files have no children. */
  lemma NoKidsBelowFile<N>(root: N, kids: map<N, map<Name, N>>, attrs: map<N, Meta>, paths: map<Path, N>, t: Tree,
                           p: Path)
    requires Depicts(root, kids, attrs, paths, t) && IsFileAt(t, p)
    ensures p in paths && paths[p] in kids && kids[paths[p]] == map[]
  {
    assert forall n :: n in kids[paths[p]] ==> Child(p, n) in t && t[Parent(Child(p, n))].isDir;
  }

  /** Setting the attributes of one node. */
  lemma SetDepicts<N>(root: N, kids: map<N, map<Name, N>>, attrs: map<N, Meta>, paths: map<Path, N>, t: Tree, p: Path,
                      m: Meta)
    requires Depicts(root, kids, attrs, paths, t) && p in paths
    requires m.isDir == t[p].isDir && m.name == t[p].name
    ensures Depicts(root, kids, attrs[paths[p] := m], paths, t[p := m])
  {
    hide TreeOf, WellFormed;
    KeepsWellFormed(t, p, m);
    SetView(root, kids, attrs, paths, p, m);
  }

  lemma SetView<N>(root: N, kids: map<N, map<Name, N>>, attrs: map<N, Meta>, paths: map<Path, N>, p: Path, m: Meta)
    requires TreeOf(root, kids, paths) && p in paths && forall q :: q in paths ==> paths[q] in attrs
    ensures ViewOf(paths, attrs[paths[p] := m]) == ViewOf(paths, attrs)[p := m]
  {
    OnlyAt(root, kids, paths, p);
    hide TreeOf;
  }

  /** A node of the tree is found at its own path only. */
  lemma OnlyAt<N>(root: N, kids: map<N, map<Name, N>>, paths: map<Path, N>, p: Path)
    requires TreeOf(root, kids, paths) && p in paths
    ensures forall q :: q in paths && paths[q] == paths[p] ==> q == p
  {
  }

  /** Hanging up a new node under a directory, which is touched. */
  lemma PutDepicts<N>(root: N, kids: map<N, map<Name, N>>, attrs: map<N, Meta>, paths: map<Path, N>, t: Tree,
                      dir: Path, n: Name, e: N, m: Meta, now: Time)
    requires Depicts(root, kids, attrs, paths, t)
    requires IsDirAt(t, dir) && e !in kids && m.name == n
    requires Child(dir, n) in t ==> !t[Child(dir, n)].isDir && !m.isDir
    ensures Depicts(root, LeafKids(kids, paths, dir, n, e), PutAttrs(attrs, paths, dir, e, m, now),
        paths[Child(dir, n) := e],
                    Touch(t, dir, now)[Child(dir, n) := m])
  {
    hide WellFormed, TreeOf, IsFileAt;
    PutReady(root, kids, attrs, paths, t, dir, n, e);
    PutLeaf(root, kids, paths, dir, n, e);
    PutWellFormed(t, dir, Child(dir, n), m, now);
    PutView(root, kids, attrs, paths, dir, n, e, m, now);
  }

  lemma PutReady<N>(root: N, kids: map<N, map<Name, N>>, attrs: map<N, Meta>, paths: map<Path, N>, t: Tree, dir: Path,
                    n: Name, e: N)
    requires Depicts(root, kids, attrs, paths, t)
    requires IsDirAt(t, dir) && e !in kids && (Child(dir, n) in t ==> !t[Child(dir, n)].isDir)
    ensures CanPut(root, kids, paths, dir, n, e)
  {
    hide WellFormed;
    if Child(dir, n) in t {
      NoKidsBelowFile(root, kids, attrs, paths, t, Child(dir, n));
    }
  }

  lemma PutView<N>(root: N, kids: map<N, map<Name, N>>, attrs: map<N, Meta>, paths: map<Path, N>, dir: Path, n: Name,
                   e: N, m: Meta, now: Time)
    requires TreeOf(root, kids, paths) && dir in paths && e !in kids
    requires forall q :: q in paths ==> paths[q] in attrs
    ensures var attrs', paths' := PutAttrs(attrs, paths, dir, e, m, now), paths[Child(dir, n) := e];
      && (forall p :: p in paths' ==> paths'[p] in attrs')
      && Touch(ViewOf(paths, attrs), dir, now)[Child(dir, n) := m] == ViewOf(paths', attrs')
  {
    OnlyAt(root, kids, paths, dir);
    assert forall q :: q in paths ==> paths[q] in kids && paths[q] != e;
    hide TreeOf;
  }

  ghost function PutAttrs<N>(attrs: map<N, Meta>, paths: map<Path, N>, dir: Path, e: N, m: Meta,
                             now: Time): map<N, Meta>
  {
    TouchNode(attrs, paths, dir, now)[e := m]
  }

  ghost function TouchNode<N>(attrs: map<N, Meta>, paths: map<Path, N>, dir: Path, now: Time): map<N, Meta>
  {
    if dir in paths && paths[dir] in attrs then attrs[paths[dir] := attrs[paths[dir]].(modTime := now)] else attrs
  }

  /** Taking a subtree out of a directory, which is touched. */
  lemma CutDepicts<N>(root: N, kids: map<N, map<Name, N>>, attrs: map<N, Meta>, paths: map<Path, N>, t: Tree, p: Path,
                      now: Time)
    requires Depicts(root, kids, attrs, paths, t)
    requires p != [] && p in t
    ensures Depicts(root, CutKids(kids, paths, p), TouchNode(attrs, paths, Parent(p), now), Without(paths, p),
                    Touch(Without(t, p), Parent(p), now))
  {
    assert p in paths && t[Parent(p)].isDir;
    hide TreeOf, WellFormed;
    Detach(root, kids, paths, p);
    DeleteWellFormed(t, p, now);
    CutView(root, kids, attrs, paths, p, now);
  }

  lemma CutView<N>(root: N, kids: map<N, map<Name, N>>, attrs: map<N, Meta>, paths: map<Path, N>, p: Path, now: Time)
    requires TreeOf(root, kids, paths) && p != [] && p in paths
    requires forall q :: q in paths ==> paths[q] in attrs
    ensures var attrs', paths' := TouchNode(attrs, paths, Parent(p), now), Without(paths, p);
      && (forall q :: q in paths' ==> paths'[q] in attrs')
      && Touch(Without(ViewOf(paths, attrs), p), Parent(p), now) == ViewOf(paths', attrs')
  {
    assert Parent(p) in paths && !Below(p, Parent(p));
    OnlyAt(root, kids, paths, Parent(p));
    hide TreeOf;
  }

  /** Carrying a subtree to another place. */
  lemma MoveDepicts<N>(root: N, kids: map<N, map<Name, N>>, attrs: map<N, Meta>, paths: map<Path, N>, t: Tree,
                       src: Path, dst: Path, now: Time)
    requires Depicts(root, kids, attrs, paths, t)
    requires RenameIn(t, src, dst, now).1 == Done
    ensures Depicts(root, MovedKids(kids, paths, src, dst), RenamedAttrs(attrs, paths, src, dst, now),
        Moved(paths, src, dst),
                    Renamed(t, src, dst, now))
  {
    hide *;
    MoveReady(root, kids, attrs, paths, t, src, dst, now);
    MoveKeepsTree(root, kids, paths, src, dst);
    RenamedView(root, kids, paths, attrs, src, dst, now);
    RenamedWellFormed(t, src, dst, now);
    DepictsIntro(root, MovedKids(kids, paths, src, dst), RenamedAttrs(attrs, paths, src, dst, now),
      Moved(paths, src, dst),
                 Renamed(t, src, dst, now));
  }

  /** What the checks of a rename say about the nodes. */
  lemma MoveReady<N>(root: N, kids: map<N, map<Name, N>>, attrs: map<N, Meta>, paths: map<Path, N>, t: Tree, src: Path,
                     dst: Path, now: Time)
    requires Depicts(root, kids, attrs, paths, t)
    requires RenameIn(t, src, dst, now).1 == Done
    ensures TreeOf(root, kids, paths) && WellFormed(t) && t == ViewOf(paths, attrs)
    ensures forall p :: p in paths ==> paths[p] in attrs
    ensures src != [] && dst != [] && src in paths && src in t && Parent(src) in paths && Parent(dst) in paths
    ensures !Below(src, Parent(dst))
    ensures dst in paths ==> paths[dst] in kids && kids[paths[dst]] == map[]
  {
    NotAboveDestination(t, src, Parent(dst));
    if dst in t {
      NoKidsBelowFile(root, kids, attrs, paths, t, dst);
    }
  }

  lemma DepictsIntro<N>(root: N, kids: map<N, map<Name, N>>, attrs: map<N, Meta>, paths: map<Path, N>, t: Tree)
    requires TreeOf(root, kids, paths) && WellFormed(t) && t == ViewOf(paths, attrs)
    requires forall p :: p in paths ==> paths[p] in attrs
    ensures Depicts(root, kids, attrs, paths, t)
  {
  }

  ghost function RenamedAttrs<N>(attrs: map<N, Meta>, paths: map<Path, N>, src: Path, dst: Path,
                                 now: Time): map<N, Meta>
    requires src != [] && dst != []
  {
    var named := if src in paths && paths[src] in attrs
                 then attrs[paths[src] := attrs[paths[src]].(name := Last(dst), modTime := now)] else attrs;
    TouchNode(TouchNode(named, paths, Parent(src), now), paths, Parent(dst), now)
  }

  /** Re-keying the flat map and updating the attributes of three nodes is what the specification of rename says. */
  lemma RenamedView<N>(root: N, kids: map<N, map<Name, N>>, paths: map<Path, N>, attrs: map<N, Meta>, src: Path,
                       dst: Path, now: Time)
    requires TreeOf(root, kids, paths)
    requires forall p :: p in paths ==> paths[p] in attrs
    requires src != [] && dst != [] && src in paths && Parent(src) in paths && Parent(dst) in paths
    requires !Below(src, Parent(dst))
    requires dst in paths ==> kids[paths[dst]] == map[]
    ensures forall p :: p in Moved(paths, src, dst) ==>
        Moved(paths, src, dst)[p] in RenamedAttrs(attrs, paths, src, dst, now)
    ensures Renamed(ViewOf(paths, attrs), src, dst, now)
         == ViewOf(Moved(paths, src, dst), RenamedAttrs(attrs, paths, src, dst, now))
  {
    var t, m, a := ViewOf(paths, attrs), Moved(paths, src, dst), RenamedAttrs(attrs, paths, src, dst, now);
    assert src in t;
    hide *;
    forall p
      ensures p in m <==> p in Renamed(t, src, dst, now)
      ensures p in m ==> m[p] in a && a[m[p]] == Renamed(t, src, dst, now)[p]
    {
      RenamedViewNode(root, kids, paths, attrs, src, dst, now, p);
    }
    ViewIs(m, a, Renamed(t, src, dst, now));
  }

  lemma ViewIs<N>(paths: map<Path, N>, attrs: map<N, Meta>, t: Tree)
    requires forall p :: p in paths <==> p in t
    requires forall p :: p in paths ==> paths[p] in attrs && attrs[paths[p]] == t[p]
    ensures t == ViewOf(paths, attrs)
  {
  }

  lemma RenamedViewNode<N>(root: N, kids: map<N, map<Name, N>>, paths: map<Path, N>, attrs: map<N, Meta>, src: Path,
                           dst: Path, now: Time, p: Path)
    requires TreeOf(root, kids, paths)
    requires forall p :: p in paths ==> paths[p] in attrs
    requires src != [] && dst != [] && src in paths && Parent(src) in paths && Parent(dst) in paths
    requires !Below(src, Parent(dst))
    requires dst in paths ==> kids[paths[dst]] == map[]
    requires src in ViewOf(paths, attrs)
    ensures var r, m, a := Renamed(ViewOf(paths, attrs), src, dst, now), Moved(paths, src, dst),
        RenamedAttrs(attrs, paths, src, dst, now);
      && (p in m <==> p in r)
      && (p in m ==> m[p] in a && a[m[p]] == r[p])
  {
    hide TreeOf, RenamedMeta, RenamedAttrs, Renamed, Moved;
    SourceOutsideDestination(root, kids, paths, src, dst);
    MovedKeys(paths, src, dst, p);
    RenamedAt(ViewOf(paths, attrs), src, dst, now, p);
    if p in Moved(paths, src, dst) {
      RenamedViewAt(root, kids, paths, attrs, src, dst, now, p);
    }
  }

  lemma RenamedViewAt<N>(root: N, kids: map<N, map<Name, N>>, paths: map<Path, N>, attrs: map<N, Meta>, src: Path,
                         dst: Path, now: Time, p: Path)
    requires TreeOf(root, kids, paths)
    requires forall p :: p in paths ==> paths[p] in attrs
    requires src != [] && dst != [] && src in paths && Parent(src) in paths && Parent(dst) in paths
    requires !Below(src, Parent(dst)) && (Below(dst, src) ==> dst == src)
    requires dst in paths ==> kids[paths[dst]] == map[]
    requires if Below(dst, p) then Rebase(p, dst, src) in paths else p in paths && !Below(src, p)
    ensures var o := Origin(p, src, dst);
      o in paths && paths[o] in RenamedAttrs(attrs, paths, src, dst, now)
      && RenamedAttrs(attrs, paths, src, dst, now)[paths[o]] == RenamedMeta(attrs[paths[o]], p, src, dst, now)
  {
    var o := Origin(p, src, dst);
    assert !Below(dst, Parent(dst)) && !Below(src, Parent(src));
    BelowParent(dst, src);
    assert !Below(dst, Parent(src));
    if Below(dst, p) {
      RebaseBack(p, dst, src);
      assert o == src <==> p == dst by {
        if o == src { assert Rebase(src, src, dst) == dst; }
        if p == dst { assert Rebase(dst, dst, src) == src; }
      }
    }
  }

  // ----- the assignments of a rename, one by one -----

  ghost function RelinkedKids<N>(kids: map<N, map<Name, N>>, s: N, sn: Name, d: N, dn: Name, e: N): map<N, map<Name, N>>
    requires s in kids && d in kids
  {
    var k1 := if dn in kids[d] then kids[d := kids[d] - {dn}] else kids;
    var k2 := k1[s := k1[s] - {sn}];
    k2[d := k2[d][dn := e]]
  }

  ghost function RestampedAttrs<N>(attrs: map<N, Meta>, s: N, d: N, e: N, n: Name, now: Time): map<N, Meta>
    requires s in attrs && d in attrs && e in attrs
  {
    var a1 := attrs[e := attrs[e].(name := n)];
    var a2 := a1[s := a1[s].(modTime := now)];
    var a3 := a2[d := a2[d].(modTime := now)];
    a3[e := a3[e].(modTime := now)]
  }

  lemma SpliceDepicts<N>(root: N, kids: map<N, map<Name, N>>, attrs: map<N, Meta>, paths: map<Path, N>, t: Tree,
                         src: Path, dst: Path, now: Time)
    requires Depicts(root, kids, attrs, paths, t)
    requires RenameIn(t, src, dst, now).1 == Done
    ensures src != [] && dst != [] && src in paths && src in t && Parent(src) in paths && Parent(dst) in paths
    ensures var e, s, d := paths[src], paths[Parent(src)], paths[Parent(dst)];
      && s in kids && d in kids && s in attrs && d in attrs && e in attrs
      && Depicts(root, RelinkedKids(kids, s, Last(src), d, Last(dst), e),
          RestampedAttrs(attrs, s, d, e, Last(dst), now),
                 Moved(paths, src, dst), Renamed(t, src, dst, now))
  {
    hide *;
    MoveReady(root, kids, attrs, paths, t, src, dst, now);
    DistinctNodes(root, kids, paths, src, dst);
    MoveDepicts(root, kids, attrs, paths, t, src, dst, now);
    RelinkedIsMoved(kids, paths, src, dst);
    RestampedIsRenamed(attrs, paths, src, dst, now);
  }

  lemma DistinctNodes<N>(root: N, kids: map<N, map<Name, N>>, paths: map<Path, N>, src: Path, dst: Path)
    requires TreeOf(root, kids, paths)
    requires src != [] && dst != [] && src in paths && Parent(src) in paths && Parent(dst) in paths
        && !Below(src, Parent(dst))
    ensures paths[src] != paths[Parent(src)] && paths[src] != paths[Parent(dst)]
    ensures paths[Parent(src)] in kids && paths[Parent(dst)] in kids
  {
    assert Below(src, src);
  }

  lemma RestampedIsRenamed<N>(attrs: map<N, Meta>, paths: map<Path, N>, src: Path, dst: Path, now: Time)
    requires src != [] && dst != [] && src in paths && Parent(src) in paths && Parent(dst) in paths
    requires forall p :: p in paths ==> paths[p] in attrs
    requires paths[src] != paths[Parent(src)] && paths[src] != paths[Parent(dst)]
    ensures RestampedAttrs(attrs, paths[Parent(src)], paths[Parent(dst)], paths[src], Last(dst), now)
         == RenamedAttrs(attrs, paths, src, dst, now)
  {
  }

  lemma RelinkedIsMoved<N>(kids: map<N, map<Name, N>>, paths: map<Path, N>, src: Path, dst: Path)
    requires src != [] && dst != [] && src in paths && Parent(src) in paths && Parent(dst) in paths
    requires paths[Parent(src)] in kids && paths[Parent(dst)] in kids
    ensures RelinkedKids(kids, paths[Parent(src)], Last(src), paths[Parent(dst)], Last(dst), paths[src])
        == MovedKids(kids, paths, src, dst)
  {
    var e, s, d := paths[src], paths[Parent(src)], paths[Parent(dst)];
    var r, m := RelinkedKids(kids, s, Last(src), d, Last(dst), e), MovedKids(kids, paths, src, dst);
    assert r[d] == m[d];
  }
}

/**
When does a pointer structure form a tree whose nodes are named by paths?

`TreeOf(root, kids, paths)` relates the pointers (`kids[e]` is the children map of node `e`) to a flat map
from paths to nodes. The lemmas below are about arbitrary nodes: they do not mention the heap.
*/
module TreeShape {
  import opened Paths
  import opened FsTypes

  ghost predicate TreeOf<N>(root: N, kids: map<N, map<Name, N>>, paths: map<Path, N>)
  {
    && [] in paths && paths[[]] == root
    && (forall p :: p in paths ==> paths[p] in kids)
    && (forall p, q :: p in paths && q in paths && paths[p] == paths[q] ==> p == q)
    && (forall p {:trigger Parent(p)} :: p in paths && p != [] ==>
          Parent(p) in paths && Last(p) in kids[paths[Parent(p)]] && kids[paths[Parent(p)]][Last(p)] == paths[p])
    && (forall p, n :: p in paths && n in kids[paths[p]] ==> Child(p, n) in paths)
  }

  /** Following the pointers from `root` along `p`. */
  ghost function Walk<N>(root: N, kids: map<N, map<Name, N>>, p: Path): Option<N>
  {
    if p == [] then Some(root)
    else
      var w := Walk(root, kids, Parent(p));
      if w.Some? && w.value in kids && Last(p) in kids[w.value] then Some(kids[w.value][Last(p)]) else None
  }

  /** The flat map answers exactly what the pointers answer, for every path. With injectivity this says that
      each reachable node is reached along one path only: no sharing and no cycles. */
  lemma {:induction false} WalkFindsPath<N>(root: N, kids: map<N, map<Name, N>>, paths: map<Path, N>, p: Path)
    requires TreeOf(root, kids, paths)
    ensures Walk(root, kids, p) == if p in paths then Some(paths[p]) else None
    decreases |p|
  {
    if p != [] {
      WalkFindsPath(root, kids, paths, Parent(p));
      if Parent(p) in paths && Last(p) in kids[paths[Parent(p)]] {
        assert Child(Parent(p), Last(p)) == p;
      }
    }
  }

  lemma OnePathEach<N>(root: N, kids: map<N, map<Name, N>>, paths: map<Path, N>, p: Path, q: Path)
    requires TreeOf(root, kids, paths)
    requires Walk(root, kids, p).Some? && Walk(root, kids, p) == Walk(root, kids, q)
    ensures p == q
  {
    WalkFindsPath(root, kids, paths, p);
    WalkFindsPath(root, kids, paths, q);
  }

  /** Every prefix of a path in the tree is in the tree. */
  lemma {:induction false} PrefixInTree<N>(root: N, kids: map<N, map<Name, N>>, paths: map<Path, N>, a: Path, p: Path)
    requires TreeOf(root, kids, paths) && p in paths && Below(a, p)
    ensures a in paths
    ensures a != p ==> p[|a|] in kids[paths[a]] && a + [p[|a|]] in paths
    decreases |p|
  {
    if a != p {
      BelowParent(a, p);
      PrefixInTree(root, kids, paths, a, Parent(p));
      if a == Parent(p) {
        assert a + [Last(p)] == p;
      } else {
        assert Parent(p)[|a|] == p[|a|];
      }
    }
  }

  // ----- edits of the flat map -----

  /** `m` without the subtree at `top`. */
  function Without<V>(m: map<Path, V>, top: Path): map<Path, V>
  {
    map p | p in m && !Below(top, p) :: m[p]
  }

  /** Where the entry found at `q` after carrying `src` to `dst` comes from. */
  function Origin(q: Path, src: Path, dst: Path): Path
  {
    if Below(dst, q) then Rebase(q, dst, src) else q
  }

  /** `m` with the subtree at `src` carried to `dst`, replacing whatever was at `dst`. */
  function Moved<V>(m: map<Path, V>, src: Path, dst: Path): map<Path, V>
  {
    map q | q in m.Keys + (set p | p in m && Below(src, p) :: Rebase(p, src, dst))
      && Origin(q, src, dst) in m && (Below(dst, q) || !Below(src, q)) :: m[Origin(q, src, dst)]
  }

  lemma MovedKeys<V>(m: map<Path, V>, src: Path, dst: Path, q: Path)
    ensures q in Moved(m, src, dst) <==>
      if Below(dst, q) then Rebase(q, dst, src) in m else q in m && !Below(src, q)
    ensures q in Moved(m, src, dst) ==> Moved(m, src, dst)[q] == m[Origin(q, src, dst)]
  {
    if Below(dst, q) && Rebase(q, dst, src) in m {
      RebaseBack(q, dst, src);
      var p := Rebase(q, dst, src);
      assert p in m && Below(src, p) && Rebase(p, src, dst) == q;
    }
  }

  /** Distinct places after a move come from distinct places before it. */
  lemma OriginInjective<V>(m: map<Path, V>, src: Path, dst: Path, p: Path, q: Path)
    requires p in Moved(m, src, dst) && q in Moved(m, src, dst)
    requires Origin(p, src, dst) == Origin(q, src, dst)
    ensures p == q
  {
    if Below(dst, p) { RebaseBack(p, dst, src); }
    if Below(dst, q) { RebaseBack(q, dst, src); }
  }

  // ----- edits of the pointers keep the tree -----

  ghost function LeafKids<N>(kids: map<N, map<Name, N>>, paths: map<Path, N>, dir: Path, n: Name,
                             e: N): map<N, map<Name, N>>
  {
    (if dir in paths && paths[dir] in kids then kids[paths[dir] := kids[paths[dir]][n := e]] else kids)[e := map[]]
  }

  /** A new node `e` fits under `dir` as `n` when no occupant of that place has children. */
  ghost predicate CanPut<N>(root: N, kids: map<N, map<Name, N>>, paths: map<Path, N>, dir: Path, n: Name, e: N) {
    && TreeOf(root, kids, paths) && dir in paths && e !in kids
    && (Child(dir, n) in paths ==> kids[paths[Child(dir, n)]] == map[])
  }

  /** What is at `p` after `e` has been hung up. */
  lemma PutNode<N>(root: N, kids: map<N, map<Name, N>>, paths: map<Path, N>, dir: Path, n: Name, e: N, p: Path)
    requires CanPut(root, kids, paths, dir, n, e)
    ensures var ks, m := LeafKids(kids, paths, dir, n, e), paths[Child(dir, n) := e];
      && (p == Child(dir, n) ==> m[p] == e && e in ks && ks[e] == map[])
      && (p in paths && p != Child(dir, n) ==>
            && m[p] == paths[p] != e && m[p] in ks
            && ks[m[p]] == if p == dir then kids[paths[dir]][n := e] else kids[paths[p]])
  {
  }

  /** Hanging up a new childless node `e` under `dir`. */
  lemma PutLeaf<N>(root: N, kids: map<N, map<Name, N>>, paths: map<Path, N>, dir: Path, n: Name, e: N)
    requires CanPut(root, kids, paths, dir, n, e)
    ensures TreeOf(root, LeafKids(kids, paths, dir, n, e), paths[Child(dir, n) := e])
  {
    var ks, m := LeafKids(kids, paths, dir, n, e), paths[Child(dir, n) := e];
    forall p, q | p in m && q in m
      ensures m[p] in ks && (m[p] == m[q] ==> p == q)
    {
      PutNode(root, kids, paths, dir, n, e, p);
      PutNode(root, kids, paths, dir, n, e, q);
    }
    forall p | p in m && p != []
      ensures Parent(p) in m && Last(p) in ks[m[Parent(p)]] && ks[m[Parent(p)]][Last(p)] == m[p]
    {
      PutLeafUp(root, kids, paths, dir, n, e, p);
    }
    forall p, k | p in m && k in ks[m[p]]
      ensures Child(p, k) in m
    {
      PutNode(root, kids, paths, dir, n, e, p);
      assert p != Child(dir, n);
      if !(p == dir && k == n) {
        assert k in kids[paths[p]];
      }
    }
    hide LeafKids, CanPut;
  }

  lemma PutLeafUp<N>(root: N, kids: map<N, map<Name, N>>, paths: map<Path, N>, dir: Path, n: Name, e: N, p: Path)
    requires CanPut(root, kids, paths, dir, n, e)
    requires p in paths[Child(dir, n) := e] && p != []
    ensures var ks, m := LeafKids(kids, paths, dir, n, e), paths[Child(dir, n) := e];
      Parent(p) in m && m[Parent(p)] in ks && Last(p) in ks[m[Parent(p)]] && ks[m[Parent(p)]][Last(p)] == m[p]
  {
    assert p == Child(Parent(p), Last(p));
    PutNode(root, kids, paths, dir, n, e, p);
    PutNode(root, kids, paths, dir, n, e, Parent(p));
    hide LeafKids;
    if p != Child(dir, n) {
      assert Parent(p) in paths && Last(p) in kids[paths[Parent(p)]];
    }
  }

  ghost function CutKids<N>(kids: map<N, map<Name, N>>, paths: map<Path, N>, p: Path): map<N, map<Name, N>>
    requires p != []
  {
    if Parent(p) in paths && paths[Parent(p)] in kids
    then kids[paths[Parent(p)] := kids[paths[Parent(p)]] - {Last(p)}]
    else kids
  }

  lemma Detach<N>(root: N, kids: map<N, map<Name, N>>, paths: map<Path, N>, top: Path)
    requires TreeOf(root, kids, paths)
    requires top != [] && top in paths
    ensures TreeOf(root, CutKids(kids, paths, top), Without(paths, top))
  {
    var kids', paths' := CutKids(kids, paths, top), Without(paths, top);
    assert !Below(top, Parent(top));
    forall p | p in paths' && p != []
      ensures Parent(p) in paths' && Last(p) in kids'[paths'[Parent(p)]]
          && kids'[paths'[Parent(p)]][Last(p)] == paths'[p]
    {
      BelowParent(top, p);
      assert p == Child(Parent(p), Last(p)) && top == Child(Parent(top), Last(top));
    }
    forall p, k | p in paths' && k in kids'[paths'[p]]
      ensures Child(p, k) in paths'
    {
      BelowParent(top, Child(p, k));
    }
  }

  /** A rename: the node at `src` leaves its directory and is hung up at `dst`, whose old occupant, if any, was a
      node without children. The condition `!Below(src, Parent(dst))` is what the cycle check establishes. */
  lemma MoveKeepsTree<N>(root: N, kids: map<N, map<Name, N>>, paths: map<Path, N>, src: Path, dst: Path)
    requires TreeOf(root, kids, paths)
    requires src != [] && dst != [] && src in paths && Parent(dst) in paths
    requires !Below(src, Parent(dst))
    requires dst in paths ==> kids[paths[dst]] == map[]
    ensures TreeOf(root, MovedKids(kids, paths, src, dst), Moved(paths, src, dst))
  {
    var kids' := MovedKids(kids, paths, src, dst);
    var m := Moved(paths, src, dst);
    SourceOutsideDestination(root, kids, paths, src, dst);
    MovedKeys(paths, src, dst, []);
    forall p | p in m
      ensures m[p] in kids'
    {
      MovedKeys(paths, src, dst, p);
    }
    forall p, q | p in m && q in m && m[p] == m[q]
      ensures p == q
    {
      MovedKeys(paths, src, dst, p);
      MovedKeys(paths, src, dst, q);
      OriginInjective(paths, src, dst, p, q);
    }
    forall p | p in m && p != []
      ensures Parent(p) in m && Last(p) in kids'[m[Parent(p)]] && kids'[m[Parent(p)]][Last(p)] == m[p]
    {
      MoveUp(root, kids, paths, src, dst, p);
    }
    forall p, n | p in m && n in kids'[m[p]]
      ensures Child(p, n) in m
    {
      MoveDown(root, kids, paths, src, dst, p, n);
    }
  }

  ghost function MovedKids<N>(kids: map<N, map<Name, N>>, paths: map<Path, N>, src: Path,
                              dst: Path): map<N, map<Name, N>>
    requires src != [] && dst != []
  {
    var cut := CutKids(kids, paths, src);
    if src in paths && Parent(dst) in paths && paths[Parent(dst)] in cut
    then cut[paths[Parent(dst)] := cut[paths[Parent(dst)]][Last(dst) := paths[src]]]
    else cut
  }

  /** Under the conditions of a move, `src` lies below `dst` only when they are equal. */
  lemma SourceOutsideDestination<N>(root: N, kids: map<N, map<Name, N>>, paths: map<Path, N>, src: Path, dst: Path)
    requires TreeOf(root, kids, paths)
    requires src in paths
    requires dst in paths ==> kids[paths[dst]] == map[]
    ensures Below(dst, src) ==> dst == src
  {
    if Below(dst, src) && dst != src {
      PrefixInTree(root, kids, paths, dst, src);
    }
  }

  /** The conditions of a move. */
  ghost predicate CanMove<N>(root: N, kids: map<N, map<Name, N>>, paths: map<Path, N>, src: Path, dst: Path) {
    && TreeOf(root, kids, paths)
    && src != [] && dst != [] && src in paths && Parent(dst) in paths && !Below(src, Parent(dst))
    && (dst in paths ==> kids[paths[dst]] == map[])
  }

  lemma MoveUp<N>(root: N, kids: map<N, map<Name, N>>, paths: map<Path, N>, src: Path, dst: Path, p: Path)
    requires CanMove(root, kids, paths, src, dst) && p in Moved(paths, src, dst) && p != []
    ensures var kids', m := MovedKids(kids, paths, src, dst), Moved(paths, src, dst);
      Parent(p) in m && m[Parent(p)] in kids' && Last(p) in kids'[m[Parent(p)]] && kids'[m[Parent(p)]][Last(p)] == m[p]
  {
    hide *;
    if p == dst {
      MoveUpTop(root, kids, paths, src, dst);
    } else if Below(dst, p) {
      MoveUpInside(root, kids, paths, src, dst, p);
    } else {
      MoveUpOutside(root, kids, paths, src, dst, p);
    }
  }

  lemma MoveUpTop<N>(root: N, kids: map<N, map<Name, N>>, paths: map<Path, N>, src: Path, dst: Path)
    requires CanMove(root, kids, paths, src, dst)
    ensures var kids', m := MovedKids(kids, paths, src, dst), Moved(paths, src, dst);
      && dst != [] && dst in m
      && Parent(dst) in m && m[Parent(dst)] in kids' && Last(dst) in kids'[m[Parent(dst)]]
          && kids'[m[Parent(dst)]][Last(dst)] == m[dst]
  {
    MovedKeys(paths, src, dst, dst);
    MovedKeys(paths, src, dst, Parent(dst));
    assert !Below(dst, Parent(dst)) && Below(dst, dst);
    assert Rebase(dst, dst, src) == src;
    hide Moved, Below, Rebase;
  }

  lemma MoveUpOutside<N>(root: N, kids: map<N, map<Name, N>>, paths: map<Path, N>, src: Path, dst: Path, p: Path)
    requires CanMove(root, kids, paths, src, dst) && p in Moved(paths, src, dst) && p != [] && !Below(dst, p)
    ensures var kids', m := MovedKids(kids, paths, src, dst), Moved(paths, src, dst);
      Parent(p) in m && m[Parent(p)] in kids' && Last(p) in kids'[m[Parent(p)]] && kids'[m[Parent(p)]][Last(p)] == m[p]
  {
    MovedKeys(paths, src, dst, p);
    MovedKeys(paths, src, dst, Parent(p));
    BelowParent(dst, p);
    BelowParent(src, p);
    assert Below(src, src) && Below(dst, dst);
    hide Moved, Below, Rebase;
    assert p == Child(Parent(p), Last(p)) && src == Child(Parent(src), Last(src))
        && dst == Child(Parent(dst), Last(dst));
  }

  lemma MoveUpInside<N>(root: N, kids: map<N, map<Name, N>>, paths: map<Path, N>, src: Path, dst: Path, p: Path)
    requires CanMove(root, kids, paths, src, dst) && p in Moved(paths, src, dst) && Below(dst, p) && p != dst
    ensures var kids', m := MovedKids(kids, paths, src, dst), Moved(paths, src, dst);
      p != [] && Parent(p) in m && m[Parent(p)] in kids' && Last(p) in kids'[m[Parent(p)]]
        && kids'[m[Parent(p)]][Last(p)] == m[p]
  {
    BelowParent(dst, p);
    RebaseChild(p, dst, src);
    MovedKeys(paths, src, dst, p);
    MovedKeys(paths, src, dst, Parent(p));
    hide Moved;
    var o := Rebase(p, dst, src);
    assert Below(src, Parent(o)) && !Below(src, Parent(src));
    assert paths[Parent(o)] != paths[Parent(src)] && paths[Parent(o)] != paths[Parent(dst)];
  }

  lemma MoveDown<N>(root: N, kids: map<N, map<Name, N>>, paths: map<Path, N>, src: Path, dst: Path, p: Path, n: Name)
    requires CanMove(root, kids, paths, src, dst) && p in Moved(paths, src, dst)
    requires Moved(paths, src, dst)[p] in MovedKids(kids, paths, src, dst)
    requires n in MovedKids(kids, paths, src, dst)[Moved(paths, src, dst)[p]]
    ensures Child(p, n) in Moved(paths, src, dst)
  {
    SourceOutsideDestination(root, kids, paths, src, dst);
    var q := Child(p, n);
    MovedKeys(paths, src, dst, p);
    MovedKeys(paths, src, dst, q);
    BelowParent(dst, q);
    BelowParent(src, q);
    var o := Origin(p, src, dst);
    if Below(dst, p) {
      RebaseDown(p, n, dst, src);
      assert !Below(src, Parent(src));
      assert paths[o] != paths[Parent(src)] && paths[o] != paths[Parent(dst)];
      assert Child(o, n) in paths;
    } else if q == dst {
      assert Rebase(dst, dst, src) == src;
    } else {
      assert src == Child(Parent(src), Last(src)) && dst == Child(Parent(dst), Last(dst));
      assert n in kids[paths[p]];
      assert Child(p, n) in paths;
    }
  }

  // ----- hanging a whole tree under the root of another -----

  /** `m` with `sub` below the name `k`. */
  function Grafted<V>(m: map<Path, V>, k: Name, sub: map<Path, V>): map<Path, V>
  {
    m + map p | p in (set q | q in sub :: [k] + q) && p[1..] in sub :: sub[p[1..]]
  }

  lemma GraftedAt<V>(m: map<Path, V>, k: Name, sub: map<Path, V>, p: Path)
    ensures p in Grafted(m, k, sub) <==> p in m || (p != [] && p[0] == k && p[1..] in sub)
    ensures p != [] && p[0] == k && p[1..] in sub ==> Grafted(m, k, sub)[p] == sub[p[1..]]
    ensures p in m && !(p != [] && p[0] == k && p[1..] in sub) ==> Grafted(m, k, sub)[p] == m[p]
  {
    if p != [] && p[0] == k && p[1..] in sub {
      assert p == [k] + p[1..];
    }
  }

  ghost function GraftedKids<N>(root: N, kids: map<N, map<Name, N>>, k: Name, top: N, kids': map<N, map<Name,
                                N>>): map<N, map<Name, N>>
  {
    if root in kids then (kids + kids')[root := kids[root][k := top]] else kids + kids'
  }

  lemma NothingBelow<N>(root: N, kids: map<N, map<Name, N>>, paths: map<Path, N>, k: Name, p: Path)
    requires TreeOf(root, kids, paths) && k !in kids[root] && p in paths
    ensures p != [] ==> p[0] != k
  {
    if p != [] && p[0] == k {
      PrefixInTree(root, kids, paths, [], p);
    }
  }

  /** Two trees on disjoint nodes, and a name that the root of the first does not use. */
  ghost predicate CanGraft<N>(root: N, kids: map<N, map<Name, N>>, paths: map<Path, N>, k: Name, top: N, kids': map<N,
                              map<Name, N>>, sub: map<Path, N>)
  {
    TreeOf(root, kids, paths) && TreeOf(top, kids', sub) && kids.Keys !! kids'.Keys && k !in kids[root]
  }

  lemma GraftedNode<N>(root: N, kids: map<N, map<Name, N>>, paths: map<Path, N>, k: Name, top: N, kids': map<N,
                       map<Name, N>>, sub: map<Path, N>, p: Path)
    requires CanGraft(root, kids, paths, k, top, kids', sub)
    ensures var ks, m := GraftedKids(root, kids, k, top, kids'), Grafted(paths, k, sub);
      && (p in m <==> p in paths || (p != [] && p[0] == k && p[1..] in sub))
      && (p in paths ==>
            && (p == [] || p[0] != k) && m[p] == paths[p] && m[p] in kids && m[p] !in kids' && m[p] in ks
            && ks[m[p]] == if p == [] then kids[root][k := top] else kids[m[p]])
      && (p in m && p !in paths ==>
            && p[0] == k && p[1..] in sub && m[p] == sub[p[1..]] && m[p] in kids' && m[p] !in kids && m[p] in ks
            && ks[m[p]] == kids'[m[p]])
  {
    GraftedAt(paths, k, sub, p);
    if p in paths {
      NothingBelow(root, kids, paths, k, p);
      assert paths[p] == paths[[]] ==> p == [];
    }
  }

  lemma GraftKeepsTree<N>(root: N, kids: map<N, map<Name, N>>, paths: map<Path, N>, k: Name, top: N, kids': map<N,
                          map<Name, N>>, sub: map<Path, N>)
    requires CanGraft(root, kids, paths, k, top, kids', sub)
    ensures TreeOf(root, GraftedKids(root, kids, k, top, kids'), Grafted(paths, k, sub))
  {
    hide GraftedKids, Grafted, CanGraft, Below;
    var ks, m := GraftedKids(root, kids, k, top, kids'), Grafted(paths, k, sub);
    GraftedRoot(root, kids, paths, k, top, kids', sub);
    forall p | p in m
      ensures m[p] in ks
    {
      GraftedNode(root, kids, paths, k, top, kids', sub, p);
    }
    forall p, q | p in m && q in m && m[p] == m[q]
      ensures p == q
    {
      GraftedInjective(root, kids, paths, k, top, kids', sub, p, q);
    }
    forall p | p in m && p != []
      ensures Parent(p) in m && Last(p) in ks[m[Parent(p)]] && ks[m[Parent(p)]][Last(p)] == m[p]
    {
      GraftUp(root, kids, paths, k, top, kids', sub, p);
    }
    forall p, n | p in m && n in ks[m[p]]
      ensures Child(p, n) in m
    {
      GraftDown(root, kids, paths, k, top, kids', sub, p, n);
    }
  }

  lemma GraftedRoot<N>(root: N, kids: map<N, map<Name, N>>, paths: map<Path, N>, k: Name, top: N, kids': map<N,
                       map<Name, N>>, sub: map<Path, N>)
    requires CanGraft(root, kids, paths, k, top, kids', sub)
    ensures [] in Grafted(paths, k, sub) && Grafted(paths, k, sub)[[]] == root
  {
    GraftedNode(root, kids, paths, k, top, kids', sub, []);
  }

  lemma GraftedInjective<N>(root: N, kids: map<N, map<Name, N>>, paths: map<Path, N>, k: Name, top: N, kids': map<N,
                            map<Name, N>>, sub: map<Path, N>, p: Path, q: Path)
    requires CanGraft(root, kids, paths, k, top, kids', sub)
    requires p in Grafted(paths, k, sub) && q in Grafted(paths, k, sub)
        && Grafted(paths, k, sub)[p] == Grafted(paths, k, sub)[q]
    ensures p == q
  {
    GraftedNode(root, kids, paths, k, top, kids', sub, p);
    GraftedNode(root, kids, paths, k, top, kids', sub, q);
    hide GraftedKids, Grafted;
    if p !in paths && q !in paths {
      assert p == [k] + p[1..] && q == [k] + q[1..];
    }
  }

  lemma GraftUp<N>(root: N, kids: map<N, map<Name, N>>, paths: map<Path, N>, k: Name, top: N, kids': map<N, map<Name,
                   N>>, sub: map<Path, N>, p: Path)
    requires CanGraft(root, kids, paths, k, top, kids', sub)
    requires p in Grafted(paths, k, sub) && p != []
    ensures var ks, m := GraftedKids(root, kids, k, top, kids'), Grafted(paths, k, sub);
      Parent(p) in m && m[Parent(p)] in ks && Last(p) in ks[m[Parent(p)]] && ks[m[Parent(p)]][Last(p)] == m[p]
  {
    GraftedNode(root, kids, paths, k, top, kids', sub, p);
    GraftedNode(root, kids, paths, k, top, kids', sub, Parent(p));
    hide GraftedKids, Grafted;
    if p !in paths {
      if |p| == 1 {
        assert Parent(p) == [] && p[1..] == [];
      } else {
        assert Parent(p)[1..] == Parent(p[1..]);
      }
    }
  }

  lemma GraftDown<N>(root: N, kids: map<N, map<Name, N>>, paths: map<Path, N>, k: Name, top: N, kids': map<N, map<Name,
                     N>>, sub: map<Path, N>, p: Path, n: Name)
    requires CanGraft(root, kids, paths, k, top, kids', sub)
    requires var ks, m := GraftedKids(root, kids, k, top, kids'), Grafted(paths, k, sub);
      p in m && m[p] in ks && n in ks[m[p]]
    ensures Child(p, n) in Grafted(paths, k, sub)
  {
    GraftedNode(root, kids, paths, k, top, kids', sub, p);
    GraftedNode(root, kids, paths, k, top, kids', sub, Child(p, n));
    hide GraftedKids, Grafted;
    if p !in paths {
      assert Child(p, n)[1..] == Child(p[1..], n);
    } else if p == [] && n == k {
      assert Child(p, n)[1..] == [];
    } else {
      assert n in kids[paths[p]] ==> Child(p, n) in paths;
    }
  }
}

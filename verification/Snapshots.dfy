/**
Snapshots of the metadata state and what they restore to, on values (internal/metadata/mds.go:543-614,
internal/metadata/state_machine.go:43-74).

The structures are the decoded ones: the bytes are not part of this model. An empty children map that was left out of
the bytes decodes to an absent one, which restores like an empty one.
*/
module Snapshots {
  import opened Paths
  import opened FsTypes
  import opened TreeShape
  import opened Namespace

  datatype EntrySnapshot = EntrySnapshot(meta: Meta, children: map<Name, EntrySnapshot>)

  datatype MetaSnapshot = MetaSnapshot(
    root: Option<EntrySnapshot>,
    dataNodes: seq<string>,
    lastHeartbeat: map<string, Time>)

  // ----- taking -----

  function Under(t: Tree, p: Path): set<Path> {
    set q | q in t && Below(p, q)
  }

  function ChildNames(t: Tree, p: Path): (ns: set<Name>)
    ensures forall n :: n in ns <==> Child(p, n) in t
  {
    var ns := set q | q in t && q != [] && Parent(q) == p :: Last(q);
    assert forall n :: Child(p, n) in t ==> Parent(Child(p, n)) == p && Last(Child(p, n)) in ns;
    ns
  }

  lemma UnderChild(t: Tree, p: Path, n: Name)
    requires p in t && Child(p, n) in t
    ensures Under(t, Child(p, n)) < Under(t, p)
  {
    forall q | q in Under(t, Child(p, n))
      ensures q in Under(t, p)
    {
      assert Below(p, Child(p, n));
      BelowTransitive(p, Child(p, n), q);
    }
    assert p in Under(t, p) && p !in Under(t, Child(p, n));
  }

  /** The snapshot of the subtree at `p`. */
  function Take(t: Tree, p: Path): EntrySnapshot
    requires p in t
    decreases Under(t, p)
  {
    EntrySnapshot(t[p],
      if t[p].isDir then map n | n in ChildNames(t, p) :: (UnderChild(t, p, n); Take(t, Child(p, n))) else map[])
  }

  lemma TakeIs(t: Tree, p: Path, children: map<Name, EntrySnapshot>)
    requires p in t
    requires children.Keys == if t[p].isDir then ChildNames(t, p) else {}
    requires forall n :: n in children ==> Child(p, n) in t && children[n] == Take(t, Child(p, n))
    ensures Take(t, p) == EntrySnapshot(t[p], children)
  {
  }

  function SnapshotOf(s: State): MetaSnapshot
    requires [] in s.tree
  {
    MetaSnapshot(Some(Take(s.tree, [])), s.dataNodes, s.lastHeartbeat)
  }

  // ----- restoring -----

  /** The attributes that the restored entry has at `p`, if there is one. Children of a file are dropped. */
  function At(s: EntrySnapshot, p: Path): Option<Meta>
    decreases |p|
  {
    if p == [] then Some(s.meta)
    else if s.meta.isDir && p[0] in s.children then At(s.children[p[0]], p[1..])
    else None
  }

  function PathsIn(s: EntrySnapshot): (ps: set<Path>)
    ensures [] in ps
  {
    if s.meta.isDir
    then {[]} + set n, q | n in s.children && q in PathsIn(s.children[n]) :: [n] + q
    else {[]}
  }

  lemma {:induction false} PathsInAreAt(s: EntrySnapshot, p: Path)
    ensures p in PathsIn(s) <==> At(s, p).Some?
    decreases |p|
  {
    if p != [] {
      assert p == [p[0]] + p[1..];
      if s.meta.isDir && p[0] in s.children {
        PathsInAreAt(s.children[p[0]], p[1..]);
      }
      if p in PathsIn(s) {
        var n, q :| n in s.children && q in PathsIn(s.children[n]) && p == [n] + q;
        assert q == p[1..];
      }
    }
  }

  /** The flat tree that a snapshot restores to. */
  function FlatOf(s: EntrySnapshot): Tree {
    map p | p in PathsIn(s) && At(s, p).Some? :: At(s, p).value
  }

  function RestoredState(m: MetaSnapshot): State {
    State(if m.root.Some? then FlatOf(m.root.value) else InitialTree(0), m.dataNodes, m.lastHeartbeat)
  }

  /** Every entry of a snapshot is restored at the names that lead to it, children of files excepted; and nothing
      else. */
  lemma RestoredPlaces(s: EntrySnapshot, p: Path)
    ensures p in FlatOf(s) <==> (p == [] || (s.meta.isDir && p[0] in s.children && p[1..] in FlatOf(s.children[p[0]])))
    ensures p in FlatOf(s) ==> FlatOf(s)[p] == if p == [] then s.meta else FlatOf(s.children[p[0]])[p[1..]]
  {
    PathsInAreAt(s, p);
    if p != [] && p[0] in s.children {
      PathsInAreAt(s.children[p[0]], p[1..]);
    }
  }

  /** A snapshot without a root restores to an empty root directory with zero times. */
  lemma RestoredWithoutRoot(dataNodes: seq<string>, lastHeartbeat: map<string, Time>)
    ensures RestoredState(MetaSnapshot(None, dataNodes, lastHeartbeat))
         == State(map[[] := Meta("/", true, 0, 493, 0, 0, NoStatus, "", [])], dataNodes, lastHeartbeat)
  {
  }

  /** The part of the flat tree that is built when the children with names in `done` are. */
  function Partial(s: EntrySnapshot, done: set<Name>): Tree {
    map p | p in FlatOf(s) && (p == [] || p[0] in done) :: FlatOf(s)[p]
  }

  lemma PartialEnds(s: EntrySnapshot, done: set<Name>)
    ensures done == {} ==> Partial(s, done) == OnlyRoot(s.meta)
    ensures done == (if s.meta.isDir then s.children.Keys else {}) ==> Partial(s, done) == FlatOf(s)
  {
  }

  lemma PartialStep(s: EntrySnapshot, done: set<Name>, k: Name)
    requires s.meta.isDir && k in s.children && k !in done
    ensures Partial(s, done + {k}) == Grafted(Partial(s, done), k, FlatOf(s.children[k]))
  {
    var m, g := Partial(s, done + {k}), Grafted(Partial(s, done), k, FlatOf(s.children[k]));
    forall p
      ensures p in m <==> p in g
      ensures p in m ==> m[p] == g[p]
    {
      GraftedAt(Partial(s, done), k, FlatOf(s.children[k]), p);
      PathsInAreAt(s, p);
      if p != [] && p[0] == k {
        PathsInAreAt(s.children[k], p[1..]);
      }
    }
  }

  // ----- the round trip -----

  lemma {:induction false} TakenAt(t: Tree, p: Path, x: Path)
    requires WellFormed(t) && p in t
    ensures At(Take(t, p), x) == if p + x in t then Some(t[p + x]) else None
    decreases |x|
  {
    if x == [] {
      assert p + x == p;
    } else {
      var c := Child(p, x[0]);
      assert c + x[1..] == p + x && Below(c, p + x);
      if c in t {
        assert t[Parent(c)].isDir;
        TakenAt(t, c, x[1..]);
      } else if p + x in t {
        if c != p + x { PrefixIsDir(t, c, p + x); }
      }
    }
  }

  /** Restoring a snapshot of a well-formed state yields that state. */
  lemma RoundTrip(s: State)
    requires WellFormed(s.tree)
    ensures RestoredState(SnapshotOf(s)) == s
  {
    var e := Take(s.tree, []);
    forall p
      ensures p in FlatOf(e) <==> p in s.tree
      ensures p in s.tree ==> FlatOf(e)[p] == s.tree[p]
    {
      assert [] + p == p;
      TakenAt(s.tree, [], p);
      PathsInAreAt(e, p);
    }
  }
}

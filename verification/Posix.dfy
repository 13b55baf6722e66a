/**
Where delete and rename differ from what the documents and the POSIX interface ask for
(internal/metadata/apply.go:133-241, docs/filesystem-semantics.md:302, and `rename()` in IEEE Std 1003.1-2017), each
with the exact condition.
*/
module Posix {
  import opened Paths
  import opened FsTypes
  import opened Namespace
  import opened Identity
  import opened Services

  ghost predicate HasChildren(t: Tree, p: Path) {
    exists n :: Child(p, n) in t
  }

  // ----- delete -----

  /** What the documents ask of a delete: it refuses what `rmdir` refuses. */
  ghost predicate UnlinkAllows(t: Tree, p: Path) {
    p != [] && p in t && !HasChildren(t, p)
  }

  /** The outcome of a delete is the documented one exactly when the path is the root or missing, or has no children. */
  lemma DeleteOutcome(t: Tree, p: Path, now: Time)
    requires WellFormed(t)
    ensures (DeleteIn(t, p, now).1 == Done <==> UnlinkAllows(t, p)) <==> (p == [] || p !in t || !HasChildren(t, p))
  {
  }

  /** A successful delete takes away the one path exactly when there was nothing below it. */
  lemma DeleteTakesOne(t: Tree, p: Path, now: Time)
    requires WellFormed(t) && DeleteIn(t, p, now).1 == Done
    ensures (forall q :: q in t && q != p ==> q in DeleteIn(t, p, now).0) <==> !HasChildren(t, p)
  {
    var u := DeleteIn(t, p, now).0;
    if HasChildren(t, p) {
      var n :| Child(p, n) in t;
      assert Below(p, Child(p, n)) && Child(p, n) !in u;
    } else {
      forall q | q in t && q != p
        ensures q in u
      {
        if Below(p, q) { BranchInTree(t, p, q); }
      }
    }
  }

  /** A directory with a file in it goes with the file. */
  lemma DeleteTakesChildren(now: Time) returns (t: Tree, p: Path)
    ensures WellFormed(t) && DeleteIn(t, p, now).1 == Done && !UnlinkAllows(t, p)
    ensures exists q :: q != p && IsFileAt(t, q) && q !in DeleteIn(t, p, now).0
  {
    p := ["d"];
    var q := Child(p, "f");
    t := Inside(p, q, now);
    InsideIs(p, q, now);
    hide WellFormed, Inside, Below, DeleteIn;
    assert Below(p, q) by { assert q[..1] == p; }
    GoesToo(t, p, q, now);
    assert q == Child(p, "f") && IsFileAt(t, q);
  }

  function Inside(p: Path, q: Path, now: Time): Tree
    requires p != [] && q != []
  {
    map[[] := NewDir("/", now), p := NewDir(Last(p), now), q := NewFile(Last(q), now)]
  }

  lemma InsideIs(p: Path, q: Path, now: Time)
    requires |p| == 1 && q != [] && Parent(q) == p
    ensures WellFormed(Inside(p, q, now)) && IsDirAt(Inside(p, q, now), []) && IsDirAt(Inside(p, q, now), p)
        && IsFileAt(Inside(p, q, now), q)
  {
    assert Parent(p) == [] && |q| == 2;
  }

  lemma GoesToo(t: Tree, p: Path, q: Path, now: Time)
    requires p != [] && IsDirAt(t, Parent(p)) && p in t && Below(p, q) && q != p
    ensures DeleteIn(t, p, now).1 == Done && q !in DeleteIn(t, p, now).0
  {
    BelowParent(p, q);
    assert !Below(p, Parent(p));
  }

  function NewFile(n: Name, now: Time): Meta {
    Meta(n, false, 0, FILE_MODE, now, now, Pending, "A", [])
  }

  // ----- rename -----

  /** What POSIX asks of a rename: both parents are there, no directory goes below itself, an entry at the destination
      is replaced only by one of its kind, a directory only when it is empty; and a rename to itself succeeds. */
  ghost predicate RenameAllows(t: Tree, src: Path, dst: Path) {
    && src != [] && dst != [] && src in t && IsDirAt(t, Parent(dst))
    && (t[src].isDir ==> !Below(src, Parent(dst)))
    && (dst in t && dst != src ==> t[dst].isDir == t[src].isDir && !HasChildren(t, dst))
  }

  /** The three ways in which the command differs: a directory replaces a file, a directory does not replace an empty
      directory, and a directory is not renamed to itself. */
  ghost predicate RenameDiffers(t: Tree, src: Path, dst: Path) {
    && src != [] && dst != [] && src in t && t[src].isDir && dst in t
    && !Below(src, Parent(dst))
    && (!t[dst].isDir || dst == src || !HasChildren(t, dst))
  }

  /** On every tree and every pair of paths, the command succeeds as POSIX asks exactly when none of the three
      differences applies. */
  lemma RenameOutcome(t: Tree, src: Path, dst: Path, now: Time)
    requires WellFormed(t)
    ensures (RenameIn(t, src, dst, now).1 == Done <==> RenameAllows(t, src, dst)) <==> !RenameDiffers(t, src, dst)
  {
    if dst in t && !t[dst].isDir {
      FileHasNoChildren(t, dst);
    }
    if src in t && src != [] {
      assert IsDirAt(t, Parent(src));
    }
  }

  /** The service's answer, for every pair of path strings. Equal strings are granted without a look at the tree: there
      the answer is right exactly when they name the root, which is refused, or something that exists. */
  lemma RenameServiceOutcome(s: State, src: string, dst: string, now: Time)
    requires WellFormed(s.tree)
    ensures (RenameService(s, src, dst, now).1 == Granted <==> RenameAllows(s.tree, Components(src), Components(dst)))
       <==> if src == dst then src in {"", "/"} || (Components(src) != [] && Components(src) in s.tree)
            else !RenameDiffers(s.tree, Components(src), Components(dst))
  {
    RenameOutcome(s.tree, Components(src), Components(dst), now);
    SamePathAllowed(s.tree, Components(src));
    RootIsNotRenamed(s.tree, Components(src), Components(dst));
    RenameIsApplied(s, src, dst, now);
    hide RenameIn, Components, WellFormed, RenameAllows, RenameDiffers, Apply;
    if src in {"", "/"} || dst in {"", "/"} {
      OnlyRootIsEmpty();
    } else if src == dst {
      assert RenameService(s, src, dst, now).1 == Granted;
    } else {
      assert RenameService(s, src, dst, now).1 == Granted
          <==> RenameIn(s.tree, Components(src), Components(dst), now).1 == Done;
    }
  }

  lemma RenameIsApplied(s: State, src: string, dst: string, now: Time)
    ensures Apply(s, Rename(src, dst), now).outcome == RenameIn(s.tree, Components(src), Components(dst), now).1
  {
  }

  lemma SamePathAllowed(t: Tree, p: Path)
    requires WellFormed(t)
    ensures RenameAllows(t, p, p) <==> p != [] && p in t
  {
    if p != [] && p in t {
      assert IsDirAt(t, Parent(p)) && !Below(p, Parent(p));
    }
  }

  lemma RootIsNotRenamed(t: Tree, src: Path, dst: Path)
    ensures src == [] || dst == [] ==> !RenameAllows(t, src, dst) && !RenameDiffers(t, src, dst)
  {
  }

  lemma OnlyRootIsEmpty()
    ensures Components("") == [] && Components("/") == []
  {
    assert "/"[1..] == "";
  }

  /** A rename of nothing to itself is granted. */
  lemma NothingIsRenamed(now: Time)
    ensures var s := InitialState(now);
      RenameService(s, "/x", "/x", now).1 == Granted && !RenameAllows(s.tree, Components("/x"), Components("/x"))
  {
    ComponentsRoundTrip(["x"]);
    assert Join(["x"]) == "/x";
  }

  /** A directory is not renamed to itself when the strings differ. */
  lemma DirectoryToItselfRefused(now: Time) returns (s: State)
    ensures WellFormed(s.tree) && RenameAllows(s.tree, Components("/d"), Components("/d/"))
    ensures RenameService(s, "/d", "/d/", now).1 == NotRenamed(DestinationIsDirectory)
  {
    var d: Path := ["d"];
    s := State(map[[] := NewDir("/", now), d := NewDir("d", now)], [], map[]);
    ComponentsRoundTrip(d);
    assert Join(d) == "/d" && "/d/" == "/d" + "/" + "";
    ComponentsOfJoined("/d", "");
    OnlyRootIsEmpty();
    hide Components;
    assert Components("/d/") == d;
    OwnPlace(s.tree, d, now);
    assert Apply(s, Rename("/d", "/d/"), now).outcome == RenameIn(s.tree, d, d, now).1;
    hide RenameIn, RenameAllows, Apply;
  }

  lemma OwnPlace(t: Tree, d: Path, now: Time)
    requires d == ["d"] && t == map[[] := NewDir("/", now), d := NewDir("d", now)]
    ensures WellFormed(t) && RenameAllows(t, d, d) && RenameIn(t, d, d, now).1 == Failed(DestinationIsDirectory)
  {
    assert Parent(d) == [] && Last(d) == "d";
  }

  lemma FileHasNoChildren(t: Tree, p: Path)
    requires WellFormed(t) && IsFileAt(t, p)
    ensures !HasChildren(t, p)
  {
    assert forall n :: Parent(Child(p, n)) == p;
  }

  /** A successful rename replaces only like by like, unless a directory came to where a file was. */
  lemma RenameJoinsKinds(t: Tree, src: Path, dst: Path, now: Time)
    requires WellFormed(t) && RenameIn(t, src, dst, now).1 == Done
    ensures (dst in t ==> t[src].isDir == t[dst].isDir) <==> !(t[src].isDir && dst in t)
  {
  }

  /** A directory replaces a file, whose FileID leaves the tree. */
  lemma DirectoryReplacesFile(now: Time) returns (t: Tree, src: Path, dst: Path)
    ensures WellFormed(t) && RenameIn(t, src, dst, now).1 == Done && !RenameAllows(t, src, dst)
    ensures IsDirAt(t, src) && IsFileAt(t, dst) && IsDirAt(RenameIn(t, src, dst, now).0, dst)
  {
    src, dst := ["d"], ["f"];
    t := map[[] := NewDir("/", now), src := NewDir("d", now), dst := NewFile("f", now)];
    assert Parent(src) == [] == Parent(dst) && Last(src) == "d" && Last(dst) == "f";
    assert RenameIn(t, src, dst, now) == (Renamed(t, src, dst, now), Done);
    ArrivesAs(t, src, dst, now);
    hide Renamed;
  }

  lemma ArrivesAs(t: Tree, src: Path, dst: Path, now: Time)
    requires src != [] && dst != [] && src in t
    ensures var r := Renamed(t, src, dst, now); dst in r && r[dst].isDir == t[src].isDir
  {
    RenamedAt(t, src, dst, now, dst);
    hide Renamed;
    assert Below(dst, dst) && Rebase(dst, dst, src) == src;
  }

  /** A directory does not replace an empty directory. */
  lemma EmptyDirectoryStays(now: Time) returns (t: Tree, src: Path, dst: Path)
    ensures WellFormed(t) && RenameIn(t, src, dst, now).1 == Failed(DestinationIsDirectory) && RenameAllows(t, src, dst)
  {
    src, dst := ["d"], ["e"];
    t := map[[] := NewDir("/", now), src := NewDir("d", now), dst := NewDir("e", now)];
    assert Parent(src) == [] == Parent(dst) && Last(src) == "d" && Last(dst) == "e";
    assert !Below(src, Parent(dst)) && forall n :: |Child(dst, n)| == 2;
  }
}

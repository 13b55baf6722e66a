/**
Path strings and their components (`splitPath`, internal/metadata/mds.go:462-475).

A path string is only ever used through its components, so the tree is keyed by component sequences.
`Components` is the reference meaning: the maximal runs of characters other than '/'.
*/
module Paths {
  type Name = string
  type Path = seq<Name>

  // ----- component sequences -----

  function Parent(p: Path): (d: Path)
    requires p != []
    ensures d + [Last(p)] == p && |d| < |p|
  {
    p[..|p|-1]
  }

  function Last(p: Path): Name
    requires p != []
  {
    p[|p|-1]
  }

  function Child(p: Path, n: Name): (c: Path)
    ensures c != [] && Parent(c) == p && Last(c) == n && |c| == |p| + 1
  {
    p + [n]
  }

  /** `p` is `top` or lies below it. */
  predicate Below(top: Path, p: Path)
  {
    |top| <= |p| && p[..|top|] == top
  }

  /** The path that `p` has when the subtree at `from` is carried to `to`. */
  function Rebase(p: Path, from: Path, to: Path): (r: Path)
    requires Below(from, p)
    ensures Below(to, r) && |r| == |p| - |from| + |to|
  {
    to + p[|from|..]
  }

  lemma RebaseBack(p: Path, from: Path, to: Path)
    requires Below(from, p)
    ensures Rebase(Rebase(p, from, to), to, from) == p
  {
    assert Rebase(p, from, to)[|to|..] == p[|from|..];
  }

  lemma RebaseChild(p: Path, from: Path, to: Path)
    requires Below(from, p) && p != from
    ensures p != [] && Below(from, Parent(p))
    ensures Rebase(p, from, to) != []
    ensures Parent(Rebase(p, from, to)) == Rebase(Parent(p), from, to)
    ensures Last(Rebase(p, from, to)) == Last(p)
  {
    assert Parent(p)[..|from|] == p[..|from|];
  }

  lemma RebaseDown(p: Path, n: Name, from: Path, to: Path)
    requires Below(from, p)
    ensures Below(from, Child(p, n))
    ensures Rebase(Child(p, n), from, to) == Child(Rebase(p, from, to), n)
  {
    assert Child(p, n)[..|from|] == p[..|from|];
    assert Child(p, n)[|from|..] == p[|from|..] + [n];
  }

  lemma BelowTransitive(a: Path, b: Path, c: Path)
    requires Below(a, b) && Below(b, c)
    ensures Below(a, c)
  {
    assert c[..|a|] == c[..|b|][..|a|];
  }

  lemma BelowParent(a: Path, p: Path)
    requires p != []
    ensures Below(a, p) <==> a == p || Below(a, Parent(p))
  {
    if Below(a, p) && a != p {
      assert Parent(p)[..|a|] == p[..|a|];
    }
    if Below(a, Parent(p)) {
      assert Parent(p)[..|a|] == p[..|a|];
    }
  }

  lemma BelowLinear(a: Path, b: Path, p: Path)
    requires Below(a, p) && Below(b, p)
    ensures Below(a, b) || Below(b, a)
  {
    if |a| <= |b| {
      assert b[..|a|] == p[..|b|][..|a|] == p[..|a|];
    } else {
      assert a[..|b|] == p[..|a|][..|b|] == p[..|b|];
    }
  }

  // ----- path strings -----

  const SLASH := '/'

  /** Length of the leading run of characters other than '/'. */
  function NameRun(s: string): (k: nat)
    ensures k <= |s|
    ensures forall i :: 0 <= i < k ==> s[i] != SLASH
    ensures k < |s| ==> s[k] == SLASH
  {
    if s == "" || s[0] == SLASH then 0 else 1 + NameRun(s[1..])
  }

  function Components(s: string): Path
    decreases |s|
  {
    if s == "" then []
    else if s[0] == SLASH then Components(s[1..])
    else [s[..NameRun(s)]] + Components(s[NameRun(s)..])
  }

  predicate IsComponent(n: Name) {
    n != "" && SLASH !in n
  }

  function Join(p: Path): string {
    if p == [] then "" else "/" + p[0] + Join(p[1..])
  }

  lemma {:induction false} NameRunOfPrefix(n: Name, rest: string)
    requires SLASH !in n && (rest == "" || rest[0] == SLASH)
    ensures NameRun(n + rest) == |n|
  {
    if n == "" {
      assert n + rest == rest;
    } else {
      assert (n + rest)[1..] == n[1..] + rest;
      NameRunOfPrefix(n[1..], rest);
    }
  }

  lemma {:induction false} ComponentsAreNames(s: string)
    ensures forall n :: n in Components(s) ==> IsComponent(n)
    decreases |s|
  {
    if s == "" {
    } else if s[0] == SLASH {
      ComponentsAreNames(s[1..]);
    } else {
      ComponentsAreNames(s[NameRun(s)..]);
    }
  }

  /** A slash between two path strings joins their component sequences: hence leading, trailing and
      doubled slashes never matter. */
  lemma {:induction false} ComponentsOfJoined(a: string, b: string)
    ensures Components(a + "/" + b) == Components(a) + Components(b)
    decreases |a|
  {
    var s := a + "/" + b;
    if a == "" {
      assert s[1..] == b;
    } else if a[0] == SLASH {
      assert s[1..] == a[1..] + "/" + b;
      ComponentsOfJoined(a[1..], b);
    } else {
      var k := NameRun(a);
      var n, rest := a[..k], a[k..] + "/" + b;
      assert s == n + rest;
      NameRunOfPrefix(n, rest);
      assert s[k..] == rest && s[..k] == n;
      ComponentsOfJoined(a[k..], b);
    }
  }

  /** Every sequence of proper names is the component sequence of some path string. */
  lemma {:induction false} ComponentsRoundTrip(p: Path)
    requires forall n :: n in p ==> IsComponent(n)
    ensures Components(Join(p)) == p
  {
    if p != [] {
      var n, rest := p[0], Join(p[1..]);
      assert n in p && IsComponent(n);
      assert Join(p)[1..] == n + rest;
      NameRunOfPrefix(n, rest);
      assert (n + rest)[..|n|] == n && (n + rest)[|n|..] == rest;
      ComponentsRoundTrip(p[1..]);
    }
  }

  lemma ComponentsOfName(n: Name)
    requires IsComponent(n)
    ensures Components(n) == [n]
  {
    NameRunOfPrefix(n, "");
    assert n + "" == n && n[..|n|] == n && n[|n|..] == "";
  }

  // ----- the code's own splitting -----

  /** Go's strings.Split with separator "/": the pieces between slashes, empty ones included. */
  function Pieces(s: string): (ps: seq<string>)
    ensures |ps| >= 1
    decreases |s|
  {
    var k := NameRun(s);
    if k == |s| then [s] else [s[..k]] + Pieces(s[k+1..])
  }

  function NonEmpty(ps: seq<string>): Path {
    if ps == [] then []
    else NonEmpty(ps[..|ps|-1]) + if ps[|ps|-1] == "" then [] else [ps[|ps|-1]]
  }

  lemma {:induction false} NonEmptyCons(n: string, ps: seq<string>)
    ensures NonEmpty([n] + ps) == (if n == "" then [] else [n]) + NonEmpty(ps)
  {
    if ps == [] {
      assert [n] + ps == [n];
    } else {
      assert ([n] + ps)[..|ps|] == [n] + ps[..|ps|-1];
      NonEmptyCons(n, ps[..|ps|-1]);
    }
  }

  lemma {:induction false} PiecesAreComponents(s: string)
    ensures NonEmpty(Pieces(s)) == Components(s)
    decreases |s|
  {
    var k := NameRun(s);
    if k == |s| {
      if s != "" {
        assert s[..k] == s && s[k..] == "";
      }
    } else {
      NonEmptyCons(s[..k], Pieces(s[k+1..]));
      PiecesAreComponents(s[k+1..]);
      assert s[k..][1..] == s[k+1..];
      if k == 0 {
        assert s[..k] == "";
      }
    }
  }

  /** strings.TrimPrefix(s, "/") and strings.TrimSuffix(s, "/"): at most one slash each. */
  function TrimPrefix(s: string): string {
    if s != "" && s[0] == SLASH then s[1..] else s
  }

  function TrimSuffix(s: string): string {
    if s != "" && s[|s|-1] == SLASH then s[..|s|-1] else s
  }

  lemma TrimsKeepComponents(s: string)
    ensures Components(TrimSuffix(TrimPrefix(s))) == Components(s)
  {
    var t := TrimPrefix(s);
    if t != "" && t[|t|-1] == SLASH {
      assert t == t[..|t|-1] + "/" + "";
      ComponentsOfJoined(t[..|t|-1], "");
    }
  }

  method SplitPath(path: string) returns (parts: Path)
    ensures parts == Components(path)
  {
    var trimmed := TrimSuffix(TrimPrefix(path));
    TrimsKeepComponents(path);
    if trimmed == "" {
      return [];
    }
    PiecesAreComponents(trimmed);
    var pieces := Pieces(trimmed);
    parts := [];
    for i := 0 to |pieces|
      invariant parts == NonEmpty(pieces[..i])
    {
      assert pieces[..i+1][..i] == pieces[..i];
      if pieces[i] != "" {
        parts := parts + [pieces[i]];
      }
    }
    assert pieces[..|pieces|] == pieces;
  }
}

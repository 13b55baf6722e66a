/**
Choosing the data nodes for a file's replicas (`selectDataNodes`, internal/metadata/mds.go:501-539).

The hash is a signed 64-bit integer that wraps, and Go's `%` truncates toward zero; both are written out.
*/
module Placement {
  import opened Paths
  import opened FsTypes
  import opened Namespace
  import opened History
  import opened Identity

  const TWO_63: int := 0x8000_0000_0000_0000
  const TWO_64: int := 0x1_0000_0000_0000_0000

  /** A 64-bit two's complement result. */
  function Wrap(x: int): (w: int)
    ensures -TWO_63 <= w < TWO_63
  {
    (x + TWO_63) % TWO_64 - TWO_63
  }

  /** Go's remainder for a positive divisor: it has the sign of the dividend. */
  function Remainder(x: int, n: int): int
    requires n > 0
  {
    if x >= 0 then x % n else -((-x) % n)
  }

  function PathHash(path: string): int {
    if path == "" then 0 else Wrap(Wrap(PathHash(path[..|path|-1]) * 31) + path[|path|-1] as int)
  }

  /** The polynomial of a path's characters in 31, without wrapping. */
  function Polynomial(path: string): int {
    if path == "" then 0 else path[0] as int * Power31(|path| - 1) + Polynomial(path[1..])
  }

  function Power31(n: nat): int {
    if n == 0 then 1 else 31 * Power31(n - 1)
  }

  /** The hash is the polynomial, wrapped to a signed 64-bit number. */
  lemma HashIsPolynomial(path: string)
    ensures exists k: int :: PathHash(path) == Polynomial(path) + k * 0x1_0000_0000_0000_0000
    ensures -0x8000_0000_0000_0000 <= PathHash(path) < 0x8000_0000_0000_0000
  {
    var k := WrappedTimes(path);
    assert PathHash(path) == Polynomial(path) + k * 0x1_0000_0000_0000_0000;
  }

  /** How often the hash has wrapped. */
  lemma {:induction false} WrappedTimes(path: string) returns (k: int)
    ensures PathHash(path) == Polynomial(path) + k * TWO_64
  {
    if path == "" {
      k := 0;
    } else {
      var n := |path| - 1;
      var j := WrappedTimes(path[..n]);
      var a := PathHash(path[..n]) * 31;
      var i := WrapsBy(a);
      var l := WrapsBy(Wrap(a) + path[n] as int);
      PolynomialGrows(path);
      k := 31 * j + i + l;
      assert Wrap(a) == a + i * TWO_64;
    }
  }

  lemma WrapsBy(x: int) returns (k: int)
    ensures Wrap(x) == x + k * TWO_64
  {
    k := -((x + TWO_63) / TWO_64);
  }

  lemma {:induction false} PolynomialGrows(path: string)
    requires path != ""
    ensures Polynomial(path) == 31 * Polynomial(path[..|path|-1]) + path[|path|-1] as int
  {
    if |path| == 1 {
      assert path[1..] == "" && path[..0] == "";
      assert Power31(0) == 1;
    } else {
      var init := path[..|path|-1];
      PolynomialGrows(path[1..]);
      assert path[1..][..|path|-2] == init[1..] && path[1..][|path|-2] == path[|path|-1];
      assert Power31(|path| - 1) == 31 * Power31(|path| - 2);
    }
  }

  /** Go's remainder is the number of the dividend's sign, smaller than the divisor, that differs from it by a
      multiple. */
  lemma RemainderTruncates(x: int, n: int)
    requires n > 0
    ensures var r := Remainder(x, n);
      && -n < r < n && (x >= 0 ==> r >= 0) && (x <= 0 ==> r <= 0) && exists q: int :: x == q * n + r
  {
    var q := if x >= 0 then x / n else -((-x) / n);
    assert x == q * n + Remainder(x, n);
  }

  /** The `i`-th index of a ring of `size` places, counted from `start`. */
  function RingAt(start: int, i: int, size: int): int
    requires size > 0
  {
    (start + i) % size
  }

  /** The window of `n` nodes that starts at `start` and wraps around. */
  function Window(nodes: seq<string>, start: int, n: nat, remotePath: string): (w: seq<Replica>)
    requires 0 <= start < |nodes|
    ensures |w| == n && forall i :: 0 <= i < n ==> w[i] == Replica(nodes[RingAt(start, i, |nodes|)], remotePath)
  {
    seq(n, i requires 0 <= i < n => Replica(nodes[RingAt(start, i, |nodes|)], remotePath))
  }

  function StartIndex(nodes: seq<string>, path: string): (i: int)
    requires nodes != []
    ensures 0 <= i < |nodes|
  {
    var r := Remainder(PathHash(path), |nodes|);
    if r < 0 then -r else r
  }

  function ReplicaTotal(nodes: seq<string>, replicaCount: int): nat {
    var n := if replicaCount > |nodes| then |nodes| else replicaCount;
    if n < 1 then 1 else n
  }

  /** What a selection from distinct nodes is: a contiguous window of the ring of nodes. */
  function Selected(nodes: seq<string>, path: string, fileID: string, replicaCount: int): seq<Replica>
    requires nodes != []
  {
    Window(nodes, StartIndex(nodes, path), ReplicaTotal(nodes, replicaCount), RemotePathOf(fileID))
  }

  /** The window begins at the hash's absolute value on the ring, goes on node by node, over the end to the beginning,
      and has the wished length, but no more than there are nodes and at least one. */
  lemma SelectionIs(nodes: seq<string>, path: string, fileID: string, replicaCount: int)
    requires nodes != []
    ensures var w, n, h := Selected(nodes, path, fileID, replicaCount), |nodes|, PathHash(path);
      var start := (if h < 0 then -h else h) % n;
      && |w| == (if replicaCount > n then n else if replicaCount < 1 then 1 else replicaCount)
      && forall i :: 0 <= i < |w| ==>
           w[i] == Replica(nodes[if start + i < n then start + i else start + i - n], "/data/" + fileID)
  {
    var w, n, start := Selected(nodes, path, fileID, replicaCount), |nodes|, StartIndex(nodes, path);
    forall i | 0 <= i < |w|
      ensures w[i] == Replica(nodes[if start + i < n then start + i else start + i - n], "/data/" + fileID)
    {
      RingAtIs(start, i, n);
      hide RingAt;
    }
    StartIs(nodes, path);
    hide PathHash, Selected, StartIndex;
  }

  lemma StartIs(nodes: seq<string>, path: string)
    requires nodes != []
    ensures StartIndex(nodes, path) == (if PathHash(path) < 0 then -PathHash(path) else PathHash(path)) % |nodes|
  {
    hide PathHash;
  }

  lemma RingAtIs(start: int, i: int, size: int)
    requires 0 <= start < size && 0 <= i < size
    ensures RingAt(start, i, size) == if start + i < size then start + i else start + i - size
  {
    if start + i >= size {
      assert start + i == size * 1 + (start + i - size);
    }
  }

  /** Within one turn of the ring no node comes twice. */
  lemma WindowDistinct(nodes: seq<string>, start: int, n: nat, remotePath: string)
    requires Distinct(nodes) && 0 <= start < |nodes| && n <= |nodes|
    ensures var w := Window(nodes, start, n, remotePath);
      forall i, j :: 0 <= i < j < n ==> w[i].addr != w[j].addr
  {
    var w := Window(nodes, start, n, remotePath);
    forall i, j | 0 <= i < j < n
      ensures w[i].addr != w[j].addr
    {
      RingAtIs(start, i, |nodes|);
      RingAtIs(start, j, |nodes|);
      hide RingAt;
    }
  }

  /** Chosen from the registered nodes of any reachable state, the replicas are what `Identity.Minted` asks of a create
      command, for every path and every replica count from one to three. */
  lemma SelectionIsCoherent(nodes: seq<string>, path: string, fileID: string, replicaCount: int)
    requires Distinct(nodes) && nodes != [] && 1 <= replicaCount <= 3
    ensures Coherent(fileID, Selected(nodes, path, fileID, replicaCount))
    ensures |Selected(nodes, path, fileID, replicaCount)| == if replicaCount < |nodes| then replicaCount else |nodes|
  {
    WindowDistinct(nodes, StartIndex(nodes, path), ReplicaTotal(nodes, replicaCount), RemotePathOf(fileID));
  }

  method SelectDataNodes(nodes: seq<string>, path: string, fileID: string, replicaCount: int)
    returns (replicas: seq<Replica>)
    requires nodes != []
    ensures forall i, j :: 0 <= i < j < |replicas| ==> replicas[i].addr != replicas[j].addr
    ensures forall r :: r in replicas ==> r.addr in nodes && r.remotePath == RemotePathOf(fileID)
    ensures Distinct(nodes) ==> replicas == Selected(nodes, path, fileID, replicaCount)
  {
    var n := replicaCount;
    if n > |nodes| {
      n := |nodes|;
    }
    if n < 1 {
      n := 1;
    }
    var hash := HashOf(path);
    var startIdx := Remainder(hash, |nodes|);
    if startIdx < 0 {
      startIdx := -startIdx;
    }
    replicas := Pick(nodes, startIdx, n, RemotePathOf(fileID));
  }

  method HashOf(path: string) returns (hash: int)
    ensures hash == PathHash(path)
  {
    hash := 0;
    for i := 0 to |path|
      invariant hash == PathHash(path[..i])
    {
      assert path[..i+1][..i] == path[..i];
      hash := Wrap(Wrap(hash * 31) + path[i] as int);
    }
    assert path[..|path|] == path;
  }

  /** The selection loop; `seen` guards against a node that is listed twice. */
  method Pick(nodes: seq<string>, startIdx: int, n: nat, remotePath: string) returns (replicas: seq<Replica>)
    requires 0 <= startIdx < |nodes| && n <= |nodes|
    ensures forall i, j :: 0 <= i < j < |replicas| ==> replicas[i].addr != replicas[j].addr
    ensures forall r :: r in replicas ==> r.addr in nodes && r.remotePath == remotePath
    ensures Distinct(nodes) ==> replicas == Window(nodes, startIdx, n, remotePath)
  {
    replicas := [];
    var seen: set<string> := {};
    ghost var w, d := Window(nodes, startIdx, n, remotePath), Distinct(nodes);
    if d {
      WindowDistinct(nodes, startIdx, n, remotePath);
    }
    assert forall i :: 0 <= i < n ==> w[i] == Replica(nodes[RingAt(startIdx, i, |nodes|)], remotePath);
    assert w[..0] == [];
    hide Distinct, Window;
    for i := 0 to n
      invariant forall k :: 0 <= k < |replicas| ==>
          replicas[k].addr in seen && replicas[k].addr in nodes && replicas[k].remotePath == remotePath
      invariant forall k, l :: 0 <= k < l < |replicas| ==> replicas[k].addr != replicas[l].addr
      invariant forall a :: a in seen ==> exists k :: 0 <= k < i && w[k].addr == a
      invariant d ==> replicas == w[..i]
    {
      var idx := (startIdx + i) % |nodes|;
      assert idx == RingAt(startIdx, i, |nodes|);
      var addr := nodes[idx];
      assert w[..i+1] == w[..i] + [w[i]] && w[i] == Replica(addr, remotePath);
      if addr in seen {
        continue;
      }
      seen := seen + {addr};
      replicas := replicas + [Replica(addr, remotePath)];
    }
    assert w[..n] == w;
  }

  // ----- the create service -----

  const REPLICA_COUNT := 3

  datatype CreateReply = Created(replicas: seq<Replica>) | NoDataNodes | Rejected(error: ApplyError)

  /** `CreateFile` at the leader. The commands of `between` commit between its checks and its own command. */
  function CreateService(s: State, path: string, size: int, createMode: CreateMode, fileID: string, between: seq<Step>,
                         now: Time)
    : (State, CreateReply)
  {
    var p := Components(path);
    if s.dataNodes == [] then (s, NoDataNodes)
    else if p == [] then (s, Rejected(InvalidPath))
    else if !IsDirAt(s.tree, Parent(p)) then (s, Rejected(ParentNotFound))
    else
      var replicas := Selected(s.dataNodes, path, fileID, REPLICA_COUNT);
      var a := Apply(Run(s, between), CreateFile(path, size, replicas, createMode, fileID), now);
      (a.state, if a.outcome == Done then Created(replicas) else Rejected(a.outcome.error))
  }

  /** The early checks change no result when nothing commits in between: the command would refuse alike. */
  lemma ChecksAreEarly(s: State, path: string, size: int, createMode: CreateMode, fileID: string, now: Time)
    requires s.dataNodes != []
    ensures var replicas := Selected(s.dataNodes, path, fileID, REPLICA_COUNT);
      var a := Apply(s, CreateFile(path, size, replicas, createMode, fileID), now);
      CreateService(s, path, size, createMode, fileID, [], now)
      == (a.state, if a.outcome == Done then Created(replicas) else Rejected(a.outcome.error))
  {
  }

  /** The service's reply and state, case by case: no nodes, the root, a missing parent, the command's own refusal; and
      on success as many replicas as there are nodes, but no more than three, all for the new FileID. */
  lemma CreateServiceOutcome(s: State, path: string, size: int, createMode: CreateMode, fileID: string,
                             between: seq<Step>, now: Time)
    ensures var (u, reply) := CreateService(s, path, size, createMode, fileID, between, now);
      var p, early := Components(path), s.dataNodes == [] || Components(path) == []
          || !IsDirAt(s.tree, Parent(Components(path)));
      && (early ==> u == s)
      && (reply == NoDataNodes <==> s.dataNodes == [])
      && (s.dataNodes != [] && p == [] ==> reply == Rejected(InvalidPath))
      && (s.dataNodes != [] && p != [] && !IsDirAt(s.tree, Parent(p)) ==> reply == Rejected(ParentNotFound))
      && (!early ==> exists rs ::
            var a := Apply(Run(s, between), CreateFile(path, size, rs, createMode, fileID), now);
            && u == a.state && reply == (if a.outcome == Done then Created(rs) else Rejected(a.outcome.error))
            && rs == Selected(s.dataNodes, path, fileID, 3))
      && (reply.Created? ==>
            && |reply.replicas| == (if |s.dataNodes| < 3 then |s.dataNodes| else 3)
            && forall r :: r in reply.replicas ==> r.addr in s.dataNodes && r.remotePath == "/data/" + fileID)
  {
    hide Apply, Run, Components;
  }
}

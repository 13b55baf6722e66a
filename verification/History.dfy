/**
What holds of the metadata state over whole runs of committed commands (internal/metadata/apply.go).

A run starts from any well-formed state, or from the initial one, and applies a log of commands, each with the clock
reading its application took.
*/
module History {
  import opened Paths
  import opened FsTypes
  import opened Namespace

  datatype Step = Step(cmd: Command, now: Time)

  function Run(s: State, log: seq<Step>): State
  {
    if log == [] then s
    else Apply(Run(s, log[..|log|-1]), log[|log|-1].cmd, log[|log|-1].now).state
  }

  /** The result of the `i`-th command of a run. */
  function OutcomeAt(s: State, log: seq<Step>, i: nat): Outcome
    requires i < |log|
  {
    Apply(Run(s, log[..i]), log[i].cmd, log[i].now).outcome
  }

  lemma RunStep(s: State, log: seq<Step>, i: nat)
    requires i < |log|
    ensures Run(s, log[..i+1]) == Apply(Run(s, log[..i]), log[i].cmd, log[i].now).state
  {
    assert log[..i+1][..i] == log[..i];
  }

  lemma {:induction false} RunStaysWellFormed(s: State, log: seq<Step>)
    requires WellFormed(s.tree)
    ensures WellFormed(Run(s, log).tree)
  {
    if log != [] {
      RunStaysWellFormed(s, log[..|log|-1]);
      ApplyKeepsTree(Run(s, log[..|log|-1]), log[|log|-1].cmd, log[|log|-1].now);
    }
  }

  lemma {:induction false} RunKeepsNames(s: State, log: seq<Step>)
    requires ProperNames(s.tree)
    ensures ProperNames(Run(s, log).tree)
  {
    if log != [] {
      RunKeepsNames(s, log[..|log|-1]);
      ApplyKeepsNames(Run(s, log[..|log|-1]), log[|log|-1].cmd, log[|log|-1].now);
    }
  }

  // ----- failed commands -----

  /** The log without the commands that failed. */
  function Effective(s: State, log: seq<Step>): seq<Step>
  {
    if log == [] then []
    else
      var n := |log| - 1;
      Effective(s, log[..n]) + if OutcomeAt(s, log, n) == Done then [log[n]] else []
  }

  /** Failed commands leave no trace: the run of the successful ones alone ends in the same state. */
  lemma {:induction false} FailedLeaveNoTrace(s: State, log: seq<Step>)
    ensures Run(s, Effective(s, log)) == Run(s, log)
  {
    if log != [] {
      var n := |log| - 1;
      FailedLeaveNoTrace(s, log[..n]);
      FailedChangesNothing(Run(s, log[..n]), log[n].cmd, log[n].now);
      hide Apply;
      var e := Effective(s, log[..n]);
      assert (e + [log[n]])[..|e|] == e && (e + [log[n]])[|e|] == log[n] && e + [] == e;
    }
  }

  lemma FailedChangesNothing(s: State, c: Command, now: Time)
    ensures Apply(s, c, now).outcome != Done ==> Apply(s, c, now).state == s
  {
  }

  // ----- membership -----

  ghost predicate Distinct<T>(xs: seq<T>) {
    forall i, j :: 0 <= i < j < |xs| ==> xs[i] != xs[j]
  }

  ghost predicate MembersAgree(s: State) {
    Distinct(s.dataNodes) && forall a :: a in s.dataNodes <==> a in s.lastHeartbeat
  }

  /** Removal takes out the one occurrence and keeps the order of the others. */
  lemma {:induction false} RemovalCutsOne(nodes: seq<string>, a: string)
    requires Distinct(nodes)
    ensures Distinct(RemoveMember(nodes, a)) && a !in RemoveMember(nodes, a)
    ensures forall b :: b != a ==> (b in RemoveMember(nodes, a) <==> b in nodes)
    ensures a in nodes ==>
      exists i :: 0 <= i < |nodes| && nodes[i] == a && RemoveMember(nodes, a) == nodes[..i] + nodes[i+1..]
  {
    if a in nodes {
      var i :| 0 <= i < |nodes| && nodes[i] == a;
      assert a !in nodes[..i];
      RemoveAt(nodes, i, a);
    } else {
      RemoveAbsent(nodes, a);
    }
  }

  /** A node that was removed and sends a heartbeat is listed once, at the end. */
  lemma RejoinGoesLast(s: State, a: string, t0: Time, t1: Time)
    requires MembersAgree(s)
    ensures var removed := Apply(s, RemoveDataNode(a), t0).state;
      Apply(removed, Heartbeat(a), t1).state.dataNodes == removed.dataNodes + [a]
      && Distinct(removed.dataNodes + [a])
  {
    RemovalCutsOne(s.dataNodes, a);
  }

  lemma {:induction false} RunKeepsMembers(s: State, log: seq<Step>)
    requires MembersAgree(s)
    ensures MembersAgree(Run(s, log))
  {
    if log != [] {
      RunKeepsMembers(s, log[..|log|-1]);
      var u := Run(s, log[..|log|-1]);
      if log[|log|-1].cmd.RemoveDataNode? {
        RemovalCutsOne(u.dataNodes, log[|log|-1].cmd.addr);
      }
    }
  }

  lemma MembersAgreeOnEveryRun(now: Time, log: seq<Step>)
    ensures MembersAgree(Run(InitialState(now), log))
  {
    RunKeepsMembers(InitialState(now), log);
  }

  // ----- paths leave the tree only by delete and rename -----

  /** The command takes `p` away: a delete of `p` or of a directory above it, or a rename with such a source. */
  predicate TakesAway(c: Command, p: Path) {
    match c
    case Delete(path) => Below(Components(path), p)
    case Rename(path, _) => Below(Components(path), p)
    case _ => false
  }

  lemma PathStays(s: State, c: Command, now: Time, p: Path)
    requires WellFormed(s.tree) && p in s.tree
    requires Apply(s, c, now).outcome == Done ==> !TakesAway(c, p)
    ensures p in Apply(s, c, now).state.tree
  {
    hide WellFormed, Renamed, DeleteIn, Below;
    match c
    case Rename(path, dstPath) =>
      if Apply(s, c, now).outcome == Done {
        RenameSpares(s.tree, Components(path), Components(dstPath), now, p);
      }
    case Delete(path) => DeleteSpares(s.tree, Components(path), now, p);
    case _ =>
  }

  lemma DeleteSpares(t: Tree, q: Path, now: Time, p: Path)
    requires p in t && (DeleteIn(t, q, now).1 == Done ==> !Below(q, p))
    ensures p in DeleteIn(t, q, now).0
  {
  }

  lemma RenameSpares(t: Tree, src: Path, dst: Path, now: Time, p: Path)
    requires WellFormed(t) && p in t && RenameIn(t, src, dst, now).1 == Done && !Below(src, p)
    ensures p in Renamed(t, src, dst, now)
  {
    RenamedAt(t, src, dst, now, p);
    hide Renamed;
    if Below(dst, p) {
      if p != dst { PrefixIsDir(t, dst, p); }
      assert Rebase(dst, dst, src) == src;
    }
  }

  lemma {:induction false} PathStaysOverRun(s: State, log: seq<Step>, i: nat, j: nat, p: Path)
    requires WellFormed(s.tree) && i <= j <= |log|
    requires p in Run(s, log[..i]).tree
    requires forall k :: i <= k < j && OutcomeAt(s, log, k) == Done ==> !TakesAway(log[k].cmd, p)
    ensures p in Run(s, log[..j]).tree
    decreases j
  {
    if i < j {
      PathStaysOverRun(s, log, i, j - 1, p);
      RunStaysWellFormed(s, log[..j-1]);
      RunStep(s, log, j - 1);
      PathStays(Run(s, log[..j-1]), log[j-1].cmd, log[j-1].now, p);
    }
  }

  ghost predicate CreatesAt(s: State, log: seq<Step>, i: nat, p: Path)
    requires i < |log|
  {
    log[i].cmd.CreateFile? && Components(log[i].cmd.path) == p && OutcomeAt(s, log, i) == Done
  }

  lemma CreateMakes(s: State, c: Command, now: Time)
    requires c.CreateFile? && Apply(s, c, now).outcome == Done
    ensures Components(c.path) in Apply(s, c, now).state.tree
    ensures c.createMode == CreateIfNotExist ==> Components(c.path) !in s.tree
  {
  }

  /** Exclusive create: two creates of one path both succeed, the second with CreateIfNotExist, only if in between a
      successful delete or rename took the path away. */
  lemma ExclusiveCreate(s: State, log: seq<Step>, i: nat, j: nat, p: Path)
    requires WellFormed(s.tree) && i < j < |log|
    requires CreatesAt(s, log, i, p) && CreatesAt(s, log, j, p)
    requires log[j].cmd.createMode == CreateIfNotExist
    ensures exists k :: i < k < j && OutcomeAt(s, log, k) == Done && TakesAway(log[k].cmd, p)
  {
    RunStep(s, log, i);
    CreateMakes(Run(s, log[..i]), log[i].cmd, log[i].now);
    CreateMakes(Run(s, log[..j]), log[j].cmd, log[j].now);
    hide Apply;
    if forall k :: i < k < j && OutcomeAt(s, log, k) == Done ==> !TakesAway(log[k].cmd, p) {
      PathStaysOverRun(s, log, i + 1, j, p);
    }
  }
}

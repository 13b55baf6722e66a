/**
The cycle that the leader runs (`Gc`) is a run of the protocol (`GcProtocol`): what it deletes, it deletes by steps that
the protocol allows, so the protocol's safety holds of it (internal/metadata/gc.go:41-69 and 127-174).
*/
module GcCycles {
  import opened FsTypes
  import opened History
  import opened Identity
  import opened DataNodes
  import opened GcProtocol
  import opened Gc

  function Times(files: Files): map<string, Time> {
    map p | p in files :: files[p].mtime
  }

  // ----- one node -----

  /** What remains of a store when the listed orphans are deleted that can be. */
  function Swept(store: map<string, Time>, listed: map<string, Time>, valid: set<string>, start: Time, faults: Faults)
    : map<string, Time>
  {
    map p | p in store && !(p in listed && IsOrphan(p, listed[p], valid, start) && p !in faults.undeletable) :: store[p]
  }

  /** From `here` to `there` the cycle handled its listing: every listed file was deleted or skipped. */
  ghost predicate SweptWorld(here: World, there: World, c: nat, faults: Faults)
    requires c in here.cycles && here.cycles[c].Visiting?
  {
    var cy := here.cycles[c];
    && there.log == here.log && there.now == here.now && there.cycles == here.cycles[c := cy.(files := map[])]
    && forall addr ::
      StoreAt(there, addr) == if addr == Visited(cy)
        then Swept(StoreAt(here, addr), cy.files, cy.valid, cy.start, faults)
        else StoreAt(here, addr)
  }

  /** The steps of a cycle on one listing are allowed. */
  lemma SweepIsLegal(b: Bounds, from: World, done: seq<Action>, here: World, c: nat, faults: Faults)
    returns (acts: seq<Action>, there: World)
    requires Legal(b, from, done) && After(from, done) == here && c in here.cycles && here.cycles[c].Visiting?
    ensures Legal(b, from, acts) && After(from, acts) == there && SweptWorld(here, there, c, faults)
    decreases |here.cycles[c].files|
  {
    var cy := here.cycles[c];
    if cy.files == map[] {
      NothingListed(here, c, faults);
      acts, there := done, here;
    } else {
      var p :| p in cy.files;
      var a := HandledBy(cy, c, p, faults);
      FileHandled(b, here, c, p, faults);
      Shrinks(cy.files, p);
      hide Legal, After, Next, Swept, StoreAt, HandledBy, Enabled, SweptWorld;
      var next;
      acts, next := OneMore(b, from, done, here, a);
      acts, there := SweepIsLegal(b, from, acts, next, c, faults);
      SweepGoesOn(here, next, there, c, p, faults);
    }
  }

  lemma NothingListed(w: World, c: nat, faults: Faults)
    requires c in w.cycles && w.cycles[c].Visiting? && w.cycles[c].files == map[]
    ensures SweptWorld(w, w, c, faults)
  {
  }

  function HandledBy(cy: Cycle, c: nat, p: string, faults: Faults): Action
    requires cy.Visiting? && p in cy.files
  {
    if IsOrphan(p, cy.files[p], cy.valid, cy.start) && p !in faults.undeletable then GcDelete(c, p) else GcSkip(c, p)
  }

  /** One listed file is dealt with. */
  ghost predicate OneHandled(w: World, v: World, c: nat, p: string, faults: Faults)
    requires c in w.cycles && w.cycles[c].Visiting? && p in w.cycles[c].files
  {
    var cy := w.cycles[c];
    && v.log == w.log && v.now == w.now && v.cycles == w.cycles[c := cy.(files := cy.files - {p})]
    && forall addr ::
      StoreAt(v, addr) == if addr == Visited(cy) && HandledBy(cy, c, p, faults).GcDelete?
        then StoreAt(w, addr) - {p}
        else StoreAt(w, addr)
  }

  lemma FileHandled(b: Bounds, w: World, c: nat, p: string, faults: Faults)
    requires c in w.cycles && w.cycles[c].Visiting? && p in w.cycles[c].files
    ensures var a := HandledBy(w.cycles[c], c, p, faults);
      Enabled(b, w, a) && OneHandled(w, Next(w, a), c, p, faults) && c in Next(w, a).cycles
      && Next(w, a).cycles[c] == w.cycles[c].(files := w.cycles[c].files - {p})
  {
  }

  lemma SweepGoesOn(here: World, next: World, there: World, c: nat, p: string, faults: Faults)
    requires c in here.cycles && here.cycles[c].Visiting? && p in here.cycles[c].files
    requires c in next.cycles && next.cycles[c].Visiting?
    requires OneHandled(here, next, c, p, faults) && SweptWorld(next, there, c, faults)
    ensures SweptWorld(here, there, c, faults)
  {
    var cy := here.cycles[c];
    SweptOneMore(StoreAt(here, Visited(cy)), cy.files, cy.valid, cy.start, faults, p);
    hide Swept, StoreAt, IsOrphan;
  }

  lemma Shrinks(files: map<string, Time>, p: string)
    requires p in files
    ensures |files - {p}| < |files|
  {
    assert (files - {p}).Keys == files.Keys - {p};
  }

  lemma SweptOneMore(store: map<string, Time>, listed: map<string, Time>, valid: set<string>, start: Time,
                     faults: Faults, p: string)
    requires p in listed
    ensures Swept(store, listed, valid, start, faults)
         == Swept(if IsOrphan(p, listed[p], valid, start) && p !in faults.undeletable then store - {p} else store,
                  listed - {p}, valid, start, faults)
  {
  }

  /** On a node whose files the cycle has just listed, the steps leave what `GarbageCollectNode` leaves. */
  lemma SweptIsCollected(files: Files, valid: set<string>, start: Time, faults: Faults)
    requires Lists(files, faults)
    ensures Swept(Times(files), map p | p in Times(files) && !IsTemp(p) :: Times(files)[p], valid, start, faults)
         == Times(Collected(files, valid, start, faults))
  {
    hide IsOrphan, IsTemp;
  }

  // ----- the whole cycle -----

  /** What the cycle leaves on the network when it has come to the `j`-th of its nodes. */
  function LeftAt(net: map<string, Files>, nodes: seq<string>, j: nat, valid: set<string>, start: Time,
                  faults: map<string, Faults>, addr: string): map<string, Time>
    requires j <= |nodes|
  {
    if addr !in net then map[]
    else if addr in nodes[..j] then Times(Collected(net[addr], valid, start, FaultsAt(faults, addr)))
    else Times(net[addr])
  }

  /** The nodes are visited in order; one that cannot be reached, or whose scan stops, is passed over. */
  lemma VisitsAreLegal(b: Bounds, from: World, done: seq<Action>, here: World, c: nat, j: nat, net: map<string, Files>,
                       faults: map<string, Faults>) returns (acts: seq<Action>, there: World)
    requires Legal(b, from, done) && After(from, done) == here && c in here.cycles && here.cycles[c].Visiting?
    requires var cy := here.cycles[c];
      && j <= |cy.nodes| && cy.next <= j && Distinct(cy.nodes)
      && forall addr :: StoreAt(here, addr) == LeftAt(net, cy.nodes, j, cy.valid, cy.start, faults, addr)
    ensures Legal(b, from, acts) && After(from, acts) == there && there.log == here.log && there.now == here.now
    ensures var cy := here.cycles[c];
      forall addr :: StoreAt(there, addr) == LeftAt(net, cy.nodes, |cy.nodes|, cy.valid, cy.start, faults, addr)
    decreases |here.cycles[c].nodes| - j
  {
    hide Legal, After, LeftAt, Swept, Collected, Listing;
    var cy := here.cycles[c];
    if j == |cy.nodes| {
      acts, there := done, here;
    } else {
      var addr := cy.nodes[j];
      if addr in net && Lists(net[addr], FaultsAt(faults, addr)) {
        acts, there := OneMore(b, from, done, here, List(c, j));
        acts, there := SweepIsLegal(b, from, acts, there, c, FaultsAt(faults, addr));
        NodeDone(here, there, cy, net, faults, j);
      } else {
        acts, there := done, here;
        NodePassedOver(here, cy, net, faults, j);
      }
      acts, there := VisitsAreLegal(b, from, acts, there, c, j + 1, net, faults);
    }
  }

  lemma NodeDone(here: World, there: World, cy: Cycle, net: map<string, Files>, faults: map<string, Faults>, j: nat)
    requires cy.Visiting? && j < |cy.nodes| && Distinct(cy.nodes)
    requires cy.nodes[j] in net && Lists(net[cy.nodes[j]], FaultsAt(faults, cy.nodes[j]))
    requires forall addr :: StoreAt(here, addr) == LeftAt(net, cy.nodes, j, cy.valid, cy.start, faults, addr)
    requires forall addr ::
      StoreAt(there, addr) == if addr == cy.nodes[j]
        then Swept(StoreAt(here, addr), Listing(here, addr), cy.valid, cy.start, FaultsAt(faults, addr))
        else StoreAt(here, addr)
    ensures forall addr :: StoreAt(there, addr) == LeftAt(net, cy.nodes, j + 1, cy.valid, cy.start, faults, addr)
  {
    assert cy.nodes[..j+1] == cy.nodes[..j] + [cy.nodes[j]] && cy.nodes[j] !in cy.nodes[..j];
    SweptIsCollected(net[cy.nodes[j]], cy.valid, cy.start, FaultsAt(faults, cy.nodes[j]));
    hide Swept, Collected, Times, FaultsAt, StoreAt;
  }

  lemma NodePassedOver(here: World, cy: Cycle, net: map<string, Files>, faults: map<string, Faults>, j: nat)
    requires cy.Visiting? && j < |cy.nodes|
    requires cy.nodes[j] in net ==> !Lists(net[cy.nodes[j]], FaultsAt(faults, cy.nodes[j]))
    requires forall addr :: StoreAt(here, addr) == LeftAt(net, cy.nodes, j, cy.valid, cy.start, faults, addr)
    ensures forall addr :: StoreAt(here, addr) == LeftAt(net, cy.nodes, j + 1, cy.valid, cy.start, faults, addr)
  {
    assert cy.nodes[..j+1] == cy.nodes[..j] + [cy.nodes[j]];
    hide Times, FaultsAt, StoreAt;
  }

  /** What `RunGC` leaves on a node, by the time of its files. */
  function LeftBy(net: map<string, Files>, state: State, start: Time, faults: map<string, Faults>, addr: string)
    : map<string, Time>
  {
    if addr !in net then map[]
    else if addr in state.dataNodes
    then Times(Collected(net[addr], LiveIDs(state.tree) - {""}, start, FaultsAt(faults, addr)))
    else Times(net[addr])
  }

  /** A cycle on a server that has applied `seen` entries: the protocol can take it from its clock reading to its end,
      and the stores end as `RunGC` leaves them. */
  lemma CycleIsLegal(b: Bounds, w: World, start: Time, seen: nat, state: State, net: map<string, Files>,
                     faults: map<string, Faults>) returns (acts: seq<Action>)
    requires start <= w.now + b.serverSkew && UpToDate(b, w.log, w.now, seen)
    requires Replication.Agree(state, CommittedState(w.log[..seen])) && Distinct(state.dataNodes)
    requires forall addr :: StoreAt(w, addr) == if addr in net then Times(net[addr]) else map[]
    ensures Legal(b, w, acts) && After(w, acts).log == w.log && After(w, acts).now == w.now
    ensures forall addr ::
      StoreAt(After(w, acts), addr) == LeftBy(net, state, start, faults, addr)
  {
    NoActions(b, w);
    hide Legal, After, Collected, Times, FaultsAt, CommittedState, UpToDate, Replication.Agree, LiveIDs, Distinct;
    var v := w;
    acts, v := OneMore(b, w, [], v, Start(0, start));
    acts, v := OneMore(b, w, acts, v, Walk(0, seen, state));
    acts, v := OneMore(b, w, acts, v, ReadNodes(0, seen, state));
    assert state.dataNodes[..0] == [] && state.dataNodes[..|state.dataNodes|] == state.dataNodes;
    acts, v := VisitsAreLegal(b, w, acts, v, 0, 0, net, faults);
  }

  // ----- safety of the code's cycle -----

  /** Inside the window, no file that the cycle removes from a node is the data of a file in the committed tree. */
  lemma CycleIsSafe(b: Bounds, w: World, start: Time, seen: nat, state: State, files: Files, addr: string,
                    faults: Faults, path: string)
    requires WithinWindow(b) && Inv(b, w) && start <= w.now + b.serverSkew && UpToDate(b, w.log, w.now, seen)
    requires Replication.Agree(state, CommittedState(w.log[..seen])) && addr in state.dataNodes
    requires StoreAt(w, addr) == Times(files)
    requires path in files && path !in Collected(files, LiveIDs(state.tree) - {""}, start, faults)
    ensures Unreferenced(CommittedState(w.log).tree, path)
  {
    CollectedFile(files, LiveIDs(state.tree) - {""}, start, faults, path);
    assert IsOrphan(path, files[path].mtime, LiveIDs(state.tree) - {""}, start);
    assert path in Listing(w, addr) && Listing(w, addr)[path] == files[path].mtime;
    hide Collected, CommittedState, UpToDate, Replication.Agree, LiveIDs, Inv, WithinWindow, IsOrphan, Listing;
    var v := ComesTo(b, w, start, seen, state, addr);
    DeleteIsSafe(b, v, 0, path);
  }

  /** The cycle up to the listing of one of its nodes. */
  lemma ComesTo(b: Bounds, w: World, start: Time, seen: nat, state: State, addr: string) returns (v: World)
    requires Inv(b, w) && start <= w.now + b.serverSkew && UpToDate(b, w.log, w.now, seen)
    requires Replication.Agree(state, CommittedState(w.log[..seen])) && addr in state.dataNodes
    ensures Inv(b, v) && v.log == w.log && 0 in v.cycles && v.cycles[0].Visiting?
    ensures v.cycles[0].start == start && v.cycles[0].valid == LiveIDs(state.tree) - {""}
    ensures v.cycles[0].files == Listing(w, addr)
  {
    hide Inv, CommittedState, UpToDate, Replication.Agree, LiveIDs, Legal, After;
    NoActions(b, w);
    var j :| 0 <= j < |state.dataNodes| && state.dataNodes[j] == addr;
    var acts;
    acts, v := OneMore(b, w, [], w, Start(0, start));
    acts, v := OneMore(b, w, acts, v, Walk(0, seen, state));
    acts, v := OneMore(b, w, acts, v, ReadNodes(0, seen, state));
    acts, v := OneMore(b, w, acts, v, List(0, j));
    InvStays(b, w, acts);
  }
}

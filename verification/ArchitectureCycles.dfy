/**
 The depth-first cycle finder of the architecture check: it ends on every finite graph, reports
 only genuine simple cycles, and every closed walk runs through an edge that closes a report.
 */
module ArchitectureCycles {
  import opened Wrappers

  /** Each package with its dependencies in insertion order; a dependency need not be a key. */
  type Graph = map<string, seq<string>>

  function Dependencies(graph: Graph, node: string): seq<string>
  {
    if node in graph then graph[node] else []
  }

  predicate Edge(graph: Graph, from: string, to: string)
  {
    to in Dependencies(graph, from)
  }

  /** The edges are those that the graph lists. */
  lemma EdgesAreListed(graph: Graph, from: string, to: string)
    ensures Edge(graph, from, to) <==> from in graph && to in graph[from]
  {
  }

  ghost predicate IsWalk(graph: Graph, walk: seq<string>)
  {
    forall i :: 0 <= i < |walk| - 1 ==> Edge(graph, walk[i], walk[i + 1])
  }

  ghost predicate Distinct(nodes: seq<string>)
  {
    forall i, j :: 0 <= i < j < |nodes| ==> nodes[i] != nodes[j]
  }

  /** A walk of at least one edge that ends where it starts. */
  ghost predicate IsClosedWalk(graph: Graph, walk: seq<string>)
  {
    |walk| >= 2 && walk[0] == walk[|walk| - 1] && IsWalk(graph, walk)
  }

  ghost predicate IsSimpleCycle(graph: Graph, walk: seq<string>)
  {
    IsClosedWalk(graph, walk) && Distinct(walk[..|walk| - 1])
  }

  /** Some report ends with this edge. */
  ghost predicate Closes(found: seq<seq<string>>, from: string, to: string)
  {
    exists k :: 0 <= k < |found| && EndsWith(found[k], from, to)
  }

  predicate EndsWith(walk: seq<string>, from: string, to: string)
  {
    |walk| >= 2 && walk[|walk| - 2] == from && walk[|walk| - 1] == to
  }

  lemma ClosesGrows(found: seq<seq<string>>, more: seq<seq<string>>, from: string, to: string)
    requires found <= more && Closes(found, from, to)
    ensures Closes(more, from, to)
  {
    var k :| 0 <= k < |found| && EndsWith(found[k], from, to);
    assert more[k] == found[k];
  }

  /** These edges of a node lead to finished nodes or close a report. */
  ghost predicate Settled(visited: set<string>, found: seq<seq<string>>, node: string, dependencies: seq<string>)
  {
    forall to :: to in dependencies ==> to in visited || Closes(found, node, to)
  }

  lemma SettledGrows(visited: set<string>, later: set<string>, found: seq<seq<string>>, more: seq<seq<string>>,
                     node: string, dependencies: seq<string>)
    requires Settled(visited, found, node, dependencies) && visited <= later && found <= more
    ensures Settled(later, more, node, dependencies)
  {
    hide Closes;
    forall to | to in dependencies ensures to in later || Closes(more, node, to) {
      if Closes(found, node, to) { ClosesGrows(found, more, node, to); }
    }
  }

  /** Every edge of a finished node leads to an earlier finished node or closes a report. */
  ghost predicate Ranked(graph: Graph, finished: seq<string>, found: seq<seq<string>>)
  {
    forall i, to :: 0 <= i < |finished| && Edge(graph, finished[i], to) ==>
      to in finished[..i] || Closes(found, finished[i], to)
  }

  lemma RankedGrows(graph: Graph, finished: seq<string>, found: seq<seq<string>>, more: seq<seq<string>>)
    requires Ranked(graph, finished, found) && found <= more
    ensures Ranked(graph, finished, more)
  {
    forall i, to | 0 <= i < |finished| && Edge(graph, finished[i], to)
      ensures to in finished[..i] || Closes(more, finished[i], to)
    {
      if Closes(found, finished[i], to) { ClosesGrows(found, more, finished[i], to); }
    }
  }

  lemma RankedExtends(graph: Graph, finished: seq<string>, found: seq<seq<string>>, node: string)
    requires Ranked(graph, finished, found)
    requires forall to :: Edge(graph, node, to) ==> to in finished || Closes(found, node, to)
    ensures Ranked(graph, finished + [node], found)
  {
    var longer := finished + [node];
    forall i, to | 0 <= i < |longer| && Edge(graph, longer[i], to)
      ensures to in longer[..i] || Closes(found, longer[i], to)
    {
      assert i < |finished| ==> longer[..i] == finished[..i];
      assert longer[..|finished|] == finished;
    }
  }

  function Position(finished: seq<string>, node: string): (i: nat)
    requires node in finished
    ensures i < |finished| && finished[i] == node && node !in finished[..i]
  {
    if finished[0] == node then 0 else
      var i := Position(finished[1..], node);
      assert finished[..i + 1] == [finished[0]] + finished[1..][..i];
      i + 1
  }

  /** Along a walk without report-closing edges the finishing position only falls. */
  lemma {:induction false} PositionsFall(graph: Graph, finished: seq<string>, found: seq<seq<string>>, walk: seq<string>, n: nat)
    requires Ranked(graph, finished, found) && IsWalk(graph, walk) && 1 <= n < |walk|
    requires forall node :: node in graph ==> node in finished
    requires forall i :: 0 <= i < n ==> !Closes(found, walk[i], walk[i + 1])
    ensures walk[0] in finished && walk[n] in finished
    ensures Position(finished, walk[n]) < Position(finished, walk[0])
  {
    assert Edge(graph, walk[n - 1], walk[n]);
    assert walk[n - 1] in finished;
    var i := Position(finished, walk[n - 1]);
    assert walk[n] in finished[..i];
    if n > 1 { PositionsFall(graph, finished, found, walk, n - 1); }
  }

  /** Once every key is finished, every closed walk contains an edge that closes a report. */
  lemma ClosedWalkIsReported(graph: Graph, finished: seq<string>, found: seq<seq<string>>, walk: seq<string>)
    requires Ranked(graph, finished, found) && (forall node :: node in graph ==> node in finished)
    requires IsClosedWalk(graph, walk)
    ensures exists i :: 0 <= i < |walk| - 1 && Closes(found, walk[i], walk[i + 1])
  {
    if forall i :: 0 <= i < |walk| - 1 ==> !Closes(found, walk[i], walk[i + 1]) {
      PositionsFall(graph, finished, found, walk, |walk| - 1);
    }
  }

  // ----- no report twice -----

  /** The dependencies are sets: none is listed twice. */
  ghost predicate HasSets(graph: Graph)
  {
    forall node :: node in graph ==> Distinct(graph[node])
  }

  /** No two reports end with the same edge. */
  ghost predicate ClosesOnce(found: seq<seq<string>>)
  {
    forall i, j, from, to :: 0 <= i < j < |found| ==> !(EndsWith(found[i], from, to) && EndsWith(found[j], from, to))
  }

  /** Every report ends with an edge of one of the nodes. */
  ghost predicate ClosesFrom(found: seq<seq<string>>, nodes: set<string>)
  {
    forall from, to :: Closes(found, from, to) ==> from in nodes
  }

  /** What a visit adds to the reports: edges of nodes that it entered, and the one it came by. */
  ghost predicate AddsOnly(before: seq<seq<string>>, found: seq<seq<string>>, known: set<string>, from: Option<string>, node: string)
  {
    forall f, t :: Closes(found, f, t) && !Closes(before, f, t) && f in known ==> from == Some(f) && t == node
  }

  /** The reports that end at the node do so by these edges. */
  ghost predicate ClosesOnly(found: seq<seq<string>>, node: string, dependencies: seq<string>)
  {
    forall to :: Closes(found, node, to) ==> to in dependencies
  }

  /** No report was added for a known node. */
  ghost predicate AddsNothingTo(before: seq<seq<string>>, found: seq<seq<string>>, known: set<string>)
  {
    forall f, t :: Closes(found, f, t) && f in known ==> Closes(before, f, t)
  }

  /** A node that was just entered closed no report. */
  lemma NothingAdded(found: seq<seq<string>>, known: set<string>, node: string)
    requires ClosesFrom(found, known) && node !in known
    ensures AddsNothingTo(found, found, known) && ClosesOnly(found, node, [])
  {
    hide Closes;
  }

  /** One more visit from the node. */
  lemma OneAdded(start: seq<seq<string>>, before: seq<seq<string>>, found: seq<seq<string>>,
                 known: set<string>, now: set<string>, node: string, done: seq<string>, next: string)
    requires AddsNothingTo(start, before, known) && AddsOnly(before, found, now, Some(node), next)
    requires known <= now && node in now && node !in known && ClosesOnly(before, node, done)
    ensures AddsNothingTo(start, found, known) && ClosesOnly(found, node, done + [next])
  {
    hide Closes;
  }

  lemma NothingIsOnly(before: seq<seq<string>>, found: seq<seq<string>>, known: set<string>, from: Option<string>, node: string)
    requires AddsNothingTo(before, found, known)
    ensures AddsOnly(before, found, known, from, node)
  {
    hide Closes;
  }

  lemma SameReports(found: seq<seq<string>>, known: set<string>, from: Option<string>, node: string)
    ensures AddsOnly(found, found, known, from, node)
  {
    hide Closes;
  }

  /** The next edge of a set has closed no report yet. */
  lemma NextIsNew(graph: Graph, node: string, i: nat, found: seq<seq<string>>)
    requires HasSets(graph) && i < |Dependencies(graph, node)| && ClosesOnly(found, node, Dependencies(graph, node)[..i])
    ensures !Closes(found, node, Dependencies(graph, node)[i])
  {
    hide Closes;
    var d := Dependencies(graph, node);
    assert d[i] !in d[..i];
  }

  lemma ReportsOnce(found: seq<seq<string>>, walk: seq<string>, from: string, to: string)
    requires ClosesOnce(found) && EndsWith(walk, from, to) && !Closes(found, from, to)
    ensures ClosesOnce(found + [walk])
  {
  }

  lemma RecordAdds(found: seq<seq<string>>, walk: seq<string>, from: string, node: string, known: set<string>)
    requires ClosesFrom(found, known) && from in known && EndsWith(walk, from, node)
    ensures ClosesFrom(found + [walk], known) && Closes(found + [walk], from, node)
    ensures AddsOnly(found, found + [walk], known, Some(from), node)
  {
    hide Closes;
    AppendCloses(found, walk, from, node);
  }

  lemma AppendCloses(found: seq<seq<string>>, walk: seq<string>, from: string, to: string)
    requires EndsWith(walk, from, to)
    ensures forall f, t :: Closes(found + [walk], f, t) <==> Closes(found, f, t) || (f == from && t == to)
  {
    var more := found + [walk];
    assert more[|found|] == walk;
    forall f, t ensures Closes(more, f, t) <==> Closes(found, f, t) || (f == from && t == to) {
      if Closes(found, f, t) { ClosesGrows(found, more, f, t); }
      if Closes(more, f, t) {
        var k :| 0 <= k < |more| && EndsWith(more[k], f, t);
        if k < |found| { assert EndsWith(found[k], f, t); }
      }
      if f == from && t == to { assert EndsWith(more[|found|], f, t); }
    }
  }

  /** Every node that a visit can reach. */
  function Universe(graph: Graph): set<string>
  {
    graph.Keys + set node, to | node in graph && to in graph[node] :: to
  }

  lemma EdgesStayInside(graph: Graph, from: string, to: string)
    requires Edge(graph, from, to)
    ensures to in Universe(graph)
  {
  }

  function Elements(nodes: seq<string>): set<string>
  {
    set node | node in nodes
  }

  /** Closing the active path at a node that it holds. */
  lemma TailIsSimpleCycle(graph: Graph, active: seq<string>, start: nat, node: string)
    requires start < |active| && active[start] == node
    requires IsWalk(graph, active) && Distinct(active) && Edge(graph, active[|active| - 1], node)
    ensures IsSimpleCycle(graph, active[start..] + [node])
    ensures EndsWith(active[start..] + [node], active[|active| - 1], node)
  {
    var walk := active[start..] + [node];
    assert walk[..|walk| - 1] == active[start..];
    forall i | 0 <= i < |walk| - 1 ensures Edge(graph, walk[i], walk[i + 1]) {
      assert walk[i] == active[start + i];
      if i < |walk| - 2 { assert walk[i + 1] == active[start + i + 1]; }
    }
  }

  class CycleFinder {
    const graph: Graph
    var found: seq<seq<string>>
    var visited: set<string>
    var active: seq<string>
    var activeSet: set<string>
    ghost var finished: seq<string>

    ghost predicate Valid()
      reads this
    {
      && activeSet == Elements(active) && Distinct(active) && IsWalk(graph, active)
      && activeSet !! visited && visited == Elements(finished)
      && (forall k :: 0 <= k < |found| ==> IsSimpleCycle(graph, found[k]))
      && Ranked(graph, finished, found)
      && ClosesFrom(found, visited + activeSet) && (HasSets(graph) ==> ClosesOnce(found))
    }

    constructor (graph: Graph)
      ensures Valid() && this.graph == graph && found == [] && active == [] && visited == {}
    {
      this.graph := graph;
      found, visited, active, activeSet, finished := [], {}, [], {}, [];
    }

    /** Reports the part of the active path from its node on. */
    method Report(node: string)
      requires Valid() && node in activeSet && Edge(graph, active[|active| - 1], node)
      requires HasSets(graph) ==> !Closes(found, active[|active| - 1], node)
      modifies this`found
      ensures Valid() && old(found) <= found && Closes(found, active[|active| - 1], node)
      ensures |found| == |old(found)| + 1
      ensures AddsOnly(old(found), found, visited + activeSet, Some(active[|active| - 1]), node)
    {
      hide Ranked, Closes, ClosesOnce, ClosesFrom, Distinct, HasSets, IsSimpleCycle, IsWalk, AddsOnly;
      var start := 0;
      while active[start] != node
        invariant 0 <= start < |active| && node in active[start..]
        decreases |active| - start
      {
        start := start + 1;
      }
      Record(active[start..] + [node], node, start);
    }

    /** One more report, a cycle that ends with the current edge. */
    method Record(walk: seq<string>, node: string, start: nat)
      requires Valid() && start < |active| && active[start] == node && walk == active[start..] + [node]
      requires Edge(graph, active[|active| - 1], node)
      requires HasSets(graph) ==> !Closes(found, active[|active| - 1], node)
      modifies this`found
      ensures Valid() && found == old(found) + [walk] && Closes(found, active[|active| - 1], node)
      ensures AddsOnly(old(found), found, visited + activeSet, Some(active[|active| - 1]), node)
    {
      TailIsSimpleCycle(graph, active, start, node);
      hide Ranked, Closes, ClosesOnce, ClosesFrom, AddsOnly, Distinct, HasSets, IsSimpleCycle, IsWalk, EndsWith, Elements, Edge;
      RankedGrows(graph, finished, found, found + [walk]);
      RecordAdds(found, walk, active[|active| - 1], node, visited + activeSet);
      if HasSets(graph) { ReportsOnce(found, walk, active[|active| - 1], node); }
      found := found + [walk];
    }

    /** Leaves the active path as it was and finishes the node, or reports that it is on the path. */
    method Visit(node: string)
      requires Valid() && node in Universe(graph)
      requires active != [] ==> Edge(graph, active[|active| - 1], node)
      requires active != [] && HasSets(graph) ==> !Closes(found, active[|active| - 1], node)
      modifies this
      ensures Valid() && active == old(active) && activeSet == old(activeSet)
      ensures old(visited) <= visited && old(found) <= found
      ensures node in visited || (active != [] && Closes(found, active[|active| - 1], node))
      ensures node in old(activeSet) ==> visited == old(visited)
      ensures node in old(visited) ==> visited == old(visited) && found == old(found)
      ensures AddsOnly(old(found), found, old(visited) + activeSet, if active == [] then None else Some(active[|active| - 1]), node)
      decreases Universe(graph) - visited - activeSet
    {
      hide Distinct, IsWalk, IsSimpleCycle, Ranked, Closes, Universe, HasSets, ClosesOnce, ClosesFrom, AddsOnly, AddsNothingTo, ClosesOnly;
      ghost var known, from := visited + activeSet, if active == [] then None else Some(active[|active| - 1]);
      SameReports(found, known, from, node);
      if node in activeSet { Report(node); return; }
      if node in visited { return; }
      NothingAdded(found, known, node);
      Enter(node);
      var dependencies := Dependencies(graph, node);
      for i := 0 to |dependencies|
        invariant Valid() && active == old(active) + [node] && activeSet == old(activeSet) + {node}
        invariant old(visited) <= visited && old(found) <= found
        invariant Settled(visited, found, node, dependencies[..i])
        invariant ClosesOnly(found, node, dependencies[..i])
        invariant AddsNothingTo(old(found), found, known)
      {
        ghost var before, done := found, visited;
        if HasSets(graph) { NextIsNew(graph, node, i, found); }
        EdgesStayInside(graph, node, dependencies[i]);
        Visit(dependencies[i]);
        SettledGrows(done, visited, before, found, node, dependencies[..i]);
        OneAdded(old(found), before, found, known, done + activeSet, node, dependencies[..i], dependencies[i]);
        assert dependencies[..i + 1] == dependencies[..i] + [dependencies[i]];
      }
      assert dependencies[..|dependencies|] == dependencies;
      NothingIsOnly(old(found), found, known, from, node);
      Leave(node);
      assert active == old(active);
    }

    method Enter(node: string)
      requires Valid() && node !in activeSet && node !in visited
      requires active != [] ==> Edge(graph, active[|active| - 1], node)
      modifies this`active, this`activeSet
      ensures Valid() && active == old(active) + [node] && activeSet == old(activeSet) + {node}
    {
      active := active + [node];
      activeSet := activeSet + {node};
    }

    /** The last node of the active path is finished. */
    method Leave(node: string)
      requires Valid() && active != [] && active[|active| - 1] == node
      requires Settled(visited, found, node, Dependencies(graph, node))
      modifies this`active, this`activeSet, this`visited, this`finished
      ensures Valid() && active == old(active)[..|old(active)| - 1] && activeSet == old(activeSet) - {node}
      ensures visited == old(visited) + {node}
    {
      assert active == active[..|active| - 1] + [node];
      RankedExtends(graph, finished, found, node);
      active := active[..|active| - 1];
      activeSet := activeSet - {node};
      visited := visited + {node};
      finished := finished + [node];
    }
  }

  /**
   `keys` lists the graph's keys in insertion order. The result is empty exactly for a graph
   without closed walks.
   */
  method Cycles(graph: Graph, keys: seq<string>) returns (found: seq<seq<string>>)
    requires Elements(keys) == graph.Keys
    ensures forall k :: 0 <= k < |found| ==> IsSimpleCycle(graph, found[k])
    ensures forall walk :: IsClosedWalk(graph, walk) ==> exists i :: 0 <= i < |walk| - 1 && Closes(found, walk[i], walk[i + 1])
    ensures found == [] <==> forall walk :: !IsClosedWalk(graph, walk)
    ensures HasSets(graph) ==> ClosesOnce(found)
  {
    var finder := new CycleFinder(graph);
    for i := 0 to |keys|
      invariant finder.Valid() && finder.active == [] && finder.graph == graph
      invariant forall j :: 0 <= j < i ==> keys[j] in finder.visited
    {
      assert keys[i] in Elements(keys);
      finder.Visit(keys[i]);
    }
    found := finder.found;
    forall node | node in graph ensures node in finder.finished {
      assert node in Elements(keys);
    }
    forall walk | IsClosedWalk(graph, walk) ensures exists i :: 0 <= i < |walk| - 1 && Closes(found, walk[i], walk[i + 1]) {
      ClosedWalkIsReported(graph, finder.finished, found, walk);
    }
    if found != [] { assert IsClosedWalk(graph, found[0]); }
  }
}

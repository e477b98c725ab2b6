/**
 Ordering the kickstart graph: nodes that lead to HEAD or come from TAIL are
 marked, edges from HEAD and to TAIL are added, and a last search gives the
 order.  The handlers of the search are written where it calls them.
 */
module KickstartOrder {
  import opened Reachability
  import opened DepthFirst
  import opened OrderGraph
  import opened Sequences

  // A node as it is left by the search: when, and for which edge's generator.
  datatype Left = Left(time: int, node: Node, gen: string)

  function OutNames(out: seq<(Node, string)>): (r: seq<Name>)
    ensures |r| == |out|
  {
    seq(|out|, i requires 0 <= i < |out| => out[i].0.name)
  }

  ghost predicate ByTime(nodes: seq<Left>) {
    forall i, j | 0 <= i < j < |nodes| :: nodes[i].time < nodes[j].time
  }

  ghost predicate Sorted(nodes: seq<Left>) {
    forall i, j | 0 <= i < j < |nodes| :: nodes[i].time <= nodes[j].time
  }

  // Sorts by the time each node was left.  The search leaves nodes at rising
  // times, so there is nothing to move.
  method SortByTime(nodes: seq<Left>) returns (r: seq<Left>)
    ensures multiset(r) == multiset(nodes) && Sorted(r)
    ensures ByTime(nodes) ==> r == nodes
  {
    r := [];
    var n := 0;
    while n < |nodes|
      invariant 0 <= n <= |nodes| && multiset(r) == multiset(nodes[..n]) && Sorted(r)
      invariant ByTime(nodes) ==> r == nodes[..n]
    {
      assert nodes[..n + 1] == nodes[..n] + [nodes[n]];
      assert ByTime(nodes) ==> forall i | 0 <= i < n :: nodes[..n][i].time < nodes[n].time;
      r := InsertByTime(r, nodes[n]);
      n := n + 1;
    }
    assert nodes[..n] == nodes;
  }

  method InsertByTime(nodes: seq<Left>, x: Left) returns (r: seq<Left>)
    requires Sorted(nodes)
    ensures multiset(r) == multiset(nodes) + multiset{x} && Sorted(r)
    ensures (forall i | 0 <= i < |nodes| :: nodes[i].time < x.time) ==> r == nodes + [x]
  {
    hide Sorted;
    var k := |nodes|;
    while k > 0 && nodes[k - 1].time > x.time
      invariant 0 <= k <= |nodes|
      invariant k < |nodes| ==> x.time <= nodes[k].time && nodes[|nodes| - 1].time > x.time
    {
      k := k - 1;
    }
    PutIn(nodes, k, x);
    InsertKeepsSorted(nodes, x, k);
    r := nodes[..k] + [x] + nodes[k..];
  }

  lemma InsertKeepsSorted(nodes: seq<Left>, x: Left, k: nat)
    requires Sorted(nodes) && k <= |nodes|
    requires (k > 0 ==> nodes[k - 1].time <= x.time) && (k < |nodes| ==> x.time <= nodes[k].time)
    ensures Sorted(nodes[..k] + [x] + nodes[k..])
  {
    assert forall i | 0 <= i < k :: nodes[i].time <= nodes[k - 1].time;
    SortedConcat(nodes[..k], [x]);
    SortedConcat(nodes[..k] + [x], nodes[k..]);
  }

  lemma SortedConcat(a: seq<Left>, b: seq<Left>)
    requires Sorted(a) && Sorted(b) && forall l, m | l in a && m in b :: l.time <= m.time
    ensures Sorted(a + b)
  {
  }

  function Names(nodes: seq<Left>): (r: seq<Name>)
    ensures |r| == |nodes|
  {
    seq(|nodes|, i requires 0 <= i < |nodes| => nodes[i].node.name)
  }

  const HEAD: Name := "HEAD"
  const TAIL: Name := "TAIL"

  // The nodes that get an edge from HEAD: nothing leads to them, and they do not
  // lead to HEAD.
  ghost function Lone(es: Edges<Name>, names: set<Name>): set<Name> {
    set s | s in names && IsSource(es, s) && !Reaches(es, s, HEAD)
  }

  // The nodes that get an edge to TAIL: they lead nowhere, and do not come from TAIL.
  ghost function Loose(es: Edges<Name>, names: set<Name>): set<Name> {
    set s | s in names && IsSink(es, s) && !Reaches(es, TAIL, s)
  }

  lemma LoneWithin(es: Edges<Name>, names: set<Name>)
    ensures es + Out(HEAD, Lone(es, names) * names) == WithHead(es, names)
  {
    assert Lone(es, names) * names == Lone(es, names);
  }

  lemma LooseWithin(es: Edges<Name>, names: set<Name>)
    ensures es + Into(Loose(es, names) * names, TAIL) == WithTail(es, names)
  {
    assert Loose(es, names) * names == Loose(es, names);
  }

  ghost function WithHead(es: Edges<Name>, names: set<Name>): Edges<Name> {
    es + Out(HEAD, Lone(es, names))
  }

  ghost function WithTail(es: Edges<Name>, names: set<Name>): Edges<Name> {
    es + Into(Loose(es, names), TAIL)
  }

  // The graph as it is finally ordered.
  ghost function Completed(es: Edges<Name>, names: set<Name>): Edges<Name> {
    WithTail(WithHead(es, names), names)
  }

  // The added edges make no cycle.
  lemma CompletedIsAcyclic(es: Edges<Name>, names: set<Name>)
    requires Acyclic(es)
    ensures Acyclic(WithHead(es, names)) && Acyclic(Completed(es, names))
  {
    OutKeepsAcyclic(es, HEAD, Lone(es, names));
    IntoKeepsAcyclic(WithHead(es, names), Loose(WithHead(es, names), names), TAIL);
  }

  ghost predicate OrderedIfAcyclic(es: Edges<Name>, names: set<Name>, out: seq<Name>) {
    Acyclic(es) ==> IsTopological(es, names, out)
  }

  // Without cycles a source leads to every node, and all edges lead forward.
  lemma ListedIsOrdered(es: Edges<Name>, names: set<Name>, out: seq<Name>)
    requires Within(es, names) && ListsFromSources(es, names, out)
    ensures OrderedIfAcyclic(es, names, out)
  {
    if Acyclic(es) {
      forall n
        ensures n in names <==> FromSource(es, names, n)
      {
        if n in names {
          var s := SourceAbove(es, names, n, {});
        } else if a :| a in names && IsSource(es, a) && Reaches(es, a, n) {
          ClosedHoldsReached(es, names, a, n);
        }
      }
    }
  }

  // Where the completed graph is ordered if it can be, it is ordered exactly when
  // the given graph has no cycle.
  lemma OrderedIffAcyclic(es: Edges<Name>, names: set<Name>, out: seq<Name>)
    requires Within(es, names) && HEAD in names && TAIL in names
    requires OrderedIfAcyclic(Completed(es, names), names, out)
    ensures Acyclic(es) <==> IsTopological(Completed(es, names), names, out)
  {
    var es' := Completed(es, names);
    if Acyclic(es) {
      CompletedIsAcyclic(es, names);
    }
    if IsTopological(es', names, out) {
      assert Within(es', names);
      OnlyAcyclicIsOrdered(es', names, out);
      forall a, b | (a, b) in es
        ensures !Reaches(es, b, a)
      {
        if Reaches(es, b, a) {
          ReachesMore(es, es', b, a);
        }
      }
    }
  }

  // Where nothing leads to HEAD, HEAD ends up the only node nothing leads to.
  lemma HeadIsOnlySource(es: Edges<Name>, names: set<Name>, s: Name)
    requires IsSource(es, HEAD) && s in names && IsSource(Completed(es, names), s)
    ensures s == HEAD
  {
    assert forall m | (m, s) in WithHead(es, names) :: (m, s) in Completed(es, names);
    assert IsSource(es, s);
    assert s in Lone(es, names) ==> (HEAD, s) in WithHead(es, names);
    if Reaches(es, s, HEAD) {
      OnlySelfReachesSource(es, s, HEAD);
    }
  }

  // Where TAIL leads nowhere, TAIL ends up the only node that leads nowhere.
  lemma TailIsOnlySink(es: Edges<Name>, names: set<Name>, s: Name)
    requires IsSink(es, TAIL) && s in names && IsSink(Completed(es, names), s)
    ensures s == TAIL
  {
    var es' := WithHead(es, names);
    assert IsSink(es', TAIL);
    assert forall m | (s, m) in es' :: (s, m) in Completed(es, names);
    assert IsSink(es', s);
    assert s in Loose(es', names) ==> (s, TAIL) in Completed(es, names);
    if Reaches(es', TAIL, s) {
      SinkReachesOnlySelf(es', TAIL, s);
    }
  }

  lemma CompletedWithin(es: Edges<Name>, names: set<Name>)
    requires Within(es, names) && HEAD in names && TAIL in names
    ensures Within(Completed(es, names), names)
  {
  }

  // A topological order of the completed graph begins with HEAD when nothing leads to HEAD.
  lemma HeadComesFirst(es: Edges<Name>, names: set<Name>, out: seq<Name>)
    requires Acyclic(es) && Within(es, names) && HEAD in names && TAIL in names && IsSource(es, HEAD)
    requires IsTopological(Completed(es, names), names, out)
    ensures out != [] && out[0] == HEAD
  {
    hide Completed, Reaches, Acyclic, IsTopological, Within, IsSource;
    var es' := Completed(es, names);
    CompletedIsAcyclic(es, names);
    CompletedWithin(es, names);
    forall s | s in names && IsSource(es', s)
      ensures s == HEAD
    {
      HeadIsOnlySource(es, names, s);
    }
    OnlySourceComesFirst(es', names, out, HEAD);
  }

  // It ends with TAIL when TAIL leads nowhere.
  lemma TailComesLast(es: Edges<Name>, names: set<Name>, out: seq<Name>)
    requires Acyclic(es) && Within(es, names) && HEAD in names && TAIL in names && IsSink(es, TAIL)
    requires IsTopological(Completed(es, names), names, out)
    ensures out != [] && out[|out| - 1] == TAIL
  {
    hide Completed, Reaches, Acyclic, IsTopological, Within, IsSink;
    var es' := Completed(es, names);
    CompletedIsAcyclic(es, names);
    CompletedWithin(es, names);
    forall s | s in names && IsSink(es', s)
      ensures s == TAIL
    {
      TailIsOnlySink(es, names, s);
    }
    OnlySinkComesLast(es', names, out, TAIL);
  }

  lemma FreshName(list: seq<Node>, i: nat)
    requires i < |list| && forall j, k | 0 <= j < k < |list| :: list[j].name != list[k].name
    ensures NamesOf(list[..i + 1]) == NamesOf(list[..i]) + {list[i].name}
    ensures list[i].name !in NamesOf(list[..i])
  {
    assert list[..i + 1] == list[..i] + [list[i]];
    NamesOfAppend(list[..i], list[i]);
  }

  // Of the first i nodes, those that no edge enters are in visited.
  ghost predicate SourcesIn(es: Edges<Name>, list: seq<Node>, i: nat, visited: set<Name>) {
    i <= |list| && forall j | 0 <= j < i && IsSource(es, list[j].name) :: list[j].name in visited
  }

  lemma SourcesInNext(es: Edges<Name>, list: seq<Node>, i: nat, visited: set<Name>, visited': set<Name>)
    requires SourcesIn(es, list, i, visited) && visited <= visited' && i < |list|
    requires IsSource(es, list[i].name) ==> list[i].name in visited'
    ensures SourcesIn(es, list, i + 1, visited')
  {
  }

  ghost predicate FirstIn(list: seq<Name>, i: nat, visited: set<Name>) {
    i <= |list| && forall j | 0 <= j < i :: list[j] in visited
  }

  lemma FirstInNext(list: seq<Name>, i: nat, visited: set<Name>, visited': set<Name>)
    requires FirstIn(list, i, visited) && visited <= visited' && i < |list| && list[i] in visited'
    ensures FirstIn(list, i + 1, visited')
  {
  }

  class OrderIterator {
    const graph: Graph
    var visited: map<Name, bool>
    var finished: map<Name, bool>
    var mark: map<Name, bool>
    var time: int
    var nodes: seq<Left>

    constructor (graph: Graph)
      ensures this.graph == graph && fresh(this)
    {
      this.graph := graph;
      visited, finished, mark := map[], map[], map[];
      time, nodes := 0, [];
    }

    ghost function Visited(): set<Name>
      reads `visited
    {
      set s | s in visited && visited[s]
    }

    ghost function Marked(): set<Name>
      reads `mark
    {
      set s | s in mark && mark[s]
    }

    // The names of the nodes left so far.
    ghost function Done(): seq<Name>
      reads `nodes
    {
      Names(nodes)
    }

    // The search knows all nodes, marks those it comes to besides those of m0, and
    // records when it leaves each.
    ghost predicate Searching(m0: set<Name>)
      reads this, graph
    {
      && visited.Keys == graph.nodes.Keys == mark.Keys && Marked() == m0 + Visited()
      && (forall l | l in nodes :: graph.Registered(l.node) && l.time <= time)
      && ByTime(nodes)
    }

    // Searches from parent, which has not been visited: everything it newly comes
    // to is left again, parent last.
    method Visit(parent: Node, edge: Edge?, ghost es: Edges<Name>, ghost m0: set<Name>)
      requires graph.Follows(es) && Searching(m0) && graph.Registered(parent) && parent.name !in Visited()
      requires Explored(es, Visited(), Done()) && OpenLeadTo(es, Visited(), Done(), parent.name)
      modifies this
      ensures Searching(m0) && Progressed(es, parent.name, old(Visited()), old(Done()), Visited(), Done())
      ensures parent.name in Visited() && nodes != [] && nodes[|nodes| - 1].node == parent
      decreases graph.nodes.Keys - Visited(), 0
    {
      ghost var v0, f0 := Visited(), Done();
      VisitHandler(parent, m0);
      Enter(es, v0, f0, parent.name);
      VisitChildren(parent.name, es, v0 + {parent.name}, f0, m0);
      LeaveRoot(es, parent.name, v0, f0, Visited(), Done());
      FinishHandler(parent, edge, m0);
    }

    method VisitChildren(parent: Name, ghost es: Edges<Name>, ghost v0: set<Name>, ghost f0: seq<Name>,
                         ghost m0: set<Name>)
      requires graph.Follows(es) && Searching(m0) && Visited() == v0 && Done() == f0 && parent in v0
      requires Explored(es, v0, f0) && OpenLeadTo(es, v0, f0, parent)
      modifies this
      ensures Searching(m0) && Progressed(es, parent, v0, f0, Visited(), Done())
      ensures OpenLeadTo(es, Visited(), Done(), parent)
      ensures forall m | (parent, m) in es :: m in Visited()
      decreases graph.nodes.Keys - Visited(), 2
    {
      var list := graph.EdgesFrom(parent);
      ghost var targets := graph.Targets(es, parent);
      var i := 0;
      while i < |list|
        invariant 0 <= i <= |list| && Searching(m0) && v0 <= Visited()
        invariant Progressed(es, parent, v0, f0, Visited(), Done())
        invariant OpenLeadTo(es, Visited(), Done(), parent)
        invariant FirstIn(targets, i, Visited())
      {
        ghost var v := Visited();
        VisitChild(parent, list[i], es, v0, f0, m0);
        FirstInNext(targets, i, v, Visited());
        i := i + 1;
      }
    }

    method VisitChild(parent: Name, edge: Edge, ghost es: Edges<Name>, ghost v0: set<Name>, ghost f0: seq<Name>,
                      ghost m0: set<Name>)
      requires graph.Follows(es) && Searching(m0) && parent in graph.nodes && edge in graph.EdgesFrom(parent)
      requires Progressed(es, parent, v0, f0, Visited(), Done()) && OpenLeadTo(es, Visited(), Done(), parent)
      modifies this
      ensures Searching(m0) && edge.GetChild().name in Visited() && old(Visited()) <= Visited()
      ensures Progressed(es, parent, v0, f0, Visited(), Done()) && OpenLeadTo(es, Visited(), Done(), parent)
      decreases graph.nodes.Keys - Visited(), 1
    {
      var child := edge.GetChild();
      assert (parent, child.name) in es;
      if !visited[child.name] {
        ghost var v, f := Visited(), Done();
        Descend(es, v, f, parent, child.name);
        Visit(child, edge, es, m0);
        Below(es, parent, child.name, v0, f0, v, f, Visited(), Done());
        StillOpen(es, child.name, v, f, Visited(), Done(), parent);
      }
    }

    method VisitHandler(n: Node, ghost m0: set<Name>)
      requires Searching(m0) && n.name in visited
      modifies this`visited, this`mark, this`time
      ensures Searching(m0) && time == old(time) + 1
      ensures Visited() == old(Visited()) + {n.name} && Marked() == old(Marked()) + {n.name}
    {
      visited := visited[n.name := true];
      mark := mark[n.name := true];
      time := time + 1;
      assert Visited() == old(Visited()) + {n.name};
      assert Marked() == old(Marked()) + {n.name};
    }

    method FinishHandler(n: Node, edge: Edge?, ghost m0: set<Name>)
      requires Searching(m0) && graph.Registered(n)
      modifies this`finished, this`time, this`nodes
      ensures Searching(m0) && time == old(time) + 1
      ensures nodes == old(nodes) + [Left(time, n, if edge == null then "" else edge.gen)]
      ensures Done() == old(Done()) + [n.name]
    {
      finished := finished[n.name := true];
      time := time + 1;
      var gen := if edge == null then "" else edge.gen;
      nodes := nodes + [Left(time, n, gen)];
    }

    // Searches from root, or else from every node that no edge enters.
    method Search(root: Node?, ghost es: Edges<Name>, ghost m0: set<Name>)
      requires graph.Searchable(es)
      requires root != null ==> graph.Registered(root)
      requires nodes == [] && visited.Keys <= graph.nodes.Keys == mark.Keys && Marked() == m0
      modifies this
      ensures Searched(es, m0)
      ensures root != null ==> forall s :: s in Visited() <==> Reaches(es, root.name, s)
      ensures root == null ==> forall s :: s in Visited() <==> FromSource(es, graph.nodes.Keys, s)
    {
      var list := StartAfresh(es, m0);
      if root != null {
        SearchFrom(root, es, m0);
      } else {
        SearchAll(list, es, m0);
      }
    }

    method SearchFrom(root: Node, ghost es: Edges<Name>, ghost m0: set<Name>)
      requires graph.Follows(es) && Searching(m0) && Visited() == {} && nodes == [] && graph.Registered(root)
      modifies this
      ensures Searched(es, m0) && forall s :: s in Visited() <==> Reaches(es, root.name, s)
    {
      Visit(root, null, es, m0);
      ReachedFromRoot(root.name, es, m0);
    }

    method SearchAll(list: seq<Node>, ghost es: Edges<Name>, ghost m0: set<Name>)
      requires graph.Follows(es) && Searching(m0) && Visited() == {} && nodes == []
      requires NamesOf(list) == graph.nodes.Keys && Known(list, es)
      modifies this
      ensures Searched(es, m0) && forall s :: s in Visited() <==> FromSource(es, graph.nodes.Keys, s)
    {
      VisitSources(list, es, m0);
      FromSourcesVisited(list, es, m0);
    }

    method StartAfresh(ghost es: Edges<Name>, ghost m0: set<Name>) returns (list: seq<Node>)
      requires graph.Named() && graph.TellsSources(es)
      requires nodes == [] && visited.Keys <= graph.nodes.Keys == mark.Keys && Marked() == m0
      modifies this`visited, this`finished
      ensures NamesOf(list) == graph.nodes.Keys && Known(list, es)
      ensures Searching(m0) && Visited() == {}
    {
      list := graph.GetNodes();
      Forget(list);
    }

    // A search has ended: all it came to has been left.
    ghost predicate Searched(es: Edges<Name>, m0: set<Name>)
      reads this, graph
    {
      Searching(m0) && Explored(es, Visited(), Done()) && Visited() == Elements(Done())
    }

    // Nothing counts as visited yet.
    method Forget(list: seq<Node>)
      requires visited.Keys <= NamesOf(list)
      modifies this`visited, this`finished
      ensures visited.Keys == NamesOf(list) && Visited() == {}
    {
      var i := 0;
      while i < |list|
        invariant 0 <= i <= |list|
        invariant visited.Keys == old(visited.Keys) + NamesOf(list[..i])
        invariant forall s | s in NamesOf(list[..i]) :: !visited[s]
      {
        visited := visited[list[i].name := false];
        finished := finished[list[i].name := false];
        assert list[..i + 1] == list[..i] + [list[i]];
        NamesOfAppend(list[..i], list[i]);
        i := i + 1;
      }
      assert list[..i] == list;
    }

    lemma ReachedFromRoot(root: Name, es: Edges<Name>, m0: set<Name>)
      requires Searching(m0) && Progressed(es, root, {}, [], Visited(), Done()) && root in Visited()
      ensures Searched(es, m0) && forall s :: s in Visited() <==> Reaches(es, root, s)
    {
      LeftAll(es, root, Visited(), Done());
      forall s | Reaches(es, root, s)
        ensures s in Visited()
      {
        SeenIsReached(es, Visited(), Done(), root, s);
      }
    }

    method VisitSources(list: seq<Node>, ghost es: Edges<Name>, ghost m0: set<Name>)
      requires graph.Follows(es) && Searching(m0) && Visited() == {} && nodes == [] && Known(list, es)
      modifies this
      ensures Searched(es, m0)
      ensures SourcesIn(es, list, |list|, Visited())
      ensures forall s | s in Visited() :: FromSource(es, graph.nodes.Keys, s)
    {
      hide FromSource, Reaches;
      var i := 0;
      while i < |list|
        invariant 0 <= i <= |list| && Searched(es, m0)
        invariant SourcesIn(es, list, i, Visited())
        invariant forall s | s in Visited() :: FromSource(es, graph.nodes.Keys, s)
      {
        ghost var v := Visited();
        VisitSource(list[i], es, m0);
        SourcesInNext(es, list, i, v, Visited());
        i := i + 1;
      }
    }

    // The listed nodes belong to the graph, and their in-degrees tell its sources.
    ghost predicate Known(list: seq<Node>, es: Edges<Name>)
      reads graph, list
    {
      forall n | n in list :: graph.Registered(n) && (n.inDegree == 0 <==> IsSource(es, n.name))
    }

    method VisitSource(n: Node, ghost es: Edges<Name>, ghost m0: set<Name>)
      requires graph.Follows(es) && Searched(es, m0) && Known([n], es)
      modifies this
      ensures Searched(es, m0) && old(Visited()) <= Visited()
      ensures IsSource(es, n.name) ==> n.name in Visited()
      ensures forall s | s in Visited() - old(Visited()) :: FromSource(es, graph.nodes.Keys, s)
    {
      assert n in [n];
      if !(visited[n.name] || n.inDegree != 0) {
        ghost var v, f := Visited(), Done();
        Visit(n, null, es, m0);
        LeftAllAgain(es, n.name, v, f, Visited(), Done());
      }
    }

    lemma FromSourcesVisited(list: seq<Node>, es: Edges<Name>, m0: set<Name>)
      requires graph.Follows(es) && Searched(es, m0)
      requires NamesOf(list) == graph.nodes.Keys && SourcesIn(es, list, |list|, Visited())
      requires forall s | s in Visited() :: FromSource(es, graph.nodes.Keys, s)
      ensures forall s :: s in Visited() <==> FromSource(es, graph.nodes.Keys, s)
    {
      forall n | FromSource(es, graph.nodes.Keys, n)
        ensures n in Visited()
      {
        var s :| s in graph.nodes.Keys && IsSource(es, s) && Reaches(es, s, n);
        assert s in NamesOf(list);
        var j :| 0 <= j < |list| && list[j].name == s;
        SeenIsReached(es, Visited(), Done(), s, n);
      }
    }

    // ----- marking, and adding edges

    method ClearMarks()
      requires graph.Named() && mark.Keys <= graph.nodes.Keys
      modifies this`mark, this`nodes, this`time
      ensures mark.Keys == graph.nodes.Keys && Marked() == {} && nodes == []
    {
      nodes, time := [], 0;
      var list := graph.GetNodes();
      var i := 0;
      while i < |list|
        invariant 0 <= i <= |list| && nodes == []
        invariant mark.Keys == old(mark.Keys) + NamesOf(list[..i])
        invariant forall s | s in NamesOf(list[..i]) :: !mark[s]
      {
        mark := mark[list[i].name := false];
        assert list[..i + 1] == list[..i] + [list[i]];
        NamesOfAppend(list[..i], list[i]);
        i := i + 1;
      }
      assert list[..i] == list;
    }

    // Adds an edge from HEAD to every unmarked node that no edge enters; those are the ones in some.
    method AddHeadEdges(head: Node, ghost es: Edges<Name>, ghost some: set<Name>)
      requires HeadEdgesFor(es, some, {}) && graph.Registered(head) && head.name == HEAD
      modifies graph, graph.nodes.Values
      ensures HeadEdgesFor(es, some, graph.nodes.Keys) && graph.nodes == old(graph.nodes)
    {
      var list := graph.GetNodes();
      AllInCons(head, list, graph.nodes);
      AddHeadEdgesFor(list, head, es, some);
    }

    method AddHeadEdgesFor(list: seq<Node>, head: Node, ghost es: Edges<Name>, ghost some: set<Name>)
      requires HeadEdgesFor(es, some, {}) && AllIn([head] + list, graph.nodes) && head.name == HEAD
      requires forall i, j | 0 <= i < j < |list| :: list[i].name != list[j].name
      modifies graph, graph.nodes.Values
      ensures HeadEdgesFor(es, some, NamesOf(list)) && graph.nodes == old(graph.nodes)
    {
      hide PicksHead, PicksTail, Out, Into, Graph.Structure, Graph.Counted, Graph.Pairs;
      ghost var nodes0, all := graph.nodes, [head] + list;
      assert NamesOf(list[..0]) == {};
      InValues(all, nodes0, 0);
      var i := 0;
      while i < |list|
        invariant 0 <= i <= |list| && graph.nodes == nodes0
        invariant HeadEdgesFor(es, some, NamesOf(list[..i]))
      {
        FreshName(list, i);
        InValues(all, nodes0, i + 1);
        AddHeadEdge(head, list[i], es, some, NamesOf(list[..i]));
        i := i + 1;
      }
      assert list[..i] == list;
    }

    // Of the nodes not in names, some are the unmarked ones that no edge enters.
    ghost predicate PicksHead(some: set<Name>, names: set<Name>)
      reads this, graph, graph.nodes.Values
    {
      forall s | s in graph.nodes && s !in names ::
          s in mark && (s in some <==> !mark[s] && graph.nodes[s].inDegree == 0)
    }

    // The edges for the nodes of names have been added to es.
    ghost predicate HeadEdgesFor(es: Edges<Name>, some: set<Name>, names: set<Name>)
      reads this, graph, graph.edges, graph.nodes.Values
    {
      graph.Valid() && PicksHead(some, names) && graph.Pairs() == es + Out(HEAD, some * names)
    }

    method AddHeadEdge(head: Node, n: Node, ghost es: Edges<Name>, ghost some: set<Name>, ghost names: set<Name>)
      requires HeadEdgesFor(es, some, names) && n.name !in names
      requires graph.Registered(n) && graph.Registered(head) && head.name == HEAD
      modifies graph, head, n
      ensures HeadEdgesFor(es, some, names + {n.name}) && graph.nodes == old(graph.nodes)
    {
      hide Graph.Structure, Graph.Counted, Graph.Pairs, Out, Into;
      OutGrows(graph.Pairs(), es, HEAD, some, names, n.name);
      if !mark[n.name] && n.inDegree == 0 {
        graph.Connect(head, n, "");
      }
    }

    // Adds an edge to TAIL from every unmarked node that no edge leaves; those are the ones in some.
    method AddTailEdges(tail: Node, ghost es: Edges<Name>, ghost some: set<Name>)
      requires TailEdgesFor(es, some, {}) && graph.Registered(tail) && tail.name == TAIL
      modifies graph, graph.nodes.Values
      ensures TailEdgesFor(es, some, graph.nodes.Keys) && graph.nodes == old(graph.nodes)
    {
      var list := graph.GetNodes();
      AllInCons(tail, list, graph.nodes);
      AddTailEdgesFor(list, tail, es, some);
    }

    method AddTailEdgesFor(list: seq<Node>, tail: Node, ghost es: Edges<Name>, ghost some: set<Name>)
      requires TailEdgesFor(es, some, {}) && AllIn([tail] + list, graph.nodes) && tail.name == TAIL
      requires forall i, j | 0 <= i < j < |list| :: list[i].name != list[j].name
      modifies graph, graph.nodes.Values
      ensures TailEdgesFor(es, some, NamesOf(list)) && graph.nodes == old(graph.nodes)
    {
      hide PicksHead, PicksTail, Out, Into, Graph.Structure, Graph.Counted, Graph.Pairs;
      ghost var nodes0, all := graph.nodes, [tail] + list;
      assert NamesOf(list[..0]) == {};
      InValues(all, nodes0, 0);
      var i := 0;
      while i < |list|
        invariant 0 <= i <= |list| && graph.nodes == nodes0
        invariant TailEdgesFor(es, some, NamesOf(list[..i]))
      {
        FreshName(list, i);
        InValues(all, nodes0, i + 1);
        AddTailEdge(tail, list[i], es, some, NamesOf(list[..i]));
        i := i + 1;
      }
      assert list[..i] == list;
    }

    // Of the nodes not in names, some are the unmarked ones that no edge leaves.
    ghost predicate PicksTail(some: set<Name>, names: set<Name>)
      reads this, graph, graph.nodes.Values
    {
      forall s | s in graph.nodes && s !in names ::
          s in mark && (s in some <==> !mark[s] && graph.nodes[s].outDegree == 0)
    }

    // The edges for the nodes of names have been added to es.
    ghost predicate TailEdgesFor(es: Edges<Name>, some: set<Name>, names: set<Name>)
      reads this, graph, graph.edges, graph.nodes.Values
    {
      graph.Valid() && PicksTail(some, names) && graph.Pairs() == es + Into(some * names, TAIL)
    }

    method AddTailEdge(tail: Node, n: Node, ghost es: Edges<Name>, ghost some: set<Name>, ghost names: set<Name>)
      requires TailEdgesFor(es, some, names) && n.name !in names
      requires graph.Registered(n) && graph.Registered(tail) && tail.name == TAIL
      modifies graph, tail, n
      ensures TailEdgesFor(es, some, names + {n.name}) && graph.nodes == old(graph.nodes)
    {
      hide Graph.Structure, Graph.Counted, Graph.Pairs, Out, Into;
      IntoGrows(graph.Pairs(), es, TAIL, some, names, n.name);
      if !mark[n.name] && n.outDegree == 0 {
        graph.Connect(n, tail, "");
      }
    }

    // ----- the three passes

    // The dictionaries mention nodes of the graph only.
    ghost predicate Ready()
      reads this, graph
    {
      visited.Keys <= graph.nodes.Keys && mark.Keys <= graph.nodes.Keys
    }

    // First pass: marks the nodes that lead to HEAD, by searching the reversed graph.
    method MarkToHead(head: Node, ghost es: Edges<Name>)
      requires graph.Shows(es) && Ready() && graph.Registered(head)
      modifies this, graph, graph.edges, graph.nodes.Values
      ensures graph.Shows(es) && Ready() && graph.nodes == old(graph.nodes) && graph.edges == old(graph.edges)
      ensures forall e | e in graph.edges :: e.isReversed == old(e.isReversed)
      ensures forall s | s in graph.nodes ::
                graph.nodes[s].inDegree == old(graph.nodes[s].inDegree) &&
                graph.nodes[s].outDegree == old(graph.nodes[s].outDegree)
      ensures mark.Keys == graph.nodes.Keys && MarksLeadingTo(es, head.name)
    {
      hide Graph.Structure, Graph.Counted, Graph.Pairs, Acyclic, Reaches, IsTopological, Completed, WithHead, WithTail;
      graph.ReverseShown(es);
      graph.ShowsSearchable(Flip(es));
      label Reversed:
      MarkFrom(head, Flip(es));
      graph.StillShows@Reversed(Flip(es));
      graph.ReverseShown(Flip(es));
      FlipTwice(es);
      MarksFlipped(es, head.name);
    }

    lemma MarksFlipped(es: Edges<Name>, n: Name)
      requires MarksComingFrom(Flip(es), n)
      ensures MarksLeadingTo(es, n)
    {
      forall s {
        FlipReaches(es, n, s);
      }
    }

    // Marks the nodes that root leads to; the second pass does so from TAIL.
    method MarkFrom(root: Node, ghost es: Edges<Name>)
      requires graph.Searchable(es) && Ready() && graph.Registered(root)
      modifies this
      ensures Ready()
      ensures mark.Keys == graph.nodes.Keys && MarksComingFrom(es, root.name)
    {
      ClearMarks();
      Search(root, es, {});
    }

    method ConnectHead(head: Node, ghost es: Edges<Name>)
      requires graph.Shows(es) && graph.Registered(head) && head.name == HEAD
      requires mark.Keys == graph.nodes.Keys && MarksLeadingTo(es, HEAD)
      modifies graph, graph.nodes.Values
      ensures graph.Shows(WithHead(es, graph.nodes.Keys)) && graph.nodes == old(graph.nodes)
    {
      ghost var some := Lone(es, graph.nodes.Keys);
      graph.ShowsSources(es);
      PicksLone(es);
      OutNone(es, HEAD, some);
      AddHeadEdges(head, es, some);
      LoneWithin(es, graph.nodes.Keys);
    }

    ghost predicate MarksLeadingTo(es: Edges<Name>, n: Name)
      reads `mark
    {
      forall s :: s in Marked() <==> Reaches(es, s, n)
    }

    ghost predicate MarksComingFrom(es: Edges<Name>, n: Name)
      reads `mark
    {
      forall s :: s in Marked() <==> Reaches(es, n, s)
    }

    lemma PicksLone(es: Edges<Name>)
      requires graph.TellsSources(es) && mark.Keys == graph.nodes.Keys && MarksLeadingTo(es, HEAD)
      ensures PicksHead(Lone(es, graph.nodes.Keys), {})
    {
      forall s | s in graph.nodes
        ensures s in Lone(es, graph.nodes.Keys) <==> !mark[s] && graph.nodes[s].inDegree == 0
      {
        assert s in Marked() <==> mark[s];
      }
    }

    lemma PicksLoose(es: Edges<Name>)
      requires graph.TellsSinks(es) && mark.Keys == graph.nodes.Keys && MarksComingFrom(es, TAIL)
      ensures PicksTail(Loose(es, graph.nodes.Keys), {})
    {
      forall s | s in graph.nodes
        ensures s in Loose(es, graph.nodes.Keys) <==> !mark[s] && graph.nodes[s].outDegree == 0
      {
        assert s in Marked() <==> mark[s];
      }
    }

    method ConnectTail(tail: Node, ghost es: Edges<Name>)
      requires graph.Shows(es) && graph.Registered(tail) && tail.name == TAIL
      requires mark.Keys == graph.nodes.Keys && MarksComingFrom(es, TAIL)
      modifies graph, graph.nodes.Values
      ensures graph.Shows(WithTail(es, graph.nodes.Keys)) && graph.nodes == old(graph.nodes)
    {
      ghost var some := Loose(es, graph.nodes.Keys);
      graph.ShowsSinks(es);
      PicksLoose(es);
      IntoNone(es, TAIL, some);
      AddTailEdges(tail, es, some);
      LooseWithin(es, graph.nodes.Keys);
    }

    // Third pass: searches the whole graph and lists it by falling finishing time.
    method Order(ghost es: Edges<Name>) returns (out: seq<(Node, string)>)
      requires graph.Searchable(es) && Ready() && mark.Keys == graph.nodes.Keys
      modifies this
      ensures ListsFromSources(es, graph.nodes.Keys, OutNames(out))
      ensures forall p | p in out :: graph.Registered(p.0)
    {
      nodes, time := [], 0;
      ghost var m0 := Marked();
      Search(null, es, m0);
      ReverseFinishLists(es, graph.nodes.Keys, Visited(), Done());
      out := LastLeftFirst(nodes, graph);
    }

    // The order is a topological one exactly when the given graph has no cycle.  With
    // cycles it still lists what the sources lead to, and leads forward along all edges
    // that are not on a cycle.
    method Run(ghost es: Edges<Name>) returns (out: seq<(Node, string)>)
      requires graph.Shows(es) && Ready()
      requires HEAD in graph.nodes && TAIL in graph.nodes
      modifies this, graph, graph.edges, graph.nodes.Values
      ensures graph.nodes == old(graph.nodes) && graph.Shows(Completed(es, graph.nodes.Keys))
      ensures Acyclic(es) <==> IsTopological(Completed(es, graph.nodes.Keys), graph.nodes.Keys, OutNames(out))
      ensures ListsFromSources(Completed(es, graph.nodes.Keys), graph.nodes.Keys, OutNames(out))
      ensures forall p | p in out :: graph.Registered(p.0)
    {
      hide Graph.Structure, Graph.Counted, Graph.Pairs, Acyclic, Reaches, IsTopological, Completed, WithHead, WithTail;
      ghost var names := graph.nodes.Keys;
      graph.PairsWithin();
      Complete(es);
      CompletedWithin(es, names);
      out := ThirdPass(Completed(es, names));
      ListedIsOrdered(Completed(es, names), names, OutNames(out));
      OrderedIffAcyclic(es, names, OutNames(out));
    }

    method Complete(ghost es: Edges<Name>)
      requires graph.Shows(es) && Ready() && HEAD in graph.nodes && TAIL in graph.nodes
      modifies this, graph, graph.edges, graph.nodes.Values
      ensures graph.Shows(Completed(es, graph.nodes.Keys)) && graph.nodes == old(graph.nodes)
      ensures Ready() && mark.Keys == graph.nodes.Keys
    {
      hide Graph.Structure, Graph.Counted, Graph.Pairs, Acyclic, Reaches, IsTopological, WithHead, WithTail;
      FirstPass(es);
      SecondPass(WithHead(es, graph.nodes.Keys));
    }

    method ThirdPass(ghost es: Edges<Name>) returns (out: seq<(Node, string)>)
      requires graph.Shows(es) && Ready() && mark.Keys == graph.nodes.Keys
      modifies this
      ensures graph.Shows(es) && ListsFromSources(es, graph.nodes.Keys, OutNames(out))
      ensures forall p | p in out :: graph.Registered(p.0)
    {
      hide Graph.Structure, Graph.Counted, Graph.Pairs, Acyclic, Reaches, IsTopological, Completed, WithHead, WithTail;
      graph.ShowsSearchable(es);
      out := Order(es);
      graph.StillShows(es);
    }

    method FirstPass(ghost es: Edges<Name>)
      requires graph.Shows(es) && Ready() && HEAD in graph.nodes
      modifies this, graph, graph.edges, graph.nodes.Values
      ensures graph.Shows(WithHead(es, graph.nodes.Keys)) && graph.nodes == old(graph.nodes) && Ready()
    {
      hide Graph.Counted, Graph.Pairs, Acyclic, Reaches, IsTopological, Completed, WithHead, WithTail;
      var head: Node := graph.GetNode(HEAD);
      MarkToHead(head, es);
      ConnectHead(head, es);
    }

    method SecondPass(ghost es: Edges<Name>)
      requires graph.Shows(es) && Ready() && TAIL in graph.nodes
      modifies this, graph, graph.nodes.Values
      ensures graph.Shows(WithTail(es, graph.nodes.Keys)) && graph.nodes == old(graph.nodes) && Ready()
      ensures mark.Keys == graph.nodes.Keys
    {
      hide Graph.Structure, Graph.Counted, Graph.Pairs, Acyclic, Reaches, IsTopological, Completed, WithHead, WithTail;
      var tail: Node := graph.GetNode(TAIL);
      graph.ShowsSearchable(es);
      MarkFrom(tail, es);
      graph.StillShows(es);
      ConnectTail(tail, es);
    }
  }

  // The nodes with their generators, those left last first.
  method LastLeftFirst(nodes: seq<Left>, graph: Graph) returns (out: seq<(Node, string)>)
    requires ByTime(nodes) && forall l | l in nodes :: graph.Registered(l.node)
    ensures OutNames(out) == Reversed(Names(nodes)) && forall p | p in out :: graph.Registered(p.0)
  {
    var sorted := SortByTime(nodes);
    out := [];
    var i := 0;
    while i < |sorted|
      invariant 0 <= i <= |sorted| && |out| == i
      invariant forall j | 0 <= j < i :: out[j] == (sorted[j].node, sorted[j].gen)
    {
      out := out + [(sorted[i].node, sorted[i].gen)];
      i := i + 1;
    }
    out := Reversed(out);
  }
}

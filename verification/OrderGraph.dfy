/**
 The graph of the kickstart order: nodes with their degrees, directed edges that
 can be reversed, and the adjacency lists.  Dictionaries keyed by node are keyed
 here by the node's name, which is unique in a graph.
 */
module OrderGraph {
  import opened Reachability

  type Name = string

  class Node {
    const name: Name
    var inDegree: int
    var outDegree: int

    constructor (name: Name)
      ensures this.name == name && inDegree == 0 && outDegree == 0
    {
      this.name := name;
      inDegree, outDegree := 0, 0;
    }

    method Reverse()
      modifies this
      ensures inDegree == old(outDegree) && outDegree == old(inDegree)
    {
      inDegree, outDegree := outDegree, inDegree;
    }
  }

  class Edge {
    const parent: Node
    const child: Node
    const gen: string
    var isReversed: bool

    constructor (a: Node, b: Node, gen: string)
      modifies a, b
      ensures parent == a && child == b && this.gen == gen && !isReversed
      ensures a.outDegree == old(a.outDegree) + 1 && b.inDegree == old(b.inDegree) + 1
      ensures a != b ==> a.inDegree == old(a.inDegree) && b.outDegree == old(b.outDegree)
    {
      parent, child, this.gen := a, b, gen;
      isReversed := false;
      new;
      a.outDegree := a.outDegree + 1;
      b.inDegree := b.inDegree + 1;
    }

    method Reverse()
      modifies this
      ensures isReversed == !old(isReversed)
    {
      if isReversed {
        isReversed := false;
      } else {
        isReversed := true;
      }
    }

    function GetParent(): Node
      reads this
    {
      if isReversed then child else parent
    }

    function GetChild(): Node
      reads this
    {
      if isReversed then parent else child
    }
  }

  function NamesOf(list: seq<Node>): set<Name> {
    set n | n in list :: n.name
  }

  lemma NamesOfAppend(list: seq<Node>, n: Node)
    ensures NamesOf(list + [n]) == NamesOf(list) + {n.name}
  {
    assert forall x :: x in list + [n] <==> x in list || x == n;
    assert n in list + [n];
  }

  // The lists deal out the edges of all: each edge is once in the list of its owner.
  ghost predicate Deals(lists: map<Name, seq<Edge>>, all: set<Edge>, owner: map<Edge, Name>) {
    && owner.Keys == all
    && (forall e | e in all :: owner[e] in lists && e in lists[owner[e]])
    && (forall s, e | s in lists && e in lists[s] :: e in all && owner[e] == s)
    && (forall s, i, j | s in lists && 0 <= i < j < |lists[s]| :: lists[s][i] != lists[s][j])
  }

  // The edges whose owners are not in todo.
  ghost function Dealt(owner: map<Edge, Name>, todo: set<Name>): set<Edge> {
    set e | e in owner && owner[e] !in todo
  }

  lemma DealtGrows(lists: map<Name, seq<Edge>>, all: set<Edge>, owner: map<Edge, Name>, todo: set<Name>, s: Name)
    requires Deals(lists, all, owner) && s in todo && todo <= lists.Keys
    ensures Dealt(owner, todo - {s}) == Dealt(owner, todo) + set e | e in lists[s]
    ensures forall e | e in lists[s] :: e in all && e !in Dealt(owner, todo)
  {
  }

  ghost predicate AllIn(list: seq<Node>, nodes: map<Name, Node>) {
    forall n | n in list :: n.name in nodes && nodes[n.name] == n
  }

  lemma AllInCons(n: Node, list: seq<Node>, nodes: map<Name, Node>)
    requires AllIn(list, nodes) && n.name in nodes && nodes[n.name] == n
    ensures AllIn([n] + list, nodes)
  {
  }

  lemma InValues(list: seq<Node>, nodes: map<Name, Node>, i: nat)
    requires AllIn(list, nodes) && i < |list|
    ensures list[i] in nodes.Values
  {
    assert nodes[list[i].name] in nodes.Values;
  }

  function WithNode(nodes: map<Name, Node>, n: Node): map<Name, Node> {
    if n.name in nodes then nodes else nodes[n.name := n]
  }

  class Graph {
    var adjList: map<Name, seq<Edge>>
    var nodes: map<Name, Node>
    // All edges of the graph.
    ghost var edges: set<Edge>

    constructor ()
      ensures Structure() && nodes == map[] && edges == {}
    {
      adjList, nodes, edges := map[], map[], {};
    }

    predicate Registered(n: Node)
      reads this
    {
      n.name in nodes && nodes[n.name] == n
    }

    // Every node is kept under its own name.
    ghost predicate Named()
      reads this
    {
      forall s | s in nodes :: nodes[s].name == s
    }

    // The lists hold each edge once, under the node it leaves.
    ghost predicate Structure()
      reads this, edges
    {
      && Named()
      && (forall e | e in edges :: Registered(e.parent) && Registered(e.child))
      && (forall e | e in edges :: e.GetParent().name in adjList && e in adjList[e.GetParent().name])
      && (forall s, e | s in adjList && e in adjList[s] :: e in edges && e.GetParent().name == s)
      && (forall s, i, j | s in adjList && 0 <= i < j < |adjList[s]| :: adjList[s][i] != adjList[s][j])
    }

    ghost function Leaving(s: Name): set<Edge>
      reads this, edges
    {
      set e | e in edges && e.GetParent().name == s
    }

    ghost function Entering(s: Name): set<Edge>
      reads this, edges
    {
      set e | e in edges && e.GetChild().name == s
    }

    // The degrees count the edges.
    ghost predicate CountedAt(s: Name)
      requires s in nodes
      reads this, edges, nodes.Values
    {
      nodes[s].inDegree == |Entering(s)| && nodes[s].outDegree == |Leaving(s)|
    }

    ghost predicate Counted()
      reads this, edges, nodes.Values
    {
      forall s | s in nodes :: CountedAt(s)
    }

    ghost predicate Valid()
      reads this, edges, nodes.Values
    {
      Structure() && Counted()
    }

    // The edges as pairs of names.
    ghost function Pairs(): Edges<Name>
      reads this, edges
    {
      set e | e in edges :: (e.GetParent().name, e.GetChild().name)
    }

    method GetNodes() returns (list: seq<Node>)
      requires Named()
      ensures AllIn(list, nodes) && NamesOf(list) == nodes.Keys
      ensures forall i, j | 0 <= i < j < |list| :: list[i].name != list[j].name
    {
      list := [];
      var todo := nodes.Keys;
      while todo != {}
        invariant todo <= nodes.Keys
        invariant AllIn(list, nodes)
        invariant NamesOf(list) == nodes.Keys - todo
        invariant forall i, j | 0 <= i < j < |list| :: list[i].name != list[j].name
        decreases todo
      {
        var s :| s in todo;
        assert forall i | 0 <= i < |list| :: list[i].name in NamesOf(list);
        NamesOfAppend(list, nodes[s]);
        list := list + [nodes[s]];
        todo := todo - {s};
      }
    }

    function GetNode(s: Name): Node?
      reads this
    {
      if s in nodes then nodes[s] else null
    }

    function EdgesFrom(s: Name): seq<Edge>
      reads this
    {
      if s in adjList then adjList[s] else []
    }

    method AddEdge(e: Edge)
      requires Structure() && e !in edges
      requires e.parent.name == e.child.name ==> e.parent == e.child
      requires forall n | n in {e.parent, e.child} :: n.name in nodes ==> Registered(n)
      modifies this
      ensures Structure() && edges == old(edges) + {e}
      ensures nodes == WithNode(WithNode(old(nodes), e.GetParent()), e.GetChild())
    {
      Register(e.GetParent());
      Register(e.GetChild());
      AppendEdge(e);
    }

    method Register(n: Node)
      requires Structure() && (n.name in nodes ==> Registered(n))
      modifies this`nodes
      ensures Structure() && nodes == WithNode(old(nodes), n)
    {
      if n.name !in nodes {
        nodes := nodes[n.name := n];
      }
    }

    method AppendEdge(e: Edge)
      requires Structure() && e !in edges && Registered(e.parent) && Registered(e.child)
      modifies this`adjList, this`edges
      ensures Structure() && edges == old(edges) + {e}
    {
      var s := e.GetParent().name;
      ghost var before := EdgesFrom(s);
      if s in adjList {
        adjList := adjList[s := adjList[s] + [e]];
      } else {
        adjList := adjList[s := [e]];
      }
      edges := edges + {e};
      assert adjList[s] == before + [e];
    }

    // Reverses every edge and swaps the degrees of every node.
    method Reverse()
      requires Structure()
      modifies this`adjList, this`edges, edges, nodes.Values
      ensures Structure() && edges == old(edges)
      ensures forall e | e in edges :: e.isReversed == !old(e.isReversed)
      ensures forall s | s in nodes ::
                nodes[s].inDegree == old(nodes[s].outDegree) && nodes[s].outDegree == old(nodes[s].inDegree)
      ensures Pairs() == Flip(old(Pairs())) && (old(Counted()) ==> Counted())
    {
      ReverseEverything();
      AllFlipped();
    }

    twostate lemma AllFlipped()
      requires edges == old(edges) && forall e | e in edges :: e.isReversed == !old(e.isReversed)
      ensures Pairs() == Flip(old(Pairs()))
      ensures forall s :: Leaving(s) == old(Entering(s)) && Entering(s) == old(Leaving(s))
    {
      assert forall e | e in edges :: e.GetParent() == old(e.GetChild()) && e.GetChild() == old(e.GetParent());
      forall a, b
        ensures (a, b) in Pairs() <==> (a, b) in Flip(old(Pairs()))
      {
        if (a, b) in Pairs() {
          var e :| e in edges && (e.GetParent().name, e.GetChild().name) == (a, b);
          assert (b, a) in old(Pairs());
        }
        if (a, b) in Flip(old(Pairs())) {
          assert (b, a) in old(Pairs());
          var e :| e in edges && old((e.GetParent().name, e.GetChild().name)) == (b, a);
        }
      }
    }

    method ReverseEverything()
      requires Structure()
      modifies this`adjList, this`edges, edges, nodes.Values
      ensures Structure() && edges == old(edges)
      ensures forall e | e in edges :: e.isReversed == !old(e.isReversed)
      ensures forall s | s in nodes ::
                nodes[s].inDegree == old(nodes[s].outDegree) && nodes[s].outDegree == old(nodes[s].inDegree)
    {
      hide Structure;
      var lists := adjList;
      ghost var all, owner := edges, Owners();
      StructureDeals();
      ReverseNodes();
      adjList, edges := map[], {};
      ReverseLists(lists, all, owner);
    }

    // The node each edge leaves.
    ghost function Owners(): map<Edge, Name>
      reads this, edges
    {
      map e | e in edges :: e.GetParent().name
    }

    lemma StructureDeals()
      requires Structure()
      ensures Deals(adjList, edges, Owners())
      ensures Named() && forall e | e in edges :: Registered(e.parent) && Registered(e.child)
    {
    }

    method ReverseLists(lists: map<Name, seq<Edge>>, ghost all: set<Edge>, ghost owner: map<Edge, Name>)
      requires Named() && adjList == map[] && edges == {} && Deals(lists, all, owner)
      requires forall e | e in all :: Registered(e.parent) && Registered(e.child)
      modifies this`adjList, this`edges, all
      ensures Structure() && edges == all
      ensures forall e | e in all :: e.isReversed == !old(e.isReversed)
    {
      assert Structure();
      hide Structure;
      var todo := lists.Keys;
      while todo != {}
        invariant todo <= lists.Keys && Structure()
        invariant edges == Dealt(owner, todo)
        invariant forall e | e in all :: e.isReversed == if e in edges then !old(e.isReversed) else old(e.isReversed)
        decreases todo
      {
        var s :| s in todo;
        DealtGrows(lists, all, owner, todo, s);
        ReverseList(lists[s]);
        todo := todo - {s};
      }
      assert Dealt(owner, {}) == all;
    }

    method ReverseNodes()
      requires Named()
      modifies nodes.Values
      ensures forall s | s in nodes ::
                nodes[s].inDegree == old(nodes[s].outDegree) && nodes[s].outDegree == old(nodes[s].inDegree)
    {
      var todo := nodes.Keys;
      while todo != {}
        invariant todo <= nodes.Keys
        invariant forall s | s in todo ::
                    nodes[s].inDegree == old(nodes[s].inDegree) && nodes[s].outDegree == old(nodes[s].outDegree)
        invariant forall s | s in nodes.Keys - todo ::
                    nodes[s].inDegree == old(nodes[s].outDegree) && nodes[s].outDegree == old(nodes[s].inDegree)
        decreases todo
      {
        var s :| s in todo;
        nodes[s].Reverse();
        todo := todo - {s};
      }
    }

    method ReverseList(list: seq<Edge>)
      requires Structure()
      requires forall i, j | 0 <= i < j < |list| :: list[i] != list[j]
      requires forall e | e in list :: e !in edges && Registered(e.parent) && Registered(e.child)
      modifies this`adjList, this`edges, set e | e in list
      ensures Structure() && edges == old(edges) + set e | e in list
      ensures forall e | e in list :: e.isReversed == !old(e.isReversed)
    {
      var i := 0;
      while i < |list|
        invariant 0 <= i <= |list| && Structure()
        invariant edges == old(edges) + set e | e in list[..i]
        invariant forall j | 0 <= j < |list| ::
                  list[j].isReversed == if j < i then !old(list[j].isReversed) else old(list[j].isReversed)
      {
        list[i].Reverse();
        AppendEdge(list[i]);
        i := i + 1;
      }
    }

    // A new edge between two nodes of the graph.
    method Connect(a: Node, b: Node, gen: string)
      requires Valid() && Registered(a) && Registered(b)
      modifies this, a, b
      ensures Valid() && nodes == old(nodes)
      ensures Pairs() == old(Pairs()) + {(a.name, b.name)}
      ensures old(edges) <= edges && OneMoreDegree(a.name, b.name)
    {
      var e := MakeAndAdd(a, b, gen);
      StillCounted(e, a.name, b.name);
    }

    method MakeAndAdd(a: Node, b: Node, gen: string) returns (e: Edge)
      requires Structure() && Registered(a) && Registered(b)
      modifies this, a, b
      ensures Structure() && nodes == old(nodes) && fresh(e)
      ensures OneMoreEdge(e) && e.GetParent() == a && e.GetChild() == b
      ensures OneMoreDegree(a.name, b.name)
    {
      e := new Edge(a, b, gen);
      assert OneMoreDegree(a.name, b.name);
      AddEdge(e);
      assert nodes == old(nodes);
    }

    // The degrees have changed by one edge from a to b.
    twostate predicate OneMoreDegree(a: Name, b: Name)
      reads this, nodes.Values
    {
      forall s | s in nodes ::
        && s in old(nodes) && old(nodes)[s] == nodes[s]
        && nodes[s].inDegree == old(nodes[s].inDegree) + (if s == b then 1 else 0)
        && nodes[s].outDegree == old(nodes[s].outDegree) + (if s == a then 1 else 0)
    }

    twostate predicate OneMoreEdge(new e: Edge)
      reads this, edges, e
    {
      && edges == old(edges) + {e} && e !in old(edges)
      && forall x | x in old(edges) :: x.GetParent() == old(x.GetParent()) && x.GetChild() == old(x.GetChild())
    }

    twostate lemma OneMorePair(new e: Edge)
      requires OneMoreEdge(e)
      ensures Pairs() == old(Pairs()) + {(e.GetParent().name, e.GetChild().name)}
    {
    }

    twostate lemma OneMoreLeaving(new e: Edge, s: Name)
      requires OneMoreEdge(e)
      ensures |Leaving(s)| == |old(Leaving(s))| + (if s == e.GetParent().name then 1 else 0)
    {
      assert Leaving(s) == old(Leaving(s)) + (if s == e.GetParent().name then {e} else {});
    }

    twostate lemma OneMoreEntering(new e: Edge, s: Name)
      requires OneMoreEdge(e)
      ensures |Entering(s)| == |old(Entering(s))| + (if s == e.GetChild().name then 1 else 0)
    {
      assert Entering(s) == old(Entering(s)) + (if s == e.GetChild().name then {e} else {});
    }

    twostate lemma StillCounted(new e: Edge, new a: Name, new b: Name)
      requires OneMoreEdge(e) && a == e.GetParent().name && b == e.GetChild().name
      requires OneMoreDegree(a, b) && old(Counted())
      ensures Counted() && Pairs() == old(Pairs()) + {(a, b)}
    {
      OneMorePair(e);
      forall s | s in nodes
        ensures CountedAt(s)
      {
        OneMoreLeaving(e, s);
        OneMoreEntering(e, s);
        assert old(CountedAt(s));
      }
    }

    // A node has degree zero when no edge enters, or leaves, it.
    lemma ZeroDegree(s: Name)
      requires Valid() && s in nodes
      ensures nodes[s].inDegree == 0 <==> IsSource(Pairs(), s)
      ensures nodes[s].outDegree == 0 <==> IsSink(Pairs(), s)
    {
      assert CountedAt(s);
      if e :| e in Entering(s) {
        assert (e.GetParent().name, s) in Pairs();
      }
      if e :| e in Leaving(s) {
        assert (s, e.GetChild().name) in Pairs();
      }
      if m :| (m, s) in Pairs() {
        var e :| e in edges && (e.GetParent().name, e.GetChild().name) == (m, s);
        assert e in Entering(s);
      }
      if m :| (s, m) in Pairs() {
        var e :| e in edges && (e.GetParent().name, e.GetChild().name) == (s, m);
        assert e in Leaving(s);
      }
    }

    // The in-degrees tell the nodes that no edge of es enters.
    ghost predicate TellsSources(es: Edges<Name>)
      reads this, nodes.Values
    {
      forall s | s in nodes :: nodes[s].inDegree == 0 <==> IsSource(es, s)
    }

    ghost predicate TellsSinks(es: Edges<Name>)
      reads this, nodes.Values
    {
      forall s | s in nodes :: nodes[s].outDegree == 0 <==> IsSink(es, s)
    }

    // The graph is the one of the edges es.
    ghost predicate Shows(es: Edges<Name>)
      reads this, edges, nodes.Values
    {
      Valid() && Pairs() == es
    }

    // The lists lead along the edges es, and along all of them.
    ghost predicate Follows(es: Edges<Name>)
      reads this, edges
    {
      && (forall s, e | s in nodes && e in EdgesFrom(s) ::
            e in edges && Registered(e.GetChild()) && (s, e.GetChild().name) in es)
      && (forall s, m | (s, m) in es ::
            s in nodes && m in nodes && exists e :: e in EdgesFrom(s) && e in edges && e.GetChild().name == m)
    }

    // The names that the list of s leads to.
    ghost function Targets(es: Edges<Name>, s: Name): (r: seq<Name>)
      requires Follows(es) && s in nodes
      reads this, edges, EdgesFrom(s)
      ensures |r| == |EdgesFrom(s)|
      ensures forall i | 0 <= i < |r| :: r[i] == EdgesFrom(s)[i].GetChild().name
      ensures forall m | (s, m) in es :: m in r
    {
      var list := EdgesFrom(s);
      var r := seq(|list|, i requires 0 <= i < |list| reads list => list[i].GetChild().name);
      assert forall e | e in list :: e.GetChild().name in r by {
        assert forall i | 0 <= i < |list| :: r[i] == list[i].GetChild().name;
      }
      r
    }

    lemma ShowsFollows(es: Edges<Name>)
      requires Shows(es)
      ensures Follows(es)
    {
      hide Structure, CountedAt, Pairs, EdgesFrom;
      forall s, e | s in nodes && e in EdgesFrom(s)
        ensures e in edges && Registered(e.GetChild()) && (s, e.GetChild().name) in es
      {
        ListedIsPair(s, e);
      }
      forall s, m | (s, m) in es
        ensures s in nodes && m in nodes && exists e :: e in EdgesFrom(s) && e in edges && e.GetChild().name == m
      {
        PairIsFollowed(s, m);
      }
    }

    lemma ListedIsPair(s: Name, e: Edge)
      requires Structure() && e in EdgesFrom(s)
      ensures e in edges && Registered(e.GetChild()) && (s, e.GetChild().name) in Pairs()
    {
      assert e.GetParent().name == s;
    }

    lemma PairIsFollowed(s: Name, m: Name)
      requires Structure() && (s, m) in Pairs()
      ensures s in nodes && m in nodes && exists e :: e in EdgesFrom(s) && e in edges && e.GetChild().name == m
    {
      var e :| e in edges && (e.GetParent().name, e.GetChild().name) == (s, m);
      assert e in EdgesFrom(s);
    }

    lemma ShowsSources(es: Edges<Name>)
      requires Shows(es)
      ensures TellsSources(es)
    {
      forall s | s in nodes {
        ZeroDegree(s);
      }
    }

    lemma ShowsSinks(es: Edges<Name>)
      requires Shows(es)
      ensures TellsSinks(es)
    {
      forall s | s in nodes {
        ZeroDegree(s);
      }
    }

    twostate lemma StillShows(es: Edges<Name>)
      requires old(Shows(es)) && unchanged(this) && unchanged(edges) && unchanged(nodes.Values)
      ensures Shows(es)
    {
    }

    // All that a search along the edges es needs of the graph.
    ghost predicate Searchable(es: Edges<Name>)
      reads this, edges, nodes.Values
    {
      Named() && Follows(es) && TellsSources(es)
    }

    lemma ShowsSearchable(es: Edges<Name>)
      requires Shows(es)
      ensures Searchable(es)
    {
      ShowsFollows(es);
      ShowsSources(es);
    }

    method ReverseShown(ghost es: Edges<Name>)
      requires Shows(es)
      modifies this`adjList, this`edges, edges, nodes.Values
      ensures Shows(Flip(es)) && edges == old(edges) && nodes == old(nodes)
      ensures forall e | e in edges :: e.isReversed == !old(e.isReversed)
      ensures forall s | s in nodes ::
                nodes[s].inDegree == old(nodes[s].outDegree) && nodes[s].outDegree == old(nodes[s].inDegree)
    {
      Reverse();
    }

    lemma PairsWithin()
      requires Structure()
      ensures Within(Pairs(), nodes.Keys)
    {
    }
  }
}

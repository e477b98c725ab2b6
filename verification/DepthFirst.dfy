/** What a depth-first search has established at any point of its run. */
module DepthFirst {
  import opened Reachability

  function Elements<N>(s: seq<N>): set<N> {
    set n | n in s
  }

  // The i-th finished node has an edge to n: n has been visited, and unless it
  // leads back to that node it was finished before it.
  ghost predicate Settled<N(!new)>(es: Edges<N>, visited: set<N>, finished: seq<N>, i: nat, n: N)
    requires i < |finished|
  {
    n in visited && (n in finished[..i] || Reaches(es, n, finished[i]))
  }

  // The search has come to the nodes in visited and left those in finished, in
  // that order.
  ghost predicate Explored<N(!new)>(es: Edges<N>, visited: set<N>, finished: seq<N>) {
    && (forall i, j | 0 <= i < j < |finished| :: finished[i] != finished[j])
    && (forall n | n in finished :: n in visited)
    && (forall i, n | 0 <= i < |finished| && (finished[i], n) in es :: Settled(es, visited, finished, i, n))
  }

  // Every node still open leads to n.
  ghost predicate OpenLeadTo<N(!new)>(es: Edges<N>, visited: set<N>, finished: seq<N>, n: N) {
    forall m | m in visited && m !in finished :: Reaches(es, m, n)
  }

  lemma Enter<N(!new)>(es: Edges<N>, visited: set<N>, finished: seq<N>, n: N)
    requires Explored(es, visited, finished) && OpenLeadTo(es, visited, finished, n)
    ensures Explored(es, visited + {n}, finished) && OpenLeadTo(es, visited + {n}, finished, n)
  {
    ReachesSelf(es, n);
    forall i, m | 0 <= i < |finished| && (finished[i], m) in es
      ensures Settled(es, visited + {n}, finished, i, m)
    {
      assert Settled(es, visited, finished, i, m);
    }
  }

  lemma Leave<N(!new)>(es: Edges<N>, visited: set<N>, finished: seq<N>, n: N)
    requires Explored(es, visited, finished) && OpenLeadTo(es, visited, finished, n)
    requires n in visited && n !in finished
    requires forall m | (n, m) in es :: m in visited
    ensures Explored(es, visited, finished + [n])
  {
    var f := finished + [n];
    forall i, m | 0 <= i < |f| && (f[i], m) in es
      ensures Settled(es, visited, f, i, m)
    {
      assert f[..i] == finished[..i];
      assert finished[..|finished|] == finished;
      assert i < |finished| ==> Settled(es, visited, finished, i, m);
    }
  }

  // Going on to a child of the node being searched.
  lemma Descend<N(!new)>(es: Edges<N>, visited: set<N>, finished: seq<N>, n: N, child: N)
    requires OpenLeadTo(es, visited, finished, n) && (n, child) in es
    ensures OpenLeadTo(es, visited, finished, child)
  {
    forall m | m in visited && m !in finished
      ensures Reaches(es, m, child)
    {
      ReachesThenEdge(es, m, n, child);
    }
  }

  // What a search from root, begun when visited0 and finished0 were done, has added:
  // it has left all it has come to, and has come only to nodes that root reaches.
  ghost predicate Progressed<N(!new)>(es: Edges<N>, root: N, visited0: set<N>, finished0: seq<N>,
                                      visited: set<N>, finished: seq<N>)
  {
    && visited0 <= visited && finished0 <= finished && Explored(es, visited, finished)
    && visited - Elements(finished) == visited0 - Elements(finished0)
    && forall n | n in visited && n !in visited0 :: Reaches(es, root, n)
  }

  lemma StillOpen<N(!new)>(es: Edges<N>, root: N, visited0: set<N>, finished0: seq<N>,
                           visited: set<N>, finished: seq<N>, n: N)
    requires Progressed(es, root, visited0, finished0, visited, finished)
    requires OpenLeadTo(es, visited0, finished0, n)
    ensures OpenLeadTo(es, visited, finished, n)
  {
    forall m | m in visited && m !in finished
      ensures Reaches(es, m, n)
    {
      assert m in visited - Elements(finished);
      assert m in visited0 - Elements(finished0);
    }
  }

  // A search of a child is part of the search of its parent.
  lemma Below<N(!new)>(es: Edges<N>, root: N, child: N, visited0: set<N>, finished0: seq<N>,
                       visited1: set<N>, finished1: seq<N>, visited: set<N>, finished: seq<N>)
    requires Progressed(es, root, visited0, finished0, visited1, finished1)
    requires Progressed(es, child, visited1, finished1, visited, finished) && (root, child) in es
    ensures Progressed(es, root, visited0, finished0, visited, finished)
  {
    forall n | n in visited && n !in visited0
      ensures Reaches(es, root, n)
    {
      if n !in visited1 {
        EdgeThenReaches(es, root, child, n);
      }
    }
  }

  // When all children of root have been visited, root can be left.
  lemma LeaveRoot<N(!new)>(es: Edges<N>, root: N, visited0: set<N>, finished0: seq<N>,
                           visited: set<N>, finished: seq<N>)
    requires Explored(es, visited0, finished0) && root !in visited0
    requires Progressed(es, root, visited0 + {root}, finished0, visited, finished)
    requires OpenLeadTo(es, visited, finished, root)
    requires forall m | (root, m) in es :: m in visited
    ensures Progressed(es, root, visited0, finished0, visited, finished + [root])
  {
    assert root !in finished0;
    assert root in visited - Elements(finished) by {
      assert root in visited0 + {root} - Elements(finished0);
    }
    Leave(es, visited, finished, root);
    assert Elements(finished + [root]) == Elements(finished) + {root};
    assert visited - Elements(finished) - {root} == visited0 - Elements(finished0);
    ReachesSelf(es, root);
  }

  // A search that begins with nothing open ends with nothing open.
  lemma LeftAllAgain<N(!new)>(es: Edges<N>, root: N, visited0: set<N>, finished0: seq<N>, visited: set<N>,
                       finished: seq<N>)
    requires Progressed(es, root, visited0, finished0, visited, finished) && visited0 == Elements(finished0)
    ensures visited == Elements(finished)
  {
    forall n | n in visited
      ensures n in finished
    {
      assert n !in visited - Elements(finished);
    }
  }

  lemma LeftAll<N(!new)>(es: Edges<N>, root: N, visited: set<N>, finished: seq<N>)
    requires Progressed(es, root, {}, [], visited, finished)
    ensures visited == Elements(finished) && forall n | n in visited :: Reaches(es, root, n)
  {
    LeftAllAgain(es, root, {}, [], visited, finished);
  }

  // A search that has left every node it came to has seen exactly what its
  // starting points reach.
  lemma SeenIsReached<N(!new)>(es: Edges<N>, visited: set<N>, finished: seq<N>, a: N, b: N)
    requires Explored(es, visited, finished) && visited == Elements(finished)
    requires a in visited && Reaches(es, a, b)
    ensures b in visited
  {
    forall x, y | (x, y) in es && x in visited
      ensures y in visited
    {
      var i :| 0 <= i < |finished| && finished[i] == x;
      assert Settled(es, visited, finished, i, y);
    }
    ClosedHoldsReached(es, visited, a, b);
  }

  function Reversed<N>(s: seq<N>): (r: seq<N>)
    ensures |r| == |s| && forall i | 0 <= i < |s| :: r[i] == s[|s| - 1 - i]
  {
    seq(|s|, i requires 0 <= i < |s| => s[|s| - 1 - i])
  }

  // The reverse of the order in which all that the sources lead to was left leads
  // forward along all edges that are on no cycle.
  lemma ReverseFinishLists<N(!new)>(es: Edges<N>, nodes: set<N>, visited: set<N>, finished: seq<N>)
    requires Explored(es, visited, finished) && visited == Elements(finished)
    requires forall n :: n in visited <==> FromSource(es, nodes, n)
    ensures ListsFromSources(es, nodes, Reversed(finished))
  {
    hide FromSource, Reaches;
    var n, out := |finished|, Reversed(finished);
    forall v
      ensures v in out <==> v in visited
    {
      if v in finished {
        var i :| 0 <= i < n && finished[i] == v;
        assert out[n - 1 - i] == v;
      }
    }
    forall i, j | 0 <= i < n && 0 <= j < n && (out[i], out[j]) in es
      ensures i < j || Reaches(es, out[j], out[i])
    {
      var a, b := n - 1 - i, n - 1 - j;
      assert finished[a] == out[i] && finished[b] == out[j];
      assert Settled(es, visited, finished, a, finished[b]);
    }
  }
}

/** Directed graphs as sets of edges: paths, reachability, cycles, sources and orders. */
module Reachability {

  type Edges<!N(==)> = set<(N, N)>

  ghost predicate IsPath<N>(es: Edges<N>, p: seq<N>) {
    p != [] && forall i | 0 <= i < |p| - 1 :: (p[i], p[i + 1]) in es
  }

  ghost predicate Connects<N>(es: Edges<N>, p: seq<N>, a: N, b: N) {
    IsPath(es, p) && p[0] == a && p[|p| - 1] == b
  }

  // There is a path, of any length, from a to b.
  ghost predicate Reaches<N(!new)>(es: Edges<N>, a: N, b: N) {
    exists p :: Connects(es, p, a, b)
  }

  // No edge lies on a cycle.
  ghost predicate Acyclic<N(!new)>(es: Edges<N>) {
    forall a, b | (a, b) in es :: !Reaches(es, b, a)
  }

  lemma ReachesSelf<N(!new)>(es: Edges<N>, a: N)
    ensures Reaches(es, a, a)
  {
    assert Connects(es, [a], a, a);
  }

  lemma ReachesTrans<N(!new)>(es: Edges<N>, a: N, b: N, c: N)
    requires Reaches(es, a, b) && Reaches(es, b, c)
    ensures Reaches(es, a, c)
  {
    var p :| Connects(es, p, a, b);
    var q :| Connects(es, q, b, c);
    assert Connects(es, p + q[1..], a, c);
  }

  lemma ReachesEdge<N(!new)>(es: Edges<N>, a: N, b: N)
    requires (a, b) in es
    ensures Reaches(es, a, b)
  {
    assert Connects(es, [a, b], a, b);
  }

  lemma ReachesThenEdge<N(!new)>(es: Edges<N>, a: N, b: N, c: N)
    requires Reaches(es, a, b) && (b, c) in es
    ensures Reaches(es, a, c)
  {
    ReachesEdge(es, b, c);
    ReachesTrans(es, a, b, c);
  }

  lemma EdgeThenReaches<N(!new)>(es: Edges<N>, a: N, b: N, c: N)
    requires (a, b) in es && Reaches(es, b, c)
    ensures Reaches(es, a, c)
  {
    ReachesEdge(es, a, b);
    ReachesTrans(es, a, b, c);
  }

  lemma ReachesMore<N(!new)>(es: Edges<N>, es': Edges<N>, a: N, b: N)
    requires es <= es' && Reaches(es, a, b)
    ensures Reaches(es', a, b)
  {
    var p :| Connects(es, p, a, b);
    assert Connects(es', p, a, b);
  }

  // What is reached from inside a closed set is inside it.
  lemma ClosedHoldsReached<N(!new)>(es: Edges<N>, closed: set<N>, a: N, b: N)
    requires a in closed && Reaches(es, a, b)
    requires forall x, y | (x, y) in es && x in closed :: y in closed
    ensures b in closed
  {
    var p :| Connects(es, p, a, b);
    var i := 0;
    while i < |p| - 1
      invariant 0 <= i < |p| && p[i] in closed
    {
      assert (p[i], p[i + 1]) in es;
      i := i + 1;
    }
  }

  // ----- reversing all edges

  ghost function Flip<N>(es: Edges<N>): Edges<N> {
    set e | e in es :: (e.1, e.0)
  }

  lemma FlipReaches<N(!new)>(es: Edges<N>, a: N, b: N)
    ensures Reaches(Flip(es), a, b) <==> Reaches(es, b, a)
  {
    if Reaches(es, b, a) {
      FlipPath(es, b, a);
    }
    if Reaches(Flip(es), a, b) {
      FlipPath(Flip(es), a, b);
      FlipTwice(es);
    }
  }

  lemma FlipTwice<N(!new)>(es: Edges<N>)
    ensures Flip(Flip(es)) == es
  {
    forall a, b
      ensures (a, b) in Flip(Flip(es)) <==> (a, b) in es
    {
      assert (a, b) in es <==> (b, a) in Flip(es);
    }
  }

  lemma FlipPath<N(!new)>(es: Edges<N>, a: N, b: N)
    requires Reaches(es, a, b)
    ensures Reaches(Flip(es), b, a)
  {
    var p :| Connects(es, p, a, b);
    var n := |p|;
    var q := seq(n, i requires 0 <= i < n => p[n - 1 - i]);
    forall i | 0 <= i < n - 1
      ensures (q[i], q[i + 1]) in Flip(es)
    {
      assert (p[n - 2 - i], p[n - 2 - i + 1]) in es;
    }
    assert Connects(Flip(es), q, b, a);
  }

  // ----- adding an edge

  // A new edge out of h does not change what reaches h.
  lemma NewEdgeKeepsReaching<N(!new)>(es: Edges<N>, h: N, x: N, y: N)
    ensures Reaches(es + {(h, x)}, y, h) <==> Reaches(es, y, h)
  {
    var es' := es + {(h, x)};
    if Reaches(es', y, h) {
      var p :| Connects(es', p, y, h);
      var i := 0;
      while p[i] != h
        invariant 0 <= i < |p|
        invariant forall j | 0 <= j < i :: p[j] != h
        decreases |p| - i
      {
        i := i + 1;
      }
      assert Connects(es, p[..i + 1], y, h);
    }
    if Reaches(es, y, h) {
      ReachesMore(es, es', y, h);
    }
  }

  // A new edge from h to a node that does not reach h makes no cycle.
  lemma NewEdgeKeepsAcyclic<N(!new)>(es: Edges<N>, h: N, x: N)
    requires Acyclic(es) && !Reaches(es, x, h)
    ensures Acyclic(es + {(h, x)})
  {
    var es' := es + {(h, x)};
    hide Reaches;
    NewEdgeKeepsReaching(es, h, x, x);
    forall a, b | (a, b) in es'
      ensures !Reaches(es', b, a)
    {
      if Reaches(es', b, a) && (a, b) != (h, x) {
        var through := ThroughEdge(es, h, x, b, a);
        if through {
          ReachesThenEdge(es', x, a, b);
          ReachesTrans(es', x, b, h);
        }
      }
    }
  }

  // A path with a new edge runs to the edge and goes on from it, or does not use it.
  lemma ThroughEdge<N(!new)>(es: Edges<N>, h: N, x: N, b: N, a: N) returns (through: bool)
    requires Reaches(es + {(h, x)}, b, a)
    ensures if through then Reaches(es + {(h, x)}, b, h) && Reaches(es + {(h, x)}, x, a) else Reaches(es, b, a)
  {
    var es' := es + {(h, x)};
    var p :| Connects(es', p, b, a);
    if i :| 0 <= i < |p| - 1 && (p[i], p[i + 1]) == (h, x) {
      assert Connects(es', p[i + 1..], x, a);
      assert Connects(es', p[..i + 1], b, h);
      through := true;
    } else {
      assert Connects(es, p, b, a);
      through := false;
    }
  }

  lemma FlipKeepsAcyclic<N(!new)>(es: Edges<N>)
    requires Acyclic(es)
    ensures Acyclic(Flip(es))
  {
    forall a, b | (a, b) in Flip(es)
      ensures !Reaches(Flip(es), b, a)
    {
      FlipReaches(es, b, a);
    }
  }

  // Edges from h to each of names, and from each of names to t.
  function Out<N(==)>(h: N, names: set<N>): Edges<N> {
    set s | s in names :: (h, s)
  }

  function Into<N(==)>(names: set<N>, t: N): Edges<N> {
    set s | s in names :: (s, t)
  }

  lemma OutNone<N>(es: Edges<N>, h: N, some: set<N>)
    ensures es + Out(h, some * {}) == es
  {
  }

  lemma IntoNone<N>(es: Edges<N>, t: N, some: set<N>)
    ensures es + Into(some * {}, t) == es
  {
  }

  lemma OutGrows<N>(es': Edges<N>, es: Edges<N>, h: N, some: set<N>, names: set<N>, s: N)
    requires es' == es + Out(h, some * names)
    ensures es' + (if s in some then {(h, s)} else {}) == es + Out(h, some * (names + {s}))
  {
  }

  lemma IntoGrows<N>(es': Edges<N>, es: Edges<N>, t: N, some: set<N>, names: set<N>, s: N)
    requires es' == es + Into(some * names, t)
    ensures es' + (if s in some then {(s, t)} else {}) == es + Into(some * (names + {s}), t)
  {
  }

  // New edges from h to nodes that do not reach h make no cycle.
  lemma {:induction false} OutKeepsAcyclic<N(!new)>(es: Edges<N>, h: N, names: set<N>)
    requires Acyclic(es) && forall s | s in names :: !Reaches(es, s, h)
    ensures Acyclic(es + Out(h, names))
    ensures forall y :: Reaches(es + Out(h, names), y, h) <==> Reaches(es, y, h)
  {
    if names == {} {
      assert es + Out(h, {}) == es;
    } else {
      var s :| s in names;
      var es' := es + Out(h, names - {s});
      OutKeepsAcyclic(es, h, names - {s});
      assert es + Out(h, names) == es' + {(h, s)};
      NewEdgeKeepsAcyclic(es', h, s);
      forall y {
        NewEdgeKeepsReaching(es', h, s, y);
      }
    }
  }

  // New edges to t from nodes that t does not reach make no cycle.
  lemma {:induction false} IntoKeepsAcyclic<N(!new)>(es: Edges<N>, names: set<N>, t: N)
    requires Acyclic(es) && forall s | s in names :: !Reaches(es, t, s)
    ensures Acyclic(es + Into(names, t))
  {
    FlipKeepsAcyclic(es);
    forall s | s in names
      ensures !Reaches(Flip(es), s, t)
    {
      FlipReaches(es, s, t);
    }
    OutKeepsAcyclic(Flip(es), t, names);
    FlipKeepsAcyclic(Flip(es) + Out(t, names));
    FlipIntoOut(es, names, t);
    FlipTwice(es + Into(names, t));
  }

  lemma FlipIntoOut<N(!new)>(es: Edges<N>, names: set<N>, t: N)
    ensures Flip(es + Into(names, t)) == Flip(es) + Out(t, names)
  {
    forall a, b
      ensures (a, b) in Flip(es + Into(names, t)) <==> (a, b) in Flip(es) + Out(t, names)
    {
      assert (a, b) in Flip(es + Into(names, t)) <==> (b, a) in es + Into(names, t);
    }
  }

  // ----- sources

  ghost predicate IsSource<N(!new)>(es: Edges<N>, n: N) {
    forall m :: (m, n) !in es
  }

  ghost predicate IsSink<N(!new)>(es: Edges<N>, n: N) {
    forall m :: (n, m) !in es
  }

  ghost predicate Within<N(!new)>(es: Edges<N>, nodes: set<N>) {
    forall a, b | (a, b) in es :: a in nodes && b in nodes
  }

  lemma OnlySelfReachesSource<N(!new)>(es: Edges<N>, a: N, s: N)
    requires IsSource(es, s) && Reaches(es, a, s)
    ensures a == s
  {
    var p :| Connects(es, p, a, s);
    StepsOfPath(es, p);
  }

  // A path of more than one node begins with a step and ends with a step.
  lemma StepsOfPath<N(!new)>(es: Edges<N>, p: seq<N>)
    requires IsPath(es, p)
    ensures |p| > 1 ==> !IsSink(es, p[0]) && !IsSource(es, p[|p| - 1])
  {
    if |p| > 1 {
      assert (p[0], p[0 + 1]) in es;
      assert (p[|p| - 2], p[|p| - 2 + 1]) in es;
    }
  }

  lemma SinkReachesOnlySelf<N(!new)>(es: Edges<N>, t: N, a: N)
    requires IsSink(es, t) && Reaches(es, t, a)
    ensures a == t
  {
    var p :| Connects(es, p, t, a);
    StepsOfPath(es, p);
  }

  // In a finite graph without cycles, going back from n ends at a source.
  lemma SourceAbove<N(!new)>(es: Edges<N>, nodes: set<N>, n: N, passed: set<N>) returns (s: N)
    requires Acyclic(es) && Within(es, nodes) && n in nodes - passed
    requires forall m | m in passed :: Reaches(es, n, m)
    ensures s in nodes && IsSource(es, s) && Reaches(es, s, n)
    decreases nodes - passed
  {
    if IsSource(es, n) {
      s := n;
      ReachesSelf(es, n);
    } else {
      var m :| (m, n) in es;
      ReachesSelf(es, n);
      forall k | k in passed + {n}
        ensures Reaches(es, m, k)
      {
        EdgeThenReaches(es, m, n, k);
      }
      s := SourceAbove(es, nodes, m, passed + {n});
      ReachesThenEdge(es, s, m, n);
    }
  }

  // Where the only source is h, h reaches every node.
  lemma OnlySourceReachesAll<N(!new)>(es: Edges<N>, nodes: set<N>, h: N, n: N)
    requires Acyclic(es) && Within(es, nodes) && n in nodes
    requires forall s | s in nodes && IsSource(es, s) :: s == h
    ensures Reaches(es, h, n)
  {
    var s := SourceAbove(es, nodes, n, {});
  }

  lemma FlipSink<N(!new)>(es: Edges<N>, n: N)
    ensures IsSource(Flip(es), n) <==> IsSink(es, n)
  {
    forall m
      ensures (m, n) in Flip(es) <==> (n, m) in es
    {
    }
  }

  // Where the only sink is t, every node reaches t.
  lemma AllReachOnlySink<N(!new)>(es: Edges<N>, nodes: set<N>, t: N, n: N)
    requires Acyclic(es) && Within(es, nodes) && n in nodes
    requires forall s | s in nodes && IsSink(es, s) :: s == t
    ensures Reaches(es, n, t)
  {
    FlipKeepsAcyclic(es);
    forall s | s in nodes && IsSource(Flip(es), s)
      ensures s == t
    {
      FlipSink(es, s);
    }
    assert Within(Flip(es), nodes);
    OnlySourceReachesAll(Flip(es), nodes, t, n);
    FlipReaches(es, t, n);
  }

  // ----- topological orders

  // Every node once, and the start of every edge before its end.
  ghost predicate IsTopological<N(!new)>(es: Edges<N>, nodes: set<N>, out: seq<N>) {
    && (forall n :: n in out <==> n in nodes)
    && (forall i, j | 0 <= i < j < |out| :: out[i] != out[j])
    && (forall i, j | 0 <= i < |out| && 0 <= j < |out| && (out[i], out[j]) in es :: i < j)
  }

  lemma ReachedComesLater<N(!new)>(es: Edges<N>, nodes: set<N>, out: seq<N>, i: nat, j: nat)
    requires IsTopological(es, nodes, out) && Within(es, nodes)
    requires i < |out| && j < |out| && Reaches(es, out[i], out[j])
    ensures i <= j
  {
    var p :| Connects(es, p, out[i], out[j]);
    var k, at := 0, i;
    while k < |p| - 1
      invariant 0 <= k < |p| && i <= at < |out| && out[at] == p[k]
    {
      assert (p[k], p[k + 1]) in es;
      var next :| 0 <= next < |out| && out[next] == p[k + 1];
      k, at := k + 1, next;
    }
  }

  lemma PlaceOf<N(!new)>(es: Edges<N>, nodes: set<N>, out: seq<N>, n: N) returns (i: nat)
    requires IsTopological(es, nodes, out) && n in nodes
    ensures i < |out| && out[i] == n && out[0] in nodes && out[|out| - 1] in nodes
  {
    assert n in out;
    i :| 0 <= i < |out| && out[i] == n;
    assert out[0] in out && out[|out| - 1] in out;
  }

  lemma OnlySourceComesFirst<N(!new)>(es: Edges<N>, nodes: set<N>, out: seq<N>, h: N)
    requires IsTopological(es, nodes, out) && Acyclic(es) && Within(es, nodes) && h in nodes
    requires forall s | s in nodes && IsSource(es, s) :: s == h
    ensures out != [] && out[0] == h
  {
    hide IsTopological, Within, Acyclic, Reaches, IsSource;
    var i := PlaceOf(es, nodes, out, h);
    OnlySourceReachesAll(es, nodes, h, out[0]);
    ReachedComesLater(es, nodes, out, i, 0);
  }

  lemma OnlySinkComesLast<N(!new)>(es: Edges<N>, nodes: set<N>, out: seq<N>, t: N)
    requires IsTopological(es, nodes, out) && Acyclic(es) && Within(es, nodes) && t in nodes
    requires forall s | s in nodes && IsSink(es, s) :: s == t
    ensures out != [] && out[|out| - 1] == t
  {
    hide IsTopological, Within, Acyclic, Reaches, IsSink;
    var i := PlaceOf(es, nodes, out, t);
    AllReachOnlySink(es, nodes, t, out[|out| - 1]);
    ReachedComesLater(es, nodes, out, |out| - 1, i);
  }

  lemma OnlyAcyclicIsOrdered<N(!new)>(es: Edges<N>, nodes: set<N>, out: seq<N>)
    requires IsTopological(es, nodes, out) && Within(es, nodes)
    ensures Acyclic(es)
  {
    forall a, b | (a, b) in es
      ensures !Reaches(es, b, a)
    {
      if Reaches(es, b, a) {
        assert a in out && b in out;
        var i :| 0 <= i < |out| && out[i] == a;
        var j :| 0 <= j < |out| && out[j] == b;
        ReachedComesLater(es, nodes, out, j, i);
      }
    }
  }

  // Some node that no edge enters leads to n.
  ghost predicate FromSource<N(!new)>(es: Edges<N>, nodes: set<N>, n: N) {
    exists a :: a in nodes && IsSource(es, a) && Reaches(es, a, n)
  }

  // Every node that a source leads to is listed once, and every edge between them leads
  // forward, or else its end leads back to its start.
  ghost predicate ListsFromSources<N(!new)>(es: Edges<N>, nodes: set<N>, out: seq<N>) {
    && (forall n :: n in out <==> FromSource(es, nodes, n))
    && (forall i, j | 0 <= i < j < |out| :: out[i] != out[j])
    && (forall i, j | 0 <= i < |out| && 0 <= j < |out| && (out[i], out[j]) in es ::
          i < j || Reaches(es, out[j], out[i]))
  }
}

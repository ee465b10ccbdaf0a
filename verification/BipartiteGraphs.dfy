/** Bipartite graphs, matchings and vertex covers: the vocabulary in which
    the element/matcher pairing of UnorderedElementsAre is specified. */
module BipartiteGraphs {
  import opened Counting

  /** A bipartite graph: edges join an element (left) to a matcher (right). */
  datatype Graph = Graph(lhs: nat, rhs: nat, edges: set<(int, int)>) {
    ghost predicate Valid() {
      forall l, r :: (l, r) in edges ==> 0 <= l < lhs && 0 <= r < rhs
    }
  }

  type Pairs = seq<(int, int)>

  ghost function Lefts(m: Pairs): (s: seq<int>) { seq(|m|, i requires 0 <= i < |m| => m[i].0) }

  ghost function Rights(m: Pairs): (s: seq<int>) { seq(|m|, i requires 0 <= i < |m| => m[i].1) }

  /** Edges of g, no two of which share an endpoint. */
  ghost predicate IsMatching(g: Graph, m: Pairs) {
    && (forall i :: 0 <= i < |m| ==> m[i] in g.edges)
    && Distinct(Lefts(m))
    && Distinct(Rights(m))
  }

  ghost predicate IsMaximum(g: Graph, m: Pairs) {
    && IsMatching(g, m)
    && (forall other: Pairs :: IsMatching(g, other) ==> |other| <= |m|)
  }

  ghost predicate CoversLeft(g: Graph, m: Pairs) {
    forall l :: 0 <= l < g.lhs ==> l in Lefts(m)
  }

  ghost predicate CoversRight(g: Graph, m: Pairs) {
    forall r :: 0 <= r < g.rhs ==> r in Rights(m)
  }

  /** A matching has at most as many pairs as either side has nodes, and has
      exactly that many only when it covers the side. */
  lemma MatchingSize(g: Graph, m: Pairs)
    requires g.Valid() && IsMatching(g, m)
    ensures |m| <= g.lhs && (|m| == g.lhs <==> CoversLeft(g, m))
    ensures |m| <= g.rhs && (|m| == g.rhs <==> CoversRight(g, m))
  {
    forall i | 0 <= i < |m| ensures 0 <= Lefts(m)[i] < g.lhs && 0 <= Rights(m)[i] < g.rhs {
      var (l, r) := m[i];
      assert (l, r) in g.edges;
    }
    DistinctBelow(Lefts(m), g.lhs);
    DistinctBelow(Rights(m), g.rhs);
  }

  /** König's certificate. The right nodes in z, together with the left ends of
      the pairs of m that avoid z, touch every edge; and every node of z that
      touches an edge is itself in a pair of m. */
  ghost predicate Certifies(g: Graph, m: Pairs, z: set<int>) {
    forall l, r :: (l, r) in g.edges ==>
      if r in z then r in Rights(m) else exists i :: 0 <= i < |m| && m[i].0 == l && m[i].1 !in z
  }

  /** The pair of m that pays for the edge e of a rival matching. */
  ghost function Charge(g: Graph, m: Pairs, z: set<int>, e: (int, int)): (i: nat)
    requires Certifies(g, m, z) && e in g.edges
    ensures i < |m|
    ensures if e.1 in z then m[i].1 == e.1 else m[i].0 == e.0 && m[i].1 !in z
  {
    var (l, r) := e;
    assert (l, r) in g.edges;
    if r in z then
      assert r in Rights(m);
      var i :| 0 <= i < |m| && Rights(m)[i] == r; i
    else
      assert exists i :: 0 <= i < |m| && m[i].0 == l && m[i].1 !in z;
      var i :| 0 <= i < |m| && m[i].0 == l && m[i].1 !in z; i
  }

  lemma CertifiedIsMaximum(g: Graph, m: Pairs, z: set<int>)
    requires IsMatching(g, m) && Certifies(g, m, z)
    ensures IsMaximum(g, m)
  {
    forall other: Pairs | IsMatching(g, other) ensures |other| <= |m| {
      var charges := seq(|other|, i requires 0 <= i < |other| => Charge(g, m, z, other[i]) as int);
      forall i, j | 0 <= i < j < |other| ensures charges[i] != charges[j] {
        assert Lefts(other)[i] != Lefts(other)[j] && Rights(other)[i] != Rights(other)[j];
      }
      DistinctBelow(charges, |m|);
    }
  }
}

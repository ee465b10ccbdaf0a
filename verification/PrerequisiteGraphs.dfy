/** Finite directed graphs given by successor lists: paths, what lies behind a
    node, and acyclicity. The nodes may be objects. */
module PrerequisiteGraphs {
  type Graph<!T(==)> = map<T, seq<T>>

  /** Every successor is itself a node. */
  ghost predicate Closed<T>(g: Graph<T>) {
    forall e, i :: e in g && 0 <= i < |g[e]| ==> g[e][i] in g
  }

  ghost predicate IsPath<T>(g: Graph<T>, older p: seq<T>) {
    && p != []
    && (forall i :: 0 <= i < |p| ==> p[i] in g)
    && (forall i :: 0 <= i < |p| - 1 ==> p[i + 1] in g[p[i]])
  }

  /** A path of at least one step leads from e to x, and passes only through nodes in via. */
  ghost predicate BehindVia<T>(g: Graph<T>, via: set<T>, older e: T, older x: T) {
    exists p :: IsPath(g, p) && |p| >= 2 && p[0] == e && p[|p| - 1] == x && forall i :: 0 < i < |p| - 1 ==> p[i] in via
  }

  /** x lies behind e. */
  ghost predicate Behind<T>(g: Graph<T>, older e: T, older x: T) {
    BehindVia(g, g.Keys, e, x)
  }

  ghost predicate Acyclic<T>(g: Graph<T>) {
    forall e :: e in g ==> !Behind(g, e, e)
  }

  /** What lies behind e: its successors, and what lies behind those. */
  lemma BehindStep<T>(g: Graph<T>, via: set<T>, e: T, x: T)
    requires Closed(g) && e in g
    ensures BehindVia(g, via, e, x) <==>
      x in g[e] || exists i :: 0 <= i < |g[e]| && g[e][i] in via && BehindVia(g, via, g[e][i], x)
  {
    if BehindVia(g, via, e, x) {
      var p :| IsPath(g, p) && |p| >= 2 && p[0] == e && p[|p| - 1] == x && forall i :: 0 < i < |p| - 1 ==> p[i] in via;
      assert p[1] in g[p[0]];
      if |p| > 2 {
        assert IsPath(g, p[1..]);
        var i :| 0 <= i < |g[e]| && g[e][i] == p[1];
        assert BehindVia(g, via, g[e][i], x);
      }
    }
    if x in g[e] {
      assert IsPath(g, [e, x]);
    }
    if i :| 0 <= i < |g[e]| && g[e][i] in via && BehindVia(g, via, g[e][i], x) {
      var p :| IsPath(g, p) && |p| >= 2 && p[0] == g[e][i] && p[|p| - 1] == x &&
               forall j :: 0 < j < |p| - 1 ==> p[j] in via;
      assert IsPath(g, [e] + p);
    }
  }

  lemma BehindTransitive<T>(g: Graph<T>, e: T, x: T, y: T)
    requires Behind(g, e, x) && Behind(g, x, y)
    ensures Behind(g, e, y)
  {
    var p :| IsPath(g, p) && |p| >= 2 && p[0] == e && p[|p| - 1] == x && forall i :: 0 < i < |p| - 1 ==> p[i] in g.Keys;
    var q :| IsPath(g, q) && |q| >= 2 && q[0] == x && q[|q| - 1] == y && forall i :: 0 < i < |q| - 1 ==> q[i] in g.Keys;
    var r := p + q[1..];
    assert forall i :: 0 <= i < |p| ==> r[i] == p[i];
    assert forall i :: |p| <= i < |r| ==> r[i] == q[i - |p| + 1];
    assert IsPath(g, r);
  }

  /** A set that contains the successors of e, and with every member its
      successors, contains everything behind e. */
  lemma {:induction false} BehindWithin<T>(g: Graph<T>, s: set<T>, p: seq<T>)
    requires IsPath(g, p) && |p| >= 2
    requires forall x :: x in g[p[0]] ==> x in s
    requires forall e, x :: e in s && e in g && x in g[e] ==> x in s
    ensures p[|p| - 1] in s
    decreases |p|
  {
    var init := p[..|p| - 1];
    assert p[|p| - 1] in g[p[|p| - 2]];
    if |p| > 2 {
      assert IsPath(g, init);
      BehindWithin(g, s, init);
    }
  }

  // ----- acyclic graphs

  ghost function AllBehind<T>(g: Graph<T>, e: T): (s: set<T>)
    ensures forall x :: x in s ==> Behind(g, e, x)
    ensures forall x :: Behind(g, e, x) ==> x in s
  {
    assert forall x :: Behind(g, e, x) ==> x in g;
    set x | x in g && Behind(g, e, x)
  }

  /** How much lies behind a node: strictly less for each successor. */
  ghost function Rank<T>(g: Graph<T>, e: T): nat { |AllBehind(g, e)| }

  lemma RankDecreases<T>(g: Graph<T>, e: T, i: nat)
    requires Closed(g) && Acyclic(g) && e in g && i < |g[e]|
    ensures Rank(g, g[e][i]) < Rank(g, e)
  {
    var s, a, b := g[e][i], AllBehind(g, g[e][i]), AllBehind(g, e);
    forall x | x in a ensures x in b {
      BehindStep(g, g.Keys, e, x);
    }
    BehindStep(g, g.Keys, e, s);
    assert s in b && s !in a;
    ProperSubsetSize(a, b, s);
  }

  lemma ProperSubsetSize<T>(a: set<T>, b: set<T>, x: T)
    requires a <= b && x in b && x !in a
    ensures |a| < |b|
  {
    assert b == a + (b - a);
    assert x in b - a;
  }

  /** A graph is acyclic exactly when its nodes can be numbered so that every edge
      leads to a smaller number. */
  ghost predicate Numbered<T>(g: Graph<T>, number: map<T, nat>) {
    && g.Keys <= number.Keys
    && forall e, i :: e in g && 0 <= i < |g[e]| ==> g[e][i] in number && number[g[e][i]] < number[e]
  }

  lemma {:induction false} NumberedPath<T>(g: Graph<T>, number: map<T, nat>, p: seq<T>)
    requires Numbered(g, number) && IsPath(g, p) && |p| >= 2
    ensures number[p[|p| - 1]] < number[p[0]]
    decreases |p|
  {
    var init := p[..|p| - 1];
    assert p[|p| - 1] in g[p[|p| - 2]];
    if |p| > 2 {
      assert IsPath(g, init);
      NumberedPath(g, number, init);
    }
  }

  lemma AcyclicIffNumbered<T>(g: Graph<T>)
    requires Closed(g)
    ensures Acyclic(g) <==> exists number: map<T, nat> :: number.Keys == g.Keys && Numbered(g, number)
  {
    if Acyclic(g) {
      var number := map e | e in g :: Rank(g, e);
      forall e, i | e in g && 0 <= i < |g[e]| ensures g[e][i] in number && number[g[e][i]] < number[e] {
        RankDecreases(g, e, i);
      }
      assert Numbered(g, number);
    }
    if number: map<T, nat> :| number.Keys == g.Keys && Numbered(g, number) {
      forall e | e in g ensures !Behind(g, e, e) {
        if Behind(g, e, e) {
          var p :| IsPath(g, p) && |p| >= 2 && p[0] == e && p[|p| - 1] == e;
          NumberedPath(g, number, p);
        }
      }
    }
  }

  /** The number of paths that start at e: what a walk without a visited set
      costs. It is finite because the graph is acyclic. */
  ghost function Walks<T>(g: Graph<T>, e: T): (n: nat)
    requires Closed(g) && Acyclic(g) && e in g
    decreases Rank(g, e), |g[e]| + 1
  {
    1 + WalksFrom(g, e, |g[e]|)
  }

  ghost function WalksFrom<T>(g: Graph<T>, e: T, n: nat): nat
    requires Closed(g) && Acyclic(g) && e in g && n <= |g[e]|
    decreases Rank(g, e), n
  {
    if n == 0 then 0
    else
      RankDecreases(g, e, n - 1);
      WalksFrom(g, e, n - 1) + Walks(g, g[e][n - 1])
  }

  /** The cost of finishing all walks on a stack. */
  ghost function StackWalks<T>(g: Graph<T>, stack: seq<T>): nat
    requires Closed(g) && Acyclic(g) && forall i :: 0 <= i < |stack| ==> stack[i] in g
  {
    if stack == [] then 0 else StackWalks(g, stack[..|stack| - 1]) + Walks(g, stack[|stack| - 1])
  }

  lemma PathsStay<T>(g: Graph<T>, g': Graph<T>, e: T, l: T)
    requires e in g && g' == g[e := g[e] + [l]]
    ensures forall x, y :: Behind(g, x, y) ==> Behind(g', x, y)
  {
    forall x, y | Behind(g, x, y) ensures Behind(g', x, y) {
      var p :| IsPath(g, p) && |p| >= 2 && p[0] == x && p[|p| - 1] == y;
      assert IsPath(g', p);
    }
  }

  /** One more edge e -> l keeps the graph acyclic exactly when l is not e and e
      does not already lie behind l. */
  lemma AddEdge<T>(g: Graph<T>, g': Graph<T>, e: T, l: T)
    requires Closed(g) && Acyclic(g) && e in g && l in g
    requires g' == g[e := g[e] + [l]]
    ensures Closed(g')
    ensures Acyclic(g') <==> l != e && !Behind(g, l, e)
    ensures forall x, y :: Behind(g, x, y) ==> Behind(g', x, y)
  {
    PathsStay(g, g', e, l);
    hide BehindVia;
    BehindStep(g', g'.Keys, e, e);
    var last := |g'[e]| - 1;
    assert g'[e][last] == l;
    if l == e {
      assert e in g'[e];
    } else if Behind(g, l, e) {
      assert Behind(g', g'[e][last], e);
    } else {
      AddEdgeAcyclic(g, g', e, l);
    }
  }

  /** The numbers that show it: e and all that waits for e go above l. */
  lemma AddEdgeAcyclic<T>(g: Graph<T>, g': Graph<T>, e: T, l: T)
    requires Closed(g) && Acyclic(g) && e in g && l in g && Closed(g')
    requires g' == g[e := g[e] + [l]] && l != e && !Behind(g, l, e)
    ensures Acyclic(g')
  {
    hide BehindVia;
    var number := map x | x in g :: if x == e || Behind(g, x, e) then Rank(g, x) + Rank(g, l) + 1 else Rank(g, x);
    forall x, i | x in g' && 0 <= i < |g'[x]| ensures g'[x][i] in number && number[g'[x][i]] < number[x] {
      if i < |g[x]| {
        RankDecreases(g, x, i);
        BehindStep(g, g.Keys, x, e);
      }
    }
    assert Numbered(g', number);
    AcyclicIffNumbered(g');
  }
}

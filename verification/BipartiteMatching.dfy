/** The maximum bipartite matching of gmock-matchers.cc: an in-place,
    depth-first augmenting search that tries each element once. */
module BipartiteMatching {
  import opened Counting
  import opened BipartiteGraphs

  /** The match matrix: one flag per (element, matcher) pair, flattened in
      element-major order. The ghost field holds the edges the flags stand for. */
  class MatchMatrix {
    const numElements: nat
    const numMatchers: nat
    const matched: array<bool>
    ghost var edges: set<(int, int)>

    function SpaceIndex(ilhs: int, irhs: int): int { ilhs * numMatchers + irhs }

    lemma SpaceIndexBounds(l: int, r: int)
      requires 0 <= l < numElements && 0 <= r < numMatchers
      ensures 0 <= SpaceIndex(l, r) < numElements * numMatchers
    {
      assert l * numMatchers + numMatchers == (l + 1) * numMatchers <= numElements * numMatchers;
    }

    /** No two cells of the matrix share a flag. */
    lemma SpaceIndexInjective(l: int, r: int, l': int, r': int)
      requires 0 <= r < numMatchers && 0 <= r' < numMatchers
      ensures SpaceIndex(l, r) == SpaceIndex(l', r') ==> l == l' && r == r'
    {
      if l < l' {
        assert l * numMatchers + numMatchers == (l + 1) * numMatchers <= l' * numMatchers;
      } else if l' < l {
        assert l' * numMatchers + numMatchers == (l' + 1) * numMatchers <= l * numMatchers;
      }
    }

    ghost function AsGraph(): Graph
      reads this
    {
      Graph(numElements, numMatchers, edges)
    }

    ghost predicate Valid()
      reads this, matched
    {
      && matched.Length == numElements * numMatchers
      && AsGraph().Valid()
      && forall l, r {:trigger SpaceIndex(l, r)} :: 0 <= l < numElements && 0 <= r < numMatchers ==>
           && 0 <= SpaceIndex(l, r) < matched.Length
           && (matched[SpaceIndex(l, r)] <==> (l, r) in edges)
    }

    constructor (numElements: nat, numMatchers: nat)
      ensures Valid() && fresh(matched)
      ensures AsGraph() == Graph(numElements, numMatchers, {})
    {
      this.numElements, this.numMatchers := numElements, numMatchers;
      matched := new bool[numElements * numMatchers](_ => false);
      edges := {};
      new;
      forall l, r | 0 <= l < numElements && 0 <= r < numMatchers
        ensures 0 <= SpaceIndex(l, r) < matched.Length
      {
        SpaceIndexBounds(l, r);
      }
    }

    method HasEdge(ilhs: int, irhs: int) returns (b: bool)
      requires Valid() && 0 <= ilhs < numElements && 0 <= irhs < numMatchers
      ensures b <==> (ilhs, irhs) in AsGraph().edges
    {
      b := matched[SpaceIndex(ilhs, irhs)];
    }

    method SetEdge(ilhs: int, irhs: int, b: bool)
      requires Valid() && 0 <= ilhs < numElements && 0 <= irhs < numMatchers
      modifies this, matched
      ensures Valid()
      ensures AsGraph() == old(AsGraph()).(edges :=
        if b then old(edges) + {(ilhs, irhs)} else old(edges) - {(ilhs, irhs)})
    {
      forall l, r | 0 <= l < numElements && 0 <= r < numMatchers
        ensures SpaceIndex(l, r) == SpaceIndex(ilhs, irhs) ==> l == ilhs && r == irhs
      {
        SpaceIndexInjective(l, r, ilhs, irhs);
      }
      matched[SpaceIndex(ilhs, irhs)] := b;
      edges := if b then edges + {(ilhs, irhs)} else edges - {(ilhs, irhs)};
    }
  }

  /** kUnused. */
  const UNUSED: int := -1

  /** Slots hold either UNUSED or the other end of an edge. */
  ghost predicate EdgesOnly(g: Graph, left: seq<int>, right: seq<int>) {
    && |left| == g.lhs && |right| == g.rhs
    && (forall l :: 0 <= l < |left| && left[l] != UNUSED ==> 0 <= left[l] < |right| && (l, left[l]) in g.edges)
    && (forall r :: 0 <= r < |right| && right[r] != UNUSED ==> 0 <= right[r] < |left| && (right[r], r) in g.edges)
  }

  /** left and right are mutually referent, except that the slot of the right
      node `stale` may still name its former mate. */
  ghost predicate MutualExcept(g: Graph, left: seq<int>, right: seq<int>, stale: int)
    requires EdgesOnly(g, left, right)
  {
    && (forall l {:trigger right[left[l]]} :: 0 <= l < |left| && left[l] != UNUSED ==> right[left[l]] == l)
    && (forall r {:trigger left[right[r]]} :: 0 <= r < |right| && right[r] != UNUSED && r != stale ==>
          left[right[r]] == r)
  }

  ghost predicate MutuallyReferent(g: Graph, left: seq<int>, right: seq<int>) {
    EdgesOnly(g, left, right) && MutualExcept(g, left, right, UNUSED)
  }

  ghost predicate NeighboursIn(g: Graph, l: int, s: set<int>) {
    forall r :: (l, r) in g.edges ==> r in s
  }

  /** z is closed under alternating paths: its right nodes are all matched and
      their mates have no neighbour outside z. */
  ghost predicate Closed(g: Graph, right: seq<int>, z: set<int>) {
    forall r :: r in z ==> 0 <= r < |right| && right[r] != UNUSED && NeighboursIn(g, right[r], z)
  }

  /** The neighbours of l below n have all been seen. */
  ghost predicate SeenBelow(g: Graph, l: int, seen: seq<bool>, n: int) {
    forall r {:trigger (l, r) in g.edges} :: 0 <= r < n && r < |seen| && (l, r) in g.edges ==> seen[r]
  }

  ghost function Unseen(seen: seq<bool>): (s: set<int>)
    ensures forall r :: r in s <==> 0 <= r < |seen| && !seen[r]
  {
    set r | r in Below(|seen|) && !seen[r]
  }

  /** What a successful search from ilhs does to the slots: ilhs gets a new
      mate outside the seen nodes and outside the closed set z, no other node
      becomes matched or unmatched on the left, nothing becomes unmatched on the
      right, and at most the former mate of ilhs is left stale. */
  ghost predicate Augmented(g: Graph, ilhs: int, left: seq<int>, right: seq<int>, seen: seq<bool>, z: set<int>,
                            left': seq<int>, right': seq<int>)
    requires 0 <= ilhs < |left| && |seen| == |right|
    requires EdgesOnly(g, left, right)
  {
    && EdgesOnly(g, left', right')
    && MutualExcept(g, left', right', left[ilhs])
    && left'[ilhs] != UNUSED && !seen[left'[ilhs]] && left'[ilhs] !in z
    && (forall l :: 0 <= l < |left| && l != ilhs ==> (left'[l] == UNUSED <==> left[l] == UNUSED))
    && (forall l :: 0 <= l < |left| && l != ilhs && left'[l] != left[l] ==> left[l] != UNUSED && !seen[left[l]])
    && (forall r :: 0 <= r < |right| && right[r] != UNUSED ==> right'[r] != UNUSED)
    && (forall r :: 0 <= r < |right| && seen[r] ==> right'[r] == right[r])
    && (forall r :: 0 <= r < |right| && r in z ==> right'[r] == right[r])
  }

  /** What a failed search leaves behind: every newly seen right node is matched,
      and its mate has no neighbour that was not seen. */
  ghost predicate DeadEnds(g: Graph, right: seq<int>, seen: seq<bool>, seen': seq<bool>) {
    && |seen| == |seen'| == |right|
    && (forall r :: 0 <= r < |seen| && seen[r] ==> seen'[r])
    && (forall r :: 0 <= r < |seen| && seen'[r] && !seen[r] ==>
          right[r] != UNUSED && SeenBelow(g, right[r], seen', |seen|))
  }

  lemma SkipStep(g: Graph, ilhs: int, irhs: int, seen: seq<bool>)
    requires 0 <= irhs < |seen| && SeenBelow(g, ilhs, seen, irhs)
    requires seen[irhs] || (ilhs, irhs) !in g.edges
    ensures SeenBelow(g, ilhs, seen, irhs + 1)
  {
  }

  /** One dead end at irhs, whose mate was searched in vain. */
  lemma DeadEndStep(g: Graph, ilhs: int, irhs: int, right: seq<int>, seen: seq<bool>, seen1: seq<bool>,
                    seen2: seq<bool>)
    requires 0 <= irhs < |right| && DeadEnds(g, right, seen, seen1)
    requires !seen1[irhs] && right[irhs] != UNUSED
    requires DeadEnds(g, right, seen1[irhs := true], seen2)
    requires SeenBelow(g, right[irhs], seen2, |right|)
    requires SeenBelow(g, ilhs, seen1, irhs)
    ensures DeadEnds(g, right, seen, seen2)
    ensures SeenBelow(g, ilhs, seen2, irhs + 1)
  {
    assert forall r :: 0 <= r < |right| && seen1[r] ==> seen1[irhs := true][r];
  }

  ghost function SeenSet(seen: seq<bool>): (s: set<int>)
    ensures forall r :: r in s <==> 0 <= r < |seen| && seen[r]
  {
    set r | r in Below(|seen|) && seen[r]
  }

  /** The state of a search when it is called from ilhs. */
  ghost predicate Searching(g: Graph, ilhs: int, left: seq<int>, right: seq<int>, seen: seq<bool>, z: set<int>) {
    && 0 <= ilhs < |left| && |seen| == |right|
    && MutuallyReferent(g, left, right)
    && Closed(g, right, z)
    && (left[ilhs] != UNUSED ==> seen[left[ilhs]])
  }

  /** One link of the path: irhs was free, or its mate found another right node. */
  lemma AugmentStep(g: Graph, ilhs: int, irhs: int, left: seq<int>, right: seq<int>, seen: seq<bool>,
                    seen': seq<bool>, z: set<int>, left': seq<int>, right': seq<int>)
    requires Searching(g, ilhs, left, right, seen, z)
    requires |seen| == |seen'| && forall r :: 0 <= r < |seen| && seen[r] ==> seen'[r]
    requires 0 <= irhs < |right| && (ilhs, irhs) in g.edges && !seen[irhs] && seen'[irhs]
    requires if right[irhs] == UNUSED then left' == left && right' == right
             else Augmented(g, right[irhs], left, right, seen', z, left', right')
    ensures Augmented(g, ilhs, left, right, seen, z, left'[ilhs := irhs], right'[irhs := ilhs])
  {
    var left2, right2 := left'[ilhs := irhs], right'[irhs := ilhs];
    assert right[irhs] != UNUSED ==> (right[irhs], left'[right[irhs]]) in g.edges;
    assert left'[ilhs] == left[ilhs];
    assert forall l :: 0 <= l < |left| && left'[l] == irhs ==> right'[irhs] == l;
    assert EdgesOnly(g, left2, right2);
    assert MutualExcept(g, left2, right2, left[ilhs]);
  }

  /** The elements below n have been tried: those that stayed unmatched have all
      their neighbours in the closed set z. */
  ghost predicate Tried(g: Graph, left: seq<int>, right: seq<int>, z: set<int>, n: int) {
    && MutuallyReferent(g, left, right)
    && Closed(g, right, z)
    && (forall l :: n <= l < |left| && 0 <= l ==> left[l] == UNUSED)
    && (forall l :: 0 <= l < n && l < |left| && left[l] == UNUSED ==> NeighboursIn(g, l, z))
  }

  /** A search from an unmatched element that succeeds leaves the slots mutually
      referent again, with that element as the only newly matched one; every
      matched right node stays matched. */
  lemma SuccessStep(g: Graph, ilhs: int, left: seq<int>, right: seq<int>, seen: seq<bool>, z: set<int>,
                    left': seq<int>, right': seq<int>)
    requires Searching(g, ilhs, left, right, seen, z) && Tried(g, left, right, z, ilhs)
    requires Augmented(g, ilhs, left, right, seen, z, left', right')
    ensures Tried(g, left', right', z, ilhs + 1)
    ensures forall l :: 0 <= l < |left| ==> (left'[l] == UNUSED <==> left[l] == UNUSED && l != ilhs)
    ensures forall r :: 0 <= r < |right| && right[r] != UNUSED ==> right'[r] != UNUSED
  {
    assert forall r :: r in z ==> right'[r] == right[r];
  }

  /** The nodes reached by a failed search extend the closed set, and swallow all
      neighbours of the element the search started from. */
  lemma FailureStep(g: Graph, ilhs: int, left: seq<int>, right: seq<int>, seen: seq<bool>, seen': seq<bool>,
                    z: set<int>)
    requires g.Valid() && Tried(g, left, right, z, ilhs) && 0 <= ilhs
    requires DeadEnds(g, right, seen, seen') && forall r :: 0 <= r < |seen| ==> !seen[r]
    requires SeenBelow(g, ilhs, seen', |right|)
    ensures Tried(g, left, right, z + SeenSet(seen'), ilhs + 1)
  {
    var z' := z + SeenSet(seen');
    forall r | r in z' ensures right[r] != UNUSED && NeighboursIn(g, right[r], z') {
      if r in z {
        assert NeighboursIn(g, right[r], z);
      } else {
        assert SeenBelow(g, right[r], seen', |right|);
      }
    }
  }

  /** The pairs {l, left[l]} for the used slots of left, in order. */
  ghost function PairsOf(left: seq<int>): (m: Pairs) {
    if left == [] then []
    else
      var init := left[..|left| - 1];
      if left[|left| - 1] == UNUSED then PairsOf(init)
      else PairsOf(init) + [(|left| - 1, left[|left| - 1])]
  }

  lemma {:induction false} PairsOfMembers(left: seq<int>)
    ensures var m := PairsOf(left);
      && (forall i :: 0 <= i < |m| ==> 0 <= m[i].0 < |left| && left[m[i].0] == m[i].1 != UNUSED)
      && (forall i, j :: 0 <= i < j < |m| ==> m[i].0 < m[j].0)
      && (forall l :: 0 <= l < |left| && left[l] != UNUSED ==> (l, left[l]) in m)
  {
    if left != [] {
      var init := left[..|left| - 1];
      PairsOfMembers(init);
      forall l | 0 <= l < |left| && left[l] != UNUSED ensures (l, left[l]) in PairsOf(left) {
        if l < |init| {
          assert (l, init[l]) in PairsOf(init);
        }
      }
    }
  }

  /** Mutually referent slots spell out a matching of the graph. */
  lemma SlotsAreMatching(g: Graph, left: seq<int>, right: seq<int>)
    requires MutuallyReferent(g, left, right)
    ensures IsMatching(g, PairsOf(left))
  {
    PairsOfMembers(left);
    var m := PairsOf(left);
    forall i | 0 <= i < |m| ensures m[i] in g.edges && right[m[i].1] == m[i].0 {
      assert m[i] == (m[i].0, left[m[i].0]);
      assert right[left[m[i].0]] == m[i].0;
    }
  }

  /** If every unmatched left node has all its neighbours in a closed set, the
      closed set certifies that the matching is maximum. */
  lemma ClosedCertifies(g: Graph, left: seq<int>, right: seq<int>, z: set<int>)
    requires g.Valid() && MutuallyReferent(g, left, right) && Closed(g, right, z)
    requires forall l :: 0 <= l < |left| && left[l] == UNUSED ==> NeighboursIn(g, l, z)
    ensures IsMaximum(g, PairsOf(left))
  {
    SlotsAreMatching(g, left, right);
    PairsOfMembers(left);
    var m := PairsOf(left);
    forall l, r | (l, r) in g.edges
      ensures if r in z then r in Rights(m) else exists i :: 0 <= i < |m| && m[i].0 == l && m[i].1 !in z
    {
      if r in z {
        assert left[right[r]] == r && (right[r], r) in m;
        var i :| 0 <= i < |m| && m[i] == (right[r], r);
        assert Rights(m)[i] == r;
      } else {
        assert left[l] != UNUSED ==> right[left[l]] == l;
        assert (l, left[l]) in m;
        var i :| 0 <= i < |m| && m[i] == (l, left[l]);
      }
    }
    CertifiedIsMaximum(g, m, z);
  }

  class MaxBipartiteMatchState {
    const graph: MatchMatrix
    const left: array<int>
    const right: array<int>

    ghost predicate Shape()
      reads graph, graph.matched
    {
      && graph.Valid()
      && left != right
      && left.Length == graph.numElements
      && right.Length == graph.numMatchers
    }

    constructor (graph: MatchMatrix)
      requires graph.Valid()
      ensures this.graph == graph && Shape() && fresh(left) && fresh(right)
      ensures forall l :: 0 <= l < left.Length ==> left[l] == UNUSED
      ensures forall r :: 0 <= r < right.Length ==> right[r] == UNUSED
    {
      this.graph := graph;
      left := new int[graph.numElements](_ => UNUSED);
      right := new int[graph.numMatchers](_ => UNUSED);
    }

    /** Searches for an augmenting path from ilhs through right nodes not yet
        seen, and pushes flow along it if there is one.

        ilhs is either unmatched (an outermost call) or the mate of a right
        node already seen (an inner call). z is any closed set: no successful
        search ever enters it. */
    method TryAugment(ilhs: int, seen: array<bool>, ghost g: Graph, ghost z: set<int>) returns (found: bool)
      requires Shape() && seen != graph.matched && g == graph.AsGraph()
      requires Searching(g, ilhs, left[..], right[..], seen[..], z)
      modifies left, right, seen
      decreases Unseen(seen[..])
      ensures found ==>
        Augmented(g, ilhs, old(left[..]), old(right[..]), old(seen[..]), z, left[..], right[..])
      ensures !found ==> left[..] == old(left[..]) && right[..] == old(right[..])
      ensures !found ==> DeadEnds(g, old(right[..]), old(seen[..]), seen[..])
      ensures !found ==> SeenBelow(g, ilhs, seen[..], right.Length)
    {
      ghost var left0, right0, seen0 := left[..], right[..], seen[..];
      var irhs := 0;
      while irhs < graph.numMatchers
        invariant 0 <= irhs <= graph.numMatchers
        invariant left[..] == left0 && right[..] == right0
        invariant DeadEnds(g, right0, seen0, seen[..])
        invariant SeenBelow(g, ilhs, seen[..], irhs)
      {
        var hasEdge := graph.HasEdge(ilhs, irhs);
        if !seen[irhs] && hasEdge {
          ghost var seen1 := seen[..];
          seen[irhs] := true;
          ghost var seen2 := seen[..];
          assert seen2 == seen1[irhs := true];
          var reached := right[irhs] == UNUSED;
          if !reached {
            reached := TryAugment(right[irhs], seen, g, z);
          }
          if reached {
            ghost var left1, right1 := left[..], right[..];
            left[ilhs] := irhs;
            right[irhs] := ilhs;
            AugmentStep(g, ilhs, irhs, left0, right0, seen0, seen2, z, left1, right1);
            assert left[..] == left1[ilhs := irhs] && right[..] == right1[irhs := ilhs];
            return true;
          }
          DeadEndStep(g, ilhs, irhs, right0, seen0, seen1, seen[..]);
        } else {
          SkipStep(g, ilhs, irhs, seen[..]);
        }
        irhs := irhs + 1;
      }
      return false;
    }

    /** First half of Compute: tries every element exactly once, in order. The
        ghost set z collects the right nodes reached by the failed searches; no
        later search enters it, which is why no element needs a second try. */
    method AugmentAll(ghost g: Graph) returns (ghost z: set<int>)
      requires Shape() && g == graph.AsGraph()
      requires forall l :: 0 <= l < left.Length ==> left[l] == UNUSED
      requires forall r :: 0 <= r < right.Length ==> right[r] == UNUSED
      modifies left, right
      ensures Tried(g, left[..], right[..], z, left.Length)
    {
      z := {};
      var seen := new bool[graph.numMatchers];
      for ilhs := 0 to graph.numElements
        invariant Tried(g, left[..], right[..], z, ilhs)
      {
        forall r | 0 <= r < seen.Length { seen[r] := false; }
        ghost var left0, right0, seen0 := left[..], right[..], seen[..];
        // The check that the slot is still unused never fires.
        assert left[ilhs] == UNUSED && Searching(g, ilhs, left0, right0, seen0, z);
        var found := TryAugment(ilhs, seen, g, z);
        if found {
          SuccessStep(g, ilhs, left0, right0, seen0, z, left[..], right[..]);
        } else {
          FailureStep(g, ilhs, left0, right0, seen0, seen[..], z);
          z := z + SeenSet(seen[..]);
        }
      }
    }

    /** Second half of Compute: lists the used slots. */
    method CollectPairs() returns (result: Pairs)
      ensures result == PairsOf(left[..])
    {
      result := [];
      for ilhs := 0 to left.Length
        invariant result == PairsOf(left[..ilhs])
      {
        assert left[..ilhs + 1][..ilhs] == left[..ilhs];
        if left[ilhs] != UNUSED {
          result := result + [(ilhs, left[ilhs])];
        }
      }
      assert left[..left.Length] == left[..];
    }

    /** The pairs found are a matching and no matching of the graph is larger,
        although each element was tried once. */
    method Compute() returns (result: Pairs)
      requires Shape()
      requires forall l :: 0 <= l < left.Length ==> left[l] == UNUSED
      requires forall r :: 0 <= r < right.Length ==> right[r] == UNUSED
      modifies left, right
      ensures MutuallyReferent(graph.AsGraph(), left[..], right[..])
      ensures result == PairsOf(left[..])
      ensures IsMaximum(graph.AsGraph(), result)
    {
      ghost var g := graph.AsGraph();
      ghost var z := AugmentAll(g);
      result := CollectPairs();
      ClosedCertifies(g, left[..], right[..], z);
    }
  }

  method FindMaxBipartiteMatching(g: MatchMatrix) returns (result: Pairs)
    requires g.Valid()
    ensures IsMaximum(g.AsGraph(), result)
  {
    var state := new MaxBipartiteMatchState(g);
    result := state.Compute();
  }

  /** UnorderedMatcherRequire::Flags. */
  datatype Require = Superset | Subset | ExactMatch {
    predicate NeedsMatchers() { this != Subset }
    predicate NeedsElements() { this != Superset }
  }

  /** An assignment along edges, one element per matcher and one matcher per
      element, that leaves out no matcher (Superset), no element (Subset) or
      neither (ExactMatch). */
  ghost predicate Satisfies(g: Graph, flags: Require, m: Pairs) {
    && IsMatching(g, m)
    && (flags.NeedsMatchers() ==> CoversRight(g, m))
    && (flags.NeedsElements() ==> CoversLeft(g, m))
  }

  ghost predicate Satisfiable(g: Graph, flags: Require) {
    exists m: Pairs :: Satisfies(g, flags, m)
  }

  /** What each flag asks for, by its name: a superset needs every matcher, a subset
      every element, an exact match both. */
  ghost predicate Pairable(g: Graph, flags: Require) {
    match flags
    case Superset => exists m: Pairs :: IsMatching(g, m) && CoversRight(g, m)
    case Subset => exists m: Pairs :: IsMatching(g, m) && CoversLeft(g, m)
    case ExactMatch => exists m: Pairs :: IsMatching(g, m) && CoversLeft(g, m) && CoversRight(g, m)
  }

  lemma SatisfiableMeans(g: Graph, flags: Require)
    ensures Satisfiable(g, flags) <==> Pairable(g, flags)
  {
    if Satisfiable(g, flags) {
      var m: Pairs :| Satisfies(g, flags, m);
      assert IsMatching(g, m);
    }
    if flags.Superset? && Pairable(g, flags) {
      var m: Pairs :| IsMatching(g, m) && CoversRight(g, m);
      assert Satisfies(g, flags, m);
    } else if flags.Subset? && Pairable(g, flags) {
      var m: Pairs :| IsMatching(g, m) && CoversLeft(g, m);
      assert Satisfies(g, flags, m);
    } else if Pairable(g, flags) {
      var m: Pairs :| IsMatching(g, m) && CoversLeft(g, m) && CoversRight(g, m);
      assert Satisfies(g, flags, m);
    }
  }

  /** No element, no matcher is without an edge. */
  ghost predicate ElementsLinked(g: Graph) {
    forall l :: 0 <= l < g.lhs ==> ElementLinked(g, l)
  }

  ghost predicate MatchersLinked(g: Graph) {
    forall r :: 0 <= r < g.rhs ==> MatcherLinked(g, r)
  }

  ghost predicate ElementLinked(g: Graph, l: int) {
    exists r :: 0 <= r < g.rhs && (l, r) in g.edges
  }

  ghost predicate MatcherLinked(g: Graph, r: int) {
    exists l :: 0 <= l < g.lhs && (l, r) in g.edges
  }

  /** l has an edge to a matcher below n; r has an edge from an element below n. */
  ghost predicate LeftHas(g: Graph, l: int, n: nat) {
    n > 0 && (LeftHas(g, l, n - 1) || (l, n - 1) in g.edges)
  }

  ghost predicate RightHas(g: Graph, r: int, n: nat) {
    n > 0 && (RightHas(g, r, n - 1) || (n - 1, r) in g.edges)
  }

  lemma {:induction false} HasMeans(g: Graph, v: int, n: nat)
    ensures LeftHas(g, v, n) <==> exists r :: 0 <= r < n && (v, r) in g.edges
    ensures RightHas(g, v, n) <==> exists l :: 0 <= l < n && (l, v) in g.edges
  {
    if n > 0 {
      HasMeans(g, v, n - 1);
    }
  }

  /** Each required matcher matches some element, each required element some matcher. */
  ghost predicate NoneIsolated(g: Graph, flags: Require) {
    && (flags.NeedsMatchers() ==> forall r :: 0 <= r < g.rhs ==> RightHas(g, r, g.lhs))
    && (flags.NeedsElements() ==> forall l :: 0 <= l < g.lhs ==> LeftHas(g, l, g.rhs))
  }

  lemma NoneIsolatedMeans(g: Graph, flags: Require)
    ensures NoneIsolated(g, flags) <==>
      match flags
      case Superset => MatchersLinked(g)
      case Subset => ElementsLinked(g)
      case ExactMatch => ElementsLinked(g) && MatchersLinked(g)
  {
    forall l ensures LeftHas(g, l, g.rhs) <==> ElementLinked(g, l) {
      HasMeans(g, l, g.rhs);
    }
    forall r ensures RightHas(g, r, g.lhs) <==> MatcherLinked(g, r) {
      HasMeans(g, r, g.lhs);
    }
    hide LeftHas, RightHas, ElementLinked, MatcherLinked;
  }

  /** Counting the pairs of a maximum matching decides satisfiability. */
  lemma MaximumDecides(g: Graph, flags: Require, m: Pairs)
    requires g.Valid() && IsMaximum(g, m)
    ensures Satisfiable(g, flags) <==>
      !(flags.NeedsMatchers() && |m| < g.rhs) && !(flags.NeedsElements() && |m| < g.lhs)
  {
    MatchingSize(g, m);
    if !(flags.NeedsMatchers() && |m| < g.rhs) && !(flags.NeedsElements() && |m| < g.lhs) {
      assert Satisfies(g, flags, m);
    }
    if Satisfiable(g, flags) {
      var best: Pairs :| Satisfies(g, flags, best);
      MatchingSize(g, best);
    }
  }

  /** Whatever the pairing accepts also passes the cheap pre-check. */
  lemma SatisfiableNotIsolated(g: Graph, flags: Require)
    requires g.Valid() && Satisfiable(g, flags)
    ensures NoneIsolated(g, flags)
  {
    var m: Pairs :| Satisfies(g, flags, m);
    if flags.NeedsMatchers() {
      forall r | 0 <= r < g.rhs ensures RightHas(g, r, g.lhs) {
        HasMeans(g, r, g.lhs);
        assert r in Rights(m);
        var i :| 0 <= i < |m| && Rights(m)[i] == r;
        var (l, _) := m[i];
        assert (l, r) in g.edges;
      }
    }
    if flags.NeedsElements() {
      forall l | 0 <= l < g.lhs ensures LeftHas(g, l, g.rhs) {
        HasMeans(g, l, g.rhs);
        assert l in Lefts(m);
        var i :| 0 <= i < |m| && Lefts(m)[i] == l;
        var (_, r) := m[i];
        assert (l, r) in g.edges;
      }
    }
  }

  /** The marking loops of VerifyMatchMatrix: flags every element and matcher that has an edge. */
  method MarkMatched(matrix: MatchMatrix, ghost g: Graph)
    returns (elementMatched: array<bool>, matcherMatched: array<bool>)
    requires matrix.Valid() && g == matrix.AsGraph()
    ensures elementMatched.Length == g.lhs && matcherMatched.Length == g.rhs
    ensures forall l :: 0 <= l < g.lhs ==> (elementMatched[l] <==> LeftHas(g, l, g.rhs))
    ensures forall r :: 0 <= r < g.rhs ==> (matcherMatched[r] <==> RightHas(g, r, g.lhs))
  {
    elementMatched := new bool[matrix.numElements](_ => false);
    matcherMatched := new bool[matrix.numMatchers](_ => false);
    for ilhs := 0 to matrix.numElements
      invariant forall l :: 0 <= l < ilhs ==> (elementMatched[l] <==> LeftHas(g, l, g.rhs))
      invariant forall l :: ilhs <= l < elementMatched.Length ==> !elementMatched[l]
      invariant forall r :: 0 <= r < matcherMatched.Length ==> (matcherMatched[r] <==> RightHas(g, r, ilhs))
    {
      for irhs := 0 to matrix.numMatchers
        invariant forall l :: 0 <= l < ilhs ==> (elementMatched[l] <==> LeftHas(g, l, g.rhs))
        invariant forall l :: ilhs < l < elementMatched.Length ==> !elementMatched[l]
        invariant elementMatched[ilhs] <==> LeftHas(g, ilhs, irhs)
        invariant forall r :: 0 <= r < irhs ==> (matcherMatched[r] <==> RightHas(g, r, ilhs + 1))
        invariant forall r :: irhs <= r < matcherMatched.Length ==> (matcherMatched[r] <==> RightHas(g, r, ilhs))
      {
        var matched := matrix.HasEdge(ilhs, irhs);
        elementMatched[ilhs] := elementMatched[ilhs] || matched;
        matcherMatched[irhs] := matcherMatched[irhs] || matched;
      }
    }
  }

  /** VerifyMatchMatrix: the cheap pre-check. */
  method VerifyMatchMatrix(matrix: MatchMatrix, flags: Require) returns (result: bool)
    requires matrix.Valid()
    ensures result <==> NoneIsolated(matrix.AsGraph(), flags)
    ensures flags == Superset ==> (result <==> MatchersLinked(matrix.AsGraph()))
    ensures flags == Subset ==> (result <==> ElementsLinked(matrix.AsGraph()))
    ensures flags == ExactMatch ==> (result <==> ElementsLinked(matrix.AsGraph()) && MatchersLinked(matrix.AsGraph()))
  {
    ghost var g := matrix.AsGraph();
    NoneIsolatedMeans(g, flags);
    hide LeftHas, RightHas, ElementsLinked, MatchersLinked;
    result := true;
    var elementMatched, matcherMatched := MarkMatched(matrix, g);
    if flags.NeedsMatchers() {
      for mi := 0 to matcherMatched.Length
        invariant result ==> forall r :: 0 <= r < mi ==> RightHas(g, r, g.lhs)
        invariant !result ==> exists r :: 0 <= r < g.rhs && !RightHas(g, r, g.lhs)
      {
        if !matcherMatched[mi] {
          assert !RightHas(g, mi, g.lhs);
          result := false;
        }
      }
    }
    assert !result ==> !NoneIsolated(g, flags);
    if flags.NeedsElements() {
      ghost var matchersOk := result;
      for ei := 0 to elementMatched.Length
        invariant result ==> matchersOk && forall l :: 0 <= l < ei ==> LeftHas(g, l, g.rhs)
        invariant !result ==> !NoneIsolated(g, flags)
      {
        if !elementMatched[ei] {
          assert !LeftHas(g, ei, g.rhs);
          result := false;
        }
      }
    }
  }

  /** FindPairing: whether an assignment as required by the flags exists. */
  method FindPairing(matrix: MatchMatrix, flags: Require) returns (found: bool)
    requires matrix.Valid()
    ensures found <==> Satisfiable(matrix.AsGraph(), flags)
    ensures flags == Superset ==>
      (found <==> exists m: Pairs :: IsMatching(matrix.AsGraph(), m) && CoversRight(matrix.AsGraph(), m))
    ensures flags == Subset ==>
      (found <==> exists m: Pairs :: IsMatching(matrix.AsGraph(), m) && CoversLeft(matrix.AsGraph(), m))
    ensures flags == ExactMatch ==>
      (found <==> exists m: Pairs ::
         IsMatching(matrix.AsGraph(), m) && CoversLeft(matrix.AsGraph(), m) && CoversRight(matrix.AsGraph(), m))
  {
    SatisfiableMeans(matrix.AsGraph(), flags);
    hide IsMatching, CoversLeft, CoversRight;
    var matches := FindMaxBipartiteMatching(matrix);
    MaximumDecides(matrix.AsGraph(), flags, matches);
    var maxFlow := |matches|;
    if flags.NeedsMatchers() && maxFlow < matrix.numMatchers {
      return false;
    }
    if flags.NeedsElements() && maxFlow < matrix.numElements {
      return false;
    }
    return true;
  }

  /** MatchAndExplain: its shortcuts never change the verdict of the pairing. */
  method MatchAndExplain(matrix: MatchMatrix, flags: Require) returns (matches: bool)
    requires matrix.Valid()
    ensures matches <==> Satisfiable(matrix.AsGraph(), flags)
    ensures flags == Superset ==>
      (matches <==> exists m: Pairs :: IsMatching(matrix.AsGraph(), m) && CoversRight(matrix.AsGraph(), m))
    ensures flags == Subset ==>
      (matches <==> exists m: Pairs :: IsMatching(matrix.AsGraph(), m) && CoversLeft(matrix.AsGraph(), m))
    ensures flags == ExactMatch ==>
      (matches <==> exists m: Pairs ::
         IsMatching(matrix.AsGraph(), m) && CoversLeft(matrix.AsGraph(), m) && CoversRight(matrix.AsGraph(), m))
  {
    ghost var g := matrix.AsGraph();
    SatisfiableMeans(g, flags);
    if matrix.numElements == 0 && matrix.numMatchers == 0 {
      assert Satisfies(g, flags, []);
      return true;
    }
    if flags == ExactMatch && matrix.numElements != matrix.numMatchers {
      forall m: Pairs ensures !Satisfies(g, flags, m) {
        if IsMatching(g, m) { MatchingSize(g, m); }
      }
      return false;
    }
    if Satisfiable(g, flags) {
      SatisfiableNotIsolated(g, flags);
    }
    matches := VerifyMatchMatrix(matrix, flags);
    if matches {
      matches := FindPairing(matrix, flags);
    }
  }
}

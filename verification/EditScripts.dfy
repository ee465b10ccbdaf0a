/** Edit scripts between two sequences, and the dynamic program of gtest.cc
    that computes one on interned lines. */
module EditScripts {

  datatype EditType = Match | Add | Remove | Replace

  /** The script consumes exactly left and produces exactly right: matches pair
      equal elements, replacements pair different ones. */
  ghost predicate Transforms<T>(edits: seq<EditType>, left: seq<T>, right: seq<T>) {
    if edits == [] then left == [] && right == []
    else
      match edits[0]
      case Match => left != [] && right != [] && left[0] == right[0] && Transforms(edits[1..], left[1..], right[1..])
      case Add => right != [] && Transforms(edits[1..], left, right[1..])
      case Remove => left != [] && Transforms(edits[1..], left[1..], right)
      case Replace => left != [] && right != [] && left[0] != right[0] && Transforms(edits[1..], left[1..], right[1..])
  }

  const REPLACE_WEIGHT: real := 1.00001

  function Weight(edit: EditType): real {
    match edit
    case Match => 0.0
    case Add => 1.0
    case Remove => 1.0
    case Replace => REPLACE_WEIGHT
  }

  ghost function TotalWeight(edits: seq<EditType>): real {
    if edits == [] then 0.0 else TotalWeight(edits[..|edits| - 1]) + Weight(edits[|edits| - 1])
  }

  /** The last move of the script for the prefixes left[..l] and right[..r]. */
  ghost function BestMove<T>(left: seq<T>, right: seq<T>, l: nat, r: nat): EditType
    requires l <= |left| && r <= |right|
    decreases l + r, 0
  {
    if r == 0 then Remove
    else if l == 0 then Add
    else if left[l - 1] == right[r - 1] then Match
    else
      var add, remove, replace :=
        Cost(left, right, l, r - 1), Cost(left, right, l - 1, r), Cost(left, right, l - 1, r - 1);
      if add < remove && add < replace then Add
      else if remove < add && remove < replace then Remove
      else Replace
  }

  /** The table entry for the prefixes left[..l] and right[..r]. */
  ghost function Cost<T>(left: seq<T>, right: seq<T>, l: nat, r: nat): real
    requires l <= |left| && r <= |right|
    decreases l + r, 1
  {
    if r == 0 then l as real
    else if l == 0 then r as real
    else
      match BestMove(left, right, l, r)
      case Match => Cost(left, right, l - 1, r - 1)
      case Add => Cost(left, right, l, r - 1) + 1.0
      case Remove => Cost(left, right, l - 1, r) + 1.0
      case Replace => Cost(left, right, l - 1, r - 1) + REPLACE_WEIGHT
  }

  /** The script the table spells out for the prefixes left[..l] and right[..r]. */
  ghost function Script<T>(left: seq<T>, right: seq<T>, l: nat, r: nat): seq<EditType>
    requires l <= |left| && r <= |right|
    decreases l + r
  {
    if l == 0 && r == 0 then []
    else
      var move := BestMove(left, right, l, r);
      Script(left, right, if move == Add then l else l - 1, if move == Remove then r else r - 1) + [move]
  }

  lemma {:induction false} TransformsSnoc<T>(edits: seq<EditType>, left: seq<T>, right: seq<T>, move: EditType,
                                             l: seq<T>, r: seq<T>)
    requires Transforms(edits, left, right) && Transforms([move], l, r)
    ensures Transforms(edits + [move], left + l, right + r)
  {
    if edits == [] {
      assert edits + [move] == [move] && left + l == l && right + r == r;
    } else {
      var left' := if edits[0] == Add then left else left[1..];
      var right' := if edits[0] == Remove then right else right[1..];
      TransformsSnoc(edits[1..], left', right', move, l, r);
      assert (edits + [move])[1..] == edits[1..] + [move];
      assert left' + l == if edits[0] == Add then left + l else (left + l)[1..];
      assert right' + r == if edits[0] == Remove then right + r else (right + r)[1..];
    }
  }

  lemma PrefixSplit<T>(s: seq<T>, i: nat, j: nat)
    requires i <= j <= |s|
    ensures s[..j] == s[..i] + s[i..j]
  {
  }

  lemma MoveTransforms<T>(left: seq<T>, right: seq<T>, l: nat, r: nat, move: EditType)
    requires l < |left| || move == Add
    requires r < |right| || move == Remove
    requires l <= |left| && r <= |right|
    requires (move == Match ==> left[l] == right[r]) && (move == Replace ==> left[l] != right[r])
    ensures Transforms([move], left[l..if move == Add then l else l + 1], right[r..if move == Remove then r else r + 1])
  {
    assert [move][1..] == [];
  }

  /** The script read off the table really edits left into right, and its weight
      is the table entry. */
  lemma {:induction false} ScriptTransforms<T>(left: seq<T>, right: seq<T>, l: nat, r: nat)
    requires l <= |left| && r <= |right|
    ensures Transforms(Script(left, right, l, r), left[..l], right[..r])
    ensures TotalWeight(Script(left, right, l, r)) == Cost(left, right, l, r)
    decreases l + r
  {
    if l != 0 || r != 0 {
      var move := BestMove(left, right, l, r);
      var l', r' := if move == Add then l else l - 1, if move == Remove then r else r - 1;
      ScriptTransforms(left, right, l', r');
      PrefixSplit(left, l', l);
      PrefixSplit(right, r', r);
      MoveTransforms(left, right, l', r', move);
      hide BestMove, Transforms;
      TransformsSnoc(Script(left, right, l', r'), left[..l'], right[..r'], move, left[l'..l], right[r'..r]);
    }
  }

  ghost predicate AllMatch(edits: seq<EditType>) {
    forall i :: 0 <= i < |edits| ==> edits[i] == Match
  }

  /** Equal last lines are always matched, whatever the tables say. */
  lemma LastLinesMatch<T>(left: seq<T>, right: seq<T>, l: nat, r: nat)
    requires 0 < l <= |left| && 0 < r <= |right| && left[l - 1] == right[r - 1]
    ensures Script(left, right, l, r) == Script(left, right, l - 1, r - 1) + [Match]
    ensures Cost(left, right, l, r) == Cost(left, right, l - 1, r - 1)
  {
  }

  /** Equal inputs give a script without edits; `AllMatchMeansEqual` says that only they do. */
  lemma {:induction false} EqualScript<T>(s: seq<T>, l: nat)
    requires l <= |s|
    ensures AllMatch(Script(s, s, l, l))
  {
    if l > 0 {
      EqualScript(s, l - 1);
    }
  }

  lemma {:induction false} AllMatchMeansEqual<T>(edits: seq<EditType>, left: seq<T>, right: seq<T>)
    requires Transforms(edits, left, right) && AllMatch(edits)
    ensures left == right
  {
    if edits != [] {
      AllMatchMeansEqual(edits[1..], left[1..], right[1..]);
      assert left == [left[0]] + left[1..] && right == [right[0]] + right[1..];
    }
  }

  ghost function Reversed<T>(s: seq<T>): (r: seq<T>)
    ensures |r| == |s|
  {
    if s == [] then [] else Reversed(s[1..]) + [s[0]]
  }

  lemma {:induction false} ReversedSnoc<T>(s: seq<T>, x: T)
    ensures Reversed(s + [x]) == [x] + Reversed(s)
  {
    if s != [] {
      ReversedSnoc(s[1..], x);
      assert (s + [x])[1..] == s[1..] + [x];
    }
  }

  method Reverse<T(0)>(s: seq<T>) returns (r: seq<T>)
    ensures r == Reversed(s)
  {
    r := [];
    for i := 0 to |s|
      invariant r == Reversed(s[..i])
    {
      assert s[..i + 1] == s[..i] + [s[i]];
      ReversedSnoc(s[..i], s[i]);
      r := [s[i]] + r;
    }
    assert s[..|s|] == s;
  }

  /** Row i of the tables is filled in below column n. */
  ghost predicate RowFilled(costs: array2<real>, bestMove: array2<EditType>, left: seq<nat>, right: seq<nat>, i: nat,
                            n: nat)
    requires costs.Length0 == bestMove.Length0 == |left| + 1 && costs.Length1 == bestMove.Length1 == |right| + 1
    requires i <= |left| && n <= |right| + 1
    reads costs, bestMove
  {
    forall j :: 0 <= j < n ==> costs[i, j] == Cost(left, right, i, j) && bestMove[i, j] == BestMove(left, right, i, j)
  }

  ghost predicate AllFilled(costs: array2<real>, bestMove: array2<EditType>, left: seq<nat>, right: seq<nat>, m: nat)
    requires costs.Length0 == bestMove.Length0 == |left| + 1 && costs.Length1 == bestMove.Length1 == |right| + 1
    requires m <= |left| + 1
    reads costs, bestMove
  {
    forall i, j :: 0 <= i < m && 0 <= j <= |right| ==>
      costs[i, j] == Cost(left, right, i, j) && bestMove[i, j] == BestMove(left, right, i, j)
  }

  /** The entries for an empty right side and for an empty left side. */
  method FillBorders(costs: array2<real>, bestMove: array2<EditType>, ghost left: seq<nat>, ghost right: seq<nat>)
    requires costs.Length0 == bestMove.Length0 == |left| + 1 && costs.Length1 == bestMove.Length1 == |right| + 1
    modifies costs, bestMove
    ensures forall i :: 0 <= i <= |left| ==> costs[i, 0] == i as real && bestMove[i, 0] == Remove
    ensures AllFilled(costs, bestMove, left, right, 1)
  {
    for l := 0 to costs.Length0
      invariant forall i :: 0 <= i < l ==> costs[i, 0] == i as real && bestMove[i, 0] == Remove
    {
      costs[l, 0] := l as real;
      bestMove[l, 0] := Remove;
    }
    for r := 1 to costs.Length1
      invariant forall i :: 0 <= i <= |left| ==> costs[i, 0] == i as real && bestMove[i, 0] == Remove
      invariant forall j :: 1 <= j < r ==> costs[0, j] == j as real && bestMove[0, j] == Add
    {
      costs[0, r] := r as real;
      bestMove[0, r] := Add;
    }
  }

  /** One row of the dynamic program, computed from the row before it. */
  method FillRow(costs: array2<real>, bestMove: array2<EditType>, left: seq<nat>, right: seq<nat>, l: nat)
    requires costs.Length0 == bestMove.Length0 == |left| + 1 && costs.Length1 == bestMove.Length1 == |right| + 1
    requires l < |left|
    requires RowFilled(costs, bestMove, left, right, l, |right| + 1)
    requires RowFilled(costs, bestMove, left, right, l + 1, 1)
    modifies costs, bestMove
    ensures RowFilled(costs, bestMove, left, right, l + 1, |right| + 1)
    ensures forall i, j :: 0 <= i <= |left| && i != l + 1 && 0 <= j <= |right| ==>
      costs[i, j] == old(costs[i, j]) && bestMove[i, j] == old(bestMove[i, j])
  {
    for r := 0 to |right|
      invariant forall i, j :: 0 <= i <= |left| && i != l + 1 && 0 <= j <= |right| ==>
        costs[i, j] == old(costs[i, j]) && bestMove[i, j] == old(bestMove[i, j])
      invariant RowFilled(costs, bestMove, left, right, l + 1, r + 1)
    {
      assert costs[l, r] == Cost(left, right, l, r) && costs[l, r + 1] == Cost(left, right, l, r + 1) by {
        assert costs[l, r] == old(costs[l, r]) && costs[l, r + 1] == old(costs[l, r + 1]);
      }
      assert costs[l + 1, r] == Cost(left, right, l + 1, r);
      if left[l] == right[r] {
        costs[l + 1, r + 1] := costs[l, r];
        bestMove[l + 1, r + 1] := Match;
      } else {
        var add := costs[l + 1, r];
        var remove := costs[l, r + 1];
        var replace := costs[l, r];
        if add < remove && add < replace {
          costs[l + 1, r + 1] := add + 1.0;
          bestMove[l + 1, r + 1] := Add;
        } else if remove < add && remove < replace {
          costs[l + 1, r + 1] := remove + 1.0;
          bestMove[l + 1, r + 1] := Remove;
        } else {
          costs[l + 1, r + 1] := replace + REPLACE_WEIGHT;
          bestMove[l + 1, r + 1] := Replace;
        }
      }
      assert bestMove[l + 1, r + 1] == BestMove(left, right, l + 1, r + 1);
      assert costs[l + 1, r + 1] == Cost(left, right, l + 1, r + 1);
    }
  }

  /** Reads the script off the moves, from the far corner back. */
  method WalkBack(costs: array2<real>, bestMove: array2<EditType>, ghost left: seq<nat>, ghost right: seq<nat>)
    returns (edits: seq<EditType>)
    requires costs.Length0 == bestMove.Length0 == |left| + 1 && costs.Length1 == bestMove.Length1 == |right| + 1
    requires AllFilled(costs, bestMove, left, right, |left| + 1)
    ensures edits == Script(left, right, |left|, |right|)
  {
    var bestPath: seq<EditType> := [];
    var l, r := costs.Length0 - 1, costs.Length1 - 1;
    while l > 0 || r > 0
      invariant 0 <= l <= |left| && 0 <= r <= |right|
      invariant Script(left, right, |left|, |right|) == Script(left, right, l, r) + Reversed(bestPath)
      decreases l + r
    {
      var move := bestMove[l, r];
      ReversedSnoc(bestPath, move);
      bestPath := bestPath + [move];
      l := if move != Add then l - 1 else l;
      r := if move != Remove then r - 1 else r;
    }
    edits := Reverse(bestPath);
  }

  /** CalculateOptimalEdits on interned lines: fills the cost and move tables row
      by row, then walks the moves back. */
  method CalculateOptimalEditIds(left: seq<nat>, right: seq<nat>) returns (edits: seq<EditType>)
    ensures edits == Script(left, right, |left|, |right|)
  {
    var costs := new real[|left| + 1, |right| + 1];
    var bestMove := new EditType[|left| + 1, |right| + 1];
    FillBorders(costs, bestMove, left, right);
    for l := 0 to |left|
      invariant AllFilled(costs, bestMove, left, right, l + 1)
      invariant forall i :: 0 <= i <= |left| ==> costs[i, 0] == i as real && bestMove[i, 0] == Remove
    {
      FillRow(costs, bestMove, left, right, l);
    }
    edits := WalkBack(costs, bestMove, left, right);
  }

  /** The script is not always a lightest one: turning xyx into yxy takes three
      replacements although one removal and one addition are enough. When adding
      and removing tie below replacing, the code still replaces. */
  lemma TieCounterexample()
    ensures var left: seq<nat>, right: seq<nat> := [0, 1, 0], [1, 0, 1];
      && Script(left, right, 3, 3) == [Replace, Replace, Replace]
      && Transforms([Remove, Match, Match, Add], left, right)
      && TotalWeight([Remove, Match, Match, Add]) < TotalWeight(Script(left, right, 3, 3))
  {
    TieScript();
    TieAlternative();
    TieWeights();
    hide Script, Transforms, TotalWeight;
  }

  lemma TieWeights()
    ensures TotalWeight([Replace, Replace, Replace]) == 3.0 * REPLACE_WEIGHT
    ensures TotalWeight([Remove, Match, Match, Add]) == 2.0
  {
    WeightSnoc([], Replace);
    WeightSnoc([Replace], Replace);
    WeightSnoc([Replace, Replace], Replace);
    WeightSnoc([], Remove);
    WeightSnoc([Remove], Match);
    WeightSnoc([Remove, Match], Match);
    WeightSnoc([Remove, Match, Match], Add);
    hide TotalWeight;
    assert [Replace] == [] + [Replace] && [Replace, Replace] == [Replace] + [Replace] &&
      [Replace, Replace, Replace] == [Replace, Replace] + [Replace];
    assert [Remove] == [] + [Remove] && [Remove, Match] == [Remove] + [Match] &&
      [Remove, Match, Match] == [Remove, Match] + [Match];
    assert [Remove, Match, Match, Add] == [Remove, Match, Match] + [Add];
  }

  lemma WeightSnoc(edits: seq<EditType>, e: EditType)
    ensures TotalWeight(edits + [e]) == TotalWeight(edits) + Weight(e) && TotalWeight([]) == 0.0
  {
    assert (edits + [e])[..|edits|] == edits;
  }

  lemma TieScript()
    ensures Script<nat>([0, 1, 0], [1, 0, 1], 3, 3) == [Replace, Replace, Replace]
  {
    var left: seq<nat>, right: seq<nat> := [0, 1, 0], [1, 0, 1];
    assert Cost(left, right, 1, 1) == REPLACE_WEIGHT;
    assert Cost(left, right, 2, 1) == 1.0 && Cost(left, right, 1, 2) == 1.0;
    assert BestMove(left, right, 3, 3) == Replace && BestMove(left, right, 2, 2) == Replace;
    assert Script(left, right, 1, 1) == [Replace];
    assert Script(left, right, 2, 2) == [Replace, Replace];
  }

  lemma TieAlternative()
    ensures Transforms<nat>([Remove, Match, Match, Add], [0, 1, 0], [1, 0, 1])
  {
    assert Transforms<nat>([Add], [], [1]);
    assert Transforms<nat>([Match, Match, Add], [1, 0], [1, 0, 1]);
  }
}

/** When the edit script of gtest.cc is a lightest one: exactly when no entry of the
    table is filled by replacing although adding or removing was lighter. */
module LightestScripts {
  import opened EditScripts

  /** A script for the prefixes left[..l] and right[..r]. */
  ghost predicate Edits<T>(edits: seq<EditType>, left: seq<T>, right: seq<T>, l: nat, r: nat)
    requires l <= |left| && r <= |right|
  {
    Transforms(edits, left[..l], right[..r])
  }

  ghost predicate IsLightest<T>(edits: seq<EditType>, left: seq<T>, right: seq<T>, l: nat, r: nat)
    requires l <= |left| && r <= |right|
  {
    && Edits(edits, left, right, l, r)
    && forall other :: Edits(other, left, right, l, r) ==> TotalWeight(edits) <= TotalWeight(other)
  }

  /** The code replaces here, although adding or removing is lighter. */
  ghost predicate Misjudged<T>(left: seq<T>, right: seq<T>, l: nat, r: nat)
    requires l <= |left| && r <= |right|
  {
    && l > 0 && r > 0 && BestMove(left, right, l, r) == Replace
    && (Cost(left, right, l, r - 1) + 1.0 < Cost(left, right, l - 1, r - 1) + REPLACE_WEIGHT ||
        Cost(left, right, l - 1, r) + 1.0 < Cost(left, right, l - 1, r - 1) + REPLACE_WEIGHT)
  }

  ghost predicate NoneMisjudged<T>(left: seq<T>, right: seq<T>, l: nat, r: nat)
    requires l <= |left| && r <= |right|
  {
    forall i, j :: 0 <= i <= l && 0 <= j <= r ==> !Misjudged(left, right, i, j)
  }

  // ----- the last edit of a script

  lemma {:induction false} LastEdit<T>(edits: seq<EditType>, left: seq<T>, right: seq<T>)
    requires Transforms(edits, left, right) && edits != []
    ensures var n := |edits| - 1; var e := edits[n];
      && (e != Add ==> left != []) && (e != Remove ==> right != [])
      && (e == Match ==> left[|left| - 1] == right[|right| - 1])
      && (e == Replace ==> left[|left| - 1] != right[|right| - 1])
      && Transforms(edits[..n], if e == Add then left else left[..|left| - 1],
                    if e == Remove then right else right[..|right| - 1])
  {
    var n := |edits| - 1;
    var first := edits[0];
    var left', right' := if first == Add then left else left[1..], if first == Remove then right else right[1..];
    if n == 0 {
      assert edits[1..] == [];
    } else {
      LastEdit(edits[1..], left', right');
      var e := edits[n];
      assert edits[1..][n - 1] == e && edits[1..][..n - 1] == edits[..n][1..];
      var l, l' := if e == Add then left else left[..|left| - 1], if e == Add then left' else left'[..|left'| - 1];
      var r := if e == Remove then right else right[..|right| - 1];
      var r' := if e == Remove then right' else right'[..|right'| - 1];
      assert l' == if first == Add then l else l[1..];
      assert r' == if first == Remove then r else r[1..];
    }
  }

  /** What is left of a script without its last edit is a script for shorter prefixes. */
  lemma WithoutLast<T>(edits: seq<EditType>, left: seq<T>, right: seq<T>, l: nat, r: nat)
    requires l <= |left| && r <= |right| && Edits(edits, left, right, l, r) && edits != []
    ensures var n := |edits| - 1; var e := edits[n];
      && (e != Add ==> l > 0) && (e != Remove ==> r > 0)
      && (e == Match ==> left[l - 1] == right[r - 1]) && (e == Replace ==> left[l - 1] != right[r - 1])
      && Edits(edits[..n], left, right, if e == Add then l else l - 1, if e == Remove then r else r - 1)
      && TotalWeight(edits) == TotalWeight(edits[..n]) + Weight(e)
  {
    LastEdit(edits, left[..l], right[..r]);
    hide Transforms;
    assert l > 0 ==> left[..l][..l - 1] == left[..l - 1];
    assert r > 0 ==> right[..r][..r - 1] == right[..r - 1];
  }

  /** One more edit makes a script for longer prefixes. */
  lemma WithOneMore<T>(edits: seq<EditType>, e: EditType, left: seq<T>, right: seq<T>, l: nat, r: nat)
    requires l <= |left| && r <= |right| && (e == Add || l > 0) && (e == Remove || r > 0)
    requires e == Match ==> left[l - 1] == right[r - 1]
    requires e == Replace ==> left[l - 1] != right[r - 1]
    requires Edits(edits, left, right, if e == Add then l else l - 1, if e == Remove then r else r - 1)
    ensures Edits(edits + [e], left, right, l, r)
    ensures TotalWeight(edits + [e]) == TotalWeight(edits) + Weight(e)
  {
    var l', r' := if e == Add then l else l - 1, if e == Remove then r else r - 1;
    PrefixSplit(left, l', l);
    PrefixSplit(right, r', r);
    MoveTransforms(left, right, l', r', e);
    TransformsSnoc(edits, left[..l'], right[..r'], e, left[l'..l], right[r'..r]);
    assert (edits + [e])[..|edits|] == edits;
  }

  // ----- one line less costs at most one edit more

  lemma {:induction false} DropLeft<T>(edits: seq<EditType>, left: seq<T>, right: seq<T>, l: nat, r: nat)
    returns (shorter: seq<EditType>)
    requires 0 < l <= |left| && r <= |right| && Edits(edits, left, right, l, r)
    ensures Edits(shorter, left, right, l - 1, r) && TotalWeight(shorter) <= TotalWeight(edits) + 1.0
  {
    assert edits != [];
    WithoutLast(edits, left, right, l, r);
    hide Edits;
    var init, e := edits[..|edits| - 1], edits[|edits| - 1];
    if e == Remove {
      shorter := init;
    } else if e == Add {
      var rest := DropLeft(init, left, right, l, r - 1);
      shorter := rest + [Add];
      WithOneMore(rest, Add, left, right, l - 1, r);
    } else {
      shorter := init + [Add];
      WithOneMore(init, Add, left, right, l - 1, r);
    }
  }

  lemma {:induction false} DropRight<T>(edits: seq<EditType>, left: seq<T>, right: seq<T>, l: nat, r: nat)
    returns (shorter: seq<EditType>)
    requires l <= |left| && 0 < r <= |right| && Edits(edits, left, right, l, r)
    ensures Edits(shorter, left, right, l, r - 1) && TotalWeight(shorter) <= TotalWeight(edits) + 1.0
  {
    assert edits != [];
    WithoutLast(edits, left, right, l, r);
    hide Edits;
    var init, e := edits[..|edits| - 1], edits[|edits| - 1];
    if e == Add {
      shorter := init;
    } else if e == Remove {
      var rest := DropRight(init, left, right, l - 1, r);
      shorter := rest + [Remove];
      WithOneMore(rest, Remove, left, right, l, r - 1);
    } else {
      shorter := init + [Remove];
      WithOneMore(init, Remove, left, right, l, r - 1);
    }
  }

  // ----- the table is a lower bound

  /** Without a misjudged entry no script is lighter than the table says. */
  lemma {:induction false} TableIsLowerBound<T>(edits: seq<EditType>, left: seq<T>, right: seq<T>, l: nat, r: nat)
    requires l <= |left| && r <= |right| && Edits(edits, left, right, l, r) && NoneMisjudged(left, right, l, r)
    ensures Cost(left, right, l, r) <= TotalWeight(edits)
    decreases l + r
  {
    if l > 0 || r > 0 {
      assert edits != [];
      WithoutLast(edits, left, right, l, r);
      hide Edits, Transforms;
      var init, e := edits[..|edits| - 1], edits[|edits| - 1];
      if l > 0 && r > 0 && left[l - 1] == right[r - 1] {
        var shorter := init;
        if e == Add {
          shorter := DropLeft(init, left, right, l, r - 1);
        } else if e == Remove {
          shorter := DropRight(init, left, right, l - 1, r);
        }
        TableIsLowerBound(shorter, left, right, l - 1, r - 1);
      } else {
        TableIsLowerBound(init, left, right, if e == Add then l else l - 1, if e == Remove then r else r - 1);
        CheapestMove(left, right, l, r, e);
      }
    }
  }

  /** The entry is no heavier than each of the three moves. */
  lemma CheapestMove<T>(left: seq<T>, right: seq<T>, l: nat, r: nat, e: EditType)
    requires l <= |left| && r <= |right| && l + r > 0 && !Misjudged(left, right, l, r)
    requires (e == Add || l > 0) && (e == Remove || r > 0)
    requires l > 0 && r > 0 ==> left[l - 1] != right[r - 1]
    requires e != Match
    ensures Cost(left, right, l, r) <=
      Cost(left, right, if e == Add then l else l - 1, if e == Remove then r else r - 1) + Weight(e)
  {
  }

  /** The script is a lightest one for every pair of prefixes if and only if no entry
      is misjudged. */
  lemma LightestExactly<T>(left: seq<T>, right: seq<T>)
    ensures NoneMisjudged(left, right, |left|, |right|) <==>
      forall l, r :: 0 <= l <= |left| && 0 <= r <= |right| ==> IsLightest(Script(left, right, l, r), left, right, l, r)
  {
    if NoneMisjudged(left, right, |left|, |right|) {
      forall l, r | 0 <= l <= |left| && 0 <= r <= |right|
        ensures IsLightest(Script(left, right, l, r), left, right, l, r)
      {
        LightestWithout(left, right, l, r);
      }
    } else {
      var l, r :| 0 <= l <= |left| && 0 <= r <= |right| && Misjudged(left, right, l, r);
      NotLightest(left, right, l, r);
    }
  }

  /** In particular the whole script is a lightest one if no entry is misjudged. */
  lemma LightestWithout<T>(left: seq<T>, right: seq<T>, l: nat, r: nat)
    requires l <= |left| && r <= |right| && NoneMisjudged(left, right, l, r)
    ensures IsLightest(Script(left, right, l, r), left, right, l, r)
  {
    ScriptTransforms(left, right, l, r);
    forall other | Edits(other, left, right, l, r)
      ensures TotalWeight(Script(left, right, l, r)) <= TotalWeight(other)
    {
      TableIsLowerBound(other, left, right, l, r);
    }
  }

  /** At a misjudged entry there is a lighter script. */
  lemma NotLightest<T>(left: seq<T>, right: seq<T>, l: nat, r: nat)
    requires l <= |left| && r <= |right| && Misjudged(left, right, l, r)
    ensures !IsLightest(Script(left, right, l, r), left, right, l, r)
  {
    ScriptTransforms(left, right, l, r);
    var e := if Cost(left, right, l, r - 1) + 1.0 < Cost(left, right, l, r) then Add else Remove;
    var l', r' := if e == Add then l else l - 1, if e == Remove then r else r - 1;
    ScriptTransforms(left, right, l', r');
    var lighter := Script(left, right, l', r') + [e];
    WithOneMore(Script(left, right, l', r'), e, left, right, l, r);
    assert TotalWeight(lighter) < TotalWeight(Script(left, right, l, r));
  }

  // ----- misled by a tie

  /** Adding or removing is lighter than replacing, but they tie, or the entry that
      replacing starts from is no heavier than either of theirs. */
  ghost predicate Misled<T>(left: seq<T>, right: seq<T>, l: nat, r: nat)
    requires 0 < l <= |left| && 0 < r <= |right|
  {
    var add, remove, replace :=
      Cost(left, right, l, r - 1), Cost(left, right, l - 1, r), Cost(left, right, l - 1, r - 1);
    && left[l - 1] != right[r - 1]
    && (add < replace + 0.00001 || remove < replace + 0.00001)
    && (add == remove || (replace <= add && replace <= remove))
  }

  ghost predicate NoneMisled<T>(left: seq<T>, right: seq<T>) {
    forall l, r :: 0 < l <= |left| && 0 < r <= |right| ==> !Misled(left, right, l, r)
  }

  /** The code replaces too early exactly where it is misled: it adds or removes wherever
      one of them alone has the lightest start. */
  lemma MisjudgedExactly<T>(left: seq<T>, right: seq<T>, l: nat, r: nat)
    requires l <= |left| && r <= |right|
    ensures Misjudged(left, right, l, r) <==> l > 0 && r > 0 && Misled(left, right, l, r)
  {
    if l > 0 && r > 0 {
      var add, remove, replace :=
        Cost(left, right, l, r - 1), Cost(left, right, l - 1, r), Cost(left, right, l - 1, r - 1);
      assert Misjudged(left, right, l, r) <==>
        left[l - 1] != right[r - 1] && BestMove(left, right, l, r) == Replace &&
        (add + 1.0 < replace + REPLACE_WEIGHT || remove + 1.0 < replace + REPLACE_WEIGHT);
      hide Cost;
    }
  }

  lemma LightestUnlessMisled<T>(left: seq<T>, right: seq<T>)
    requires NoneMisled(left, right)
    ensures IsLightest(Script(left, right, |left|, |right|), left, right, |left|, |right|)
    ensures forall other :: Transforms(other, left, right) ==>
      TotalWeight(Script(left, right, |left|, |right|)) <= TotalWeight(other)
  {
    forall l, r | 0 <= l <= |left| && 0 <= r <= |right| ensures !Misjudged(left, right, l, r) {
      MisjudgedExactly(left, right, l, r);
    }
    hide Misjudged, Misled, Script;
    LightestWithout(left, right, |left|, |right|);
    assert left[..|left|] == left && right[..|right|] == right;
    forall other | Transforms(other, left, right)
      ensures TotalWeight(Script(left, right, |left|, |right|)) <= TotalWeight(other)
    {
      assert Edits(other, left, right, |left|, |right|);
    }
  }

  /** The weight of a script counts its edits, a replacement a little more than the others. */
  lemma {:induction false} WeightCounts(edits: seq<EditType>)
    ensures TotalWeight(edits) == CountOf(Add, edits) as real + CountOf(Remove, edits) as real
      + 1.00001 * CountOf(Replace, edits) as real
  {
    if edits != [] {
      WeightCounts(edits[..|edits| - 1]);
    }
  }

  ghost function CountOf(e: EditType, edits: seq<EditType>): nat {
    if edits == [] then 0 else CountOf(e, edits[..|edits| - 1]) + (if edits[|edits| - 1] == e then 1 else 0)
  }

  // ----- one script alone

  function Min(a: real, b: real): real { if a <= b then a else b }

  /** The textbook table, which takes the cheapest of the three moves. */
  ghost function MinCost<T>(left: seq<T>, right: seq<T>, l: nat, r: nat): real
    requires l <= |left| && r <= |right|
    decreases l + r
  {
    if r == 0 then l as real
    else if l == 0 then r as real
    else if left[l - 1] == right[r - 1] then MinCost(left, right, l - 1, r - 1)
    else
      Min(MinCost(left, right, l, r - 1) + 1.0,
          Min(MinCost(left, right, l - 1, r) + 1.0, MinCost(left, right, l - 1, r - 1) + REPLACE_WEIGHT))
  }

  /** No script is lighter than the textbook table says, */
  lemma {:induction false} MinIsLowerBound<T>(edits: seq<EditType>, left: seq<T>, right: seq<T>, l: nat, r: nat)
    requires l <= |left| && r <= |right| && Edits(edits, left, right, l, r)
    ensures MinCost(left, right, l, r) <= TotalWeight(edits)
    decreases l + r
  {
    if l > 0 || r > 0 {
      assert edits != [];
      WithoutLast(edits, left, right, l, r);
      hide Edits, Transforms;
      var init, e := edits[..|edits| - 1], edits[|edits| - 1];
      if l > 0 && r > 0 && left[l - 1] == right[r - 1] {
        var shorter := init;
        if e == Add {
          shorter := DropLeft(init, left, right, l, r - 1);
        } else if e == Remove {
          shorter := DropRight(init, left, right, l - 1, r);
        }
        MinIsLowerBound(shorter, left, right, l - 1, r - 1);
      } else {
        MinIsLowerBound(init, left, right, if e == Add then l else l - 1, if e == Remove then r else r - 1);
      }
    }
  }

  /** and some script is as light. */
  lemma {:induction false} MinIsAttained<T>(left: seq<T>, right: seq<T>, l: nat, r: nat) returns (edits: seq<EditType>)
    requires l <= |left| && r <= |right|
    ensures Edits(edits, left, right, l, r) && TotalWeight(edits) == MinCost(left, right, l, r)
    decreases l + r
  {
    edits := [];
    if l > 0 || r > 0 {
      var e := CheapestOf(left, right, l, r);
      var init := MinIsAttained(left, right, if e == Add then l else l - 1, if e == Remove then r else r - 1);
      hide Edits, MinCost;
      WithOneMore(init, e, left, right, l, r);
      edits := init + [e];
    }
  }

  lemma CheapestOf<T>(left: seq<T>, right: seq<T>, l: nat, r: nat) returns (e: EditType)
    requires l <= |left| && r <= |right| && l + r > 0
    ensures (e == Add || l > 0) && (e == Remove || r > 0)
    ensures (e == Match ==> left[l - 1] == right[r - 1]) && (e == Replace ==> left[l - 1] != right[r - 1])
    ensures MinCost(left, right, l, r) ==
      MinCost(left, right, if e == Add then l else l - 1, if e == Remove then r else r - 1) + Weight(e)
  {
    if r == 0 {
      e := Remove;
    } else if l == 0 {
      e := Add;
    } else if left[l - 1] == right[r - 1] {
      e := Match;
    } else if MinCost(left, right, l, r) == MinCost(left, right, l, r - 1) + 1.0 {
      e := Add;
    } else if MinCost(left, right, l, r) == MinCost(left, right, l - 1, r) + 1.0 {
      e := Remove;
    } else {
      e := Replace;
    }
  }

  /** The script is a lightest one if and only if its table entry is the textbook's. */
  lemma ScriptIsLightestExactly<T>(left: seq<T>, right: seq<T>, l: nat, r: nat)
    requires l <= |left| && r <= |right|
    ensures IsLightest(Script(left, right, l, r), left, right, l, r) <==>
      Cost(left, right, l, r) == MinCost(left, right, l, r)
  {
    ScriptTransforms(left, right, l, r);
    MinIsLowerBound(Script(left, right, l, r), left, right, l, r);
    var lightest := MinIsAttained(left, right, l, r);
    hide Cost, MinCost, Script;
    forall other | Edits(other, left, right, l, r) ensures MinCost(left, right, l, r) <= TotalWeight(other) {
      MinIsLowerBound(other, left, right, l, r);
    }
  }

  /** A misjudged entry off the way back does no harm: turning xyx into yxyxyx meets one,
      and the script is a lightest one all the same. */
  lemma MisjudgedOffTheWay()
    ensures var left: seq<nat>, right: seq<nat> := [0, 1, 0], [1, 0, 1, 0, 1, 0];
      Misjudged(left, right, 3, 3) && IsLightest(Script(left, right, 3, 6), left, right, 3, 6)
  {
    var left: seq<nat>, right: seq<nat> := [0, 1, 0], [1, 0, 1, 0, 1, 0];
    assert Cost(left, right, 1, 1) == REPLACE_WEIGHT;
    assert Cost(left, right, 2, 1) == 1.0 && Cost(left, right, 1, 2) == 1.0;
    assert Cost(left, right, 2, 2) == Cost(left, right, 1, 1) + REPLACE_WEIGHT;
    assert Misjudged(left, right, 3, 3);
    assert Cost(left, right, 1, 4) == 3.0 && MinCost(left, right, 1, 4) == 3.0;
    assert Cost(left, right, 3, 6) == 3.0 && MinCost(left, right, 3, 6) == 3.0;
    ScriptIsLightestExactly(left, right, 3, 6);
  }
}

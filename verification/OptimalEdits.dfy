/** CalculateOptimalEdits of gtest.cc on lines of text: the lines are interned, and the
    dynamic program runs on their ids. */
module OptimalEdits {
  import opened EditScripts
  import opened LightestScripts

  /** Interns lines: equal lines get equal ids, different lines different ids. */
  class InternalStrings {
    var ids: map<string, nat>

    ghost predicate Valid()
      reads this
    {
      && (forall s :: s in ids ==> ids[s] < |ids|)
      && (forall s, t :: s in ids && t in ids && ids[s] == ids[t] ==> s == t)
    }

    constructor ()
      ensures Valid() && ids == map[]
    {
      ids := map[];
    }

    method GetId(str: string) returns (id: nat)
      requires Valid()
      modifies this
      ensures Valid()
      ensures str in ids && ids[str] == id
      ensures forall s :: s in old(ids) ==> s in ids && ids[s] == old(ids[s])
    {
      if str in ids {
        id := ids[str];
      } else {
        id := |ids|;
        ids := ids[str := id];
      }
    }
  }

  /** The lines with ids are told apart exactly as the ids are. */
  ghost predicate Interned(ids: map<string, nat>, lines: seq<string>, lineIds: seq<nat>) {
    && |lines| == |lineIds|
    && forall i :: 0 <= i < |lines| ==> lines[i] in ids && ids[lines[i]] == lineIds[i]
  }

  lemma {:induction false} InternedTransforms(ids: map<string, nat>, edits: seq<EditType>,
                                              left: seq<string>, right: seq<string>,
                                              leftIds: seq<nat>, rightIds: seq<nat>)
    requires forall s, t :: s in ids && t in ids && ids[s] == ids[t] ==> s == t
    requires Interned(ids, left, leftIds) && Interned(ids, right, rightIds)
    ensures Transforms(edits, leftIds, rightIds) <==> Transforms(edits, left, right)
  {
    if edits != [] {
      if edits[0] == Add && right != [] {
        InternedTransforms(ids, edits[1..], left, right[1..], leftIds, rightIds[1..]);
      } else if edits[0] == Remove && left != [] {
        InternedTransforms(ids, edits[1..], left[1..], right, leftIds[1..], rightIds);
      } else if left != [] && right != [] {
        InternedTransforms(ids, edits[1..], left[1..], right[1..], leftIds[1..], rightIds[1..]);
      }
    }
  }

  method Intern(table: InternalStrings, lines: seq<string>) returns (ids: seq<nat>)
    requires table.Valid()
    modifies table
    ensures table.Valid() && Interned(table.ids, lines, ids)
    ensures forall s :: s in old(table.ids) ==> s in table.ids && table.ids[s] == old(table.ids[s])
  {
    ids := [];
    for i := 0 to |lines|
      invariant table.Valid() && Interned(table.ids, lines[..i], ids)
      invariant forall s :: s in old(table.ids) ==> s in table.ids && table.ids[s] == old(table.ids[s])
    {
      var id := table.GetId(lines[i]);
      ids := ids + [id];
    }
    assert lines[..|lines|] == lines;
  }

  /** Elements of the two pairs of sequences are equal in the same places. */
  ghost predicate EqualAlike<S, T>(left: seq<S>, right: seq<S>, left': seq<T>, right': seq<T>) {
    && |left| == |left'| && |right| == |right'|
    && forall i, j :: 0 <= i < |left| && 0 <= j < |right| ==> (left[i] == right[j] <==> left'[i] == right'[j])
  }

  lemma InternedAlike(ids: map<string, nat>, left: seq<string>, right: seq<string>, leftIds: seq<nat>,
                      rightIds: seq<nat>)
    requires forall s, t :: s in ids && t in ids && ids[s] == ids[t] ==> s == t
    requires Interned(ids, left, leftIds) && Interned(ids, right, rightIds)
    ensures EqualAlike(left, right, leftIds, rightIds)
  {
  }

  lemma SameMove<S, T>(left: seq<S>, right: seq<S>, left': seq<T>, right': seq<T>, l: nat, r: nat)
    requires EqualAlike(left, right, left', right') && l <= |left| == |left'| && r <= |right| == |right'|
    requires l > 0 && r > 0 ==>
      && Cost(left, right, l, r - 1) == Cost(left', right', l, r - 1)
      && Cost(left, right, l - 1, r) == Cost(left', right', l - 1, r)
      && Cost(left, right, l - 1, r - 1) == Cost(left', right', l - 1, r - 1)
    ensures BestMove(left, right, l, r) == BestMove(left', right', l, r)
    ensures Cost(left, right, l, r) == Cost(left', right', l, r)
  {
    if l > 0 && r > 0 {
      assert left[l - 1] == right[r - 1] <==> left'[l - 1] == right'[r - 1];
    }
  }

  /** The tables compare elements only, so they are the same for the ids and for the lines. */
  lemma {:induction false} SameCost<S, T>(left: seq<S>, right: seq<S>, left': seq<T>, right': seq<T>, l: nat, r: nat)
    requires EqualAlike(left, right, left', right') && l <= |left| == |left'| && r <= |right| == |right'|
    ensures BestMove(left, right, l, r) == BestMove(left', right', l, r)
    ensures Cost(left, right, l, r) == Cost(left', right', l, r)
    decreases l + r
  {
    hide BestMove, Cost, EqualAlike;
    if l > 0 && r > 0 {
      SameCost(left, right, left', right', l, r - 1);
      SameCost(left, right, left', right', l - 1, r);
      SameCost(left, right, left', right', l - 1, r - 1);
    }
    SameMove(left, right, left', right', l, r);
  }

  lemma {:induction false} SameScript<S, T>(left: seq<S>, right: seq<S>, left': seq<T>, right': seq<T>, l: nat, r: nat)
    requires EqualAlike(left, right, left', right') && l <= |left| == |left'| && r <= |right| == |right'|
    ensures Script(left, right, l, r) == Script(left', right', l, r)
    decreases l + r
  {
    if l > 0 || r > 0 {
      SameCost(left, right, left', right', l, r);
      var move := BestMove(left, right, l, r);
      SameScript(left, right, left', right', if move == Add then l else l - 1, if move == Remove then r else r - 1);
    }
  }

  /** CalculateOptimalEdits on lines of text. The script is a lightest one unless somewhere
      the code is misled: there adding or removing is lighter than replacing, but the two
      tie or replacing has the lightest start. */
  method CalculateOptimalEdits(left: seq<string>, right: seq<string>) returns (edits: seq<EditType>)
    ensures Transforms(edits, left, right)
    ensures AllMatch(edits) <==> left == right
    ensures edits == Script(left, right, |left|, |right|)
    ensures NoneMisled(left, right) ==>
      forall other :: Transforms(other, left, right) ==> TotalWeight(edits) <= TotalWeight(other)
  {
    var table := new InternalStrings();
    var leftIds := Intern(table, left);
    var rightIds := Intern(table, right);
    edits := CalculateOptimalEditIds(leftIds, rightIds);
    InternedAlike(table.ids, left, right, leftIds, rightIds);
    SameScript(left, right, leftIds, rightIds, |left|, |right|);
    ScriptTransforms(left, right, |left|, |right|);
    assert left[..|left|] == left && right[..|right|] == right;
    hide Script, BestMove, Cost;
    if left == right {
      EqualScript(left, |left|);
    }
    if AllMatch(edits) {
      AllMatchMeansEqual(edits, left, right);
    }
    if NoneMisled(left, right) {
      LightestUnlessMisled(left, right);
    }
  }
}

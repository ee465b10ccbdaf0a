/** CreateUnifiedDiff of gtest.cc: cutting an edit script into hunks. */
module DiffHunks {
  import opened EditScripts
  import opened LightestScripts
  import opened OptimalEdits
  import opened UnifiedDiffs

  /** The number of consecutive matches from position e on. */
  ghost function Run(edits: seq<EditType>, e: nat): (n: nat)
    requires e <= |edits|
    ensures e + n <= |edits|
    ensures e + n < |edits| ==> edits[e + n] != Match
    ensures forall i :: e <= i < e + n ==> edits[i] == Match
    decreases |edits| - e
  {
    if e < |edits| && edits[e] == Match then 1 + Run(edits, e + 1) else 0
  }

  /** How many lines of left, and of right, the first e edits consume. */
  ghost function LeftPos(edits: seq<EditType>, e: nat): nat
    requires e <= |edits|
  {
    if e == 0 then 0 else LeftPos(edits, e - 1) + (if edits[e - 1] != Add then 1 else 0)
  }

  ghost function RightPos(edits: seq<EditType>, e: nat): nat
    requires e <= |edits|
  {
    if e == 0 then 0 else RightPos(edits, e - 1) + (if edits[e - 1] != Remove then 1 else 0)
  }

  /** The edits es..ee of one hunk; `last` is the last edit that is not a match. */
  datatype Span = Span(es: nat, last: nat, ee: nat)

  ghost function PlaceOf(edits: seq<EditType>, s: Span): Place
    requires s.es <= |edits| && s.ee <= |edits|
  {
    Place(LeftPos(edits, s.es), LeftPos(edits, s.ee), RightPos(edits, s.es), RightPos(edits, s.ee))
  }

  /** A hunk begins and ends with `context` matches, or with all there are up to
      the end of the input. Two successive edits are in the same hunk exactly
      when fewer than twice `context` matches lie between them. */
  ghost predicate WellCut(edits: seq<EditType>, s: Span, context: nat) {
    && s.es <= s.last < s.ee <= |edits|
    && var first := s.es + Run(edits, s.es);
    && first <= s.last && (first - s.es == context || (first - s.es < context && s.es == 0))
    && edits[s.last] != Match
    && s.ee <= s.last + 1 + Run(edits, s.last + 1)
    && (s.ee - s.last - 1 == context || (s.ee - s.last - 1 < context && s.ee == |edits|))
    && (s.last + 1 + Run(edits, s.last + 1) < |edits| ==> Run(edits, s.last + 1) >= 2 * context)
    && forall i :: first <= i < s.last && edits[i] != Match ==>
         i + 1 + Run(edits, i + 1) <= s.last && Run(edits, i + 1) < 2 * context
  }

  ghost function EndOf(spans: seq<Span>): nat {
    if spans == [] then 0 else spans[|spans| - 1].ee
  }

  /** The spans, in order, contain every edit below e that is not a match. */
  ghost predicate Cuts(edits: seq<EditType>, spans: seq<Span>, context: nat, e: nat) {
    && EndOf(spans) <= e <= |edits|
    && (forall i :: EndOf(spans) <= i < e ==> edits[i] == Match)
    && (spans != [] ==>
         var s := spans[|spans| - 1];
         WellCut(edits, s, context) && Cuts(edits, spans[..|spans| - 1], context, s.es))
  }

  /** The hunk h stands for the lines the span s consumes, removals first. */
  ghost predicate PrintsOne(h: PrintedHunk, s: Span, edits: seq<EditType>, left: seq<string>, right: seq<string>) {
    && s.es <= |edits| && s.ee <= |edits|
    && var p := PlaceOf(edits, s);
    Placed(h, left, right, p.ls, p.le, p.rs, p.re) && RemovesFirst(h.lines)
  }

  ghost predicate Prints(hunks: seq<PrintedHunk>, spans: seq<Span>, edits: seq<EditType>, left: seq<string>,
                         right: seq<string>) {
    && |hunks| == |spans|
    && forall k :: 0 <= k < |spans| ==> PrintsOne(hunks[k], spans[k], edits, left, right)
  }

  ghost function PlacesOf(edits: seq<EditType>, spans: seq<Span>): (places: seq<Place>)
    requires forall k :: 0 <= k < |spans| ==> spans[k].es <= |edits| && spans[k].ee <= |edits|
  {
    seq(|spans|, k requires 0 <= k < |spans| => PlaceOf(edits, spans[k]))
  }

  /** After e edits, what is left of the script transforms what is left of the texts. */
  lemma {:induction false} TransformsFrom(edits: seq<EditType>, left: seq<string>, right: seq<string>, e: nat)
    requires Transforms(edits, left, right) && e <= |edits|
    ensures LeftPos(edits, e) <= |left| && RightPos(edits, e) <= |right|
    ensures Transforms(edits[e..], left[LeftPos(edits, e)..], right[RightPos(edits, e)..])
    ensures e == |edits| ==> LeftPos(edits, e) == |left| && RightPos(edits, e) == |right|
  {
    if e == 0 {
      assert edits[0..] == edits && left[0..] == left && right[0..] == right;
    } else {
      TransformsFrom(edits, left, right, e - 1);
      var l, r := LeftPos(edits, e - 1), RightPos(edits, e - 1);
      assert edits[e - 1..][1..] == edits[e..];
      assert edits[e - 1] != Add ==> left[l..][1..] == left[l + 1..];
      assert edits[e - 1] != Remove ==> right[r..][1..] == right[r + 1..];
    }
  }

  /** One edit consumes the next line of the sides it concerns. */
  lemma EditAt(edits: seq<EditType>, left: seq<string>, right: seq<string>, e: nat)
    requires Transforms(edits, left, right) && e < |edits|
    ensures edits[e] != Add ==> LeftPos(edits, e) < |left|
    ensures edits[e] != Remove ==> RightPos(edits, e) < |right|
    ensures edits[e] == Match ==> left[LeftPos(edits, e)] == right[RightPos(edits, e)]
  {
    TransformsFrom(edits, left, right, e);
  }

  lemma SliceSnoc<T>(s: seq<T>, i: nat, j: nat)
    requires i <= j < |s|
    ensures s[i..j + 1] == s[i..j] + [s[j]]
  {
  }

  /** A stretch of matches consumes equal lines. */
  lemma {:induction false} MatchStretch(edits: seq<EditType>, left: seq<string>, right: seq<string>, a: nat, b: nat)
    requires Transforms(edits, left, right) && a <= b <= |edits|
    requires forall i :: a <= i < b ==> edits[i] == Match
    ensures LeftPos(edits, b) == LeftPos(edits, a) + b - a <= |left|
    ensures RightPos(edits, b) == RightPos(edits, a) + b - a <= |right|
    ensures left[LeftPos(edits, a)..LeftPos(edits, b)] == right[RightPos(edits, a)..RightPos(edits, b)]
  {
    TransformsFrom(edits, left, right, a);
    if a < b {
      MatchStretch(edits, left, right, a, b - 1);
      EditAt(edits, left, right, b - 1);
      PosNext(edits, b - 1);
      hide Transforms, LeftPos, RightPos;
      SliceSnoc(left, LeftPos(edits, a), LeftPos(edits, b - 1));
      SliceSnoc(right, RightPos(edits, a), RightPos(edits, b - 1));
    }
  }

  /** Printed, well cut spans cover both texts. */
  lemma {:induction false} CutsCover(hunks: seq<PrintedHunk>, spans: seq<Span>, edits: seq<EditType>,
                                     left: seq<string>, right: seq<string>, context: nat, e: nat)
    requires Transforms(edits, left, right)
    requires Cuts(edits, spans, context, e) && Prints(hunks, spans, edits, left, right)
    ensures LeftPos(edits, e) <= |left| && RightPos(edits, e) <= |right|
    ensures Covers(hunks, PlacesOf(edits, spans), left, right, LeftPos(edits, e), RightPos(edits, e))
  {
    hide Run, WellCut, PrintsOne, Transforms, LeftPos, RightPos, Covers;
    MatchStretch(edits, left, right, EndOf(spans), e);
    PrintsInRange(hunks, spans, edits, left, right);
    if spans != [] {
      var k := |spans| - 1;
      CutsCover(hunks[..k], spans[..k], edits, left, right, context, spans[k].es);
      PlacesPrefix(edits, spans);
      CoversOneMore(hunks, spans, edits, left, right, e);
    } else {
      assert hunks == [] && PlacesOf(edits, spans) == [];
      CoversNothing(left, right, LeftPos(edits, e), RightPos(edits, e));
    }
  }

  lemma PrintsInRange(hunks: seq<PrintedHunk>, spans: seq<Span>, edits: seq<EditType>, left: seq<string>,
                      right: seq<string>)
    requires Prints(hunks, spans, edits, left, right)
    ensures forall k :: 0 <= k < |spans| ==> spans[k].es <= |edits| && spans[k].ee <= |edits|
    ensures LeftPos(edits, 0) == RightPos(edits, 0) == 0
  {
    hide Placed, LeftPos, RightPos;
    assert forall k :: 0 <= k < |spans| ==> PrintsOne(hunks[k], spans[k], edits, left, right);
    PosStart(edits);
  }

  lemma PosStart(edits: seq<EditType>)
    ensures LeftPos(edits, 0) == RightPos(edits, 0) == 0
  {
  }

  lemma CoversNothing(left: seq<string>, right: seq<string>, l: nat, r: nat)
    requires l <= |left| && r <= |right| && left[..l] == right[..r]
    ensures Covers([], [], left, right, l, r)
  {
  }

  /** One more printed span, with matches behind it. */
  lemma CoversOneMore(hunks: seq<PrintedHunk>, spans: seq<Span>, edits: seq<EditType>, left: seq<string>,
                      right: seq<string>, e: nat)
    requires |hunks| == |spans| > 0 && e <= |edits|
    requires forall k :: 0 <= k < |spans| ==> spans[k].es <= |edits| && spans[k].ee <= |edits|
    requires var n := |spans| - 1;
      && PrintsOne(hunks[n], spans[n], edits, left, right)
      && Covers(hunks[..n], PlacesOf(edits, spans)[..n], left, right, LeftPos(edits, spans[n].es),
                RightPos(edits, spans[n].es))
    requires LeftPos(edits, EndOf(spans)) <= LeftPos(edits, e) <= |left|
    requires RightPos(edits, EndOf(spans)) <= RightPos(edits, e) <= |right|
    requires left[LeftPos(edits, EndOf(spans))..LeftPos(edits, e)] ==
      right[RightPos(edits, EndOf(spans))..RightPos(edits, e)]
    ensures Covers(hunks, PlacesOf(edits, spans), left, right, LeftPos(edits, e), RightPos(edits, e))
  {
    hide LeftPos, RightPos, Placed;
  }

  lemma PlacesPrefix(edits: seq<EditType>, spans: seq<Span>)
    requires spans != [] && forall k :: 0 <= k < |spans| ==> spans[k].es <= |edits| && spans[k].ee <= |edits|
    ensures PlacesOf(edits, spans)[..|spans| - 1] == PlacesOf(edits, spans[..|spans| - 1])
  {
    hide PlaceOf;
  }

  lemma {:induction false} RunSplit(edits: seq<EditType>, a: nat, b: nat)
    requires a <= b <= |edits| && forall i :: a <= i < b ==> edits[i] == Match
    ensures Run(edits, a) == b - a + Run(edits, b)
    decreases b - a
  {
    if a < b {
      RunSplit(edits, a + 1, b);
    }
  }

  /** The state of a hunk being filled, that began at es: `last` is the last edit
      taken so far (first - 1 if none), followed by `suffix` matches. */
  ghost predicate Filling(edits: seq<EditType>, es: nat, last: int, suffix: nat, e: nat, context: nat) {
    && es <= e <= |edits|
    && var first := es + Run(edits, es);
    && first - 1 <= last < e && suffix == e - last - 1
    && (last < first ==> e == first)
    && (last >= first ==> edits[last] != Match)
    && (forall i :: last < i < e ==> edits[i] == Match)
    && (suffix <= context || (e + Run(edits, e) < |edits| && suffix + Run(edits, e) < 2 * context))
    && forall i :: first <= i < last && edits[i] != Match ==>
         i + 1 + Run(edits, i + 1) <= last && Run(edits, i + 1) < 2 * context
  }

  ghost predicate IsFar(edits: seq<EditType>, e: nat, suffix: nat, context: nat)
    requires e <= |edits|
  {
    suffix >= context && (e + Run(edits, e) == |edits| || Run(edits, e) >= context)
  }

  /** Taking one more edit: the lookahead was needed only after a full suffix. */
  lemma FillStep(edits: seq<EditType>, es: nat, last: int, suffix: nat, e: nat, context: nat)
    requires Filling(edits, es, last, suffix, e, context) && e < |edits|
    requires !IsFar(edits, e, suffix, context)
    ensures if edits[e] == Match then Filling(edits, es, last, suffix + 1, e + 1, context)
            else Filling(edits, es, e, 0, e + 1, context)
  {
    if last >= es + Run(edits, es) {
      RunSplit(edits, last + 1, e);
    }
  }

  lemma FillStart(edits: seq<EditType>, es: nat, context: nat)
    requires es <= |edits|
    ensures var e := es + Run(edits, es); Filling(edits, es, e - 1, 0, e, context)
  {
  }

  lemma FillStop(edits: seq<EditType>, es: nat, e0: nat, last: int, suffix: nat, e: nat, context: nat)
    requires es <= |edits| && e0 == es + Run(edits, es) && Filling(edits, es, last, suffix, e, context)
    requires e == |edits| || IsFar(edits, e, suffix, context)
    requires last >= e0 ==> context >= 1
    requires e > e0 ==> last >= e0
    ensures FilledUp(edits, e0, last, suffix, e, context)
  {
  }

  /** Where filling stops, the hunk is well cut. */
  lemma FillEnd(edits: seq<EditType>, es: nat, last: int, suffix: nat, e: nat, context: nat)
    requires Filling(edits, es, last, suffix, e, context) && context >= 1
    requires last >= es + Run(edits, es)
    requires e == |edits| || IsFar(edits, e, suffix, context)
    requires Run(edits, es) == context || (Run(edits, es) < context && es == 0)
    ensures WellCut(edits, Span(es, last, e), context)
  {
    RunSplit(edits, last + 1, e);
    hide Run;
  }

  /** Filling stopped: the input is over, or there is enough suffix and the next
      edit is far away. Nothing was taken if there was nothing to take. */
  ghost predicate FilledUp(edits: seq<EditType>, e0: nat, last: int, suffix: nat, e: nat, context: nat) {
    && e0 <= e <= |edits|
    && (e == |edits| || IsFar(edits, e, suffix, context))
    && (last >= e0 <==> e0 < |edits| && context >= 1)
  }

  /** The lookahead loop: the next position that is not a match. */
  method FindNextEdit(edits: seq<EditType>, e: nat) returns (it: nat)
    requires e <= |edits|
    ensures it == e + Run(edits, e)
  {
    it := e;
    while it < |edits| && edits[it] == Match
      invariant e <= it <= |edits| && forall i :: e <= i < it ==> edits[i] == Match
    {
      it := it + 1;
    }
    RunSplit(edits, e, it);
  }

  /** The lines of the hunk under construction stand for the edits es..e. */
  ghost predicate Holds(lines: seq<Line>, edits: seq<EditType>, left: seq<string>, right: seq<string>, es: nat, e: nat)
    requires es <= |edits| && e <= |edits|
  {
    && LeftPos(edits, es) <= LeftPos(edits, e) <= |left| && RightPos(edits, es) <= RightPos(edits, e) <= |right|
    && LeftSide(lines) == left[LeftPos(edits, es)..LeftPos(edits, e)]
    && RightSide(lines) == right[RightPos(edits, es)..RightPos(edits, e)]
  }

  /** Once both sides of the e-th edit are pushed, the lines stand for one more edit. */
  lemma HoldsStep(before: seq<Line>, after: seq<Line>, edits: seq<EditType>, left: seq<string>, right: seq<string>,
                  es: nat, e: nat)
    requires Transforms(edits, left, right) && es <= e < |edits|
    requires LeftPos(edits, e) <= |left| && RightPos(edits, e) <= |right|
    requires Holds(before, edits, left, right, es, e)
    requires edits[e] != Add ==> LeftPos(edits, e) < |left|
    requires edits[e] != Remove ==> RightPos(edits, e) < |right|
    requires LeftSide(after) == LeftSide(before) + (if edits[e] != Add then [left[LeftPos(edits, e)]] else [])
    requires RightSide(after) == RightSide(before) + (if edits[e] != Remove then [right[RightPos(edits, e)]] else [])
    ensures Holds(after, edits, left, right, es, e + 1)
  {
    var ls, l, rs, r := LeftPos(edits, es), LeftPos(edits, e), RightPos(edits, es), RightPos(edits, e);
    hide Transforms, LeftSide, RightSide;
    if edits[e] != Add {
      SliceSnoc(left, ls, l);
    }
    if edits[e] != Remove {
      SliceSnoc(right, rs, r);
    }
  }

  lemma HoldsContext(before: seq<Line>, after: seq<Line>, edits: seq<EditType>, left: seq<string>, right: seq<string>,
                     es: nat, e: nat, l: nat)
    requires Transforms(edits, left, right) && es <= e < |edits| && edits[e] == Match
    requires Holds(before, edits, left, right, es, e)
    requires l == LeftPos(edits, e) < |left| && Pushed(before, after, Context, left[l])
    ensures Holds(after, edits, left, right, es, e + 1)
  {
    EditAt(edits, left, right, e);
    HoldsStep(before, after, edits, left, right, es, e);
  }

  /** The lines of one edit, pushed one after the other. */
  lemma HoldsEdit(before: seq<Line>, middle: seq<Line>, after: seq<Line>, edits: seq<EditType>, left: seq<string>,
                  right: seq<string>, es: nat, e: nat)
    requires Transforms(edits, left, right) && es <= e < |edits| && Holds(before, edits, left, right, es, e)
    requires edits[e] != Add ==>
      && LeftPos(edits, e) < |left|
      && Pushed(before, middle, if edits[e] == Match then Context else Removed, left[LeftPos(edits, e)])
    requires edits[e] == Add ==> middle == before
    requires edits[e] == Add || edits[e] == Replace ==>
      RightPos(edits, e) < |right| && Pushed(middle, after, Added, right[RightPos(edits, e)])
    requires edits[e] == Match || edits[e] == Remove ==> after == middle
    ensures Holds(after, edits, left, right, es, e + 1)
  {
    EditAt(edits, left, right, e);
    hide Transforms, LeftPos, RightPos, LeftSide, RightSide, Count, Holds;
    TransformsFrom(edits, left, right, e);
    HoldsStep(before, after, edits, left, right, es, e);
  }

  lemma PosNext(edits: seq<EditType>, e: nat)
    requires e < |edits|
    ensures LeftPos(edits, e + 1) == LeftPos(edits, e) + (if edits[e] == Add then 0 else 1)
    ensures RightPos(edits, e + 1) == RightPos(edits, e) + (if edits[e] == Remove then 0 else 1)
  {
  }

  /** Pushes the lines of one edit and advances the cursors past them. */
  method PushEdit(hunk: Hunk, ghost edits: seq<EditType>, left: seq<string>, right: seq<string>,
                  ghost es: nat, ghost e: nat, edit: EditType, l: nat, r: nat)
    returns (l': nat, r': nat)
    requires Transforms(edits, left, right) && es <= e < |edits| && edit == edits[e]
    requires l == LeftPos(edits, e) && r == RightPos(edits, e)
    requires hunk.Valid() && Holds(hunk.Lines(), edits, left, right, es, e)
    modifies hunk
    ensures hunk.Valid() && Holds(hunk.Lines(), edits, left, right, es, e + 1)
    ensures hunk.HasEdits() <==> old(hunk.HasEdits()) || edit != Match
    ensures l' == LeftPos(edits, e + 1) && r' == RightPos(edits, e + 1)
  {
    EditAt(edits, left, right, e);
    PosNext(edits, e);
    hide *;
    ghost var before := hunk.Lines();
    if edit == Match || edit == Remove || edit == Replace {
      hunk.PushLine(if edit == Match then Context else Removed, left[l]);
    }
    ghost var middle := hunk.Lines();
    if edit == Add || edit == Replace {
      hunk.PushLine(Added, right[r]);
    }
    HoldsEdit(before, middle, hunk.Lines(), edits, left, right, es, e);
    l' := if edit != Add then l + 1 else l;
    r' := if edit != Remove then r + 1 else r;
  }

  /** The lookahead: with enough suffix, go on only if the next edit is close. */
  method FarFromNextEdit(edits: seq<EditType>, e: nat, nSuffix: nat, context: nat) returns (far: bool)
    requires e < |edits|
    ensures far <==> IsFar(edits, e, nSuffix, context)
  {
    far := false;
    if nSuffix >= context {
      var it := FindNextEdit(edits, e);
      far := it == |edits| || it - e >= context;
    }
  }

  /** Iterates the edits until the hunk has enough suffix or the input is over.
      `last` is the last edit taken. With context 0, or no edit left, nothing is. */
  method FillHunk(hunk: Hunk, edits: seq<EditType>, left: seq<string>, right: seq<string>, context: nat,
                  ghost es: nat, l0: nat, r0: nat, e0: nat)
    returns (l: nat, r: nat, e: nat, ghost last: int, ghost suffix: nat)
    requires Transforms(edits, left, right) && es <= e0 <= |edits| && e0 == es + Run(edits, es)
    requires l0 == LeftPos(edits, e0) && r0 == RightPos(edits, e0)
    requires hunk.Valid() && !hunk.HasEdits() && Holds(hunk.Lines(), edits, left, right, es, e0)
    modifies hunk
    ensures hunk.Valid() && (hunk.HasEdits() <==> last >= e0)
    ensures e0 <= e <= |edits| && l == LeftPos(edits, e) && r == RightPos(edits, e)
    ensures Holds(hunk.Lines(), edits, left, right, es, e)
    ensures Filling(edits, es, last, suffix, e, context) && FilledUp(edits, e0, last, suffix, e, context)
  {
    hide Holds, WellFormed, Transforms, LeftPos, RightPos, Filling, FilledUp, Run;
    FillStart(edits, es, context);
    l, r, e, last, suffix := l0, r0, e0, e0 - 1, 0;
    var nSuffix, far := 0, false;
    while e < |edits|
      invariant e0 <= e <= |edits| && l == LeftPos(edits, e) && r == RightPos(edits, e)
      invariant nSuffix == suffix && Filling(edits, es, last, nSuffix, e, context)
      invariant hunk.Valid() && Holds(hunk.Lines(), edits, left, right, es, e)
      invariant hunk.HasEdits() <==> last >= e0
      invariant last >= e0 ==> context >= 1
      invariant e > e0 ==> last >= e0
      invariant !far
      decreases |edits| - e, !far
    {
      far := FarFromNextEdit(edits, e, nSuffix, context);
      if far {
        break;
      }
      FillStep(edits, es, last, nSuffix, e, context);
      var edit := edits[e];
      nSuffix := if edit == Match then nSuffix + 1 else 0;
      last, suffix := if edit == Match then last else e, nSuffix;
      l, r := PushEdit(hunk, edits, left, right, es, e, edit, l, r);
      e := e + 1;
    }
    FillStop(edits, es, e0, last, nSuffix, e, context);
  }

  /** Between two rounds: everything before e is cut, and after a hunk the next
      edit, if any, is at least `context` matches away. */
  ghost predicate BetweenHunks(edits: seq<EditType>, spans: seq<Span>, context: nat, e: nat) {
    && Cuts(edits, spans, context, e)
    && (spans != [] ==>
         && EndOf(spans) == e && context >= 1
         && (e == |edits| || e + Run(edits, e) == |edits| || Run(edits, e) >= context))
  }

  /** Before the next edit e0 there are min(l, context) matches, and they do not
      reach into the hunk before unless there is no next edit. */
  lemma PrefixIsMatched(edits: seq<EditType>, spans: seq<Span>, context: nat, e: nat, e0: nat, prefix: nat)
    requires BetweenHunks(edits, spans, context, e) && e < |edits| && e0 == e + Run(edits, e)
    requires prefix == if LeftPos(edits, e0) < context then LeftPos(edits, e0) else context
    ensures prefix <= e0 && Run(edits, e0 - prefix) == prefix
    ensures prefix == context || prefix == e0
    ensures e0 < |edits| ==> Cuts(edits, spans, context, e0 - prefix)
    ensures Cuts(edits, spans, context, e0)
  {
    var from := MatchesBefore(edits, spans, context, e);
    hide Cuts, LeftPos, Run;
    PrefixRun(edits, from, e, e0, context, prefix);
    CutsTo(edits, spans, context, e, e0);
    if e0 < |edits| {
      CutsTo(edits, spans, context, e, e0 - prefix);
    }
  }

  /** Where the matches before e begin: behind the last edit of the hunk before, with
      `context` of them already printed, or at the start. */
  lemma MatchesBefore(edits: seq<EditType>, spans: seq<Span>, context: nat, e: nat) returns (from: nat)
    requires BetweenHunks(edits, spans, context, e) && e < |edits|
    ensures from <= e && EndOf(spans) <= e && forall i :: from <= i < e ==> edits[i] == Match
    ensures if spans == [] then from == EndOf(spans) == 0 else EndOf(spans) == e == from + context
  {
    from := if spans == [] then 0 else spans[|spans| - 1].last + 1;
  }

  lemma PrefixRun(edits: seq<EditType>, from: nat, e: nat, e0: nat, context: nat, prefix: nat)
    requires from <= e <= |edits| && e0 == e + Run(edits, e) && forall i :: from <= i < e ==> edits[i] == Match
    requires from == 0 || e - from == context
    requires prefix == if LeftPos(edits, e0) < context then LeftPos(edits, e0) else context
    ensures prefix <= e0 && Run(edits, e0 - prefix) == prefix
    ensures prefix == context || prefix == e0
  {
    assert forall i :: from <= i < e0 ==> edits[i] == Match;
    MatchCount(edits, from, e0);
    hide LeftPos;
    RunSplit(edits, e0 - prefix, e0);
  }

  lemma CutsTo(edits: seq<EditType>, spans: seq<Span>, context: nat, e: nat, e': nat)
    requires Cuts(edits, spans, context, e) && EndOf(spans) <= e' <= |edits|
    requires forall i :: EndOf(spans) <= i < e' ==> edits[i] == Match
    ensures Cuts(edits, spans, context, e')
  {
    hide WellCut;
  }

  lemma {:induction false} MatchCount(edits: seq<EditType>, a: nat, b: nat)
    requires a <= b <= |edits| && forall i :: a <= i < b ==> edits[i] == Match
    ensures LeftPos(edits, b) == LeftPos(edits, a) + b - a
    ensures RightPos(edits, b) == RightPos(edits, a) + b - a
  {
    if a < b {
      MatchCount(edits, a, b - 1);
    }
  }

  /** A finished hunk extends the cut. */
  lemma HunkDone(edits: seq<EditType>, spans: seq<Span>, context: nat, e0: nat, s: Span, suffix: nat)
    requires Cuts(edits, spans, context, s.es) && context >= 1
    requires Run(edits, s.es) == context || (Run(edits, s.es) < context && s.es == 0)
    requires e0 == s.es + Run(edits, s.es) < |edits|
    requires Filling(edits, s.es, s.last, suffix, s.ee, context) && FilledUp(edits, e0, s.last, suffix, s.ee, context)
    ensures BetweenHunks(edits, spans + [s], context, s.ee)
  {
    FillEnd(edits, s.es, s.last, suffix, s.ee, context);
    assert (spans + [s])[..|spans|] == spans;
  }

  /** Skips the matches up to the next edit. */
  method SkipMatches(edits: seq<EditType>, l0: nat, r0: nat, e0: nat) returns (l: nat, r: nat, e: nat)
    requires e0 <= |edits| && l0 == LeftPos(edits, e0) && r0 == RightPos(edits, e0)
    ensures e == e0 + Run(edits, e0) && l == LeftPos(edits, e) && r == RightPos(edits, e)
  {
    l, r, e := l0, r0, e0;
    while e < |edits| && edits[e] == Match
      invariant e0 <= e <= |edits| && l == LeftPos(edits, e) && r == RightPos(edits, e)
      invariant e + Run(edits, e) == e0 + Run(edits, e0)
    {
      l, r, e := l + 1, r + 1, e + 1;
    }
  }

  /** The i-th line before position e is a match, if i is within the prefix. */
  lemma PrefixLine(edits: seq<EditType>, left: seq<string>, right: seq<string>, e: nat, prefix: nat, i: nat)
    requires Transforms(edits, left, right) && prefix <= e <= |edits| && Run(edits, e - prefix) == prefix
    requires 1 <= i <= prefix
    ensures edits[e - i] == Match && LeftPos(edits, e - i) == LeftPos(edits, e) - i < |left|
  {
    MatchCount(edits, e - i, e);
    EditAt(edits, left, right, e - i);
  }

  lemma HoldsNothing(edits: seq<EditType>, left: seq<string>, right: seq<string>, e: nat, prefix: nat)
    requires Transforms(edits, left, right) && prefix <= e <= |edits| && Run(edits, e - prefix) == prefix
    ensures Holds([], edits, left, right, e - prefix, e - prefix)
    ensures LeftPos(edits, e - prefix) == LeftPos(edits, e) - prefix &&
      RightPos(edits, e - prefix) == RightPos(edits, e) - prefix
  {
    MatchCount(edits, e - prefix, e);
    TransformsFrom(edits, left, right, e - prefix);
  }

  /** Opens a hunk with the `prefix` lines before the next edit. */
  method OpenHunk(ghost edits: seq<EditType>, left: seq<string>, ghost right: seq<string>, l: nat, r: nat,
                  prefix: nat, ghost e: nat)
    returns (hunk: Hunk)
    requires Transforms(edits, left, right) && e <= |edits| && l == LeftPos(edits, e) && r == RightPos(edits, e)
    requires prefix <= e && Run(edits, e - prefix) == prefix
    ensures fresh(hunk) && hunk.Valid() && !hunk.HasEdits()
    ensures Holds(hunk.Lines(), edits, left, right, e - prefix, e)
    ensures hunk.leftStart == LeftPos(edits, e - prefix) + 1 && hunk.rightStart == RightPos(edits, e - prefix) + 1
  {
    hide Transforms, Run, LeftPos, RightPos, Holds, WellFormed, Pushed;
    HoldsNothing(edits, left, right, e, prefix);
    hunk := new Hunk(l - prefix + 1, r - prefix + 1);
    var i := prefix;
    while i > 0
      invariant 0 <= i <= prefix
      invariant fresh(hunk) && hunk.Valid() && !hunk.HasEdits()
      invariant Holds(hunk.Lines(), edits, left, right, e - prefix, e - i)
    {
      PrefixLine(edits, left, right, e, prefix, i);
      ghost var before := hunk.Lines();
      hunk.PushLine(Context, left[l - i]);
      HoldsContext(before, hunk.Lines(), edits, left, right, e - prefix, e - i, l - i);
      i := i - 1;
    }
  }

  lemma PrintsNothing(edits: seq<EditType>, left: seq<string>, right: seq<string>, context: nat)
    ensures Prints([], [], edits, left, right) && BetweenHunks(edits, [], context, 0)
  {
  }

  /** Printing the lines of a span prints the span. */
  lemma HeldIsPrinted(edits: seq<EditType>, left: seq<string>, right: seq<string>, lines: seq<Line>,
                      h: PrintedHunk, s: Span)
    requires s.es <= |edits| && s.ee <= |edits| && Holds(lines, edits, left, right, s.es, s.ee)
    requires h.lines == PrintedLines(lines)
    requires RemovesFirst(h.lines) && HeaderFits(h, LeftPos(edits, s.es) + 1, RightPos(edits, s.es) + 1)
    ensures PrintsOne(h, s, edits, left, right)
  {
    PrintedSides(lines);
  }

  /** The outer loop of CreateUnifiedDiff: one round per hunk. */
  method CutHunks(edits: seq<EditType>, left: seq<string>, right: seq<string>, context: nat)
    returns (hunks: seq<PrintedHunk>, ghost spans: seq<Span>)
    requires Transforms(edits, left, right)
    ensures Prints(hunks, spans, edits, left, right)
    ensures context >= 1 ==> Cuts(edits, spans, context, |edits|)
    ensures context == 0 ==> hunks == []
  {
    hide WellFormed, Transforms, Filling, WellCut, PrintsOne, Cuts, Holds, HeaderFits, RemovesFirst, Run,
      LeftPos, RightPos;
    assert LeftPos(edits, 0) == RightPos(edits, 0) == 0 by { PosStart(edits); }
    PrintsNothing(edits, left, right, context);
    var l, r, e := 0, 0, 0;
    hunks, spans := [], [];
    while e < |edits|
      invariant e <= |edits| && l == LeftPos(edits, e) && r == RightPos(edits, e)
      invariant BetweenHunks(edits, spans, context, e)
      invariant Prints(hunks, spans, edits, left, right)
      decreases |edits| - e
    {
      ghost var eStart := e;
      l, r, e := SkipMatches(edits, l, r, e);
      var prefix := if l < context then l else context;
      PrefixIsMatched(edits, spans, context, eStart, e, prefix);
      var hunk := OpenHunk(edits, left, right, l, r, prefix, e);
      ghost var es, e0 := e - prefix, e;
      ghost var last, suffix;
      l, r, e, last, suffix := FillHunk(hunk, edits, left, right, context, es, l, r, e);
      if !hunk.HasEdits() {
        break;
      }
      HunkDone(edits, spans, context, e0, Span(es, last, e), suffix);
      ghost var lines := hunk.Lines();
      var printed := hunk.PrintTo();
      HeldIsPrinted(edits, left, right, lines, printed, Span(es, last, e));
      spans := spans + [Span(es, last, e)];
      hunks := hunks + [printed];
    }
  }

  /** No hunk is needed exactly when nothing was edited. */
  lemma NoSpansMeansNoEdits(edits: seq<EditType>, spans: seq<Span>, context: nat)
    requires Cuts(edits, spans, context, |edits|)
    ensures spans == [] <==> AllMatch(edits)
  {
  }

  lemma PatchNothing(text: seq<string>)
    ensures Patch(text, []) == Text(text)
  {
    assert [] + text[0..] == text;
  }

  /** Texts without nulls are printed in full. */
  lemma CleanTexts(places: seq<Place>, left: seq<string>, right: seq<string>)
    requires forall k :: 0 <= k < |places| ==>
      places[k].ls <= places[k].le <= |left| && places[k].rs <= places[k].re <= |right|
    ensures NoNulls(left) && NoNulls(right) ==> Clean(places, left, right)
  {
  }

  /** CreateUnifiedDiff, with the printed hunks as values. The diff patches left into
      right, and read backwards right into left, exactly if no line of a hunk holds a
      null and the context is not 0 or there is nothing to patch. */
  method CreateUnifiedDiff(left: seq<string>, right: seq<string>, context: nat)
    returns (hunks: seq<PrintedHunk>, ghost edits: seq<EditType>, ghost spans: seq<Span>)
    ensures Transforms(edits, left, right) && edits == Script(left, right, |left|, |right|)
    ensures NoneMisled(left, right) ==>
      forall other :: Transforms(other, left, right) ==> TotalWeight(edits) <= TotalWeight(other)
    ensures Prints(hunks, spans, edits, left, right)
    ensures context >= 1 ==> Cuts(edits, spans, context, |edits|)
    ensures Patch(left, hunks) == Text(right) <==>
      (context >= 1 || left == right) && Clean(PlacesOf(edits, spans), left, right)
    ensures Patch(right, Swap(hunks)) == Text(left) <==>
      (context >= 1 || left == right) && Clean(PlacesOf(edits, spans), left, right)
    ensures NoNulls(left) && NoNulls(right) ==> Clean(PlacesOf(edits, spans), left, right)
    ensures hunks == [] <==> context == 0 || left == right
  {
    var script := CalculateOptimalEdits(left, right);
    edits := script;
    hide Script, NoneMisled;
    hunks, spans := CutHunks(script, left, right, context);
    CleanTexts(PlacesOf(edits, spans), left, right);
    if context >= 1 {
      CutsCover(hunks, spans, edits, left, right, context, |edits|);
      TransformsFrom(edits, left, right, |edits|);
      CoversRoundTrip(hunks, PlacesOf(edits, spans), left, right);
      NoSpansMeansNoEdits(edits, spans, context);
    } else {
      PatchNothing(left);
      PatchNothing(right);
    }
  }

  /** A well cut span holds a line of one side at least. */
  lemma SpanHasLine(edits: seq<EditType>, s: Span, context: nat)
    requires WellCut(edits, s, context)
    ensures LeftPos(edits, s.es) < LeftPos(edits, s.ee) || RightPos(edits, s.es) < RightPos(edits, s.ee)
  {
    PosGrow(edits, s.es, s.last);
    PosGrow(edits, s.last + 1, s.ee);
  }

  lemma {:induction false} PosGrow(edits: seq<EditType>, a: nat, b: nat)
    requires a <= b <= |edits|
    ensures LeftPos(edits, a) <= LeftPos(edits, b) && RightPos(edits, a) <= RightPos(edits, b)
  {
    if a < b {
      PosGrow(edits, a, b - 1);
    }
  }

  /** If every line holds a null, no hunk patches: whatever is printed is cut. */
  lemma AllCut(hunks: seq<PrintedHunk>, edits: seq<EditType>, spans: seq<Span>, context: nat,
               left: seq<string>, right: seq<string>)
    requires Transforms(edits, left, right) && left != right && Cuts(edits, spans, context, |edits|)
    requires Prints(hunks, spans, edits, left, right)
    requires forall i :: 0 <= i < |left| ==> '\0' in left[i]
    requires forall i :: 0 <= i < |right| ==> '\0' in right[i]
    ensures !Clean(PlacesOf(edits, spans), left, right) && Patch(left, hunks) != Text(right)
  {
    hide Transforms, Cuts, Patch, Run;
    var k := EditedSpan(edits, spans, context, left, right);
    NotClean(edits, spans[k], context, hunks[k], left, right);
    assert !CleanPlace(PlacesOf(edits, spans)[k], left, right);
    hide PrintsOne;
    CutsCover(hunks, spans, edits, left, right, context, |edits|);
    TransformsFrom(edits, left, right, |edits|);
    CoversPatch(hunks, PlacesOf(edits, spans), left, right);
  }

  /** Different texts leave a span. */
  lemma EditedSpan(edits: seq<EditType>, spans: seq<Span>, context: nat, left: seq<string>, right: seq<string>)
    returns (k: nat)
    requires Transforms(edits, left, right) && left != right && Cuts(edits, spans, context, |edits|)
    ensures k < |spans| && WellCut(edits, spans[k], context)
  {
    NoSpansMeansNoEdits(edits, spans, context);
    if AllMatch(edits) {
      AllMatchMeansEqual(edits, left, right);
    }
    hide Transforms;
    k := |spans| - 1;
  }

  lemma NotClean(edits: seq<EditType>, s: Span, context: nat, h: PrintedHunk, left: seq<string>, right: seq<string>)
    requires WellCut(edits, s, context) && PrintsOne(h, s, edits, left, right)
    requires forall i :: 0 <= i < |left| ==> '\0' in left[i]
    requires forall i :: 0 <= i < |right| ==> '\0' in right[i]
    ensures !CleanPlace(PlaceOf(edits, s), left, right)
  {
    var p := PlaceOf(edits, s);
    SpanHasLine(edits, s, context);
    assert p.ls <= p.le <= |left| && p.rs <= p.re <= |right|;
    hide WellCut, LeftPos, RightPos, Run, PrintsOne;
    assert p.ls < p.le ==> left[p.ls..p.le][0] == left[p.ls];
    assert p.rs < p.re ==> right[p.rs..p.re][0] == right[p.rs];
  }

  /** Two lines that differ only behind a null: the hunk shows "a" twice, a patch tool
      refuses it, and whatever the context the diff does not patch. */
  lemma NullCounterexample(hunks: seq<PrintedHunk>, edits: seq<EditType>, spans: seq<Span>, context: nat)
    requires var left, right := ["a\0b"], ["a\0c"];
      && Transforms(edits, left, right) && context >= 1 && Cuts(edits, spans, context, |edits|)
      && Prints(hunks, spans, edits, left, right)
    ensures var left, right, shown := ["a\0b"], ["a\0c"], [Line(Removed, "a"), Line(Added, "a")];
      && Patch(left, hunks) != Text(right)
      && Patch(left, [PrintedHunk(Range(1, 1), Range(1, 1), shown)]) == Refused
  {
    var left, right := ["a\0b"], ["a\0c"];
    assert left[0][1] == '\0' && right[0][1] == '\0' && left[0][2] != right[0][2];
    AllCut(hunks, edits, spans, context, left, right);
    hide Patch;
    assert |"a"| != |left[0]|;
    OtherLineRefused(left[0], "a", "a");
  }

  /** A hunk that shows another line than the only one is refused. */
  lemma OtherLineRefused(line: string, shown: string, added: string)
    requires line != shown
    ensures Patch([line], [PrintedHunk(Range(1, 1), Range(1, 1), [Line(Removed, shown), Line(Added, added)])]) ==
      Refused
  {
    var h := PrintedHunk(Range(1, 1), Range(1, 1), [Line(Removed, shown), Line(Added, added)]);
    OneRemoved(shown, added);
    hide LeftSide;
    OtherSideRefused(line, shown, h);
  }

  lemma OneRemoved(shown: string, added: string)
    ensures LeftSide([Line(Removed, shown), Line(Added, added)]) == [shown]
  {
    var one := [Line(Removed, shown)];
    var two := [Line(Removed, shown), Line(Added, added)];
    OneLine(one);
    assert two[..1] == one;
    LastAdded(two);
  }

  lemma OneLine(lines: seq<Line>)
    requires |lines| == 1 && lines[0].tag == Removed
    ensures LeftSide(lines) == [lines[0].text]
  {
    assert LeftSide(lines[..0]) == [];
  }

  lemma LastAdded(lines: seq<Line>)
    requires lines != [] && lines[|lines| - 1].tag == Added
    ensures LeftSide(lines) == LeftSide(lines[..|lines| - 1])
  {
  }

  lemma OtherSideRefused(line: string, shown: string, h: PrintedHunk)
    requires line != shown && h.left == Range(1, 1) && LeftSide(h.lines) == [shown]
    ensures Patch([line], [h]) == Refused
  {
    hide LeftSide, RightSide;
    assert [line][0..1] == [line] && [line][0] != [shown][0];
    assert ApplyHunk([line], Patching(0, []), h) == Rejected;
    assert [h][..0] == [];
  }
}

/** How the diffs of gtest.cc look: which edits share a hunk, how much context surrounds
    them, the order within a hunk, and the printed rows. */
module DiffMeanings {
  import opened EditScripts
  import opened UnifiedDiffs
  import opened DiffHunks
  import opened DiffTexts
  import opened DecimalPrinter

  /** The spans are well cut, and in order. */
  lemma {:induction false} SpansInOrder(edits: seq<EditType>, spans: seq<Span>, context: nat, e: nat, k: nat)
    requires Cuts(edits, spans, context, e) && k < |spans|
    ensures WellCut(edits, spans[k], context) && spans[k].ee <= e
    ensures k + 1 < |spans| ==> spans[k].ee <= spans[k + 1].es
  {
    hide WellCut, Run;
    var n := |spans| - 1;
    assert WellCut(edits, spans[n], context) && Cuts(edits, spans[..n], context, spans[n].es);
    if k < n {
      SpansInOrder(edits, spans[..n], context, spans[n].es, k);
      WellCutBounds(edits, spans[n], context);
    }
  }

  lemma WellCutBounds(edits: seq<EditType>, s: Span, context: nat)
    requires WellCut(edits, s, context)
    ensures s.es <= s.last < s.ee <= |edits| && edits[s.last] != Match
    ensures forall i :: s.last < i < s.ee ==> edits[i] == Match
  {
  }

  /** i and j are edits, with nothing but matches between them. */
  ghost predicate Neighbours(edits: seq<EditType>, i: nat, j: nat) {
    && i < j < |edits| && edits[i] != Match && edits[j] != Match
    && forall k :: i < k < j ==> edits[k] == Match
  }

  lemma RunBetween(edits: seq<EditType>, i: nat, j: nat)
    requires Neighbours(edits, i, j)
    ensures Run(edits, i + 1) == j - i - 1
  {
    RunSplit(edits, i + 1, j);
  }

  lemma InOneSpan(edits: seq<EditType>, s: Span, context: nat, i: nat, j: nat)
    requires Neighbours(edits, i, j) && WellCut(edits, s, context) && s.es <= i && j < s.ee
    ensures j - i - 1 < 2 * context
  {
    RunBetween(edits, i, j);
    WellCutBounds(edits, s, context);
    assert j <= s.last;
  }

  lemma LastOfSpan(edits: seq<EditType>, s: Span, context: nat, i: nat, j: nat)
    requires Neighbours(edits, i, j) && WellCut(edits, s, context) && s.es <= i < s.ee <= j
    ensures j - i - 1 >= 2 * context
  {
    RunBetween(edits, i, j);
    WellCutBounds(edits, s, context);
    assert i == s.last;
  }

  ghost predicate InSpan(s: Span, i: nat) { s.es <= i < s.ee }

  /** Every edit lies in a span. */
  lemma {:induction false} SpanOf(edits: seq<EditType>, spans: seq<Span>, context: nat, e: nat, i: nat) returns (k: nat)
    requires Cuts(edits, spans, context, e) && i < e && edits[i] != Match
    ensures k < |spans| && InSpan(spans[k], i)
  {
    hide WellCut;
    var n := |spans| - 1;
    if spans[n].es <= i {
      k := n;
    } else {
      k := SpanOf(edits, spans[..n], context, spans[n].es, i);
    }
  }

  /** Two successive edits are in the same hunk exactly if fewer than twice `context`
      matches lie between them. */
  lemma SameHunkExactly(edits: seq<EditType>, spans: seq<Span>, context: nat, i: nat, j: nat)
    requires Cuts(edits, spans, context, |edits|) && Neighbours(edits, i, j)
    ensures (exists k :: 0 <= k < |spans| && InSpan(spans[k], i) && InSpan(spans[k], j)) <==> j - i - 1 < 2 * context
  {
    if k :| 0 <= k < |spans| && InSpan(spans[k], i) && InSpan(spans[k], j) {
      SpansInOrder(edits, spans, context, |edits|, k);
      InOneSpan(edits, spans[k], context, i, j);
    }
    var k := SpanOf(edits, spans, context, |edits|, i);
    SpansInOrder(edits, spans, context, |edits|, k);
    if !InSpan(spans[k], j) {
      LastOfSpan(edits, spans[k], context, i, j);
    }
  }

  /** A well cut span begins `context` lines before its first edit and ends `context` lines
      behind its last, or where the input does; in between it begins and ends with edits. */
  ghost predicate HasContext(edits: seq<EditType>, s: Span, context: nat, first: nat, last: nat) {
    && s.es <= first <= last < s.ee <= |edits| && edits[first] != Match && edits[last] != Match
    && (forall i :: s.es <= i < first || last < i < s.ee ==> edits[i] == Match)
    && s.es == (if first < context then 0 else first - context)
    && s.ee == (if |edits| - last - 1 < context then |edits| else last + 1 + context)
  }

  lemma WellCutEnds(edits: seq<EditType>, s: Span, context: nat, first: nat)
    requires WellCut(edits, s, context) && first == s.es + Run(edits, s.es)
    ensures first <= s.last && (first - s.es == context || (first - s.es < context && s.es == 0))
    ensures s.ee - s.last - 1 == context || (s.ee - s.last - 1 < context && s.ee == |edits|)
  {
  }

  lemma ContextOf(edits: seq<EditType>, s: Span, context: nat, first: nat)
    requires s.es <= |edits| && first == s.es + Run(edits, s.es)
    requires s.es <= s.last < s.ee <= |edits| && edits[s.last] != Match
    requires forall i :: s.last < i < s.ee ==> edits[i] == Match
    requires first <= s.last && (first - s.es == context || (first - s.es < context && s.es == 0))
    requires s.ee - s.last - 1 == context || (s.ee - s.last - 1 < context && s.ee == |edits|)
    ensures HasContext(edits, s, context, first, s.last)
  {
  }

  lemma HunkContext(edits: seq<EditType>, spans: seq<Span>, context: nat, k: nat) returns (first: nat, last: nat)
    requires Cuts(edits, spans, context, |edits|) && k < |spans|
    ensures HasContext(edits, spans[k], context, first, last)
  {
    hide *;
    SpansInOrder(edits, spans, context, |edits|, k);
    WellCutBounds(edits, spans[k], context);
    first, last := spans[k].es + Run(edits, spans[k].es), spans[k].last;
    WellCutEnds(edits, spans[k], context, first);
    ContextOf(edits, spans[k], context, first);
  }

  /** Within a run of edits removed lines come before added ones. */
  lemma RemovalsComeFirst(hunks: seq<PrintedHunk>, spans: seq<Span>, edits: seq<EditType>, left: seq<string>,
                          right: seq<string>, k: nat, i: nat)
    requires Prints(hunks, spans, edits, left, right) && k < |hunks| && i + 1 < |hunks[k].lines|
    ensures hunks[k].lines[i].tag == Added ==> hunks[k].lines[i + 1].tag != Removed
  {
    assert PrintsOne(hunks[k], spans[k], edits, left, right);
  }

  /** Removed and context lines are lines of the left text, added and context lines lines of
      the right text, in order and without a gap, and a header counts from one. */
  lemma HunkLines(hunks: seq<PrintedHunk>, spans: seq<Span>, edits: seq<EditType>, left: seq<string>,
                  right: seq<string>, k: nat)
    requires Prints(hunks, spans, edits, left, right) && k < |hunks|
    ensures var p, h := PlaceOf(edits, spans[k]), hunks[k];
      && p.ls <= p.le <= |left| && p.rs <= p.re <= |right|
      && LeftSide(h.lines) == PrintedTexts(left[p.ls..p.le]) && RightSide(h.lines) == PrintedTexts(right[p.rs..p.re])
      && (h.left.Range? ==> h.left.start == p.ls + 1 && h.left.length == p.le - p.ls)
      && (h.right.Range? ==> h.right.start == p.rs + 1 && h.right.length == p.re - p.rs)
  {
    assert PrintsOne(hunks[k], spans[k], edits, left, right);
  }

  // ----- rows

  /** A row begins with a blank, a minus or a plus. */
  lemma RowsOfLines(lines: seq<Line>, i: nat)
    requires i < |lines|
    ensures lines[i].tag == Context ==> LineRows(lines)[i] == " " + lines[i].text
    ensures lines[i].tag == Removed ==> LineRows(lines)[i] == "-" + lines[i].text
    ensures lines[i].tag == Added ==> LineRows(lines)[i] == "+" + lines[i].text
  {
  }

  lemma Numerals()
    ensures Decimal(1) == "1" && Decimal(20) == "20" && Decimal(7) == "7" && Decimal(139) == "139"
  {
    assert Decimal(2) == "2" && Decimal(13) == "13";
  }

  /** Headers, with both sides and with one. */
  lemma HeaderRows(lines: seq<Line>)
    ensures HeaderRow(PrintedHunk(Range(1, 20), Range(7, 139), lines)) == "@@ -1,20 +7,139 @@"
    ensures HeaderRow(PrintedHunk(Range(1, 20), Omitted, lines)) == "@@ -1,20 @@"
    ensures HeaderRow(PrintedHunk(Omitted, Range(7, 139), lines)) == "@@ +7,139 @@"
  {
    Numerals();
    hide Decimal;
    assert PrintRange('-', Range(1, 20)) == "-1,20" && PrintRange('+', Range(7, 139)) == "+7,139";
  }
}

/** Unified diffs: the hunk builder and CreateUnifiedDiff of gtest.cc, proved
    against an independent patch tool that reads only the printed hunks. */
module UnifiedDiffs {
  import opened EditScripts
  import opened Terminated

  /** One printed line: ' ' context, '-' removed, '+' added. */
  datatype Tag = Context | Removed | Added
  datatype Line = Line(tag: Tag, text: string)

  /** One side of a hunk header; it is omitted when that side has no edits. */
  datatype Range = Omitted | Range(start: nat, length: nat)
  datatype PrintedHunk = PrintedHunk(left: Range, right: Range, lines: seq<Line>)

  /** What printing a line writes: the text before the first null. */
  function UpToNull(text: string): string {
    UpTo(text, '\0')
  }

  function PrintedTexts(texts: seq<string>): (r: seq<string>)
    ensures |r| == |texts| && forall i :: 0 <= i < |r| ==> r[i] == UpToNull(texts[i])
  {
    seq(|texts|, i requires 0 <= i < |texts| => UpToNull(texts[i]))
  }

  function PrintedLines(lines: seq<Line>): (r: seq<Line>)
    ensures |r| == |lines| && forall i :: 0 <= i < |r| ==> r[i] == Line(lines[i].tag, UpToNull(lines[i].text))
  {
    seq(|lines|, i requires 0 <= i < |lines| => Line(lines[i].tag, UpToNull(lines[i].text)))
  }

  /** Printing does not change a text exactly if no line holds a null. */
  ghost predicate NoNulls(texts: seq<string>) {
    forall i :: 0 <= i < |texts| ==> '\0' !in texts[i]
  }

  lemma PrintedTextsAll(texts: seq<string>)
    ensures PrintedTexts(texts) == texts <==> NoNulls(texts)
  {
    forall i | 0 <= i < |texts| ensures PrintedTexts(texts)[i] == texts[i] <==> '\0' !in texts[i] {
      assert |UpToNull(texts[i])| == |texts[i]| ==> UpToNull(texts[i]) == texts[i];
    }
  }

  function LeftSide(lines: seq<Line>): seq<string> {
    if lines == [] then []
    else
      var last := lines[|lines| - 1];
      LeftSide(lines[..|lines| - 1]) + (if last.tag != Added then [last.text] else [])
  }

  function RightSide(lines: seq<Line>): seq<string> {
    if lines == [] then []
    else
      var last := lines[|lines| - 1];
      RightSide(lines[..|lines| - 1]) + (if last.tag != Removed then [last.text] else [])
  }

  function Count(tag: Tag, lines: seq<Line>): nat {
    if lines == [] then 0
    else Count(tag, lines[..|lines| - 1]) + (if lines[|lines| - 1].tag == tag then 1 else 0)
  }

  /** Within a run of edits, removals are printed before additions. */
  ghost predicate RemovesFirst(lines: seq<Line>) {
    forall i :: 0 <= i < |lines| - 1 ==> !(lines[i].tag == Added && lines[i + 1].tag == Removed)
  }

  lemma {:induction false} CountConcat(tag: Tag, a: seq<Line>, b: seq<Line>)
    ensures Count(tag, a + b) == Count(tag, a) + Count(tag, b)
  {
    if b == [] {
      assert a + b == a;
    } else {
      CountConcat(tag, a, b[..|b| - 1]);
      assert (a + b)[..|a + b| - 1] == a + b[..|b| - 1];
    }
  }

  lemma SidesConcat(a: seq<Line>, b: seq<Line>)
    ensures LeftSide(a + b) == LeftSide(a) + LeftSide(b)
    ensures RightSide(a + b) == RightSide(a) + RightSide(b)
    ensures forall tag :: Count(tag, a + b) == Count(tag, a) + Count(tag, b)
  {
    LeftConcat(a, b);
    RightConcat(a, b);
    forall tag ensures Count(tag, a + b) == Count(tag, a) + Count(tag, b) {
      CountConcat(tag, a, b);
    }
  }

  lemma InitLast<T>(s: seq<T>)
    requires s != []
    ensures s == s[..|s| - 1] + [s[|s| - 1]]
  {
  }

  lemma Associative<T>(a: seq<T>, b: seq<T>, c: seq<T>)
    ensures a + b + c == a + (b + c)
  {
  }

  lemma LeftSnoc(a: seq<Line>, line: Line)
    ensures LeftSide(a + [line]) == LeftSide(a) + (if line.tag == Added then [] else [line.text])
  {
    assert (a + [line])[..|a|] == a;
  }

  lemma {:induction false} LeftConcat(a: seq<Line>, b: seq<Line>)
    ensures LeftSide(a + b) == LeftSide(a) + LeftSide(b)
  {
    if b == [] {
      assert a + b == a && LeftSide(b) == [];
    } else {
      hide LeftSide;
      var init, line := b[..|b| - 1], b[|b| - 1];
      var more := if line.tag == Added then [] else [line.text];
      LeftConcat(a, init);
      LeftSnoc(a + init, line);
      LeftSnoc(init, line);
      Associative(a, init, [line]);
      Associative(LeftSide(a), LeftSide(init), more);
      InitLast(b);
    }
  }

  lemma RightSnoc(a: seq<Line>, line: Line)
    ensures RightSide(a + [line]) == RightSide(a) + (if line.tag == Removed then [] else [line.text])
  {
    assert (a + [line])[..|a|] == a;
  }

  lemma {:induction false} RightConcat(a: seq<Line>, b: seq<Line>)
    ensures RightSide(a + b) == RightSide(a) + RightSide(b)
  {
    if b == [] {
      assert a + b == a && RightSide(b) == [];
    } else {
      hide RightSide;
      var init, line := b[..|b| - 1], b[|b| - 1];
      var more := if line.tag == Removed then [] else [line.text];
      RightConcat(a, init);
      RightSnoc(a + init, line);
      RightSnoc(init, line);
      Associative(a, init, [line]);
      Associative(RightSide(a), RightSide(init), more);
      InitLast(b);
    }
  }

  lemma PrintedSnoc(texts: seq<string>, text: string)
    ensures PrintedTexts(texts + [text]) == PrintedTexts(texts) + [UpToNull(text)]
    ensures PrintedTexts(texts + []) == PrintedTexts(texts)
  {
    hide UpToNull;
    assert texts + [] == texts;
  }

  /** Printing cuts the lines of both sides, and leaves their number and order alone. */
  lemma {:induction false} PrintedSides(lines: seq<Line>)
    ensures LeftSide(PrintedLines(lines)) == PrintedTexts(LeftSide(lines))
    ensures RightSide(PrintedLines(lines)) == PrintedTexts(RightSide(lines))
  {
    if lines != [] {
      var init, last := lines[..|lines| - 1], lines[|lines| - 1];
      PrintedSides(init);
      var printed := Line(last.tag, UpToNull(last.text));
      LeftSnoc(init, last);
      LeftSnoc(PrintedLines(init), printed);
      RightSnoc(init, last);
      RightSnoc(PrintedLines(init), printed);
      hide LeftSide, RightSide, UpToNull;
      assert lines == init + [last] && PrintedLines(lines) == PrintedLines(init) + [printed];
      PrintedSnoc(LeftSide(init), last.text);
      PrintedSnoc(RightSide(init), last.text);
    }
  }

  ghost predicate AllTagged(tag: Tag, lines: seq<Line>) {
    forall i :: 0 <= i < |lines| ==> lines[i].tag == tag
  }

  lemma {:induction false} TaggedSides(tag: Tag, lines: seq<Line>)
    requires AllTagged(tag, lines)
    ensures |LeftSide(lines)| == (if tag == Added then 0 else |lines|)
    ensures |RightSide(lines)| == (if tag == Removed then 0 else |lines|)
    ensures forall t :: Count(t, lines) == if t == tag then |lines| else 0
  {
    if lines != [] {
      TaggedSides(tag, lines[..|lines| - 1]);
    }
  }

  /** The sides of a hunk are as long as its counters say. */
  lemma {:induction false} SideLengths(lines: seq<Line>)
    ensures |LeftSide(lines)| == Count(Context, lines) + Count(Removed, lines)
    ensures |RightSide(lines)| == Count(Context, lines) + Count(Added, lines)
  {
    if lines != [] {
      SideLengths(lines[..|lines| - 1]);
    }
  }

  /** The effect on both sides, and on the counts, of pushing a line. */
  ghost predicate Pushed(before: seq<Line>, after: seq<Line>, edit: Tag, text: string) {
    && LeftSide(after) == LeftSide(before) + (if edit == Added then [] else [text])
    && RightSide(after) == RightSide(before) + (if edit == Removed then [] else [text])
    && Count(Context, after) == Count(Context, before) + (if edit == Context then 1 else 0)
    && Count(Removed, after) == Count(Removed, before) + (if edit == Removed then 1 else 0)
    && Count(Added, after) == Count(Added, before) + (if edit == Added then 1 else 0)
  }

  lemma AppendPushes(lines: seq<Line>, edit: Tag, text: string)
    ensures Pushed(lines, lines + [Line(edit, text)], edit, text)
  {
    assert (lines + [Line(edit, text)])[..|lines|] == lines;
  }

  /** A removed line slipped in front of waiting additions changes the sides as if
      it had been appended. */
  lemma InsertPushes(a: seq<Line>, text: string, adds: seq<Line>)
    requires AllTagged(Added, adds)
    ensures Pushed(a + adds, a + [Line(Removed, text)] + adds, Removed, text)
  {
    SidesConcat(a + [Line(Removed, text)], adds);
    SidesConcat(a, adds);
    AppendPushes(a, Removed, text);
    TaggedSides(Added, adds);
  }

  /** Flushing the waiting lines behind a context line keeps removals first. */
  lemma FlushKeepsOrder(hunk: seq<Line>, removes: seq<Line>, adds: seq<Line>, text: string)
    requires RemovesFirst(hunk) && (hunk != [] ==> hunk[|hunk| - 1].tag == Context)
    requires AllTagged(Removed, removes) && AllTagged(Added, adds)
    ensures RemovesFirst(hunk + removes + adds)
    ensures RemovesFirst(hunk + removes + adds + [Line(Context, text)])
  {
    var lines := hunk + removes + adds;
    assert forall i :: |hunk + removes| <= i < |lines| ==> lines[i].tag == Added;
    assert forall i :: |hunk| <= i < |hunk + removes| ==> lines[i].tag == Removed;
  }

  /** The header names at least one side, and what it names starts where the hunk
      does and is as long as that side. */
  ghost predicate HeaderFits(h: PrintedHunk, leftStart: nat, rightStart: nat) {
    && (h.left.Range? || h.right.Range?)
    && (h.left.Range? ==> h.left == Range(leftStart, |LeftSide(h.lines)|))
    && (h.right.Range? ==> h.right == Range(rightStart, |RightSide(h.lines)|))
  }

  /** The lists and counters of a hunk fit together. */
  ghost predicate WellFormed(hunk: seq<Line>, removes: seq<Line>, adds: seq<Line>, counts: (nat, nat, nat)) {
    && AllTagged(Removed, removes) && AllTagged(Added, adds)
    && RemovesFirst(hunk)
    && (hunk != [] ==> hunk[|hunk| - 1].tag == Context)
    && counts.0 == Count(Context, hunk + removes + adds)
    && counts.1 == Count(Removed, hunk + removes + adds)
    && counts.2 == Count(Added, hunk + removes + adds)
  }

  lemma PushContext(hunk: seq<Line>, removes: seq<Line>, adds: seq<Line>, counts: (nat, nat, nat), text: string)
    requires WellFormed(hunk, removes, adds, counts)
    ensures var after := hunk + removes + adds + [Line(Context, text)];
      && WellFormed(after, [], [], (counts.0 + 1, counts.1, counts.2))
      && Pushed(hunk + removes + adds, after + [] + [], Context, text)
  {
    AppendPushes(hunk + removes + adds, Context, text);
    FlushKeepsOrder(hunk, removes, adds, text);
    var after := hunk + removes + adds + [Line(Context, text)];
    assert after + [] + [] == after;
  }

  lemma PushRemoved(hunk: seq<Line>, removes: seq<Line>, adds: seq<Line>, counts: (nat, nat, nat), text: string)
    requires WellFormed(hunk, removes, adds, counts)
    ensures var after := removes + [Line(Removed, text)];
      && WellFormed(hunk, after, adds, (counts.0, counts.1 + 1, counts.2))
      && Pushed(hunk + removes + adds, hunk + after + adds, Removed, text)
  {
    InsertPushes(hunk + removes, text, adds);
    assert hunk + (removes + [Line(Removed, text)]) == hunk + removes + [Line(Removed, text)];
  }

  lemma PushAdded(hunk: seq<Line>, removes: seq<Line>, adds: seq<Line>, counts: (nat, nat, nat), text: string)
    requires WellFormed(hunk, removes, adds, counts)
    ensures var after := adds + [Line(Added, text)];
      && WellFormed(hunk, removes, after, (counts.0, counts.1, counts.2 + 1))
      && Pushed(hunk + removes + adds, hunk + removes + after, Added, text)
  {
    AppendPushes(hunk + removes + adds, Added, text);
    assert hunk + removes + (adds + [Line(Added, text)]) == hunk + removes + adds + [Line(Added, text)];
  }

  /** The state of one hunk. Removed and added lines wait in their own lists until
      the next context line, or the end of the hunk, flushes them. */
  class Hunk {
    const leftStart: nat
    const rightStart: nat
    var adds: nat
    var removes: nat
    var common: nat
    var hunk: seq<Line>
    var hunkAdds: seq<Line>
    var hunkRemoves: seq<Line>

    /** The lines in the order they would be printed now. */
    ghost function Lines(): seq<Line>
      reads this
    {
      hunk + hunkRemoves + hunkAdds
    }

    ghost predicate Valid()
      reads this
    {
      WellFormed(hunk, hunkRemoves, hunkAdds, (common, removes, adds))
    }

    constructor (leftStart: nat, rightStart: nat)
      ensures Valid() && Lines() == [] && !HasEdits()
      ensures this.leftStart == leftStart && this.rightStart == rightStart
    {
      this.leftStart, this.rightStart := leftStart, rightStart;
      adds, removes, common := 0, 0, 0;
      hunk, hunkAdds, hunkRemoves := [], [], [];
    }

    /** Pushing a line appends it to the sides it belongs to, whatever is waiting. */
    method PushLine(edit: Tag, line: string)
      requires Valid()
      modifies this
      ensures Valid() && Pushed(old(Lines()), Lines(), edit, line)
      ensures HasEdits() <==> old(HasEdits()) || edit != Context
    {
      match edit {
        case Context =>
          PushContext(hunk, hunkRemoves, hunkAdds, (common, removes, adds), line);
          common := common + 1;
          FlushEdits();
          hunk := hunk + [Line(Context, line)];
        case Removed =>
          PushRemoved(hunk, hunkRemoves, hunkAdds, (common, removes, adds), line);
          removes := removes + 1;
          hunkRemoves := hunkRemoves + [Line(Removed, line)];
        case Added =>
          PushAdded(hunk, hunkRemoves, hunkAdds, (common, removes, adds), line);
          adds := adds + 1;
          hunkAdds := hunkAdds + [Line(Added, line)];
      }
    }

    method FlushEdits()
      modifies this`hunk, this`hunkAdds, this`hunkRemoves
      ensures hunk == old(Lines()) && hunkAdds == [] && hunkRemoves == []
    {
      hunk := hunk + hunkRemoves;
      hunkRemoves := [];
      hunk := hunk + hunkAdds;
      hunkAdds := [];
    }

    predicate HasEdits()
      reads this
    {
      adds != 0 || removes != 0
    }

    /** PrintHeader. */
    function Header(): (Range, Range)
      reads this
    {
      (if removes != 0 then Range(leftStart, removes + common) else Omitted,
       if adds != 0 then Range(rightStart, adds + common) else Omitted)
    }

    /** PrintTo: header first, then everything still waiting is flushed. A line is a
        pointer to its text, of which only what precedes the first null is printed. */
    method PrintTo() returns (printed: PrintedHunk)
      requires Valid()
      modifies this`hunk, this`hunkAdds, this`hunkRemoves
      ensures printed.lines == PrintedLines(old(Lines())) && RemovesFirst(printed.lines)
      ensures printed.left == if removes != 0 then Range(leftStart, |LeftSide(printed.lines)|) else Omitted
      ensures HasEdits() ==> HeaderFits(printed, leftStart, rightStart)
      ensures printed.right == if adds != 0 then Range(rightStart, |RightSide(printed.lines)|) else Omitted
    {
      FlushKeepsOrder(hunk, hunkRemoves, hunkAdds, "");
      var (left, right) := Header();
      FlushEdits();
      printed := PrintedHunk(left, right, PrintedLines(hunk));
      SideLengths(hunk);
      PrintedSides(hunk);
    }
  }

  /** How far a patch tool has read the old text, and what it has written. */
  datatype PatchState = Rejected | Patching(pos: nat, out: seq<string>)

  /** Applies one hunk, trusting only what is printed. A side missing from the
      header is located through the other side. */
  function ApplyHunk(text: seq<string>, state: PatchState, h: PrintedHunk): PatchState {
    if state.Rejected? || (h.left.Omitted? && h.right.Omitted?) then Rejected
    else
      var before := LeftSide(h.lines);
      var start := if h.left.Range? then h.left.start - 1 else state.pos + (h.right.start - 1 - |state.out|);
      if !(state.pos <= start && start + |before| <= |text|) then Rejected
      else if text[start..start + |before|] != before then Rejected
      else if h.left.Range? && h.left.length != |before| then Rejected
      else
        var kept := state.out + text[state.pos..start];
        var after := RightSide(h.lines);
        if h.right.Range? && (h.right.start != |kept| + 1 || h.right.length != |after|) then Rejected
        else Patching(start + |before|, kept + after)
  }

  function ApplyHunks(text: seq<string>, hunks: seq<PrintedHunk>): PatchState {
    if hunks == [] then Patching(0, [])
    else ApplyHunk(text, ApplyHunks(text, hunks[..|hunks| - 1]), hunks[|hunks| - 1])
  }

  datatype Patched = Refused | Text(lines: seq<string>)

  /** The reference patch tool: None if some hunk does not fit. */
  function Patch(text: seq<string>, hunks: seq<PrintedHunk>): Patched {
    match ApplyHunks(text, hunks)
    case Rejected => Refused
    case Patching(pos, out) => if pos <= |text| then Text(out + text[pos..]) else Refused
  }

  /** The hunk h stands for left[ls..le] and right[rs..re], whose lines it prints up to
      the first null, and says so in its header. */
  ghost predicate Placed(h: PrintedHunk, left: seq<string>, right: seq<string>, ls: nat, le: nat, rs: nat, re: nat) {
    && ls <= le <= |left| && rs <= re <= |right|
    && LeftSide(h.lines) == PrintedTexts(left[ls..le]) && RightSide(h.lines) == PrintedTexts(right[rs..re])
    && (h.left.Range? || h.right.Range?)
    && (h.left.Range? ==> h.left == Range(ls + 1, le - ls))
    && (h.right.Range? ==> h.right == Range(rs + 1, re - rs))
  }

  /** Where a hunk belongs: left[ls..le] against right[rs..re]. */
  datatype Place = Place(ls: nat, le: nat, rs: nat, re: nat)

  const START := Place(0, 0, 0, 0)

  /** No line of these places holds a null. */
  ghost predicate Clean(places: seq<Place>, left: seq<string>, right: seq<string>) {
    forall k :: 0 <= k < |places| ==> CleanPlace(places[k], left, right)
  }

  ghost predicate CleanPlace(p: Place, left: seq<string>, right: seq<string>) {
    p.ls <= p.le <= |left| && p.rs <= p.re <= |right| && NoNulls(left[p.ls..p.le]) && NoNulls(right[p.rs..p.re])
  }

  ghost function LastPlace(places: seq<Place>): Place {
    if places == [] then START else places[|places| - 1]
  }

  /** The hunks, in order and without overlap, turn left[..l] into right[..r]:
      what lies between them is equal on both sides. */
  ghost predicate Covers(hunks: seq<PrintedHunk>, places: seq<Place>, left: seq<string>, right: seq<string>, l: nat,
                         r: nat) {
    && |places| == |hunks|
    && LastPlace(places).le <= l <= |left| && LastPlace(places).re <= r <= |right|
    && left[LastPlace(places).le..l] == right[LastPlace(places).re..r]
    && (hunks != [] ==>
         var p := places[|places| - 1];
         && Placed(hunks[|hunks| - 1], left, right, p.ls, p.le, p.rs, p.re)
         && Covers(hunks[..|hunks| - 1], places[..|places| - 1], left, right, p.ls, p.rs))
  }

  /** A hunk that belongs there is applied, unless a removed or context line of it was
      cut; what is written then is what was printed. */
  lemma ApplyPlaced(left: seq<string>, right: seq<string>, last: Place, out: seq<string>, h: PrintedHunk, p: Place)
    requires last.le <= p.ls <= |left| && last.re <= p.rs <= |right| && |out| == last.re
    requires left[last.le..p.ls] == right[last.re..p.rs]
    requires Placed(h, left, right, p.ls, p.le, p.rs, p.re)
    ensures ApplyHunk(left, Patching(last.le, out), h) ==
      if NoNulls(left[p.ls..p.le])
      then Patching(p.le, out + left[last.le..p.ls] + PrintedTexts(right[p.rs..p.re]))
      else Rejected
  {
    PrintedTextsAll(left[p.ls..p.le]);
    assert |left[last.le..p.ls]| == |right[last.re..p.rs]|;
  }

  /** The text written by then is as long as it should be, and is what it should be
      exactly if it was and no added or context line was cut. */
  lemma WrittenSoFar(left: seq<string>, right: seq<string>, last: Place, out: seq<string>, p: Place)
    requires last.le <= p.ls <= |left| && last.re <= p.rs <= p.re <= |right| && |out| == last.re
    requires left[last.le..p.ls] == right[last.re..p.rs]
    ensures var written := out + left[last.le..p.ls] + PrintedTexts(right[p.rs..p.re]);
      |written| == p.re && (written == right[..p.re] <==> out == right[..last.re] && NoNulls(right[p.rs..p.re]))
  {
    var gap, lines := left[last.le..p.ls], right[p.rs..p.re];
    PrintedTextsAll(lines);
    assert right[..p.re] == right[..last.re] + gap + lines;
    SplitThree(out, right[..last.re], gap, PrintedTexts(lines), lines);
  }

  lemma SplitThree<T>(a: seq<T>, b: seq<T>, gap: seq<T>, c: seq<T>, d: seq<T>)
    requires |a| == |b| && |c| == |d|
    ensures a + gap + c == b + gap + d <==> a == b && c == d
  {
    var n := |a + gap|;
    assert (a + gap + c)[..|a|] == a && (b + gap + d)[..|b|] == b;
    assert (a + gap + c)[n..] == c && (b + gap + d)[n..] == d;
  }

  /** The first k hunks: refused, or applied up to where the last one ends, with the
      right text written exactly if no line of them was cut. */
  ghost predicate AppliedTo(state: PatchState, places: seq<Place>, left: seq<string>, right: seq<string>) {
    match state
    case Rejected => !Clean(places, left, right)
    case Patching(pos, out) =>
      && pos == LastPlace(places).le && |out| == LastPlace(places).re <= |right|
      && (out == right[..|out|] <==> Clean(places, left, right))
  }

  lemma {:induction false} CoversPatches(hunks: seq<PrintedHunk>, places: seq<Place>,
                                         left: seq<string>, right: seq<string>, l: nat, r: nat)
    requires Covers(hunks, places, left, right, l, r)
    ensures AppliedTo(ApplyHunks(left, hunks), places, left, right)
  {
    if hunks != [] {
      var p, before, state := places[|places| - 1], places[..|places| - 1], ApplyHunks(left, hunks[..|hunks| - 1]);
      CoversPatches(hunks[..|hunks| - 1], before, left, right, p.ls, p.rs);
      CleanSnoc(before, p, left, right);
      assert places == before + [p];
      if state.Patching? {
        ApplyPlaced(left, right, LastPlace(before), state.out, hunks[|hunks| - 1], p);
        WrittenSoFar(left, right, LastPlace(before), state.out, p);
      }
    }
  }

  lemma CleanSnoc(places: seq<Place>, p: Place, left: seq<string>, right: seq<string>)
    ensures Clean(places + [p], left, right) <==> Clean(places, left, right) && CleanPlace(p, left, right)
  {
    assert forall k :: 0 <= k < |places| ==> (places + [p])[k] == places[k];
    assert (places + [p])[|places|] == p;
  }

  /** Reading a diff backwards: the sides change places. */
  function SwapTag(tag: Tag): Tag {
    match tag case Context => Context case Removed => Added case Added => Removed
  }

  function SwapLines(lines: seq<Line>): (r: seq<Line>)
    ensures |r| == |lines|
  {
    if lines == [] then []
    else
      var last := lines[|lines| - 1];
      SwapLines(lines[..|lines| - 1]) + [Line(SwapTag(last.tag), last.text)]
  }

  function SwapHunk(h: PrintedHunk): PrintedHunk {
    PrintedHunk(h.right, h.left, SwapLines(h.lines))
  }

  function Swap(hunks: seq<PrintedHunk>): (r: seq<PrintedHunk>)
    ensures |r| == |hunks|
  {
    if hunks == [] then [] else Swap(hunks[..|hunks| - 1]) + [SwapHunk(hunks[|hunks| - 1])]
  }

  lemma {:induction false} SwapSides(lines: seq<Line>)
    ensures LeftSide(SwapLines(lines)) == RightSide(lines)
    ensures RightSide(SwapLines(lines)) == LeftSide(lines)
  {
    if lines != [] {
      SwapSides(lines[..|lines| - 1]);
      var last := lines[|lines| - 1];
      SidesConcat(SwapLines(lines[..|lines| - 1]), [Line(SwapTag(last.tag), last.text)]);
      assert [Line(SwapTag(last.tag), last.text)][..0] == [];
    }
  }

  function SwapPlaces(places: seq<Place>): (r: seq<Place>)
    ensures |r| == |places|
  {
    seq(|places|, i requires 0 <= i < |places| => Place(places[i].rs, places[i].re, places[i].ls, places[i].le))
  }

  lemma {:induction false} CoversSwap(hunks: seq<PrintedHunk>, places: seq<Place>,
                                      left: seq<string>, right: seq<string>, l: nat, r: nat)
    requires Covers(hunks, places, left, right, l, r)
    ensures Covers(Swap(hunks), SwapPlaces(places), right, left, r, l)
  {
    if hunks != [] {
      var init, h, p := hunks[..|hunks| - 1], hunks[|hunks| - 1], places[|places| - 1];
      CoversSwap(init, places[..|places| - 1], left, right, p.ls, p.rs);
      PlacedSwap(h, p, left, right);
      SwapInit(hunks, places);
      hide Placed, Swap, SwapPlaces;
    }
  }

  lemma PlacedSwap(h: PrintedHunk, p: Place, left: seq<string>, right: seq<string>)
    requires Placed(h, left, right, p.ls, p.le, p.rs, p.re)
    ensures Placed(SwapHunk(h), right, left, p.rs, p.re, p.ls, p.le)
  {
    SwapSides(h.lines);
  }

  lemma SwapInit(hunks: seq<PrintedHunk>, places: seq<Place>)
    requires hunks != [] && |places| == |hunks|
    ensures var n := |hunks| - 1;
      && Swap(hunks)[..n] == Swap(hunks[..n]) && Swap(hunks)[n] == SwapHunk(hunks[n])
      && SwapPlaces(places)[..n] == SwapPlaces(places[..n])
      && SwapPlaces(places)[n] == Place(places[n].rs, places[n].re, places[n].ls, places[n].le)
  {
    hide SwapHunk;
  }

  lemma CleanSwap(places: seq<Place>, left: seq<string>, right: seq<string>)
    ensures Clean(SwapPlaces(places), right, left) <==> Clean(places, left, right)
  {
    assert forall k :: 0 <= k < |places| ==>
      (CleanPlace(SwapPlaces(places)[k], right, left) <==> CleanPlace(places[k], left, right));
  }

  lemma CoversPatch(hunks: seq<PrintedHunk>, places: seq<Place>, left: seq<string>, right: seq<string>)
    requires Covers(hunks, places, left, right, |left|, |right|)
    ensures Patch(left, hunks) == Text(right) <==> Clean(places, left, right)
  {
    CoversPatches(hunks, places, left, right, |left|, |right|);
    var p, state := LastPlace(places), ApplyHunks(left, hunks);
    assert left[p.le..] == left[p.le..|left|] && right[p.re..] == right[p.re..|right|];
    assert right == right[..p.re] + right[p.re..];
    if state.Patching? {
      SplitThree(state.out, right[..p.re], left[p.le..], [], []);
      assert state.out + left[p.le..] + [] == state.out + left[p.le..];
      assert right[..p.re] + left[p.le..] + [] == right;
    }
  }

  /** Hunks that cover both texts patch the one into the other, both ways, exactly if
      no line of a hunk holds a null. */
  lemma CoversRoundTrip(hunks: seq<PrintedHunk>, places: seq<Place>, left: seq<string>, right: seq<string>)
    requires Covers(hunks, places, left, right, |left|, |right|)
    ensures Patch(left, hunks) == Text(right) <==> Clean(places, left, right)
    ensures Patch(right, Swap(hunks)) == Text(left) <==> Clean(places, left, right)
  {
    CoversPatch(hunks, places, left, right);
    CoversSwap(hunks, places, left, right, |left|, |right|);
    CleanSwap(places, left, right);
    CoversPatch(Swap(hunks), SwapPlaces(places), right, left);
  }
}

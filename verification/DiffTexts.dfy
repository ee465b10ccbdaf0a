/** The text CreateUnifiedDiff of gtest.cc writes, and reading it back. */
module DiffTexts {
  import opened EditScripts
  import opened UnifiedDiffs
  import opened DiffHunks
  import opened GlobFilters
  import opened DecimalPrinter

  // ----- numbers and headers

  function Decimal(n: nat): (s: string)
    ensures IsNumeral(s) && Value(s) == n
  {
    if n < 10 then
      assert [Digit(n)][..0] == [];
      [Digit(n)]
    else
      var init, last := Decimal(n / 10), Digit(n % 10);
      DecimalSnoc(init, last);
      init + [last]
  }

  lemma DecimalSnoc(init: string, last: char)
    requires IsNumeral(init) && Value(init) > 0 && IsDigit(last)
    ensures IsNumeral(init + [last]) && Value(init + [last]) == 10 * Value(init) + DigitValue(last)
  {
    assert (init + [last])[..|init|] == init;
    assert |init| == 1 ==> init[..0] == [];
  }

  ghost predicate AllDigits(s: string) {
    s != [] && forall k :: 0 <= k < |s| ==> IsDigit(s[k])
  }

  /** One side of a header: where it starts and how long it is. */
  function PrintRange(sign: char, r: Range): string
    requires r.Range?
  {
    [sign] + Decimal(r.start) + "," + Decimal(r.length)
  }

  ghost function ReadRange(part: string, sign: char): Range {
    if part == "" || part[0] != sign then Omitted
    else
      var numbers := Split(part[1..], ',');
      if |numbers| == 2 && AllDigits(numbers[0]) && AllDigits(numbers[1])
      then Range(Value(numbers[0]), Value(numbers[1])) else Omitted
  }

  /** PrintHeader: the sides without edits are left out. */
  function HeaderRow(h: PrintedHunk): string {
    "@@ " + (if h.left.Range? then PrintRange('-', h.left) else "") +
    (if h.left.Range? && h.right.Range? then " " else "") +
    (if h.right.Range? then PrintRange('+', h.right) else "") + " @@"
  }

  ghost function ReadHeader(row: string): (Range, Range) {
    var parts := Split(row, ' ');
    if |parts| == 3 && parts[0] == parts[2] == "@@" then (ReadRange(parts[1], '-'), ReadRange(parts[1], '+'))
    else if |parts| == 4 && parts[0] == parts[3] == "@@" then (ReadRange(parts[1], '-'), ReadRange(parts[2], '+'))
    else (Omitted, Omitted)
  }

  /** Neither a number nor a range holds a character that separates. */
  lemma RangeReadsBack(sign: char, other: char, r: Range)
    requires r.Range? && sign != other && sign !in {' ', '\n', ','}
    ensures ReadRange(PrintRange(sign, r), sign) == r && ReadRange(PrintRange(sign, r), other) == Omitted
    ensures ' ' !in PrintRange(sign, r) && '\n' !in PrintRange(sign, r)
  {
    var start, length, part := Decimal(r.start), Decimal(r.length), PrintRange(sign, r);
    assert part[0] == sign && part[1..] == start + "," + length;
    var numbers := [start, length];
    assert Join(numbers, ',') == start + [','] + length by {
      assert numbers[1..] == [length];
    }
    assert part[1..] == Join(numbers, ',');
    NoSeparators(r.start);
    NoSeparators(r.length);
    SplitUnique(numbers, ',');
  }

  lemma NoSeparators(n: nat)
    ensures forall c :: c in {' ', '\n', ','} ==> c !in Decimal(n)
  {
  }

  lemma JoinThree(a: string, b: string, c: string)
    ensures Join([a, b, c], ' ') == a + " " + b + " " + c
  {
    assert [b, c][1..] == [c] && Join([c], ' ') == c;
    assert Join([b, c], ' ') == b + " " + c;
    assert [a, b, c][1..] == [b, c];
  }

  lemma JoinFour(a: string, b: string, c: string, d: string)
    ensures Join([a, b, c, d], ' ') == a + " " + b + " " + c + " " + d
  {
    JoinThree(b, c, d);
    assert [a, b, c, d][1..] == [b, c, d];
  }

  /** The parts of a header between the blanks. */
  ghost function HeaderParts(h: PrintedHunk): seq<string>
    requires h.left.Range? || h.right.Range?
  {
    if h.right.Omitted? then ["@@", PrintRange('-', h.left), "@@"]
    else if h.left.Omitted? then ["@@", PrintRange('+', h.right), "@@"]
    else ["@@", PrintRange('-', h.left), PrintRange('+', h.right), "@@"]
  }

  lemma HeaderIsJoined(h: PrintedHunk)
    requires h.left.Range? || h.right.Range?
    ensures HeaderRow(h) == Join(HeaderParts(h), ' ')
  {
    hide PrintRange;
    if h.right.Omitted? {
      JoinThree("@@", PrintRange('-', h.left), "@@");
    } else if h.left.Omitted? {
      JoinThree("@@", PrintRange('+', h.right), "@@");
    } else {
      JoinFour("@@", PrintRange('-', h.left), PrintRange('+', h.right), "@@");
    }
  }

  lemma PartsSeparate(h: PrintedHunk)
    requires h.left.Range? || h.right.Range?
    ensures forall i :: 0 <= i < |HeaderParts(h)| ==> ' ' !in HeaderParts(h)[i] && '\n' !in HeaderParts(h)[i]
  {
    if h.left.Range? {
      RangeReadsBack('-', '+', h.left);
    }
    if h.right.Range? {
      RangeReadsBack('+', '-', h.right);
    }
    hide PrintRange, ReadRange;
  }

  lemma HeaderUnbroken(h: PrintedHunk)
    requires h.left.Range? || h.right.Range?
    ensures '\n' !in HeaderRow(h) && HeaderRow(h)[0] == '@'
  {
    if h.left.Range? {
      RangeReadsBack('-', '+', h.left);
    }
    if h.right.Range? {
      RangeReadsBack('+', '-', h.right);
    }
    hide PrintRange, ReadRange;
  }

  /** The header of a hunk that names a side is read back. */
  lemma HeaderReadsBack(h: PrintedHunk)
    requires h.left.Range? || h.right.Range?
    ensures ReadHeader(HeaderRow(h)) == (h.left, h.right) && '\n' !in HeaderRow(h) && HeaderRow(h)[0] == '@'
  {
    if h.left.Range? {
      RangeReadsBack('-', '+', h.left);
    }
    if h.right.Range? {
      RangeReadsBack('+', '-', h.right);
    }
    HeaderUnbroken(h);
    PartsSeparate(h);
    HeaderIsJoined(h);
    hide PrintRange, ReadRange, Split, Join, HeaderRow;
    SplitUnique(HeaderParts(h), ' ');
  }

  // ----- rows

  function TagChar(tag: Tag): char {
    match tag case Context => ' ' case Removed => '-' case Added => '+'
  }

  function LineRows(lines: seq<Line>): (rows: seq<string>)
    ensures |rows| == |lines|
  {
    seq(|lines|, i requires 0 <= i < |lines| => [TagChar(lines[i].tag)] + lines[i].text)
  }

  /** A header row and one row for each line, hunk by hunk. */
  function Rows(hunks: seq<PrintedHunk>): seq<string> {
    if hunks == [] then []
    else
      var h := hunks[|hunks| - 1];
      Rows(hunks[..|hunks| - 1]) + [HeaderRow(h)] + LineRows(h.lines)
  }

  datatype Reading = Unreadable | Hunks(hunks: seq<PrintedHunk>)

  /** One more row: a header opens a hunk, anything else is a line of the last one. */
  ghost function ReadRow(before: Reading, row: string): Reading {
    if before.Unreadable? || row == "" then Unreadable
    else if row[0] == '@' then
      var (left, right) := ReadHeader(row);
      if left.Range? || right.Range? then Hunks(before.hunks + [PrintedHunk(left, right, [])]) else Unreadable
    else if before.hunks == [] || row[0] !in {' ', '-', '+'} then Unreadable
    else
      var init, h := before.hunks[..|before.hunks| - 1], before.hunks[|before.hunks| - 1];
      var tag := if row[0] == ' ' then Context else if row[0] == '-' then Removed else Added;
      Hunks(init + [h.(lines := h.lines + [Line(tag, row[1..])])])
  }

  ghost function ReadRows(rows: seq<string>): Reading {
    if rows == [] then Hunks([]) else ReadRow(ReadRows(rows[..|rows| - 1]), rows[|rows| - 1])
  }

  function RowCount(hunks: seq<PrintedHunk>): nat {
    if hunks == [] then 0 else RowCount(hunks[..|hunks| - 1]) + 1 + |hunks[|hunks| - 1].lines|
  }

  ghost predicate NamesSides(hunks: seq<PrintedHunk>) {
    forall k :: 0 <= k < |hunks| ==> hunks[k].left.Range? || hunks[k].right.Range?
  }

  /** Every row read is a header or a line. */
  lemma {:induction false} ReadingCounts(rows: seq<string>)
    ensures ReadRows(rows).Hunks? ==> RowCount(ReadRows(rows).hunks) == |rows|
  {
    if rows != [] {
      var before, after := ReadRows(rows[..|rows| - 1]), ReadRows(rows);
      ReadingCounts(rows[..|rows| - 1]);
      if after.Hunks? {
        assert after.hunks[..|after.hunks| - 1] ==
          if rows[|rows| - 1][0] == '@' then before.hunks else before.hunks[..|before.hunks| - 1];
      }
    }
  }

  lemma ReadSnoc(rows: seq<string>, row: string)
    ensures ReadRows(rows + [row]) == ReadRow(ReadRows(rows), row)
  {
    assert (rows + [row])[..|rows|] == rows;
  }

  /** The rows of a hunk add its lines to an open hunk. */
  lemma {:induction false} LinesReadBack(rows: seq<string>, hunks: seq<PrintedHunk>, h: PrintedHunk, lines: seq<Line>)
    requires ReadRows(rows) == Hunks(hunks + [h.(lines := [])])
    ensures ReadRows(rows + LineRows(lines)) == Hunks(hunks + [h.(lines := lines)])
  {
    if lines == [] {
      assert rows + LineRows(lines) == rows;
    } else {
      var init, line := lines[..|lines| - 1], lines[|lines| - 1];
      LinesReadBack(rows, hunks, h, init);
      LineRowsSnoc(rows, init, line);
      InitLast(lines);
      ReadSnoc(rows + LineRows(init), [TagChar(line.tag)] + line.text);
      hide ReadRows, ReadRow, LineRows;
      ReadLine(hunks, h, init, line);
    }
  }

  lemma ReadLine(hunks: seq<PrintedHunk>, h: PrintedHunk, lines: seq<Line>, line: Line)
    ensures ReadRow(Hunks(hunks + [h.(lines := lines)]), [TagChar(line.tag)] + line.text) ==
      Hunks(hunks + [h.(lines := lines + [line])])
  {
    var row, all := [TagChar(line.tag)] + line.text, hunks + [h.(lines := lines)];
    assert row[1..] == line.text && row[0] == TagChar(line.tag);
    assert all[..|all| - 1] == hunks && all[|all| - 1] == h.(lines := lines);
    hide ReadHeader;
  }

  lemma LineRowsSnoc(rows: seq<string>, lines: seq<Line>, line: Line)
    ensures rows + LineRows(lines + [line]) == rows + LineRows(lines) + [[TagChar(line.tag)] + line.text]
  {
  }

  /** Reading the rows gives the hunks back, whatever their lines hold. */
  lemma {:induction false} RowsReadBack(hunks: seq<PrintedHunk>)
    requires NamesSides(hunks)
    ensures ReadRows(Rows(hunks)) == Hunks(hunks)
  {
    if hunks != [] {
      var init, h := hunks[..|hunks| - 1], hunks[|hunks| - 1];
      RowsReadBack(init);
      ReadSnoc(Rows(init), HeaderRow(h));
      HeaderReadsBack(h);
      hide ReadHeader, HeaderRow;
      LinesReadBack(Rows(init) + [HeaderRow(h)], init, h, h.lines);
      InitLast(hunks);
    }
  }

  // ----- the text

  /** Every row ends with a line break. */
  function Ended(rows: seq<string>): string {
    if rows == [] then "" else Ended(rows[..|rows| - 1]) + rows[|rows| - 1] + "\n"
  }

  function PrintedText(hunks: seq<PrintedHunk>): string {
    Ended(Rows(hunks))
  }

  /** A text tool cuts the text at the line breaks; the last piece is empty. */
  ghost function ReadText(text: string): Reading {
    var pieces := Split(text, '\n');
    var n := |pieces| - 1;
    if pieces[n] == "" then ReadRows(pieces[..n]) else Unreadable
  }

  lemma {:induction false} EndedIsJoined(rows: seq<string>)
    ensures Ended(rows) == Join(rows + [""], '\n')
  {
    if rows == [] {
      assert rows + [""] == [""];
    } else {
      var init, last := rows[..|rows| - 1], rows[|rows| - 1];
      EndedIsJoined(init);
      JoinSnoc(rows, "", '\n');
      InitLast(rows);
      if init == [] {
        assert rows == [last];
      } else {
        JoinSnoc(init, "", '\n');
        JoinSnoc(init, last, '\n');
      }
    }
  }

  ghost function Breaks(s: string): nat {
    if s == [] then 0 else Breaks(s[1..]) + (if s[0] == '\n' then 1 else 0)
  }

  lemma {:induction false} PiecesCount(s: string)
    ensures |Split(s, '\n')| == Breaks(s) + 1
  {
    if s != [] {
      PiecesCount(s[1..]);
    }
  }

  lemma {:induction false} BreaksConcat(a: string, b: string)
    ensures Breaks(a + b) == Breaks(a) + Breaks(b)
  {
    if a == [] {
      assert a + b == b;
    } else {
      BreaksConcat(a[1..], b);
      assert (a + b)[1..] == a[1..] + b;
    }
  }

  lemma {:induction false} BreaksInside(s: string)
    ensures Breaks(s) == 0 <==> '\n' !in s
  {
    if s != [] {
      BreaksInside(s[1..]);
      assert s == [s[0]] + s[1..];
    }
  }

  ghost predicate Unbroken(rows: seq<string>) {
    forall i :: 0 <= i < |rows| ==> '\n' !in rows[i]
  }

  /** The text has as many line breaks as rows exactly if no row holds one. */
  lemma {:induction false} BreaksOfRows(rows: seq<string>)
    ensures Breaks(Ended(rows)) >= |rows|
    ensures Breaks(Ended(rows)) == |rows| <==> Unbroken(rows)
  {
    if rows != [] {
      var init, last := rows[..|rows| - 1], rows[|rows| - 1];
      BreaksOfRows(init);
      BreaksInside(last);
      BreaksConcat(Ended(init) + last, "\n");
      BreaksConcat(Ended(init), last);
      assert Breaks("\n") == 1 by { assert "\n"[1..] == ""; }
      InitLast(rows);
      hide Breaks;
      assert Unbroken(rows) <==> Unbroken(init) && '\n' !in last by {
        assert forall i :: 0 <= i < |init| ==> rows[i] == init[i];
      }
    }
  }

  /** No line of a hunk holds a line break. */
  ghost predicate NoBreaks(hunks: seq<PrintedHunk>) {
    forall k, i :: 0 <= k < |hunks| && 0 <= i < |hunks[k].lines| ==> '\n' !in hunks[k].lines[i].text
  }

  lemma {:induction false} RowsUnbroken(hunks: seq<PrintedHunk>)
    requires NamesSides(hunks)
    ensures Unbroken(Rows(hunks)) <==> NoBreaks(hunks)
    ensures |Rows(hunks)| == RowCount(hunks)
  {
    if hunks != [] {
      var init, h := hunks[..|hunks| - 1], hunks[|hunks| - 1];
      RowsUnbroken(init);
      HeaderReadsBack(h);
      hide HeaderRow, ReadHeader;
      LinesUnbroken(h.lines);
      UnbrokenConcat(Rows(init) + [HeaderRow(h)], LineRows(h.lines));
      UnbrokenConcat(Rows(init), [HeaderRow(h)]);
      InitLast(hunks);
      NoBreaksSnoc(init, h);
    }
  }

  lemma LinesUnbroken(lines: seq<Line>)
    ensures Unbroken(LineRows(lines)) <==> forall i :: 0 <= i < |lines| ==> '\n' !in lines[i].text
  {
    forall i | 0 <= i < |lines| ensures '\n' in LineRows(lines)[i] <==> '\n' in lines[i].text {}
  }

  lemma UnbrokenConcat(a: seq<string>, b: seq<string>)
    ensures Unbroken(a + b) <==> Unbroken(a) && Unbroken(b)
  {
    assert forall i :: 0 <= i < |a| ==> (a + b)[i] == a[i];
    assert forall i :: 0 <= i < |b| ==> (a + b)[|a| + i] == b[i];
  }

  lemma NoBreaksSnoc(hunks: seq<PrintedHunk>, h: PrintedHunk)
    ensures NoBreaks(hunks + [h]) <==> NoBreaks(hunks) && forall i :: 0 <= i < |h.lines| ==> '\n' !in h.lines[i].text
  {
    assert forall k :: 0 <= k < |hunks| ==> (hunks + [h])[k] == hunks[k];
    assert (hunks + [h])[|hunks|] == h;
  }

  /** Cutting at the line breaks gives the rows back, or else more pieces. */
  lemma PiecesOf(rows: seq<string>)
    ensures |Split(Ended(rows), '\n')| == |rows| + 1 <==> Unbroken(rows)
    ensures Unbroken(rows) ==> Split(Ended(rows), '\n') == rows + [""]
  {
    EndedIsJoined(rows);
    PiecesCount(Ended(rows));
    BreaksOfRows(rows);
    hide Split, Join, Ended, Breaks;
    if Unbroken(rows) {
      UnbrokenConcat(rows, [""]);
      SplitUnique(rows + [""], '\n');
    }
  }

  lemma UnbrokenText(rows: seq<string>)
    requires Unbroken(rows)
    ensures ReadText(Ended(rows)) == ReadRows(rows)
  {
    PiecesOf(rows);
    hide Split, Ended, Unbroken, ReadRows;
    assert (rows + [""])[..|rows|] == rows;
  }

  lemma BrokenText(rows: seq<string>, hunks: seq<PrintedHunk>)
    requires ReadText(Ended(rows)) == Hunks(hunks) && RowCount(hunks) == |rows|
    ensures Unbroken(rows)
  {
    PiecesOf(rows);
    hide Split, Ended, Unbroken, ReadRows, RowCount;
    var pieces := Split(Ended(rows), '\n');
    ReadingCounts(pieces[..|pieces| - 1]);
  }

  /** The printed text reads back as the hunks exactly if no line of a hunk holds a line
      break: the numbers of the headers and the first characters of the rows say the rest. */
  lemma TextReadsBack(hunks: seq<PrintedHunk>)
    requires NamesSides(hunks)
    ensures ReadText(PrintedText(hunks)) == Hunks(hunks) <==> NoBreaks(hunks)
  {
    RowsReadBack(hunks);
    RowsUnbroken(hunks);
    hide ReadRows, ReadText, Ended, Rows, NoBreaks, RowCount, Unbroken;
    if Unbroken(Rows(hunks)) {
      UnbrokenText(Rows(hunks));
    }
    if ReadText(PrintedText(hunks)) == Hunks(hunks) {
      BrokenText(Rows(hunks), hunks);
    }
  }

  /** A patch tool that is given the text only. */
  ghost function PatchText(text: seq<string>, diff: string): Patched {
    match ReadText(diff)
    case Unreadable => Refused
    case Hunks(hunks) => Patch(text, hunks)
  }

  /** PrintTo for each hunk in turn. */
  method PrintHunks(hunks: seq<PrintedHunk>) returns (text: string)
    ensures text == PrintedText(hunks)
  {
    text := "";
    for k := 0 to |hunks|
      invariant text == PrintedText(hunks[..k])
    {
      var h := hunks[k];
      ghost var rows := Rows(hunks[..k]) + [HeaderRow(h)];
      HeaderEnds(hunks, k);
      text := text + HeaderRow(h) + "\n";
      for i := 0 to |h.lines|
        invariant text == Ended(rows + LineRows(h.lines[..i]))
      {
        LineEnds(rows, h.lines, i);
        text := text + [TagChar(h.lines[i].tag)] + h.lines[i].text + "\n";
      }
      assert h.lines[..|h.lines|] == h.lines;
    }
    assert hunks[..|hunks|] == hunks;
  }

  lemma HeaderEnds(hunks: seq<PrintedHunk>, k: nat)
    requires k < |hunks|
    ensures var h, rows := hunks[k], Rows(hunks[..k]) + [HeaderRow(hunks[k])];
      && Ended(rows + LineRows(h.lines[..0])) == PrintedText(hunks[..k]) + HeaderRow(h) + "\n"
      && Rows(hunks[..k + 1]) == rows + LineRows(h.lines)
  {
    var rows := Rows(hunks[..k]) + [HeaderRow(hunks[k])];
    assert hunks[..k + 1][..k] == hunks[..k];
    assert rows + LineRows(hunks[k].lines[..0]) == rows;
    assert rows[..|rows| - 1] == Rows(hunks[..k]);
  }

  lemma LineEnds(rows: seq<string>, lines: seq<Line>, i: nat)
    requires i < |lines|
    ensures Ended(rows + LineRows(lines[..i + 1])) ==
      Ended(rows + LineRows(lines[..i])) + [TagChar(lines[i].tag)] + lines[i].text + "\n"
  {
    assert lines[..i + 1] == lines[..i] + [lines[i]];
    LineRowsSnoc(rows, lines[..i], lines[i]);
    var row, before := [TagChar(lines[i].tag)] + lines[i].text, rows + LineRows(lines[..i]);
    assert (before + [row])[..|before|] == before;
  }

  lemma {:induction false} LineOnASide(lines: seq<Line>, i: nat)
    requires i < |lines|
    ensures lines[i].text in LeftSide(lines) + RightSide(lines)
  {
    var init := lines[..|lines| - 1];
    if i < |init| {
      LineOnASide(init, i);
      assert init[i] == lines[i];
    }
  }

  /** Texts without line breaks are printed without more. */
  lemma UnbrokenTexts(hunks: seq<PrintedHunk>, spans: seq<Span>, edits: seq<EditType>, left: seq<string>,
                      right: seq<string>)
    requires Prints(hunks, spans, edits, left, right) && Unbroken(left) && Unbroken(right)
    ensures NoBreaks(hunks)
  {
    forall k, i | 0 <= k < |hunks| && 0 <= i < |hunks[k].lines| ensures '\n' !in hunks[k].lines[i].text {
      assert PrintsOne(hunks[k], spans[k], edits, left, right);
      var p := PlaceOf(edits, spans[k]);
      LineOnASide(hunks[k].lines, i);
      PrintedUnbroken(left[p.ls..p.le]);
      PrintedUnbroken(right[p.rs..p.re]);
    }
  }

  lemma PrintedUnbroken(texts: seq<string>)
    requires Unbroken(texts)
    ensures Unbroken(PrintedTexts(texts))
  {
    forall i | 0 <= i < |texts| ensures '\n' !in PrintedTexts(texts)[i] {
      assert PrintedTexts(texts)[i] <= texts[i];
    }
  }

  /** CreateUnifiedDiff, with its text. The text reads back as the hunks exactly if no
      printed line holds a line break; then a patch tool that is given the text only turns
      left into right exactly if no line was cut at a null, and the context is not 0 or
      the texts are equal. */
  method PrintUnifiedDiff(left: seq<string>, right: seq<string>, context: nat)
    returns (text: string, ghost hunks: seq<PrintedHunk>, ghost edits: seq<EditType>, ghost spans: seq<Span>)
    ensures edits == Script(left, right, |left|, |right|) && (context >= 1 ==> Cuts(edits, spans, context, |edits|))
    ensures Prints(hunks, spans, edits, left, right) && text == PrintedText(hunks)
    ensures ReadText(text) == Hunks(hunks) <==> NoBreaks(hunks)
    ensures NoBreaks(hunks) ==>
      (PatchText(left, text) == Text(right) <==>
         (context >= 1 || left == right) && Clean(PlacesOf(edits, spans), left, right))
    ensures Unbroken(left) && Unbroken(right) ==> NoBreaks(hunks)
    ensures NoNulls(left) && NoNulls(right) ==> Clean(PlacesOf(edits, spans), left, right)
    ensures text == "" <==> context == 0 || left == right
  {
    hide Script, NoBreaks, Unbroken, Clean, NoNulls, Transforms, Cuts, Patch, ReadText, Rows, Ended, PrintsOne;
    var printed;
    printed, edits, spans := CreateUnifiedDiff(left, right, context);
    hunks := printed;
    text := PrintHunks(printed);
    SidesAreNamed(hunks, spans, edits, left, right);
    TextReadsBack(hunks);
    TextIsEmpty(hunks);
    if Unbroken(left) && Unbroken(right) {
      UnbrokenTexts(hunks, spans, edits, left, right);
    }
  }

  lemma SidesAreNamed(hunks: seq<PrintedHunk>, spans: seq<Span>, edits: seq<EditType>, left: seq<string>,
                      right: seq<string>)
    requires Prints(hunks, spans, edits, left, right)
    ensures NamesSides(hunks)
  {
    forall k | 0 <= k < |hunks| ensures hunks[k].left.Range? || hunks[k].right.Range? {
      assert PrintsOne(hunks[k], spans[k], edits, left, right);
    }
  }

  lemma TextIsEmpty(hunks: seq<PrintedHunk>)
    ensures PrintedText(hunks) == "" <==> hunks == []
  {
  }
}

/** The simple regular expressions of gtest-port.cc: syntax, meaning, the
    validator and the backtracking matcher. */
module SimpleRegex {

  /** A possibly null C string; the text does not include the terminator. */
  datatype CString = Null | Text(s: string)

  // ----- character classes

  predicate IsAsciiDigit(ch: char) { '0' <= ch <= '9' }

  predicate IsAsciiPunct(ch: char) {
    ch in {'^', '-', '!', '"', '#', '$', '%', '&', '\'', '(', ')', '*', '+', ',', '.', '/', ':', ';', '<', '=', '>',
           '?', '@', '[', '\\', ']', '_', '`', '{', '|', '}', '~'}
  }

  predicate IsRepeat(ch: char) { ch in {'?', '*', '+'} }

  predicate IsUnsupported(ch: char) { ch in {'(', ')', '[', ']', '{', '}', '|'} }

  predicate IsAsciiWhiteSpace(ch: char) { ch in {' ', '\U{c}', '\n', '\r', '\t', '\U{b}'} }

  predicate IsAsciiWordChar(ch: char) {
    ('a' <= ch <= 'z') || ('A' <= ch <= 'Z') || ('0' <= ch <= '9') || ch == '_'
  }

  predicate IsValidEscape(c: char) {
    IsAsciiPunct(c) || c in {'d', 'D', 'f', 'n', 'r', 's', 'S', 't', 'v', 'w', 'W'}
  }

  predicate AtomMatchesChar(escaped: bool, patternChar: char, ch: char) {
    if escaped then
      match patternChar
      case 'd' => IsAsciiDigit(ch)
      case 'D' => !IsAsciiDigit(ch)
      case 'f' => ch == '\U{c}'
      case 'n' => ch == '\n'
      case 'r' => ch == '\r'
      case 's' => IsAsciiWhiteSpace(ch)
      case 'S' => !IsAsciiWhiteSpace(ch)
      case 't' => ch == '\t'
      case 'v' => ch == '\U{b}'
      case 'w' => IsAsciiWordChar(ch)
      case 'W' => !IsAsciiWordChar(ch)
      case _ => IsAsciiPunct(patternChar) && patternChar == ch
    else (patternChar == '.' && ch != '\n') || patternChar == ch
  }

  // ----- syntax

  datatype Quantifier = Once | Optional | Star | Plus

  datatype Item = Item(escaped: bool, c: char, quantifier: Quantifier) {
    ghost predicate WellFormed() {
      if escaped then IsValidEscape(c) else c !in {'\\', '^', '$'} && !IsRepeat(c) && !IsUnsupported(c)
    }

    ghost function Print(): (s: string)
      ensures s != []
    {
      (if escaped then ['\\', c] else [c]) + PrintQuantifier(quantifier)
    }
  }

  ghost function PrintQuantifier(q: Quantifier): string {
    match q case Once => "" case Optional => "?" case Star => "*" case Plus => "+"
  }

  /** A regular expression: an optional '^', atoms with quantifiers, an optional '$'. */
  datatype Regex = Regex(atStart: bool, items: seq<Item>, atEnd: bool) {
    ghost predicate WellFormed() { AllWellFormed(items) }

    ghost function Print(): string {
      (if atStart then "^" else "") + PrintBody(items, atEnd)
    }
  }

  ghost predicate AllWellFormed(items: seq<Item>) {
    forall i :: 0 <= i < |items| ==> items[i].WellFormed()
  }

  ghost function PrintBody(items: seq<Item>, atEnd: bool): string {
    if items == [] then (if atEnd then "$" else "") else items[0].Print() + PrintBody(items[1..], atEnd)
  }

  /** A pattern is a simple regular expression if it is the printed form of one. */
  ghost predicate IsSimpleRegex(pattern: string) {
    exists re: Regex :: re.WellFormed() && re.Print() == pattern
  }

  // ----- meaning

  ghost predicate Allows(q: Quantifier, count: nat) {
    match q case Once => count == 1 case Optional => count <= 1 case Star => true case Plus => count >= 1
  }

  ghost predicate AllMatch(item: Item, w: string) {
    forall i :: 0 <= i < |w| ==> AtomMatchesChar(item.escaped, item.c, w[i])
  }

  /** The language of a sequence of items. */
  ghost predicate InLanguage(items: seq<Item>, w: string) {
    if items == [] then w == []
    else
      exists k :: 0 <= k <= |w| && Allows(items[0].quantifier, k) &&
                  AllMatch(items[0], w[..k]) && InLanguage(items[1..], w[k..])
  }

  /** Some substring is in the language: a prefix under '^', a suffix under '$'. */
  ghost predicate Matches(re: Regex, s: string) {
    exists i, j :: 0 <= i <= j <= |s| && (re.atStart ==> i == 0) && (re.atEnd ==> j == |s|) &&
                   InLanguage(re.items, s[i..j])
  }

  /** Some prefix is in the language, the whole of s under '$'. */
  ghost predicate MatchesHead(items: seq<Item>, atEnd: bool, s: string) {
    exists j :: 0 <= j <= |s| && (atEnd ==> j == |s|) && InLanguage(items, s[..j])
  }

  /** A match at the head: some allowed number of characters for the first item,
      then a match of the rest. */
  ghost predicate HeadSplit(items: seq<Item>, atEnd: bool, s: string, k: nat)
    requires items != []
  {
    && k <= |s| && Allows(items[0].quantifier, k) && AllMatch(items[0], s[..k])
    && MatchesHead(items[1..], atEnd, s[k..])
  }

  lemma MatchesHeadStep(items: seq<Item>, atEnd: bool, s: string)
    requires items != []
    ensures MatchesHead(items, atEnd, s) <==> exists k: nat :: HeadSplit(items, atEnd, s, k)
  {
    if MatchesHead(items, atEnd, s) {
      var j :| 0 <= j <= |s| && (atEnd ==> j == |s|) && InLanguage(items, s[..j]);
      var k :| 0 <= k <= j && Allows(items[0].quantifier, k) && AllMatch(items[0], s[..j][..k]) &&
        InLanguage(items[1..], s[..j][k..]);
      assert s[..j][..k] == s[..k] && s[..j][k..] == s[k..][..j - k];
      assert HeadSplit(items, atEnd, s, k);
    }
    if k: nat :| HeadSplit(items, atEnd, s, k) {
      var j :| 0 <= j <= |s[k..]| && (atEnd ==> j == |s[k..]|) && InLanguage(items[1..], s[k..][..j]);
      assert s[..k + j][..k] == s[..k] && s[..k + j][k..] == s[k..][..j];
    }
  }

  // ----- validation

  /** What the validator accepts from a position on: `first` at the start of the
      pattern, `repeatable` after something a repetition may follow. */
  ghost predicate Accepted(s: string, first: bool, repeatable: bool) {
    if s == [] then true
    else if s[0] == '\\' then
      |s| >= 2 && IsValidEscape(s[1]) && Accepted(s[2..], false, true)
    else
      && (s[0] == '^' ==> first) && (s[0] == '$' ==> |s| == 1) && !IsUnsupported(s[0])
      && (IsRepeat(s[0]) ==> repeatable)
      && Accepted(s[1..], false, s[0] !in {'^', '$'} && !IsRepeat(s[0]))
  }

  /** After an atom: an optional repetition, then whatever may follow it. */
  lemma AcceptedAfterAtom(s: string)
    ensures Accepted(s, false, true) <==>
      Accepted(s, false, false) || (s != [] && IsRepeat(s[0]) && Accepted(s[1..], false, false))
  {
  }

  /** Away from the end anchor: an atom, then the rest. */
  lemma AcceptedAtom(s: string)
    requires s != [] && s != "$"
    ensures Accepted(s, false, false) <==>
      if s[0] == '\\' then |s| >= 2 && IsValidEscape(s[1]) && Accepted(s[2..], false, true)
      else Item(false, s[0], Once).WellFormed() && Accepted(s[1..], false, true)
  {
  }

  function QuantifierOf(c: char): Quantifier {
    if c == '?' then Optional else if c == '*' then Star else Plus
  }

  /** Printed bodies are accepted. */
  lemma {:induction false} PrintedIsAccepted(items: seq<Item>, atEnd: bool)
    requires AllWellFormed(items)
    ensures Accepted(PrintBody(items, atEnd), false, false)
  {
    if items != [] {
      var item, rest := items[0], PrintBody(items[1..], atEnd);
      PrintedIsAccepted(items[1..], atEnd);
      ItemAccepted(item, rest);
    }
  }

  lemma ItemAccepted(item: Item, rest: string)
    requires item.WellFormed() && Accepted(rest, false, false)
    ensures Accepted(item.Print() + rest, false, false)
  {
    hide Accepted;
    var s, q, n := item.Print() + rest, PrintQuantifier(item.quantifier), if item.escaped then 2 else 1;
    assert s[n..] == q + rest;
    assert if q == "" then s[n..] == rest else s[n..][0] == q[0] && s[n..][1..] == rest;
    assert s[0] == if item.escaped then '\\' else item.c;
    AcceptedAfterAtom(s[n..]);
    AcceptedAtom(s);
  }

  /** What is accepted is printed: the pattern is taken apart item by item. */
  lemma {:induction false} AcceptedIsPrinted(s: string) returns (items: seq<Item>, atEnd: bool)
    requires Accepted(s, false, false)
    ensures AllWellFormed(items) && PrintBody(items, atEnd) == s
  {
    if s == [] {
      items, atEnd := [], false;
    } else if s == "$" {
      items, atEnd := [], true;
    } else {
      var item, rest := FirstItem(s);
      items, atEnd := AcceptedIsPrinted(rest);
      assert ([item] + items)[1..] == items;
      items := [item] + items;
    }
  }

  lemma FirstItem(s: string) returns (item: Item, rest: string)
    requires Accepted(s, false, false) && s != [] && s != "$"
    ensures item.WellFormed() && item.Print() + rest == s && Accepted(rest, false, false)
    ensures |rest| < |s|
  {
    AcceptedAtom(s);
    hide Accepted;
    var escaped := s[0] == '\\';
    var n := if escaped then 2 else 1;
    var tail := s[n..];
    AcceptedAfterAtom(tail);
    if Accepted(tail, false, false) {
      item, rest := Item(escaped, s[n - 1], Once), tail;
      assert item.Print() + rest == s;
    } else {
      item, rest := Item(escaped, s[n - 1], QuantifierOf(tail[0])), tail[1..];
      assert PrintQuantifier(item.quantifier) == [tail[0]];
      assert tail == [tail[0]] + rest;
      assert item.Print() + rest == s;
    }
  }

  lemma AcceptedStart(s: string)
    ensures Accepted(s, true, false) <==>
      if s != [] && s[0] == '^' then Accepted(s[1..], false, false) else Accepted(s, false, false)
  {
  }

  /** A printed body never starts with '^' or a repetition, and only an end
      anchor starts with '$'. */
  lemma BodyStart(items: seq<Item>, atEnd: bool)
    requires AllWellFormed(items) && PrintBody(items, atEnd) != []
    ensures PrintBody(items, atEnd)[0] != '^' && !IsRepeat(PrintBody(items, atEnd)[0])
    ensures PrintBody(items, atEnd)[0] == '$' <==> items == []
  {
  }

  lemma AcceptedEnd(s: string, first: bool, repeatable: bool)
    ensures Accepted(s[|s|..], first, repeatable)
  {
  }

  /** One step of the scan, at position i. */
  lemma AcceptedAt(s: string, i: nat, repeatable: bool)
    requires i < |s|
    ensures Accepted(s[i..], i == 0, repeatable) <==>
      if s[i] == '\\' then i + 1 < |s| && IsValidEscape(s[i + 1]) && Accepted(s[i + 2..], false, true)
      else
        && (s[i] == '^' ==> i == 0) && (s[i] == '$' ==> i + 1 == |s|) && !IsUnsupported(s[i])
        && (IsRepeat(s[i]) ==> repeatable)
        && Accepted(s[i + 1..], false, s[i] != '^' && s[i] != '$' && !IsRepeat(s[i]))
  {
    assert s[i..][1..] == s[i + 1..];
    if i + 1 < |s| {
      assert s[i..][2..] == s[i + 2..];
    }
  }

  lemma AcceptedIsSimple(s: string)
    ensures Accepted(s, true, false) <==> IsSimpleRegex(s)
  {
    if Accepted(s, true, false) {
      AcceptedStart(s);
      hide Accepted;
      var atStart := s != [] && s[0] == '^';
      var items, atEnd := AcceptedIsPrinted(if atStart then s[1..] else s);
      assert Regex(atStart, items, atEnd).Print() == s;
    }
    if re: Regex :| re.WellFormed() && re.Print() == s {
      SimpleIsAccepted(re);
    }
  }

  lemma SimpleIsAccepted(re: Regex)
    requires re.WellFormed()
    ensures Accepted(re.Print(), true, false)
  {
    var body := PrintBody(re.items, re.atEnd);
    PrintedIsAccepted(re.items, re.atEnd);
    AcceptedStart(re.Print());
    if body != [] {
      BodyStart(re.items, re.atEnd);
    }
    hide Accepted, PrintBody;
    assert re.atStart ==> re.Print()[0] == '^' && re.Print()[1..] == body;
    assert !re.atStart ==> re.Print() == body;
  }

  /** ValidateRegex: one pass over the pattern; failures are noted and the scan goes on. */
  method ValidateRegex(regex: CString) returns (valid: bool)
    ensures valid <==> regex.Text? && IsSimpleRegex(regex.s)
  {
    if regex.Null? {
      return false;
    }
    hide Accepted, IsSimpleRegex, IsValidEscape, IsUnsupported, IsRepeat;
    var s := regex.s;
    AcceptedIsSimple(s);
    valid := true;
    var prevRepeatable := false;
    var i := 0;
    assert s[0..] == s;
    while i < |s|
      invariant 0 <= i <= |s|
      invariant valid && Accepted(s[i..], i == 0, prevRepeatable) <==> Accepted(s, true, false)
    {
      AcceptedAt(s, i, prevRepeatable);
      if s[i] == '\\' {
        i := i + 1;
        if i == |s| {
          return false;
        }
        if !IsValidEscape(s[i]) {
          valid := false;
        }
        prevRepeatable := true;
      } else {
        var ch := s[i];
        if ch == '^' && i > 0 {
          valid := false;
        } else if ch == '$' && i + 1 != |s| {
          valid := false;
        } else if IsUnsupported(ch) {
          valid := false;
        } else if IsRepeat(ch) && !prevRepeatable {
          valid := false;
        }
        prevRepeatable := ch != '^' && ch != '$' && !IsRepeat(ch);
      }
      i := i + 1;
    }
    AcceptedEnd(s, i == 0, prevRepeatable);
  }

  // ----- matching

  /** SIZE_MAX; strings are shorter than it. */
  const SIZE_MAX: nat := 0xFFFF_FFFF_FFFF_FFFF

  /** What the first characters of a pattern say about its first item. */
  lemma LookAhead(items: seq<Item>, atEnd: bool)
    requires AllWellFormed(items) && items != []
    ensures var regex := PrintBody(items, atEnd);
      && regex != []
      && (items[0].escaped <==> regex[0] == '\\')
      && var tail := if items[0].escaped then regex[1..] else regex;
      && tail != [] && tail[0] == items[0].c
      && if items[0].quantifier == Once then
           tail[1..] == PrintBody(items[1..], atEnd) && !(|tail| > 1 && IsRepeat(tail[1]))
         else
           |tail| > 1 && IsRepeat(tail[1]) && QuantifierOf(tail[1]) == items[0].quantifier
           && tail[2..] == PrintBody(items[1..], atEnd)
  {
    var item, rest := items[0], PrintBody(items[1..], atEnd);
    assert rest != [] ==> !IsRepeat(rest[0]) by {
      if rest != [] {
        BodyStart(items[1..], atEnd);
      }
    }
    ItemAhead(item, rest);
  }

  lemma ItemAhead(item: Item, rest: string)
    requires item.WellFormed() && (rest != [] ==> !IsRepeat(rest[0]))
    ensures var regex := item.Print() + rest;
      && regex != []
      && (item.escaped <==> regex[0] == '\\')
      && var tail := if item.escaped then regex[1..] else regex;
      && tail != [] && tail[0] == item.c
      && if item.quantifier == Once then
           tail[1..] == rest && !(|tail| > 1 && IsRepeat(tail[1]))
         else
           |tail| > 1 && IsRepeat(tail[1]) && QuantifierOf(tail[1]) == item.quantifier && tail[2..] == rest
  {
    var regex := item.Print() + rest;
    var tail := if item.escaped then regex[1..] else regex;
    var q := PrintQuantifier(item.quantifier);
    assert tail == [item.c] + q + rest;
    if item.quantifier == Once {
      assert tail == [item.c] + rest;
    } else {
      assert tail == [item.c, q[0]] + rest;
    }
  }

  /** Without items the head matches anything, or nothing but the end. */
  lemma NoItems(atEnd: bool, s: string)
    ensures MatchesHead([], atEnd, s) <==> !atEnd || s == []
  {
    assert s[..0] == [] && s[..|s|] == s;
  }

  /** MatchRepetitionAndRegexAtHead: tries every allowed number of repetitions. */
  method MatchRepetitionAndRegexAtHead(escaped: bool, c: char, repeat: char, regex: string, str: string,
                                       ghost items: seq<Item>, ghost atEnd: bool) returns (matches: bool)
    requires AllWellFormed(items) && regex == PrintBody(items, atEnd)
    requires IsRepeat(repeat) && |str| < SIZE_MAX - 1
    ensures matches <==> MatchesHead([Item(escaped, c, QuantifierOf(repeat))] + items, atEnd, str)
    decreases |regex|, 1
  {
    ghost var all := [Item(escaped, c, QuantifierOf(repeat))] + items;
    assert all[1..] == items;
    MatchesHeadStep(all, atEnd, str);
    var minCount := if repeat == '+' then 1 else 0;
    var maxCount := if repeat == '?' then 1 else SIZE_MAX - 1;
    var i := 0;
    while i <= maxCount
      invariant 0 <= i <= maxCount + 1 && i <= |str| + 1
      invariant i <= maxCount ==> i <= |str| && AllMatch(all[0], str[..i])
      invariant forall k: nat :: k < i ==> !HeadSplit(all, atEnd, str, k)
    {
      if i >= minCount {
        var rest := MatchRegexAtHead(regex, str[i..], items, atEnd);
        if rest {
          assert HeadSplit(all, atEnd, str, i);
          return true;
        }
      }
      assert !HeadSplit(all, atEnd, str, i);
      if i == |str| || !AtomMatchesChar(escaped, c, str[i]) {
        forall k: nat | i < k && k <= |str| ensures !AllMatch(all[0], str[..k]) {
          assert str[..k][i] == str[i];
        }
        return false;
      }
      assert str[..i + 1] == str[..i] + [str[i]];
      i := i + 1;
    }
    return false;
  }

  /** MatchRegexAtHead: the first atom decides which way to go. */
  method MatchRegexAtHead(regex: string, str: string, ghost items: seq<Item>, ghost atEnd: bool) returns (matches: bool)
    requires AllWellFormed(items) && regex == PrintBody(items, atEnd)
    requires |str| < SIZE_MAX - 1
    ensures matches <==> MatchesHead(items, atEnd, str)
    decreases |regex|, 0
  {
    NoItems(atEnd, str);
    if regex == [] {
      return true;
    }
    BodyStart(items, atEnd);
    if regex[0] == '$' {
      return str == [];
    }
    var escaped := regex[0] == '\\';
    var tail := if escaped then regex[1..] else regex;
    LookAhead(items, atEnd);
    ghost var rest := items[1..];
    assert [items[0]] + rest == items;
    assert items[0].quantifier != Once ==> items[0] == Item(escaped, tail[0], QuantifierOf(tail[1]));
    if |tail| > 1 && IsRepeat(tail[1]) {
      matches := MatchRepetitionAndRegexAtHead(escaped, tail[0], tail[1], tail[2..], str, rest, atEnd);
    } else {
      MatchesHeadStep(items, atEnd, str);
      if str != [] && AtomMatchesChar(escaped, tail[0], str[0]) {
        matches := MatchRegexAtHead(tail[1..], str[1..], rest, atEnd);
        assert matches ==> HeadSplit(items, atEnd, str, 1);
      } else {
        matches := false;
      }
    }
  }

  /** A match somewhere is a match at the head of some suffix, of the whole string under '^'. */
  lemma MatchesSomewhere(re: Regex, s: string)
    ensures Matches(re, s) <==>
      exists i :: 0 <= i <= |s| && (re.atStart ==> i == 0) && MatchesHead(re.items, re.atEnd, s[i..])
  {
    if Matches(re, s) {
      var i, j :| 0 <= i <= j <= |s| && (re.atStart ==> i == 0) && (re.atEnd ==> j == |s|) &&
                  InLanguage(re.items, s[i..j]);
      assert s[i..][..j - i] == s[i..j];
      assert MatchesHead(re.items, re.atEnd, s[i..]);
    }
    if i :| 0 <= i <= |s| && (re.atStart ==> i == 0) && MatchesHead(re.items, re.atEnd, s[i..]) {
      var j :| 0 <= j <= |s[i..]| && (re.atEnd ==> j == |s[i..]|) && InLanguage(re.items, s[i..][..j]);
      assert s[i..i + j] == s[i..][..j];
    }
  }

  /** MatchRegexAnywhere, for a pattern printed from re. */
  method MatchRegexAnywhere(regex: CString, str: CString, ghost re: Regex) returns (matches: bool)
    requires regex.Text? ==> re.WellFormed() && re.Print() == regex.s
    requires str.Text? ==> |str.s| < SIZE_MAX - 1
    ensures matches <==> regex.Text? && str.Text? && Matches(re, str.s)
  {
    if regex.Null? || str.Null? {
      return false;
    }
    var p, s := regex.s, str.s;
    MatchesSomewhere(re, s);
    assert s[0..] == s;
    if !re.atStart && p != [] {
      BodyStart(re.items, re.atEnd);
      assert p == PrintBody(re.items, re.atEnd);
    }
    if p != [] && p[0] == '^' {
      assert p[1..] == PrintBody(re.items, re.atEnd);
      matches := MatchRegexAtHead(p[1..], s, re.items, re.atEnd);
      return;
    }
    assert p == PrintBody(re.items, re.atEnd);
    var i := 0;
    while i <= |s|
      invariant 0 <= i <= |s| + 1
      invariant forall k :: 0 <= k < i ==> !MatchesHead(re.items, re.atEnd, s[k..])
    {
      var found := MatchRegexAtHead(p, s[i..], re.items, re.atEnd);
      if found {
        return true;
      }
      i := i + 1;
    }
    return false;
  }

  // ----- the RE class

  /** The pattern ends in an escaped '$', so Init adds no end anchor for full matches. */
  ghost predicate EndsInEscapedDollar(re: Regex) {
    !re.atEnd && re.items != [] && re.items[|re.items| - 1] == Item(true, '$', Once)
  }

  /** The regular expression Init compiles for full matches. */
  ghost function FullForm(re: Regex): Regex {
    Regex(true, re.items, !EndsInEscapedDollar(re))
  }

  lemma {:induction false} PrintBodyEnd(items: seq<Item>, atEnd: bool)
    ensures PrintBody(items, atEnd) == PrintBody(items, false) + (if atEnd then "$" else "")
  {
    if items != [] {
      PrintBodyEnd(items[1..], atEnd);
    }
  }

  lemma {:induction false} PrintBodyLast(items: seq<Item>)
    requires items != []
    ensures PrintBody(items, false) == PrintBody(items[..|items| - 1], false) + items[|items| - 1].Print()
  {
    hide Item.Print;
    if |items| == 1 {
      assert items[..0] == [] && PrintBody(items[1..], false) == "";
    } else {
      var last := items[|items| - 1];
      PrintBodyLast(items[1..]);
      var middle := PrintBody(items[1..][..|items| - 2], false);
      assert items[1..][..|items| - 2] == items[..|items| - 1][1..];
      assert items[0].Print() + (middle + last.Print()) == (items[0].Print() + middle) + last.Print();
    }
  }

  /** The last character of a pattern is '$' exactly when it has an end anchor or
      ends in an escaped '$'. */
  lemma LastIsDollar(re: Regex)
    requires re.WellFormed()
    ensures re.Print() != [] && re.Print()[|re.Print()| - 1] == '$' <==> re.atEnd || EndsInEscapedDollar(re)
  {
    hide Item.Print, PrintBody, IsRepeat, IsUnsupported, IsValidEscape;
    var start := if re.atStart then "^" else "";
    if re.items == [] {
      EmptyBody(re.atEnd);
    } else {
      PrintBodyEnd(re.items, re.atEnd);
      PrintBodyLast(re.items);
      var front, item := PrintBody(re.items[..|re.items| - 1], false), re.items[|re.items| - 1];
      LastOfItem(item);
      LastOf(start, front, item.Print());
      LastOf(start, PrintBody(re.items, false), "$");
    }
  }

  lemma EmptyBody(atEnd: bool)
    ensures PrintBody([], atEnd) == if atEnd then "$" else ""
  {
  }

  lemma LastOfItem(item: Item)
    requires item.WellFormed()
    ensures var s := item.Print();
      s[|s| - 1] == '$' <==> item == Item(true, '$', Once)
  {
  }

  lemma LastOf(a: string, b: string, c: string)
    requires c != []
    ensures (a + (b + c))[|a + (b + c)| - 1] == c[|c| - 1]
  {
  }

  /** For full matches Init prints the full form. */
  lemma FullFormPrints(re: Regex)
    requires re.WellFormed()
    ensures var s := re.Print();
      FullForm(re).Print() ==
        (if re.atStart then "" else "^") + s + (if s == [] || s[|s| - 1] != '$' then "$" else "")
  {
    hide PrintBody, EndsInEscapedDollar;
    var body, full := PrintBody(re.items, re.atEnd), PrintBody(re.items, !EndsInEscapedDollar(re));
    LastIsDollar(re);
    assert re.Print() == (if re.atStart then "^" else "") + body;
    assert EndsInEscapedDollar(re) ==> !re.atEnd by { EscapedDollarNotAtEnd(re); }
    assert full == body + (if re.atEnd || EndsInEscapedDollar(re) then "" else "$") by {
      PrintBodyEnd(re.items, re.atEnd);
      PrintBodyEnd(re.items, !EndsInEscapedDollar(re));
    }
    assert FullForm(re).Print() == "^" + full;
    assert "^" + body == (if re.atStart then "" else "^") + re.Print();
  }

  lemma EscapedDollarNotAtEnd(re: Regex)
    ensures EndsInEscapedDollar(re) ==> !re.atEnd
  {
  }

  /** A pattern starts with '^' exactly when it has a start anchor. */
  lemma FirstIsCaret(re: Regex)
    requires re.WellFormed()
    ensures re.Print() != [] && re.Print()[0] == '^' <==> re.atStart
  {
    if !re.atStart && re.Print() != [] {
      assert re.Print() == PrintBody(re.items, re.atEnd);
      BodyStart(re.items, re.atEnd);
    }
  }

  /** The whole string is in the language of the items. */
  lemma FullFormMeans(re: Regex, s: string)
    ensures !EndsInEscapedDollar(re) ==> (Matches(FullForm(re), s) <==> InLanguage(re.items, s))
    ensures EndsInEscapedDollar(re) ==> (Matches(FullForm(re), s) <==> MatchesHead(re.items, false, s))
  {
    assert s[0..|s|] == s;
    assert forall j :: 0 <= j <= |s| ==> s[0..j] == s[..j];
  }

  /** Every well-formed atom matches some character. */
  function Example(item: Item): (ch: char)
    ensures item.WellFormed() ==> AtomMatchesChar(item.escaped, item.c, ch)
  {
    if !item.escaped then item.c
    else
      match item.c
      case 'd' => '0' case 'D' => 'a' case 'f' => '\U{c}' case 'n' => '\n' case 'r' => '\r' case 's' => ' '
      case 'S' => 'a' case 't' => '\t' case 'v' => '\U{b}' case 'w' => 'a' case 'W' => ' '
      case _ => item.c
  }

  /** Every regular expression matches some string: one character per item. */
  lemma {:induction false} LanguageInhabited(items: seq<Item>) returns (w: string)
    requires AllWellFormed(items)
    ensures InLanguage(items, w)
  {
    if items == [] {
      w := [];
    } else {
      var rest := LanguageInhabited(items[1..]);
      w := [Example(items[0])] + rest;
      assert w[..1] == [Example(items[0])] && w[1..] == rest;
    }
  }

  /** If the last item is an escaped '$', so is the last character of every match. */
  lemma {:induction false} EscapedDollarLast(items: seq<Item>, w: string)
    requires items != [] && items[|items| - 1] == Item(true, '$', Once) && InLanguage(items, w)
    ensures w != [] && w[|w| - 1] == '$'
  {
    var k :| 0 <= k <= |w| && Allows(items[0].quantifier, k) && AllMatch(items[0], w[..k]) &&
      InLanguage(items[1..], w[k..]);
    if |items| == 1 {
      assert k == 1 && w[..1][0] == w[0];
    } else {
      EscapedDollarLast(items[1..], w[k..]);
    }
  }

  /** A full match is a match of the whole string exactly for the patterns that do
      not end in an escaped '$'; for the others some longer string is accepted too. */
  lemma FullMatchExactly(re: Regex)
    requires re.WellFormed()
    ensures (forall s: string :: Matches(FullForm(re), s) <==> InLanguage(re.items, s)) <==> !EndsInEscapedDollar(re)
  {
    if EndsInEscapedDollar(re) {
      var w := LanguageInhabited(re.items);
      var longer := w + "x";
      FullFormMeans(re, longer);
      assert longer[..|w|] == w;
      assert MatchesHead(re.items, false, longer);
      if InLanguage(re.items, longer) {
        EscapedDollarLast(re.items, longer);
      }
    } else {
      forall s: string ensures Matches(FullForm(re), s) <==> InLanguage(re.items, s) {
        FullFormMeans(re, s);
      }
    }
  }

  /** The last part of Init: copies the pattern between a '^' and a '$', unless it
      already has one at that end. The result is again a printed expression, anchored
      at both ends unless the pattern ends in an escaped '$'. */
  method AddAnchors(s: string, ghost re: Regex) returns (buffer: string)
    requires re.WellFormed() && re.Print() == s
    ensures buffer == FullForm(re).Print()
  {
    FullFormPrints(re);
    FirstIsCaret(re);
    hide FullForm, Regex.Print, Regex.WellFormed, PrintBody, EndsInEscapedDollar;
    buffer := "";
    if s == [] || s[0] != '^' {
      buffer := buffer + "^";
    }
    buffer := buffer + s;
    if s == [] || s[|s| - 1] != '$' {
      buffer := buffer + "$";
    }
  }

  /** A compiled regular expression: the pattern, its full-match form, and whether
      the pattern is valid. The ghost field is the syntax of a valid pattern. */
  class RE {
    const pattern: CString
    var fullPattern: CString
    var isValid: bool
    ghost var syntax: Regex

    ghost predicate Valid()
      reads this
    {
      && (isValid <==> pattern.Text? && IsSimpleRegex(pattern.s))
      && (isValid ==> syntax.WellFormed() && syntax.Print() == pattern.s)
      && (isValid ==> fullPattern == Text(FullForm(syntax).Print()))
    }

    /** RE::Init. */
    constructor (regex: CString)
      ensures Valid() && pattern == regex
    {
      pattern := regex;
      fullPattern, isValid := Null, false;
      syntax := Regex(false, [], false);
      new;
      isValid := ValidateRegex(regex);
      if !isValid {
        return;
      }
      ghost var re: Regex :| re.WellFormed() && re.Print() == regex.s;
      syntax := re;
      var buffer := AddAnchors(regex.s, re);
      fullPattern := Text(buffer);
    }

    /** RE::FullMatch. */
    method FullMatch(str: CString) returns (matches: bool)
      requires Valid() && (str.Text? ==> |str.s| < SIZE_MAX - 1)
      ensures matches ==> isValid && str.Text?
      ensures isValid && str.Text? && !EndsInEscapedDollar(syntax) ==> (matches <==> InLanguage(syntax.items, str.s))
      ensures isValid && str.Text? && EndsInEscapedDollar(syntax) ==>
        (matches <==> MatchesHead(syntax.items, false, str.s))
    {
      if !isValid {
        return false;
      }
      if str.Text? {
        FullFormMeans(syntax, str.s);
      }
      matches := MatchRegexAnywhere(fullPattern, str, FullForm(syntax));
    }

    /** RE::PartialMatch. */
    method PartialMatch(str: CString) returns (matches: bool)
      requires Valid() && (str.Text? ==> |str.s| < SIZE_MAX - 1)
      ensures matches <==> isValid && str.Text? && Matches(syntax, str.s)
    {
      if !isValid {
        return false;
      }
      matches := MatchRegexAnywhere(pattern, str, syntax);
    }
  }
}

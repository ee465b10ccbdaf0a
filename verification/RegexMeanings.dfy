/** What the simple regular expressions of gtest-port.cc mean, character by character, in
    written-out sets: what every atom matches, what may be escaped, and how often. */
module RegexMeanings {
  import opened SimpleRegex

  const DIGITS := "0123456789"
  const LOWER := "abcdefghijklmnopqrstuvwxyz"
  const UPPER := "ABCDEFGHIJKLMNOPQRSTUVWXYZ"
  const WORD := LOWER + UPPER + DIGITS + "_"
  const SPACES := " \U{c}\n\r\t\U{b}"
  const PUNCTUATION := "^-!\"#$%&'()*+,./:;<=>?@[\\]_`{|}~"

  /** The classes, and their complements. */
  lemma ClassAtoms(ch: char)
    ensures AtomMatchesChar(true, 'd', ch) <==> ch in DIGITS
    ensures AtomMatchesChar(true, 'D', ch) <==> ch !in DIGITS
    ensures AtomMatchesChar(true, 's', ch) <==> ch in SPACES
    ensures AtomMatchesChar(true, 'S', ch) <==> ch !in SPACES
    ensures AtomMatchesChar(true, 'w', ch) <==> ch in WORD
    ensures AtomMatchesChar(true, 'W', ch) <==> ch !in WORD
  {
    InDigits(ch);
    InWord(ch);
  }

  lemma InDigits(ch: char)
    ensures '0' <= ch <= '9' <==> ch in DIGITS
  {
  }

  lemma InWord(ch: char)
    ensures ('a' <= ch <= 'z') || ('A' <= ch <= 'Z') || ('0' <= ch <= '9') || ch == '_' <==> ch in WORD
  {
    InDigits(ch);
    InLower(ch);
    InUpper(ch);
    assert WORD == LOWER + UPPER + DIGITS + "_";
    hide LOWER, UPPER, DIGITS, WORD;
  }

  lemma InLower(ch: char)
    ensures 'a' <= ch <= 'z' <==> ch in LOWER
  {
    assert 'a' <= ch <= 'z' ==>
      ch == 'a' || ch == 'b' || ch == 'c' || ch == 'd' || ch == 'e' || ch == 'f' || ch == 'g' ||
      ch == 'h' || ch == 'i' || ch == 'j' || ch == 'k' || ch == 'l' || ch == 'm' || ch == 'n' ||
      ch == 'o' || ch == 'p' || ch == 'q' || ch == 'r' || ch == 's' || ch == 't' || ch == 'u' ||
      ch == 'v' || ch == 'w' || ch == 'x' || ch == 'y' || ch == 'z';
  }

  lemma InUpper(ch: char)
    ensures 'A' <= ch <= 'Z' <==> ch in UPPER
  {
    assert 'A' <= ch <= 'Z' ==>
      ch == 'A' || ch == 'B' || ch == 'C' || ch == 'D' || ch == 'E' || ch == 'F' || ch == 'G' ||
      ch == 'H' || ch == 'I' || ch == 'J' || ch == 'K' || ch == 'L' || ch == 'M' || ch == 'N' ||
      ch == 'O' || ch == 'P' || ch == 'Q' || ch == 'R' || ch == 'S' || ch == 'T' || ch == 'U' ||
      ch == 'V' || ch == 'W' || ch == 'X' || ch == 'Y' || ch == 'Z';
  }

  lemma InPunctuation(c: char)
    ensures IsAsciiPunct(c) <==> c in PUNCTUATION
  {
  }

  /** The control characters. */
  lemma ControlAtoms(ch: char)
    ensures AtomMatchesChar(true, 'f', ch) <==> ch == '\U{c}'
    ensures AtomMatchesChar(true, 'n', ch) <==> ch == '\n'
    ensures AtomMatchesChar(true, 'r', ch) <==> ch == '\r'
    ensures AtomMatchesChar(true, 't', ch) <==> ch == '\t'
    ensures AtomMatchesChar(true, 'v', ch) <==> ch == '\U{b}'
  {
  }

  /** Escaped punctuation stands for itself; no other character may be escaped. */
  lemma PunctuationAtoms(c: char, ch: char)
    requires c !in {'d', 'D', 'f', 'n', 'r', 's', 'S', 't', 'v', 'w', 'W'}
    ensures AtomMatchesChar(true, c, ch) <==> c in PUNCTUATION && ch == c
  {
    InPunctuation(c);
    hide IsAsciiPunct, PUNCTUATION;
  }

  /** Without a backslash only the dot is special: it matches all but the line break. */
  lemma PlainAtoms(c: char, ch: char)
    ensures AtomMatchesChar(false, c, ch) <==> if c == '.' then ch != '\n' else ch == c
  {
  }

  /** What may follow a backslash, and what may stand without one. */
  lemma AtomsAllowed(c: char, q: Quantifier)
    ensures Item(true, c, q).WellFormed() <==>
      c in PUNCTUATION || c in {'d', 'D', 'f', 'n', 'r', 's', 'S', 't', 'v', 'w', 'W'}
    ensures Item(false, c, q).WellFormed() <==> c !in "\\^$?*+()[]{}|"
  {
    InPunctuation(c);
    hide IsAsciiPunct, PUNCTUATION;
  }

  /** How an item is printed, and how many characters it then takes. */
  lemma PrintedQuantifiers(escaped: bool, c: char, n: nat)
    ensures var atom := if escaped then ['\\', c] else [c];
      && Item(escaped, c, Once).Print() == atom && (Allows(Once, n) <==> n == 1)
      && Item(escaped, c, Optional).Print() == atom + "?" && (Allows(Optional, n) <==> n == 0 || n == 1)
      && Item(escaped, c, Star).Print() == atom + "*" && Allows(Star, n)
      && Item(escaped, c, Plus).Print() == atom + "+" && (Allows(Plus, n) <==> n != 0)
  {
  }

  /** How the anchors are printed, and what they ask for. */
  lemma PrintedAnchors(items: seq<Item>, s: string)
    ensures var body := Regex(false, items, false).Print();
      && Regex(true, items, false).Print() == "^" + body
      && Regex(false, items, true).Print() == body + "$"
      && Regex(true, items, true).Print() == "^" + body + "$"
    ensures Matches(Regex(false, items, false), s) <==>
      exists i, j :: 0 <= i <= j <= |s| && InLanguage(items, s[i..j])
    ensures Matches(Regex(true, items, false), s) <==> exists j :: 0 <= j <= |s| && InLanguage(items, s[0..j])
    ensures Matches(Regex(false, items, true), s) <==> exists i :: 0 <= i <= |s| && InLanguage(items, s[i..|s|])
    ensures Matches(Regex(true, items, true), s) <==> InLanguage(items, s)
  {
    PrintBodyEnd(items, true);
    assert s[0..|s|] == s;
  }

  /** One character after the other: the words of a sequence of atoms. */
  lemma {:induction false} WordsOfAtoms(items: seq<Item>, w: string)
    requires forall i :: 0 <= i < |items| ==> items[i].quantifier == Once
    ensures InLanguage(items, w) <==>
      |w| == |items| && forall i :: 0 <= i < |w| ==> AtomMatchesChar(items[i].escaped, items[i].c, w[i])
  {
    if items != [] {
      if w != [] {
        WordsOfAtoms(items[1..], w[1..]);
        assert AllMatch(items[0], w[..1]) <==> AtomMatchesChar(items[0].escaped, items[0].c, w[0]) by {
          assert w[..1][0] == w[0];
        }
      }
      assert InLanguage(items, w) <==> w != [] && AllMatch(items[0], w[..1]) && InLanguage(items[1..], w[1..]);
    }
  }

  /** The words of one atom and its quantifier. */
  lemma WordsOfItem(item: Item, w: string)
    ensures InLanguage([item], w) <==>
      Allows(item.quantifier, |w|) && forall i :: 0 <= i < |w| ==> AtomMatchesChar(item.escaped, item.c, w[i])
  {
    assert w[..|w|] == w && w[|w|..] == [];
    assert [item][1..] == [];
  }

  // ----- one reading

  lemma {:induction false} BodyHasOneReading(a: seq<Item>, b: seq<Item>, aEnd: bool, bEnd: bool)
    requires AllWellFormed(a) && AllWellFormed(b) && PrintBody(a, aEnd) == PrintBody(b, bEnd)
    ensures a == b && aEnd == bEnd
  {
    var s := PrintBody(a, aEnd);
    if s != [] {
      BodyStart(a, aEnd);
      BodyStart(b, bEnd);
    }
    if a != [] {
      LookAhead(a, aEnd);
      LookAhead(b, bEnd);
      assert a[0] == b[0];
      BodyHasOneReading(a[1..], b[1..], aEnd, bEnd);
      assert a == [a[0]] + a[1..] && b == [b[0]] + b[1..];
    }
  }

  /** A pattern is the printed form of one expression only. */
  lemma OneReading(a: Regex, b: Regex)
    requires a.WellFormed() && b.WellFormed() && a.Print() == b.Print()
    ensures a == b
  {
    FirstIsCaret(a);
    FirstIsCaret(b);
    if a.atStart {
      assert a.Print()[1..] == PrintBody(a.items, a.atEnd) && b.Print()[1..] == PrintBody(b.items, b.atEnd);
    } else {
      assert a.Print() == PrintBody(a.items, a.atEnd) && b.Print() == PrintBody(b.items, b.atEnd);
    }
    BodyHasOneReading(a.items, b.items, a.atEnd, b.atEnd);
  }

  /** The pattern \d+ fully matches exactly the non-empty strings of digits. */
  lemma DigitsPattern(re: Regex, s: string)
    requires re.WellFormed() && re.Print() == "\\d+"
    ensures !EndsInEscapedDollar(re)
    ensures InLanguage(re.items, s) <==> s != "" && forall i :: 0 <= i < |s| ==> s[i] in DIGITS
  {
    var item := Item(true, 'd', Plus);
    var digits := Regex(false, [item], false);
    assert PrintBody([item][1..], false) == "";
    assert digits.Print() == "\\d+";
    OneReading(re, digits);
    WordsOfItem(item, s);
    forall i | 0 <= i < |s| ensures AtomMatchesChar(true, 'd', s[i]) <==> s[i] in DIGITS {
      ClassAtoms(s[i]);
    }
  }

  /** So does an expression compiled from it. */
  lemma CompiledDigits(re: RE, s: string)
    requires re.Valid() && re.pattern == Text("\\d+")
    ensures re.isValid && !EndsInEscapedDollar(re.syntax)
    ensures InLanguage(re.syntax.items, s) <==> s != "" && forall i :: 0 <= i < |s| ==> s[i] in DIGITS
  {
    var digits := Regex(false, [Item(true, 'd', Plus)], false);
    assert PrintBody([Item(true, 'd', Plus)][1..], false) == "";
    assert digits.Print() == "\\d+" && digits.WellFormed();
    DigitsPattern(re.syntax, s);
  }
}

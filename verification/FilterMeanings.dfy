/** What the test name filters of gtest.cc select, written out: wildcards, ':' and '-', the
    names of disabled tests and of death test suites. */
module FilterMeanings {
  import opened GlobFilters
  import opened TestRuns
  import opened TestSelection

  // ----- wildcards

  /** A glob, from its first character on. */
  lemma GlobCases(c: char, rest: string, name: string)
    ensures GlobMatches("", name) <==> name == ""
    ensures GlobMatches("?" + rest, name) <==> name != "" && GlobMatches(rest, name[1..])
    ensures GlobMatches("*" + rest, name) <==> exists k :: 0 <= k <= |name| && GlobMatches(rest, name[k..])
    ensures c != '?' && c != '*' ==>
      (GlobMatches([c] + rest, name) <==> name != "" && name[0] == c && GlobMatches(rest, name[1..]))
  {
    assert ("?" + rest)[1..] == rest && ("*" + rest)[1..] == rest && ([c] + rest)[1..] == rest;
    StarMeansAnyPrefix("*" + rest, name);
  }

  /** Text without wildcards stands for itself. */
  lemma {:induction false} TextThen(text: string, rest: string, name: string)
    requires IsText(text)
    ensures GlobMatches(text + rest, name) <==> text <= name && GlobMatches(rest, name[|text|..])
  {
    if text == "" {
      assert text + rest == rest && name[0..] == name;
    } else {
      assert text + rest == [text[0]] + (text[1..] + rest);
      GlobCases(text[0], text[1..] + rest, name);
      if name != "" {
        TextThen(text[1..], rest, name[1..]);
        assert |text| <= |name| ==> name[1..][|text| - 1..] == name[|text|..];
        assert text <= name <==> text[0] == name[0] && text[1..] <= name[1..];
      }
    }
  }

  ghost predicate HasPrefix(text: string, name: string) { exists rest: string :: name == text + rest }

  ghost predicate HasSuffix(text: string, name: string) { exists front: string :: name == front + text }

  ghost predicate HasPart(text: string, name: string) {
    exists front: string, back: string :: name == front + text + back
  }

  /** No wildcard in it. */
  ghost predicate IsText(text: string) {
    forall i :: 0 <= i < |text| ==> text[i] != '?' && text[i] != '*'
  }

  lemma AnyName(name: string)
    ensures GlobMatches("*", name)
  {
    GlobCases(' ', "", name);
    assert "*" + "" == "*" && name[|name|..] == "";
    assert GlobMatches("", name[|name|..]);
  }

  /** A final star: everything that begins with the text. */
  lemma BeginsWith(text: string, name: string)
    requires IsText(text)
    ensures GlobMatches(text + "*", name) <==> HasPrefix(text, name)
  {
    TextThen(text, "*", name);
    if text <= name {
      AnyName(name[|text|..]);
      assert name == text + name[|text|..];
    }
  }

  /** A star in front: everything that ends with the text, */
  lemma EndsWithText(text: string, name: string)
    requires IsText(text)
    ensures GlobMatches("*" + text, name) <==> HasSuffix(text, name)
  {
    GlobCases(' ', text, name);
    forall k | 0 <= k <= |name| ensures GlobMatches(text, name[k..]) <==> text == name[k..] {
      PlainMatchesItself(text, name[k..]);
    }
    hide GlobMatches;
    if HasSuffix(text, name) {
      var front: string :| name == front + text;
      assert name[|front|..] == text;
    }
    if k :| 0 <= k <= |name| && GlobMatches(text, name[k..]) {
      assert name == name[..k] + text;
    }
  }

  /** and with a star on both sides: everything that contains it. */
  lemma Contains(text: string, name: string)
    requires IsText(text)
    ensures GlobMatches("*" + (text + "*"), name) <==> HasPart(text, name)
  {
    GlobCases(' ', text + "*", name);
    forall k | 0 <= k <= |name| ensures GlobMatches(text + "*", name[k..]) <==> HasPrefix(text, name[k..]) {
      BeginsWith(text, name[k..]);
    }
    hide GlobMatches;
    PartIsPrefix(text, name);
  }

  lemma PartIsPrefix(text: string, name: string)
    ensures HasPart(text, name) <==> exists k :: 0 <= k <= |name| && HasPrefix(text, name[k..])
  {
    if HasPart(text, name) {
      var front: string, back: string :| name == front + text + back;
      assert name[|front|..] == text + back;
    }
    if k :| 0 <= k <= |name| && HasPrefix(text, name[k..]) {
      var rest: string :| name[k..] == text + rest;
      assert name == name[..k] + text + rest;
    }
  }

  // ----- lists of patterns

  /** Either of two lists of patterns joined by ':'. */
  lemma EitherAccepts(a: string, b: string, name: string)
    requires ':' !in a
    ensures Accepts(a + ":" + b, name) <==> GlobMatches(a, name) || Accepts(b, name)
    ensures Accepts(a, name) <==> GlobMatches(a, name)
  {
    var both := a + ":" + b;
    assert both[..|a|] == a && both[|a|] == ':' && both[|a| + 1..] == b;
    SplitAtFirst(both, ':', |a|);
    SplitAtFirst(a, ':', |a|);
    assert a[..|a|] == a;
    var parts := Split(b, ':');
    assert Split(both, ':') == [a] + parts && Split(a, ':') == [a];
    hide Split, GlobMatches;
    assert forall i :: 0 <= i < |parts| ==> ([a] + parts)[i + 1] == parts[i];
    assert ([a] + parts)[0] == a;
  }

  /** Without '-' the whole flag is the positive part; with it, what follows the first '-'
      is excluded, and nothing but that if nothing precedes it. */
  lemma FlagSelects(positive: string, negative: string, name: string)
    requires '-' !in positive
    ensures Selects(positive, name) <==> Accepts(positive, name)
    ensures Selects(positive + "-" + negative, name) <==>
      (positive == "" || Accepts(positive, name)) && !Accepts(negative, name)
  {
    var flag := positive + "-" + negative;
    FirstDashIs(positive, |positive|);
    assert flag[..|positive|] == positive && flag[|positive|] == '-' && flag[|positive| + 1..] == negative;
    FirstDashIs(flag, |positive|);
    EitherAccepts("*", "", name);
    AnyName(name);
  }

  lemma {:induction false} FirstDashIs(flag: string, k: nat)
    requires k <= |flag| && '-' !in flag[..k] && (k < |flag| ==> flag[k] == '-')
    ensures FirstDash(flag) == k
  {
    if k > 0 {
      assert flag[0] in flag[..k] && flag[1..][..k - 1] == flag[..k][1..];
      FirstDashIs(flag[1..], k - 1);
    }
  }

  /** A flag that begins with '-' selects exactly what the rest does not accept. */
  lemma OnlyExcluded(negative: string, name: string)
    ensures Selects("-" + negative, name) <==> !Accepts(negative, name)
  {
    FlagSelects("", negative, name);
    assert "" + "-" + negative == "-" + negative;
  }

  // ----- disabled tests and death tests

  ghost predicate DisabledName(name: string) {
    HasPrefix("DISABLED_", name) || HasPart("/DISABLED_", name)
  }

  lemma DisabledNames(name: string)
    ensures Accepts(DISABLE_TEST_FILTER, name) <==> DisabledName(name)
  {
    DisableFilterText();
    hide DISABLE_TEST_FILTER, Accepts, HasPrefix, HasPart;
    PrefixOrPart("DISABLED_", "/DISABLED_", name);
  }

  lemma DisableFilterText()
    ensures DISABLE_TEST_FILTER == ("DISABLED_" + "*") + ":" + ("*" + ("/DISABLED_" + "*"))
    ensures IsText("DISABLED_") && IsText("/DISABLED_") && ':' !in "DISABLED_" && ':' !in "/DISABLED_"
  {
  }

  lemma PrefixOrPart(prefix: string, part: string, name: string)
    requires IsText(prefix) && IsText(part) && ':' !in prefix && ':' !in part
    ensures Accepts((prefix + "*") + ":" + ("*" + (part + "*")), name) <==>
      HasPrefix(prefix, name) || HasPart(part, name)
  {
    BeginsWith(prefix, name);
    Contains(part, name);
    TwoPatterns(prefix + "*", "*" + (part + "*"), name);
  }

  lemma SuffixOrPart(suffix: string, part: string, name: string)
    requires IsText(suffix) && IsText(part) && ':' !in suffix && ':' !in part
    ensures Accepts(("*" + suffix) + ":" + ("*" + (part + "*")), name) <==>
      HasSuffix(suffix, name) || HasPart(part, name)
  {
    EndsWithText(suffix, name);
    Contains(part, name);
    TwoPatterns("*" + suffix, "*" + (part + "*"), name);
  }

  lemma TwoPatterns(a: string, b: string, name: string)
    requires ':' !in a && ':' !in b
    ensures Accepts(a + ":" + b, name) <==> GlobMatches(a, name) || GlobMatches(b, name)
  {
    EitherAccepts(a, b, name);
    EitherAccepts(b, "", name);
  }

  /** A test is runnable if the flag selects its full name, and it is not disabled or
      disabled tests are run as well. */
  lemma RunnableTests(sel: Selection, suite: string, test: string)
    ensures IsRunnable(sel, suite, test) <==>
      && Selects(sel.filter, suite + "." + test)
      && (sel.alsoRunDisabled || !(DisabledName(suite) || DisabledName(test)))
  {
    DisabledNames(suite);
    DisabledNames(test);
  }

  /** Running disabled tests as well only adds tests. */
  lemma AlsoRunDisabledAdds(sel: Selection, suite: string, test: string)
    ensures IsRunnable(sel.(alsoRunDisabled := false), suite, test) ==>
      IsRunnable(sel.(alsoRunDisabled := true), suite, test)
  {
  }

  /** A death test suite has a name that ends in DeathTest, or contains DeathTest/. */
  lemma DeathTestNames(name: string)
    ensures IsDeathTestSuite(name) <==> HasSuffix("DeathTest", name) || HasPart("DeathTest/", name)
  {
    DeathTestFilterText();
    hide DEATH_TEST_SUITE_FILTER, Accepts, HasSuffix, HasPart;
    SuffixOrPart("DeathTest", "DeathTest/", name);
  }

  lemma DeathTestFilterText()
    ensures DEATH_TEST_SUITE_FILTER == ("*" + "DeathTest") + ":" + ("*" + ("DeathTest/" + "*"))
    ensures IsText("DeathTest") && IsText("DeathTest/") && ':' !in "DeathTest" && ':' !in "DeathTest/"
  {
  }
}

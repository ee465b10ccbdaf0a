/** Test name filters of gtest.cc: the last-star-restart glob matcher, the
    splitting of filter strings, and the filters built on them. */
module GlobFilters {

  /** What a glob means: '?' stands for one character, '*' for any string. */
  ghost predicate GlobMatches(pattern: string, name: string)
    decreases |pattern|, |name|
  {
    if pattern == [] then name == []
    else if pattern[0] == '*' then
      GlobMatches(pattern[1..], name) || (name != [] && GlobMatches(pattern, name[1..]))
    else
      name != [] && (pattern[0] == '?' || pattern[0] == name[0]) && GlobMatches(pattern[1..], name[1..])
  }

  /** A star stands for exactly the prefixes of the name, the empty one included. */
  lemma {:induction false} StarMeansAnyPrefix(pattern: string, name: string)
    requires pattern != [] && pattern[0] == '*'
    ensures GlobMatches(pattern, name) <==> exists k :: 0 <= k <= |name| && GlobMatches(pattern[1..], name[k..])
    decreases |name|
  {
    assert name[0..] == name;
    if name != [] {
      StarMeansAnyPrefix(pattern, name[1..]);
      assert forall k :: 1 <= k <= |name| ==> name[k..] == name[1..][k - 1..];
      if exists k :: 0 <= k <= |name[1..]| && GlobMatches(pattern[1..], name[1..][k..]) {
        var k :| 0 <= k <= |name[1..]| && GlobMatches(pattern[1..], name[1..][k..]);
        assert name[k + 1..] == name[1..][k..];
      }
    }
  }

  /** The remaining pattern matches the remaining name. */
  ghost predicate From(pattern: string, name: string, p: nat, n: nat)
    requires p <= |pattern| && n <= |name|
  {
    GlobMatches(pattern[p..], name[n..])
  }

  lemma FromStep(pattern: string, name: string, p: nat, n: nat)
    requires p <= |pattern| && n <= |name|
    ensures From(pattern, name, p, n) <==>
      if p == |pattern| then n == |name|
      else if pattern[p] == '*' then
        From(pattern, name, p + 1, n) || (n < |name| && From(pattern, name, p, n + 1))
      else
        n < |name| && (pattern[p] == '?' || pattern[p] == name[n]) && From(pattern, name, p + 1, n + 1)
  {
    if p < |pattern| {
      assert pattern[p..][1..] == pattern[p + 1..];
    }
    if n < |name| {
      assert name[n..][1..] == name[n + 1..];
    }
  }

  /** A star that matches from a later point of the name matches from an earlier one. */
  lemma {:induction false} StarMonotone(pattern: string, name: string, p: nat, n: nat, m: nat)
    requires p < |pattern| && pattern[p] == '*' && n <= m <= |name|
    requires From(pattern, name, p, m)
    ensures From(pattern, name, p, n)
    decreases m - n
  {
    if n < m {
      StarMonotone(pattern, name, p, n + 1, m);
      FromStep(pattern, name, p, n);
    }
  }

  /** Between two stars nothing can be gained by starting later: a match of the
      older star from s on also gives a match of the newer star at p, which was
      reached by matching everything in between from s - 1 on. */
  lemma {:induction false} LaterStarSuffices(pattern: string, name: string, star: nat, k: nat, s: nat, p: nat)
    requires star < k <= p < |pattern| && pattern[p] == '*'
    requires forall i :: star < i < p ==> pattern[i] != '*'
    requires s <= |name| && From(pattern, name, k, s)
    ensures s + (p - k) <= |name| && From(pattern, name, p, s + (p - k))
    decreases p - k
  {
    if k < p {
      FromStep(pattern, name, k, s);
      LaterStarSuffices(pattern, name, star, k + 1, s + 1, p);
    }
  }

  lemma {:induction false} OlderStarSubsumed(pattern: string, name: string, star: nat, s: nat, p: nat)
    requires star < p < |pattern| && pattern[star] == pattern[p] == '*'
    requires forall i :: star < i < p ==> pattern[i] != '*'
    requires s <= |name| && From(pattern, name, star, s)
    ensures s + (p - star - 1) <= |name| && From(pattern, name, p, s + (p - star - 1))
    decreases |name| - s
  {
    FromStep(pattern, name, star, s);
    if From(pattern, name, star + 1, s) {
      LaterStarSuffices(pattern, name, star, star + 1, s, p);
    } else {
      OlderStarSubsumed(pattern, name, star, s + 1, p);
      StarMonotone(pattern, name, p, s + (p - star - 1), s + 1 + (p - star - 1));
    }
  }

  /** PatternMatchesString: one pair of cursors and one restart point, the last
      star passed. Restarting there only, and never at an earlier star, loses no match. */
  method PatternMatchesString(nameStr: string, pattern: string) returns (matches: bool)
    ensures matches <==> GlobMatches(pattern, nameStr)
  {
    var p, n := 0, 0;
    var patternNext, nameNext := 0, 0;
    assert From(pattern, nameStr, 0, 0) <==> GlobMatches(pattern, nameStr) by {
      assert pattern[0..] == pattern && nameStr[0..] == nameStr;
    }
    while p < |pattern| || n < |nameStr|
      invariant 0 <= p <= |pattern| && 0 <= n <= |nameStr|
      // A restart point is a star at or before the cursor, with no star in between,
      // from which the cursors got here by matching character by character.
      invariant 0 <= nameNext <= |nameStr| + 1
      invariant nameNext > 0 ==> patternNext < |pattern| && pattern[patternNext] == '*'
      invariant nameNext > 0 ==> if p == patternNext then n == nameNext else
        && patternNext < p && n == nameNext - 1 + (p - patternNext - 1)
        && forall i :: patternNext < i < p ==> pattern[i] != '*'
      // The answer is decided by the current position and the restart point.
      invariant GlobMatches(pattern, nameStr) <==>
        From(pattern, nameStr, p, n) || (0 < nameNext <= |nameStr| && From(pattern, nameStr, patternNext, nameNext))
      decreases if nameNext > 0 then |pattern| - patternNext else |pattern| + 1,
                |nameStr| + 1 - nameNext,
                if nameNext > 0 && p == patternNext then 0 else 1,
                |pattern| - p
    {
      FromStep(pattern, nameStr, p, n);
      if p < |pattern| {
        if pattern[p] == '*' {
          if 0 < nameNext <= |nameStr| && p != patternNext && From(pattern, nameStr, patternNext, nameNext) {
            OlderStarSubsumed(pattern, nameStr, patternNext, nameNext, p);
            StarMonotone(pattern, nameStr, p, n, n + 1);
          }
          patternNext := p;
          nameNext := n + 1;
          p := p + 1;
          continue;
        } else if pattern[p] == '?' {
          if n < |nameStr| {
            p, n := p + 1, n + 1;
            continue;
          }
        } else if n < |nameStr| && nameStr[n] == pattern[p] {
          p, n := p + 1, n + 1;
          continue;
        }
      }
      if 0 < nameNext && nameNext <= |nameStr| {
        p := patternNext;
        n := nameNext;
        continue;
      }
      return false;
    }
    FromStep(pattern, nameStr, p, n);
    return true;
  }

  predicate IsGlobPattern(pattern: string) {
    exists i :: 0 <= i < |pattern| && (pattern[i] == '?' || pattern[i] == '*')
  }

  /** Without wildcards a pattern matches only itself. */
  lemma {:induction false} PlainMatchesItself(pattern: string, name: string)
    requires !IsGlobPattern(pattern)
    ensures GlobMatches(pattern, name) <==> pattern == name
  {
    if pattern != [] {
      assert pattern[0] != '?' && pattern[0] != '*';
      assert forall i :: 0 <= i < |pattern[1..]| ==> pattern[1..][i] == pattern[i + 1];
      if name != [] {
        PlainMatchesItself(pattern[1..], name[1..]);
        assert pattern == [pattern[0]] + pattern[1..] && name == [name[0]] + name[1..];
      }
    }
  }

  /** The parts of s between delimiters; there is always at least one part. */
  ghost function Split(s: string, delimiter: char): (parts: seq<string>)
    ensures parts != []
  {
    if s == [] then [[]]
    else
      var rest := Split(s[1..], delimiter);
      if s[0] == delimiter then [[]] + rest else [[s[0]] + rest[0]] + rest[1..]
  }

  ghost function Join(parts: seq<string>, delimiter: char): string
    requires parts != []
  {
    if |parts| == 1 then parts[0] else parts[0] + [delimiter] + Join(parts[1..], delimiter)
  }

  /** Splitting is undone by joining, and no part holds a delimiter. */
  lemma {:induction false} SplitJoin(s: string, delimiter: char)
    ensures Join(Split(s, delimiter), delimiter) == s
    ensures forall i :: 0 <= i < |Split(s, delimiter)| ==> delimiter !in Split(s, delimiter)[i]
  {
    if s != [] {
      SplitJoin(s[1..], delimiter);
      var rest, parts := Split(s[1..], delimiter), Split(s, delimiter);
      if s[0] == delimiter {
        assert parts[1..] == rest;
      } else if |rest| > 1 {
        assert parts[1..] == rest[1..];
      }
      assert s == [s[0]] + s[1..];
    }
  }

  /** The first delimiter ends the first part. */
  lemma {:induction false} SplitAtFirst(s: string, delimiter: char, k: nat)
    requires k <= |s| && delimiter !in s[..k]
    requires k < |s| ==> s[k] == delimiter
    ensures Split(s, delimiter) == if k < |s| then [s[..k]] + Split(s[k + 1..], delimiter) else [s]
  {
    if k > 0 {
      assert s[0] == s[..k][0];
      assert s[..k] == [s[0]] + s[1..][..k - 1];
      SplitAtFirst(s[1..], delimiter, k - 1);
      assert k < |s| ==> s[1..][k - 1 + 1..] == s[k + 1..];
      assert s == [s[0]] + s[1..];
    }
  }

  /** Only splitting yields delimiter-free parts that join to s. */
  lemma {:induction false} SplitUnique(parts: seq<string>, delimiter: char)
    requires parts != [] && forall i :: 0 <= i < |parts| ==> delimiter !in parts[i]
    ensures Split(Join(parts, delimiter), delimiter) == parts
  {
    var s, k := Join(parts, delimiter), |parts[0]|;
    assert s[..k] == parts[0];
    SplitAtFirst(s, delimiter, k);
    if |parts| > 1 {
      SplitUnique(parts[1..], delimiter);
      assert s[k + 1..] == Join(parts[1..], delimiter);
    }
  }

  /** string::find. */
  method Find(s: string, c: char, pos: nat) returns (k: nat)
    requires pos <= |s|
    ensures pos <= k <= |s| && c !in s[pos..k]
    ensures k < |s| ==> s[k] == c
  {
    k := pos;
    while k < |s| && s[k] != c
      invariant pos <= k <= |s| && c !in s[pos..k]
    {
      assert s[pos..k + 1] == s[pos..k] + [s[k]];
      k := k + 1;
    }
  }

  method SplitString(str: string, delimiter: char) returns (dest: seq<string>)
    ensures dest == Split(str, delimiter)
  {
    hide Split;
    dest := [];
    var pos := 0;
    assert str[0..] == str;
    while true
      invariant 0 <= pos <= |str|
      invariant dest + Split(str[pos..], delimiter) == Split(str, delimiter)
      decreases |str| - pos
    {
      var colon := Find(str, delimiter, pos);
      SplitFrom(str, delimiter, pos, colon);
      if colon == |str| {
        dest := dest + [str[pos..]];
        return;
      }
      PartsSnoc(dest, str[pos..colon], Split(str[colon + 1..], delimiter));
      dest := dest + [str[pos..colon]];
      pos := colon + 1;
    }
  }

  /** The same from position pos on, with the first delimiter at colon. */
  lemma SplitFrom(str: string, delimiter: char, pos: nat, colon: nat)
    requires pos <= colon <= |str| && delimiter !in str[pos..colon] && (colon < |str| ==> str[colon] == delimiter)
    ensures Split(str[pos..], delimiter) ==
      if colon < |str| then [str[pos..colon]] + Split(str[colon + 1..], delimiter) else [str[pos..]]
  {
    hide Split;
    assert str[pos..][..colon - pos] == str[pos..colon];
    SplitAtFirst(str[pos..], delimiter, colon - pos);
    if colon < |str| {
      assert str[pos..][colon - pos + 1..] == str[colon + 1..];
    }
  }

  lemma PartsSnoc(parts: seq<string>, part: string, rest: seq<string>)
    ensures parts + ([part] + rest) == (parts + [part]) + rest
  {
  }

  /** A name is accepted when one of the ':'-separated patterns matches it. */
  ghost predicate Accepts(filter: string, name: string) {
    exists i :: 0 <= i < |Split(filter, ':')| && GlobMatches(Split(filter, ':')[i], name)
  }

  /** Patterns with wildcards, and a hash set of the exact ones. */
  datatype UnitTestFilter = UnitTestFilter(globPatterns: seq<string>, exactMatchPatterns: set<string>) {

    /** The filter accepts what one of the patterns matches. */
    ghost predicate StandsFor(patterns: seq<string>) {
      && (forall i :: 0 <= i < |globPatterns| ==> globPatterns[i] in patterns)
      && (forall p :: p in exactMatchPatterns ==> p in patterns && !IsGlobPattern(p))
      && (forall i :: 0 <= i < |patterns| ==> patterns[i] in globPatterns || patterns[i] in exactMatchPatterns)
    }

    method MatchesName(name: string) returns (matches: bool)
      ensures forall patterns :: StandsFor(patterns) ==>
        (matches <==> exists i :: 0 <= i < |patterns| && GlobMatches(patterns[i], name))
    {
      matches := name in exactMatchPatterns;
      var k := 0;
      while k < |globPatterns| && !matches
        invariant 0 <= k <= |globPatterns|
        invariant matches <==>
          name in exactMatchPatterns || exists i :: 0 <= i < k && GlobMatches(globPatterns[i], name)
      {
        matches := PatternMatchesString(name, globPatterns[k]);
        k := k + 1;
      }
      forall patterns | StandsFor(patterns)
        ensures matches <==> exists i :: 0 <= i < |patterns| && GlobMatches(patterns[i], name)
      {
        FilterDecides(name, patterns);
      }
    }

    lemma FilterDecides(name: string, patterns: seq<string>)
      requires StandsFor(patterns)
      ensures (exists i :: 0 <= i < |patterns| && GlobMatches(patterns[i], name)) <==>
        name in exactMatchPatterns || exists i :: 0 <= i < |globPatterns| && GlobMatches(globPatterns[i], name)
    {
      forall p | p in exactMatchPatterns ensures GlobMatches(p, name) <==> p == name {
        PlainMatchesItself(p, name);
      }
    }
  }

  /** The UnitTestFilter constructor. */
  method MakeFilter(filter: string) returns (f: UnitTestFilter)
    ensures f.StandsFor(Split(filter, ':'))
  {
    var allPatterns := SplitString(filter, ':');
    f := UnitTestFilter([], {});
    for i := 0 to |allPatterns|
      invariant f.StandsFor(allPatterns[..i])
    {
      assert allPatterns[..i + 1] == allPatterns[..i] + [allPatterns[i]];
      if IsGlobPattern(allPatterns[i]) {
        f := f.(globPatterns := f.globPatterns + [allPatterns[i]]);
      } else {
        f := f.(exactMatchPatterns := f.exactMatchPatterns + {allPatterns[i]});
      }
    }
    assert allPatterns[..|allPatterns|] == allPatterns;
  }

  const UNIVERSAL_FILTER := "*"

  /** The text before the first '-' and, if there is one, the text after it. */
  ghost function FirstDash(filter: string): (k: nat)
    ensures k <= |filter| && '-' !in filter[..k] && (k < |filter| ==> filter[k] == '-')
  {
    if filter == [] || filter[0] == '-' then 0
    else
      var k := 1 + FirstDash(filter[1..]);
      assert filter[..k] == [filter[0]] + filter[1..][..k - 1];
      k
  }

  /** The name matches the positive part, '*' if only a negative part is given,
      and does not match the negative part, which is everything after the first '-'. */
  ghost predicate Selects(filter: string, name: string) {
    var k := FirstDash(filter);
    if k == |filter| then Accepts(filter, name)
    else Accepts(if k == 0 then UNIVERSAL_FILTER else filter[..k], name) && !Accepts(filter[k + 1..], name)
  }

  datatype PositiveAndNegativeFilter = PositiveAndNegativeFilter(positive: UnitTestFilter, negative: UnitTestFilter) {
    /** The filter built from the given text. */
    ghost predicate BuiltFrom(filter: string) {
      var k := FirstDash(filter);
      if k == |filter| then positive.StandsFor(Split(filter, ':')) && negative.StandsFor([])
      else
        && positive.StandsFor(Split(if k == 0 then UNIVERSAL_FILTER else filter[..k], ':'))
        && negative.StandsFor(Split(filter[k + 1..], ':'))
    }

    method MatchesName(name: string, ghost filter: string) returns (matches: bool)
      requires BuiltFrom(filter)
      ensures matches <==> Selects(filter, name)
    {
      matches := positive.MatchesName(name);
      if matches {
        var excluded := negative.MatchesName(name);
        matches := !excluded;
      }
    }

    method MatchesTest(testSuiteName: string, testName: string, ghost filter: string) returns (matches: bool)
      requires BuiltFrom(filter)
      ensures matches <==> Selects(filter, testSuiteName + "." + testName)
    {
      matches := MatchesName(testSuiteName + "." + testName, filter);
    }
  }

  /** The PositiveAndNegativeUnitTestFilter constructor: splits at every '-' and
      glues everything after the first one together again. */
  method MakePositiveAndNegativeFilter(filter: string) returns (f: PositiveAndNegativeFilter)
    ensures f.BuiltFrom(filter)
  {
    ghost var k := FirstDash(filter);
    var parts := SplitString(filter, '-');
    SplitAtFirst(filter, '-', k);
    var negative := UnitTestFilter([], {});
    assert negative.StandsFor([]);
    hide UnitTestFilter.StandsFor, IsGlobPattern, Split, FirstDash;
    if |parts| > 1 {
      assert k < |filter| && parts[0] == filter[..k] && parts[1..] == Split(filter[k + 1..], '-');
      var positive := MakeFilter(if parts[0] == [] then UNIVERSAL_FILTER else parts[0]);
      var negativeString := parts[1];
      JoinOne(parts, '-');
      hide Join;
      for i := 2 to |parts|
        invariant negativeString == Join(parts[1..i], '-')
      {
        JoinNext(parts, i, '-');
        negativeString := negativeString + ['-'] + parts[i];
      }
      assert parts[1..|parts|] == parts[1..];
      SplitJoin(filter[k + 1..], '-');
      negative := MakeFilter(negativeString);
      f := PositiveAndNegativeFilter(positive, negative);
    } else {
      var positive := MakeFilter(parts[0]);
      f := PositiveAndNegativeFilter(positive, negative);
    }
  }

  lemma JoinOne(parts: seq<string>, delimiter: char)
    requires |parts| > 1
    ensures Join(parts[1..2], delimiter) == parts[1]
  {
    assert parts[1..2] == [parts[1]];
  }

  lemma JoinNext(parts: seq<string>, i: nat, delimiter: char)
    requires 2 <= i < |parts|
    ensures Join(parts[1..i + 1], delimiter) == Join(parts[1..i], delimiter) + [delimiter] + parts[i]
  {
    assert parts[1..i + 1] == parts[1..i] + [parts[i]];
    JoinSnoc(parts[1..i], parts[i], delimiter);
  }

  lemma {:induction false} JoinSnoc(parts: seq<string>, last: string, delimiter: char)
    requires parts != []
    ensures Join(parts + [last], delimiter) == Join(parts, delimiter) + [delimiter] + last
  {
    if |parts| == 1 {
      assert (parts + [last])[1..] == [last];
    } else {
      JoinSnoc(parts[1..], last, delimiter);
      assert (parts + [last])[1..] == parts[1..] + [last];
    }
  }

  /** UnitTestOptions::FilterMatchesTest. */
  method FilterMatchesTest(filter: string, testSuiteName: string, testName: string) returns (matches: bool)
    ensures matches <==> Selects(filter, testSuiteName + "." + testName)
  {
    var f := MakePositiveAndNegativeFilter(filter);
    matches := f.MatchesTest(testSuiteName, testName, filter);
  }
}

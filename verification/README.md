# Exception propagation and the algorithms around it, verified

This Dafny project models the exception-propagation analysis of this repository and
the hardest algorithms of the GoogleTest tree vendored with it, and proves what they
compute. Code that updates state in place is modelled by classes, arrays and loops with
invariants, proved against specifications on values; code made of expressions is
modelled by functions. Every file is one module.

| file | models |
|---|---|
| `BipartiteGraphs.dfy`, `BipartiteMatching.dfy` | maximum bipartite matching by depth-first augmentation, and the matchers that use it |
| `EditScripts.dfy`, `LightestScripts.dfy`, `OptimalEdits.dfy` | the edit-script dynamic program, when its script is a lightest one, and the same on lines given ids |
| `UnifiedDiffs.dfy`, `DiffHunks.dfy`, `DiffTexts.dfy`, `DiffMeanings.dfy` | the hunk builder, the cutting of a script into a unified diff, its text, and what the diff shows |
| `GlobFilters.dfy`, `FilterMeanings.dfy` | the last-star-restart glob loop, the test name filters, and what they select |
| `SimpleRegex.dfy`, `RegexMeanings.dfy` | the simple regular expressions: validator, backtracking matcher, full and partial matches, and what each atom, quantifier and anchor means |
| `ProgramModels.dfy`, `CallerIndexes.dfy`, `ExceptionPropagation.dfy`, `ExceptionPasses.dfy`, `PassMeanings.dfy` | an LLVM module as a value, the two caller indexes, the worklist that propagates an exception, the whole pass, and its verdicts in terms of the module |
| `PrerequisiteGraphs.dfy`, `Expectations.dfy` | expectations, their prerequisite graph and the worklists over it |
| `LazyMutexes.dfy` | the lazily initialised static mutex as a state machine over all interleavings |
| `TestSharding.dfy`, `Shuffles.dfy`, `TestRuns.dfy`, `TestSelection.dfy` | selecting, shuffling and running tests |
| `DecimalPrinter.dfy` | printing 128-bit integers with 64-bit arithmetic |
| `Utf8.dfy` | writing UTF-8 from wide strings and validating it, against RFC 3629 |
| `PrimeTables.dfy` | the prime tables of the samples |
| `Counting.dfy`, `Terminated.dfy` | counting distinct values, and strings up to a terminator |

`dafny verify dfyconfig.toml` checks the whole project.

The main results, each for all inputs, runs or interleavings:

- Trying each element once finds a maximum matching. Failed searches leave a growing set
  of nodes that is closed under alternating paths; with the matched elements outside it,
  it is a vertex cover as large as the matching (`MaxBipartiteMatchState.Compute`). So
  `FindPairing` decides, flag by flag, whether elements and matchers can be paired.
- The printed hunks, applied by an independent patch tool that reads only them, turn left
  into right, and backwards right into left (`CreateUnifiedDiff`); the printed text reads
  back as the hunks (`PrintUnifiedDiff`). Below are the exact conditions of both.
- Restarting the glob only at the last star loses no match (`PatternMatchesString`); the
  backtracking matcher decides the declarative language (`MatchRegexAnywhere`), whose atoms
  are written out as sets of characters (`ClassAtoms`).
- The propagation visits the least closed set of call sites, draws the exact graph and
  gives the exact leak verdict (`BuildChildsMap`), for every throwing call of a module
  whose two indexes the pass has just built (`ExceptionPasses.Run`). A typed exception is
  caught by a clause for everything, for its type or for one it is derived from, as the vtables say
  (`TypedIsCaught`, with `BaseCatchesDerived` and `DerivedMissesBase`). More subclasses or
  catch clauses can only shrink the result, more direct users only let it grow.
- Walks without a visited set over an acyclic prerequisite graph end and decide what they
  should. Over every run of calls everything behind a handler is satisfied when it handles
  a call, and stays so for good after a call that was not excessive (`RunsKeepOrder`),
  from the start after any call of a handler that is not saturated without calls
  (`RunsKeepOrderFromStart`). A run retires exactly what lies behind a handler of a call
  that was not excessive, and handlers saturated by one that ask for it (`RetiredBecause`).
- In every interleaving the mutex is initialised once and never used too early (`AlwaysSafe`).
- In every iteration each selected test is run or skipped exactly once, on exactly one
  shard, in an order that is a permutation with death tests first (`RunAllTests`,
  `OnExactlyOneShard`), and with fail_fast nothing runs in it after a failed test. Each
  order can be drawn in exactly one way (`ShuffledOnce`, `ShuffledOnto`), and the seed of
  an iteration alone decides its whole order (`OrderIsReproducible`).
- The 128-bit printer, the UTF-8 encoder and the sieve agree with independent definitions.

Where the code does less than its documentation says, the exact condition is proved:

- the edit script is always a valid one, but a lightest one for all prefixes if and only if no
  table entry is filled by replacing where adding or removing was lighter (`LightestExactly`,
  with `TieCounterexample` as an input where that happens). For one script alone that is
  sufficient but not necessary (`MisjudgedOffTheWay`): it is a lightest one if and only if
  its entry equals that of the textbook table (`ScriptIsLightestExactly`). Replacing is too
  early there if and only if adding or removing is lighter but both start from equally
  heavy entries, or from none lighter than the one replacing starts from
  (`MisjudgedExactly`); unless that occurs, `CalculateOptimalEdits` returns a lightest script;
- a diff prints each line up to its first null and has no hunks with context 0: it patches,
  either way, if and only if no line of a hunk holds a null and the context is at least 1 or
  the texts are equal (`CreateUnifiedDiff`, with `NullCounterexample` as an input where
  it does not);
- the text of a diff reads back as its hunks if and only if no printed line holds a line
  break (`TextReadsBack`);
- a full match is a match of the whole string exactly for patterns that do not end in an
  escaped `$` (`FullMatchExactly`);
- callees metadata hides virtual callers, and with them leaks (`HiddenLeak`): whatever is
  thrown and caught where, a new entry for a function takes nothing away from the result if
  and only if it lists all virtual callers that are not direct users, or the function is
  main or has no call site (`MetadataHidesVirtualCallers`);
- AssertHeld passes if and only if the caller holds the mutex and has not unlocked since
  its last completed Lock (`AssertHeldDecides`); a thread that locked twice and unlocked
  once holds it and fails (`RecursionForgetsOwner`);
- code points beyond 21 bits are written as a readable text, which is valid UTF-8, so the
  validator rejects exactly surrogates and 110000 to 1FFFFF (`OneCodePointValid`).

Modelling choices:

- An LLVM module is a value: its vtables, call instructions and finitely many call sites,
  with "users of F", "folds to F", the landing pads and names as given relations. Pointers
  are compared by identity, so ids stand for them.
- The costs of the edit script are exact reals.
- A C string is the text before its terminator, or null; a std::string may hold nulls, and
  printing a pointer to it writes what precedes the first. Wide characters are 32-bit
  vectors, bytes 8-bit vectors; masks and shifts are the source's own.
- Clocks, random seeds, the outcome of each run of a test, and failures of set-up are inputs or
  arbitrary.
- Vectors that grow are sequences held in fields; those of fixed size are arrays.

## Model

| member | source | states |
|---|---|---|
| BipartiteGraphs.MatchingSize | third-party/googletest/googlemock/src/gmock-matchers.cc:420-446 | a matching has at most as many pairs as either side has nodes, and exactly as many only if it covers that side |
| BipartiteGraphs.CertifiedIsMaximum | third-party/googletest/googlemock/src/gmock-matchers.cc:132-163 | a vertex cover that charges every edge to a different pair of the matching certifies that no matching is larger |
| BipartiteMatching.MatchMatrix.SpaceIndexInjective | third-party/googletest/googlemock/include/gmock/gmock-matchers.h:3536-3537 | no two cells of the matrix share a flag |
| BipartiteMatching.MatchMatrix.SpaceIndexBounds | third-party/googletest/googlemock/include/gmock/gmock-matchers.h:3536-3546 | every cell has a flag inside the vector |
| BipartiteMatching.MatchMatrix.constructor | third-party/googletest/googlemock/include/gmock/gmock-matchers.h:3512-3515 | a new matrix stands for the graph without edges |
| BipartiteMatching.MatchMatrix.HasEdge | third-party/googletest/googlemock/include/gmock/gmock-matchers.h:3519-3521 | tells exactly the edges of the graph the flags stand for |
| BipartiteMatching.MatchMatrix.SetEdge | third-party/googletest/googlemock/include/gmock/gmock-matchers.h:3522-3524 | adds or removes one edge and leaves all the others |
| BipartiteMatching.DeadEndStep | third-party/googletest/googlemock/src/gmock-matchers.cc:184-208 | backing out of a dead end: every right node seen in vain is matched and its mate has no neighbour that was not seen |
| BipartiteMatching.AugmentStep | third-party/googletest/googlemock/src/gmock-matchers.cc:194-203 | one link of an augmenting path: the new state is mutually referent up to the former mate of the right node, no right node is unmatched, and the path stays outside the closed set |
| BipartiteMatching.SuccessStep | third-party/googletest/googlemock/src/gmock-matchers.cc:147-155 | a successful top-level search restores mutual reference, changes only left_[ilhs] from unused and unmatches no right node |
| BipartiteMatching.FailureStep | third-party/googletest/googlemock/src/gmock-matchers.cc:147-155 | the nodes a failed search has seen extend the closed set, which swallows all neighbours of the element that stays unmatched |
| BipartiteMatching.SlotsAreMatching | third-party/googletest/googlemock/src/gmock-matchers.cc:102-105 | mutually referent slots spell out a matching made of graph edges |
| BipartiteMatching.ClosedCertifies | third-party/googletest/googlemock/src/gmock-matchers.cc:132-163 | if the neighbours of all unmatched elements lie in a closed set, the matching is maximum |
| BipartiteMatching.MaxBipartiteMatchState.constructor | third-party/googletest/googlemock/src/gmock-matchers.cc:126-129 | all slots start unused |
| BipartiteMatching.MaxBipartiteMatchState.TryAugment | third-party/googletest/googlemock/src/gmock-matchers.cc:184-208 | terminates because unseen right nodes get fewer; success augments the slots from ilhs, failure changes no slot and leaves only dead ends behind |
| BipartiteMatching.MaxBipartiteMatchState.AugmentAll | third-party/googletest/googlemock/src/gmock-matchers.cc:138-155 | after each element was tried once, in order, those left unmatched have all their neighbours in one closed set; the check that the slot is still unused never fires |
| BipartiteMatching.MaxBipartiteMatchState.CollectPairs | third-party/googletest/googlemock/src/gmock-matchers.cc:156-162 | lists exactly the used slots, in order |
| BipartiteMatching.MaxBipartiteMatchState.Compute | third-party/googletest/googlemock/src/gmock-matchers.cc:132-163 | the result is a matching of graph edges, no matching has more pairs, and the slots end mutually referent |
| BipartiteMatching.FindMaxBipartiteMatching | third-party/googletest/googlemock/src/gmock-matchers.cc:228-230 | for every match matrix the result is a maximum matching of its graph |
| BipartiteMatching.MaximumDecides | third-party/googletest/googlemock/src/gmock-matchers.cc:420-446 | counting the pairs of a maximum matching decides whether an injective assignment covering the required sides exists |
| BipartiteMatching.SatisfiableMeans | third-party/googletest/googlemock/src/gmock-matchers.cc:420-446 | what each flag asks for, by name: a matching that covers the matchers for Superset, the elements for Subset, both for ExactMatch |
| BipartiteMatching.NoneIsolatedMeans | third-party/googletest/googlemock/src/gmock-matchers.cc:385-418 | the pre-check by name: no matcher without an element for Superset, no element without a matcher for Subset, neither for ExactMatch |
| BipartiteMatching.SatisfiableNotIsolated | third-party/googletest/googlemock/src/gmock-matchers.cc:365-418 | what has an assignment passes the cheap pre-check |
| BipartiteMatching.MarkMatched | third-party/googletest/googlemock/src/gmock-matchers.cc:374-383 | flags exactly the elements and the matchers that have an edge |
| BipartiteMatching.VerifyMatchMatrix | third-party/googletest/googlemock/src/gmock-matchers.cc:370-418 | true exactly if every matcher has a matching element (Superset), every element a matching matcher (Subset), or both (ExactMatch); each flag has its own clause |
| BipartiteMatching.FindPairing | third-party/googletest/googlemock/src/gmock-matchers.cc:420-459 | true exactly if an injective assignment along edges covers all matchers (Superset), all elements (Subset) or both (ExactMatch); each flag has its own clause, and the assignment is written out in it |
| BipartiteMatching.MatchAndExplain | third-party/googletest/googlemock/include/gmock/gmock-matchers.h:3638-3666 | its shortcuts never change the verdict: for each flag by name it is true exactly if an injective assignment covers the matchers, the elements or both |
| EditScripts.ScriptTransforms | third-party/googletest/googletest/src/gtest.cc:1276-1331 | the script read off the tables really edits left into right, and its weight is the table entry |
| EditScripts.LastLinesMatch | third-party/googletest/googletest/src/gtest.cc:1298-1303 | equal last lines are always matched, at no cost |
| EditScripts.EqualScript | third-party/googletest/googletest/src/gtest.cc:1298-1303 | equal inputs give a script of matches only |
| EditScripts.AllMatchMeansEqual | third-party/googletest/googletest/src/gtest.cc:1298-1303 | a script of matches only edits a text into itself |
| EditScripts.FillBorders | third-party/googletest/googletest/src/gtest.cc:1284-1292 | fills the first row and column with removals and additions |
| EditScripts.FillRow | third-party/googletest/googletest/src/gtest.cc:1294-1319 | fills one row of both tables from the row before and touches no other row; what the moves chosen are worth is stated by MisjudgedExactly and LightestExactly |
| EditScripts.WalkBack | third-party/googletest/googletest/src/gtest.cc:1321-1330 | walking the moves back and reversing them gives the script of the tables |
| EditScripts.CalculateOptimalEditIds | third-party/googletest/googletest/src/gtest.cc:1276-1331 | returns the script the two tables spell out, of which ScriptTransforms, LastLinesMatch, MisjudgedExactly and LightestExactly say what it is |
| EditScripts.TieCounterexample | third-party/googletest/googletest/src/gtest.cc:1305-1315 | xyx to yxy: three replacements are chosen although removing and adding one line weighs less, so the script is not always a lightest one |
| LightestScripts.LightestExactly | third-party/googletest/googletest/src/gtest.cc:1303-1317 | the scripts of all prefixes are lightest ones if and only if no table entry is filled by replacing where adding or removing was lighter |
| LightestScripts.MisjudgedExactly | third-party/googletest/googletest/src/gtest.cc:1303-1317 | replacing is too early exactly at unequal lines where adding or removing is lighter, but they tie, or replacing starts from an entry no heavier than either of theirs; this names no move of the code, so wherever adding or removing alone has the lightest start, the code takes it |
| LightestScripts.LightestUnlessMisled | third-party/googletest/googletest/src/gtest.cc:1303-1331 | without such an entry no script that edits left into right is lighter than the one returned |
| LightestScripts.WeightCounts | third-party/googletest/googletest/src/gtest.cc:1284-1319 | the weight of a script is the number of additions and removals, and 1.00001 times that of replacements |
| LightestScripts.ScriptIsLightestExactly | third-party/googletest/googletest/src/gtest.cc:1303-1331 | the script returned is a lightest one if and only if its table entry is that of the textbook table |
| LightestScripts.MinIsLowerBound | third-party/googletest/googletest/src/gtest.cc:1294-1319 | no script whatever is lighter than the textbook table, which always takes the cheapest move, says |
| LightestScripts.MinIsAttained | third-party/googletest/googletest/src/gtest.cc:1294-1319 | and some script is as light |
| LightestScripts.MisjudgedOffTheWay | third-party/googletest/googletest/src/gtest.cc:1306-1331 | an input with such an entry whose script is a lightest one all the same |
| LightestScripts.LightestWithout | third-party/googletest/googletest/src/gtest.cc:1294-1331 | without such an entry no script whatever is lighter than the one returned |
| LightestScripts.NotLightest | third-party/googletest/googletest/src/gtest.cc:1306-1317 | at such an entry there is a lighter script |
| LightestScripts.TableIsLowerBound | third-party/googletest/googletest/src/gtest.cc:1294-1319 | without such an entry the table bounds the weight of every script from below |
| LightestScripts.LastEdit | third-party/googletest/googletest/src/gtest.cc:1323-1328 | every script can be taken apart from its last edit, as the walk back does |
| OptimalEdits.InternalStrings.GetId | third-party/googletest/googletest/src/gtest.cc:1338-1343 | a known string keeps its id, a new one gets an id no other string has |
| OptimalEdits.InternedTransforms | third-party/googletest/googletest/src/gtest.cc:1352-1366 | a script edits the ids exactly if it edits the lines they stand for |
| OptimalEdits.SameCost | third-party/googletest/googletest/src/gtest.cc:1352-1366 | the table of the ids is the table of the lines, entry by entry |
| OptimalEdits.SameScript | third-party/googletest/googletest/src/gtest.cc:1352-1366 | and so is the script |
| OptimalEdits.Intern | third-party/googletest/googletest/src/gtest.cc:1356-1364 | gives every line its id and keeps all earlier ids |
| OptimalEdits.CalculateOptimalEdits | third-party/googletest/googletest/src/gtest.cc:1352-1366 | returns the script of the two texts themselves, whatever ids the lines got; it edits left into right, it is a lightest one unless a table entry of the two texts is misled by a tie, and equal texts give matches only |
| UnifiedDiffs.SideLengths | third-party/googletest/googletest/src/gtest.cc:1423-1435 | the sides of a hunk are as long as its counters say |
| UnifiedDiffs.InsertPushes | third-party/googletest/googletest/src/gtest.cc:1383-1398 | a removed line that slips in front of waiting additions changes both sides as if it had been appended |
| UnifiedDiffs.FlushKeepsOrder | third-party/googletest/googletest/src/gtest.cc:1414-1418 | flushing keeps removals before additions within every run of edits |
| UnifiedDiffs.Hunk.constructor | third-party/googletest/googletest/src/gtest.cc:1376-1381 | a new hunk has no lines and no edits |
| UnifiedDiffs.Hunk.PushLine | third-party/googletest/googletest/src/gtest.cc:1383-1398 | appends the line to exactly the sides it belongs to, whatever is waiting |
| UnifiedDiffs.Hunk.FlushEdits | third-party/googletest/googletest/src/gtest.cc:1414-1418 | moves the waiting lines behind the printed ones, removals first |
| UnifiedDiffs.Hunk.PrintTo | third-party/googletest/googletest/src/gtest.cc:1401-1435 | prints all lines with removals first, each up to its first null; the header names a side only if it has edits, with its start and its exact length |
| UnifiedDiffs.PrintedSides | third-party/googletest/googletest/src/gtest.cc:1404-1408 | printing cuts the lines of both sides at their nulls, and leaves their number and order alone |
| UnifiedDiffs.ApplyPlaced | third-party/googletest/googletest/src/gtest.cc:1423-1435 | a patch tool that reads only the printed hunk applies it where it belongs, and refuses it exactly if a removed or context line of it was cut |
| UnifiedDiffs.CoversPatches | third-party/googletest/googletest/src/gtest.cc:1451-1512 | after any number of hunks the tool has refused, or is where the last one ends, with the right text written exactly if no line was cut |
| UnifiedDiffs.CoversSwap | third-party/googletest/googletest/src/gtest.cc:1451-1512 | a diff read backwards covers the texts the other way round |
| UnifiedDiffs.CoversRoundTrip | third-party/googletest/googletest/src/gtest.cc:1446-1512 | hunks that cover both texts patch left into right, and read backwards right into left, if and only if no line of a hunk holds a null |
| DiffHunks.FillStep | third-party/googletest/googletest/src/gtest.cc:1476-1486 | taking one more edit keeps the hunk's shape: lookahead goes on only over fewer than twice context matches |
| DiffHunks.FillEnd | third-party/googletest/googletest/src/gtest.cc:1476-1506 | where filling stops the hunk is well cut: full context before and after, or the border of the input |
| DiffHunks.PrefixIsMatched | third-party/googletest/googletest/src/gtest.cc:1466-1472 | the context lines before a hunk are matches and never reach into the hunk before |
| DiffHunks.CutsCover | third-party/googletest/googletest/src/gtest.cc:1451-1512 | well cut, printed hunks are in order, disjoint and cover both texts |
| DiffHunks.FindNextEdit | third-party/googletest/googletest/src/gtest.cc:1477-1480 | the lookahead finds the next position that is not a match |
| DiffHunks.FarFromNextEdit | third-party/googletest/googletest/src/gtest.cc:1476-1486 | stops exactly if there is enough suffix and the next edit is far or absent |
| DiffHunks.PushEdit | third-party/googletest/googletest/src/gtest.cc:1488-1503 | pushes pointers to the lines of one edit and advances both cursors past them |
| DiffHunks.SkipMatches | third-party/googletest/googletest/src/gtest.cc:1459-1465 | skips to the next edit, with both cursors |
| DiffHunks.OpenHunk | third-party/googletest/googletest/src/gtest.cc:1466-1472 | opens the hunk with pointers to min(l, context) lines and one-based starts on both sides |
| DiffHunks.FillHunk | third-party/googletest/googletest/src/gtest.cc:1475-1505 | fills one hunk: its lines stand for a contiguous piece of the script that ends where filling must end |
| DiffHunks.CutHunks | third-party/googletest/googletest/src/gtest.cc:1456-1511 | one printed hunk for each well cut piece, with its lines up to their first nulls; the pieces together contain every edit; none at all with context 0 |
| DiffHunks.NoSpansMeansNoEdits | third-party/googletest/googletest/src/gtest.cc:1451-1512 | there is no hunk exactly if nothing was edited |
| DiffMeanings.SameHunkExactly | third-party/googletest/googletest/src/gtest.cc:1476-1486 | two successive edits are in the same hunk if and only if fewer than twice `context` matches lie between them |
| DiffMeanings.HunkContext | third-party/googletest/googletest/src/gtest.cc:1466-1486 | a hunk begins `context` lines before its first edit and ends `context` lines behind its last one, or where the input does |
| DiffMeanings.SpansInOrder | third-party/googletest/googletest/src/gtest.cc:1456-1511 | hunks are in order and do not overlap |
| DiffMeanings.SpanOf | third-party/googletest/googletest/src/gtest.cc:1456-1511 | every edit lies in a hunk |
| DiffMeanings.RemovalsComeFirst | third-party/googletest/googletest/src/gtest.cc:1414-1418 | in a printed hunk no added line is directly followed by a removed one |
| DiffMeanings.HunkLines | third-party/googletest/googletest/src/gtest.cc:1466-1503 | the context and removed lines of a printed hunk are a gapless piece of the left text, the context and added lines one of the right text, and the header tells where they start, counted from one, and how long they are |
| DiffHunks.CreateUnifiedDiff | third-party/googletest/googletest/src/gtest.cc:1451-1512 | the hunks are those cut from the script of the two texts, a lightest one unless misled by a tie; patching left with the printed hunks gives right, and backwards, if and only if no line of a hunk holds a null and context is at least 1 or the texts are equal; texts without nulls are never cut |
| DiffHunks.NullCounterexample | third-party/googletest/googletest/src/gtest.cc:1493-1497 | two lines that differ behind a null: the hunk shows the same text removed and added, and is refused |
| DiffHunks.AllCut | third-party/googletest/googletest/src/gtest.cc:1470-1497 | if every line holds a null, no diff of different texts patches |
| DiffTexts.HeaderReadsBack | third-party/googletest/googletest/src/gtest.cc:1423-1435 | the header of a hunk that names a side reads back as its two ranges |
| DiffMeanings.HeaderRows | third-party/googletest/googletest/src/gtest.cc:1423-1435 | headers with both sides and with one side only, character by character |
| DiffTexts.RowsReadBack | third-party/googletest/googletest/src/gtest.cc:1401-1409 | the rows of the hunks read back as the hunks, whatever their lines hold |
| DiffMeanings.RowsOfLines | third-party/googletest/googletest/src/gtest.cc:1404-1408 | a context line is printed behind a blank, a removed one behind a minus, an added one behind a plus |
| DiffTexts.TextReadsBack | third-party/googletest/googletest/src/gtest.cc:1401-1435 | the printed text reads back as the hunks if and only if no printed line holds a line break |
| DiffTexts.PrintHunks | third-party/googletest/googletest/src/gtest.cc:1401-1409 | writes header and lines of each hunk in turn, each row ended by a line break |
| DiffTexts.PrintUnifiedDiff | third-party/googletest/googletest/src/gtest.cc:1451-1512 | unless a printed line holds a line break, a patch tool that is given the text only turns left into right exactly if no line was cut and context is at least 1 or the texts are equal; texts without line breaks never hold one |
| GlobFilters.StarMeansAnyPrefix | third-party/googletest/googletest/src/gtest.cc:681-683 | a star stands for exactly the strings the rest of the pattern leaves over |
| GlobFilters.OlderStarSubsumed | third-party/googletest/googletest/src/gtest.cc:713-728 | a match that restarts at an older star can always restart at the last star, so backtracking only there loses nothing |
| GlobFilters.PatternMatchesString | third-party/googletest/googletest/src/gtest.cc:687-732 | terminates, and is true exactly if the glob in its recursive meaning matches the whole name |
| GlobFilters.PlainMatchesItself | third-party/googletest/googletest/src/gtest.cc:736-739 | a pattern without wildcards matches only itself, so a hash set may stand for it |
| FilterMeanings.GlobCases | third-party/googletest/googletest/src/gtest.cc:687-732 | what a glob matches, by its first character: `?` any one, `*` any number, every other character itself |
| FilterMeanings.TextThen | third-party/googletest/googletest/src/gtest.cc:687-732 | a text without wildcards at the head of a pattern stands for itself |
| FilterMeanings.BeginsWith | third-party/googletest/googletest/src/gtest.cc:687-732 | a text and a star match exactly the names that begin with the text |
| FilterMeanings.EndsWithText | third-party/googletest/googletest/src/gtest.cc:687-732 | a star and a text match exactly the names that end with the text |
| FilterMeanings.Contains | third-party/googletest/googletest/src/gtest.cc:687-732 | a text between stars matches exactly the names that contain it |
| GlobFilters.SplitJoin | third-party/googletest/googletest/src/gtest.cc:1219-1234 | joining the parts gives the string back, and no part holds a delimiter |
| GlobFilters.SplitUnique | third-party/googletest/googletest/src/gtest.cc:1219-1234 | splitting is the only way to get delimiter-free parts that join to the string |
| GlobFilters.Find | third-party/googletest/googletest/src/gtest.cc:1224 | finds the first delimiter from a position on, or the end |
| GlobFilters.SplitString | third-party/googletest/googletest/src/gtest.cc:1219-1234 | computes the parts between the delimiters, at least one |
| GlobFilters.UnitTestFilter.FilterDecides | third-party/googletest/googletest/src/gtest.cc:746-772 | hash set and glob list together accept what some pattern matches |
| GlobFilters.UnitTestFilter.MatchesName | third-party/googletest/googletest/src/gtest.cc:764-772 | true exactly if some pattern of the filter glob-matches the name |
| GlobFilters.MakeFilter | third-party/googletest/googletest/src/gtest.cc:746-760 | the filter stands for the ':'-separated patterns, globs and exact ones apart |
| GlobFilters.PositiveAndNegativeFilter.MatchesName | third-party/googletest/googletest/src/gtest.cc:823-826 | true exactly if the positive part accepts the name and the text after the first '-' does not |
| GlobFilters.PositiveAndNegativeFilter.MatchesTest | third-party/googletest/googletest/src/gtest.cc:816-819 | the name tested is the suite name, a dot and the test name |
| GlobFilters.MakePositiveAndNegativeFilter | third-party/googletest/googletest/src/gtest.cc:786-811 | splitting at every '-' and joining again gives as negative filter exactly the text after the first '-', and '*' as positive part if nothing precedes it |
| GlobFilters.FilterMatchesTest | third-party/googletest/googletest/src/gtest.cc:841-847 | true exactly if the filter flag selects the test |
| FilterMeanings.EitherAccepts | third-party/googletest/googletest/src/gtest.cc:746-772 | of patterns joined by ':' any one suffices |
| FilterMeanings.FlagSelects | third-party/googletest/googletest/src/gtest.cc:786-826 | the flag selects what the text before its first '-' accepts, everything if there is none, without what the text after it accepts; without a '-' what the whole flag accepts |
| FilterMeanings.OnlyExcluded | third-party/googletest/googletest/src/gtest.cc:793-795 | a flag that begins with '-' selects exactly what the rest does not accept |
| SimpleRegex.AcceptedIsSimple | third-party/googletest/googletest/src/gtest-port.cc:797-841 | the scan accepts exactly the printed simple regular expressions |
| SimpleRegex.ValidateRegex | third-party/googletest/googletest/src/gtest-port.cc:791-842 | true exactly for a non-null pattern that is the printed form of a simple regular expression |
| SimpleRegex.MatchesHeadStep | third-party/googletest/googletest/src/gtest-port.cc:857-869 | a match at the head is an allowed number of characters for the first item and a match of the rest |
| SimpleRegex.LookAhead | third-party/googletest/googletest/src/gtest-port.cc:884-898 | the first characters of a pattern determine its first item and where the rest begins |
| SimpleRegex.MatchRepetitionAndRegexAtHead | third-party/googletest/googletest/src/gtest-port.cc:851-870 | true exactly if some prefix is an allowed repetition followed by a match of the rest; the mutual recursion ends |
| SimpleRegex.MatchRegexAtHead | third-party/googletest/googletest/src/gtest-port.cc:875-899 | true exactly if some prefix, under '$' the whole string, is in the language |
| SimpleRegex.MatchesSomewhere | third-party/googletest/googletest/src/gtest-port.cc:902-919 | a substring match is a match at the head of some suffix, under '^' of the whole string |
| SimpleRegex.MatchRegexAnywhere | third-party/googletest/googletest/src/gtest-port.cc:909-919 | true exactly if neither argument is null and some substring, prefix under '^', suffix under '$', is in the language |
| RegexMeanings.ClassAtoms | third-party/googletest/googletest/src/gtest-port.cc:750-776 | for every character: \d, \s and \w match exactly the members of three written-out sets, \D, \S and \W exactly the others |
| RegexMeanings.ControlAtoms | third-party/googletest/googletest/src/gtest-port.cc:750-776 | \f, \n, \r, \t and \v each match one character |
| RegexMeanings.PunctuationAtoms | third-party/googletest/googletest/src/gtest-port.cc:750-776 | any other escaped character matches itself, and only if it is one of the listed punctuation characters |
| RegexMeanings.PlainAtoms | third-party/googletest/googletest/src/gtest-port.cc:779 | without a backslash the dot matches all but the line break, every other character itself |
| RegexMeanings.AtomsAllowed | third-party/googletest/googletest/src/gtest-port.cc:791-842 | what may be escaped and what may stand unescaped, as written-out sets |
| RegexMeanings.PrintedQuantifiers | third-party/googletest/googletest/src/gtest-port.cc:851-870 | `?`, `*` and `+` behind an atom, and how many characters each allows |
| RegexMeanings.PrintedAnchors | third-party/googletest/googletest/src/gtest-port.cc:875-919 | `^` and `$`, and which parts of a string have to match under them |
| RegexMeanings.WordsOfAtoms | third-party/googletest/googletest/src/gtest-port.cc:875-899 | a sequence of plain atoms matches exactly the strings of that length whose characters match one by one |
| RegexMeanings.WordsOfItem | third-party/googletest/googletest/src/gtest-port.cc:851-870 | a repeated atom matches exactly the strings of an allowed length all of whose characters it matches |
| RegexMeanings.OneReading | third-party/googletest/googletest/src/gtest-port.cc:791-842 | a pattern is the printed form of only one expression |
| RegexMeanings.CompiledDigits | third-party/googletest/googletest/src/gtest-port.cc:750-780 | compiled from \d+, a full match means a non-empty string of decimal digits and nothing else |
| SimpleRegex.LastIsDollar | third-party/googletest/googletest/src/gtest-port.cc:965-968 | a pattern ends in '$' exactly if it has an end anchor or ends in an escaped '$' |
| SimpleRegex.FullFormPrints | third-party/googletest/googletest/src/gtest-port.cc:952-970 | the full pattern is the printed form of the anchored expression, without end anchor after an escaped '$' |
| SimpleRegex.FullFormMeans | third-party/googletest/googletest/src/gtest-port.cc:952-970 | the full pattern matches exactly the strings of the language, or after an escaped '$' the strings with a prefix in it |
| SimpleRegex.FullMatchExactly | third-party/googletest/googletest/src/gtest-port.cc:929-931 | a full match means the whole string is in the language for all strings if and only if the pattern does not end in an escaped '$' |
| SimpleRegex.LanguageInhabited | third-party/googletest/googletest/src/gtest-port.cc:750-780 | every valid pattern matches some string |
| SimpleRegex.AddAnchors | third-party/googletest/googletest/src/gtest-port.cc:952-970 | writes the printed form of the anchored expression, with an end anchor exactly if the pattern does not end in '$' |
| SimpleRegex.RE.constructor | third-party/googletest/googletest/src/gtest-port.cc:940-971 | keeps the pattern, its validity and its full form together |
| SimpleRegex.RE.FullMatch | third-party/googletest/googletest/src/gtest-port.cc:929-931 | for a valid pattern true exactly if the whole string, or after an escaped '$' some prefix, is in the language; false for invalid patterns |
| SimpleRegex.RE.PartialMatch | third-party/googletest/googletest/src/gtest-port.cc:935-937 | true exactly if the pattern is valid and matches somewhere in the string |
| CallerIndexes.SitesNamingMembers | src/IndirectCallSolver.cpp:10-22 | the sites listed under a function are exactly those whose callees metadata names it |
| CallerIndexes.ICallSolver.Solve | src/IndirectCallSolver.cpp:10-22 | adds under each function exactly the call sites whose metadata names it: the inverse of the callees relation |
| CallerIndexes.ICallSolver.GetCallSites | include/ICallSolver.h:20-26 | appends exactly the sites listed under the function, and says whether there is an entry |
| CallerIndexes.PointsMembers | src/IndirectCallAnalysis.cpp:23-57 | the address points of a type id are exactly those a non-public vtable gives it |
| CallerIndexes.SubclassesMembers | src/IndirectCallAnalysis.cpp:49-54 | a class is recorded under a base exactly if some vtable entry says so |
| CallerIndexes.VirtualCallersMembers | src/IndirectCallAnalysis.cpp:59-72 | a call site is a virtual caller of a function exactly if the function is one of its candidates |
| CallerIndexes.VCallCandidatesAnalyzer.IndexTypes | src/IndirectCallAnalysis.cpp:21-57 | rebuilds the address points and adds the subclass relation of all vtables, nothing else |
| CallerIndexes.VCallCandidatesAnalyzer.IndexVTable | src/IndirectCallAnalysis.cpp:24-56 | one vtable adds exactly what its type entries say |
| CallerIndexes.VCallCandidatesAnalyzer.GetVCallCandidates | src/IndirectCallAnalysis.cpp:89-130 | returns exactly the defined, not pure virtual functions that an address point of the call's type id leads to |
| CallerIndexes.VCallCandidatesAnalyzer.Analyze | src/IndirectCallAnalysis.cpp:20-85 | the caller map is exactly the inverse of the candidate relation, added to what was listed before |
| CallerIndexes.VCallCandidatesAnalyzer.IndexCallers | src/IndirectCallAnalysis.cpp:59-72 | lists every virtual call under each of its candidates |
| CallerIndexes.VCallCandidatesAnalyzer.GetCallerCandidates | src/IndirectCallAnalysis.cpp:132-138 | appends exactly the virtual calls listed under the function, and says whether there is an entry |
| CallerIndexes.VCallCandidatesAnalyzer.DerivedFromMeans | src/IndirectCallAnalysis.cpp:13-18 | after indexing a module a class is derived from a base exactly if some vtable entry says so |
| PassMeanings.VTableNames | src/IndirectCallAnalysis.cpp:24-31 | the vtables looked at are the globals without public visibility named _ZTV and something |
| PassMeanings.ClassNames | src/IndirectCallAnalysis.cpp:33-36 | the class is what follows _ZTV, up to a dot |
| PassMeanings.CountingEntries | src/IndirectCallAnalysis.cpp:42-45 | a type entry counts if its id is a string that does not end in .virtual |
| PassMeanings.EntryDerives | src/IndirectCallAnalysis.cpp:36-54 | an entry with id _ZTSb in the vtable of class c records the type info of c under that of b, and nothing else |
| PassMeanings.OffsetsAdd | src/IndirectCallAnalysis.cpp:122 | offset and address point add up to their sum, less 2^64 if that is too large |
| PassMeanings.CandidatesMean | src/IndirectCallAnalysis.cpp:89-130 | a virtual call may reach a function if and only if some vtable entry with the type id of the call leads to it, the function is defined and it is not pure virtual |
| ExceptionPropagation.Setting.ReachesLeast | src/EHGraphPrinter.cpp:63-102 | the reached sites are the least set that holds the throw site and is closed under uncaught callers of a site's non-main function |
| ExceptionPropagation.Setting.ReachesNext | src/EHGraphPrinter.cpp:82-100 | the reached sites are closed under unwinding |
| ExceptionPropagation.ProgressDone | src/EHGraphPrinter.cpp:65-102 | an empty worklist has visited exactly the reached sites, whatever the visiting order |
| ExceptionPropagation.EHGraphDOTInfo.CanBeCaught | src/EHGraphPrinter.cpp:26-54 | true exactly if the site is caught; for the indexes of a module TypedIsCaught and ForeignIsCaught write that out |
| PassMeanings.TypedIsCaught | src/EHGraphPrinter.cpp:35-41 | with the indexes of the module, a typed exception is caught exactly by a landing pad with a clause for everything, for its type, or for a type some vtable entry records it under |
| PassMeanings.ForeignIsCaught | src/EHGraphPrinter.cpp:42-51 | an exception without a type is caught exactly by a landing pad with a clause for everything or for a type with external linkage |
| PassMeanings.BaseCatchesDerived | src/EHGraphPrinter.cpp:37-40 | two classes with their mangled names: catch (Base&) stops a thrown Derived |
| PassMeanings.DerivedMissesBase | src/EHGraphPrinter.cpp:37-40 | and catch (Derived&) does not stop a thrown Base, which leaks |
| PassMeanings.DerivedFromBase | src/IndirectCallAnalysis.cpp:13-18 | of these two classes Derived is derived from Base, and Base not from Derived |
| ExceptionPropagation.EHGraphDOTInfo.HandleUsers | src/EHGraphPrinter.cpp:82-93 | adds the callers' functions as children and leafs, and to the worklist the callers that do not catch |
| ExceptionPropagation.EHGraphDOTInfo.HandleCallers | src/EHGraphPrinter.cpp:93-100 | handles exactly the direct users and the callers of the one index that lists the function, metadata first |
| ExceptionPropagation.EHGraphDOTInfo.Propagate | src/EHGraphPrinter.cpp:63-102 | the worklist ends, with exactly the reached sites visited and the children of their functions complete |
| ExceptionPropagation.EHGraphDOTInfo.BuildChildsMap | src/EHGraphPrinter.cpp:58-107 | the final map is the exact graph, every child is a key, and Leaked holds exactly if a chain of uncaught call sites ends in main |
| PassMeanings.CallersMean | src/EHGraphPrinter.cpp:93-100 | the callers known are the direct users, and those named by metadata, or if metadata names none the virtual calls that may reach the function |
| PassMeanings.PassedSites | src/EHGraphPrinter.cpp:65-102 | the sites passed are the throw site and, from any passed site outside main, the callers of its function that do not catch |
| PassMeanings.DrawnGraph | src/EHGraphPrinter.cpp:73-93 | the exception leaks exactly if a passed site is in main; main's only child is the leak node, and the children of any other function passed are the functions of all its callers |
| ExceptionPropagation.EHGraphDOTInfo.constructor | include/EHGraphPrinter.h:58-62 | building the object clears the shared map and leaves the exact graph in it |
| ExceptionPropagation.DrawnIsGraph | src/EHGraphPrinter.cpp:103-105 | giving every child a node of its own completes the graph |
| ExceptionPropagation.KeysAreReachable | src/EHGraphPrinter.cpp:63-105 | every key of the graph is reachable from the entry node along drawn edges |
| ExceptionPropagation.WeakerPassesLess | src/EHGraphPrinter.cpp:58-107 | a run that catches more or has fewer callers visits, draws and leaks no more |
| ExceptionPropagation.MoreSubclassesPassLess | src/IndirectCallAnalysis.cpp:13-18 | a larger subclass relation can only shrink the visited sites, the edges and the leak verdict |
| ExceptionPropagation.MoreClausesPassLess | src/EHGraphPrinter.cpp:35-51 | so can more catch clauses |
| ExceptionPropagation.MoreUsersPassMore | src/EHGraphPrinter.cpp:93 | more direct users can only make them grow |
| ExceptionPropagation.MetadataHidesVirtualCallers | src/EHGraphPrinter.cpp:97-100 | for all throw sites and landing pads a new metadata entry takes no visited site, edge or leak away, if and only if it lists all virtual callers that are not direct users, or the function is main or has no call site |
| ExceptionPropagation.HiddenCallerIsLost | src/EHGraphPrinter.cpp:97-100 | thrown elsewhere in the function, the exception passes the hidden caller without the entry and not with it |
| ExceptionPropagation.OwnEdgeIsLost | src/EHGraphPrinter.cpp:97-100 | if the hidden caller is the only call site of the function, its edge to itself is lost |
| ExceptionPasses.HiddenLeak | src/EHGraphPrinter.cpp:97-100 | two modules that differ in the callees of one instruction, with the indexes the analyses build for them: without metadata the exception leaks out of main, with it the leak is not found |
| ExceptionPasses.IndexedIsValid | src/EHGraphPrinter.cpp:273-281 | what the two analyses leave behind lists only call sites of the module, as the propagation needs |
| ExceptionPasses.Run | src/EHGraphPrinter.cpp:273-284 | the pass indexes the module and reports the exact graph and leak verdict for each throwing call, in order, and for nothing else |
| ExceptionPasses.IndexedAgree | src/EHGraphPrinter.cpp:275-281 | the graph and the verdict depend on nothing but what the indexes of the module list |
| ExceptionPasses.PrintGraphs | src/EHGraphPrinter.cpp:218-238 | one exact graph for each call of a tracked function that is not made from a global initialiser |
| PassMeanings.ThrowingCalls | src/EHGraphPrinter.cpp:218-231 | reported on are exactly the calls of tracked functions that are not made from a global initialiser |
| PrerequisiteGraphs.AcyclicIffNumbered | third-party/googletest/googlemock/src/gmock-spec-builders.cc:138-155 | prerequisites are acyclic exactly if they can be numbered downwards, which is why walks without a visited set end |
| PrerequisiteGraphs.RankDecreases | third-party/googletest/googlemock/src/gmock-spec-builders.cc:138-155 | less lies behind a prerequisite than behind the expectation |
| PrerequisiteGraphs.AddEdge | third-party/googletest/googlemock/src/gmock-spec-builders.cc:753-761 | one more prerequisite keeps the graph acyclic exactly if it is not the expectation itself and the expectation does not lie behind it |
| Expectations.RoundShorter | third-party/googletest/googlemock/src/gmock-spec-builders.cc:141-153 | popping an expectation and pushing all its prerequisites makes the remaining walk shorter, although nodes are visited many times |
| Expectations.AllPrerequisitesAreSatisfied | third-party/googletest/googlemock/src/gmock-spec-builders.cc:138-155 | terminates without a visited set and is true exactly if every transitive prerequisite is satisfied |
| Expectations.ExpandReported | third-party/googletest/googlemock/src/gmock-spec-builders.cc:166-183 | expanding one expectation reports its unsatisfied prerequisites now and keeps exactly the satisfied, never called ones for later |
| Expectations.FindUnsatisfiedPrerequisites | third-party/googletest/googlemock/src/gmock-spec-builders.cc:158-185 | adds exactly the unsatisfied expectations reached through satisfied, never called ones |
| Expectations.ReportsWhenUnsatisfied | third-party/googletest/googlemock/src/gmock-spec-builders.cc:136-185 | if called, satisfied expectations have satisfied prerequisites, something is reported exactly when not all prerequisites are satisfied |
| Expectations.RunKeepsCalled | third-party/googletest/googlemock/src/gmock-spec-builders.cc:171-175 | that holds over every run of calls, given that a call beyond saturation leaves an expectation unsatisfied |
| Expectations.ReportsAfterRun | third-party/googletest/googlemock/include/gmock/gmock-spec-builders.h:1137-1149 | so after every run something is reported exactly when not all prerequisites, immediate or not, are satisfied |
| Expectations.BetweenLaw | third-party/googletest/googlemock/src/gmock-cardinalities.cc:50-76 | a count saturates Between(m, n) exactly if no higher count satisfies it, for bounds in any order |
| Expectations.BetweenMeans | third-party/googletest/googlemock/src/gmock-cardinalities.cc:50-80 | with m <= n, satisfied exactly from m to n calls and saturated exactly from n on; what becomes of bounds that are negative or out of order |
| Expectations.RetiringDone | third-party/googletest/googlemock/src/gmock-spec-builders.cc:119-133 | an exhausted worklist has retired exactly what lies behind the expectation |
| Expectations.RetiredBehind | third-party/googletest/googlemock/src/gmock-spec-builders.cc:113-117 | the shortcut is right: a retired expectation has nothing active behind it |
| Expectations.Retire | third-party/googletest/googlemock/include/gmock/gmock-spec-builders.h:769-773 | retires one expectation and no other |
| Expectations.RetireAllPreRequisites | third-party/googletest/googlemock/src/gmock-spec-builders.cc:111-134 | retires exactly the still active transitive prerequisites and keeps retired expectations closed under prerequisites |
| Expectations.GetActionForArguments | third-party/googletest/googlemock/include/gmock/gmock-spec-builders.h:1196-1222 | each field by name: the call is counted, for this expectation only; it is excessive exactly if the count before saturated it; and unless it is excessive it retires all that lies behind, and the expectation itself if it is now saturated and asks for that; nothing else |
| Expectations.RetiredStays | third-party/googletest/googlemock/include/gmock/gmock-spec-builders.h:1196-1222 | over any run of calls nothing is ever un-retired, and what is retired is not called any more |
| Expectations.AfterMeans | third-party/googletest/googlemock/include/gmock/gmock-spec-builders.h:1196-1222 | the same clause by clause on the status a run goes through |
| Expectations.RunCounts | third-party/googletest/googlemock/include/gmock/gmock-spec-builders.h:1204-1212 | after any run an expectation has been counted once for every call it handled |
| Expectations.RetiresOnceSaturated | third-party/googletest/googlemock/include/gmock/gmock-spec-builders.h:1212-1215 | over every run: a handler that retires on saturation and is saturated by a call that is not excessive is retired from then on, and never handles a call again |
| Expectations.RetiredBecause | third-party/googletest/googlemock/include/gmock/gmock-spec-builders.h:1196-1222 | over every run: retired is exactly what was so at the start, what lies behind the handler of a call that was not excessive, and what was saturated by such a call and asked for it |
| Expectations.RunsKeepOrder | third-party/googletest/googlemock/include/gmock/gmock-spec-builders.h:1102-1112 | over any run everything behind a handler is satisfied when it handles a call; after a call that was not excessive it stays satisfied for good and never handles a call again |
| Expectations.RunsKeepOrderFromStart | third-party/googletest/googlemock/include/gmock/gmock-spec-builders.h:1196-1222 | in a run from the start that holds after every call, excessive or not, of a handler that is not saturated at 0 |
| Expectations.FirstCall | third-party/googletest/googlemock/include/gmock/gmock-spec-builders.h:1204-1212 | an expectation that has been called has a first call, at count 0 |
| Expectations.ShouldHandleArguments | third-party/googletest/googlemock/include/gmock/gmock-spec-builders.h:1102-1112 | true exactly for an active, matching expectation all of whose transitive prerequisites are satisfied by their call counts |
| Expectations.FindMatchingExpectation | third-party/googletest/googlemock/include/gmock/gmock-spec-builders.h:1611-1626 | the last expectation declared that should handle the call, null if there is none |
| Expectations.LastToHandleMeans | third-party/googletest/googlemock/include/gmock/gmock-spec-builders.h:1611-1626 | who handles a call is active, matches, has everything behind it satisfied, and no expectation declared later is like that |
| Expectations.HandleCall | third-party/googletest/googlemock/include/gmock/gmock-spec-builders.h:1577-1599 | the last expectation declared that should handle the call gets it, none changes nothing; it was active, matched, and had everything behind it satisfied, its count goes up by one and the call is excessive exactly if the count before saturated it; AfterMeans and RetiredBecause say what is retired |
| Expectations.Sequence.AddExpectation | third-party/googletest/googlemock/src/gmock-spec-builders.cc:753-761 | the expectation added before becomes a prerequisite and everything behind it lies behind the new one; the graph stays acyclic exactly if the new one did not lie behind it |
| LazyMutexes.ExchangeKeepsInv | third-party/googletest/googletest/src/gtest-port.cc:379-410 | the compare-and-swap steps keep the invariant: the first thread initialises, the others wait or find it done |
| LazyMutexes.InitMoveKeepsInv | third-party/googletest/googletest/src/gtest-port.cc:381-397 | the steps of the initialising thread keep the invariant; its check that the phase is still 1 succeeds |
| LazyMutexes.SectionMoveKeepsInv | third-party/googletest/googletest/src/gtest-port.cc:317-330 | writing the owner and leaving the section keep the invariant |
| LazyMutexes.ReadyMoveKeepsInv | third-party/googletest/googletest/src/gtest-port.cc:317-338 | entering the section, starting to unlock and asserting keep the invariant |
| LazyMutexes.ExecutionInv | third-party/googletest/googletest/src/gtest-port.cc:317-418 | every state of every interleaving satisfies the invariant |
| LazyMutexes.AlwaysSafe | third-party/googletest/googletest/src/gtest-port.cc:317-418 | in every interleaving the section is allocated and initialised at most once, nobody is past initialisation or in the section before phase 2, the check never fails, resetting the owner erases no holder, and a non-zero owner is the holder |
| LazyMutexes.PhaseGrows | third-party/googletest/googletest/src/gtest-port.cc:379-410 | the phase never goes back, so initialisation happens once for good |
| LazyMutexes.OnlyHolderWrites | third-party/googletest/googletest/src/gtest-port.cc:317-330 | once initialised only the holder changes the owner, and nobody enters a section another thread holds |
| LazyMutexes.AssertHeldDecides | third-party/googletest/googletest/src/gtest-port.cc:332-338 | in every execution AssertHeld passes if and only if the caller holds the section and has not unlocked since its last completed Lock, else it fails; without recursive locking that is the holder |
| LazyMutexes.UnlockedMeans | third-party/googletest/googletest/src/gtest-port.cc:317-330 | the history field says exactly that some Unlock has started and no Lock was completed since |
| LazyMutexes.NoDeadlock | third-party/googletest/googletest/src/gtest-port.cc:317-418 | while some thread is inside an operation, some thread can make progress or the section is held by a thread that is outside |
| LazyMutexes.InitialiserFinishes | third-party/googletest/googletest/src/gtest-port.cc:381-397 | the initialising thread needs at most four steps of its own to reach phase 2 and is never blocked |
| LazyMutexes.OthersDoNotInterfere | third-party/googletest/googletest/src/gtest-port.cc:379-410 | no step of another thread sets the initialising thread back |
| LazyMutexes.RecursionForgetsOwner | third-party/googletest/googletest/src/gtest-port.cc:317-330 | after locking twice and unlocking once a thread still holds the section but the owner is 0 |
| TestSharding.ExactlyOneShard | third-party/googletest/googletest/src/gtest.cc:6046-6048 | every runnable test is selected on exactly one shard |
| TestSharding.TakesEvery | third-party/googletest/googletest/src/gtest.cc:6046-6048 | a shard takes exactly the runnable tests before which its index, plus some multiple of the shard count, of runnable tests come |
| TestSharding.ShardSizeIs | third-party/googletest/googletest/src/gtest.cc:6046-6048 | a shard takes its share of the runnable tests: the quotient, and one more if its index is below the remainder |
| TestSharding.ShardsAreBalanced | third-party/googletest/googletest/src/gtest.cc:6046-6048 | shard sizes differ by at most one |
| TestSharding.ShardsShareAll | third-party/googletest/googletest/src/gtest.cc:6046-6048 | all shards together take each runnable test once |
| Shuffles.GeneratorIsInvertible | third-party/googletest/googletest/src/gtest.cc:388-403 | the generator can be run backwards |
| Shuffles.GeneratorKeepsStatesApart | third-party/googletest/googletest/src/gtest.cc:388-403 | different states never lead to the same next state |
| Shuffles.SeedAtIs | third-party/googletest/googletest/src/gtest-internal-inl.h:109-134 | the iterations go round all valid seeds, and giving the seed of an iteration as the flag yields that seed |
| TestSelection.IterationSeedIs | third-party/googletest/googletest/src/gtest-internal-inl.h:109-134 | the seed of the k-th iteration as a number, from any flag, with and without shuffling |
| Shuffles.ShuffleRange | third-party/googletest/googletest/src/gtest-internal-inl.h:302-322 | the order is decided by what the generator draws, one draw for each place from the last down to the second, and the generator's state advances accordingly |
| Shuffles.ShuffledLast | third-party/googletest/googletest/src/gtest-internal-inl.h:314-320 | the last place gets the element the first draw names |
| Shuffles.ShuffledRest | third-party/googletest/googletest/src/gtest-internal-inl.h:312-320 | the other draws shuffle what is left, with the element of the last place where the first draw took one away |
| Shuffles.ShuffledStays | third-party/googletest/googletest/src/gtest-internal-inl.h:312-320 | draws that always name the last place leave the vector as it is |
| Shuffles.DrawsAre | third-party/googletest/googletest/src/gtest.cc:388-403 | the k-th draw is the (k+1)-th next state modulo the number of places left |
| Shuffles.FirstStates | third-party/googletest/googletest/src/gtest.cc:391-394 | the first states, as numbers |
| Shuffles.ShuffledKeeps | third-party/googletest/googletest/src/gtest-internal-inl.h:302-322 | whatever is drawn, the range keeps its elements |
| Shuffles.ShuffledOutside | third-party/googletest/googletest/src/gtest-internal-inl.h:302-322 | whatever is drawn, the rest of the vector stays as it is |
| Shuffles.ShuffledOnce | third-party/googletest/googletest/src/gtest-internal-inl.h:302-322 | no two lists of draws give the same order |
| Shuffles.ShuffledOnto | third-party/googletest/googletest/src/gtest-internal-inl.h:302-322 | every order of the range can be drawn |
| Shuffles.ShufflePermutes | third-party/googletest/googletest/src/gtest-internal-inl.h:302-322 | a shuffled range of indices permutes its indices if it did before |
| TestRuns.TestInfo.Run | third-party/googletest/googletest/src/gtest.cc:2836-2882 | runs the test once if it is to be run, and then shows how that run ended |
| TestRuns.TestInfo.Skip | third-party/googletest/googletest/src/gtest.cc:2885-2905 | records one skip if the test is to be run |
| TestRuns.TestSuite.OrderCovers | third-party/googletest/googletest/src/gtest.cc:2990-2993 | the index vector gives every test of the suite a place |
| TestRuns.TestSuite.GetMutableTestInfo | third-party/googletest/googletest/src/gtest.cc:2983-2986 | the i-th test in the current order, null out of range |
| TestRuns.TestSuite.Run | third-party/googletest/googletest/src/gtest.cc:2996-3047 | every test that is to be run is run or skipped exactly once; none is run if set-up failed, none skipped if it did not and fail_fast is off, and with fail_fast none is run after a failed one |
| TestRuns.TestSuite.RunInOrder | third-party/googletest/googletest/src/gtest.cc:3019-3033 | the same, place by place in the current order |
| TestRuns.TestSuite.RunUntilFailure | third-party/googletest/googletest/src/gtest.cc:3019-3032 | runs or skips the tests up to the first failed one under fail_fast, else all, each once |
| TestRuns.TestSuite.SkipFrom | third-party/googletest/googletest/src/gtest.cc:3027-3030 | skips exactly the tests from a place on |
| TestRuns.TestSuite.Skip | third-party/googletest/googletest/src/gtest.cc:3050-3078 | every test that is to be run is skipped once |
| TestRuns.TestSuite.ShuffleTests | third-party/googletest/googletest/src/gtest.cc:3086-3088 | the index vector is shuffled as drawn and stays a permutation |
| TestRuns.TestSuite.UnshuffleTests | third-party/googletest/googletest/src/gtest.cc:3091-3095 | the index vector is the identity again |
| TestRuns.TestSuite.Failed | third-party/googletest/googletest/include/gtest/gtest.h:728-730 | true if a test that should run has failed; other failures may count too |
| TestRuns.UnitTestImpl.FindTestSuite | third-party/googletest/googletest/src/gtest.cc:5719-5724 | finds the last suite of that name, exactly if there is one |
| TestRuns.UnitTestImpl.GetTestSuite | third-party/googletest/googletest/src/gtest.cc:5715-5747 | a known name gets the last suite of that name; else a fresh suite of that name goes behind the last death test suite or to the end, so death test suites stay in front |
| TestRuns.UnitTestImpl.InsertTestSuite | third-party/googletest/googletest/src/gtest.cc:5734-5746 | inserting keeps death test suites in front and the index vector the identity |
| TestRuns.InsertedPlaces | third-party/googletest/googletest/src/gtest.cc:5734-5746 | the new suite stands at its place, the others around it in their order |
| FilterMeanings.DeathTestNames | third-party/googletest/googletest/src/gtest.cc:170 | a death test suite has a name that ends in DeathTest or contains DeathTest/ |
| TestRuns.UnitTestImpl.GetMutableSuiteCase | third-party/googletest/googletest/src/gtest-internal-inl.h:598-601 | the i-th suite in the current order, null out of range |
| TestRuns.UnitTestImpl.ShuffleSuites | third-party/googletest/googletest/src/gtest.cc:6228-6234 | death test suites and the others are shuffled apart, as drawn; both index ranges stay permutations |
| TestRuns.UnitTestImpl.ShuffleTests | third-party/googletest/googletest/src/gtest.cc:6228-6240 | after shuffling everything the index vectors are still permutations with death test suites first; from registration order, the state of the generator decides them all |
| TestRuns.OneSchedule | third-party/googletest/googletest/src/gtest.cc:6228-6240 | for given suites and a given seed there is only one order of all the tests |
| Shuffles.SuiteDraws | third-party/googletest/googletest/src/gtest.cc:6228-6234 | the order of the suites comes from the numbers of the generator behind the seed: death test suites take the first ones, the other suites the next |
| Shuffles.TestDraws | third-party/googletest/googletest/src/gtest.cc:6236-6240 | the tests of each suite, in order of registration, take the numbers behind those |
| TestRuns.RegisteredSchedule | third-party/googletest/googletest/src/gtest.cc:5837-5931 | without shuffling that is the order of registration |
| TestRuns.UnitTestImpl.DeathTestsFirst | third-party/googletest/googletest/src/gtest.cc:6226-6234 | whatever the shuffle, no death test suite comes after another kind of suite |
| TestRuns.UnitTestImpl.SuiteOrderCovers | third-party/googletest/googletest/src/gtest-internal-inl.h:598-601 | every suite has a place in the current order, and no two places share a test |
| TestRuns.UnitTestImpl.UnshuffleTests | third-party/googletest/googletest/src/gtest.cc:6243-6250 | suites and tests are back in registration order |
| TestRuns.UnitTestImpl.RunSuites | third-party/googletest/googletest/src/gtest.cc:5883-5893 | after the suite loop every selected test has been run or skipped exactly once; with fail_fast no test behind a failed one, in its suite or a later one, has been run |
| TestRuns.RunsOnStep | third-party/googletest/googletest/src/gtest.cc:5885-5892 | one more suite keeps that no test before has failed, unless one of its own does, and then nothing behind was run |
| TestRuns.HaltsMeans | third-party/googletest/googletest/src/gtest.cc:5883-5893 | place by place: with fail_fast no test behind a failed one was run |
| TestRuns.UnitTestImpl.SkipSuites | third-party/googletest/googletest/src/gtest.cc:5894-5902 | after a fatal failure in global set-up every selected test is skipped, none run |
| TestRuns.UnitTestImpl.RunIteration | third-party/googletest/googletest/src/gtest.cc:5837-5931 | one iteration: every due test is reported once unless global set-up asked to skip, none is run unless set-up was fine, every failed run shows, with fail_fast none is run behind a failed one, the schedule is the one the seed gives, and the order is restored |
| TestSelection.ChooseNext | third-party/googletest/googletest/src/gtest.cc:6092-6103 | the next test gets the next id exactly if it is runnable, and is selected exactly if its shard is this one |
| TestSelection.OnExactlyOneShard | third-party/googletest/googletest/src/gtest.cc:6057-6110 | over all shard indices a test is selected on exactly one shard if it is runnable, else on none |
| TestSelection.FindDisabled | third-party/googletest/googletest/src/gtest.cc:6081-6086 | true exactly if the suite name or the test name matches the filter for disabled tests |
| TestSelection.FilterTest | third-party/googletest/googletest/src/gtest.cc:6078-6100 | the flags of one test say whether it is disabled, matches the filter, is in another shard, is runnable and is selected |
| FilterMeanings.DisabledNames | third-party/googletest/googletest/src/gtest.cc:165 | a name is disabled exactly if it begins with DISABLED_ or contains /DISABLED_ |
| FilterMeanings.RunnableTests | third-party/googletest/googletest/src/gtest.cc:6081-6094 | a test is runnable exactly if the flag selects suite, dot and name, and neither name is disabled or disabled tests are run as well |
| FilterMeanings.AlsoRunDisabledAdds | third-party/googletest/googletest/src/gtest.cc:6092-6094 | running disabled tests as well only adds tests |
| TestSelection.FilterSuite | third-party/googletest/googletest/src/gtest.cc:6074-6108 | marks the tests of one suite, and the suite if one of them is selected |
| TestSelection.FilterTests | third-party/googletest/googletest/src/gtest.cc:6057-6110 | afterwards exactly the selected tests are to be run, a suite is to be run exactly if one of its tests is, and the result is their number |
| TestSelection.ChosenIsCounted | third-party/googletest/googletest/src/gtest.cc:5799-5801 | if any test is selected the count is not zero, so no selected test is lost when nothing is run |
| TestSelection.RunAllTests | third-party/googletest/googletest/src/gtest.cc:5763-5936 | from the flags on, a log of all iterations: in each, every selected test is run or skipped exactly once unless global set-up asks to skip, the others never; with fail_fast none is run behind one whose run failed; every iteration has the schedule its own seed gives, and the order is restored |
| TestSelection.LogTotals | third-party/googletest/googletest/src/gtest.cc:5837-5931 | over all iterations each selected test is reported as often as there are iterations that do not skip everything |
| TestSelection.OrderIsReproducible | third-party/googletest/googletest/src/gtest.cc:5925-5936 | the order of any iteration can be had again without the iterations before it, by giving its seed as the flag |
| DecimalPrinter.DivideByTen | third-party/googletest/googletest/src/gtest-printers.cc:306-318 | the two words are divided by ten exactly, no sum leaves 64 bits, and the bound on the new low word is reached |
| DecimalPrinter.PrintUnsigned | third-party/googletest/googletest/src/gtest-printers.cc:289-321 | prints the only numeral of the value, in at most 39 digits, so the buffer of 40 suffices |
| DecimalPrinter.PrintSigned | third-party/googletest/googletest/src/gtest-printers.cc:322-329 | prints a sign and the numeral of the absolute value, the smallest value included |
| DecimalPrinter.FitsThirtyNine | third-party/googletest/googletest/src/gtest-printers.cc:295-296 | 39 digits are enough for 128 bits |
| DecimalPrinter.NumeralsAreUnique | third-party/googletest/googletest/src/gtest-printers.cc:289-321 | a value has only one numeral, so reading the output back gives the value |
| DecimalPrinter.NumeralsRead | third-party/googletest/googletest/src/gtest-printers.cc:306-329 | some numerals and what they stand for |
| DecimalPrinter.DenotesFaithfully | third-party/googletest/googletest/src/gtest-printers.cc:289-329 | two printed texts are the same exactly if their values are |
| DecimalPrinter.PartlyStep | third-party/googletest/googletest/src/gtest-printers.cc:306-319 | one round moves one digit from what is left to what is printed, and needs one place less |
| Utf8.OctetsStep | third-party/googletest/googletest/src/gtest-printers.cc:484-510 | the first byte decides where the first character ends |
| Utf8.IsValidUTF8 | third-party/googletest/googletest/src/gtest-printers.cc:481-512 | accepts exactly the UTF8-octets of section 4 of RFC 3629 |
| Utf8.SpelledOnce | third-party/googletest/googletest/src/gtest.cc:1957-1983 | a code point of up to 21 bits has only one shortest spelling |
| Utf8.KnownSpellings | third-party/googletest/googletest/src/gtest.cc:1957-1983 | one code point of each length, in bytes |
| Utf8.InvalidText | third-party/googletest/googletest/src/gtest.cc:1958-1960 | the bytes in front of the hexadecimal digits are those of the text, character by character |
| Utf8.CharsSpellScalars | third-party/googletest/googletest/src/gtest.cc:1920-1927 | among the spellings the characters of RFC 3629 are exactly those of scalar values |
| Utf8.ChoppedBitsJoin | third-party/googletest/googletest/src/gtest.cc:1945-1949 | what is chopped off makes a trail byte, and together with the rest makes up all the bits |
| Utf8.FillBuffer | third-party/googletest/googletest/src/gtest.cc:1962-1981 | writes the spelling of the code point and its terminator into five bytes |
| Utf8.CodePointToUtf8 | third-party/googletest/googletest/src/gtest.cc:1957-1983 | returns the spelling, the empty string for the null character, a readable text beyond 21 bits |
| Utf8.HexReadsBack | third-party/googletest/googletest/src/gtest.cc:2163-2167 | the hexadecimal digits read back as the value |
| Utf8.OneCodePointValid | third-party/googletest/googletest/src/gtest.cc:1957-1983 | what is written for a code point is valid UTF-8 exactly if it is a scalar value or has more than 21 bits: surrogates and the values from 110000 to 1FFFFF are rejected |
| Utf8.PairsJoin | third-party/googletest/googletest/src/gtest.cc:1992-2009 | a surrogate pair is recognised and joined to the code point it stands for |
| Utf8.KnownPair | third-party/googletest/googletest/src/gtest.cc:1992-2009 | a pair of surrogates and its code point; nothing is a pair in 32-bit characters |
| Utf8.PointsOfUnits | third-party/googletest/googletest/src/gtest.cc:2028-2040 | decoding the UTF-16 or UTF-32 units of scalar values gives the same values back |
| Utf8.TextValid | third-party/googletest/googletest/src/gtest.cc:2024-2044 | written text is valid UTF-8 exactly if every code point is encodable |
| Utf8.TextDecodes | third-party/googletest/googletest/src/gtest.cc:2024-2044 | written text decodes to the code points written |
| Utf8.ValidIsWritten | third-party/googletest/googletest/src/gtest-printers.cc:481-512 | every valid byte string without nulls is what is written for the text it decodes to |
| Utf8.EncodeUnits | third-party/googletest/googletest/src/gtest.cc:2027-2043 | writes the code points of the units up to the first null, one after the other, also if the length goes beyond the null |
| Utf8.ConsideredIs | third-party/googletest/googletest/src/gtest.cc:2024-2030 | the units considered are as many as given, or all for -1, up to the first null |
| Utf8.WideStringToUtf8 | third-party/googletest/googletest/src/gtest.cc:2024-2044 | the output is valid exactly if all code points are encodable, and decodes to the text whose units were given |
| PrimeTables.SmallPrimeDivisor | third-party/googletest/googletest/samples/prime_tables.h:58-61 | a composite number has a prime divisor up to its square root |
| PrimeTables.PrimeAbove | third-party/googletest/googletest/samples/prime_tables.h:66-72 | there is a prime above every number, so the search ends |
| PrimeTables.FirstPrimes | third-party/googletest/googletest/samples/prime_tables.h:55-64 | which of the first numbers are primes |
| PrimeTables.OnTheFlyPrimeTable.IsPrime | third-party/googletest/googletest/samples/prime_tables.h:55-64 | trial division up to the square root decides primality |
| PrimeTables.OnTheFlyPrimeTable.GetNextPrime | third-party/googletest/googletest/samples/prime_tables.h:66-72 | terminates with the least prime above p, and -1 for negative p |
| PrimeTables.PreCalculatedPrimeTable.constructor | third-party/googletest/googletest/samples/prime_tables.h:80-83 | the table holds exactly the primes up to max |
| PrimeTables.PreCalculatedPrimeTable.CalculatePrimesUpTo | third-party/googletest/googletest/samples/prime_tables.h:99-115 | marks exactly the primes although it visits only 2 and odd numbers and crosses out from the square on |
| PrimeTables.PreCalculatedPrimeTable.CrossOut | third-party/googletest/googletest/samples/prime_tables.h:111-113 | removes exactly the multiples from the square on |
| PrimeTables.PreCalculatedPrimeTable.IsPrime | third-party/googletest/googletest/samples/prime_tables.h:86-88 | true exactly for primes the table reaches |
| PrimeTables.PreCalculatedPrimeTable.GetNextPrime | third-party/googletest/googletest/samples/prime_tables.h:90-96 | the least prime above p if the table holds one, else -1 |
| PrimeTables.SievedKnows | third-party/googletest/googletest/samples/prime_tables.h:105-107 | when the sieve comes to a number the table already says whether it is prime |
| PrimeTables.SievedStep | third-party/googletest/googletest/samples/prime_tables.h:105-114 | skipping even numbers loses no prime |
| PrimeTables.SievedAll | third-party/googletest/googletest/samples/prime_tables.h:105 | beyond the square root nothing is left to cross out |
| PrimeTables.HybridPrimeTable.IsPrime | third-party/googletest/googletest/samples/sample8_unittest.cc:59-64 | decides primality whether or not the table reaches the number |
| PrimeTables.HybridPrimeTable.GetNextPrime | third-party/googletest/googletest/samples/sample8_unittest.cc:66-72 | the least prime above p, whether or not the table reaches it; below 0 there is none, but for -1 if the table holds a prime |

## Left out

- OptimalEdits.CalculateOptimalEdits: claims a lightest script only where no table entry is misled by a tie, because the code does not always compute one (`LightestExactly` and `MisjudgedExactly` say when); the weights are reals, so rounding of doubles is not modelled.
- DiffTexts.PrintUnifiedDiff: printing a number writes its numeral; the formatting state of the stream is not part of the model.
- SimpleRegex.MatchRegexAnywhere: strings are shorter than SIZE_MAX - 1, so the repetition bound of the code is never reached.
- GlobFilters.MakeFilter: patterns stay in the order given; the code's partition may reorder them, which no query can tell.
- TestRuns.TestSuite.Run: what user code, listeners and timers do is arbitrary; only the reports, the order and failure matter. A disabled test that matches the filter is announced to listeners by the code; that is not counted as a report.
- TestRuns.UnitTestImpl.GetTestSuite: a new suite is created with all its tests instead of being filled later by AddTestInfo.
- TestSelection.RunAllTests: the repeat count is not negative; a negative one repeats for ever. Listing and environments are not part of the model, and shard count and index are taken from the environment by the caller.
- PrimeTables.HybridPrimeTable.GetNextPrime: below -1 the table is not asked, because the code would index it before its start. Machine-int overflow of the samples is not modelled.
- PrimeTables.PreCalculatedPrimeTable.constructor: max is at least 1, because the code writes the entry of 1 unconditionally.
- LazyMutexes.AlwaysSafe: static mutexes only; a dynamic mutex is initialised by its constructor and needs no protocol. Each operation on shared memory is one step, and memory is taken to be sequentially consistent.
- Expectations.RunKeepsCalled: user-defined cardinalities must leave an expectation unsatisfied after a call beyond saturation, as Between does. Whether the arguments match is given, and expectations are not added between calls.
- Expectations.AllPrerequisitesAreSatisfied: the prerequisite graph is acyclic; on a cycle the walk need not end. An ExpectationSet is a sequence without repetitions, whose order does not matter to any result.
- ExceptionPropagation.EHGraphDOTInfo.CanBeCaught: constant folding, offset stripping and linkage are given relations; the order in which a set of call sites is listed is arbitrary.
- ExceptionPasses.Run: which functions may throw, which initialise globals, and with which type info a call throws are given relations; writing the graph to a file, or not beyond a number of nodes, is left out.
- CallerIndexes.VCallCandidatesAnalyzer.Analyze: type ids that count start with `_ZTS`; any other is declared unreachable by the code.
- BipartiteMatching.VerifyMatchMatrix: the explanation written to the listener is not modelled, and neither is that of FindPairing.
- NextGraph and Randomize of the match matrix: used by tests of the matcher only.
- IR parsing, demangling, DOT output and colours: input and output of the analysis.
- Death tests, stream capture, sockets, file paths, XML and JSON reports, threads other than the mutex: input, output and operating system.
- Templates and macros of gmock (actions, cardinalities, mock classes): they would add only easy members.

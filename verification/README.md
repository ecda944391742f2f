# Nek5000 top-down test driver: log-checking fixtures

This project models the logic of `tests/Jenkins_Analysis.py`, the regression
driver that reads the log files of earlier example runs and decides, per
example problem, whether the run passed (`.`) or failed (`F`). It has two
fixtures.

- **RunTestClass** checks numeric values. `addTests` registers the tests of
  one example: a name, a target, a tolerance and a column counted from the
  right. All of them start in `missingTests`. `setUpClass` walks the log line
  by line. For each line it goes over a snapshot of the names still missing.
  A name that occurs in the line, where the line's `col`-th token from the
  right parses as a number, moves to `foundTests` together with that value.
  One generated test method per name then asserts two things: the name was
  found, and `abs(testVal - target) < tolerance`. A name that passes both is
  recorded in `passedTests`. `tearDownClass` prints `F` when something is
  still missing or some found test did not pass, and `.` otherwise. With an
  empty `listOfTests` the class has no test method, the runner skips its
  set-up and tear-down, and nothing is printed.
- **FindPhraseClass / DFdPhraseClass** look for one keyphrase. The scan stops
  at the first line that contains it, so `foundPhrases` is `[keyword]` or
  `[]`. FindPhrase passes when the keyword is present and DFdPhrase when it
  is absent. A log that cannot be opened is reported as `F` by both.

The class and method names come from `re.sub(r'[_\W]+', '_', ...)`, which
the model defines as `Identifiers.Sanitize`. The `TestVals` dictionary with
restricted keys is modelled in `TestValsDict`.

The log file is an `Option<seq<string>>`: its lines, or `None` when opening
it raises `IOError`. Python's `float()` is a parameter
`parse: string -> Option<real>` about which nothing is assumed. `None` means
`ValueError`. Comparisons use `real`.

Files: `wrappers.dfy` (Option, Outcome, Result), `report.dfy` (the `.`/`F`
mark both fixtures print), `pytext.dfy` (`in`,
`str.split()`, list indexing, `%02d`), `identifiers.dfy` (the sanitiser and
generated names), `testvals.dfy` (TestVals), `runtest.dfy` (RunTestClass,
`Run`), `phrase.dfy` (FindPhraseClass, DFdPhraseClass, `FindPhrase`,
`DFdPhrase`).

Values are not read at fixed lines. The scan uses the first line that
contains the test name and yields a number in the test's column.

## Model

| member | source | states |
|---|---|---|
| PyText.Contains | nek5_svn1093/tests/Jenkins_Analysis.py:118 | `name in line`: an occurrence needs the name to be no longer than the line, and a name as long as the line occurs only if it is the line |
| PyText.Split | nek5_svn1093/tests/Jenkins_Analysis.py:121 | `line.split()` yields only non-empty tokens free of whitespace |
| PyText.SplitAtSpace | nek5_svn1093/tests/Jenkins_Analysis.py:121 | every whitespace character cuts the line: the text before it and the text after it split independently |
| PyText.SplitToken | nek5_svn1093/tests/Jenkins_Analysis.py:121 | a single run without whitespace is one token |
| PyText.SplitBlanks | nek5_svn1093/tests/Jenkins_Analysis.py:121 | a line of whitespace only has no tokens |
| PyText.SplitLayout | nek5_svn1093/tests/Jenkins_Analysis.py:121 | a line of tokens with leading blanks, runs of several blanks or tabs between them and a trailing newline splits into exactly those tokens |
| PyText.SplitJoin | nek5_svn1093/tests/Jenkins_Analysis.py:121 | splitting tokens joined by single spaces gives the same tokens back |
| PyText.SplitKeepsNonSpace | nek5_svn1093/tests/Jenkins_Analysis.py:121 | the tokens, concatenated, are exactly the non-whitespace characters of the line, in order |
| PyText.PyIndex | nek5_svn1093/tests/Jenkins_Analysis.py:120-122 | Python list indexing: a negative index counts from the right; out of range is `IndexError` (None) |
| PyText.EmptyOccursEverywhere | nek5_svn1093/tests/Jenkins_Analysis.py:118 | `'' in line` holds for every line, so an empty test name matches every line |
| PyText.DecimalRoundTrip | nek5_svn1093/tests/Jenkins_Analysis.py:101 | the decimal text of a registration index reads back as that index |
| PyText.Pad2RoundTrip | nek5_svn1093/tests/Jenkins_Analysis.py:101 | `'%02d' % i` reads back as `i`; the padding zero does not change the number |
| PyText.Pad2Injective | nek5_svn1093/tests/Jenkins_Analysis.py:101 | different indices give different `%02d` texts |
| Identifiers.Sanitize | nek5_svn1093/tests/Jenkins_Analysis.py:163 | the result holds only word characters and never two underscores in a row; it is empty only for empty input; its last character is the input's last letter or digit, or `_` |
| Identifiers.SubstituteRuns | nek5_svn1093/tests/Jenkins_Analysis.py:163 | a left-to-right scan that copies letters and digits and emits one `_` at the start of each run computes the same string as `Sanitize` |
| Identifiers.SanitizeIdempotent | nek5_svn1093/tests/Jenkins_Analysis.py:163 | sanitising a sanitised name changes nothing |
| Identifiers.SanitizeMaximalRun | nek5_svn1093/tests/Jenkins_Analysis.py:163 | a maximal run of non-word or `_` characters between letters/digits (or the ends) becomes exactly one `_`, and the text on either side is unaffected |
| Identifiers.SanitizeConcat | nek5_svn1093/tests/Jenkins_Analysis.py:163 | two pieces separated by a letter or digit are sanitised independently |
| Identifiers.SanitizeKeepsAlnums | nek5_svn1093/tests/Jenkins_Analysis.py:163 | every letter and digit survives, in order, and none is added |
| Identifiers.SanitizeAppendAlnum | nek5_svn1093/tests/Jenkins_Analysis.py:101 | letters and digits appended after any text are copied through unchanged |
| Identifiers.SanitizeExtends | nek5_svn1093/tests/Jenkins_Analysis.py:163 | the sanitised form of a prefix is a prefix of the sanitised whole |
| Identifiers.ClassName | nek5_svn1093/tests/Jenkins_Analysis.py:163 | the class name begins with `NekTest_` and is a valid identifier body (the same expression is used at lines 255 and 310) |
| Identifiers.TestMethodName | nek5_svn1093/tests/Jenkins_Analysis.py:101 | the method name begins with `test_` and is a valid identifier body |
| Identifiers.TestMethodIndexRoundTrip | nek5_svn1093/tests/Jenkins_Analysis.py:101 | the registration index can be read back from the trailing digits of the method name |
| Identifiers.TestMethodNamesDistinct | nek5_svn1093/tests/Jenkins_Analysis.py:101-102 | methods for different indices get different names, so no `setattr` overwrites another test, whatever the test names are |
| TestValsDict.New | nek5_svn1093/tests/Jenkins_Analysis.py:23-25 | a fresh TestVals holds the four keys with the given values, plus `self` |
| TestValsDict.SetItem | nek5_svn1093/tests/Jenkins_Analysis.py:27-31 | assignment succeeds exactly for the four permitted keys and changes only that key; any other key raises `KeyError` naming it |
| TestValsDict.AssignAll | nek5_svn1093/tests/Jenkins_Analysis.py:27-31 | a run of assignments fails exactly when it uses a key outside the four; otherwise the key set grows only by the assigned keys and untouched keys keep their values |
| TestValsDict.SelfPresentButNotAssignable | nek5_svn1093/tests/Jenkins_Analysis.py:23-31 | `self` is a key of every fresh object, so its keys are not a subset of the permitted four, yet assigning `self` raises `KeyError` |
| TestValsDict.FreshKeysAreStable | nek5_svn1093/tests/Jenkins_Analysis.py:23-31 | successful assignments to a fresh object keep its key set at the four keys plus `self` |
| RunTest.Register | nek5_svn1093/tests/Jenkins_Analysis.py:74-76 | the OrderedDict has distinct keys in its order, exactly the names of `listOfTests`, every value without a test value |
| RunTest.RegisterLastWins | nek5_svn1093/tests/Jenkins_Analysis.py:74-76 | for a repeated name the entry comes from the last row using it |
| RunTest.RegisterKeepsOrder | nek5_svn1093/tests/Jenkins_Analysis.py:74-76 | without repeated names the key order is the order of `listOfTests` |
| RunTest.RegisterFirstPosition | nek5_svn1093/tests/Jenkins_Analysis.py:74-76 | a repeated name keeps the position of its first row: the name first used by row `i` is key number `k`, where `k` is the number of distinct names used before row `i` |
| RunTest.RegisterOrderPrefix | nek5_svn1093/tests/Jenkins_Analysis.py:74-76 | later rows only append keys: the key order of the first `m` rows is a prefix of the final key order |
| RunTest.AddTests | nek5_svn1093/tests/Jenkins_Analysis.py:72-78 | after `addTests` every registered name is missing, nothing is found or passed, and the partition invariant holds |
| RunTest.MethodNames | nek5_svn1093/tests/Jenkins_Analysis.py:81-102 | one method per registered test, pairwise distinct names, each beginning with `test_` |
| RunTest.Run | nek5_svn1093/tests/Jenkins_Analysis.py:147-166 | the generated class is named `NekTest_...`, has one distinct method per registered test, and starts with every registered name missing |
| RunTest.RecordValueNeverRaises | nek5_svn1093/tests/Jenkins_Analysis.py:125-126 | storing the found value under `testVal` never raises `KeyError` and updates only that key |
| RunTest.FieldValue | nek5_svn1093/tests/Jenkins_Analysis.py:119-123 | `float(line.split()[-col])`: no value when `-col` is out of range (`IndexError`); a positive `col` reads the `col`-th token from the right, zero or a negative `col` the token at index `-col` from the left |
| RunTest.VisitName | nek5_svn1093/tests/Jenkins_Analysis.py:118-126 | a line that does not hit the name leaves both tables alone; one that hits it moves the name from missing to found, with the value read from the line |
| RunTest.Snapshot | nek5_svn1093/tests/Jenkins_Analysis.py:115-117 | the names the inner loop visits are exactly the missing ones, each once |
| RunTest.ScanLine | nek5_svn1093/tests/Jenkins_Analysis.py:117-126 | per line: a snapshotted missing name that the line hits moves to found with the line's value; every other entry stays where it was; the tables stay disjoint and their union is unchanged |
| RunTest.ScanLines | nek5_svn1093/tests/Jenkins_Analysis.py:111-126 | over the whole log: a missing test is found with the value of its first hitting line, or stays missing if no line hits; found entries are never overwritten; entries only move from missing to found |
| RunTest.FirstHitIsFirst | nek5_svn1093/tests/Jenkins_Analysis.py:114-126 | the expected value comes from the earliest line that contains the name and yields a number; it is absent exactly when no line does |
| RunTest.SetUp | nek5_svn1093/tests/Jenkins_Analysis.py:104-130 | set-up changes only the tables; with `IOError` not even those; entries only move from missing to found, and found entries are kept |
| RunTest.SetUpKeepsPartition | nek5_svn1093/tests/Jenkins_Analysis.py:111-130 | after set-up, missing and found are still disjoint and together exactly the registered names; missing entries have no value, found ones have one |
| RunTest.SetUpFindsFirstHit | nek5_svn1093/tests/Jenkins_Analysis.py:111-130 | a missing test ends up found with its first hit's value, or missing and unchanged when there is none (always so when the log is missing) |
| RunTest.MissingLogFindsNothing | nek5_svn1093/tests/Jenkins_Analysis.py:127-130 | with `IOError` every registered test stays missing and nothing is found |
| RunTest.ColumnCountsFromRight | nek5_svn1093/tests/Jenkins_Analysis.py:120-121 | on any line of tokens and whitespace (leading blanks, runs of blanks, trailing newline), a positive `col` reads the `col`-th token from the right |
| RunTest.ColumnZeroIsLeftmost | nek5_svn1093/tests/Jenkins_Analysis.py:120-121 | on any such line, `col = 0` reads the leftmost token, because `-0 == 0` |
| RunTest.TooFewTokens | nek5_svn1093/tests/Jenkins_Analysis.py:119-123 | a line with fewer than `col` tokens hits no test (`IndexError` is swallowed) |
| RunTest.TestFunc | nek5_svn1093/tests/Jenkins_Analysis.py:82-99 | a test passes exactly when it was found with a value strictly within tolerance, and only then is it added to `passedTests` |
| RunTest.ToleranceIsStrict | nek5_svn1093/tests/Jenkins_Analysis.py:96-98 | a deviation equal to the tolerance fails and leaves `passedTests` unchanged |
| RunTest.RunTests | nek5_svn1093/tests/Jenkins_Analysis.py:86-99 | after the test methods run, in any order, `passedTests` holds exactly the names that passed, each with its found entry |
| RunTest.TestOutcome | nek5_svn1093/tests/Jenkins_Analysis.py:82-99 | after the scan, a test passes exactly when its first hit in the log holds a value strictly within tolerance |
| RunTest.Verdict | nek5_svn1093/tests/Jenkins_Analysis.py:135-143 | with `passedTests` a subset of `foundTests`, comparing sizes gives `.` exactly when nothing is missing and every found test passed |
| RunTest.RunExample | nek5_svn1093/tests/Jenkins_Analysis.py:60-144 | after the complete run the partition holds, and `passedTests` is a sub-map of `foundTests` holding exactly the tests that pass |
| RunTest.ExampleVerdict | nek5_svn1093/tests/Jenkins_Analysis.py:81-143 | no mark is printed exactly when `listOfTests` is empty; otherwise the example gets `.` exactly when every registered test has a first hit whose value is strictly within tolerance |
| RunTest.MissingLogVerdict | nek5_svn1093/tests/Jenkins_Analysis.py:127-143 | with `IOError` an example with at least one registered test gets `F` |
| Phrase.AddPhraseTest | nek5_svn1093/tests/Jenkins_Analysis.py:198-211 | a fresh phrase fixture has the keyword set, nothing found, no error recorded, and a `NekTest_` class name |
| Phrase.FindPhrase | nek5_svn1093/tests/Jenkins_Analysis.py:242-258 | registers a presence check for the keyword under a `NekTest_` class name |
| Phrase.DFdPhrase | nek5_svn1093/tests/Jenkins_Analysis.py:297-313 | registers an absence check for the keyword under a `NekTest_` class name |
| Phrase.FirstMatch | nek5_svn1093/tests/Jenkins_Analysis.py:218-221 | the index where the loop breaks: no earlier line contains the keyword and the line at that index does |
| Phrase.SearchLog | nek5_svn1093/tests/Jenkins_Analysis.py:216-223 | the loop appends the keyword once if some line contains it and nothing otherwise, and stops reading right after the first such line |
| Phrase.SetUp | nek5_svn1093/tests/Jenkins_Analysis.py:213-223 | set-up records `IOError` exactly when the log is missing and keeps the keyword and class |
| Phrase.SetUpFoundPhrases | nek5_svn1093/tests/Jenkins_Analysis.py:213-223 | from a fresh fixture `foundPhrases` is `[keyword]` when some line contains the keyword and `[]` otherwise, never longer |
| Phrase.TestPasses | nek5_svn1093/tests/Jenkins_Analysis.py:192-196 | while `foundPhrases` holds only the keyword, FindPhrase's `assertIn` passes exactly when the list is non-empty and DFdPhrase's `assertNotIn` (lines 275-279) exactly when it is empty |
| Phrase.TearDown | nek5_svn1093/tests/Jenkins_Analysis.py:225-239 | while `foundPhrases` holds only the keyword, the length test in `tearDownClass` (and DFdPhrase's at lines 281-294) prints `.` exactly when the log opened and the test method passed |
| Phrase.PhraseTestOutcome | nek5_svn1093/tests/Jenkins_Analysis.py:192-196 | the FindPhrase test passes exactly when the keyword is in the log; the DFdPhrase test (lines 275-279) exactly when it is not, a missing log counting as empty |
| Phrase.PhraseVerdict | nek5_svn1093/tests/Jenkins_Analysis.py:225-239 | the printed mark is `.` exactly when the log opened and the keyword is present (FindPhrase) or absent (DFdPhrase, lines 281-294) |
| Phrase.MissingLogPhrase | nek5_svn1093/tests/Jenkins_Analysis.py:281-294 | with `IOError` both fixtures print `F`; the FindPhrase test fails, but the DFdPhrase test method itself passes |

## Left out

- Opening and iterating the log file (lines 113-114, 217-218). The log is
  given as its lines or as `None` for `IOError` on open. An `IOError` raised
  part-way through reading is not modelled.
- `float()`. It is the parameter `parse`, and nothing is assumed about it.
  IEEE-754 rounding, NaN and infinities are not modelled, because the
  comparison `abs(testVal - target) < tolerance` is taken over `real`.
- Console output: every `print`, including the list of missing names in
  `tearDownClass`. The model keeps the `.`/`F` mark and drops the message
  text.
- The unittest machinery: `type()`, `setattr`, `TestLoader`, `TestSuite`,
  and the text or XML runners. The model keeps the generated names, the
  effect of each test method, and the fact that a class without test
  methods gets neither set-up nor tear-down. `RunTest.RunTests` shows that
  the order in which the runner calls the methods does not matter.
- The command-line switches `mpi` and `xml`, and the optional import of
  `xmlrunner` (lines 319-350). This is option handling and reporting.
- The registration data (lines 352-2880). It is configuration: paths,
  keywords, targets, tolerances, columns.
- The summary line (lines 2892-2894). It reads counters of the unittest
  result object.
- Python 3 iteration over a live `keys()` view. Popping from the dictionary
  during that iteration raises an error in Python 3. The model follows the
  list snapshot that the comment at lines 115-116 asks for, which is the
  Python 2 behaviour.
- Unicode. `\w` is taken as ASCII letters, digits and `_`, which is the
  Python 2 `re` behaviour on byte strings. `str.split()` whitespace is
  space plus `\t` to `\r`.
- The `exampleName` and `logfile` class attributes. They only appear in
  messages, so the model does not use them.
- RunTest.ExampleVerdict: the runner's skipping of a class without test
  methods is not derived from the loader. `ExampleMark` returns `None` (no
  mark printed) for an empty `listOfTests` directly.
- TestValsDict.AssignAll: states that the `KeyError` names a forbidden key
  among those assigned, not that it is the first one in order.

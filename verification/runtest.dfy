/** `RunTestClass`: the fixture that checks several numeric values read from
    one example problem's log file.

    `addTests` registers the tests as missing, `setUpClass` scans the log and
    moves each test whose value it finds from `missingTests` to `foundTests`,
    one generated test method per test asserts that the value was found and
    lies within tolerance (recording it in `passedTests`), and
    `tearDownClass` prints the verdict for the example. The log file is given
    as its lines, or `None` when it cannot be opened, and `float()` as the
    partial function `parse`. */
module RunTest {
  import opened Wrappers
  import opened PyText
  import Identifiers
  import TestValsDict
  import opened Report

  // ---------------------------------------------------------------------------
  // Data
  // ---------------------------------------------------------------------------

  /** One row `[testName, target, tolerance, col]` of `listOfTests`; `col`
      counts tokens from the right end of the line. */
  datatype TestSpec = TestSpec(name: string, target: real, tolerance: real, col: int)

  /** A TestVals object as the fixture uses it; `testVal` is `None` until the
      value has been read from the log. */
  datatype Entry = Entry(target: real, tolerance: real, col: int, testVal: Option<real>)

  /** `missingTests` and `foundTests`. */
  datatype Tables = Tables(missing: map<string, Entry>, found: map<string, Entry>)

  /** The ordered dictionary built by `addTests`: its keys in insertion order
      and its values. */
  datatype Registration = Registration(order: seq<string>, tests: map<string, Entry>)

  /** The class attributes of one generated subclass of RunTestClass. */
  datatype Fixture = Fixture(
    exampleName: string,
    order: seq<string>,
    tables: Tables,
    passed: map<string, Entry>)

  datatype TestFailure =
    | NotFound(name: string)             // the `assertIn` on foundTests failed
    | NoValue(name: string)              // `None - target` would raise TypeError
    | OutOfRange(name: string, value: real)  // the `assertLess` failed

  /** A test method's outcome together with `passedTests` after it. */
  datatype TestRun = TestRun(outcome: Outcome<TestFailure>, passed: map<string, Entry>)

  // ---------------------------------------------------------------------------
  // Helpers
  // ---------------------------------------------------------------------------

  predicate Distinct(s: seq<string>) {
    forall i, j :: 0 <= i < j < |s| ==> s[i] != s[j]
  }

  function Abs(x: real): real {
    if x < 0.0 then -x else x
  }

  /** The value of `abs(testVal - target) < tolerance`. */
  predicate InRange(v: real, e: Entry) {
    Abs(v - e.target) < e.tolerance
  }

  /** A TestVals object as `addTests` creates it. */
  function FreshEntry(s: TestSpec): Entry {
    Entry(s.target, s.tolerance, s.col, None)
  }

  /** `specs[i]` is the last row that uses its name. */
  predicate LastOfName(specs: seq<TestSpec>, i: int)
    requires 0 <= i < |specs|
  {
    forall j :: i < j < |specs| ==> specs[j].name != specs[i].name
  }

  /** The names used in `listOfTests`. */
  function Names(specs: seq<TestSpec>): (names: set<string>)
    ensures forall i :: 0 <= i < |specs| ==> specs[i].name in names
    decreases |specs|
  {
    if specs == [] then {}
    else
      var prefix := specs[..|specs| - 1];
      assert forall i :: 0 <= i < |prefix| ==> prefix[i] == specs[i];
      Names(prefix) + {specs[|specs| - 1].name}
  }

  /** Every name in `Names(specs)` is used by some row. */
  lemma {:induction false} NamesAreUsed(specs: seq<TestSpec>, n: string)
    requires n in Names(specs)
    ensures exists i :: 0 <= i < |specs| && specs[i].name == n
    decreases |specs|
  {
    var prefix := specs[..|specs| - 1];
    if n != specs[|specs| - 1].name {
      NamesAreUsed(prefix, n);
      var i :| 0 <= i < |prefix| && prefix[i].name == n;
      assert specs[i] == prefix[i];
    }
  }

  // ---------------------------------------------------------------------------
  // addTests
  // ---------------------------------------------------------------------------

  /** `collections.OrderedDict([(testName, TestVals(...)) for ... in listOfTests])`.
      A name that occurs twice keeps the position of its first occurrence and
      the values of its last. */
  function Register(specs: seq<TestSpec>): (reg: Registration)
    ensures Distinct(reg.order)
    ensures forall n :: n in reg.order <==> n in reg.tests
    ensures reg.tests.Keys == Names(specs)
    ensures forall n :: n in reg.tests ==> reg.tests[n].testVal == None
    decreases |specs|
  {
    if specs == [] then Registration([], map[])
    else
      var prev := Register(specs[..|specs| - 1]);
      var s := specs[|specs| - 1];
      Registration(
        if s.name in prev.tests then prev.order else prev.order + [s.name],
        prev.tests[s.name := FreshEntry(s)])
  }

  /** Every name holds the TestVals built from the last row that uses it. */
  lemma {:induction false} RegisterLastWins(specs: seq<TestSpec>, i: int)
    requires 0 <= i < |specs| && LastOfName(specs, i)
    ensures specs[i].name in Register(specs).tests
    ensures Register(specs).tests[specs[i].name] == FreshEntry(specs[i])
    decreases |specs|
  {
    if i < |specs| - 1 {
      var prefix := specs[..|specs| - 1];
      assert prefix[i] == specs[i];
      assert LastOfName(prefix, i) by {
        forall j | i < j < |prefix|
          ensures prefix[j].name != prefix[i].name
        {
          assert prefix[j] == specs[j];
        }
      }
      RegisterLastWins(prefix, i);
    }
  }

  /** A name no row uses is not a key of the ordered dictionary. */
  lemma {:induction false} UnusedNameNotRegistered(specs: seq<TestSpec>, n: string)
    requires forall i :: 0 <= i < |specs| ==> specs[i].name != n
    ensures n !in Register(specs).tests
  {
    if n in Names(specs) {
      NamesAreUsed(specs, n);
      assert false;
    }
  }

  /** Without repeated names the ordered dictionary lists the names in the
      order of `listOfTests`. */
  lemma {:induction false} RegisterKeepsOrder(specs: seq<TestSpec>)
    requires forall i, j :: 0 <= i < j < |specs| ==> specs[i].name != specs[j].name
    ensures |Register(specs).order| == |specs|
    ensures forall i :: 0 <= i < |specs| ==> Register(specs).order[i] == specs[i].name
    decreases |specs|
  {
    if specs != [] {
      var prefix := specs[..|specs| - 1];
      var last := specs[|specs| - 1];
      RegisterKeepsOrder(prefix);
      var prev := Register(prefix);
      forall k | 0 <= k < |prefix|
        ensures prefix[k].name != last.name
      {
        assert prefix[k] == specs[k];
      }
      UnusedNameNotRegistered(prefix, last.name);
      assert Register(specs).order == prev.order + [last.name];
      forall i | 0 <= i < |specs|
        ensures Register(specs).order[i] == specs[i].name
      {
        if i < |prefix| {
          assert prefix[i] == specs[i];
        }
      }
    }
  }

  /** The ordered dictionary has one key per distinct name. */
  lemma {:induction false} RegisterOrderLength(specs: seq<TestSpec>)
    ensures |Register(specs).order| == |Names(specs)|
    decreases |specs|
  {
    if specs != [] {
      var prefix := specs[..|specs| - 1];
      var n := specs[|specs| - 1].name;
      RegisterOrderLength(prefix);
      assert Names(specs) == Names(prefix) + {n};
      if n !in Names(prefix) {
        assert |Names(prefix) + {n}| == |Names(prefix)| + 1;
      }
    }
  }

  /** One more row appends at most one key. */
  lemma {:induction false} RegisterOrderStep(specs: seq<TestSpec>)
    requires specs != []
    ensures |Register(specs[..|specs| - 1]).order| <= |Register(specs).order|
    ensures Register(specs).order[..|Register(specs[..|specs| - 1]).order|] == Register(specs[..|specs| - 1]).order
  {
  }

  lemma PrefixOfPrefix(a: seq<string>, b: seq<string>, c: seq<string>)
    requires |a| <= |b| <= |c| && b[..|a|] == a && c[..|b|] == b
    ensures c[..|a|] == a
  {
    assert c[..|a|] == c[..|b|][..|a|];
  }

  /** Later rows only append keys: the order built from the first `m` rows
      is a prefix of the final order. */
  lemma {:induction false} RegisterOrderPrefix(specs: seq<TestSpec>, m: nat)
    requires m <= |specs|
    ensures |Register(specs[..m]).order| <= |Register(specs).order|
    ensures Register(specs).order[..|Register(specs[..m]).order|] == Register(specs[..m]).order
    decreases |specs| - m
  {
    if m == |specs| {
      assert specs[..m] == specs;
    } else {
      var prefix := specs[..|specs| - 1];
      assert prefix[..m] == specs[..m];
      RegisterOrderPrefix(prefix, m);
      RegisterOrderStep(specs);
      PrefixOfPrefix(Register(specs[..m]).order, Register(prefix).order, Register(specs).order);
    }
  }

  /** A row with a new name appends that name to the order. */
  lemma {:induction false} RegisterNewName(specs: seq<TestSpec>, i: int)
    requires 0 <= i < |specs|
    requires specs[i].name !in Names(specs[..i])
    ensures Register(specs[..i + 1]).order == Register(specs[..i]).order + [specs[i].name]
  {
    var upto := specs[..i + 1];
    assert upto[..|upto| - 1] == specs[..i];
    assert upto[|upto| - 1] == specs[i];
    assert specs[i].name !in Register(specs[..i]).tests;
  }

  lemma IndexThroughPrefix(all: seq<string>, inner: seq<string>, b: seq<string>, n: string)
    requires |inner| <= |all| && all[..|inner|] == inner && inner == b + [n]
    ensures |b| < |all| && all[|b|] == n
  {
    assert all[..|inner|][|b|] == all[|b|];
  }

  /** A repeated name keeps the position of its first row: the name first used
      by row `i` is key number `k`, where `k` is the number of distinct names
      used before row `i`. */
  lemma {:induction false} RegisterFirstPosition(specs: seq<TestSpec>, i: int)
    requires 0 <= i < |specs|
    requires specs[i].name !in Names(specs[..i])
    ensures |Names(specs[..i])| < |Register(specs).order|
    ensures Register(specs).order[|Names(specs[..i])|] == specs[i].name
  {
    RegisterNewName(specs, i);
    RegisterOrderLength(specs[..i]);
    RegisterOrderPrefix(specs, i + 1);
    IndexThroughPrefix(Register(specs).order, Register(specs[..i + 1]).order,
                       Register(specs[..i]).order, specs[i].name);
  }

  /** `addTests(exampleName, logfile, listOfTests)`: every registered test is
      missing, nothing is found or passed yet. */
  function AddTests(exampleName: string, specs: seq<TestSpec>): (fix: Fixture)
    ensures Partition(fix.order, fix.tables)
    ensures fix.tables.found == map[] && fix.passed == map[]
    ensures forall n :: n in fix.tables.missing <==> n in Names(specs)
  {
    var reg := Register(specs);
    Fixture(exampleName, reg.order, Tables(reg.tests, map[]), map[])
  }

  /** The names of the test methods `addTests` attaches, one per registered
      test in registration order. */
  function MethodNames(order: seq<string>): (names: seq<string>)
    ensures |names| == |order|
    ensures Distinct(names)
    ensures forall i :: 0 <= i < |names| ==> |names[i]| >= 5 && names[i][..5] == "test_"
  {
    var names := seq(|order|, i requires 0 <= i < |order| => Identifiers.TestMethodName(order[i], i));
    assert Distinct(names) by {
      forall i, j | 0 <= i < j < |names|
        ensures names[i] != names[j]
      {
        Identifiers.TestMethodNamesDistinct(order[i], i, order[j], j);
      }
    }
    names
  }

  /** The generated subclass: its name, its test methods and its state. */
  datatype TestClass = TestClass(className: string, methods: seq<string>, fixture: Fixture)

  /** `Run(exampleName, logfile, listOfTests)`: a class named after the
      example with one distinct `test_` method per registered test, and every
      registered test missing. */
  function Run(exampleName: string, specs: seq<TestSpec>): (c: TestClass)
    ensures |c.className| >= 8 && c.className[..8] == "NekTest_"
    ensures Identifiers.WordOnly(c.className) && Identifiers.NoDoubleUnderscore(c.className)
    ensures |c.methods| == |c.fixture.order| && Distinct(c.methods)
    ensures c.fixture.tables.missing.Keys == Names(specs)
    ensures c.fixture.tables.found == map[] && c.fixture.passed == map[]
  {
    var fix := AddTests(exampleName, specs);
    TestClass(Identifiers.ClassName(exampleName), MethodNames(fix.order), fix)
  }

  /** The TestVals dictionary an entry stands for. */
  function AsDict(e: Entry): TestValsDict.Dict {
    TestValsDict.New(
      TestValsDict.PyNumber(e.target),
      TestValsDict.PyNumber(e.tolerance),
      TestValsDict.PyNumber(e.col as real),
      match e.testVal
      case None => TestValsDict.PyNone
      case Some(v) => TestValsDict.PyNumber(v))
  }

  /** Recording the value found in the log, `foundTests[testName]['testVal'] =
      testVal`, uses a permitted key and never raises `KeyError`. */
  lemma RecordValueNeverRaises(e: Entry, v: real)
    ensures TestValsDict.SetItem(AsDict(e), "testVal", TestValsDict.PyNumber(v))
            == Success(AsDict(e.(testVal := Some(v))))
  {
    assert "testVal" in TestValsDict.ValidKeys;
    var d := AsDict(e)["testVal" := TestValsDict.PyNumber(v)];
    var d' := AsDict(e.(testVal := Some(v)));
    assert d.Keys == d'.Keys;
    assert forall k :: k in d ==> d[k] == d'[k];
    assert d == d';
    assert TestValsDict.SetItem(AsDict(e), "testVal", TestValsDict.PyNumber(v)) == Success(d);
  }

  // ---------------------------------------------------------------------------
  // setUpClass
  // ---------------------------------------------------------------------------

  /** What the scan keeps true: every registered name is either missing (with
      no value yet) or found (with its value), never both, and nothing else is
      in either table. */
  ghost predicate Partition(order: seq<string>, t: Tables) {
    && Distinct(order)
    && t.missing.Keys !! t.found.Keys
    && (forall n :: n in order <==> n in t.missing || n in t.found)
    && (forall n :: n in t.missing ==> t.missing[n].testVal.None?)
    && (forall n :: n in t.found ==> t.found[n].testVal.Some?)
  }

  /** `float(line.split()[-col])`, with `None` for the `IndexError` or
      `ValueError` the fixture swallows. */
  function FieldValue(line: string, col: int, parse: string -> Option<real>): (r: Option<real>)
    ensures !(-|Split(line)| < col <= |Split(line)|) ==> r == None
    ensures 0 < col <= |Split(line)| ==> r == parse(Split(line)[|Split(line)| - col])
    ensures -|Split(line)| < col <= 0 ==> r == parse(Split(line)[-col])
  {
    match PyIndex(Split(line), -col)
    case None => None
    case Some(tok) => parse(tok)
  }

  /** The line yields a value for the test: it contains the name and its
      `col`-th token from the right parses as a number. */
  predicate Hit(line: string, name: string, col: int, parse: string -> Option<real>) {
    Contains(line, name) && FieldValue(line, col, parse).Some?
  }

  /** `list(missingTests.keys())`: the missing names in registration order
      (popping from an OrderedDict keeps the order of the rest). */
  function Snapshot(order: seq<string>, missing: map<string, Entry>): (snap: seq<string>)
    ensures forall n :: n in snap <==> n in order && n in missing
    ensures Distinct(order) ==> Distinct(snap)
  {
    if order == [] then []
    else (if order[0] in missing then [order[0]] else []) + Snapshot(order[1..], missing)
  }

  /** The body of the inner loop for one name. */
  function VisitName(line: string, name: string, t: Tables, parse: string -> Option<real>): (r: Tables)
    requires name in t.missing
    ensures !Hit(line, name, t.missing[name].col, parse) ==> r == t
    ensures Hit(line, name, t.missing[name].col, parse) ==>
              && r.missing == t.missing - {name}
              && r.found == t.found[name := t.missing[name].(testVal := FieldValue(line, t.missing[name].col, parse))]
  {
    if Contains(line, name) then
      match FieldValue(line, t.missing[name].col, parse)
      case None => t
      case Some(v) =>
        Tables(t.missing - {name}, t.found[name := t.missing[name].(testVal := Some(v))])
    else t
  }

  /** The inner loop over the snapshot of missing names for one line. Each
      snapshotted name that the line hits moves to the found table with the
      value read from the line; every other entry stays where it was. */
  function ScanLine(line: string, snap: seq<string>, t: Tables, parse: string -> Option<real>): (r: Tables)
    requires Distinct(snap)
    requires forall n :: n in snap ==> n in t.missing
    requires t.missing.Keys !! t.found.Keys
    ensures r.missing.Keys !! r.found.Keys
    ensures r.missing.Keys <= t.missing.Keys
    ensures r.missing.Keys + r.found.Keys == t.missing.Keys + t.found.Keys
    ensures forall n :: n in t.found ==> n in r.found && r.found[n] == t.found[n]
    ensures forall n :: n in t.missing && !(n in snap && Hit(line, n, t.missing[n].col, parse)) ==>
              n in r.missing && r.missing[n] == t.missing[n]
    ensures forall n :: n in t.missing && n in snap && Hit(line, n, t.missing[n].col, parse) ==>
              n in r.found && r.found[n] == t.missing[n].(testVal := FieldValue(line, t.missing[n].col, parse))
    decreases |snap|
  {
    if snap == [] then t
    else
      var t' := VisitName(line, snap[0], t, parse);
      assert forall n :: n in snap[1..] ==> n in snap && n != snap[0];
      ScanLine(line, snap[1..], t', parse)
  }

  /** The value the scan should find for a test: the one read from the first
      line that hits it. */
  function FirstHit(lines: seq<string>, name: string, col: int, parse: string -> Option<real>): Option<real>
    decreases |lines|
  {
    if lines == [] then None
    else if Hit(lines[0], name, col, parse) then FieldValue(lines[0], col, parse)
    else FirstHit(lines[1..], name, col, parse)
  }

  /** `FirstHit` is the value at the earliest hitting line, and there is none
      exactly when no line hits. */
  lemma {:induction false} FirstHitIsFirst(lines: seq<string>, name: string, col: int, parse: string -> Option<real>)
    ensures FirstHit(lines, name, col, parse).None? <==>
              forall i :: 0 <= i < |lines| ==> !Hit(lines[i], name, col, parse)
    ensures FirstHit(lines, name, col, parse).Some? ==>
              exists i :: 0 <= i < |lines| && Hit(lines[i], name, col, parse)
                && FirstHit(lines, name, col, parse) == FieldValue(lines[i], col, parse)
                && forall j :: 0 <= j < i ==> !Hit(lines[j], name, col, parse)
    decreases |lines|
  {
    if lines != [] {
      if Hit(lines[0], name, col, parse) {
        assert FirstHit(lines, name, col, parse) == FieldValue(lines[0], col, parse);
      } else {
        FirstHitIsFirst(lines[1..], name, col, parse);
        assert forall i :: 1 <= i < |lines| ==> lines[i] == lines[1..][i - 1];
        if FirstHit(lines, name, col, parse).Some? {
          var k :| 0 <= k < |lines[1..]| && Hit(lines[1..][k], name, col, parse)
                   && FirstHit(lines, name, col, parse) == FieldValue(lines[1..][k], col, parse)
                   && forall j :: 0 <= j < k ==> !Hit(lines[1..][j], name, col, parse);
          assert Hit(lines[k + 1], name, col, parse);
        }
      }
    }
  }

  /** The outer loop over the lines of the log file. A missing test is found
      at the first line that hits it, with that line's value; a test without
      such a line stays missing; a found test is never touched again. */
  function ScanLines(lines: seq<string>, order: seq<string>, t: Tables, parse: string -> Option<real>): (r: Tables)
    requires Distinct(order)
    requires t.missing.Keys <= set n | n in order
    requires t.missing.Keys !! t.found.Keys
    ensures r.missing.Keys !! r.found.Keys
    ensures r.missing.Keys <= t.missing.Keys
    ensures r.missing.Keys + r.found.Keys == t.missing.Keys + t.found.Keys
    ensures forall n :: n in t.found ==> n in r.found && r.found[n] == t.found[n]
    ensures forall n :: n in t.missing && FirstHit(lines, n, t.missing[n].col, parse).None? ==>
              n in r.missing && r.missing[n] == t.missing[n]
    ensures forall n :: n in t.missing && FirstHit(lines, n, t.missing[n].col, parse).Some? ==>
              n in r.found && r.found[n] == t.missing[n].(testVal := FirstHit(lines, n, t.missing[n].col, parse))
    decreases |lines|
  {
    if lines == [] then t
    else
      var snap := Snapshot(order, t.missing);
      var t' := ScanLine(lines[0], snap, t, parse);
      ScanLines(lines[1..], order, t', parse)
  }

  /** `setUpClass`. When the log cannot be opened (`IOError`) the tables are
      left as they were. */
  function SetUp(fix: Fixture, log: Option<seq<string>>, parse: string -> Option<real>): (r: Fixture)
    requires Partition(fix.order, fix.tables)
    ensures r.exampleName == fix.exampleName && r.order == fix.order && r.passed == fix.passed
    ensures log.None? ==> r.tables == fix.tables
    ensures r.tables.missing.Keys <= fix.tables.missing.Keys
    ensures r.tables.missing.Keys + r.tables.found.Keys == fix.tables.missing.Keys + fix.tables.found.Keys
    ensures forall n :: n in fix.tables.found ==> n in r.tables.found && r.tables.found[n] == fix.tables.found[n]
  {
    match log
    case None => fix
    case Some(lines) => fix.(tables := ScanLines(lines, fix.order, fix.tables, parse))
  }

  /** The scan keeps the partition of the registered names. */
  lemma SetUpKeepsPartition(fix: Fixture, log: Option<seq<string>>, parse: string -> Option<real>)
    requires Partition(fix.order, fix.tables)
    ensures Partition(SetUp(fix, log, parse).order, SetUp(fix, log, parse).tables)
  {
    if log.Some? {
      var t := fix.tables;
      var r := SetUp(fix, log, parse).tables;
      forall n | n in r.found
        ensures r.found[n].testVal.Some?
      {
        if n !in t.found {
          assert n in t.missing;
        }
      }
    }
  }

  /** The result of the scan for a test that is still missing: found with
      the first hit's value, or still missing when no line hits it. */
  lemma SetUpFindsFirstHit(fix: Fixture, log: Option<seq<string>>, parse: string -> Option<real>, n: string)
    requires Partition(fix.order, fix.tables)
    requires n in fix.tables.missing
    ensures FirstHit(LinesOf(log), n, fix.tables.missing[n].col, parse).None? ==>
              && n in SetUp(fix, log, parse).tables.missing
              && n !in SetUp(fix, log, parse).tables.found
              && SetUp(fix, log, parse).tables.missing[n] == fix.tables.missing[n]
    ensures FirstHit(LinesOf(log), n, fix.tables.missing[n].col, parse).Some? ==>
              && n in SetUp(fix, log, parse).tables.found
              && n !in SetUp(fix, log, parse).tables.missing
              && SetUp(fix, log, parse).tables.found[n]
                 == fix.tables.missing[n].(testVal := FirstHit(LinesOf(log), n, fix.tables.missing[n].col, parse))
  {
    SetUpKeepsPartition(fix, log, parse);
  }

  /** A positive `col` picks the `col`-th token counted from the right, on
      any line made of tokens and whitespace: leading blanks, runs of blanks
      between columns and the trailing newline do not matter. */
  lemma ColumnCountsFromRight(lead: string, toks: seq<string>, gaps: seq<string>, col: int,
                              parse: string -> Option<real>)
    requires Blanks(lead) && |gaps| == |toks| && Gaps(gaps)
    requires forall k :: 0 <= k < |toks| ==> IsToken(toks[k])
    requires 1 <= col <= |toks|
    ensures FieldValue(lead + Layout(toks, gaps), col, parse) == parse(toks[|toks| - col])
  {
    SplitLayout(lead, toks, gaps);
  }

  /** `col = 0` picks the leftmost token, since `-0 == 0`. */
  lemma ColumnZeroIsLeftmost(lead: string, toks: seq<string>, gaps: seq<string>,
                             parse: string -> Option<real>)
    requires Blanks(lead) && |gaps| == |toks| && Gaps(gaps)
    requires forall k :: 0 <= k < |toks| ==> IsToken(toks[k])
    requires toks != []
    ensures FieldValue(lead + Layout(toks, gaps), 0, parse) == parse(toks[0])
  {
    SplitLayout(lead, toks, gaps);
  }

  /** A line with fewer than `col` tokens yields nothing (`IndexError`). */
  lemma TooFewTokens(line: string, col: int, parse: string -> Option<real>)
    requires 1 <= col && |Split(line)| < col
    ensures forall name :: !Hit(line, name, col, parse)
  {
  }

  /** The lines of the log; a log that cannot be opened contributes none. */
  function LinesOf(log: Option<seq<string>>): seq<string> {
    match log
    case None => []
    case Some(lines) => lines
  }

  /** When the log cannot be opened nothing is found. */
  lemma MissingLogFindsNothing(exampleName: string, specs: seq<TestSpec>, parse: string -> Option<real>)
    ensures SetUp(AddTests(exampleName, specs), None, parse).tables.found == map[]
    ensures forall n :: n in SetUp(AddTests(exampleName, specs), None, parse).tables.missing <==> n in Names(specs)
  {
  }

  // ---------------------------------------------------------------------------
  // The generated test methods
  // ---------------------------------------------------------------------------

  /** The test passes: the value was found and lies strictly within tolerance. */
  predicate Passes(found: map<string, Entry>, name: string) {
    name in found && found[name].testVal.Some? && InRange(found[name].testVal.value, found[name])
  }

  /** `testFunc` for one test name. */
  function TestFunc(name: string, found: map<string, Entry>, passed: map<string, Entry>): (r: TestRun)
    ensures r.outcome.Pass? <==> Passes(found, name)
    ensures r.passed == if Passes(found, name) then passed[name := found[name]] else passed
  {
    if name !in found then TestRun(Fail(NotFound(name)), passed)
    else
      match found[name].testVal
      case None => TestRun(Fail(NoValue(name)), passed)
      case Some(v) =>
        if InRange(v, found[name]) then TestRun(Pass, passed[name := found[name]])
        else TestRun(Fail(OutOfRange(name, v)), passed)
  }

  /** A deviation equal to the tolerance fails. */
  lemma ToleranceIsStrict(name: string, found: map<string, Entry>, passed: map<string, Entry>)
    requires name in found && found[name].testVal.Some?
    requires Abs(found[name].testVal.value - found[name].target) == found[name].tolerance
    ensures TestFunc(name, found, passed).outcome.Fail?
    ensures TestFunc(name, found, passed).passed == passed
  {
  }

  /** The test methods for `names`, run one after the other. A name ends up in
      `passedTests` exactly when it passed, with its found entry; the order in
      which the test runner calls the methods does not matter. */
  function RunTests(names: seq<string>, found: map<string, Entry>, passed: map<string, Entry>): (r: map<string, Entry>)
    ensures forall n :: n in r <==> n in passed || (n in names && Passes(found, n))
    ensures forall n :: n in names && Passes(found, n) ==> r[n] == found[n]
    ensures forall n :: n in passed && !(n in names && Passes(found, n)) ==> r[n] == passed[n]
    decreases |names|
  {
    if names == [] then passed
    else
      var r := RunTests(names[1..], found, TestFunc(names[0], found, passed).passed);
      assert forall n :: n in names <==> n == names[0] || n in names[1..];
      r
  }

  /** The log holds a value for the test, at its first hit, strictly within
      tolerance of the target. */
  predicate FirstHitInRange(lines: seq<string>, n: string, e: Entry, parse: string -> Option<real>) {
    var v := FirstHit(lines, n, e.col, parse);
    v.Some? && InRange(v.value, e)
  }

  /** Each test's own outcome after the scan: it passes exactly when its first
      hit in the log holds a value strictly within tolerance of the target. */
  lemma TestOutcome(fix: Fixture, log: Option<seq<string>>, parse: string -> Option<real>,
                    n: string, passed: map<string, Entry>)
    requires Partition(fix.order, fix.tables)
    requires n in fix.tables.missing
    ensures TestFunc(n, SetUp(fix, log, parse).tables.found, passed).outcome.Pass? ==
              FirstHitInRange(LinesOf(log), n, fix.tables.missing[n], parse)
  {
    var e := fix.tables.missing[n];
    var found := SetUp(fix, log, parse).tables.found;
    var v := FirstHit(LinesOf(log), n, e.col, parse);
    SetUpFindsFirstHit(fix, log, parse, n);
    if v.Some? {
      assert found[n] == e.(testVal := v);
      assert InRange(v.value, found[n]) == InRange(v.value, e);
    }
  }

  // ---------------------------------------------------------------------------
  // tearDownClass
  // ---------------------------------------------------------------------------

  /** Between a set and a superset, the sizes tell whether they are equal. */
  lemma SizeDecidesSubset(a: set<string>, b: set<string>)
    ensures a <= b ==> (|a| < |b| <==> a < b)
  {
    if a < b {
      assert !(b <= a);
      var x :| x in b && x !in a;
      assert b == a + (b - a);
      assert |b - a| >= 1 by {
        assert {x} <= b - a;
      }
    }
  }

  lemma EmptyMapSize(m: map<string, Entry>)
    ensures |m| == 0 <==> m.Keys == {}
  {
    if m.Keys != {} {
      var n :| n in m.Keys;
      assert |m.Keys| > 0;
    }
  }

  /** The mark `tearDownClass` prints. With `passedTests` a subset of
      `foundTests`, comparing their sizes decides whether every found test
      passed, so the example gets `.` exactly when nothing is missing and
      every found test passed. */
  function Verdict(t: Tables, passed: map<string, Entry>): (m: Mark)
    ensures passed.Keys <= t.found.Keys ==>
              (m == Dot <==> t.missing.Keys == {} && passed.Keys == t.found.Keys)
  {
    SizeDecidesSubset(passed.Keys, t.found.Keys);
    EmptyMapSize(t.missing);
    if |passed| < |t.found| || |t.missing| > 0 then F else Dot
  }

  /** The whole life of one example: registration, set-up, every test method,
      tear-down. */
  function RunExample(exampleName: string, specs: seq<TestSpec>, log: Option<seq<string>>,
                      parse: string -> Option<real>): (fix: Fixture)
    ensures Partition(fix.order, fix.tables)
    ensures forall n :: n in fix.passed ==> n in fix.tables.found && fix.passed[n] == fix.tables.found[n]
    ensures forall n :: n in fix.passed <==> Passes(fix.tables.found, n)
  {
    var fix0 := AddTests(exampleName, specs);
    SetUpKeepsPartition(fix0, log, parse);
    var fix1 := SetUp(fix0, log, parse);
    fix1.(passed := RunTests(fix1.order, fix1.tables.found, fix1.passed))
  }

  /** The mark `tearDownClass` prints after registration, set-up and every
      test method. An empty `listOfTests` attaches no test method, and the
      test runner runs neither `setUpClass` nor `tearDownClass` of a class
      without tests: nothing is printed (`None`). */
  function ExampleMark(exampleName: string, specs: seq<TestSpec>, log: Option<seq<string>>,
                       parse: string -> Option<real>): Option<Mark>
  {
    if specs == [] then None
    else
      var fix := RunExample(exampleName, specs, log, parse);
      Some(Verdict(fix.tables, fix.passed))
  }

  /** What the complete run records for one registered test. */
  lemma RunExampleForName(exampleName: string, specs: seq<TestSpec>, log: Option<seq<string>>,
                          parse: string -> Option<real>, n: string)
    requires n in Register(specs).tests
    ensures n in RunExample(exampleName, specs, log, parse).tables.missing <==>
              FirstHit(LinesOf(log), n, Register(specs).tests[n].col, parse).None?
    ensures n in RunExample(exampleName, specs, log, parse).passed <==>
              FirstHitInRange(LinesOf(log), n, Register(specs).tests[n], parse)
  {
    var fix0 := AddTests(exampleName, specs);
    SetUpFindsFirstHit(fix0, log, parse, n);
    TestOutcome(fix0, log, parse, n, map[]);
  }

  /** The verdict from the per-test facts: with every registered name either
      missing or found, and exactly the `good` ones passed (none of them
      missing), the example gets `.` exactly when every registered name is
      good. */
  lemma VerdictFromTests(t: Tables, passed: map<string, Entry>, registered: set<string>, good: set<string>)
    requires passed.Keys <= t.found.Keys
    requires t.missing.Keys + t.found.Keys == registered
    requires forall n :: n in registered ==> (n in passed <==> n in good)
    requires forall n :: n in good ==> n !in t.missing
    ensures Verdict(t, passed) == Dot <==> registered <= good
  {
    if registered <= good {
      assert t.missing.Keys == {};
    }
  }

  /** The registered tests whose first hit holds a value within tolerance. */
  function GoodNames(specs: seq<TestSpec>, log: Option<seq<string>>, parse: string -> Option<real>): set<string> {
    var reg := Register(specs).tests;
    set n | n in reg && FirstHitInRange(LinesOf(log), n, reg[n], parse)
  }

  lemma {:induction false} MarkFromGoodNames(exampleName: string, specs: seq<TestSpec>,
                          log: Option<seq<string>>, parse: string -> Option<real>)
    requires specs != []
    ensures ExampleMark(exampleName, specs, log, parse) == Some(Dot) <==>
              Register(specs).tests.Keys <= GoodNames(specs, log, parse)
  {
    var fix := RunExample(exampleName, specs, log, parse);
    var reg := Register(specs).tests;
    var t := fix.tables;
    var good := GoodNames(specs, log, parse);
    assert t.missing.Keys + t.found.Keys == reg.Keys;
    forall n | n in reg
      ensures n in t.missing <==> FirstHit(LinesOf(log), n, reg[n].col, parse).None?
      ensures n in fix.passed <==> n in good
    {
      RunExampleForName(exampleName, specs, log, parse, n);
    }
    assert forall n :: n in good ==> n !in t.missing;
    VerdictFromTests(t, fix.passed, reg.Keys, good);
    assert ExampleMark(exampleName, specs, log, parse) == Some(Verdict(t, fix.passed));
  }

  /** An example with at least one registered test is marked `.` exactly when
      every registered test has a hit in the log whose value lies strictly
      within tolerance; an example without tests prints no mark. */
  lemma ExampleVerdict(exampleName: string, specs: seq<TestSpec>,
                       log: Option<seq<string>>, parse: string -> Option<real>)
    ensures ExampleMark(exampleName, specs, log, parse).None? <==> specs == []
    ensures ExampleMark(exampleName, specs, log, parse) == Some(Dot) <==>
              specs != [] &&
              forall n :: n in Register(specs).tests ==>
                FirstHitInRange(LinesOf(log), n, Register(specs).tests[n], parse)
  {
    if specs != [] {
      MarkFromGoodNames(exampleName, specs, log, parse);
      var reg := Register(specs).tests;
      var good := GoodNames(specs, log, parse);
      if reg.Keys <= good {
        forall n | n in reg
          ensures FirstHitInRange(LinesOf(log), n, reg[n], parse)
        {
          assert n in good;
        }
      } else {
        var n :| n in reg.Keys && n !in good;
        assert !FirstHitInRange(LinesOf(log), n, reg[n], parse);
      }
    }
  }

  /** A log that cannot be opened fails every example that has a registered
      test. */
  lemma MissingLogVerdict(exampleName: string, specs: seq<TestSpec>, parse: string -> Option<real>)
    ensures specs != [] ==> ExampleMark(exampleName, specs, None, parse) == Some(F)
  {
    if specs != [] {
      ExampleVerdict(exampleName, specs, None, parse);
      assert specs[0].name in Names(specs);
    }
  }
}

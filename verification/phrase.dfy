/** `FindPhraseClass` and `DFdPhraseClass`: fixtures that look for one
    keyphrase in an example problem's log file, and pass when it is present
    (FindPhrase) or absent (DFdPhrase). The log file is given as its lines, or
    `None` when opening it raises `IOError`. */
module Phrase {
  import opened Wrappers
  import opened PyText
  import Identifiers
  import opened Report

  /** Which of the two fixtures a generated class derives from. */
  datatype Kind = Find | DFd

  /** The class attributes of one generated phrase fixture. */
  datatype PhraseFixture = PhraseFixture(
    kind: Kind,
    className: string,
    exampleName: string,
    keyword: string,
    foundPhrases: seq<string>,
    raisedIOError: bool)

  /** `FindPhrase(exampleName, logfile, keyword)` and `DFdPhrase(...)`: a new
      class named after the example, with the keyword set, nothing found yet
      and no error recorded. */
  function AddPhraseTest(kind: Kind, exampleName: string, keyword: string): (fix: PhraseFixture)
    ensures |fix.className| >= 8 && fix.className[..8] == "NekTest_"
    ensures Identifiers.WordOnly(fix.className) && Identifiers.NoDoubleUnderscore(fix.className)
    ensures fix.kind == kind && fix.keyword == keyword
    ensures fix.foundPhrases == [] && !fix.raisedIOError
  {
    PhraseFixture(kind, Identifiers.ClassName(exampleName), exampleName, keyword, [], false)
  }

  /** `FindPhrase`. */
  function FindPhrase(exampleName: string, keyword: string): (fix: PhraseFixture)
    ensures fix.kind == Find && fix.keyword == keyword
    ensures |fix.className| >= 8 && fix.className[..8] == "NekTest_"
  {
    AddPhraseTest(Find, exampleName, keyword)
  }

  /** `DFdPhrase`. */
  function DFdPhrase(exampleName: string, keyword: string): (fix: PhraseFixture)
    ensures fix.kind == DFd && fix.keyword == keyword
    ensures |fix.className| >= 8 && fix.className[..8] == "NekTest_"
  {
    AddPhraseTest(DFd, exampleName, keyword)
  }

  // ---------------------------------------------------------------------------
  // setUpClass
  // ---------------------------------------------------------------------------

  /** Some line of the log contains the keyword. */
  predicate InLog(lines: seq<string>, keyword: string) {
    exists i :: 0 <= i < |lines| && Contains(lines[i], keyword)
  }

  /** The index of the first line containing the keyword, or `|lines|` when
      there is none. */
  function FirstMatch(lines: seq<string>, keyword: string): (k: nat)
    ensures k <= |lines|
    ensures forall i :: 0 <= i < k ==> !Contains(lines[i], keyword)
    ensures k < |lines| ==> Contains(lines[k], keyword)
    decreases |lines|
  {
    if lines == [] || Contains(lines[0], keyword) then 0
    else
      var k := FirstMatch(lines[1..], keyword);
      assert forall i :: 1 <= i < 1 + k ==> lines[i] == lines[1..][i - 1];
      1 + k
  }

  /** The `for line in fd: if keyword in line: append; break` loop: it appends
      the keyword once and stops reading at the first line that contains it. */
  method SearchLog(lines: seq<string>, keyword: string) returns (found: seq<string>, read: nat)
    ensures found == (if InLog(lines, keyword) then [keyword] else [])
    ensures read <= |lines|
    ensures InLog(lines, keyword) ==> read == FirstMatch(lines, keyword) + 1
    ensures !InLog(lines, keyword) ==> read == |lines|
  {
    found := [];
    read := 0;
    while read < |lines|
      invariant read <= |lines|
      invariant found == []
      invariant forall i :: 0 <= i < read ==> !Contains(lines[i], keyword)
    {
      var line := lines[read];
      read := read + 1;
      if Contains(line, keyword) {
        found := found + [keyword];
        assert InLog(lines, keyword);
        assert FirstMatch(lines, keyword) == read - 1;
        return;
      }
    }
  }

  /** `setUpClass`. An `IOError` is recorded; otherwise the keyword is
      appended to `foundPhrases` when some line contains it. */
  function SetUp(fix: PhraseFixture, log: Option<seq<string>>): (r: PhraseFixture)
    ensures r.kind == fix.kind && r.keyword == fix.keyword && r.className == fix.className
    ensures r.raisedIOError <==> fix.raisedIOError || log.None?
  {
    match log
    case None => fix.(raisedIOError := true)
    case Some(lines) =>
      var k := FirstMatch(lines, fix.keyword);
      fix.(foundPhrases := fix.foundPhrases + if k < |lines| then [fix.keyword] else [])
  }

  /** After set-up of a fresh fixture, `foundPhrases` is `[keyword]` when some
      line contains the keyword and `[]` otherwise (always `[]` when the log
      cannot be opened): never more than one entry. */
  lemma SetUpFoundPhrases(kind: Kind, exampleName: string, keyword: string, log: Option<seq<string>>)
    ensures SetUp(AddPhraseTest(kind, exampleName, keyword), log).foundPhrases ==
              if log.Some? && InLog(log.value, keyword) then [keyword] else []
  {
    if log.Some? {
      var k := FirstMatch(log.value, keyword);
      if InLog(log.value, keyword) {
        var i :| 0 <= i < |log.value| && Contains(log.value[i], keyword);
        assert k <= i;
      }
    }
  }

  // ---------------------------------------------------------------------------
  // test_findPhrase and tearDownClass
  // ---------------------------------------------------------------------------

  /** `foundPhrases` holds nothing but the keyword, as set-up leaves it. */
  predicate OnlyKeyword(fix: PhraseFixture) {
    forall k :: 0 <= k < |fix.foundPhrases| ==> fix.foundPhrases[k] == fix.keyword
  }

  /** `test_findPhrase`: `assertIn(keyword, foundPhrases)` for FindPhrase,
      `assertNotIn(keyword, foundPhrases)` for DFdPhrase. */
  predicate TestPasses(fix: PhraseFixture)
    ensures OnlyKeyword(fix) ==>
              (TestPasses(fix) <==> ((fix.kind == Find) == (|fix.foundPhrases| > 0)))
  {
    assert |fix.foundPhrases| > 0 ==> fix.foundPhrases[0] in fix.foundPhrases;
    match fix.kind
    case Find => fix.keyword in fix.foundPhrases
    case DFd => fix.keyword !in fix.foundPhrases
  }

  /** The mark `tearDownClass` prints. It tests the length of `foundPhrases`
      rather than repeating the test method's assertion, but while
      `foundPhrases` holds only the keyword the two agree: the mark is `.`
      exactly when the log opened and the test method passed. */
  function TearDown(fix: PhraseFixture): (m: Mark)
    ensures OnlyKeyword(fix) ==> (m == Dot <==> !fix.raisedIOError && TestPasses(fix))
  {
    if fix.raisedIOError then F
    else match fix.kind
      case Find => if |fix.foundPhrases| == 0 then F else Dot
      case DFd => if |fix.foundPhrases| > 0 then F else Dot
  }

  /** The mark for the whole life of one phrase example. */
  function PhraseMark(kind: Kind, exampleName: string, keyword: string, log: Option<seq<string>>): Mark {
    TearDown(SetUp(AddPhraseTest(kind, exampleName, keyword), log))
  }

  /** The test method after set-up: FindPhrase's passes exactly when some line
      contains the keyword, DFdPhrase's exactly when none does. A log that
      cannot be opened counts as containing nothing. */
  lemma PhraseTestOutcome(kind: Kind, exampleName: string, keyword: string, log: Option<seq<string>>)
    ensures TestPasses(SetUp(AddPhraseTest(kind, exampleName, keyword), log)) <==>
              ((kind == Find) == (log.Some? && InLog(log.value, keyword)))
  {
    SetUpFoundPhrases(kind, exampleName, keyword, log);
  }

  /** The printed mark: `.` exactly when the log could be opened and the
      keyword is present (FindPhrase) or absent (DFdPhrase). */
  lemma PhraseVerdict(kind: Kind, exampleName: string, keyword: string, log: Option<seq<string>>)
    ensures PhraseMark(kind, exampleName, keyword, log) == Dot <==>
              log.Some? && ((kind == Find) == InLog(log.value, keyword))
  {
    SetUpFoundPhrases(kind, exampleName, keyword, log);
  }

  /** With a missing log both fixtures print `F`, although DFdPhrase's test
      method itself passes: the list of found phrases stays empty. */
  lemma MissingLogPhrase(exampleName: string, keyword: string)
    ensures PhraseMark(Find, exampleName, keyword, None) == F
    ensures PhraseMark(DFd, exampleName, keyword, None) == F
    ensures !TestPasses(SetUp(AddPhraseTest(Find, exampleName, keyword), None))
    ensures TestPasses(SetUp(AddPhraseTest(DFd, exampleName, keyword), None))
  {
  }
}

/** Python identifiers derived from free text: `re.sub(r'[_\W]+', '_', text)`
    turns example names into unittest class names and test names into
    test-method names. Word characters are the ASCII letters and digits plus
    `_`; the class `[_\W]` is therefore every character that is not an ASCII
    letter or digit. */
module Identifiers {
  import opened PyText

  predicate IsAlnum(c: char) {
    'a' <= c <= 'z' || 'A' <= c <= 'Z' || IsDigit(c)
  }

  /** `\w` */
  predicate IsWordChar(c: char) {
    IsAlnum(c) || c == '_'
  }

  function Last(s: string): char
    requires s != []
  {
    s[|s| - 1]
  }

  predicate AllAlnum(s: string) {
    forall k :: 0 <= k < |s| ==> IsAlnum(s[k])
  }

  /** Only word characters. */
  predicate WordOnly(r: string) {
    forall k :: 0 <= k < |r| ==> IsWordChar(r[k])
  }

  /** No two consecutive underscores. */
  predicate NoDoubleUnderscore(r: string) {
    forall k :: 1 <= k < |r| ==> !(r[k - 1] == '_' && r[k] == '_')
  }

  /** `re.sub(r'[_\W]+', '_', s)`: every maximal run of characters that are not
      letters or digits becomes one underscore. Defined by the last character,
      the way the regular-expression engine meets it scanning left to right:
      a letter or digit is copied, the first character of a run emits `_`, and
      the rest of the run emits nothing. */
  function Sanitize(s: string): (r: string)
    ensures WordOnly(r)
    ensures NoDoubleUnderscore(r)
    ensures |r| <= |s|
    ensures r == [] <==> s == []
    ensures s != [] ==> Last(r) == if IsAlnum(Last(s)) then Last(s) else '_'
    decreases |s|
  {
    if s == [] then []
    else
      var p := Sanitize(s[..|s| - 1]);
      var c := Last(s);
      if IsAlnum(c) then p + [c]
      else if |s| >= 2 && !IsAlnum(s[|s| - 2]) then p
      else p + "_"
  }

  /** The same substitution as a left-to-right scan that remembers whether the
      previous character already belonged to a run. */
  method SubstituteRuns(s: string) returns (r: string)
    ensures r == Sanitize(s)
  {
    r := [];
    var i := 0;
    while i < |s|
      invariant 0 <= i <= |s|
      invariant r == Sanitize(s[..i])
    {
      assert s[..i + 1][..i] == s[..i];
      if IsAlnum(s[i]) {
        r := r + [s[i]];
      } else if i == 0 || IsAlnum(s[i - 1]) {
        r := r + "_";
      }
      i := i + 1;
    }
    assert s[..i] == s;
  }

  lemma {:induction false} SanitizeAllAlnum(s: string)
    requires AllAlnum(s)
    ensures Sanitize(s) == s
    decreases |s|
  {
    if s != [] {
      SanitizeAllAlnum(s[..|s| - 1]);
    }
  }

  /** Letters and digits appended after any prefix are copied through. */
  lemma {:induction false} SanitizeAppendAlnum(p: string, d: string)
    requires AllAlnum(d)
    ensures Sanitize(p + d) == Sanitize(p) + d
    decreases |d|
  {
    if d == [] {
      assert p + d == p;
    } else {
      var d' := d[..|d| - 1];
      assert (p + d)[..|p + d| - 1] == p + d';
      SanitizeAppendAlnum(p, d');
    }
  }

  /** One more character at the end, as the definition sees it. */
  lemma SanitizeSnoc(p: string, c: char)
    ensures Sanitize(p + [c]) ==
      if IsAlnum(c) then Sanitize(p) + [c]
      else if p != [] && !IsAlnum(Last(p)) then Sanitize(p)
      else Sanitize(p) + "_"
  {
    var s := p + [c];
    assert s[..|s| - 1] == p;
    if p != [] {
      assert s[|s| - 2] == Last(p);
    }
  }

  /** Sanitising is idempotent. */
  lemma {:induction false} SanitizeIdempotent(s: string)
    ensures Sanitize(Sanitize(s)) == Sanitize(s)
    decreases |s|
  {
    if s != [] {
      var s' := s[..|s| - 1];
      var c := Last(s);
      assert s == s' + [c];
      var p := Sanitize(s');
      SanitizeIdempotent(s');
      SanitizeSnoc(s', c);
      if IsAlnum(c) {
        SanitizeSnoc(p, c);
      } else if s' != [] && !IsAlnum(Last(s')) {
      } else {
        SanitizeSnoc(p, '_');
      }
    }
  }

  /** A sanitised prefix is a prefix of the sanitised whole. */
  lemma {:induction false} SanitizeExtends(a: string, b: string)
    ensures Sanitize(a) <= Sanitize(a + b)
    decreases |b|
  {
    if b == [] {
      assert a + b == a;
    } else {
      var b' := b[..|b| - 1];
      assert (a + b)[..|a + b| - 1] == a + b';
      SanitizeExtends(a, b');
    }
  }

  /** Where a letter or digit separates the two halves, the halves are
      sanitised independently. */
  lemma {:induction false} SanitizeConcat(x: string, y: string)
    requires y == [] || IsAlnum(y[0]) || x == [] || IsAlnum(Last(x))
    ensures Sanitize(x + y) == Sanitize(x) + Sanitize(y)
    decreases |y|
  {
    if y == [] {
      assert x + y == x;
    } else if x == [] {
      assert x + y == y;
    } else {
      var y' := y[..|y| - 1];
      assert (x + y)[..|x + y| - 1] == x + y';
      if y' == [] {
        assert (x + y)[|x + y| - 2] == Last(x);
      } else {
        assert (x + y)[|x + y| - 2] == y[|y| - 2];
      }
      SanitizeConcat(x, y');
    }
  }

  /** A run of characters that are neither letters nor digits becomes a single
      underscore. */
  lemma {:induction false} SanitizeRun(run: string)
    requires run != []
    requires forall k :: 0 <= k < |run| ==> !IsAlnum(run[k])
    ensures Sanitize(run) == "_"
    decreases |run|
  {
    if |run| > 1 {
      SanitizeRun(run[..|run| - 1]);
    }
  }

  /** The substitution at the level of one run: a maximal run between two
      letters or digits (or the ends of the string) collapses to one `_` and
      the text around it is untouched by the run. */
  lemma SanitizeMaximalRun(a: string, run: string, b: string)
    requires a == [] || IsAlnum(Last(a))
    requires run != []
    requires forall k :: 0 <= k < |run| ==> !IsAlnum(run[k])
    requires b == [] || IsAlnum(b[0])
    ensures Sanitize(a + run + b) == Sanitize(a) + "_" + Sanitize(b)
  {
    SanitizeRun(run);
    SanitizeConcat(a, run);
    SanitizeConcat(a + run, b);
  }

  /** The letters and digits of a string, in order. */
  function Alnums(s: string): string
    decreases |s|
  {
    if s == [] then []
    else Alnums(s[..|s| - 1]) + (if IsAlnum(Last(s)) then [Last(s)] else [])
  }

  /** Sanitising keeps every letter and digit, in order, and adds none. */
  lemma {:induction false} SanitizeKeepsAlnums(s: string)
    ensures Alnums(Sanitize(s)) == Alnums(s)
    decreases |s|
  {
    if s != [] {
      var p := Sanitize(s[..|s| - 1]);
      SanitizeKeepsAlnums(s[..|s| - 1]);
      assert (p + [Last(s)])[..|p|] == p;
      assert (p + "_")[..|p|] == p;
    }
  }

  // ---------------------------------------------------------------------------
  // Names of the generated classes and test methods
  // ---------------------------------------------------------------------------

  /** `re.sub(r'[_\W]+', '_', 'NekTest_%s' % exampleName)`, the class name used
      by `Run`, `FindPhrase` and `DFdPhrase`. */
  function ClassName(exampleName: string): (r: string)
    ensures |r| >= 8 && r[..8] == "NekTest_"
    ensures WordOnly(r) && NoDoubleUnderscore(r)
  {
    SanitizePrefix("NekTest_", exampleName);
    Sanitize("NekTest_" + exampleName)
  }

  /** `re.sub(r'[_\W]+', '_', 'test_%s_%02d' % (testName, i))`, the name of the
      test method added for the i-th registered test. */
  function TestMethodName(testName: string, i: nat): (r: string)
    ensures |r| >= 5 && r[..5] == "test_"
    ensures WordOnly(r) && NoDoubleUnderscore(r)
  {
    SanitizePrefix("test_", testName + "_" + Pad2(i));
    assert "test_" + (testName + "_" + Pad2(i)) == "test_" + testName + "_" + Pad2(i);
    Sanitize("test_" + testName + "_" + Pad2(i))
  }

  /** A word followed by an underscore survives sanitising at the front. */
  lemma {:induction false} SanitizePrefix(head: string, rest: string)
    requires |head| >= 2 && Last(head) == '_' && AllAlnum(head[..|head| - 1])
    ensures |Sanitize(head + rest)| >= |head|
    ensures Sanitize(head + rest)[..|head|] == head
  {
    var word := head[..|head| - 1];
    SanitizeAllAlnum(word);
    assert head == word + ['_'];
    assert IsAlnum(Last(word)) by {
      assert Last(word) == word[|word| - 1];
    }
    SanitizeSnoc(word, '_');
    assert Sanitize(head) == head;
    SanitizeExtends(head, rest);
  }

  /** The longest suffix of `s` made of digits. */
  function DigitSuffix(s: string): (d: string)
    ensures forall k :: 0 <= k < |d| ==> IsDigit(d[k])
    decreases |s|
  {
    if s == [] || !IsDigit(Last(s)) then [] else DigitSuffix(s[..|s| - 1]) + [Last(s)]
  }

  lemma {:induction false} DigitSuffixOfAppend(x: string, d: string)
    requires x != [] && !IsDigit(Last(x))
    requires forall k :: 0 <= k < |d| ==> IsDigit(d[k])
    ensures DigitSuffix(x + d) == d
    decreases |d|
  {
    if d == [] {
      assert x + d == x;
    } else {
      var d' := d[..|d| - 1];
      assert (x + d)[..|x + d| - 1] == x + d';
      DigitSuffixOfAppend(x, d');
    }
  }

  /** The registration index can be read back from the method name, so the
      methods added for different tests never overwrite each other. */
  lemma TestMethodIndexRoundTrip(testName: string, i: nat)
    ensures ParseDecimal(DigitSuffix(TestMethodName(testName, i))) == i
  {
    var x := "test_" + testName + "_";
    var d := Pad2(i);
    assert AllAlnum(d);
    SanitizeAppendAlnum(x, d);
    assert Sanitize(x + d) == TestMethodName(testName, i);
    DigitSuffixOfAppend(Sanitize(x), d);
    Pad2RoundTrip(i);
  }

  lemma TestMethodNamesDistinct(a: string, i: nat, b: string, j: nat)
    requires i != j
    ensures TestMethodName(a, i) != TestMethodName(b, j)
  {
    TestMethodIndexRoundTrip(a, i);
    TestMethodIndexRoundTrip(b, j);
  }
}

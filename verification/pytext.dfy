/** The few Python string built-ins the test driver relies on: `sub in s`,
    `s.split()`, indexing a list with a possibly negative index, and the
    `%02d` conversion. Characters are taken to be ASCII. */
module PyText {
  import opened Wrappers

  /** Whitespace as `str.split()` sees it: space, tab, line feed, vertical tab,
      form feed and carriage return. */
  predicate IsSpace(c: char) {
    c == ' ' || '\t' <= c <= '\r'
  }

  predicate NoSpace(w: string) {
    forall k :: 0 <= k < |w| ==> !IsSpace(w[k])
  }

  /** A string of whitespace only. */
  predicate Blanks(s: string) {
    forall k :: 0 <= k < |s| ==> IsSpace(s[k])
  }

  /** What `str.split()` can produce: a non-empty run without whitespace. */
  predicate IsToken(w: string) {
    w != [] && NoSpace(w)
  }

  // ---------------------------------------------------------------------------
  // Substring test: Python's `sub in s`
  // ---------------------------------------------------------------------------

  predicate OccursAt(s: string, sub: string, i: int) {
    0 <= i && i + |sub| <= |s| && s[i..i + |sub|] == sub
  }

  /** `sub in s`. The empty string occurs in every string. */
  predicate Contains(s: string, sub: string)
    ensures Contains(s, sub) ==> |sub| <= |s|
    ensures |sub| == |s| ==> (Contains(s, sub) <==> sub == s)
  {
    assert |sub| == |s| ==> OccursAt(s, sub, 0) == (sub == s) by {
      assert s[0..|s|] == s;
    }
    exists i | 0 <= i <= |s| - |sub| :: OccursAt(s, sub, i)
  }

  lemma EmptyOccursEverywhere(s: string)
    ensures Contains(s, "")
  {
    assert OccursAt(s, "", 0);
  }

  // ---------------------------------------------------------------------------
  // Python's `s.split()` with no separator
  // ---------------------------------------------------------------------------

  /** The token read so far, as a list: nothing when it is empty. */
  function Flush(cur: string): seq<string> {
    if cur == [] then [] else [cur]
  }

  lemma NoSpaceSnoc(cur: string, c: char)
    requires NoSpace(cur) && !IsSpace(c)
    ensures NoSpace(cur + [c])
  {
    assert forall k :: 0 <= k < |cur| ==> (cur + [c])[k] == cur[k];
  }

  /** The scan behind `s.split()`, with `cur` the token read so far: a
      whitespace character ends the current token, any other character
      extends it, and the end of the line ends it too. */
  function SplitFrom(s: string, cur: string): (toks: seq<string>)
    requires NoSpace(cur)
    ensures forall k :: 0 <= k < |toks| ==> IsToken(toks[k])
    decreases |s|
  {
    if s == [] then Flush(cur)
    else if IsSpace(s[0]) then Flush(cur) + SplitFrom(s[1..], [])
    else
      NoSpaceSnoc(cur, s[0]);
      SplitFrom(s[1..], cur + [s[0]])
  }

  /** `s.split()`: the maximal runs of non-whitespace characters, left to
      right; runs of whitespace of any length separate them and produce no
      empty token. */
  function Split(s: string): (toks: seq<string>)
    ensures forall k :: 0 <= k < |toks| ==> IsToken(toks[k])
  {
    SplitFrom(s, [])
  }

  /** `" ".join(toks)`. */
  function JoinSpace(toks: seq<string>): string {
    if |toks| == 0 then ""
    else if |toks| == 1 then toks[0]
    else toks[0] + " " + JoinSpace(toks[1..])
  }

  /** The characters of `s` that are not whitespace, in order. */
  function NonSpace(s: string): string {
    if s == [] then []
    else (if IsSpace(s[0]) then [] else [s[0]]) + NonSpace(s[1..])
  }

  function Concat(toks: seq<string>): string {
    if toks == [] then [] else toks[0] + Concat(toks[1..])
  }

  /** A whitespace character in front changes nothing. */
  lemma {:induction false} SplitSkipsSpace(c: char, x: string)
    requires IsSpace(c)
    ensures Split([c] + x) == Split(x)
  {
    assert ([c] + x)[1..] == x;
    assert Split([c] + x) == [] + SplitFrom(x, []);
  }

  /** A line of whitespace only has no tokens. */
  lemma {:induction false} SplitBlanks(s: string)
    requires Blanks(s)
    ensures Split(s) == []
    decreases |s|
  {
    if s != [] {
      assert Blanks(s[1..]) by {
        assert forall k :: 0 <= k < |s[1..]| ==> s[1..][k] == s[k + 1];
      }
      SplitBlanks(s[1..]);
      assert Split(s) == [] + Split(s[1..]);
    }
  }

  /** The scan ends with the rest of a token: one token, whatever was read
      before it joined to the rest. */
  lemma {:induction false} SplitFromToken(w: string, cur: string)
    requires NoSpace(cur) && NoSpace(w) && cur + w != []
    ensures SplitFrom(w, cur) == [cur + w]
    decreases |w|
  {
    if w == [] {
      assert cur + w == cur;
    } else {
      NoSpaceSnoc(cur, w[0]);
      assert NoSpace(w[1..]) by {
        assert forall k :: 0 <= k < |w[1..]| ==> w[1..][k] == w[k + 1];
      }
      assert (cur + [w[0]]) + w[1..] == cur + w;
      SplitFromToken(w[1..], cur + [w[0]]);
    }
  }

  /** A single token splits into itself. */
  lemma SplitToken(w: string)
    requires IsToken(w)
    ensures Split(w) == [w]
  {
    SplitFromToken(w, []);
    assert [] + w == w;
  }

  /** `SplitAtSpace` with a token already under way. */
  lemma {:induction false} SplitFromAtSpace(a: string, c: char, b: string, cur: string)
    requires IsSpace(c) && NoSpace(cur)
    ensures SplitFrom(a + [c] + b, cur) == SplitFrom(a, cur) + Split(b)
    decreases |a|
  {
    var s := a + [c] + b;
    if a == [] {
      assert s == [c] + b;
      assert s[1..] == b;
    } else {
      assert s[0] == a[0];
      assert s[1..] == a[1..] + [c] + b;
      if IsSpace(a[0]) {
        SplitFromAtSpace(a[1..], c, b, []);
      } else {
        NoSpaceSnoc(cur, a[0]);
        SplitFromAtSpace(a[1..], c, b, cur + [a[0]]);
      }
    }
  }

  /** Every whitespace character cuts the line: what lies before it and what
      lies after it are split separately. With `SplitToken` and `SplitBlanks`
      this fixes `Split` on every line. */
  lemma SplitAtSpace(a: string, c: char, b: string)
    requires IsSpace(c)
    ensures Split(a + [c] + b) == Split(a) + Split(b)
  {
    SplitFromAtSpace(a, c, b, []);
  }

  /** Leading whitespace of any length changes nothing. */
  lemma {:induction false} SplitAfterBlanks(lead: string, x: string)
    requires Blanks(lead)
    ensures Split(lead + x) == Split(x)
    decreases |lead|
  {
    if lead == [] {
      assert lead + x == x;
    } else {
      assert lead + x == [lead[0]] + (lead[1..] + x);
      assert Blanks(lead[1..]) by {
        assert forall k :: 0 <= k < |lead[1..]| ==> lead[1..][k] == lead[k + 1];
      }
      SplitSkipsSpace(lead[0], lead[1..] + x);
      SplitAfterBlanks(lead[1..], x);
    }
  }

  /** `toks[0] + gaps[0] + toks[1] + gaps[1] + ...`: a line laid out as
      tokens, each followed by a run of whitespace. */
  function Layout(toks: seq<string>, gaps: seq<string>): string
    requires |gaps| == |toks|
  {
    if toks == [] then [] else toks[0] + gaps[0] + Layout(toks[1..], gaps[1..])
  }

  /** The runs between tokens are non-empty whitespace; the run after the
      last token (a line's newline, trailing blanks) may be empty. */
  predicate Gaps(gaps: seq<string>) {
    forall k :: 0 <= k < |gaps| ==> Blanks(gaps[k]) && (k < |gaps| - 1 ==> gaps[k] != [])
  }

  /** Any line built from tokens and whitespace splits into exactly those
      tokens: leading blanks, runs of several blanks, tabs and the trailing
      newline are all skipped. */
  lemma {:induction false} SplitLayout(lead: string, toks: seq<string>, gaps: seq<string>)
    requires Blanks(lead)
    requires forall k :: 0 <= k < |toks| ==> IsToken(toks[k])
    requires |gaps| == |toks| && Gaps(gaps)
    ensures Split(lead + Layout(toks, gaps)) == toks
    decreases |toks|
  {
    var line := Layout(toks, gaps);
    SplitAfterBlanks(lead, line);
    if toks == [] {
      SplitBlanks(line);
    } else {
      var w, g := toks[0], gaps[0];
      var rest := Layout(toks[1..], gaps[1..]);
      SplitToken(w);
      if g == [] {
        assert |toks| == 1;
        assert line == w;
      } else {
        assert line == w + [g[0]] + (g[1..] + rest);
        SplitAtSpace(w, g[0], g[1..] + rest);
        assert Blanks(g[1..]) by {
          assert forall k :: 0 <= k < |g[1..]| ==> g[1..][k] == g[k + 1];
        }
        assert Gaps(gaps[1..]) by {
          assert forall k :: 0 <= k < |gaps[1..]| ==> gaps[1..][k] == gaps[k + 1];
        }
        assert forall k :: 0 <= k < |toks[1..]| ==> toks[1..][k] == toks[k + 1];
        SplitLayout(g[1..], toks[1..], gaps[1..]);
        assert toks == [w] + toks[1..];
      }
    }
  }

  /** Joining whitespace-free, non-empty tokens with single spaces and splitting
      again gives the tokens back. */
  lemma {:induction false} SplitJoin(toks: seq<string>)
    requires forall k :: 0 <= k < |toks| ==> IsToken(toks[k])
    ensures Split(JoinSpace(toks)) == toks
  {
    if |toks| == 1 {
      SplitToken(toks[0]);
    } else if |toks| > 1 {
      var tail := JoinSpace(toks[1..]);
      assert JoinSpace(toks) == toks[0] + [' '] + tail;
      SplitAtSpace(toks[0], ' ', tail);
      SplitToken(toks[0]);
      assert forall k :: 0 <= k < |toks[1..]| ==> toks[1..][k] == toks[k + 1];
      SplitJoin(toks[1..]);
      assert toks == [toks[0]] + toks[1..];
    }
  }

  lemma ConcatCons(w: string, toks: seq<string>)
    ensures Concat([w] + toks) == w + Concat(toks)
  {
    assert ([w] + toks)[1..] == toks;
  }

  /** `SplitKeepsNonSpace` with a token already under way. */
  lemma {:induction false} ConcatSplitFrom(s: string, cur: string)
    requires NoSpace(cur)
    ensures Concat(SplitFrom(s, cur)) == cur + NonSpace(s)
    decreases |s|
  {
    if s == [] {
      assert cur + [] == cur;
      if cur != [] {
        ConcatCons(cur, []);
      }
    } else if IsSpace(s[0]) {
      ConcatSplitFrom(s[1..], []);
      assert [] + NonSpace(s[1..]) == NonSpace(s[1..]);
      if cur != [] {
        ConcatCons(cur, SplitFrom(s[1..], []));
      } else {
        assert Flush(cur) + SplitFrom(s[1..], []) == SplitFrom(s[1..], []);
      }
    } else {
      NoSpaceSnoc(cur, s[0]);
      ConcatSplitFrom(s[1..], cur + [s[0]]);
      assert (cur + [s[0]]) + NonSpace(s[1..]) == cur + ([s[0]] + NonSpace(s[1..]));
    }
  }

  /** The tokens of `s.split()` are exactly the non-whitespace characters of
      `s`, cut at whitespace: nothing is lost and nothing is added. */
  lemma SplitKeepsNonSpace(s: string)
    ensures Concat(Split(s)) == NonSpace(s)
  {
    ConcatSplitFrom(s, []);
    assert [] + NonSpace(s) == NonSpace(s);
  }

  // ---------------------------------------------------------------------------
  // Python list indexing
  // ---------------------------------------------------------------------------

  /** `xs[k]`, where a negative `k` counts from the right; `None` stands for
      the `IndexError` raised when `k` is out of range. */
  function PyIndex<T>(xs: seq<T>, k: int): (r: Option<T>)
    ensures r.Some? <==> -|xs| <= k < |xs|
    ensures 0 <= k < |xs| ==> r == Some(xs[k])
    ensures -|xs| <= k < 0 ==> r == Some(xs[|xs| + k])
  {
    if 0 <= k < |xs| then Some(xs[k])
    else if -|xs| <= k < 0 then Some(xs[|xs| + k])
    else None
  }

  // ---------------------------------------------------------------------------
  // Decimal formatting: `'%d' % n` and `'%02d' % n` for n >= 0
  // ---------------------------------------------------------------------------

  predicate IsDigit(c: char) {
    '0' <= c <= '9'
  }

  function DigitChar(d: nat): (c: char)
    requires d < 10
    ensures IsDigit(c)
  {
    (48 + d) as char
  }

  function DigitValue(c: char): nat
    requires IsDigit(c)
  {
    c as int - 48
  }

  /** `'%d' % n`. */
  function Decimal(n: nat): (s: string)
    ensures s != []
    ensures forall k :: 0 <= k < |s| ==> IsDigit(s[k])
  {
    if n < 10 then [DigitChar(n)] else Decimal(n / 10) + [DigitChar(n % 10)]
  }

  /** `'%02d' % n`: at least two digits, padded with a leading zero. */
  function Pad2(n: nat): (s: string)
    ensures |s| >= 2
    ensures forall k :: 0 <= k < |s| ==> IsDigit(s[k])
  {
    if n < 10 then ['0', DigitChar(n)] else Decimal(n)
  }

  /** Reading a string of digits back as a number (`int(s)`). */
  function ParseDecimal(s: string): nat
    requires forall k :: 0 <= k < |s| ==> IsDigit(s[k])
  {
    if s == [] then 0 else 10 * ParseDecimal(s[..|s| - 1]) + DigitValue(s[|s| - 1])
  }

  lemma {:induction false} DecimalRoundTrip(n: nat)
    ensures ParseDecimal(Decimal(n)) == n
  {
    if n >= 10 {
      var s := Decimal(n);
      assert s[..|s| - 1] == Decimal(n / 10);
      DecimalRoundTrip(n / 10);
    }
  }

  /** Zero padding does not change the number that is written. */
  lemma Pad2RoundTrip(n: nat)
    ensures ParseDecimal(Pad2(n)) == n
  {
    if n < 10 {
      var s := Pad2(n);
      assert s[..1] == ['0'];
      assert ParseDecimal(['0']) == 0 by {
        assert ['0'][..0] == [];
      }
    } else {
      DecimalRoundTrip(n);
    }
  }

  lemma Pad2Injective(i: nat, j: nat)
    requires Pad2(i) == Pad2(j)
    ensures i == j
  {
    Pad2RoundTrip(i);
    Pad2RoundTrip(j);
  }
}

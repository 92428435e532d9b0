/**
 * Scanning a text for maximal runs of ASCII digits or ASCII letters.
 *
 * The date converter uses three regular expressions.  `/[a-z]+/gi` lists
 * the maximal letter runs.  The year and day expressions have the shape
 * `(\D|^)(alternatives)(\D|$)`: the digit group must be bounded on both
 * sides by a non-digit or an end of the text, so it can only ever be a
 * whole maximal digit run.  `RegexSearch` states the leftmost search of
 * such an expression literally (try every start, the alternatives in the
 * order they are written); `SearchIsFirstRun` proves that it returns the
 * first maximal digit run that belongs to the alternatives' language.
 */
module Scanner {
  import opened Wrappers
  import opened JsText

  datatype CharClass = Digit | Letter

  /** `[a-z]` under the `i` flag: the ASCII letters of either case. */
  predicate IsLetter(ch: char) {
    'a' <= ch <= 'z' || 'A' <= ch <= 'Z'
  }

  predicate InClass(ch: char, k: CharClass) {
    match k
    case Digit => IsDigit(ch)
    case Letter => IsLetter(ch)
  }

  /** The length of the run of class `k` at the start of `s`. */
  function RunLength(s: string, k: CharClass): (n: nat)
    ensures n <= |s|
    ensures forall i :: 0 <= i < n ==> InClass(s[i], k)
    ensures n < |s| ==> !InClass(s[n], k)
    decreases |s|
  {
    if s != [] && InClass(s[0], k) then 1 + RunLength(s[1..], k) else 0
  }

  /** The maximal runs of class `k` in `s`, left to right. */
  function Runs(s: string, k: CharClass): seq<string>
    decreases |s|
  {
    if s == [] then []
    else if !InClass(s[0], k) then Runs(s[1..], k)
    else
      var n := RunLength(s, k);
      [s[..n]] + Runs(s[n..], k)
  }

  /** Every run is non-empty and of the class. */
  lemma {:induction false} RunsAreOfClass(s: string, k: CharClass)
    ensures forall i :: 0 <= i < |Runs(s, k)| ==>
      |Runs(s, k)[i]| > 0 && forall j :: 0 <= j < |Runs(s, k)[i]| ==> InClass(Runs(s, k)[i][j], k)
    decreases |s|
  {
    if s != [] {
      if !InClass(s[0], k) {
        RunsAreOfClass(s[1..], k);
      } else {
        var n := RunLength(s, k);
        RunsAreOfClass(s[n..], k);
        var r := Runs(s, k);
        forall i | 0 <= i < |r|
          ensures |r[i]| > 0 && forall j :: 0 <= j < |r[i]| ==> InClass(r[i][j], k)
        {
          if i > 0 {
            assert r[i] == Runs(s[n..], k)[i - 1];
          }
        }
      }
    }
  }

  /** A separator outside the class splits the runs of a text in two. */
  lemma {:induction false} RunsOfSeparated(a: string, sep: char, b: string, k: CharClass)
    requires !InClass(sep, k)
    ensures Runs(a + [sep] + b, k) == Runs(a, k) + Runs(b, k)
    decreases |a|
  {
    if a == [] {
      RunsSkip(sep, b, k);
    } else if !InClass(a[0], k) {
      assert a + [sep] + b == [a[0]] + (a[1..] + [sep] + b);
      RunsSkip(a[0], a[1..] + [sep] + b, k);
      RunsSkip(a[0], a[1..], k);
      assert [a[0]] + a[1..] == a;
      RunsOfSeparated(a[1..], sep, b, k);
    } else {
      var n := RunsOfSeparatedStep(a, sep, b, k);
      RunsOfSeparated(a[n..], sep, b, k);
      assert [a[..n]] + Runs(a[n..], k) + Runs(b, k) == [a[..n]] + (Runs(a[n..], k) + Runs(b, k));
    }
  }

  /** A character outside the class adds no run. */
  lemma RunsSkip(c: char, t: string, k: CharClass)
    requires !InClass(c, k)
    ensures Runs([c] + t, k) == Runs(t, k)
  {
    assert ([c] + t)[1..] == t;
  }

  /** The first run of `a`, when `a` starts with one, is also the first run of `a + [sep] + b`. */
  lemma RunsOfSeparatedStep(a: string, sep: char, b: string, k: CharClass) returns (n: nat)
    requires !InClass(sep, k)
    requires a != [] && InClass(a[0], k)
    ensures 1 <= n <= |a|
    ensures Runs(a, k) == [a[..n]] + Runs(a[n..], k)
    ensures Runs(a + [sep] + b, k) == [a[..n]] + Runs(a[n..] + [sep] + b, k)
  {
    var s := a + [sep] + b;
    RunLengthOfSeparated(a, sep, b, k);
    n := RunLength(a, k);
    assert s[0] == a[0];
    assert s[..n] == a[..n];
    assert s[n..] == a[n..] + [sep] + b;
  }

  lemma {:induction false} RunLengthOfSeparated(a: string, sep: char, b: string, k: CharClass)
    requires !InClass(sep, k)
    ensures RunLength(a + [sep] + b, k) == RunLength(a, k)
    decreases |a|
  {
    var s := a + [sep] + b;
    if a == [] {
      assert s[0] == sep;
    } else if InClass(a[0], k) {
      assert s[1..] == a[1..] + [sep] + b;
      RunLengthOfSeparated(a[1..], sep, b, k);
    }
  }

  /** A non-empty text of the class is a single run. */
  lemma {:induction false} RunsOfWhole(s: string, k: CharClass)
    requires |s| > 0
    requires forall i :: 0 <= i < |s| ==> InClass(s[i], k)
    ensures Runs(s, k) == [s]
  {
    RunLengthOfWhole(s, k);
    assert s[|s|..] == [];
    assert s[..|s|] == s;
  }

  lemma {:induction false} RunLengthOfWhole(s: string, k: CharClass)
    requires forall i :: 0 <= i < |s| ==> InClass(s[i], k)
    ensures RunLength(s, k) == |s|
    decreases |s|
  {
    if s != [] {
      RunLengthOfWhole(s[1..], k);
    }
  }

  /** A text with no character of the class has no run. */
  lemma {:induction false} RunsOfNone(s: string, k: CharClass)
    requires forall i :: 0 <= i < |s| ==> !InClass(s[i], k)
    ensures Runs(s, k) == []
    decreases |s|
  {
    if s != [] {
      RunsOfNone(s[1..], k);
    }
  }

  // ---------------------------------------------------------------------
  // The bounded digit expressions

  datatype Pattern =
    | YearPattern  // [0-9]{4}|[0-9]{3}|[4-9]\d|3[2-9]
    | DayPattern   // 3[01]|[12][0-9]|0?[1-9]

  /** Whether `t` is in the language of one of the pattern's alternatives. */
  predicate InLanguage(pat: Pattern, t: string) {
    match pat
    case YearPattern =>
      || (|t| == 4 && AllDigits(t))
      || (|t| == 3 && AllDigits(t))
      || (|t| == 2 && '4' <= t[0] <= '9' && IsDigit(t[1]))
      || (|t| == 2 && t[0] == '3' && '2' <= t[1] <= '9')
    case DayPattern =>
      || (|t| == 2 && t[0] == '3' && (t[1] == '0' || t[1] == '1'))
      || (|t| == 2 && (t[0] == '1' || t[0] == '2') && IsDigit(t[1]))
      || (|t| == 2 && t[0] == '0' && '1' <= t[1] <= '9')
      || (|t| == 1 && '1' <= t[0] <= '9')
  }

  lemma InLanguageIsDigits(pat: Pattern, t: string)
    requires InLanguage(pat, t)
    ensures AllDigits(t) && 1 <= |t| <= 4
  {
  }

  /**
   * The expression `(\D|^)(alternatives)(\D|$)` matches with its digit
   * group at `s[p..p + len]`.
   */
  predicate BoundedMatchAt(s: string, pat: Pattern, p: nat, len: nat) {
    && p + len <= |s|
    && (p == 0 || !IsDigit(s[p - 1]))
    && InLanguage(pat, s[p..p + len])
    && (p + len == |s| || !IsDigit(s[p + len]))
  }

  /**
   * The expression tried with its digit group at `p`: the alternatives in
   * the order they are written, which is longest first.
   */
  function MatchAt(s: string, pat: Pattern, p: nat): Option<string> {
    if BoundedMatchAt(s, pat, p, 4) then Some(s[p..p + 4])
    else if BoundedMatchAt(s, pat, p, 3) then Some(s[p..p + 3])
    else if BoundedMatchAt(s, pat, p, 2) then Some(s[p..p + 2])
    else if BoundedMatchAt(s, pat, p, 1) then Some(s[p..p + 1])
    else None
  }

  /**
   * `s.match(expression)` from the digit-group position `p` on: the
   * leftmost position wins.  (A match starting at the non-digit before `p`
   * and one starting at `p` with `^` cannot both exist, so ordering by `p`
   * is ordering by match start.)
   */
  function RegexSearch(s: string, pat: Pattern, p: nat): Option<string>
    decreases |s| + 1 - p
  {
    if p > |s| then None
    else if MatchAt(s, pat, p).Some? then MatchAt(s, pat, p)
    else RegexSearch(s, pat, p + 1)
  }

  /** The first run in `runs` that belongs to the pattern's language. */
  function FirstInLanguage(runs: seq<string>, pat: Pattern): (r: Option<string>)
    ensures r.Some? ==> InLanguage(pat, r.value) && r.value in runs
    ensures r.None? ==> forall i :: 0 <= i < |runs| ==> !InLanguage(pat, runs[i])
    decreases |runs|
  {
    if runs == [] then None
    else if InLanguage(pat, runs[0]) then Some(runs[0])
    else FirstInLanguage(runs[1..], pat)
  }

  /** The bounded expression finds exactly the first whole digit run in its language. */
  lemma SearchIsFirstRun(s: string, pat: Pattern)
    ensures RegexSearch(s, pat, 0) == FirstInLanguage(Runs(s, Digit), pat)
  {
    SearchFromBoundary(s, pat, 0);
    assert s[0..] == s;
  }

  lemma {:induction false} SearchFromBoundary(s: string, pat: Pattern, p: nat)
    requires p <= |s|
    requires p == 0 || p == |s| || !IsDigit(s[p - 1]) || !IsDigit(s[p])
    ensures RegexSearch(s, pat, p) == FirstInLanguage(Runs(s[p..], Digit), pat)
    decreases |s| - p
  {
    if p == |s| {
      assert s[p..] == [];
      SearchPastNonDigit(s, pat, p);
      assert FirstInLanguage(Runs(s[p..], Digit), pat) == None;
    } else if !IsDigit(s[p]) {
      SearchAtNonDigit(s, pat, p);
      SearchFromBoundary(s, pat, p + 1);
    } else {
      var n := SearchAtRun(s, pat, p);
      if !InLanguage(pat, s[p..p + n]) {
        SearchFromBoundary(s, pat, p + n);
        assert RegexSearch(s, pat, p) == RegexSearch(s, pat, p + n);
      }
    }
  }

  /** A non-digit is skipped by both the search and the runs. */
  lemma SearchAtNonDigit(s: string, pat: Pattern, p: nat)
    requires p < |s| && !IsDigit(s[p])
    ensures RegexSearch(s, pat, p) == RegexSearch(s, pat, p + 1)
    ensures Runs(s[p..], Digit) == Runs(s[p + 1..], Digit)
  {
    assert s[p..][1..] == s[p + 1..];
    SearchPastNonDigit(s, pat, p);
  }

  /** At the start of a digit run both sides take the run if it is in the language, and otherwise both move past it. */
  lemma SearchAtRun(s: string, pat: Pattern, p: nat) returns (n: nat)
    requires p < |s| && IsDigit(s[p])
    requires p == 0 || !IsDigit(s[p - 1])
    ensures n == RunLength(s[p..], Digit) && 1 <= n && p + n <= |s|
    ensures p + n == |s| || !IsDigit(s[p + n])
    ensures InLanguage(pat, s[p..p + n]) ==>
      RegexSearch(s, pat, p) == Some(s[p..p + n]) &&
      FirstInLanguage(Runs(s[p..], Digit), pat) == Some(s[p..p + n])
    ensures !InLanguage(pat, s[p..p + n]) ==>
      RegexSearch(s, pat, p) == RegexSearch(s, pat, p + n) &&
      FirstInLanguage(Runs(s[p..], Digit), pat) == FirstInLanguage(Runs(s[p + n..], Digit), pat)
  {
    n := RunLength(s[p..], Digit);
    if p + n < |s| {
      assert s[p + n] == s[p..][n];
    }
    RegexAtRun(s, pat, p);
    FirstAtRun(s, pat, p);
  }

  lemma RegexAtRun(s: string, pat: Pattern, p: nat)
    requires p < |s| && IsDigit(s[p])
    requires p == 0 || !IsDigit(s[p - 1])
    ensures var n := RunLength(s[p..], Digit);
      1 <= n && p + n <= |s| &&
      RegexSearch(s, pat, p) == if InLanguage(pat, s[p..p + n]) then Some(s[p..p + n]) else RegexSearch(s, pat, p + n)
  {
    var n := RunLength(s[p..], Digit);
    RegexAtRunStart(s, pat, p);
    if !InLanguage(pat, s[p..p + n]) {
      SkipInsideRun(s, pat, p + 1, p + n);
    }
  }

  lemma FirstAtRun(s: string, pat: Pattern, p: nat)
    requires p < |s| && IsDigit(s[p])
    ensures var n := RunLength(s[p..], Digit);
      1 <= n && p + n <= |s| &&
      FirstInLanguage(Runs(s[p..], Digit), pat) ==
        if InLanguage(pat, s[p..p + n]) then Some(s[p..p + n]) else FirstInLanguage(Runs(s[p + n..], Digit), pat)
  {
    var n := RunLength(s[p..], Digit);
    RunsAtRunStart(s, p);
    FirstInLanguageCons(s[p..p + n], Runs(s[p + n..], Digit), pat);
  }

  lemma FirstInLanguageCons(x: string, rest: seq<string>, pat: Pattern)
    ensures FirstInLanguage([x] + rest, pat) == if InLanguage(pat, x) then Some(x) else FirstInLanguage(rest, pat)
  {
    assert ([x] + rest)[1..] == rest;
  }

  /** The search moves on past a non-digit and past the end of the text. */
  lemma SearchPastNonDigit(s: string, pat: Pattern, p: nat)
    requires p == |s| || (p < |s| && !IsDigit(s[p]))
    ensures RegexSearch(s, pat, p) == RegexSearch(s, pat, p + 1)
    ensures p == |s| ==> RegexSearch(s, pat, p) == None
  {
    MatchStartsWithDigit(s, pat, p, 4);
    MatchStartsWithDigit(s, pat, p, 3);
    MatchStartsWithDigit(s, pat, p, 2);
    MatchStartsWithDigit(s, pat, p, 1);
    assert MatchAt(s, pat, p) == None;
  }

  /** A match's digit group starts with a digit. */
  lemma MatchStartsWithDigit(s: string, pat: Pattern, p: nat, len: nat)
    ensures BoundedMatchAt(s, pat, p, len) ==> p < |s| && IsDigit(s[p])
  {
    if BoundedMatchAt(s, pat, p, len) {
      InLanguageIsDigits(pat, s[p..p + len]);
      assert s[p..p + len][0] == s[p];
    }
  }

  /** The runs from the start of a digit run: that run, then the runs after it. */
  lemma RunsAtRunStart(s: string, p: nat)
    requires p < |s| && IsDigit(s[p])
    ensures var n := RunLength(s[p..], Digit);
      n >= 1 && p + n <= |s| && Runs(s[p..], Digit) == [s[p..p + n]] + Runs(s[p + n..], Digit)
  {
    var t := s[p..];
    var n := RunLength(t, Digit);
    assert t[..n] == s[p..p + n];
    assert t[n..] == s[p + n..];
  }

  /** The search at the start of a digit run returns the run, or moves past the first digit. */
  lemma RegexAtRunStart(s: string, pat: Pattern, p: nat)
    requires p < |s| && IsDigit(s[p])
    requires p == 0 || !IsDigit(s[p - 1])
    ensures var n := RunLength(s[p..], Digit);
      p + n <= |s| &&
      (forall i :: p <= i < p + n ==> IsDigit(s[i])) &&
      RegexSearch(s, pat, p) == if InLanguage(pat, s[p..p + n]) then Some(s[p..p + n]) else RegexSearch(s, pat, p + 1)
  {
    var n := RunLength(s[p..], Digit);
    MatchAtRunStart(s, pat, p, 4);
    MatchAtRunStart(s, pat, p, 3);
    MatchAtRunStart(s, pat, p, 2);
    MatchAtRunStart(s, pat, p, 1);
    if InLanguage(pat, s[p..p + n]) {
      InLanguageIsDigits(pat, s[p..p + n]);
      assert MatchAt(s, pat, p) == Some(s[p..p + n]);
    } else {
      assert MatchAt(s, pat, p) == None;
    }
  }

  /** At the start of a digit run, the expression matches only the whole run. */
  lemma MatchAtRunStart(s: string, pat: Pattern, p: nat, len: nat)
    requires p < |s| && IsDigit(s[p])
    requires p == 0 || !IsDigit(s[p - 1])
    requires len >= 1
    ensures var n := RunLength(s[p..], Digit);
      p + n <= |s| && (forall i :: p <= i < p + n ==> IsDigit(s[i])) &&
      (BoundedMatchAt(s, pat, p, len) <==> len == n && InLanguage(pat, s[p..p + n]))
  {
    var n := RunLength(s[p..], Digit);
    forall i | p <= i < p + n
      ensures IsDigit(s[i])
    {
      assert s[i] == s[p..][i - p];
    }
    assert p + n < |s| ==> !IsDigit(s[p + n]) by {
      if p + n < |s| {
        assert s[p + n] == s[p..][n];
      }
    }
    if BoundedMatchAt(s, pat, p, len) {
      InLanguageIsDigits(pat, s[p..p + len]);
      forall i | p <= i < p + len
        ensures IsDigit(s[i])
      {
        assert s[i] == s[p..p + len][i - p];
      }
    }
    if len == n && InLanguage(pat, s[p..p + n]) {
      InLanguageIsDigits(pat, s[p..p + n]);
    }
  }

  /** No match can have its digit group start inside a digit run. */
  lemma {:induction false} SkipInsideRun(s: string, pat: Pattern, q: nat, e: nat)
    requires 0 < q <= e <= |s|
    requires forall i :: q - 1 <= i < e ==> IsDigit(s[i])
    ensures RegexSearch(s, pat, q) == RegexSearch(s, pat, e)
    decreases e - q
  {
    if q < e {
      assert IsDigit(s[q - 1]);
      assert MatchAt(s, pat, q) == None;
      assert RegexSearch(s, pat, q) == RegexSearch(s, pat, q + 1);
      SkipInsideRun(s, pat, q + 1, e);
    }
  }
}

/**
 * The `DATE` converter: refer's free-text `%D` value on one side, a CSL
 * date (`issued`) or a free-text `status` on the other.
 *
 * Reading a date looks for a year (the first whole digit run of three or
 * four digits, or of two digits with value 32 to 99), then appends a month
 * number for every letter run that begins some month name, then, when
 * exactly one month was found, a day (the first whole digit run with value
 * 1 to 31, one leading zero allowed).
 */
module Dates {
  import opened Wrappers
  import opened JsText
  import opened Scanner

  const MONTHS: seq<string> := [
    "january", "february", "march", "april", "may", "june",
    "july", "august", "september", "october", "november", "december"
  ]

  /** A CSL date; only `date-parts` is used, and only its first entry is read. */
  datatype CslDate = CslDate(dateParts: Option<seq<seq<int>>>)

  /** What `DATE.toTarget` returns: the pair `[issued, status]`. */
  datatype DatePair = DatePair(issued: Option<CslDate>, status: Option<string>)

  // ---------------------------------------------------------------------
  // pieces of the reading

  /** find_year: `parseInt` of the first whole digit run in the year language. */
  function FindYear(date: string): Option<nat> {
    match FirstInLanguage(Runs(date, Digit), YearPattern)
    case None => None
    case Some(t) => InLanguageIsDigits(YearPattern, t); Some(DecimalValue(t))
  }

  /** find_day: `parseInt` of the first whole digit run in the day language. */
  function FindDay(date: string): Option<nat> {
    match FirstInLanguage(Runs(date, Digit), DayPattern)
    case None => None
    case Some(t) => InLanguageIsDigits(DayPattern, t); Some(DecimalValue(t))
  }

  /** `MONTHS.findIndex(month => month.startsWith(token))`: the first month name that `token` begins, or -1. */
  function MonthIndex(token: string): (r: int)
    ensures -1 <= r < |MONTHS|
  {
    FirstPrefixIndex(token, MONTHS, 0)
  }

  /** `findIndex` over `names` from position `from` on, with `startsWith(token)` as the test. */
  function FirstPrefixIndex(token: string, names: seq<string>, from: nat): (r: int)
    requires from <= |names|
    ensures r == -1 || from <= r < |names|
    decreases |names| - from
  {
    if from == |names| then -1
    else if token <= names[from] then from
    else FirstPrefixIndex(token, names, from + 1)
  }

  lemma {:induction false} FirstPrefixIndexIsFirst(token: string, names: seq<string>, from: nat)
    requires from <= |names|
    ensures var r := FirstPrefixIndex(token, names, from);
      && (r >= 0 ==> token <= names[r] && forall j :: from <= j < r ==> !(token <= names[j]))
      && (r == -1 ==> forall j :: from <= j < |names| ==> !(token <= names[j]))
    decreases |names| - from
  {
    if from < |names| && !(token <= names[from]) {
      FirstPrefixIndexIsFirst(token, names, from + 1);
    }
  }

  /** The index found is that of the first month name that begins with `token`, and -1 when there is none. */
  lemma MonthIndexIsFirst(token: string)
    ensures var r := MonthIndex(token);
      && (r >= 0 ==> token <= MONTHS[r] && forall j :: 0 <= j < r ==> !(token <= MONTHS[j]))
      && (r == -1 <==> forall j :: 0 <= j < |MONTHS| ==> !(token <= MONTHS[j]))
  {
    FirstPrefixIndexIsFirst(token, MONTHS, 0);
  }

  /** The month numbers the loop appends for the letter runs `tokens`, in order. */
  function MonthNumbers(tokens: seq<string>): (r: seq<int>)
    ensures |r| <= |tokens|
    ensures forall i :: 0 <= i < |r| ==> 1 <= r[i] <= 12
    decreases |tokens|
  {
    if tokens == [] then []
    else
      var index := MonthIndex(tokens[|tokens| - 1]);
      MonthNumbers(tokens[..|tokens| - 1]) + (if index != -1 then [index + 1] else [])
  }

  /** One more letter run adds its month number, if it has one. */
  lemma MonthNumbersStep(tokens: seq<string>, i: nat)
    requires i < |tokens|
    ensures MonthNumbers(tokens[..i + 1]) ==
      MonthNumbers(tokens[..i]) + (if MonthIndex(tokens[i]) != -1 then [MonthIndex(tokens[i]) + 1] else [])
  {
    var prefix := tokens[..i + 1];
    assert prefix[..i] == tokens[..i] && prefix[|prefix| - 1] == tokens[i];
  }

  // ---------------------------------------------------------------------
  // DATE.toTarget

  /** The date-parts entry: the year, the months, and the day when exactly one month was found. */
  function AssembleParts(year: nat, months: seq<int>, day: Option<nat>): seq<int> {
    var parts := [year as int] + months;
    if |parts| == 2 && day.Some? then parts + [day.value as int] else parts
  }

  /** The result of `DATE.toTarget(date)`. */
  function Parsed(date: string): DatePair {
    var year := FindYear(date);
    if year.None? then DatePair(None, if date == "unknown" then None else Some(date))
    else DatePair(Some(CslDate(Some([AssembleParts(year.value, MonthNumbers(Runs(date, Letter)), FindDay(date))]))), None)
  }

  /** `DATE.toTarget`: the year, then one month per matching letter run, then a day after a single month. */
  method ToTarget(date: string) returns (r: DatePair)
    ensures r == Parsed(date)
  {
    var year := FindYear(date);
    if year.None? {
      return DatePair(None, if date == "unknown" then None else Some(date));
    }
    var parts: seq<int> := [year.value];
    var tokens := Runs(date, Letter);
    var i := 0;
    while i < |tokens|
      invariant 0 <= i <= |tokens|
      invariant parts == [year.value as int] + MonthNumbers(tokens[..i])
    {
      var index := MonthIndex(tokens[i]);
      MonthNumbersStep(tokens, i);
      if index != -1 {
        assert parts + [index + 1] == [year.value as int] + (MonthNumbers(tokens[..i]) + [index + 1]);
        parts := parts + [index + 1];
      } else {
        assert MonthNumbers(tokens[..i]) + [] == MonthNumbers(tokens[..i]);
      }
      i := i + 1;
    }
    assert tokens[..|tokens|] == tokens;
    ghost var months := MonthNumbers(tokens);
    assert parts == [year.value as int] + months;
    if |parts| == 2 {
      var day := FindDay(date);
      if day.Some? {
        parts := parts + [day.value];
      }
    }
    assert parts == AssembleParts(year.value, months, FindDay(date));
    ParsedFrom(date, year.value, months, FindDay(date));
    r := DatePair(Some(CslDate(Some([parts]))), None);
  }

  // ---------------------------------------------------------------------
  // DATE.toSource

  /** One entry of the joined date: the month name in second place (empty when out of range), else the number. */
  function PartText(parts: seq<int>, i: nat): string
    requires i < |parts|
  {
    if i == 1 && parts[1] != 0 then
      (if 1 <= parts[1] <= 12 then MONTHS[parts[1] - 1] else "")
    else IntToString(parts[i])
  }

  /** `DATE.toSource(date, status)`: the first date-parts entry joined with spaces, else a truthy status. */
  function ToSource(date: Option<CslDate>, status: Option<string>): Option<string> {
    if date.Some? && date.value.dateParts.Some? && |date.value.dateParts.value| > 0 then
      var parts := date.value.dateParts.value[0];
      Some(Join(seq(|parts|, i requires 0 <= i < |parts| => PartText(parts, i)), " "))
    else if status.Some? && status.value != "" then status
    else None
  }

  // ---------------------------------------------------------------------
  // properties of the reading

  /** The year is what the bounded year expression matches: at most four digits, at least 32 when it has two. */
  lemma YearFound(date: string)
    ensures FindYear(date).Some? <==> RegexSearch(date, YearPattern, 0).Some?
    ensures FindYear(date).Some? ==>
      var t := RegexSearch(date, YearPattern, 0).value;
      && AllDigits(t) && 2 <= |t| <= 4
      && FindYear(date).value == DecimalValue(t)
      && FindYear(date).value <= 9999
      && (|t| == 2 ==> 32 <= FindYear(date).value <= 99)
  {
    SearchIsFirstRun(date, YearPattern);
    if FindYear(date).Some? {
      var t := RegexSearch(date, YearPattern, 0).value;
      InLanguageIsDigits(YearPattern, t);
      DecimalValueBelow(t);
      if |t| == 2 {
        TwoDigitValue(t);
      }
    }
  }

  /** The day is what the bounded day expression matches, and lies in 1..31. */
  lemma DayFound(date: string)
    ensures FindDay(date).Some? <==> RegexSearch(date, DayPattern, 0).Some?
    ensures FindDay(date).Some? ==>
      var t := RegexSearch(date, DayPattern, 0).value;
      && AllDigits(t)
      && FindDay(date).value == DecimalValue(t)
      && 1 <= FindDay(date).value <= 31
  {
    SearchIsFirstRun(date, DayPattern);
    if FindDay(date).Some? {
      var t := RegexSearch(date, DayPattern, 0).value;
      InLanguageIsDigits(DayPattern, t);
      if |t| == 2 {
        TwoDigitValue(t);
      } else {
        assert DecimalValue(t) == DigitValue(t[0]) by {
          assert t[..0] == [];
        }
      }
    }
  }

  /**
   * A date is stored as `issued` exactly when it contains a year; otherwise
   * the text itself is the status, except the text "unknown", which gives
   * neither.  Never are both given.
   */
  lemma IssuedOrStatus(date: string)
    ensures Parsed(date).issued.Some? <==> RegexSearch(date, YearPattern, 0).Some?
    ensures Parsed(date).status ==
      if RegexSearch(date, YearPattern, 0).None? && date != "unknown" then Some(date) else None
    ensures !(Parsed(date).issued.Some? && Parsed(date).status.Some?)
  {
    YearFound(date);
  }

  /**
   * The shape of a read date: one date-parts entry, starting with the year,
   * then one month per matching letter run, then a day only when there was
   * exactly one month.
   */
  lemma ReadParts(date: string)
    ensures Parsed(date).issued.Some? ==>
      var months := MonthNumbers(Runs(date, Letter));
      var parts := Parsed(date).issued.value.dateParts.value[0];
      && Parsed(date).issued.value.dateParts.Some?
      && |Parsed(date).issued.value.dateParts.value| == 1
      && |parts| == 1 + |months| + (if |months| == 1 && FindDay(date).Some? then 1 else 0)
      && 0 <= parts[0] <= 9999
      && (forall i :: 1 <= i <= |months| ==> 1 <= parts[i] <= 12)
      && (|months| == 1 && FindDay(date).Some? ==> 1 <= parts[2] <= 31)
  {
    YearFound(date);
    DayFound(date);
  }

  /** Month names are lower-case letters, none begins another, and each finds its own index. */
  lemma MonthName(i: nat)
    requires i < |MONTHS|
    ensures |MONTHS[i]| >= 3
    ensures forall j :: 0 <= j < |MONTHS[i]| ==> 'a' <= MONTHS[i][j] <= 'z'
    ensures MonthIndex(MONTHS[i]) == i
  {
    forall j | 0 <= j < i
      ensures !(MONTHS[i] <= MONTHS[j])
    {
      MonthNamesDistinct(i, j);
    }
    MonthIndexIsFirst(MONTHS[i]);
    MonthIsLower(i);
  }

  /** Every letter of `w` is a lower-case ASCII letter. */
  predicate LowerWord(w: string) {
    forall j :: 0 <= j < |w| ==> 'a' <= w[j] <= 'z'
  }

  lemma MonthIsLower(i: nat)
    requires i < |MONTHS|
    ensures LowerWord(MONTHS[i])
  {
    if i < 6 {
      EarlyMonthsLower();
    } else {
      LateMonthsLower();
    }
  }

  lemma EarlyMonthsLower()
    ensures forall i :: 0 <= i < 6 ==> LowerWord(MONTHS[i])
  {
    assert LowerWord(MONTHS[0]);
    assert LowerWord(MONTHS[1]);
    assert LowerWord(MONTHS[2]);
    assert LowerWord(MONTHS[3]);
    assert LowerWord(MONTHS[4]);
    assert LowerWord(MONTHS[5]);
  }

  lemma LateMonthsLower()
    ensures forall i :: 6 <= i < 12 ==> LowerWord(MONTHS[i])
  {
    assert LowerWord(MONTHS[6]);
    assert LowerWord(MONTHS[7]);
    assert LowerWord(MONTHS[8]);
    assert LowerWord(MONTHS[9]);
    assert LowerWord(MONTHS[10]);
    assert LowerWord(MONTHS[11]);
  }

  /** No month name begins another: their first three letters already differ. */
  lemma MonthNamesDistinct(i: nat, j: nat)
    requires i < |MONTHS| && j < |MONTHS| && i != j
    ensures !(MONTHS[i] <= MONTHS[j])
  {
    var a := MONTHS[i];
    var b := MONTHS[j];
    assert [a[0], a[1], a[2]] != [b[0], b[1], b[2]];
  }

  /** Matching is case-sensitive: a letter run with an upper-case letter never names a month. */
  lemma UpperCaseNeverMatches(token: string, k: nat)
    requires k < |token| && 'A' <= token[k] <= 'Z'
    ensures MonthIndex(token) == -1
  {
    forall j | 0 <= j < |MONTHS|
      ensures !(token <= MONTHS[j])
    {
      MonthName(j);
    }
    MonthIndexIsFirst(token);
  }

  // ---------------------------------------------------------------------
  // round trips

  /** A date that refer writes and reads back unchanged: year 32..9999, optional month, optional day. */
  predicate CanonicalParts(parts: seq<int>) {
    && 1 <= |parts| <= 3
    && 32 <= parts[0] <= 9999
    && (|parts| >= 2 ==> 1 <= parts[1] <= 12)
    && (|parts| == 3 ==> 1 <= parts[2] <= 31)
  }

  lemma YearText(y: nat)
    requires 32 <= y <= 9999
    ensures AllDigits(NatToString(y)) && DecimalValue(NatToString(y)) == y
    ensures InLanguage(YearPattern, NatToString(y))
    ensures !InLanguage(DayPattern, NatToString(y))
  {
    NatToStringDigits(y);
  }

  lemma DayText(d: nat)
    requires 1 <= d <= 31
    ensures AllDigits(NatToString(d)) && DecimalValue(NatToString(d)) == d
    ensures InLanguage(DayPattern, NatToString(d))
  {
    NatToStringDigits(d);
  }

  lemma MonthNameRuns(i: nat)
    requires i < |MONTHS|
    ensures Runs(MONTHS[i], Digit) == []
    ensures Runs(MONTHS[i], Letter) == [MONTHS[i]]
  {
    MonthName(i);
    RunsOfNone(MONTHS[i], Digit);
    RunsOfWhole(MONTHS[i], Letter);
  }

  lemma NumberRuns(n: nat)
    ensures Runs(NatToString(n), Digit) == [NatToString(n)]
    ensures Runs(NatToString(n), Letter) == []
  {
    NatToStringDigits(n);
    RunsOfWhole(NatToString(n), Digit);
    RunsOfNone(NatToString(n), Letter);
  }

  /** The text written for canonical date-parts. */
  function CanonicalTextOf(parts: seq<int>): string
    requires CanonicalParts(parts)
  {
    if |parts| == 1 then NatToString(parts[0])
    else if |parts| == 2 then NatToString(parts[0]) + " " + MONTHS[parts[1] - 1]
    else NatToString(parts[0]) + " " + (MONTHS[parts[1] - 1] + " " + NatToString(parts[2]))
  }

  /** The text `DATE.toSource` writes for canonical date-parts: year, month name, day, separated by spaces. */
  lemma CanonicalText(parts: seq<int>)
    requires CanonicalParts(parts)
    ensures ToSource(Some(CslDate(Some([parts]))), None) == Some(CanonicalTextOf(parts))
  {
    var texts := seq(|parts|, i requires 0 <= i < |parts| => PartText(parts, i));
    var year := NatToString(parts[0]);
    assert texts[0] == year;
    if |parts| == 2 {
      var month := MONTHS[parts[1] - 1];
      assert texts[1..] == [month];
      assert Join(texts, " ") == year + " " + month;
    } else if |parts| == 3 {
      var month := MONTHS[parts[1] - 1];
      var day := NatToString(parts[2]);
      assert texts[1..] == [month, day];
      assert Join([month, day], " ") == month + " " + day by {
        assert [month, day][1..] == [day];
      }
      assert Join(texts, " ") == year + " " + (month + " " + day);
    }
  }

  lemma ParsedFrom(date: string, y: nat, months: seq<int>, day: Option<nat>)
    requires FindYear(date) == Some(y)
    requires MonthNumbers(Runs(date, Letter)) == months
    requires FindDay(date) == day
    ensures Parsed(date) == DatePair(Some(CslDate(Some([AssembleParts(y, months, day)]))), None)
    ensures ParsedFirstMonth(date) ==
      DatePair(Some(CslDate(Some([AssembleParts(y, if months == [] then [] else [months[0]], day)]))), None)
  {
  }

  /** Reading a year alone. */
  lemma ReadYear(y: nat)
    requires 32 <= y <= 9999
    ensures Parsed(NatToString(y)) == DatePair(Some(CslDate(Some([[y]]))), None)
  {
    var text := NatToString(y);
    YearText(y);
    NumberRuns(y);
    assert FindYear(text) == Some(y);
    assert MonthNumbers(Runs(text, Letter)) == [];
    ParsedFrom(text, y, [], FindDay(text));
    assert AssembleParts(y, [], FindDay(text)) == [y];
  }

  /** A word that is a whole year: digits only, in the year language and not in the day language. */
  predicate YearWord(w: string, y: nat) {
    && Runs(w, Digit) == [w] && Runs(w, Letter) == []
    && InLanguage(YearPattern, w) && !InLanguage(DayPattern, w)
    && AllDigits(w) && DecimalValue(w) == y
  }

  /** A word that is a whole month name. */
  predicate MonthWord(w: string, i: nat) {
    Runs(w, Digit) == [] && Runs(w, Letter) == [w] && MonthIndex(w) == i
  }

  /** A word that is a whole day. */
  predicate DayWord(w: string, d: nat) {
    && Runs(w, Digit) == [w] && Runs(w, Letter) == []
    && InLanguage(DayPattern, w) && AllDigits(w) && DecimalValue(w) == d
  }

  lemma ReadTwoWords(year: string, y: nat, month: string, i: nat)
    requires YearWord(year, y) && MonthWord(month, i)
    ensures Parsed(year + " " + month) == DatePair(Some(CslDate(Some([[y, i + 1]]))), None)
  {
    var text := year + " " + month;
    RunsOfSeparated(year, ' ', month, Digit);
    RunsOfSeparated(year, ' ', month, Letter);
    assert Runs(text, Digit) == [year] + [];
    assert Runs(text, Letter) == [month];
    YearOfRuns(text, year, y, []);
    NoDayAfterYear(text, year, y);
    OneMonth(month, i);
    ParsedFrom(text, y, [i + 1], None);
    assert AssembleParts(y, [i + 1], None) == [y, i + 1];
  }

  lemma ReadThreeWords(year: string, y: nat, month: string, i: nat, day: string, d: nat)
    requires YearWord(year, y) && MonthWord(month, i) && DayWord(day, d)
    ensures Parsed(year + " " + (month + " " + day)) == DatePair(Some(CslDate(Some([[y, i + 1, d]]))), None)
  {
    var text := year + " " + (month + " " + day);
    ThreeWordRuns(year, month, day, Digit);
    ThreeWordRuns(year, month, day, Letter);
    assert Runs(text, Digit) == [year] + [day];
    assert Runs(text, Letter) == [month];
    YearOfRuns(text, year, y, [day]);
    DayAfterYear(text, year, y, day, d);
    OneMonth(month, i);
    ParsedFrom(text, y, [i + 1], Some(d));
    assert AssembleParts(y, [i + 1], Some(d)) == [y, i + 1, d];
  }

  /** The year is read from a text whose first digit run is a year word. */
  lemma YearOfRuns(text: string, year: string, y: nat, rest: seq<string>)
    requires YearWord(year, y)
    requires Runs(text, Digit) == [year] + rest
    ensures FindYear(text) == Some(y)
  {
    FirstInLanguageCons(year, rest, YearPattern);
  }

  /** No day is read from a text whose only digit run is a year word. */
  lemma NoDayAfterYear(text: string, year: string, y: nat)
    requires YearWord(year, y)
    requires Runs(text, Digit) == [year] + []
    ensures FindDay(text) == None
  {
    FirstInLanguageCons(year, [], DayPattern);
  }

  /** The day is read from a text whose digit runs are a year word and a day word. */
  lemma DayAfterYear(text: string, year: string, y: nat, day: string, d: nat)
    requires YearWord(year, y) && DayWord(day, d)
    requires Runs(text, Digit) == [year] + [day]
    ensures FindDay(text) == Some(d)
  {
    FirstInLanguageCons(year, [day], DayPattern);
    FirstInLanguageCons(day, [], DayPattern);
    assert [day] == [day] + [];
  }

  /** One month word gives one month number. */
  lemma OneMonth(month: string, i: nat)
    requires MonthWord(month, i)
    ensures MonthNumbers([month]) == [i + 1]
  {
    assert [month][..0] == [];
  }

  lemma YearWordOf(y: nat)
    requires 32 <= y <= 9999
    ensures YearWord(NatToString(y), y)
  {
    YearText(y);
    NumberRuns(y);
  }

  lemma MonthWordOf(i: nat)
    requires i < |MONTHS|
    ensures MonthWord(MONTHS[i], i)
  {
    MonthName(i);
    MonthNameRuns(i);
  }

  lemma DayWordOf(d: nat)
    requires 1 <= d <= 31
    ensures DayWord(NatToString(d), d)
  {
    DayText(d);
    NumberRuns(d);
  }

  lemma ReadCanonicalText(parts: seq<int>)
    requires CanonicalParts(parts)
    ensures Parsed(CanonicalTextOf(parts)) == DatePair(Some(CslDate(Some([parts]))), None)
  {
    if |parts| == 1 {
      ReadCanonicalYear(parts);
    } else if |parts| == 2 {
      ReadCanonicalMonth(parts);
    } else {
      ReadCanonicalDay(parts);
    }
  }

  lemma ReadCanonicalYear(parts: seq<int>)
    requires CanonicalParts(parts) && |parts| == 1
    ensures Parsed(CanonicalTextOf(parts)) == DatePair(Some(CslDate(Some([parts]))), None)
  {
    ReadYear(parts[0]);
    assert parts == [parts[0]];
  }

  lemma ReadCanonicalMonth(parts: seq<int>)
    requires CanonicalParts(parts) && |parts| == 2
    ensures Parsed(CanonicalTextOf(parts)) == DatePair(Some(CslDate(Some([parts]))), None)
  {
    ReadYearMonth(parts[0], parts[1] - 1);
    PartsOfTwo(parts);
  }

  lemma PartsOfTwo(parts: seq<int>)
    requires |parts| == 2
    ensures parts == [parts[0], parts[1]]
  {
  }

  lemma PartsOfThree(parts: seq<int>)
    requires |parts| == 3
    ensures parts == [parts[0], parts[1], parts[2]]
  {
  }

  lemma ReadCanonicalDay(parts: seq<int>)
    requires CanonicalParts(parts) && |parts| == 3
    ensures Parsed(CanonicalTextOf(parts)) == DatePair(Some(CslDate(Some([parts]))), None)
  {
    ReadYearMonthDay(parts[0], parts[1] - 1, parts[2]);
    PartsOfThree(parts);
  }

  /** A year and a month name, separated by a space, read as that year and month. */
  lemma ReadYearMonth(y: nat, i: nat)
    requires 32 <= y <= 9999 && i < |MONTHS|
    ensures Parsed(NatToString(y) + " " + MONTHS[i]) == DatePair(Some(CslDate(Some([[y, i + 1]]))), None)
  {
    YearWordOf(y);
    MonthWordOf(i);
    ReadTwoWords(NatToString(y), y, MONTHS[i], i);
  }

  /** A year, a month name and a day, separated by spaces, read as that year, month and day. */
  lemma ReadYearMonthDay(y: nat, i: nat, d: nat)
    requires 32 <= y <= 9999 && i < |MONTHS| && 1 <= d <= 31
    ensures Parsed(NatToString(y) + " " + (MONTHS[i] + " " + NatToString(d))) ==
      DatePair(Some(CslDate(Some([[y, i + 1, d]]))), None)
  {
    YearWordOf(y);
    MonthWordOf(i);
    DayWordOf(d);
    ReadThreeWords(NatToString(y), y, MONTHS[i], i, NatToString(d), d);
  }

  /** Writing a canonical date and reading the text back gives the same date-parts. */
  lemma CanonicalRoundTrip(parts: seq<int>)
    requires CanonicalParts(parts)
    ensures ToSource(Some(CslDate(Some([parts]))), None).Some?
    ensures Parsed(ToSource(Some(CslDate(Some([parts]))), None).value) == DatePair(Some(CslDate(Some([parts]))), None)
  {
    CanonicalText(parts);
    ReadCanonicalText(parts);
  }

  /** A text without a year is kept as the status and written back unchanged (unless empty or "unknown"). */
  lemma StatusRoundTrip(date: string)
    requires RegexSearch(date, YearPattern, 0).None?
    requires date != "unknown" && date != ""
    ensures ToSource(Parsed(date).issued, Parsed(date).status) == Some(date)
  {
    YearFound(date);
  }

  /** The readings the test fixtures show for a year, a month and a day. */
  lemma FixtureYear()
    ensures Parsed("32") == DatePair(Some(CslDate(Some([[32]]))), None)
  {
    assert NatToString(3) == ['3'];
    assert NatToString(32) == NatToString(3) + [DigitChar(2)];
    assert NatToString(32) == "32";
    ReadYear(32);
  }

  lemma FixtureMonth()
    ensures Parsed("2022 march") == DatePair(Some(CslDate(Some([[2022, 3]]))), None)
  {
    YearWordOf(2022);
    MonthWordOf(2);
    Text2022March();
    ReadTwoWords(NatToString(2022), 2022, MONTHS[2], 2);
  }

  lemma Text2022March()
    ensures NatToString(2022) + " " + MONTHS[2] == "2022 march"
  {
    Year2022();
  }

  lemma FixtureDay()
    ensures Parsed("2000 october 10") == DatePair(Some(CslDate(Some([[2000, 10, 10]]))), None)
  {
    YearWordOf(2000);
    MonthWordOf(9);
    DayWordOf(10);
    Text2000October10();
    ReadThreeWords(NatToString(2000), 2000, MONTHS[9], 9, NatToString(10), 10);
  }

  /** The same date written back by `DATE.toSource` is the fixture's text again. */
  lemma FixtureDayWritten()
    ensures ToSource(Parsed("2000 october 10").issued, Parsed("2000 october 10").status) == Some("2000 october 10")
  {
    FixtureDay();
    CanonicalText([2000, 10, 10]);
    Text2000October10();
  }

  lemma Text2000October10()
    ensures NatToString(2000) + " " + (MONTHS[9] + " " + NatToString(10)) == "2000 october 10"
  {
    Year2000();
    assert NatToString(10) == NatToString(1) + [DigitChar(0)];
  }

  lemma Year2022()
    ensures NatToString(2022) == "2022"
  {
    assert NatToString(20) == NatToString(2) + [DigitChar(0)];
    assert NatToString(202) == NatToString(20) + [DigitChar(2)];
    assert NatToString(2022) == NatToString(202) + [DigitChar(2)];
  }

  lemma Year2000()
    ensures NatToString(2000) == "2000"
  {
    assert NatToString(20) == NatToString(2) + [DigitChar(0)];
    assert NatToString(200) == NatToString(20) + [DigitChar(0)];
    assert NatToString(2000) == NatToString(200) + [DigitChar(0)];
  }

  /** A season is not a month: "2022 spring" keeps only the year. */
  lemma FixtureSeason()
    ensures Parsed("2022 spring") == DatePair(Some(CslDate(Some([[2022]]))), None)
  {
    YearWordOf(2022);
    SpringIsNoMonth();
    Text2022Spring();
    ReadYearAndWord(NatToString(2022), 2022, "spring");
  }

  lemma Text2022Spring()
    ensures NatToString(2022) + " " + "spring" == "2022 spring"
  {
    Year2022();
  }

  lemma SpringIsNoMonth()
    ensures Runs("spring", Digit) == [] && Runs("spring", Letter) == ["spring"]
    ensures MonthIndex("spring") == -1
  {
    var spring := "spring";
    RunsOfWhole(spring, Letter);
    RunsOfNone(spring, Digit);
    forall j | 0 <= j < |MONTHS|
      ensures !(spring <= MONTHS[j])
    {
      assert [MONTHS[j][0], MONTHS[j][1]] != [spring[0], spring[1]];
    }
    MonthIndexIsFirst(spring);
  }

  /** A year followed by a word that names no month. */
  lemma ReadYearAndWord(year: string, y: nat, word: string)
    requires YearWord(year, y)
    requires Runs(word, Digit) == [] && Runs(word, Letter) == [word] && MonthIndex(word) == -1
    ensures Parsed(year + " " + word) == DatePair(Some(CslDate(Some([[y]]))), None)
  {
    var text := year + " " + word;
    RunsOfSeparated(year, ' ', word, Digit);
    RunsOfSeparated(year, ' ', word, Letter);
    assert Runs(text, Digit) == [year] + [];
    assert Runs(text, Letter) == [word];
    assert MonthNumbers([word]) == [] by {
      assert [word][..0] == [];
    }
    YearOfRuns(text, year, y, []);
    ParsedFrom(text, y, [], FindDay(text));
    assert AssembleParts(y, [], FindDay(text)) == [y];
  }

  /** Two digits below 32 are no year: "31" is kept as the status. */
  lemma FixtureBelowYear()
    ensures Parsed("31") == DatePair(None, Some("31"))
  {
    var t := "31";
    RunsOfWhole(t, Digit);
    assert !InLanguage(YearPattern, t);
    FirstInLanguageCons(t, [], YearPattern);
    assert FindYear(t) == None;
  }

  /** "unknown" gives neither a date nor a status. */
  lemma FixtureUnknown()
    ensures Parsed("unknown") == DatePair(None, None)
  {
    RunsOfNone("unknown", Digit);
    ReadNoYear("unknown");
  }

  /** Other text without a year is kept as the status. */
  lemma FixtureForthcoming()
    ensures Parsed("forthcoming") == DatePair(None, Some("forthcoming"))
  {
    RunsOfNone("forthcoming", Digit);
    ReadNoYear("forthcoming");
  }

  /** A text without digits has no year. */
  lemma ReadNoYear(date: string)
    requires Runs(date, Digit) == []
    ensures Parsed(date) == DatePair(None, if date == "unknown" then None else Some(date))
  {
  }

  // ---------------------------------------------------------------------
  // several month names

  /** The reading with only the first matching letter run taken as the month. */
  function ParsedFirstMonth(date: string): DatePair {
    var year := FindYear(date);
    if year.None? then DatePair(None, if date == "unknown" then None else Some(date))
    else
      var months := MonthNumbers(Runs(date, Letter));
      var first := if months == [] then [] else [months[0]];
      DatePair(Some(CslDate(Some([AssembleParts(year.value, first, FindDay(date))]))), None)
  }

  /** With the first month only, a date always has the CSL shape year, month 1..12, day 1..31. */
  lemma FirstMonthShape(date: string)
    ensures ParsedFirstMonth(date).issued.Some? ==>
      var parts := ParsedFirstMonth(date).issued.value.dateParts.value[0];
      && 1 <= |parts| <= 3
      && 0 <= parts[0] <= 9999
      && (|parts| >= 2 ==> 1 <= parts[1] <= 12)
      && (|parts| == 3 ==> 1 <= parts[2] <= 31)
  {
    YearFound(date);
    DayFound(date);
  }

  /** When at most one letter run names a month, both readings agree. */
  lemma FirstMonthAgrees(date: string)
    requires |MonthNumbers(Runs(date, Letter))| <= 1
    ensures ParsedFirstMonth(date) == Parsed(date)
  {
    var months := MonthNumbers(Runs(date, Letter));
    assert months == [] || months == [months[0]];
  }

  /** As written, "2000 march may" reads as 5 March 2000: May's number lands in the day position. */
  lemma TwoMonthNames()
    ensures Parsed("2000 march may") == DatePair(Some(CslDate(Some([[2000, 3, 5]]))), None)
    ensures ParsedFirstMonth("2000 march may") == DatePair(Some(CslDate(Some([[2000, 3]]))), None)
  {
    YearWordOf(2000);
    MonthWordOf(2);
    MonthWordOf(4);
    Text2000MarchMay();
    ReadYearTwoMonths(NatToString(2000), 2000, MONTHS[2], 2, MONTHS[4], 4);
  }

  lemma Text2000MarchMay()
    ensures NatToString(2000) + " " + (MONTHS[2] + " " + MONTHS[4]) == "2000 march may"
  {
    Year2000();
  }

  /** A year followed by two month names. */
  lemma ReadYearTwoMonths(year: string, y: nat, first: string, i: nat, second: string, j: nat)
    requires YearWord(year, y) && MonthWord(first, i) && MonthWord(second, j)
    ensures Parsed(year + " " + (first + " " + second)) == DatePair(Some(CslDate(Some([[y, i + 1, j + 1]]))), None)
    ensures ParsedFirstMonth(year + " " + (first + " " + second)) == DatePair(Some(CslDate(Some([[y, i + 1]]))), None)
  {
    var text := year + " " + (first + " " + second);
    ThreeWordRuns(year, first, second, Digit);
    ThreeWordRuns(year, first, second, Letter);
    assert Runs(text, Digit) == [year] + [];
    assert Runs(text, Letter) == [first, second];
    YearOfRuns(text, year, y, []);
    NoDayAfterYear(text, year, y);
    assert MonthNumbers([first, second]) == [i + 1, j + 1] by {
      assert [first, second][..1] == [first];
      OneMonth(first, i);
    }
    ParsedFrom(text, y, [i + 1, j + 1], None);
    assert AssembleParts(y, [i + 1, j + 1], None) == [y, i + 1, j + 1];
    assert AssembleParts(y, [i + 1], None) == [y, i + 1];
  }

  lemma ThreeWordRuns(a: string, b: string, c: string, k: CharClass)
    ensures Runs(a + " " + (b + " " + c), k) == Runs(a, k) + Runs(b, k) + Runs(c, k)
  {
    RunsOfSeparated(b, ' ', c, k);
    RunsOfSeparated(a, ' ', b + " " + c, k);
  }
}

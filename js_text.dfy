/**
 * The JavaScript string built-ins that the converters rely on, written out
 * over `seq<char>`: `split` on a one-character separator, `join`,
 * `toUpperCase` (ASCII letters), `trim`, `endsWith`, and the conversions
 * between numbers and decimal text (`parseInt(t, 10)`, `Number#toString`).
 */
module JsText {

  // ---------------------------------------------------------------------
  // split / join

  /** `s.split(c)`: the pieces between the occurrences of `c`, in order. */
  function Split(s: string, c: char): (r: seq<string>)
    ensures |r| >= 1
    decreases |s|
  {
    if s == [] then [""]
    else
      var rest := Split(s[1..], c);
      if s[0] == c then [""] + rest
      else [[s[0]] + rest[0]] + rest[1..]
  }

  /** `parts.join(sep)`. */
  function Join(parts: seq<string>, sep: string): string
    decreases |parts|
  {
    if |parts| == 0 then ""
    else if |parts| == 1 then parts[0]
    else parts[0] + sep + Join(parts[1..], sep)
  }

  /** The text before the first `c` (all of `s` when there is none). */
  function Before(s: string, c: char): string
    decreases |s|
  {
    if s == [] || s[0] == c then [] else [s[0]] + Before(s[1..], c)
  }

  /** The text after the first `c` (empty when there is none). */
  function After(s: string, c: char): string
    decreases |s|
  {
    if s == [] then []
    else if s[0] == c then s[1..]
    else After(s[1..], c)
  }

  lemma {:induction false} BeforeAfterSplit(s: string, c: char)
    ensures c in s ==> s == Before(s, c) + [c] + After(s, c)
    ensures c !in s ==> Before(s, c) == s && After(s, c) == []
    ensures c !in Before(s, c)
    decreases |s|
  {
    if s != [] && s[0] != c {
      BeforeAfterSplit(s[1..], c);
      assert s == [s[0]] + s[1..];
    }
  }

  /** Before and After undo a concatenation around the first separator. */
  lemma {:induction false} BeforeAfterOfConcat(a: string, c: char, b: string)
    requires c !in a
    ensures Before(a + [c] + b, c) == a
    ensures After(a + [c] + b, c) == b
    decreases |a|
  {
    if a == [] {
      assert a + [c] + b == [c] + b;
    } else {
      assert (a + [c] + b)[1..] == a[1..] + [c] + b;
      BeforeAfterOfConcat(a[1..], c, b);
    }
  }

  /** The first piece of a split is the text before the first separator. */
  lemma {:induction false} SplitHead(s: string, c: char)
    ensures Split(s, c)[0] == Before(s, c)
    decreases |s|
  {
    if s != [] && s[0] != c {
      SplitHead(s[1..], c);
    }
  }

  /** The remaining pieces, re-joined with the separator, are the text after it. */
  lemma {:induction false} SplitTail(s: string, c: char)
    ensures |Split(s, c)| > 1 <==> c in s
    ensures Join(Split(s, c)[1..], [c]) == After(s, c)
    decreases |s|
  {
    if s == [] {
    } else if s[0] == c {
      JoinSplit(s[1..], c);
      assert Split(s, c)[1..] == Split(s[1..], c);
    } else {
      SplitTail(s[1..], c);
      assert Split(s, c)[1..] == Split(s[1..], c)[1..];
      assert c in s <==> c in s[1..] by {
        assert s == [s[0]] + s[1..];
      }
    }
  }

  /** Splitting then re-joining with the same separator gives the text back. */
  lemma {:induction false} JoinSplit(s: string, c: char)
    ensures Join(Split(s, c), [c]) == s
    decreases |s|
  {
    if s != [] {
      var rest := Split(s[1..], c);
      JoinSplit(s[1..], c);
      if s[0] == c {
        assert Split(s, c) == [""] + rest;
        assert Join(Split(s, c), [c]) == "" + [c] + Join(rest, [c]);
        assert s == [c] + s[1..];
      } else {
        var r := Split(s, c);
        assert r == [[s[0]] + rest[0]] + rest[1..];
        if |rest| == 1 {
          assert Join(rest, [c]) == rest[0];
          assert Join(r, [c]) == [s[0]] + rest[0];
        } else {
          assert Join(rest, [c]) == rest[0] + [c] + Join(rest[1..], [c]);
          assert r[1..] == rest[1..];
          assert Join(r, [c]) == ([s[0]] + rest[0]) + [c] + Join(rest[1..], [c]);
        }
        assert s == [s[0]] + s[1..];
      }
    }
  }

  /** No piece of a split contains the separator. */
  lemma {:induction false} SplitPiecesAvoidSeparator(s: string, c: char)
    ensures forall i :: 0 <= i < |Split(s, c)| ==> c !in Split(s, c)[i]
    decreases |s|
  {
    if s != [] {
      SplitPiecesAvoidSeparator(s[1..], c);
      var rest := Split(s[1..], c);
      if s[0] != c {
        var r := Split(s, c);
        assert r[0] == [s[0]] + rest[0];
        forall i | 0 <= i < |r| ensures c !in r[i] {
          if i > 0 {
            assert r[i] == rest[i];
          }
        }
      }
    }
  }

  /** Splitting a text without the separator gives the text alone. */
  lemma {:induction false} SplitWithoutSeparator(s: string, c: char)
    requires c !in s
    ensures Split(s, c) == [s]
    decreases |s|
  {
    if s != [] {
      SplitWithoutSeparator(s[1..], c);
      assert s == [s[0]] + s[1..];
    }
  }

  /** Splitting `a + [c] + b` where `a` has no `c` peels off `a`. */
  lemma {:induction false} SplitAtFirst(a: string, c: char, b: string)
    requires c !in a
    ensures Split(a + [c] + b, c) == [a] + Split(b, c)
    decreases |a|
  {
    if a == [] {
      assert a + [c] + b == [c] + b;
      assert ([c] + b)[1..] == b;
    } else {
      var s := a + [c] + b;
      assert s[1..] == a[1..] + [c] + b;
      SplitAtFirst(a[1..], c, b);
      assert [a[0]] + a[1..] == a;
    }
  }

  /** Joining pieces that avoid the separator, then splitting, gives the pieces back. */
  lemma {:induction false} SplitJoin(parts: seq<string>, c: char)
    requires |parts| >= 1
    requires forall i :: 0 <= i < |parts| ==> c !in parts[i]
    ensures Split(Join(parts, [c]), c) == parts
    decreases |parts|
  {
    if |parts| == 1 {
      SplitWithoutSeparator(parts[0], c);
    } else {
      SplitJoin(parts[1..], c);
      SplitAtFirst(parts[0], c, Join(parts[1..], [c]));
      assert parts == [parts[0]] + parts[1..];
    }
  }

  /** Joining a list extended by one piece. */
  lemma {:induction false} JoinSnoc(parts: seq<string>, x: string, sep: string)
    requires |parts| >= 1
    ensures Join(parts + [x], sep) == Join(parts, sep) + sep + x
    decreases |parts|
  {
    if |parts| == 1 {
      assert (parts + [x])[1..] == [x];
    } else {
      assert (parts + [x])[1..] == parts[1..] + [x];
      JoinSnoc(parts[1..], x, sep);
    }
  }

  /** A join ends with its last piece. */
  lemma JoinEndsWithLast(parts: seq<string>, sep: string)
    requires |parts| >= 1
    ensures var j := Join(parts, sep);
      var p := parts[|parts| - 1];
      |j| >= |p| && j[|j| - |p|..] == p
  {
    var p := parts[|parts| - 1];
    if |parts| > 1 {
      var init := parts[..|parts| - 1];
      assert parts == init + [p];
      JoinSnoc(init, p, sep);
      var front := Join(init, sep) + sep;
      assert (front + p)[|front|..] == p;
    }
  }

  /** A join of pieces and a separator that avoid `c` avoids `c`. */
  lemma {:induction false} JoinAvoids(parts: seq<string>, sep: string, c: char)
    requires c !in sep
    requires forall i :: 0 <= i < |parts| ==> c !in parts[i]
    ensures c !in Join(parts, sep)
    decreases |parts|
  {
    if |parts| > 1 {
      JoinAvoids(parts[1..], sep, c);
    }
  }

  // ---------------------------------------------------------------------
  // prefixes and suffixes

  /** `s.endsWith(suffix)`. */
  predicate EndsWith(s: string, suffix: string) {
    |suffix| <= |s| && s[|s| - |suffix|..] == suffix
  }

  // ---------------------------------------------------------------------
  // toUpperCase

  /** Upper-cases an ASCII letter; every other character is kept. */
  function UpperChar(ch: char): char {
    if 'a' <= ch <= 'z' then (ch as int - 32) as char else ch
  }

  /** `s.toUpperCase()` restricted to the ASCII letters. */
  function ToUpper(s: string): string {
    seq(|s|, i requires 0 <= i < |s| => UpperChar(s[i]))
  }

  /** Upper-casing leaves no lower-case ASCII letter and keeps the length. */
  lemma ToUpperHasNoLowerCase(s: string)
    ensures |ToUpper(s)| == |s|
    ensures forall i :: 0 <= i < |s| ==> !('a' <= ToUpper(s)[i] <= 'z')
  {
  }

  // ---------------------------------------------------------------------
  // trim

  /** The ECMAScript WhiteSpace and LineTerminator code points, which `trim` removes. */
  const JS_WHITESPACE: set<char> := {
    '\t', '\n', '\U{000B}', '\U{000C}', '\r', ' ', '\U{00A0}', '\U{1680}',
    '\U{2000}', '\U{2001}', '\U{2002}', '\U{2003}', '\U{2004}', '\U{2005}',
    '\U{2006}', '\U{2007}', '\U{2008}', '\U{2009}', '\U{200A}',
    '\U{2028}', '\U{2029}', '\U{202F}', '\U{205F}', '\U{3000}', '\U{FEFF}'
  }

  predicate IsJsWhitespace(ch: char) {
    ch in JS_WHITESPACE
  }

  function TrimStart(s: string): string
    decreases |s|
  {
    if s != [] && IsJsWhitespace(s[0]) then TrimStart(s[1..]) else s
  }

  function TrimEnd(s: string): string
    decreases |s|
  {
    if s != [] && IsJsWhitespace(s[|s| - 1]) then TrimEnd(s[..|s| - 1]) else s
  }

  /** `s.trim()`. */
  function Trim(s: string): string {
    TrimEnd(TrimStart(s))
  }

  /** A trimmed text is empty or starts and ends with a non-white-space character. */
  lemma {:induction false} TrimmedEnds(s: string)
    ensures var t := Trim(s); t == [] || (!IsJsWhitespace(t[0]) && !IsJsWhitespace(t[|t| - 1]))
  {
    TrimStartEnds(s);
    TrimEndEnds(TrimStart(s));
  }

  lemma {:induction false} TrimStartEnds(s: string)
    ensures var t := TrimStart(s); t == [] || !IsJsWhitespace(t[0])
    ensures var t := TrimStart(s); |t| <= |s| && t == s[|s| - |t|..]
    decreases |s|
  {
    if s != [] && IsJsWhitespace(s[0]) {
      TrimStartEnds(s[1..]);
    }
  }

  lemma {:induction false} TrimEndEnds(s: string)
    ensures var t := TrimEnd(s); |t| <= |s| && t == s[..|t|]
    ensures var t := TrimEnd(s); t == [] || !IsJsWhitespace(t[|t| - 1])
    ensures s == [] || !IsJsWhitespace(s[0]) ==> var t := TrimEnd(s); t == [] || t[0] == s[0]
    decreases |s|
  {
    if s != [] && IsJsWhitespace(s[|s| - 1]) {
      TrimEndEnds(s[..|s| - 1]);
    }
  }

  /** A text that starts and ends with non-white-space characters is its own trim. */
  lemma TrimOfTrimmed(s: string)
    requires s == [] || (!IsJsWhitespace(s[0]) && !IsJsWhitespace(s[|s| - 1]))
    ensures Trim(s) == s
  {
  }

  // ---------------------------------------------------------------------
  // digits and numbers

  predicate IsDigit(ch: char) {
    '0' <= ch <= '9'
  }

  predicate AllDigits(s: string) {
    forall i :: 0 <= i < |s| ==> IsDigit(s[i])
  }

  function DigitChar(d: nat): (ch: char)
    requires d < 10
    ensures IsDigit(ch)
  {
    ('0' as int + d) as char
  }

  function DigitValue(ch: char): nat
    requires IsDigit(ch)
  {
    ch as int - '0' as int
  }

  /** `parseInt(s, 10)` for a non-empty run of decimal digits. */
  function DecimalValue(s: string): nat
    requires AllDigits(s)
    decreases |s|
  {
    if s == [] then 0 else 10 * DecimalValue(s[..|s| - 1]) + DigitValue(s[|s| - 1])
  }

  /** The decimal text of a natural number, without leading zeros. */
  function NatToString(n: nat): (s: string)
    decreases n
  {
    if n < 10 then [DigitChar(n)] else NatToString(n / 10) + [DigitChar(n % 10)]
  }

  /** `String(i)` for an integer (below 10^21, where JavaScript switches to exponents). */
  function IntToString(i: int): string {
    if i < 0 then "-" + NatToString(-i) else NatToString(i)
  }

  /** The decimal text is digits only, has no leading zero, and reads back as the number. */
  lemma {:induction false} NatToStringDigits(n: nat)
    ensures AllDigits(NatToString(n)) && |NatToString(n)| >= 1
    ensures DecimalValue(NatToString(n)) == n
    ensures n >= 10 ==> NatToString(n)[0] != '0'
    ensures n < 10 ==> |NatToString(n)| == 1
    ensures 10 <= n < 100 ==> NatToString(n) == [DigitChar(n / 10), DigitChar(n % 10)]
    ensures 100 <= n < 1000 ==> |NatToString(n)| == 3
    ensures 1000 <= n < 10000 ==> |NatToString(n)| == 4
    decreases n
  {
    if n >= 10 {
      NatToStringDigits(n / 10);
      var s := NatToString(n);
      assert s[..|s| - 1] == NatToString(n / 10);
      if 10 <= n < 100 {
        assert NatToString(n / 10) == [DigitChar(n / 10)];
      }
    }
  }

  /** Ten to the power `k`. */
  function Pow10(k: nat): nat {
    if k == 0 then 1 else 10 * Pow10(k - 1)
  }

  /** A run of `k` digits reads as a number below 10^k. */
  lemma {:induction false} DecimalValueBelow(s: string)
    requires AllDigits(s)
    ensures DecimalValue(s) < Pow10(|s|)
    decreases |s|
  {
    if s != [] {
      DecimalValueBelow(s[..|s| - 1]);
    }
  }

  /** A two-digit run reads as ten times its first digit plus its second. */
  lemma TwoDigitValue(s: string)
    requires AllDigits(s) && |s| == 2
    ensures DecimalValue(s) == 10 * DigitValue(s[0]) + DigitValue(s[1])
  {
    var first := s[..1];
    assert DecimalValue(s) == 10 * DecimalValue(first) + DigitValue(s[1]);
    assert first[..0] == [];
    assert DecimalValue(first) == DigitValue(s[0]);
  }
}

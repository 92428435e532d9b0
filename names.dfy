/**
 * The name converters: `NAME` (one display name, with an optional suffix
 * after the first comma), `SINGLE_NAME` (a literal name), `NAMES` (a list)
 * and `EDITORS` (a list whose last entry carries ", (ed)" or ", (eds)").
 *
 * Parsing and formatting a personal name is done by an external library;
 * here it is the pair of functions `parse` and `format` handed in by the
 * caller.  Where a round trip needs them to undo each other on the name or
 * text at hand, the lemma says so in its requires clause, for that name or
 * text only.
 */
module Names {
  import opened Wrappers
  import opened JsText

  /** A CSL name: structured (family, given) or a single literal, with an optional suffix. */
  datatype Name = Name(family: Option<string>, given: Option<string>, literal: Option<string>, suffix: Option<string>)

  /** Whether an optional string is truthy in JavaScript (present and not empty). */
  predicate Truthy(s: Option<string>) {
    s.Some? && s.value != ""
  }

  // ---------------------------------------------------------------------
  // NAME

  /**
   * `NAME.toTarget`: the text before the first comma is parsed; when there
   * is a comma, everything after it (commas included) replaces the suffix.
   */
  function NameToTarget(parse: string -> Name, name: string): Name {
    var pieces := Split(name, ',');
    var parsed := parse(pieces[0]);
    if |pieces| > 1 then parsed.(suffix := Some(Join(pieces[1..], ","))) else parsed
  }

  /** `NAME.toSource`: formats the name without its suffix, then re-appends a truthy suffix after a comma. */
  function NameToSource(format: Name -> string, name: Name): string {
    var formatted := format(name.(suffix := None));
    if Truthy(name.suffix) then formatted + "," + name.suffix.value else formatted
  }

  /** `NAME.toTarget` splits at the first comma only. */
  lemma NameToTargetSplitsAtFirstComma(parse: string -> Name, name: string)
    ensures NameToTarget(parse, name) ==
      if ',' in name then parse(Before(name, ',')).(suffix := Some(After(name, ',')))
      else parse(name)
  {
    SplitHead(name, ',');
    SplitTail(name, ',');
    BeforeAfterSplit(name, ',');
  }

  /**
   * The name library reads the text `m` as a name without a suffix and
   * formats that name back as `m`: `formatName(parseName(m)) == m`.
   */
  predicate TextReadsBack(parse: string -> Name, format: Name -> string, m: string) {
    parse(m).suffix.None? && format(parse(m)) == m
  }

  /**
   * The name library formats `n` without its suffix as a text without
   * commas, and parses that text back as `n` without its suffix.
   */
  predicate NameReadsBack(parse: string -> Name, format: Name -> string, n: Name) {
    var bare := n.(suffix := None);
    ',' !in format(bare) && parse(format(bare)) == bare
  }

  /**
   * Text to name and back gives the text again, except that a comma with
   * nothing after it is lost (an empty suffix is falsy and not re-appended).
   */
  lemma NameSourceRoundTrip(parse: string -> Name, format: Name -> string, name: string)
    requires TextReadsBack(parse, format, Before(name, ','))
    ensures NameToSource(format, NameToTarget(parse, name)) ==
      if ',' in name && After(name, ',') == "" then Before(name, ',') else name
  {
    NameToTargetSplitsAtFirstComma(parse, name);
    BeforeAfterSplit(name, ',');
    if ',' in name {
      var main := Before(name, ',');
      assert parse(main).suffix.None? && format(parse(main)) == main;
      assert parse(main).(suffix := Some(After(name, ','))).(suffix := None) == parse(main);
    } else {
      assert Before(name, ',') == name;
      assert parse(name).suffix.None? && format(parse(name)) == name;
      assert parse(name).(suffix := None) == parse(name);
    }
  }

  /** Name to text and back gives the name again, with an empty suffix dropped. */
  lemma NameTargetRoundTrip(parse: string -> Name, format: Name -> string, n: Name)
    requires NameReadsBack(parse, format, n)
    ensures NameToTarget(parse, NameToSource(format, n)) == if Truthy(n.suffix) then n else n.(suffix := None)
  {
    var bare := n.(suffix := None);
    assert ',' !in format(bare) && parse(format(bare)) == bare;
    var text := NameToSource(format, n);
    NameToTargetSplitsAtFirstComma(parse, text);
    if Truthy(n.suffix) {
      BeforeAfterOfConcat(format(bare), ',', n.suffix.value);
      assert text == format(bare) + [','] + n.suffix.value;
    }
  }

  // ---------------------------------------------------------------------
  // SINGLE_NAME

  /** `SINGLE_NAME.toTarget`: the whole text as one literal name. */
  function SingleNameToTarget(literal: string): seq<Name> {
    [Name(None, None, Some(literal), None)]
  }

  /** `SINGLE_NAME.toSource`: the literal of the first name (`None` when it has none). */
  function SingleNameToSource(names: seq<Name>): Option<string>
    requires |names| >= 1  // the parameter pattern `[{ literal }]` throws on an empty list
  {
    names[0].literal
  }

  /** A literal survives both directions, and a lone literal name does too. */
  lemma SingleNameRoundTrip(literal: string, names: seq<Name>)
    ensures SingleNameToSource(SingleNameToTarget(literal)) == Some(literal)
    ensures |names| == 1 && names[0] == Name(None, None, names[0].literal, None) && names[0].literal.Some? ==>
      SingleNameToTarget(SingleNameToSource(names).value) == names
  {
  }

  // ---------------------------------------------------------------------
  // NAMES

  /** `NAMES.toTarget`: `NAME.toTarget` on every entry. */
  function NamesToTarget(parse: string -> Name, names: seq<string>): seq<Name> {
    seq(|names|, i requires 0 <= i < |names| => NameToTarget(parse, names[i]))
  }

  /** `NAMES.toSource`: `NAME.toSource` on every entry. */
  function NamesToSource(format: Name -> string, names: seq<Name>): seq<string> {
    seq(|names|, i requires 0 <= i < |names| => NameToSource(format, names[i]))
  }

  /** A list of texts whose commas all have something after them survives both directions. */
  lemma NamesSourceRoundTrip(parse: string -> Name, format: Name -> string, names: seq<string>)
    requires forall i :: 0 <= i < |names| ==> TextReadsBack(parse, format, Before(names[i], ','))
    requires forall i :: 0 <= i < |names| && ',' in names[i] ==> After(names[i], ',') != ""
    ensures NamesToSource(format, NamesToTarget(parse, names)) == names
  {
    forall i | 0 <= i < |names|
      ensures NameToSource(format, NameToTarget(parse, names[i])) == names[i]
    {
      NameSourceRoundTrip(parse, format, names[i]);
    }
  }

  /** A list of names without empty suffixes survives both directions. */
  lemma NamesTargetRoundTrip(parse: string -> Name, format: Name -> string, names: seq<Name>)
    requires forall i :: 0 <= i < |names| ==> NameReadsBack(parse, format, names[i])
    requires forall i :: 0 <= i < |names| ==> names[i].suffix != Some("")
    ensures NamesToTarget(parse, NamesToSource(format, names)) == names
  {
    forall i | 0 <= i < |names|
      ensures NameToTarget(parse, NameToSource(format, names[i])) == names[i]
    {
      NameTargetRoundTrip(parse, format, names[i]);
    }
  }

  // ---------------------------------------------------------------------
  // EDITORS

  const SINGLE_EDITOR_MARK: string := ", (ed)"
  const EDITORS_MARK: string := ", (eds)"

  /** `EDITORS_SUFFIX.test(s)`, the expression `/, \(eds?\)$/`. */
  predicate HasEditorsSuffix(s: string) {
    EndsWith(s, SINGLE_EDITOR_MARK) || EndsWith(s, EDITORS_MARK)
  }

  /** `s.replace(EDITORS_SUFFIX, '')`: the expression is anchored at the end, so it removes one trailing mark. */
  function StripEditorsSuffix(s: string): string {
    if EndsWith(s, EDITORS_MARK) then s[..|s| - |EDITORS_MARK|]
    else if EndsWith(s, SINGLE_EDITOR_MARK) then s[..|s| - |SINGLE_EDITOR_MARK|]
    else s
  }

  /** The texts `EDITORS.toTarget` hands to `NAMES.toTarget`: the last entry without its mark. */
  function StrippedEditors(names: seq<string>): seq<string>
    requires |names| >= 1
  {
    names[..|names| - 1] + [StripEditorsSuffix(names[|names| - 1])]
  }

  /**
   * The texts `EDITORS.toSource` returns after `NAMES.toSource`: ", (eds)"
   * after the last of several entries, ", (ed)" after a single one.  On an
   * empty list, `names[0] += ', (ed)'` stores `undefined + ', (ed)'`.
   */
  function MarkedEditors(names: seq<string>): seq<string> {
    if |names| > 1 then names[|names| - 1 := names[|names| - 1] + EDITORS_MARK]
    else if |names| == 1 then [names[0] + SINGLE_EDITOR_MARK]
    else ["undefined" + SINGLE_EDITOR_MARK]
  }

  /** `EDITORS.toTarget`, on a copy of the list: pop the last entry, push it back without its mark, parse all. */
  method EditorsToTarget(parse: string -> Name, names: seq<string>) returns (r: seq<Name>)
    requires |names| >= 1  // `names.pop()` on an empty copy is undefined, and `undefined.replace` throws
    ensures |r| == |names|
    ensures forall i :: 0 <= i < |names| - 1 ==> r[i] == NameToTarget(parse, names[i])
    ensures r[|names| - 1] == NameToTarget(parse, StripEditorsSuffix(names[|names| - 1]))
    ensures r == NamesToTarget(parse, StrippedEditors(names))
  {
    var copy := names;
    var last := copy[|copy| - 1];
    copy := copy[..|copy| - 1];
    copy := copy + [StripEditorsSuffix(last)];
    r := NamesToTarget(parse, copy);
  }

  /** `EDITORS.toSource`: format every name, then append the mark to the last entry in place. */
  method EditorsToSource(format: Name -> string, names: seq<Name>) returns (r: seq<string>)
    ensures |r| == if |names| == 0 then 1 else |names|
    ensures forall i :: 0 <= i < |names| - 1 ==> r[i] == NameToSource(format, names[i])
    ensures |names| > 1 ==> r[|names| - 1] == NameToSource(format, names[|names| - 1]) + EDITORS_MARK
    ensures |names| == 1 ==> r[0] == NameToSource(format, names[0]) + SINGLE_EDITOR_MARK
    ensures r == MarkedEditors(NamesToSource(format, names))
  {
    r := NamesToSource(format, names);
    if |r| > 1 {
      r := r[|r| - 1 := r[|r| - 1] + EDITORS_MARK];
    } else if |r| == 1 {
      r := r[0 := r[0] + SINGLE_EDITOR_MARK];
    } else {
      r := ["undefined" + SINGLE_EDITOR_MARK];
    }
  }

  /** Appending a mark and stripping it gives the text back; the two marks are not confused. */
  lemma StripAfterMark(s: string)
    ensures StripEditorsSuffix(s + EDITORS_MARK) == s
    ensures StripEditorsSuffix(s + SINGLE_EDITOR_MARK) == s
    ensures !EndsWith(s + SINGLE_EDITOR_MARK, EDITORS_MARK)
  {
    var t := s + SINGLE_EDITOR_MARK;
    assert t[|t| - 2] == 'd';
    assert (s + EDITORS_MARK)[..|s|] == s;
    assert t[..|s|] == s;
  }

  /** Marking then stripping gives the list back. */
  lemma StripMarked(names: seq<string>)
    requires |names| >= 1
    ensures StrippedEditors(MarkedEditors(names)) == names
  {
    StripAfterMark(names[|names| - 1]);
  }

  /**
   * Stripping then marking gives the list back exactly when its last entry
   * carries the mark that matches the list's length.
   */
  lemma MarkStripped(names: seq<string>)
    requires |names| >= 1
    ensures MarkedEditors(StrippedEditors(names)) == names <==>
      EndsWith(names[|names| - 1], if |names| > 1 then EDITORS_MARK else SINGLE_EDITOR_MARK)
  {
    var last := names[|names| - 1];
    var marked := MarkedEditors(StrippedEditors(names));
    var mark := if |names| > 1 then EDITORS_MARK else SINGLE_EDITOR_MARK;
    var stripped := StripEditorsSuffix(last);
    assert marked[|names| - 1] == stripped + mark;
    assert EndsWith(stripped + mark, mark) by {
      assert (stripped + mark)[|stripped|..] == mark;
    }
    if EndsWith(last, mark) {
      if mark == SINGLE_EDITOR_MARK {
        assert !EndsWith(last, EDITORS_MARK) by {
          assert last[|last| - 2] == 'd';
        }
      }
      assert stripped + mark == last;
      assert marked == names;
    }
  }

  /** The last entry of marked editors always carries a mark, so it reads back as editors. */
  lemma MarkedHasSuffix(names: seq<string>)
    ensures |MarkedEditors(names)| >= 1
    ensures HasEditorsSuffix(MarkedEditors(names)[|MarkedEditors(names)| - 1])
  {
    var m := MarkedEditors(names);
    var last := m[|m| - 1];
    if |names| > 1 {
      var s := names[|names| - 1];
      assert last == s + EDITORS_MARK;
      assert last[|last| - |EDITORS_MARK|..] == EDITORS_MARK;
    } else {
      var s := if |names| == 1 then names[0] else "undefined";
      assert last == s + SINGLE_EDITOR_MARK;
      assert last[|last| - |SINGLE_EDITOR_MARK|..] == SINGLE_EDITOR_MARK;
    }
  }

  /** Editors to text and back to names gives the editors again. */
  lemma EditorsRoundTrip(parse: string -> Name, format: Name -> string, names: seq<Name>)
    requires forall i :: 0 <= i < |names| ==> NameReadsBack(parse, format, names[i])
    requires |names| >= 1
    requires forall i :: 0 <= i < |names| ==> names[i].suffix != Some("")
    ensures NamesToTarget(parse, StrippedEditors(MarkedEditors(NamesToSource(format, names)))) == names
  {
    StripMarked(NamesToSource(format, names));
    NamesTargetRoundTrip(parse, format, names);
  }
}

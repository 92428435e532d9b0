/**
 * Reading refer text.  A record is a block of lines `%X value`; the code
 * is what stands between the one-character marker and the first space,
 * the value everything after that space.  A file is a sequence of records
 * separated by blank lines.
 */
module Input {
  import opened JsText
  import opened Fields
  import opened RecordTypes

  // ---------------------------------------------------------------------
  // one line

  /** `line.slice(1)`: the line without its marker character. */
  function Rest(line: string): string {
    if line == [] then [] else line[1..]
  }

  /** `field.toUpperCase()` of the first piece of `line.slice(1).split(' ')`. */
  function LineCode(line: string): string {
    ToUpper(Split(Rest(line), ' ')[0])
  }

  /** The remaining pieces re-joined with `' '`. */
  function LineValue(line: string): string {
    Join(Split(Rest(line), ' ')[1..], " ")
  }

  /** The code is the upper-cased text before the first space, the value all the text after it. */
  lemma LineParts(line: string)
    ensures LineCode(line) == ToUpper(Before(Rest(line), ' '))
    ensures LineValue(line) == After(Rest(line), ' ')
  {
    SplitHead(Rest(line), ' ');
    SplitTail(Rest(line), ' ');
  }

  /** A line the way `formatRecord` writes it reads back as its code and value. */
  lemma LineOf(code: string, value: string)
    requires ' ' !in code
    ensures LineCode("%" + code + " " + value) == ToUpper(code)
    ensures LineValue("%" + code + " " + value) == value
  {
    var line := "%" + code + " " + value;
    assert Rest(line) == code + [' '] + value;
    LineParts(line);
    BeforeAfterOfConcat(code, ' ', value);
  }

  /** The repeatable codes, whose values accumulate in a list. */
  predicate IsListCode(code: string) {
    code == "A" || code == "E"
  }

  /** What the parser ever stores: lists under the repeatable codes, texts under all others. */
  predicate WellShaped(fields: FieldMap) {
    forall k :: k in fields.values ==> (IsListCode(k) <==> fields.values[k].List?)
  }

  /** Storing a list under a repeatable code, or a text under another code, keeps the map well shaped. */
  lemma PutKeepsShape(fields: FieldMap, code: string, v: FieldValue)
    requires WellShaped(fields)
    requires IsListCode(code) <==> v.List?
    ensures WellShaped(Put(fields, code, v))
  {
  }

  /** The list stored under `code` so far, or none. */
  function ItemsAt(fields: FieldMap, code: string): seq<string> {
    if Has(fields, code) && fields.values[code].List? then fields.values[code].items else []
  }

  /** The effect of one line of the loop body on the field map. */
  function AddLine(fields: FieldMap, line: string): FieldMap {
    var code := LineCode(line);
    var value := LineValue(line);
    if value == "" then fields
    else if IsListCode(code) then Put(fields, code, List(ItemsAt(fields, code) + [value]))
    else Put(fields, code, Text(value))
  }

  /** A line with nothing after its first space (or with no space at all) changes nothing. */
  lemma EmptyValueSkipped(fields: FieldMap, line: string)
    requires ' ' !in Rest(line) || After(Rest(line), ' ') == ""
    ensures AddLine(fields, line) == fields
  {
    LineParts(line);
    BeforeAfterSplit(Rest(line), ' ');
  }

  /** The lines of a record, applied in order. */
  function FoldLines(fields: FieldMap, lines: seq<string>): FieldMap
    decreases |lines|
  {
    if lines == [] then fields else FoldLines(AddLine(fields, lines[0]), lines[1..])
  }

  /** Lists only ever land under the repeatable codes, and texts under the others. */
  lemma {:induction false} FoldLinesKeepsShape(fields: FieldMap, lines: seq<string>)
    requires WellShaped(fields)
    ensures WellShaped(FoldLines(fields, lines))
    decreases |lines|
  {
    if lines != [] {
      var code := LineCode(lines[0]);
      if LineValue(lines[0]) != "" {
        if IsListCode(code) {
          PutKeepsShape(fields, code, List(ItemsAt(fields, code) + [LineValue(lines[0])]));
        } else {
          PutKeepsShape(fields, code, Text(LineValue(lines[0])));
        }
      }
      FoldLinesKeepsShape(AddLine(fields, lines[0]), lines[1..]);
    }
  }

  /** The field map `parseRecord` builds from `record`. */
  function FieldsOf(record: string): FieldMap {
    FoldLines(Empty, Split(record, '\n'))
  }

  /** The result of `parseRecord(record)`. */
  function RecordOf(record: string): Record {
    var fields := FieldsOf(record);
    Record("refer", RecordTypeOf(fields), fields)
  }

  /**
   * The body of `parseRecord`'s loop: a repeatable code gets an empty list
   * when it is new and then the value pushed onto it; any other code is
   * overwritten; an empty value is skipped.
   */
  method StoreLine(fields: FieldMap, line: string) returns (next: FieldMap)
    requires WellShaped(fields)
    ensures next == AddLine(fields, line)
    ensures WellShaped(next)
  {
    var field := LineCode(line);
    var value := LineValue(line);
    next := fields;
    if value != "" {
      if field == "A" || field == "E" {
        if !Has(next, field) {
          PutKeepsShape(next, field, List([]));
          next := Put(next, field, List([]));
          PutPut(fields, field, List([]), List([value]));
          assert [] + [value] == [value];
        }
        PutKeepsShape(next, field, List(next.values[field].items + [value]));
        next := Put(next, field, List(next.values[field].items + [value]));
      } else {
        PutKeepsShape(next, field, Text(value));
        next := Put(next, field, Text(value));
      }
    }
  }

  /** `parseRecord`: fill the field map line by line, then classify it. */
  method ParseRecord(record: string) returns (r: Record)
    ensures r == RecordOf(record)
    ensures r.scheme == "refer" && r.recordType in TYPES
  {
    var fields: FieldMap := Empty;
    var lines := Split(record, '\n');
    var i := 0;
    while i < |lines|
      invariant 0 <= i <= |lines|
      invariant WellShaped(fields)
      invariant FoldLines(fields, lines[i..]) == FieldsOf(record)
    {
      assert lines[i..][1..] == lines[i + 1..];
      fields := StoreLine(fields, lines[i]);
      i := i + 1;
    }
    var recordType := GetRecordType(fields);
    r := Record("refer", recordType, fields);
  }

  // ---------------------------------------------------------------------
  // what a record's lines leave in the field map

  /** The value one line contributes to `code`: its value when it has that code and a non-empty value. */
  function LineValuesFor(line: string, code: string): seq<string> {
    if LineCode(line) == code && LineValue(line) != "" then [LineValue(line)] else []
  }

  /** The non-empty values of the lines whose code is `code`, in line order. */
  function ValuesFor(lines: seq<string>, code: string): seq<string>
    decreases |lines|
  {
    if lines == [] then [] else LineValuesFor(lines[0], code) + ValuesFor(lines[1..], code)
  }

  /** One line, seen from one code. */
  lemma AddLineAt(fields: FieldMap, line: string, code: string)
    ensures var next := AddLine(fields, line);
      var here := LineValuesFor(line, code);
      && (Has(next, code) <==> Has(fields, code) || here != [])
      && (here == [] && Has(fields, code) ==> next.values[code] == fields.values[code])
      && (here != [] && IsListCode(code) ==>
            next.values[code] == List(ItemsAt(fields, code) + here))
      && (here != [] && !IsListCode(code) ==> next.values[code] == Text(LineValue(line)))
  {
    var c, value := LineCode(line), LineValue(line);
    if value != "" {
      if c == code {
        PutSame(fields, code, if IsListCode(code) then List(ItemsAt(fields, code) + [value]) else Text(value));
      } else if IsListCode(c) {
        PutOther(fields, c, List(ItemsAt(fields, c) + [value]), code);
      } else {
        PutOther(fields, c, Text(value), code);
      }
    }
  }

  /** A code is present after the lines exactly when it was before or some line gives it a value. */
  lemma {:induction false} FoldLinesHas(fields: FieldMap, lines: seq<string>, code: string)
    ensures Has(FoldLines(fields, lines), code) <==> Has(fields, code) || ValuesFor(lines, code) != []
    decreases |lines|
  {
    if lines != [] {
      AddLineAt(fields, lines[0], code);
      FoldLinesHas(AddLine(fields, lines[0]), lines[1..], code);
    }
  }

  /** A code no line gives a value keeps the value it had. */
  lemma {:induction false} FoldLinesKeeps(fields: FieldMap, lines: seq<string>, code: string)
    requires ValuesFor(lines, code) == [] && Has(fields, code)
    ensures Has(FoldLines(fields, lines), code) && FoldLines(fields, lines).values[code] == fields.values[code]
    decreases |lines|
  {
    if lines != [] {
      AddLineAt(fields, lines[0], code);
      FoldLinesKeeps(AddLine(fields, lines[0]), lines[1..], code);
    }
  }

  /** One line adds its value, if any, to the list of a repeatable code. */
  lemma ItemsAfterLine(fields: FieldMap, line: string, code: string)
    requires IsListCode(code)
    ensures ItemsAt(AddLine(fields, line), code) == ItemsAt(fields, code) + LineValuesFor(line, code)
  {
    var c, value := LineCode(line), LineValue(line);
    if value == "" {
      assert LineValuesFor(line, code) == [];
    } else if c == code {
      PutSame(fields, code, List(ItemsAt(fields, code) + [value]));
    } else {
      assert LineValuesFor(line, code) == [];
      if IsListCode(c) {
        PutOther(fields, c, List(ItemsAt(fields, c) + [value]), code);
      } else {
        PutOther(fields, c, Text(value), code);
      }
    }
  }

  /** The lines add all their values for a repeatable code, in order. */
  lemma {:induction false} ItemsAfterLines(fields: FieldMap, lines: seq<string>, code: string)
    requires IsListCode(code)
    ensures ItemsAt(FoldLines(fields, lines), code) == ItemsAt(fields, code) + ValuesFor(lines, code)
    decreases |lines|
  {
    if lines != [] {
      var next := AddLine(fields, lines[0]);
      var prior, here, later := ItemsAt(fields, code), LineValuesFor(lines[0], code), ValuesFor(lines[1..], code);
      assert FoldLines(fields, lines) == FoldLines(next, lines[1..]);
      assert ValuesFor(lines, code) == here + later;
      ItemsAfterLine(fields, lines[0], code);
      ItemsAfterLines(next, lines[1..], code);
      assert prior + here + later == prior + (here + later);
    }
  }

  /** A repeatable code that some line gives a value ends up holding a list. */
  lemma {:induction false} FoldLinesMakesList(fields: FieldMap, lines: seq<string>, code: string)
    requires IsListCode(code) && ValuesFor(lines, code) != []
    ensures Has(FoldLines(fields, lines), code) && FoldLines(fields, lines).values[code].List?
    decreases |lines|
  {
    var next := AddLine(fields, lines[0]);
    AddLineAt(fields, lines[0], code);
    if ValuesFor(lines[1..], code) == [] {
      FoldLinesKeeps(next, lines[1..], code);
    } else {
      FoldLinesMakesList(next, lines[1..], code);
    }
  }

  /** A repeatable code collects all its values in line order, after those it already had. */
  lemma FoldLinesCollects(fields: FieldMap, lines: seq<string>, code: string)
    requires IsListCode(code) && ValuesFor(lines, code) != []
    ensures Has(FoldLines(fields, lines), code)
    ensures FoldLines(fields, lines).values[code] == List(ItemsAt(fields, code) + ValuesFor(lines, code))
  {
    FoldLinesMakesList(fields, lines, code);
    ItemsAfterLines(fields, lines, code);
  }

  /** Any other code keeps the last value a line gave it. */
  lemma {:induction false} FoldLinesOverwrites(fields: FieldMap, lines: seq<string>, code: string)
    requires !IsListCode(code) && ValuesFor(lines, code) != []
    ensures Has(FoldLines(fields, lines), code)
    ensures FoldLines(fields, lines).values[code] == Text(ValuesFor(lines, code)[|ValuesFor(lines, code)| - 1])
    decreases |lines|
  {
    var next := AddLine(fields, lines[0]);
    var here := LineValuesFor(lines[0], code);
    var later := ValuesFor(lines[1..], code);
    assert FoldLines(fields, lines) == FoldLines(next, lines[1..]);
    assert ValuesFor(lines, code) == here + later;
    if later == [] {
      assert ValuesFor(lines, code) == here;
      OverwrittenByFirstLine(fields, lines, code);
    } else {
      FoldLinesOverwrites(next, lines[1..], code);
      LastOfConcat(here, later);
    }
  }

  /** When only the first line gives `code` a value, that value is what the lines leave. */
  lemma OverwrittenByFirstLine(fields: FieldMap, lines: seq<string>, code: string)
    requires !IsListCode(code) && lines != []
    requires LineValuesFor(lines[0], code) != [] && ValuesFor(lines[1..], code) == []
    ensures Has(FoldLines(AddLine(fields, lines[0]), lines[1..]), code)
    ensures FoldLines(AddLine(fields, lines[0]), lines[1..]).values[code] == Text(LineValue(lines[0]))
  {
    AddLineAt(fields, lines[0], code);
    FoldLinesKeeps(AddLine(fields, lines[0]), lines[1..], code);
  }

  lemma LastOfConcat<T>(a: seq<T>, b: seq<T>)
    requires b != []
    ensures (a + b)[|a + b| - 1] == b[|b| - 1]
  {
  }

  /** The field map of a record, code by code: the reference reading of `parseRecord`. */
  lemma FieldsOfRecord(record: string, code: string)
    ensures var values := ValuesFor(Split(record, '\n'), code);
      && (Has(FieldsOf(record), code) <==> values != [])
      && (values != [] && IsListCode(code) ==> FieldsOf(record).values[code] == List(values))
      && (values != [] && !IsListCode(code) ==> FieldsOf(record).values[code] == Text(values[|values| - 1]))
  {
    var lines := Split(record, '\n');
    assert !Has(Empty, code);
    FoldLinesHas(Empty, lines, code);
    if ValuesFor(lines, code) != [] {
      if IsListCode(code) {
        assert ItemsAt(Empty, code) == [];
        FoldLinesCollects(Empty, lines, code);
        assert [] + ValuesFor(lines, code) == ValuesFor(lines, code);
      } else {
        FoldLinesOverwrites(Empty, lines, code);
      }
    }
  }

  /** Folding two runs of lines is folding their concatenation. */
  lemma {:induction false} FoldLinesAppend(fields: FieldMap, a: seq<string>, b: seq<string>)
    ensures FoldLines(fields, a + b) == FoldLines(FoldLines(fields, a), b)
    decreases |a|
  {
    if a == [] {
      assert a + b == b;
    } else {
      assert (a + b)[0] == a[0];
      assert (a + b)[1..] == a[1..] + b;
      FoldLinesAppend(AddLine(fields, a[0]), a[1..], b);
    }
  }

  // ---------------------------------------------------------------------
  // a file

  /** `replace(/\r\n?/g, '\n')`: every CR LF pair and every lone CR becomes one LF. */
  function NormalizeLineEndings(s: string): (r: string)
    ensures '\r' !in r
    ensures '\r' !in s ==> r == s
    decreases |s|
  {
    if s == [] then []
    else if s[0] == '\r' then
      if |s| > 1 && s[1] == '\n' then "\n" + NormalizeLineEndings(s[2..])
      else "\n" + NormalizeLineEndings(s[1..])
    else [s[0]] + NormalizeLineEndings(s[1..])
  }

  /** Normalising keeps a first and a last character that are not CR. */
  lemma NormalizeKeepsEnds(s: string)
    requires s != [] && s[0] != '\r' && s[|s| - 1] != '\r'
    ensures var r := NormalizeLineEndings(s); r != [] && r[0] == s[0] && r[|r| - 1] == s[|s| - 1]
  {
    NormalizeKeepsLast(s);
  }

  lemma {:induction false} NormalizeKeepsLast(s: string)
    requires s != [] && s[|s| - 1] != '\r'
    ensures var r := NormalizeLineEndings(s); r != [] && r[|r| - 1] == s[|s| - 1]
    decreases |s|
  {
    if s[0] == '\r' {
      if |s| > 1 && s[1] == '\n' {
        if |s| > 2 {
          NormalizeKeepsLast(s[2..]);
        }
      } else {
        NormalizeKeepsLast(s[1..]);
      }
    } else if |s| > 1 {
      NormalizeKeepsLast(s[1..]);
    }
  }

  /**
   * The trim runs before the line endings are normalised, but nothing is
   * lost by that order: normalising a trimmed text leaves nothing to trim.
   */
  lemma NormalizedTrimmed(file: string)
    ensures Trim(NormalizeLineEndings(Trim(file))) == NormalizeLineEndings(Trim(file))
  {
    var t := Trim(file);
    TrimmedEnds(file);
    if t != [] {
      NormalizeKeepsEnds(t);
      TrimOfTrimmed(NormalizeLineEndings(t));
    }
  }

  /** The text without its leading LF characters. */
  function DropNewlines(s: string): (r: string)
    ensures r == [] || r[0] != '\n'
    ensures s != [] && s[0] == '\n' ==> |r| < |s|
    ensures |r| <= |s|
    decreases |s|
  {
    if s != [] && s[0] == '\n' then DropNewlines(s[1..]) else s
  }

  /** `split(/\n\n+/)`: the blocks between maximal runs of two or more LF characters. */
  function SplitRecords(s: string): (r: seq<string>)
    ensures |r| >= 1
    decreases |s|
  {
    if s == [] then [""]
    else if |s| >= 2 && s[0] == '\n' && s[1] == '\n' then [""] + SplitRecords(DropNewlines(s))
    else
      var rest := SplitRecords(s[1..]);
      [[s[0]] + rest[0]] + rest[1..]
  }

  /** Two LF characters in a row start at index `i`. */
  predicate BlankAt(b: string, i: nat)
    requires i < |b| - 1
  {
    b[i] == '\n' && b[i + 1] == '\n'
  }

  /** A block holds no blank line: no two LF characters in a row. */
  predicate NoBlankLine(b: string) {
    forall i :: 0 <= i < |b| - 1 ==> !BlankAt(b, i)
  }

  /** No block of `split(/\n\n+/)` contains a blank line. */
  lemma {:induction false} SplitRecordsHaveNoBlankLine(s: string)
    ensures forall i :: 0 <= i < |SplitRecords(s)| ==> NoBlankLine(SplitRecords(s)[i])
    ensures s != [] && !(|s| >= 2 && s[0] == '\n' && s[1] == '\n') ==>
      SplitRecords(s)[0] != [] && SplitRecords(s)[0][0] == s[0]
    decreases |s|
  {
    if s == [] {
    } else if |s| >= 2 && s[0] == '\n' && s[1] == '\n' {
      SplitRecordsHaveNoBlankLine(DropNewlines(s));
    } else {
      var rest := SplitRecords(s[1..]);
      SplitRecordsHaveNoBlankLine(s[1..]);
      var b := [s[0]] + rest[0];
      assert NoBlankLine(b) by {
        forall i | 0 <= i < |b| - 1
          ensures !BlankAt(b, i)
        {
          if i > 0 {
            assert !BlankAt(rest[0], i - 1);
            assert b[i] == rest[0][i - 1] && b[i + 1] == rest[0][i];
          }
        }
      }
      var r := SplitRecords(s);
      forall i | 0 <= i < |r|
        ensures NoBlankLine(r[i])
      {
        if i > 0 {
          assert r[i] == rest[i];
        }
      }
    }
  }

  /** A block without blank lines is not split. */
  lemma {:induction false} SplitRecordsOfBlock(b: string)
    requires NoBlankLine(b)
    ensures SplitRecords(b) == [b]
    decreases |b|
  {
    if b != [] {
      if |b| >= 2 {
        assert !BlankAt(b, 0);
      }
      assert NoBlankLine(b[1..]) by {
        forall i | 0 <= i < |b[1..]| - 1
          ensures !BlankAt(b[1..], i)
        {
          assert !BlankAt(b, i + 1);
          assert b[1..][i] == b[i + 1] && b[1..][i + 1] == b[i + 2];
        }
      }
      SplitRecordsOfBlock(b[1..]);
      assert [b[0]] + b[1..] == b;
    }
  }

  /** A block followed by text that starts with a blank line: the block ends the first piece. */
  lemma {:induction false} SplitRecordsBefore(b: string, t: string)
    requires b != [] && NoBlankLine(b) && b[|b| - 1] != '\n'
    requires |t| >= 2 && t[0] == '\n' && t[1] == '\n'
    ensures SplitRecords(b + t) == [b + SplitRecords(t)[0]] + SplitRecords(t)[1..]
    decreases |b|
  {
    var s := b + t;
    var tail := SplitRecords(t);
    assert s[0] == b[0];
    assert s[1..] == b[1..] + t;
    if |b| >= 2 {
      assert s[1] == b[1];
      assert !BlankAt(b, 0);
      assert NoBlankLine(b[1..]) by {
        forall i | 0 <= i < |b[1..]| - 1
          ensures !BlankAt(b[1..], i)
        {
          assert !BlankAt(b, i + 1);
          assert b[1..][i] == b[i + 1] && b[1..][i + 1] == b[i + 2];
        }
      }
      SplitRecordsBefore(b[1..], t);
      assert [b[0]] + (b[1..] + tail[0]) == b + tail[0];
    } else {
      assert s[1..] == t;
      assert [b[0]] + tail[0] == b + tail[0];
    }
  }

  /** Blocks joined by one blank line are split back into the same blocks. */
  lemma {:induction false} SplitRecordsJoin(blocks: seq<string>)
    requires |blocks| >= 1
    requires forall i :: 0 <= i < |blocks| ==>
      && blocks[i] != [] && NoBlankLine(blocks[i])
      && blocks[i][0] != '\n' && blocks[i][|blocks[i]| - 1] != '\n'
    ensures SplitRecords(Join(blocks, "\n\n")) == blocks
    decreases |blocks|
  {
    if |blocks| == 1 {
      SplitRecordsOfBlock(blocks[0]);
    } else {
      var rest := Join(blocks[1..], "\n\n");
      SplitRecordsJoin(blocks[1..]);
      JoinStartsWithFirst(blocks[1..], "\n\n");
      var t := "\n\n" + rest;
      assert Join(blocks, "\n\n") == blocks[0] + t;
      assert t[0] == '\n' && t[1..][0] == '\n' && t[1..][1..] == rest;
      assert DropNewlines(rest) == rest;
      assert DropNewlines(t[1..]) == rest;
      assert DropNewlines(t) == rest;
      assert SplitRecords(t) == [""] + blocks[1..];
      SplitRecordsBefore(blocks[0], t);
      assert blocks[0] + "" == blocks[0];
      assert [blocks[0]] + blocks[1..] == blocks;
    }
  }

  /** A join of non-empty parts starts with the first part's first character. */
  lemma JoinStartsWithFirst(parts: seq<string>, sep: string)
    requires |parts| >= 1 && parts[0] != []
    ensures Join(parts, sep) != [] && Join(parts, sep)[0] == parts[0][0]
  {
  }

  /** The result of `parseFile(file)`: trim, normalise line endings, split at blank lines, parse each block. */
  function ParseFile(file: string): seq<Record> {
    var blocks := SplitRecords(NormalizeLineEndings(Trim(file)));
    seq(|blocks|, i requires 0 <= i < |blocks| => RecordOf(blocks[i]))
  }

  /** An empty file still gives one (empty) record of type other. */
  lemma ParseEmptyFile()
    ensures ParseFile("") == [Record("refer", "other", Empty)]
  {
    assert Trim("") == "";
    assert Split("", '\n') == [""];
    EmptyValueSkipped(Empty, "");
  }
}

/**
 * Writing and reading back.  A record whose codes and values survive the
 * line format is read back by `parseRecord` exactly as `formatRecord` wrote
 * it, and a list of such records written by `refer` is read back by
 * `parseFile` as the records `refer` builds in its object format.
 */
module RoundTrip {
  import opened Wrappers
  import opened JsText
  import opened Fields
  import opened RecordTypes
  import opened Input
  import opened Output

  // ---------------------------------------------------------------------
  // what survives the line format

  /** A code that reads back as itself: upper case, with no space and no line feed. */
  predicate WritableCode(code: string) {
    ' ' !in code && '\n' !in code && ToUpper(code) == code
  }

  /** A value that reads back as itself: not empty (empty values are skipped) and on one line. */
  predicate WritableValue(value: string) {
    value != "" && '\n' !in value
  }

  /** A field the parser rebuilds: a non-empty list under a repeatable code, a text under any other. */
  predicate WritableField(code: string, v: FieldValue) {
    && WritableCode(code)
    && (IsListCode(code) <==> v.List?)
    && (v.Text? ==> WritableValue(v.text))
    && (v.List? ==> v.items != [] && forall i :: 0 <= i < |v.items| ==> WritableValue(v.items[i]))
  }

  /** A field map every one of whose fields the parser rebuilds. */
  predicate Writable(fields: FieldMap) {
    forall k :: k in fields.values ==> WritableField(k, fields.values[k])
  }

  /** No value of the field contains `c`. */
  predicate ValuesAvoid(v: FieldValue, c: char) {
    forall i :: 0 <= i < |ValuesOf(v)| ==> c !in ValuesOf(v)[i]
  }

  /**
   * A record that also survives being one block of a file: it has a field,
   * and no code or value holds a carriage return.
   */
  predicate FileWritable(fields: FieldMap) {
    && Writable(fields)
    && fields.keys != []
    && forall k :: k in fields.values ==> '\r' !in k && ValuesAvoid(fields.values[k], '\r')
  }

  /** The code of the last field, the last one `formatRecord` writes. */
  function LastCode(fields: FieldMap): string
    requires fields.keys != []
  {
    fields.keys[|fields.keys| - 1]
  }

  /** The record has a field, and the last value written for it is not empty. */
  predicate HasLastValue(fields: FieldMap) {
    fields.keys != [] &&
    var values := ValuesOf(fields.values[LastCode(fields)]);
    values != [] && values[|values| - 1] != []
  }

  /** The last value written for the record. */
  function LastValue(fields: FieldMap): (v: string)
    requires HasLastValue(fields)
    ensures v != []
  {
    var values := ValuesOf(fields.values[LastCode(fields)]);
    values[|values| - 1]
  }

  /** The last character of the last value written for the record. */
  function LastValueChar(fields: FieldMap): char
    requires HasLastValue(fields)
  {
    var value := LastValue(fields);
    value[|value| - 1]
  }

  /** The text is not empty and ends with `c`. */
  predicate EndsIn(s: string, c: char) {
    s != [] && s[|s| - 1] == c
  }

  /** The last value written for the record does not end in white space, which the file trim would cut. */
  predicate EndsWithoutWhitespace(fields: FieldMap) {
    HasLastValue(fields) && !IsJsWhitespace(LastValueChar(fields))
  }

  // ---------------------------------------------------------------------
  // one record

  /** The first `n` fields of a field map, in order. */
  function Prefix(fields: FieldMap, n: nat): (r: FieldMap)
    requires n <= |fields.keys|
    ensures r.keys == fields.keys[..n]
    ensures forall k :: k in r.values ==> k in fields.values && r.values[k] == fields.values[k]
  {
    var keys := fields.keys[..n];
    Entries(keys, map k | k in keys :: fields.values[k])
  }

  lemma PrefixZero(fields: FieldMap)
    ensures Prefix(fields, 0) == Empty
  {
  }

  /** One more field of the prefix is one more assignment, of a key the prefix does not hold yet. */
  lemma PrefixStep(fields: FieldMap, n: nat)
    requires n < |fields.keys|
    ensures fields.keys[n] !in Prefix(fields, n).values
    ensures Prefix(fields, n + 1) == Put(Prefix(fields, n), fields.keys[n], fields.values[fields.keys[n]])
  {
    var code := fields.keys[n];
    var p := Prefix(fields, n);
    assert code !in fields.keys[..n] by {
      forall i | 0 <= i < n ensures fields.keys[i] != code {
      }
    }
    assert fields.keys[..n + 1] == fields.keys[..n] + [code];
    RestrictSnoc(fields.keys[..n], code, fields.values);
  }

  /** Restricting a map to the keys plus one more is restricting it to the keys, then adding that one. */
  lemma RestrictSnoc(keys: seq<string>, code: string, values: map<string, FieldValue>)
    requires forall k :: k in keys ==> k in values
    requires code in values
    ensures (map k | k in keys + [code] :: values[k]) == (map k | k in keys :: values[k])[code := values[code]]
  {
  }

  lemma PrefixAll(fields: FieldMap)
    ensures Prefix(fields, |fields.keys|) == fields
  {
    assert fields.keys[..|fields.keys|] == fields.keys;
    assert Prefix(fields, |fields.keys|).values == fields.values;
  }

  lemma FoldOneLine(fields: FieldMap, line: string)
    ensures FoldLines(fields, [line]) == AddLine(fields, line)
  {
    assert [line][1..] == [];
  }

  /** The one line of a text field stores the text. */
  lemma ReadTextLine(fields: FieldMap, code: string, text: string)
    requires WritableCode(code) && !IsListCode(code) && WritableValue(text)
    ensures FoldLines(fields, FieldLines(code, [text])) == Put(fields, code, Text(text))
  {
    assert FieldLines(code, [text]) == [LineFor(code, text)];
    LineOf(code, text);
    FoldOneLine(fields, LineFor(code, text));
  }

  /** The first `j` lines of a list field store the first `j` items, under a code not yet present. */
  lemma {:induction false} ReadListLines(fields: FieldMap, code: string, items: seq<string>, j: nat)
    requires code !in fields.values
    requires WritableCode(code) && IsListCode(code)
    requires 1 <= j <= |items|
    requires forall i :: 0 <= i < |items| ==> WritableValue(items[i])
    ensures FoldLines(fields, FieldLines(code, items[..j])) == Put(fields, code, List(items[..j]))
    decreases j
  {
    if j == 1 {
      ReadFirstListLine(fields, code, items);
    } else {
      ReadListLines(fields, code, items, j - 1);
      ReadListStep(fields, code, items, j);
    }
  }

  lemma ReadFirstListLine(fields: FieldMap, code: string, items: seq<string>)
    requires code !in fields.values
    requires WritableCode(code) && IsListCode(code)
    requires |items| >= 1 && WritableValue(items[0])
    ensures FoldLines(fields, FieldLines(code, items[..1])) == Put(fields, code, List(items[..1]))
  {
    var line := LineFor(code, items[0]);
    assert FieldLines(code, items[..1]) == [line];
    FoldOneLine(fields, line);
    AddListLine(fields, code, items[0]);
    assert [] + [items[0]] == items[..1];
  }

  /** The line of item `j` extends the list of the first `j` items by that item. */
  lemma ReadListStep(fields: FieldMap, code: string, items: seq<string>, j: nat)
    requires WritableCode(code) && IsListCode(code)
    requires 2 <= j <= |items| && WritableValue(items[j - 1])
    requires FoldLines(fields, FieldLines(code, items[..j - 1])) == Put(fields, code, List(items[..j - 1]))
    ensures FoldLines(fields, FieldLines(code, items[..j])) == Put(fields, code, List(items[..j]))
  {
    var m := j - 1;
    var line := LineFor(code, items[m]);
    var before := FieldLines(code, items[..m]);
    var p := Put(fields, code, List(items[..m]));
    calc {
      FoldLines(fields, FieldLines(code, items[..j]));
      { FieldLinesSnoc(code, items, m); assert m + 1 == j; }
      FoldLines(fields, before + [line]);
      { FoldLinesAppend(fields, before, [line]); }
      FoldLines(p, [line]);
      { FoldOneLine(p, line); }
      AddLine(p, line);
      { AddListLine(p, code, items[m]); }
      Put(p, code, List(ItemsAt(p, code) + [items[m]]));
      { ItemsAtPut(fields, code, items[..m]); PrefixSnoc(items, j); }
      Put(p, code, List(items[..j]));
      { PutPut(fields, code, List(items[..m]), List(items[..j])); }
      Put(fields, code, List(items[..j]));
    }
  }

  /** The items stored by a `Put` of a list are that list. */
  lemma ItemsAtPut(fields: FieldMap, code: string, items: seq<string>)
    ensures ItemsAt(Put(fields, code, List(items)), code) == items
  {
  }

  /** A prefix followed by the next element is the longer prefix. */
  lemma PrefixSnoc<T>(s: seq<T>, j: nat)
    requires 1 <= j <= |s|
    ensures s[..j - 1] + [s[j - 1]] == s[..j]
  {
  }

  /** The line of one list item appends the item to the list under its code. */
  lemma AddListLine(fields: FieldMap, code: string, value: string)
    requires WritableCode(code) && IsListCode(code) && WritableValue(value)
    ensures AddLine(fields, LineFor(code, value)) == Put(fields, code, List(ItemsAt(fields, code) + [value]))
  {
    LineOf(code, value);
  }

  /** The lines of one field store that field, under a code not yet present. */
  lemma ReadField(fields: FieldMap, code: string, v: FieldValue)
    requires code !in fields.values
    requires WritableField(code, v)
    ensures FoldLines(fields, FieldLines(code, ValuesOf(v))) == Put(fields, code, v)
  {
    if v.Text? {
      ReadTextLine(fields, code, v.text);
    } else {
      ReadListLines(fields, code, v.items, |v.items|);
      assert v.items[..|v.items|] == v.items;
    }
  }

  /** The lines of the first `n` fields rebuild the first `n` fields. */
  lemma {:induction false} ReadKeyLines(fields: FieldMap, n: nat)
    requires Writable(fields)
    requires n <= |fields.keys|
    ensures FoldLines(Empty, KeyLines(fields, fields.keys[..n])) == Prefix(fields, n)
    decreases n
  {
    if n == 0 {
      assert fields.keys[..0] == [];
      PrefixZero(fields);
    } else {
      ReadKeyLines(fields, n - 1);
      ReadKeyStep(fields, n);
    }
  }

  /** The lines of field `n` extend the prefix of `n` fields by that field. */
  lemma ReadKeyStep(fields: FieldMap, n: nat)
    requires Writable(fields)
    requires 1 <= n <= |fields.keys|
    requires FoldLines(Empty, KeyLines(fields, fields.keys[..n - 1])) == Prefix(fields, n - 1)
    ensures FoldLines(Empty, KeyLines(fields, fields.keys[..n])) == Prefix(fields, n)
  {
    var m := n - 1;
    var code := fields.keys[m];
    var v := fields.values[code];
    KeyLinesSnoc(fields, m);
    assert m + 1 == n;
    FoldLinesAppend(Empty, KeyLines(fields, fields.keys[..m]), FieldLines(code, ValuesOf(v)));
    PrefixStep(fields, m);
    ReadField(Prefix(fields, m), code, v);
  }

  /** All the lines of a record rebuild its field map. */
  lemma ReadRecordLines(fields: FieldMap)
    requires Writable(fields)
    ensures FoldLines(Empty, RecordLines(fields)) == fields
  {
    ReadKeyLines(fields, |fields.keys|);
    assert fields.keys[..|fields.keys|] == fields.keys;
    PrefixAll(fields);
  }

  /** No line written for the fields `keys` contains `c`, when no code or value does. */
  lemma {:induction false} KeyLinesAvoid(fields: FieldMap, keys: seq<string>, c: char)
    requires c != '%' && c != ' '
    requires forall k :: k in keys ==> k in fields.values && c !in k && ValuesAvoid(fields.values[k], c)
    ensures forall i :: 0 <= i < |KeyLines(fields, keys)| ==> c !in KeyLines(fields, keys)[i]
    decreases |keys|
  {
    if keys != [] {
      KeyLinesAvoid(fields, keys[..|keys| - 1], c);
    }
  }

  /** Every line written starts with the marker `%`. */
  lemma {:induction false} KeyLinesMarked(fields: FieldMap, keys: seq<string>)
    requires forall k :: k in keys ==> k in fields.values
    ensures forall i :: 0 <= i < |KeyLines(fields, keys)| ==>
      KeyLines(fields, keys)[i] != [] && KeyLines(fields, keys)[i][0] == '%'
    decreases |keys|
  {
    if keys != [] {
      KeyLinesMarked(fields, keys[..|keys| - 1]);
    }
  }

  lemma LinesAvoidNewline(fields: FieldMap)
    requires Writable(fields)
    ensures forall i :: 0 <= i < |RecordLines(fields)| ==> '\n' !in RecordLines(fields)[i]
  {
    KeyLinesAvoid(fields, fields.keys, '\n');
  }

  /**
   * `parseRecord(formatRecord(record))`, with LF line endings, gives back the
   * field map when every field is writable.
   */
  lemma RecordRoundTrip(fields: FieldMap)
    requires Writable(fields)
    ensures FieldsOf(RecordText(fields, "\n")) == fields
  {
    var lines := RecordLines(fields);
    TerminatedIsJoin(lines, "\n");
    LinesAvoidNewline(fields);
    SplitJoin(lines + [""], '\n');
    FoldLinesAppend(Empty, lines, [""]);
    ReadRecordLines(fields);
    FoldOneLine(fields, "");
    EmptyValueSkipped(fields, "");
  }

  /** Reading back the text of a translated record gives the translated record itself. */
  lemma TranslatedRecordRoundTrip<Item>(convert: Item -> FieldMap, item: Item)
    requires Writable(convert(item))
    ensures RecordOf(RecordText(convert(item), "\n")) == TranslateRecord(convert, item)
  {
    RecordRoundTrip(convert(item));
  }

  // ---------------------------------------------------------------------
  // a file

  /** The block of one record in a file: its lines joined by LF, without the final one. */
  function Block(fields: FieldMap): string {
    Join(RecordLines(fields), "\n")
  }

  /** Lines that are not empty and hold no LF, joined by LF, hold no blank line. */
  lemma {:induction false} JoinedLinesHaveNoBlankLine(lines: seq<string>)
    requires forall i :: 0 <= i < |lines| ==> lines[i] != [] && '\n' !in lines[i]
    ensures NoBlankLine(Join(lines, "\n"))
    decreases |lines|
  {
    if |lines| > 1 {
      var l := lines[0];
      var rest := Join(lines[1..], "\n");
      JoinedLinesHaveNoBlankLine(lines[1..]);
      JoinStartsWithFirst(lines[1..], "\n");
      var j := Join(lines, "\n");
      assert j == l + "\n" + rest;
      forall i | 0 <= i < |j| - 1 ensures !BlankAt(j, i) {
        if i < |l| {
          assert j[i] == l[i];
        } else if i == |l| {
          assert j[i + 1] == rest[0];
        } else {
          assert !BlankAt(rest, i - |l| - 1);
          assert j[i + 1] == rest[i - |l|];
        }
      }
    } else if |lines| == 1 {
      assert Join(lines, "\n") == lines[0];
    }
  }

  /** The text of a file-writable record is its block and a final LF. */
  lemma BlockText(fields: FieldMap)
    requires FileWritable(fields)
    ensures RecordText(fields, "\n") == Block(fields) + "\n"
  {
    RecordHasLines(fields);
    TerminatedIsJoin(RecordLines(fields), "\n");
  }

  /** The block of a file-writable record is cut out whole by the file parser. */
  lemma BlockShaped(fields: FieldMap)
    requires FileWritable(fields)
    ensures BlockShape(Block(fields))
  {
    KeyLinesMarked(fields, fields.keys);
    LinesAvoidNewline(fields);
    KeyLinesAvoid(fields, fields.keys, '\r');
    RecordHasLines(fields);
    JoinedLinesShaped(RecordLines(fields));
  }

  /** The block of a file-writable record splits back into the record's lines. */
  lemma BlockLines(fields: FieldMap)
    requires FileWritable(fields)
    ensures Split(Block(fields), '\n') == RecordLines(fields)
  {
    LinesAvoidNewline(fields);
    RecordHasLines(fields);
    SplitJoin(RecordLines(fields), '\n');
  }

  /** A file-writable record is written as at least one line. */
  lemma RecordHasLines(fields: FieldMap)
    requires FileWritable(fields)
    ensures |RecordLines(fields)| >= 1
  {
    var code := fields.keys[|fields.keys| - 1];
    assert WritableField(code, fields.values[code]);
    assert |ValuesOf(fields.values[code])| >= 1;
  }

  /** Marked lines without LF or CR, joined by LF, have the shape of a block. */
  lemma JoinedLinesShaped(lines: seq<string>)
    requires |lines| >= 1
    requires forall i :: 0 <= i < |lines| ==> lines[i] != [] && lines[i][0] == '%'
    requires forall i :: 0 <= i < |lines| ==> '\n' !in lines[i]
    requires forall i :: 0 <= i < |lines| ==> '\r' !in lines[i]
    ensures BlockShape(Join(lines, "\n"))
  {
    JoinStartsWithFirst(lines, "\n");
    JoinEndsWithLast(lines, "\n");
    var last := lines[|lines| - 1];
    SuffixLast(Join(lines, "\n"), last);
    JoinedLinesHaveNoBlankLine(lines);
    JoinAvoids(lines, "\n", '\r');
  }

  /** Texts that are blocks each followed by LF, joined by LF, are the blocks joined by a blank line, plus LF. */
  lemma {:induction false} JoinTerminatedBlocks(texts: seq<string>, blocks: seq<string>)
    requires |texts| == |blocks| >= 1
    requires forall i :: 0 <= i < |blocks| ==> texts[i] == blocks[i] + "\n"
    ensures Join(texts, "\n") == Join(blocks, "\n\n") + "\n"
    decreases |blocks|
  {
    if |blocks| > 1 {
      JoinTerminatedBlocks(texts[1..], blocks[1..]);
      var rest := Join(blocks[1..], "\n\n");
      assert Join(texts, "\n") == (blocks[0] + "\n") + "\n" + (rest + "\n");
      assert Join(blocks, "\n\n") == blocks[0] + "\n\n" + rest;
    }
  }

  /** Trimming a text that starts with `%` and ends without white space, plus one LF, gives the text. */
  lemma TrimFinalNewline(s: string, c: char)
    requires s != [] && s[0] == '%' && s[|s| - 1] == c && !IsJsWhitespace(c)
    ensures Trim(s + "\n") == s
  {
    var t := s + "\n";
    assert TrimStart(t) == t;
    assert t[..|t| - 1] == s;
    assert TrimEnd(t) == TrimEnd(s);
  }

  /** A block the file parser cuts out whole: it starts with `%`, holds no blank line and no CR. */
  predicate BlockShape(b: string) {
    && b != [] && NoBlankLine(b) && '\r' !in b
    && b[0] == '%' && b[|b| - 1] != '\n'
  }

  /** The blocks of the records, in order. */
  function Blocks(records: seq<Record>): (r: seq<string>)
    ensures |r| == |records|
    ensures forall i :: 0 <= i < |records| ==> r[i] == Block(records[i].fields)
  {
    seq(|records|, i requires 0 <= i < |records| => Block(records[i].fields))
  }

  /** A record as `translateRecord` builds it, from a file-writable field map. */
  predicate FileWritableRecord(record: Record) {
    && FileWritable(record.fields)
    && record.scheme == "refer" && record.recordType == RecordTypeOf(record.fields)
  }

  /** The block of a file-writable record is read back as the record. */
  lemma BlockReadable(record: Record)
    requires FileWritableRecord(record)
    ensures RecordOf(Block(record.fields)) == record
  {
    BlockLines(record.fields);
    ReadRecordLines(record.fields);
  }

  /** The texts of file-writable records are their blocks, each with a final LF. */
  lemma TextsOfBlocks(records: seq<Record>)
    requires AllFileWritable(records)
    ensures var blocks := Blocks(records);
      var texts := RecordTexts(records, "\n");
      forall i :: 0 <= i < |records| ==> texts[i] == blocks[i] + "\n"
  {
    AllFileWritableAt(records);
    forall i | 0 <= i < |records|
      ensures RecordText(records[i].fields, "\n") == Block(records[i].fields) + "\n"
    {
      BlockText(records[i].fields);
    }
  }

  /** Every block is well shaped, stated block by block from the first. */
  predicate AllShaped(blocks: seq<string>)
    decreases |blocks|
  {
    blocks == [] || (BlockShape(blocks[0]) && AllShaped(blocks[1..]))
  }

  lemma {:induction false} AllShapedAt(blocks: seq<string>)
    requires AllShaped(blocks)
    ensures forall i :: 0 <= i < |blocks| ==> BlockShape(blocks[i])
    decreases |blocks|
  {
    if blocks != [] {
      AllShapedAt(blocks[1..]);
      assert forall i :: 1 <= i < |blocks| ==> blocks[i] == blocks[1..][i - 1];
    }
  }

  lemma {:induction false} ShapedAll(blocks: seq<string>)
    requires forall i :: 0 <= i < |blocks| ==> BlockShape(blocks[i])
    ensures AllShaped(blocks)
    decreases |blocks|
  {
    if blocks != [] {
      assert forall i :: 0 <= i < |blocks[1..]| ==> blocks[1..][i] == blocks[i + 1];
      ShapedAll(blocks[1..]);
    }
  }

  /** The blocks of file-writable records are well shaped. */
  lemma ShapedBlocks(records: seq<Record>)
    requires AllFileWritable(records)
    ensures AllShaped(Blocks(records))
  {
    AllFileWritableAt(records);
    var blocks := Blocks(records);
    forall i | 0 <= i < |blocks|
      ensures BlockShape(blocks[i])
    {
      BlockShaped(records[i].fields);
    }
    ShapedAll(blocks);
  }

  /** The blocks of file-writable records are read back as those records. */
  lemma ReadableBlocks(records: seq<Record>)
    requires AllFileWritable(records)
    ensures var blocks := Blocks(records);
      forall i {:trigger RecordOf(blocks[i])} :: 0 <= i < |records| ==> RecordOf(blocks[i]) == records[i]
  {
    AllFileWritableAt(records);
    forall i | 0 <= i < |records|
      ensures RecordOf(Block(records[i].fields)) == records[i]
    {
      BlockReadable(records[i]);
    }
  }

  /**
   * The records of a file that reads back: there is at least one, every one is
   * file-writable, and the last one does not end in white space. Stated record
   * by record from the first.
   */
  predicate WritableFile(records: seq<Record>)
    decreases |records|
  {
    && records != []
    && FileWritableRecord(records[0])
    && (if |records| == 1 then EndsWithoutWhitespace(records[0].fields) else WritableFile(records[1..]))
  }

  lemma {:induction false} WritableFileParts(records: seq<Record>)
    requires WritableFile(records)
    ensures |records| >= 1 && AllFileWritable(records)
    ensures EndsWithoutWhitespace(records[|records| - 1].fields)
    decreases |records|
  {
    if |records| > 1 {
      WritableFileParts(records[1..]);
      assert records[1..][|records[1..]| - 1] == records[|records| - 1];
    } else {
      assert records[1..] == [];
    }
  }

  lemma {:induction false} WritableFileLast(records: seq<Record>)
    requires WritableFile(records)
    ensures |records| >= 1 && EndsWithoutWhitespace(records[|records| - 1].fields)
    decreases |records|
  {
    if |records| > 1 {
      WritableFileLast(records[1..]);
      assert records[1..][|records[1..]| - 1] == records[|records| - 1];
    }
  }

  lemma {:induction false} FileWritableFile(records: seq<Record>)
    requires |records| >= 1 && AllFileWritable(records)
    requires EndsWithoutWhitespace(records[|records| - 1].fields)
    ensures WritableFile(records)
    decreases |records|
  {
    if |records| > 1 {
      assert records[1..][|records[1..]| - 1] == records[|records| - 1];
      FileWritableFile(records[1..]);
    }
  }

  /** The text of the records of a file that reads back is parsed back as the records. */
  lemma ParseRecordTexts(records: seq<Record>)
    requires WritableFile(records)
    ensures ParseFile(Join(RecordTexts(records, "\n"), "\n")) == records
  {
    WritableFileParts(records);
    SplitRecordTexts(records);
    ReadableBlocks(records);
    RecordsOfBlocks(Join(RecordTexts(records, "\n"), "\n"), Blocks(records), records);
  }

  /** The text of the records of a file that reads back is cut back into their blocks. */
  lemma SplitRecordTexts(records: seq<Record>)
    requires WritableFile(records)
    ensures SplitRecords(NormalizeLineEndings(Trim(Join(RecordTexts(records, "\n"), "\n")))) == Blocks(records)
  {
    WritableFileParts(records);
    JoinedRecordTexts(records);
    SplitRecordBlocks(records);
  }

  /** The records' texts joined by LF are their blocks joined by a blank line, with a final LF. */
  lemma JoinedRecordTexts(records: seq<Record>)
    requires |records| >= 1
    requires AllFileWritable(records)
    ensures Join(RecordTexts(records, "\n"), "\n") == Join(Blocks(records), "\n\n") + "\n"
  {
    TextsOfBlocks(records);
    JoinTerminatedBlocks(RecordTexts(records, "\n"), Blocks(records));
  }

  /** The blocks of the records, joined as in a file, are cut back into the same blocks. */
  lemma SplitRecordBlocks(records: seq<Record>)
    requires WritableFile(records)
    ensures SplitRecords(NormalizeLineEndings(Trim(Join(Blocks(records), "\n\n") + "\n"))) == Blocks(records)
  {
    WritableFileParts(records);
    ShapedBlocks(records);
    LastBlockOfRecords(records);
    SplitJoinedBlocks(Blocks(records));
  }

  /** The last block exists and does not end in white space. */
  predicate EndsWell(blocks: seq<string>) {
    |blocks| >= 1 && var last := blocks[|blocks| - 1]; last != [] && !IsJsWhitespace(last[|last| - 1])
  }

  /** The last block is the last record's, which does not end in white space. */
  lemma LastBlockOfRecords(records: seq<Record>)
    requires WritableFile(records)
    ensures EndsWell(Blocks(records))
  {
    WritableFileLast(records);
    var fields := records[|records| - 1].fields;
    BlockEndsWithoutWhitespace(fields);
    BlocksSnoc(records);
    EndsWellSnoc(Blocks(records[..|records| - 1]), Block(fields));
  }

  lemma BlocksSnoc(records: seq<Record>)
    requires |records| >= 1
    ensures Blocks(records) == Blocks(records[..|records| - 1]) + [Block(records[|records| - 1].fields)]
  {
  }

  lemma EndsWellSnoc(blocks: seq<string>, b: string)
    requires b != [] && !IsJsWhitespace(b[|b| - 1])
    ensures EndsWell(blocks + [b])
  {
  }

  /** A record whose last value does not end in white space has a block that does not either. */
  lemma BlockEndsWithoutWhitespace(fields: FieldMap)
    requires EndsWithoutWhitespace(fields)
    ensures Block(fields) != [] && !IsJsWhitespace(Block(fields)[|Block(fields)| - 1])
  {
    LastBlockChar(fields);
  }

  /** Well-shaped blocks, the last not ending in white space, survive the file parser's cutting. */
  lemma SplitJoinedBlocks(blocks: seq<string>)
    requires AllShaped(blocks) && EndsWell(blocks)
    ensures SplitRecords(NormalizeLineEndings(Trim(Join(blocks, "\n\n") + "\n"))) == blocks
  {
    AllShapedAt(blocks);
    var last := blocks[|blocks| - 1];
    JoinedBlocksTrimmed(blocks, last[|last| - 1]);
    JoinAvoids(blocks, "\n\n", '\r');
    SplitRecordsJoin(blocks);
  }

  /** A file that splits into blocks read back as `records` is parsed as `records`. */
  lemma RecordsOfBlocks(file: string, blocks: seq<string>, records: seq<Record>)
    requires SplitRecords(NormalizeLineEndings(Trim(file))) == blocks
    requires |blocks| == |records|
    requires forall i {:trigger RecordOf(blocks[i])} :: 0 <= i < |blocks| ==> RecordOf(blocks[i]) == records[i]
    ensures ParseFile(file) == records
  {
  }

  /** The blocks joined start with `%` and end without white space, so the trim cuts only the final LF. */
  lemma JoinedBlocksTrimmed(blocks: seq<string>, c: char)
    requires |blocks| >= 1 && blocks[0] != [] && blocks[0][0] == '%'
    requires var last := blocks[|blocks| - 1]; last != [] && last[|last| - 1] == c
    requires !IsJsWhitespace(c)
    ensures Trim(Join(blocks, "\n\n") + "\n") == Join(blocks, "\n\n")
  {
    var all := Join(blocks, "\n\n");
    JoinStartsWithFirst(blocks, "\n\n");
    JoinEndsWithLast(blocks, "\n\n");
    var last := blocks[|blocks| - 1];
    assert all[|all| - 1] == last[|last| - 1];
    TrimFinalNewline(all, c);
  }

  /**
   * `parseFile(refer(csl))` with the default options gives back the records
   * `refer(csl, { format: 'object' })` builds, when every record is
   * file-writable and the last one does not end in white space.
   */
  lemma FileRoundTrip<Item>(csl: seq<Item>, convert: Item -> FieldMap)
    requires |csl| >= 1
    requires forall i :: 0 <= i < |csl| ==> FileWritable(convert(csl[i]))
    requires EndsWithoutWhitespace(convert(csl[|csl| - 1]))
    ensures Refer(csl, convert, ReferOptions(None, None)).ReferText?
    ensures ParseFile(Refer(csl, convert, ReferOptions(None, None)).text) ==
      Refer(csl, convert, ReferOptions(Some("object"), None)).records
  {
    ReferDefaultsText(csl, convert);
    ReferObjectRecords(csl, convert);
    ParseTranslatedTexts(csl, convert);
  }

  /** The LF-joined texts of the translated records read back as those records. */
  lemma ParseTranslatedTexts<Item>(csl: seq<Item>, convert: Item -> FieldMap)
    requires |csl| >= 1
    requires forall i :: 0 <= i < |csl| ==> FileWritable(convert(csl[i]))
    requires EndsWithoutWhitespace(convert(csl[|csl| - 1]))
    ensures ParseFile(Join(RecordTexts(TranslateAll(convert, csl), "\n"), "\n")) == TranslateAll(convert, csl)
  {
    TranslatedFileWritable(csl, convert);
    TranslatedWritableFile(csl, convert);
    ParseRecordTexts(TranslateAll(convert, csl));
  }

  lemma ReferDefaultsText<Item>(csl: seq<Item>, convert: Item -> FieldMap)
    ensures Refer(csl, convert, ReferOptions(None, None)) ==
      ReferText(Join(RecordTexts(TranslateAll(convert, csl), "\n"), "\n"))
  {
  }

  lemma ReferObjectRecords<Item>(csl: seq<Item>, convert: Item -> FieldMap)
    ensures Refer(csl, convert, ReferOptions(Some("object"), None)) == RecordObjects(TranslateAll(convert, csl))
  {
  }

  /** Every record is file-writable, stated record by record from the first. */
  predicate AllFileWritable(records: seq<Record>)
    decreases |records|
  {
    records == [] || (FileWritableRecord(records[0]) && AllFileWritable(records[1..]))
  }

  lemma {:induction false} AllFileWritableAt(records: seq<Record>)
    requires AllFileWritable(records)
    ensures forall i :: 0 <= i < |records| ==> FileWritableRecord(records[i])
    decreases |records|
  {
    if records != [] {
      AllFileWritableAt(records[1..]);
      assert forall i :: 1 <= i < |records| ==> records[i] == records[1..][i - 1];
    }
  }

  lemma {:induction false} FileWritableAll(records: seq<Record>)
    requires forall i :: 0 <= i < |records| ==> FileWritableRecord(records[i])
    ensures AllFileWritable(records)
    decreases |records|
  {
    if records != [] {
      assert forall i :: 0 <= i < |records[1..]| ==> records[1..][i] == records[i + 1];
      FileWritableAll(records[1..]);
    }
  }

  /** Translating file-writable field maps gives file-writable records. */
  lemma TranslatedFileWritable<Item>(csl: seq<Item>, convert: Item -> FieldMap)
    requires forall i :: 0 <= i < |csl| ==> FileWritable(convert(csl[i]))
    ensures AllFileWritable(TranslateAll(convert, csl))
  {
    var records := TranslateAll(convert, csl);
    forall i | 0 <= i < |records| ensures FileWritableRecord(records[i]) {
      assert records[i] == TranslateRecord(convert, csl[i]);
    }
    FileWritableAll(records);
  }

  /** Translated file-writable field maps, the last not ending in white space, are the records of a file that reads back. */
  lemma TranslatedWritableFile<Item>(csl: seq<Item>, convert: Item -> FieldMap)
    ensures var records := TranslateAll(convert, csl);
      |csl| >= 1 && EndsWithoutWhitespace(convert(csl[|csl| - 1])) && AllFileWritable(records) ==> WritableFile(records)
  {
    var records := TranslateAll(convert, csl);
    if |csl| >= 1 && EndsWithoutWhitespace(convert(csl[|csl| - 1])) && AllFileWritable(records) {
      assert records[|records| - 1].fields == convert(csl[|csl| - 1]);
      FileWritableFile(records);
    }
  }

  /** The block of a record ends with the last character of its last value. */
  lemma LastBlockChar(fields: FieldMap)
    requires HasLastValue(fields)
    ensures EndsIn(Block(fields), LastValueChar(fields))
  {
    RecordLinesLast(fields);
    JoinEndsWithValue(RecordLines(fields), LastCode(fields), LastValue(fields));
  }

  /** The last line written for a record is the line of its last value. */
  lemma RecordLinesLast(fields: FieldMap)
    requires HasLastValue(fields)
    ensures var lines := RecordLines(fields);
      lines != [] && lines[|lines| - 1] == LineFor(LastCode(fields), LastValue(fields))
  {
    KeyLinesLast(fields, fields.keys);
  }

  /** Lines joined by LF end as their last line's value does. */
  lemma JoinEndsWithValue(lines: seq<string>, code: string, value: string)
    requires value != [] && lines != [] && lines[|lines| - 1] == LineFor(code, value)
    ensures EndsIn(Join(lines, "\n"), value[|value| - 1])
  {
    JoinEndsWithLast(lines, "\n");
    LineEndsWithValue(code, value);
    SuffixLast(Join(lines, "\n"), lines[|lines| - 1]);
  }

  lemma SuffixLast(s: string, suffix: string)
    requires |s| >= |suffix| >= 1 && s[|s| - |suffix|..] == suffix
    ensures s[|s| - 1] == suffix[|suffix| - 1]
  {
    assert s[|s| - 1] == s[|s| - |suffix|..][|suffix| - 1];
  }

  /** The last line written for the fields `keys` is the one for the last value of the last key. */
  lemma KeyLinesLast(fields: FieldMap, keys: seq<string>)
    requires forall k :: k in keys ==> k in fields.values
    requires keys != [] && ValuesOf(fields.values[keys[|keys| - 1]]) != []
    ensures var lines := KeyLines(fields, keys);
      var values := ValuesOf(fields.values[keys[|keys| - 1]]);
      lines != [] && lines[|lines| - 1] == LineFor(keys[|keys| - 1], values[|values| - 1])
  {
  }

  lemma LineEndsWithValue(code: string, value: string)
    requires value != []
    ensures var line := LineFor(code, value); line[|line| - 1] == value[|value| - 1]
  {
  }

  /** The round trip needs at least one item: no items write the empty text, which reads as one empty record. */
  lemma NoItemsReadAsOneRecord<Item>(convert: Item -> FieldMap)
    ensures ParseFile(Refer([], convert, ReferOptions(None, None)).text) == [Record("refer", "other", Empty)]
  {
    ReferShape([], convert, ReferOptions(None, None));
    ParseEmptyFile();
  }
}

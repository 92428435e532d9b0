/**
 * Writing refer text.  `translateRecord` turns one CSL item into a refer
 * record through the translator, `formatRecord` writes a record as one
 * `%CODE value` line per value, and `refer` does this for a list of items
 * and either returns the records or joins their texts.
 */
module Output {
  import opened Wrappers
  import opened JsText
  import opened Fields
  import opened RecordTypes

  // ---------------------------------------------------------------------
  // formatRecord

  /** `[].concat(fields[field])`: the items of a list, or a text as the only item. */
  function ValuesOf(v: FieldValue): (r: seq<string>)
    ensures v.Text? ==> r == [v.text]
    ensures v.List? ==> r == v.items
  {
    match v
    case Text(t) => [t]
    case List(items) => items
  }

  /** The line written for one value, without its line ending. */
  function LineFor(code: string, value: string): string {
    "%" + code + " " + value
  }

  /** The lines written for one field: one per value, in order. */
  function FieldLines(code: string, values: seq<string>): seq<string> {
    seq(|values|, i requires 0 <= i < |values| => LineFor(code, values[i]))
  }

  /** The lines written for the fields `keys`, in that order. */
  function KeyLines(fields: FieldMap, keys: seq<string>): seq<string>
    requires forall k :: k in keys ==> k in fields.values
    decreases |keys|
  {
    if keys == [] then []
    else
      var code := keys[|keys| - 1];
      KeyLines(fields, keys[..|keys| - 1]) + FieldLines(code, ValuesOf(fields.values[code]))
  }

  /** All the lines of a record, its fields in insertion order. */
  function RecordLines(fields: FieldMap): seq<string> {
    KeyLines(fields, fields.keys)
  }

  /** Each line followed by the line ending. */
  function Terminated(lines: seq<string>, lineEnding: string): string
    decreases |lines|
  {
    if lines == [] then ""
    else Terminated(lines[..|lines| - 1], lineEnding) + lines[|lines| - 1] + lineEnding
  }

  /** The text `formatRecord` writes for a record with these fields. */
  function RecordText(fields: FieldMap, lineEnding: string): string {
    Terminated(RecordLines(fields), lineEnding)
  }

  lemma TerminatedSnoc(lines: seq<string>, line: string, lineEnding: string)
    ensures Terminated(lines + [line], lineEnding) == Terminated(lines, lineEnding) + line + lineEnding
  {
    assert (lines + [line])[..|lines|] == lines;
  }

  lemma FieldLinesSnoc(code: string, values: seq<string>, j: nat)
    requires j < |values|
    ensures FieldLines(code, values[..j + 1]) == FieldLines(code, values[..j]) + [LineFor(code, values[j])]
  {
  }

  lemma KeyLinesSnoc(fields: FieldMap, i: nat)
    requires i < |fields.keys|
    ensures KeyLines(fields, fields.keys[..i + 1]) ==
      KeyLines(fields, fields.keys[..i]) + FieldLines(fields.keys[i], ValuesOf(fields.values[fields.keys[i]]))
  {
    var keys := fields.keys[..i + 1];
    assert keys[..i] == fields.keys[..i];
  }

  /**
   * `formatRecord`: for every field in insertion order and every one of its
   * values, append `'%' + field + ' ' + value + lineEnding`.
   */
  method FormatRecord(record: Record, lineEnding: string) returns (text: string)
    ensures text == RecordText(record.fields, lineEnding)
  {
    var fields := record.fields;
    text := "";
    var i := 0;
    while i < |fields.keys|
      invariant 0 <= i <= |fields.keys|
      invariant text == Terminated(KeyLines(fields, fields.keys[..i]), lineEnding)
    {
      var field := fields.keys[i];
      var values := ValuesOf(fields.values[field]);
      ghost var before := KeyLines(fields, fields.keys[..i]);
      assert FieldLines(field, values[..0]) == [];
      assert before + [] == before;
      var j := 0;
      while j < |values|
        invariant 0 <= j <= |values|
        invariant text == Terminated(before + FieldLines(field, values[..j]), lineEnding)
      {
        FieldLinesSnoc(field, values, j);
        assert before + FieldLines(field, values[..j + 1]) ==
          before + FieldLines(field, values[..j]) + [LineFor(field, values[j])];
        TerminatedSnoc(before + FieldLines(field, values[..j]), LineFor(field, values[j]), lineEnding);
        var line := "%" + field + " " + values[j];
        text := text + line + lineEnding;
        j := j + 1;
      }
      assert values[..|values|] == values;
      KeyLinesSnoc(fields, i);
      i := i + 1;
    }
    assert fields.keys[..|fields.keys|] == fields.keys;
  }

  /** A record without fields is written as the empty text. */
  lemma EmptyRecordText(lineEnding: string)
    ensures RecordText(Empty, lineEnding) == ""
  {
  }

  /** The terminated lines are the lines joined by the line ending, with one more ending at the end. */
  lemma {:induction false} TerminatedIsJoin(lines: seq<string>, lineEnding: string)
    ensures Terminated(lines, lineEnding) == Join(lines + [""], lineEnding)
    ensures lines != [] ==> Terminated(lines, lineEnding) == Join(lines, lineEnding) + lineEnding
    decreases |lines|
  {
    if lines == [] {
      assert lines + [""] == [""];
    } else {
      var init := lines[..|lines| - 1];
      var last := lines[|lines| - 1];
      TerminatedIsJoin(init, lineEnding);
      TerminatedJoinStep(init, last, lineEnding);
      assert init + [last] == lines;
    }
  }

  /** One more line keeps the terminated lines equal to the join with an empty last piece. */
  lemma TerminatedJoinStep(init: seq<string>, last: string, lineEnding: string)
    requires Terminated(init, lineEnding) == Join(init + [""], lineEnding)
    ensures Terminated(init + [last], lineEnding) == Join(init + [last] + [""], lineEnding)
    ensures Terminated(init + [last], lineEnding) == Join(init + [last], lineEnding) + lineEnding
  {
    TerminatedSnoc(init, last, lineEnding);
    JoinSnoc(init + [last], "", lineEnding);
    if init == [] {
      assert init + [""] == [""];
      assert init + [last] == [last];
    } else {
      JoinSnoc(init, "", lineEnding);
      JoinSnoc(init, last, lineEnding);
    }
    assert Join(init + [last], lineEnding) + lineEnding + "" == Join(init + [last], lineEnding) + lineEnding;
  }

  /** One line per value: a text gives one line, a list one line per item. */
  lemma {:induction false} KeyLinesCount(fields: FieldMap, keys: seq<string>)
    requires forall k :: k in keys ==> k in fields.values
    ensures |KeyLines(fields, keys)| == ValueCount(fields, keys)
    decreases |keys|
  {
    if keys != [] {
      KeyLinesCount(fields, keys[..|keys| - 1]);
    }
  }

  /** The number of values stored under `keys`. */
  function ValueCount(fields: FieldMap, keys: seq<string>): nat
    requires forall k :: k in keys ==> k in fields.values
    decreases |keys|
  {
    if keys == [] then 0
    else ValueCount(fields, keys[..|keys| - 1]) + |ValuesOf(fields.values[keys[|keys| - 1]])|
  }

  // ---------------------------------------------------------------------
  // translateRecord and refer

  /** `translateRecord`: the translator's field map, classified by `getRecordType`. */
  function TranslateRecord<Item>(convert: Item -> FieldMap, item: Item): (r: Record)
    ensures r.scheme == "refer" && r.fields == convert(item)
    ensures r.recordType in TYPES
  {
    var fields := convert(item);
    ClassifiedTypeConverts(fields);
    Record("refer", RecordTypeOf(fields), fields)
  }

  /** The options of `refer`; `None` is an option left undefined. */
  datatype ReferOptions = ReferOptions(format: Option<string>, lineEnding: Option<string>)

  /** What `refer` returns: the records themselves, or the text. */
  datatype ReferOutput = RecordObjects(records: seq<Record>) | ReferText(text: string)

  /** The format, `text` when left undefined. */
  function FormatOf(options: ReferOptions): string {
    if options.format.Some? then options.format.value else "text"
  }

  /** The line ending, LF when left undefined. */
  function LineEndingOf(options: ReferOptions): string {
    if options.lineEnding.Some? then options.lineEnding.value else "\n"
  }

  /** `csl.map(translateRecord)`. */
  function TranslateAll<Item>(convert: Item -> FieldMap, csl: seq<Item>): (r: seq<Record>)
    ensures |r| == |csl|
    ensures forall i :: 0 <= i < |csl| ==> r[i] == TranslateRecord(convert, csl[i])
  {
    seq(|csl|, i requires 0 <= i < |csl| => TranslateRecord(convert, csl[i]))
  }

  /** The texts of the records, each formatted with the line ending. */
  function RecordTexts(records: seq<Record>, lineEnding: string): (r: seq<string>)
    ensures |r| == |records|
    ensures forall i :: 0 <= i < |records| ==> r[i] == RecordText(records[i].fields, lineEnding)
  {
    seq(|records|, i requires 0 <= i < |records| => RecordText(records[i].fields, lineEnding))
  }

  /**
   * `refer(csl, options)`: translate every item; with format `object`
   * return the records, with any other format their texts joined by the
   * line ending.
   */
  function Refer<Item>(csl: seq<Item>, convert: Item -> FieldMap, options: ReferOptions): ReferOutput {
    var records := TranslateAll(convert, csl);
    if FormatOf(options) == "object" then RecordObjects(records)
    else
      var lineEnding := LineEndingOf(options);
      ReferText(Join(RecordTexts(records, lineEnding), lineEnding))
  }

  /**
   * The output of `refer`: records exactly for the format `object`, one per
   * item in order and each with a type from `TYPES`; otherwise text, which
   * for a single item is that item's record text.
   */
  lemma ReferShape<Item>(csl: seq<Item>, convert: Item -> FieldMap, options: ReferOptions)
    ensures Refer(csl, convert, options).RecordObjects? <==> options.format == Some("object")
    ensures options.format == Some("object") ==>
      var records := Refer(csl, convert, options).records;
      && |records| == |csl|
      && forall i :: 0 <= i < |csl| ==>
        records[i].fields == convert(csl[i]) && records[i].recordType == RecordTypeOf(convert(csl[i]))
    ensures options.format != Some("object") && |csl| == 1 ==>
      Refer(csl, convert, options).text == RecordText(convert(csl[0]), LineEndingOf(options))
    ensures options.format != Some("object") && csl == [] ==> Refer(csl, convert, options).text == ""
  {
    if options.format != Some("object") && |csl| == 1 {
      var texts := RecordTexts(TranslateAll(convert, csl), LineEndingOf(options));
      assert texts == [texts[0]];
    }
  }

  /** Leaving the options undefined is asking for text with LF line endings. */
  lemma ReferDefaults<Item>(csl: seq<Item>, convert: Item -> FieldMap)
    ensures Refer(csl, convert, ReferOptions(None, None)) == Refer(csl, convert, ReferOptions(Some("text"), Some("\n")))
    ensures Refer(csl, convert, ReferOptions(None, None)).ReferText?
  {
  }
}

/**
 * The field map of a refer record: field codes with either a single text
 * value or, for the repeatable codes, an ordered list of values.  It stands
 * for a JavaScript object, so its keys keep their insertion order and
 * assigning to an existing key keeps that key's position.
 */
module Fields {

  datatype FieldValue = Text(text: string) | List(items: seq<string>)

  datatype Entries = Entries(keys: seq<string>, values: map<string, FieldValue>)

  /** The keys are distinct and are exactly the domain of the values. */
  predicate WellFormed(e: Entries) {
    && (forall i, j :: 0 <= i < j < |e.keys| ==> e.keys[i] != e.keys[j])
    && (forall k :: k in e.values ==> k in e.keys)
    && (forall i :: 0 <= i < |e.keys| ==> e.keys[i] in e.values)
  }

  type FieldMap = e: Entries | WellFormed(e) witness Entries([], map[])

  /** A record as the plugin passes it on: `{ scheme, type, fields }`. */
  datatype Record = Record(scheme: string, recordType: string, fields: FieldMap)

  const Empty: FieldMap := Entries([], map[])

  predicate Has(fields: FieldMap, code: string) {
    code in fields.values
  }

  /** `fields[code] = v`: a new key goes last, an existing key keeps its place. */
  function Put(fields: FieldMap, code: string, v: FieldValue): FieldMap {
    if code in fields.values then
      Entries(fields.keys, fields.values[code := v])
    else
      var e := Entries(fields.keys + [code], fields.values[code := v]);
      assert WellFormed(e) by {
        assert code !in fields.keys;
      }
      e
  }

  /** After `fields[code] = v`, the code holds `v`. */
  lemma PutSame(fields: FieldMap, code: string, v: FieldValue)
    ensures Has(Put(fields, code, v), code) && Put(fields, code, v).values[code] == v
  {
  }

  /** Assigning one code leaves every other code as it was. */
  lemma PutOther(fields: FieldMap, c: string, v: FieldValue, code: string)
    requires c != code
    ensures Has(Put(fields, c, v), code) <==> Has(fields, code)
    ensures Has(fields, code) ==> Put(fields, c, v).values[code] == fields.values[code]
  {
  }

  /** Assigning a key twice is assigning it once, with the later value. */
  lemma PutPut(fields: FieldMap, code: string, v: FieldValue, w: FieldValue)
    ensures Put(Put(fields, code, v), code, w) == Put(fields, code, w)
  {
    var once := Put(fields, code, v);
    assert once.values[code := w] == fields.values[code := w];
    if code in fields.values {
      assert once.keys == fields.keys;
    } else {
      assert once.keys == fields.keys + [code];
    }
  }
}

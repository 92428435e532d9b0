/**
 * The record-type classifier (`getRecordType`) and the type converter
 * (`CONVERTERS.TYPE`), with the tables `TYPES` and `TYPE_MAPPING`.
 */
module RecordTypes {
  import opened Wrappers
  import opened Fields

  /** The refer record types, indexed by `getRecordType`'s type number. */
  const TYPES: seq<string> := ["other", "journal-article", "book", "article-in-book", "tech-report"]

  /** `TYPE_MAPPING.toTarget`: refer record type to CSL item type. */
  const TYPE_MAPPING: map<string, string> := map[
    "other" := "book",
    "journal-article" := "article-journal",
    "book" := "book",
    "article-in-book" := "chapter",
    "tech-report" := "report"
  ]

  /** The CSL types a refer record can be converted to. */
  const TARGET_TYPES: set<string> := {"book", "article-journal", "chapter", "report"}

  /**
   * The classification as a presence cascade: the first present code
   * decides, `J` before `B` before `G`/`R` before `I`, and `other` when
   * none of them is present.
   */
  function RecordTypeOf(fields: FieldMap): string {
    if Has(fields, "J") then "journal-article"
    else if Has(fields, "B") then "article-in-book"
    else if Has(fields, "G") || Has(fields, "R") then "tech-report"
    else if Has(fields, "I") then "book"
    else "other"
  }

  /** `getRecordType`: picks a type number with an if-chain and looks it up in `TYPES`. */
  method GetRecordType(fields: FieldMap) returns (t: string)
    ensures t == RecordTypeOf(fields)
    ensures t in TYPES
  {
    var typeNumber := 0;
    if Has(fields, "J") {
      typeNumber := 1;
    } else if Has(fields, "B") {
      typeNumber := 3;
    } else if Has(fields, "G") || Has(fields, "R") {
      typeNumber := 4;
    } else if Has(fields, "I") {
      typeNumber := 2;
    }
    t := TYPES[typeNumber];
  }

  /** `CONVERTERS.TYPE.toTarget`: `None` is the `undefined` of a missing table entry. */
  function TypeToTarget(t: string): (r: Option<string>)
    ensures r.Some? <==> t in TYPES
    ensures r.Some? ==> r.value in TARGET_TYPES
  {
    if t in TYPE_MAPPING then Some(TYPE_MAPPING[t]) else None
  }

  /** Every record is classified as one of `TYPES`, which the type converter maps to a CSL type. */
  lemma ClassifiedTypeConverts(fields: FieldMap)
    ensures RecordTypeOf(fields) in TYPES
    ensures TypeToTarget(RecordTypeOf(fields)).Some?
    ensures TypeToTarget(RecordTypeOf(fields)).value in TARGET_TYPES
  {
  }

  /** `J` decides on its own: a journal article whatever else is present. */
  lemma JournalWins(fields: FieldMap)
    requires Has(fields, "J")
    ensures RecordTypeOf(fields) == "journal-article"
    ensures TypeToTarget(RecordTypeOf(fields)) == Some("article-journal")
  {
  }

  /** Only the presence of `J`, `B`, `G`, `R` and `I` matters, not their values or other codes. */
  lemma ClassificationByPresence(f: FieldMap, g: FieldMap)
    requires forall c :: c in ["J", "B", "G", "R", "I"] ==> (Has(f, c) <==> Has(g, c))
    ensures RecordTypeOf(f) == RecordTypeOf(g)
  {
    assert "J" in ["J", "B", "G", "R", "I"];
    assert "B" in ["J", "B", "G", "R", "I"];
    assert "G" in ["J", "B", "G", "R", "I"];
    assert "R" in ["J", "B", "G", "R", "I"];
    assert "I" in ["J", "B", "G", "R", "I"];
  }

  /** The type table, entry by entry. */
  lemma TypeTable()
    ensures TypeToTarget("other") == Some("book")
    ensures TypeToTarget("journal-article") == Some("article-journal")
    ensures TypeToTarget("book") == Some("book")
    ensures TypeToTarget("article-in-book") == Some("chapter")
    ensures TypeToTarget("tech-report") == Some("report")
  {
  }
}

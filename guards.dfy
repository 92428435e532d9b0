/**
 * The four condition functions of the mapping table that choose between
 * authors, literal authors and editors.  On the refer side they look at the
 * value of the `A` field; on the CSL side at the `author` list.
 */
module Guards {
  import opened Wrappers
  import opened Fields
  import opened Names
  import opened JsText

  /** Whether a field value is truthy: an empty text is falsy, every list (even an empty one) is truthy. */
  predicate IsTruthy(v: Option<FieldValue>) {
    v.Some? && (v.value.Text? ==> v.value.text != "")
  }

  /**
   * `names[names.length - 1]` as the regular expression test sees it: the
   * last item of a list or the last character of a text, and the text
   * "undefined" when there is none.
   */
  function LastEntry(v: FieldValue): string {
    match v
    case Text(s) => if s == "" then "undefined" else [s[|s| - 1]]
    case List(items) => if items == [] then "undefined" else items[|items| - 1]
  }

  /** The `A` field feeds `author` when it is truthy and its last entry carries no editors mark. */
  predicate AuthorFromA(a: Option<FieldValue>) {
    IsTruthy(a) && !HasEditorsSuffix(LastEntry(a.value))
  }

  /** The `A` field feeds `editor` when it is truthy and its last entry carries an editors mark. */
  predicate EditorFromA(a: Option<FieldValue>) {
    IsTruthy(a) && HasEditorsSuffix(LastEntry(a.value))
  }

  /**
   * Whether `author` is written to `A` as a list of names: several names, or
   * one name without a truthy literal.  `None` is the TypeError raised by
   * reading `names[0].literal` on an empty list.
   */
  function AuthorToA(author: Option<seq<Name>>): Option<bool> {
    if author.None? then Some(false)
    else if |author.value| > 1 then Some(true)
    else if |author.value| == 0 then None
    else Some(!Truthy(author.value[0].literal))
  }

  /** Whether `author` is written to `Q`: exactly one name, with a truthy literal. */
  predicate AuthorToQ(author: Option<seq<Name>>) {
    author.Some? && |author.value| == 1 && Truthy(author.value[0].literal)
  }

  /** A truthy `A` value goes to exactly one of `author` and `editor`; a falsy one to neither. */
  lemma SourceGuardsPartition(a: Option<FieldValue>)
    ensures AuthorFromA(a) || EditorFromA(a) <==> IsTruthy(a)
    ensures !(AuthorFromA(a) && EditorFromA(a))
  {
  }

  /**
   * A non-empty author list goes to exactly one of `A` and `Q`; a missing
   * one to neither; an empty one makes the `A` condition throw.
   */
  lemma TargetGuardsPartition(author: Option<seq<Name>>)
    ensures author.Some? && |author.value| >= 1 ==> AuthorToA(author) == Some(!AuthorToQ(author))
    ensures author.None? ==> AuthorToA(author) == Some(false) && !AuthorToQ(author)
    ensures author.Some? && author.value == [] ==> AuthorToA(author).None? && !AuthorToQ(author)
  {
  }

  /** Editors written by `EDITORS.toSource` are read back as editors, never as authors. */
  lemma MarkedEditorsReadAsEditors(format: Name -> string, names: seq<Name>)
    ensures EditorFromA(Some(List(MarkedEditors(NamesToSource(format, names)))))
    ensures !AuthorFromA(Some(List(MarkedEditors(NamesToSource(format, names)))))
  {
    MarkedHasSuffix(NamesToSource(format, names));
  }

  /** A literal read from `Q` is written back to `Q` exactly when it is not empty. */
  lemma LiteralReadAsLiteral(literal: string)
    ensures AuthorToQ(Some(SingleNameToTarget(literal))) <==> literal != ""
    ensures AuthorToA(Some(SingleNameToTarget(literal))) == Some(literal == "")
  {
  }

  /** A non-empty text value feeds `author`: its last character alone can never carry an editors mark. */
  lemma TextValueReadAsAuthor(s: string)
    requires s != ""
    ensures AuthorFromA(Some(Text(s)))
  {
  }

  /**
   * The converters behind guards 168 and 143 are only called on lists they
   * accept: `EDITORS.toTarget` pops the last entry, and an `A` list that
   * passes guard 168 has one; `SINGLE_NAME.toSource` reads the first name,
   * and an author list that passes guard 143 has exactly one.
   */
  lemma GuardedConvertersDefined(items: seq<string>, author: Option<seq<Name>>)
    ensures EditorFromA(Some(List(items))) ==> |items| >= 1
    ensures AuthorToQ(author) ==> |author.value| == 1
  {
    if items == [] {
      assert LastEntry(List(items)) == "undefined";
      assert !EndsWith("undefined", SINGLE_EDITOR_MARK) by {
        assert "undefined"[|"undefined"| - 1] != SINGLE_EDITOR_MARK[|SINGLE_EDITOR_MARK| - 1];
      }
      assert !EndsWith("undefined", EDITORS_MARK) by {
        assert "undefined"[|"undefined"| - 1] != EDITORS_MARK[|EDITORS_MARK| - 1];
      }
    }
  }
}

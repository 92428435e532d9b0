# A Dafny model of the refer plugin of Citation.js

The plugin converts between two bibliography formats:

- **refer**, the line-based format of the `refer` preprocessor. Each line is `%X value`, where `X` is a one-letter field code. A blank line separates records.
- **CSL-JSON**, which Citation.js uses internally.

Both directions are modelled.

**Reading a file.** `parseFile` does the following:

1. trims the file;
2. turns CR LF and lone CR into LF;
3. splits the file at runs of blank lines;
4. reads each block with `parseRecord`.

`parseRecord` turns each line into a code and a value:

- the code is upper-cased;
- a line with an empty value is skipped;
- the repeatable codes `A` and `E` collect their values into a list;
- every other code keeps its last value.

`getRecordType` then classifies the record. It checks for `J`, then `B`, then `G`/`R`, then `I`, and chooses one of the five refer types.

**Writing.** `refer` takes a list of CSL items. It translates each item into a refer record with `translateRecord` and classifies it the same way. Then:

- for the format `object` it returns the records;
- otherwise it writes each record with `formatRecord`, one `%CODE value` line per value, and joins the record texts with the line ending.

**Converters.** Between the two sides sit the value converters of the mapping table:

- `TYPE`;
- `NAME`: one name, with an optional suffix after the first comma;
- `SINGLE_NAME`: a literal name;
- `NAMES`;
- `EDITORS`: a name list whose last entry carries `, (ed)` or `, (eds)`;
- `DATE`: a port of groff's `find_year`/`find_month`/`find_day`, with the year and day recognised by bounded regular expressions.

**Guards.** Four guard functions decide whether the `A` field feeds CSL `author` or `editor`, and whether `author` is written to `A` or, as a literal, to `Q`.

## Layout

**Modules:**

- `Wrappers`: the `Option` type.
- `JsText`: the JavaScript string built-ins the code uses: `split`, `join`, `trim`, ASCII `toUpperCase`, number to text and `parseInt` of digits.
- `Scanner`: digit and letter runs, and a literal definition of the bounded regular-expression search. The two are proved to agree.
- `Fields`: field values, field maps that keep insertion order (as a JavaScript object does), and records.
- `RecordTypes`: `TYPES`, `TYPE_MAPPING`, the `TYPE` converter and `getRecordType`.
- `Names`: `NAME`, `SINGLE_NAME`, `NAMES`, `EDITORS` and `EDITORS_SUFFIX`.
- `Guards`: the guard functions at lines 133, 134, 143 and 168 of `src/shared.js`.
- `Dates`: `MONTHS` and `DATE`.
- `Input`: `parseRecord` and `parseFile`.
- `Output`: `formatRecord`, `translateRecord` and `refer`.
- `RoundTrip`: reading back what was written, for one record and for a whole file.

**Methods.** The source's step-by-step code is written as methods, and each is proved equal to a specification function. `getRecordType` has no loop. It is an if-chain that picks a type number and then looks it up in `TYPES`, and it is the method `RecordTypes.GetRecordType`. The loops are:

- the `parseRecord` line loop is `Input.ParseRecord` with `Input.StoreLine`;
- `formatRecord` is `Output.FormatRecord`;
- the `EDITORS` converters are `Names.EditorsToTarget` and `Names.EditorsToSource`;
- the month loop of `DATE.toTarget` is `Dates.ToTarget`.

Everything else is pure functions and lemmas about them.

**Parameters.** The external name library (`parseName`, `formatName`) and the generic translator (`translator.convertToSource`) are not part of this model. They enter as function parameters:

- `parse` and `format` in `Names`;
- `convert` in `Output`.

Where a property needs them to behave, the lemma says so in a `requires` clause, only for the names or texts at hand:

- `Names.TextReadsBack`: the library reads one text as a name and formats it back as that text;
- `Names.NameReadsBack`: the library formats one name, without its suffix, as comma-free text and reads that text back as the name.

## Where the code and its description differ

The model follows the code in each case:

- **Month matching.** The month loop of `DATE.toTarget` (`src/shared.js:84-92`):
  - it appends a month number for *every* letter run that begins a month name, not only for the first;
  - it matches case-sensitively in effect. The letter runs are found case-insensitively, but `startsWith` compares them with the lower-case names, so `March` is no month.
- **`EDITORS.toSource`** on an empty list yields `["undefined, (ed)"]`, because `names[0] += …` works on an empty array.
- **The `author` guard at line 134** throws on an empty list, because it reads `names[0].literal`. This is modelled as `None`.
- **Year range.** The comment at `src/shared.js:74` says a year lies between 32 and 9999. The expression also accepts three and four digits with leading zeros: `000` reads as year 0 and `0031` as year 31. `Dates.ReadParts` therefore states a year of 0..9999, and `Dates.YearFound` states the bound of 32 only for two digits.

## Model

| member | source | states |
|---|---|---|
| Fields.PutPut | src/input.js:18 | Assigning a code twice leaves the later value in the code's original position. |
| RecordTypes.RecordTypeOf | src/shared.js:219-231 | The classification as a cascade: `J` gives `journal-article`, else `B` gives `article-in-book`, else `G` or `R` gives `tech-report`, else `I` gives `book`, else `other`. |
| RecordTypes.GetRecordType | src/shared.js:219-231 | The loop-free classification returns the type that the `J`, `B`, `G`/`R`, `I` order gives, and that type is one of `TYPES`. |
| RecordTypes.ClassificationByPresence | src/shared.js:219-231 | The type depends only on which of `J`, `B`, `G`, `R`, `I` are present. |
| RecordTypes.JournalWins | src/shared.js:221-222 | A record with `J` is a journal article, whatever else it has. Its CSL type is `article-journal`. |
| RecordTypes.TypeToTarget | src/shared.js:8-21 | The `TYPE` converter is defined exactly on the five refer types, and its results are CSL types. |
| RecordTypes.TypeTable | src/shared.js:8-16 | The five entries of `TYPE_MAPPING`. |
| RecordTypes.ClassifiedTypeConverts | src/shared.js:6 | Every classified record has a type that `TYPE` converts. |
| Names.NameToTarget | src/shared.js:23-30 | `NAME.toTarget`: the library parses the text before the first comma. When there are more comma pieces, they are re-joined with `,` and become the suffix. |
| Names.NameToSource | src/shared.js:31-38 | `NAME.toSource`: the library formats the name without its suffix. A truthy suffix follows after a comma. |
| Names.SingleNameToTarget | src/shared.js:41 | `SINGLE_NAME.toTarget`: the whole text becomes one name that has only a literal. |
| Names.SingleNameToSource | src/shared.js:42 | `SINGLE_NAME.toSource`: the literal of the first name, for a non-empty list. |
| Names.NamesToTarget | src/shared.js:45 | `NAMES.toTarget`: `NAME.toTarget` on each entry, in order. |
| Names.NamesToSource | src/shared.js:46 | `NAMES.toSource`: `NAME.toSource` on each name, in order. |
| Names.HasEditorsSuffix | src/shared.js:4 | The test of `EDITORS_SUFFIX`: the text ends in `, (ed)` or `, (eds)`. |
| Names.StripEditorsSuffix | src/shared.js:4 | Replacing `EDITORS_SUFFIX` with nothing: one trailing `, (eds)` or `, (ed)` is removed, and any other text is unchanged. |
| Names.NameToTargetSplitsAtFirstComma | src/shared.js:23-30 | The text before the first comma is parsed. The text after it, commas included, becomes the suffix. |
| Names.NameSourceRoundTrip | src/shared.js:23-38 | Text to name and back gives the text again, except that a trailing comma with no suffix is lost. It requires `TextReadsBack` for the text before the first comma only. |
| Names.NameTargetRoundTrip | src/shared.js:23-38 | Name to text and back gives the name, with a falsy suffix dropped. It requires `NameReadsBack` for that one name only. |
| Names.SingleNameRoundTrip | src/shared.js:40-43 | A literal survives both directions, and so does a list holding one literal name. |
| Names.NamesSourceRoundTrip | src/shared.js:44-47 | Text list to names and back is the identity when no entry ends in a bare comma. It requires `TextReadsBack` for each entry's text before its first comma. |
| Names.NamesTargetRoundTrip | src/shared.js:44-47 | Name list to text and back is the identity when no suffix is the empty text. It requires `NameReadsBack` for each name of the list. |
| Names.EditorsToTarget | src/shared.js:52-57 | Every name is parsed, and the last one is parsed after one trailing `, (ed)`/`, (eds)` is removed. The input is copied, not changed. |
| Names.EditorsToSource | src/shared.js:58-66 | Every name is formatted. `, (eds)` goes after the last of several names, `, (ed)` after a single name, and an empty list gives `undefined, (ed)`. |
| Names.StripMarked | src/shared.js:4 | Removing the mark undoes adding it. |
| Names.MarkStripped | src/shared.js:4 | Removing then adding the mark gives the list back exactly when its last entry carries the mark that fits the list's length. |
| Names.MarkedHasSuffix | src/shared.js:58-66 | What `EDITORS.toSource` writes always matches `EDITORS_SUFFIX`. |
| Names.EditorsRoundTrip | src/shared.js:52-66 | Editors written by `EDITORS.toSource` are read back unchanged by `EDITORS.toTarget`. It requires `NameReadsBack` for each name of the list. |
| Guards.AuthorFromA | src/shared.js:133 | Guard 133: the `A` value is truthy and its last entry has no editors mark. The last entry of a text is its last character, and of an empty value it is `undefined`. |
| Guards.EditorFromA | src/shared.js:168 | Guard 168: the `A` value is truthy and its last entry has an editors mark. |
| Guards.AuthorToA | src/shared.js:134 | Guard 134: a missing list fails; several names pass; one name passes when its literal is falsy. An empty list throws, which is modelled as `None`. |
| Guards.AuthorToQ | src/shared.js:143 | Guard 143: the list has exactly one name and its literal is truthy. |
| Guards.SourceGuardsPartition | src/shared.js:133 | A truthy `A` value feeds exactly one of `author` (guard 133) and `editor` (guard 168), and a falsy one feeds neither. |
| Guards.TargetGuardsPartition | src/shared.js:134 | A non-empty author list goes to exactly one of `A` (guard 134) and `Q` (guard 143). A missing list goes to neither. An empty list makes guard 134 throw. |
| Guards.MarkedEditorsReadAsEditors | src/shared.js:168 | Editors written by `EDITORS.toSource` are read as editors, never as authors. |
| Guards.LiteralReadAsLiteral | src/shared.js:143 | A literal author is written to `Q` exactly when the literal is not empty. |
| Guards.TextValueReadAsAuthor | src/shared.js:133 | A non-empty single-text `A` value is read as an author. |
| Guards.GuardedConvertersDefined | src/shared.js:143-168 | Guard 168 passes only a non-empty `A` list, which `EDITORS.toTarget` needs. Guard 143 passes only a one-name author list, which `SINGLE_NAME.toSource` needs. |
| Scanner.RegexSearch | src/shared.js:75 | `match` of a bounded number from a position on: the first start position at which the pattern matches wins. |
| Scanner.SearchIsFirstRun | src/shared.js:75 | The search for a bounded number, not touching other digits, finds the first whole digit run that is in the pattern's language. |
| Scanner.FirstInLanguage | src/shared.js:98 | The run found is in the language and is one of the runs. When nothing is found, no run is in the language. |
| Dates.Parsed | src/shared.js:72-105 | `DATE.toTarget` as a reading. Without a year, the text is the status unless it is `unknown`. With a year, one date-parts entry is made from the year, a month number for each letter run that begins a month name, and a day searched for after exactly one month. |
| Dates.ToSource | src/shared.js:106-119 | `DATE.toSource`: the first date-parts entry joined by spaces, with the month number written as its name. Without date-parts, a non-empty status is written. Otherwise nothing is written. |
| Dates.YearFound | src/shared.js:75 | A year is found exactly when the year expression matches. It is 2 to 4 digits, at most 9999, and at least 32 when it has two digits. |
| Dates.DayFound | src/shared.js:98 | A day is found exactly when the day expression matches. It lies in 1..31. |
| Dates.MonthIndexIsFirst | src/shared.js:87 | The index is that of the first month name the letter run begins, and -1 exactly when it begins none. |
| Dates.MonthNumbers | src/shared.js:84-92 | One month number of 1..12 at most for every letter run. |
| Dates.ToTarget | src/shared.js:72-105 | The loop computes the reading `Parsed`: the year, one month per matching letter run, and a day only after exactly one month. |
| Dates.IssuedOrStatus | src/shared.js:77-79 | A date is `issued` exactly when it has a year. Otherwise the text is the status, unless it is `unknown`. The two are never both given. |
| Dates.ReadParts | src/shared.js:81-104 | The parts are one entry: a year of 0..9999, then months in 1..12, then a day in 1..31 only after one month. |
| Dates.MonthName | src/shared.js:5 | Month names are lower-case, at least three letters long, and each finds its own index. |
| Dates.MonthNamesDistinct | src/shared.js:5 | No month name is a prefix of another. |
| Dates.UpperCaseNeverMatches | src/shared.js:87 | A letter run containing an upper-case letter begins no month name. |
| Dates.CanonicalText | src/shared.js:106-113 | `DATE.toSource` writes the parts joined by spaces, with the month as its name. |
| Dates.CanonicalRoundTrip | src/shared.js:72-113 | A date with a year of 32..9999, an optional month of 1..12 and an optional day of 1..31 is written and read back unchanged. |
| Dates.StatusRoundTrip | src/shared.js:77-79 | A text without a year, other than `unknown` and the empty text, becomes the status and is written back unchanged. |
| Dates.ReadNoYear | src/shared.js:77-79 | A text without digits has no year. |
| Dates.FixtureDay | test/suite.js:13 | `2000 october 10` reads as [2000, 10, 10]. |
| Dates.FixtureDayWritten | test/suite.js:13 | That date, written back by `DATE.toSource`, is `2000 october 10` again. |
| Dates.FixtureYear | test/suite.js:54 | `32` reads as [32]. |
| Dates.FixtureBelowYear | src/shared.js:74 | `31` is no year and is kept as the status. |
| Dates.FixtureSeason | test/suite.js:132 | `2022 spring` reads as [2022]. |
| Dates.FixtureMonth | test/suite.js:143 | `2022 march` reads as [2022, 3]. |
| Dates.FixtureUnknown | test/suite.js:152 | `unknown` gives neither a date nor a status. |
| Dates.FixtureForthcoming | test/suite.js:158 | `forthcoming` is kept as the status. |
| Dates.ReadYearAndWord | src/shared.js:84-92 | A year followed by a word that names no month reads as the year alone. |
| Dates.TwoMonthNames | src/shared.js:84-92 | As written, `2000 march may` reads as [2000, 3, 5], but the first-month reading gives [2000, 3]. |
| Dates.ReadYearTwoMonths | src/shared.js:84-92 | Two month words after a year give both month numbers, and no day is searched for. |
| Dates.FirstMonthShape | src/shared.js:84-102 | Taking only the first month, a date always has at most three parts: a year, a month of 1..12 and a day of 1..31. |
| Dates.FirstMonthAgrees | src/shared.js:84-92 | When at most one letter run names a month, both readings agree. |
| Input.LineParts | src/input.js:7-9 | The code is the upper-cased text up to the first space after the marker. The value is everything after that space. |
| Input.LineOf | src/input.js:7-9 | The line `%code value` gives back the upper-cased code and the value. |
| Input.EmptyValueSkipped | src/input.js:10-12 | A line whose value is empty leaves the fields unchanged. |
| Input.AddLine | src/input.js:7-19 | One line's effect on the fields: an empty value changes nothing, `A` and `E` append the value to their list, and any other code is set to the value. |
| Input.StoreLine | src/input.js:7-19 | One pass of the line loop is the reading `AddLine`, and it keeps `A` and `E` lists and every other code a text. |
| Input.RecordOf | src/input.js:3-23 | `parseRecord`: the lines applied in order to empty fields, with the scheme `refer` and the type from `getRecordType`. |
| Input.ParseRecord | src/input.js:3-23 | The loop computes `RecordOf`. The scheme is `refer` and the type is one of `TYPES`. |
| Input.FoldLinesKeepsShape | src/input.js:14-19 | `A` and `E` are always lists, and every other code is always a text. |
| Input.FoldLinesHas | src/input.js:10-19 | A code is present exactly when some line gives it a non-empty value. |
| Input.FoldLinesCollects | src/input.js:14-16 | A repeatable code holds all its non-empty values, in order. |
| Input.FoldLinesOverwrites | src/input.js:17-19 | Any other code holds its last non-empty value. |
| Input.FieldsOfRecord | src/input.js:3-23 | What a record's text gives for each code: the list of its values or its last value. |
| Input.FoldLinesAppend | src/input.js:6 | Reading lines `a + b` is reading `a` and then `b`. |
| Input.NormalizeLineEndings | src/input.js:26 | No CR is left, and a text without CR is unchanged. |
| Input.NormalizedTrimmed | src/input.js:26 | A trimmed file stays trimmed after line endings are normalised. |
| Input.SplitRecords | src/input.js:26 | There is always at least one block. |
| Input.SplitRecordsHaveNoBlankLine | src/input.js:26 | No block contains two LF characters in a row. |
| Input.SplitRecordsJoin | src/input.js:26 | Blocks joined by blank lines are split back into the same blocks. |
| Input.ParseFile | src/input.js:25-27 | `parseFile`: trim, normalise line endings, split at blank lines, and read every block with `parseRecord`. |
| Input.ParseEmptyFile | src/input.js:25-27 | The empty file reads as one record of type `other` without fields. |
| JsText.JoinSplit | src/input.js:7-8 | Splitting the line at spaces and re-joining the value pieces gives the text back. |
| JsText.SplitJoin | src/input.js:6 | Joining pieces without the separator, then splitting, gives the pieces back. |
| JsText.ToUpperHasNoLowerCase | src/input.js:9 | An upper-cased code has no lower-case letter and keeps its length. |
| Output.RecordText | src/output.js:8-17 | The text `formatRecord` writes: every line of the record followed by the line ending. |
| Output.FormatRecord | src/output.js:8-17 | The loop writes `%code value` plus the line ending for every value of every field, in field order. |
| Output.TerminatedIsJoin | src/output.js:13 | One line ending after each line is the lines joined by the line ending, plus one more. |
| Output.KeyLinesCount | src/output.js:11-14 | One line per value: one for a text, one per item of a list. |
| Output.EmptyRecordText | src/output.js:8-17 | A record without fields is written as the empty text. |
| Output.TranslateRecord | src/output.js:3-6 | The record carries the translator's fields, the scheme `refer` and a type from `TYPES`. |
| Output.TranslateAll | src/output.js:27 | One record per item, in order. |
| Output.RecordTexts | src/output.js:31 | One text per record, each that record's formatted text. |
| Output.Refer | src/output.js:25-33 | `refer`: translate every item. For the format `object` give the records, otherwise their texts joined by the line ending. |
| Output.ReferShape | src/output.js:25-33 | Records come back exactly for the format `object`, one per item with its classified type. Otherwise text comes back: a single item's record text, or empty for no items. |
| Output.ReferDefaults | src/output.js:26 | Undefined options mean text with LF line endings. |
| RoundTrip.ReadField | src/input.js:14-19 | The lines written for one writable field rebuild that field. |
| RoundTrip.ReadKeyLines | src/output.js:10-15 | The lines of the first `n` fields rebuild the first `n` fields, in order. |
| RoundTrip.ReadRecordLines | src/output.js:8-17 | All the lines of a record rebuild its field map. |
| RoundTrip.RecordRoundTrip | src/output.js:8-17 | Any writable field map written by `formatRecord` with LF is read back by `parseRecord` unchanged. |
| RoundTrip.TranslatedRecordRoundTrip | src/output.js:3-6 | Reading back a translated record's text gives that translated record. |
| RoundTrip.BlockShaped | src/input.js:26 | The block of a file-writable record starts with `%`, ends without a newline, and holds no blank line and no CR, so the file parser cuts it out whole. |
| RoundTrip.BlockReadable | src/input.js:26 | The block of a file-writable record is read back by `parseRecord` as exactly that record. |
| RoundTrip.ParseRecordTexts | src/input.js:25-27 | The LF-joined texts of a non-empty list of file-writable records, the last not ending in white space, are parsed back as exactly those records. |
| RoundTrip.FileRoundTrip | test/suite.js:194-201 | `refer` with default options, read back by `parseFile`, gives exactly what `refer` returns for the format `object`. |
| RoundTrip.NoItemsReadAsOneRecord | src/output.js:31 | No items are written as the empty text, which reads back as one empty record, not as none. |

## Left out

- **The generic translator** (`util.Translator`, `convertToSource`/`convertToTarget`) and the `MAPPING` table are not modelled. The translator's field map is a parameter `convert`. Of the table, only the guard functions at `src/shared.js` lines 133, 134, 143 and 168 are modelled.
- **Guard 142** (`A: false`) and the `when` clauses that only test presence or a type list are part of the translator and are also left out.
- **`@citation-js/name`** (`parseName`, `formatName`) is an external library. It enters as the parameters `parse` and `format`.
- **Plugin registration** is not modelled. This covers the `parseType` descriptions and `@refer/record`'s call into the translator (`src/input.js:29-50`), and the plugin's entry point.
- **Key order.** The field map keeps insertion order for every code. JavaScript puts integer-like keys of an object first, in ascending order, so for a code such as `1` (from the line `%1 x`) the model's order differs from the object's. Inherited keys of `for … in` are not modelled.
- Names.SingleNameToSource: requires a non-empty list. On `[]` the parameter pattern `[{ literal }]` throws a TypeError, which is not modelled. Guard 143 passes only one-name lists, so the throw cannot happen behind it (`Guards.GuardedConvertersDefined`).
- Names.EditorsToTarget: requires a non-empty list. On `[]`, `names.pop()` gives `undefined` and `.replace` throws a TypeError, which is not modelled. Guard 168 fails on an empty list, because its last entry reads as the text `undefined`, so the throw cannot happen behind it (`Guards.GuardedConvertersDefined`).
- **Non-ASCII case.** `toUpperCase` is modelled on the ASCII letters only. Other letters in a field code are kept as they are.
- **Number text.** Numbers are written in decimal; the exponent notation of very large numbers is not modelled.
- **Lookup of inherited properties.** `TYPE_MAPPING.toTarget[type]` with a key inherited from `Object.prototype` (such as `constructor`) is not modelled: `RecordTypes.TypeToTarget` gives `None` for every key outside the table.
- **Date parts.** `DATE.toSource` is modelled on numeric date-parts. It does not model text date-parts, or a `date-parts` value that is not an array.
- **Name parts.** A name has only the parts `family`, `given`, `literal` and `suffix`. Other CSL name parts and non-string `literal` values are not modelled.
- **RoundTrip.FileRoundTrip**: its conditions (every record file-writable, last value not ending in white space) are sufficient, not necessary. It does not cover a list without items, which reads back as one record (`RoundTrip.NoItemsReadAsOneRecord`).
- RoundTrip.RecordRoundTrip: covers only LF line endings. With another line ending, `parseRecord` does not read the record text alone.

## Findings

| source | as written | input that shows it | evidently intended | confidence | as-written member | corrected member |
|---|---|---|---|---|---|---|
| src/shared.js:84-92 | Every letter run that begins a month name appends a month number. After two such runs, the second number sits in the day position and no day is searched for. | `2000 march may` gives [2000, 3, 5], read as 5 March 2000. | As in groff's `find_month`, which the comment cites, only the first month counts: [2000, 3]. | not executed; moderate | Dates.TwoMonthNames | Dates.FirstMonthShape |

# PDF form filler: field-name handling

This project models the field-name logic of the `PdfService` class of the
PDF form filler, and proves properties of that model in Dafny.
`PdfService` is a thin wrapper around a PDF library. It has two operations
that hold logic of their own.

- **FillForm** takes the caller's key/value pairs. It rewrites every `$` in
  a key to the hierarchical separator `.`. It builds a dictionary of the
  translated keys, then a case-insensitive copy of that dictionary. Either
  one throws when a key repeats. It then calls `SetField` once per
  translated key, with that key's value.
- **GetFormFields** collects the names the form enumerates. It groups them
  ignoring case and keeps the first-seen spelling of each group. It looks up
  each kept name's type id and value. It returns the entries in a dictionary
  sorted ignoring case.

The PDF engine is abstract. For filling, the form is an `AcroFields` object
whose only state is its map from field name to value. `SetField` is a
map update. A ghost log records each `SetField` call's name and value. For
reading, the engine is the sequence of enumerated names plus two lookup
functions. These stand in for `GetFieldType` and `GetField`.

The case-insensitive comparer `StringComparer.InvariantCultureIgnoreCase`
is approximated in module `CaseInsensitive`. Two names are the same when
their ASCII lower-case folds are equal. Names are ordered by comparing
their folds lexicographically by code point. The module proves that this
ordering is a strict total order on case-insensitive classes of names.

Files:

- `wrappers.dfy`: `Option`, `Result` and `Outcome`.
- `case_insensitive.dfy`: the fold, equality ignoring case, the ordering
  and its order lemmas.
- `pdf_service.dfy`: both operations. The pure steps are functions with
  lemmas. The two loops of the source are methods.

Two caller keys that differ only in case do not overwrite one another, as a
dictionary assignment would, keeping the later key. The code throws instead:
line 28 copies the dictionary into a case-insensitive `Dictionary`, and that
constructor refuses a key it already holds. In the model such a collision is
the `DuplicateKeyIgnoringCase` error, and no field is written.

## Model

| member | source | states |
|---|---|---|
| PdfService.Translate | PdfFormFiller.Common/PdfService.cs:27 | the translated key has the caller key's length; each `$` becomes `.`; every other character is unchanged; the result contains no `$` |
| PdfService.FirstDuplicate | PdfFormFiller.Common/PdfService.cs:27-28 | finds the position where a dictionary filled in input order first meets a repeated key: none exactly when the keys are pairwise distinct; otherwise that key occurs earlier and every key before it is distinct |
| PdfService.PrepareFields | PdfFormFiller.Common/PdfService.cs:27-28 | on success the pairs to write are the caller's pairs in input order with translated keys and unchanged values, and their names are pairwise distinct; on failure the error names one of the translated keys |
| PdfService.FillFailsOnDuplicateKey | PdfFormFiller.Common/PdfService.cs:27 | two caller keys that translate to the same string make filling fail with `DuplicateKey` |
| PdfService.FillFailsOnCaseCollision | PdfFormFiller.Common/PdfService.cs:28 | two caller keys whose translations are equal ignoring case make filling fail |
| PdfService.FillSucceedsIffNoCaseCollision | PdfFormFiller.Common/PdfService.cs:27-28 | filling succeeds if and only if no two translated keys are equal ignoring case (both directions) |
| PdfService.FillErrorNamesCollidingKey | PdfFormFiller.Common/PdfService.cs:27-28 | a failure reports a translated key that collides with an earlier one: exactly for `DuplicateKey`, ignoring case for `DuplicateKeyIgnoringCase` |
| PdfService.Apply | PdfFormFiller.Common/PdfService.cs:33-34 | after setting each pair in order, the form's field names are exactly its old names plus the pairs' names |
| PdfService.Fill | PdfFormFiller.Common/PdfService.cs:24-39 | a filled form's field names are exactly the old names plus the translated caller keys |
| PdfService.FillSetsEveryKey | PdfFormFiller.Common/PdfService.cs:33-34 | on success each caller key's translation is present in the filled form and holds that key's original value |
| PdfService.FillLeavesUnnamedFields | PdfFormFiller.Common/PdfService.cs:33-34 | on success a form field that no translated key names keeps its presence and its value |
| PdfService.AcroFields.constructor | PdfFormFiller.Common/PdfService.cs:31 | the form starts with the given field map and an empty write log |
| PdfService.AcroFields.SetField | PdfFormFiller.Common/PdfService.cs:34 | the named field takes the value; nothing else changes; the name and value are appended to the write log |
| PdfService.FillForm | PdfFormFiller.Common/PdfService.cs:24-39 | the outcome passes exactly when `Fill` succeeds; on failure it returns `Fill`'s error and neither the form nor the write log changes; on success the form equals `Fill`'s result and the log gains the translated pairs, each with its value, in input order |
| CaseInsensitive.Fold | PdfFormFiller.Common/PdfService.cs:28 | the fold keeps the name's length and folds each character on its own: ASCII upper case to lower case, anything else unchanged |
| CaseInsensitive.SameCharwise | PdfFormFiller.Common/PdfService.cs:28 | the comparer's equality holds exactly of names of equal length that fold to the same character at every position (both directions) |
| CaseInsensitive.Less | PdfFormFiller.Common/PdfService.cs:85 | a name that sorts before another is not equal to it ignoring case, so the order is irreflexive on case-insensitive classes |
| CaseInsensitive.LessTransitive | PdfFormFiller.Common/PdfService.cs:85 | the comparer's order is transitive |
| CaseInsensitive.LessTotal | PdfFormFiller.Common/PdfService.cs:85 | of two names that differ ignoring case, exactly one sorts before the other |
| PdfService.Representatives | PdfFormFiller.Common/PdfService.cs:73-74 | grouping keeps at most one key per enumerated name |
| PdfService.RepresentativesCover | PdfFormFiller.Common/PdfService.cs:73-74 | every enumerated name is equal, ignoring case, to some group key |
| PdfService.RepresentativesDistinct | PdfFormFiller.Common/PdfService.cs:73-75 | no two group keys are equal ignoring case, so the case-insensitive `ToDictionary` cannot throw |
| PdfService.RepresentativesFirstSeen | PdfFormFiller.Common/PdfService.cs:74 | each group key is an enumerated name, and no earlier name is equal to it ignoring case |
| PdfService.Describe | PdfFormFiller.Common/PdfService.cs:75-82 | one entry per group key, in the same order; each entry is keyed by its group key, and its field's name, type id and value are that key's name and lookups |
| PdfService.Insert | PdfFormFiller.Common/PdfService.cs:85 | inserting into the sorted dictionary adds exactly the one entry to those already there |
| PdfService.SortByKey | PdfFormFiller.Common/PdfService.cs:85 | the sorted dictionary holds exactly the entries given to it (a permutation) |
| PdfService.SortByKeySpec | PdfFormFiller.Common/PdfService.cs:85 | for keys pairwise distinct ignoring case, each key in the sorted dictionary's order sorts before the next |
| PdfService.FieldTable | PdfFormFiller.Common/PdfService.cs:73-85 | the result holds exactly the described group keys, rearranged; every earlier key sorts before every later one; no two keys are equal ignoring case |
| PdfService.GetFormFieldsFirstSeen | PdfFormFiller.Common/PdfService.cs:74-82 | each entry's key is the first-seen spelling of its class among the enumerated names; its `name` is that key; its type id and value are the lookups of that same name |
| PdfService.GetFormFieldsOnePerClass | PdfFormFiller.Common/PdfService.cs:67-85 | every enumerated name is equal, ignoring case, to the key of exactly one entry |
| PdfService.GetFormFields | PdfFormFiller.Common/PdfService.cs:63-86 | the loop collects the enumerated names in order, and the result is the grouped, looked-up and sorted table of them; no names give an empty result |
| PdfService.GetFormFieldsExample | PdfFormFiller.Common/PdfService.cs:73-85 | enumerating `zeta`, `Alpha`, `alpha` yields two entries, keyed `Alpha` then `zeta` |

## Left out

- PDF parsing and writing are left out because the PDF library owns them: `PdfReader`, `PdfStamper`, `stamper.Close`, `reader.Close` and `outStream.ToArray` (lines 29-31, 36-38, 65-66, 84). FillForm's model changes the abstract form and returns an outcome instead of PDF bytes.
- GenerateFile (lines 47-56) is left out because it is file I/O plus JSON decoding by a library. Its decoded dictionary is simply the `fields` input of FillForm.
- DownloadUrl (lines 95-126) is left out because it is HTTP I/O through `HttpClient`, and its `Uri.TryCreate` check uses a URI parser that cannot be seen.
- PdfService.AcroFields.SetField: modelled as a plain map update. The library's own matching of names to fields is not modelled, nor its boolean return value, nor the fact that it ignores names the form does not have.
- CaseInsensitive.Fold: `InvariantCultureIgnoreCase` equality is collation equality under the invariant culture, not only a case fold. It folds case for all of Unicode, ignores ignorable code points such as the soft hyphen U+00AD, and treats canonically equivalent spellings (a precomposed `é` and `e` followed by U+0301) as equal. The model folds ASCII letters only. On names that differ only in such ways the source throws at line 28 or merges groups at line 74, and the model does neither.
- CaseInsensitive.Less: `InvariantCultureIgnoreCase` orders names by culture-aware collation. The model orders folded names by code point. The two can order names with punctuation or non-ASCII letters differently. Apart from the example lemmas (ExampleFolds, ExampleFirstTwo, ExampleRepresentatives, ExampleSort and GetFormFieldsExample), which compute with the concrete ASCII fold and code-point order, everything proved here uses only that `Less` is a strict total order on case-insensitive classes.
- The caller's `IDictionary` is modelled as a sequence of pairs in its enumeration order. A null dictionary, null keys and null values are not modelled.
- The form's enumerated names are given in the engine's enumeration order. `GetField` returning null is not modelled: the value lookup returns a string.
- PdfService.Apply: the caller's keys are written in the order `Dictionary<,>.Keys` enumerates them at line 33. The model takes that to be insertion order. .NET gives insertion order for a dictionary nothing was removed from, but does not document it. The filled form does not depend on the order, because the keys are distinct.
- The `PdfField` class's source file is not part of this model. Its three properties are taken from lines 77-82.

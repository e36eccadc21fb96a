# Business hours calculator resource — a verified model

This project models the REST controller for "business hours calculator" records. The controller is `BusinessHoursCalculatorResource`. The model covers two parts:

- **The display formatter** (`formatActualBusinessHours`). A stored business-hours string uses `_` between segments. The formatter cuts it with Java's `String.split("_")` and emits every piece followed by a blank-line spacer `"\n\n"`. The split uses the default limit 0, and the model states those semantics exactly:
  - with no `_` at all, the result is the whole string, so `""` gives `[""]`;
  - otherwise every piece is kept, leading and inner empty ones included, and the empty pieces at the end are removed.
- **The create / update / list / read / delete rules**, over an abstract record store:
  - create rejects a record that carries an id;
  - create then rejects a starting date-time that does not parse;
  - a successful create fills the two computed fields and saves the record;
  - update without an id is a create, and update with an id saves the record as given;
  - list returns every stored record with its business hours formatted.

Files:

- `java_split.dfy` — module `JavaSplit`. It defines `JavaSplitUnderscore` and an independent characterisation `IsJavaSplit`. Lemmas prove that the split meets the characterisation and that nothing else does. The cutting step `Pieces` is proved inverse to `Join`.
- `formatter.dfy` — module `Formatter`. The method `FormatActualBusinessHours` appends each piece and the spacer to a buffer in a loop. It is proved equal to `Render` of the split, together with the length and the "no `_`" properties. Lemmas cover the edge cases: no separator, leading, trailing and only separators, and concrete strings.
- `calculators.dfy` — module `Calculators`. It holds the record, the response, the collaborators (`Engine`) and the store operations (`Lookup`, `FreshId`, `Upsert`, `Without`, `Save`). It also holds the decision rules as functions (`CreateOutcome`, `UpdateOutcome`) with lemmas on check order, what is saved and the store invariant.
- `resource.dfy` — module `CalculatorResource`. Class `BusinessHoursCalculatorResource` holds the store as a field. Its methods `Create`, `Update`, `GetAll`, `Get` and `Delete` are proved against the functions above.

Modelling choices:

- The store is the sequence of saved records, in the order the store's `findAll` lists them. A record without id gets an id larger than every stored id and is added at the end. A record with an id replaces the stored record with that id, or is added at the end when there is none. `WellFormed` says that every stored record has an id and that ids are distinct. Every operation preserves it.
- The collaborators are parameters of the resource: `Engine` is passed to the constructor. The parameters are `calculateDeadline`, the business-hours encoding that `prepareBusinessHoursData` returns, and the check that `LocalDateTime.parse` accepts the starting date-time under `yyyy-MM-dd H:mm`. Their code is not part of this model.
- "Before any check" is stated as independence: two different engines give the same answer. For example, a create with an id gets the same answer under any engine, and so does an update with an id.
- The empty stored string formats to `"\n\n"`, not to `""`: Java's `"".split("_")` returns `[""]`, and that one empty piece is emitted with its spacer (`Formatter.ExampleWithoutSeparator`).

## Model

| member | source | states |
|---|---|---|
| JavaSplit.PiecesNoSep | src/main/java/com/example/calculator/web/rest/BusinessHoursCalculatorResource.java:127 | no piece cut out at the `_`s contains `_` |
| JavaSplit.DropTrailingEmptySpec | src/main/java/com/example/calculator/web/rest/BusinessHoursCalculatorResource.java:127 | the limit-0 trimming keeps a prefix that does not end in an empty piece, and every piece it removes is empty |
| JavaSplit.JoinPieces | src/main/java/com/example/calculator/web/rest/BusinessHoursCalculatorResource.java:127 | gluing the pieces back with `_` gives the original string |
| JavaSplit.PiecesJoin | src/main/java/com/example/calculator/web/rest/BusinessHoursCalculatorResource.java:127 | cutting a glued list of `_`-free pieces gives that list back |
| JavaSplit.JoinInjective | src/main/java/com/example/calculator/web/rest/BusinessHoursCalculatorResource.java:127 | two non-empty lists of `_`-free pieces that glue to the same string are equal |
| JavaSplit.JavaSplitSound | src/main/java/com/example/calculator/web/rest/BusinessHoursCalculatorResource.java:127 | `split("_")` gives the whole string when there is no `_`; otherwise `_`-free pieces not ending in an empty one, which glue back to the string minus its trailing `_`s |
| JavaSplit.JavaSplitUnique | src/main/java/com/example/calculator/web/rest/BusinessHoursCalculatorResource.java:127 | any list meeting that description is the split result |
| JavaSplit.JavaSplitCharacterised | src/main/java/com/example/calculator/web/rest/BusinessHoursCalculatorResource.java:127 | a list meets the description if and only if it is the split result |
| JavaSplit.JavaSplitNoSep | src/main/java/com/example/calculator/web/rest/BusinessHoursCalculatorResource.java:127 | no piece of the split contains `_` |
| JavaSplit.TrailingSeparatorDropped | src/main/java/com/example/calculator/web/rest/BusinessHoursCalculatorResource.java:127 | for a non-empty string, appending `_` does not change the split |
| JavaSplit.LeadingSeparatorKept | src/main/java/com/example/calculator/web/rest/BusinessHoursCalculatorResource.java:127 | prefixing `_` adds one leading empty piece, when the rest is not only `_` |
| JavaSplit.OnlySeparators | src/main/java/com/example/calculator/web/rest/BusinessHoursCalculatorResource.java:127 | a non-empty string of only `_` splits into no pieces |
| JavaSplit.SplitOfJoin | src/main/java/com/example/calculator/web/rest/BusinessHoursCalculatorResource.java:127 | any non-empty list of `_`-free pieces whose last is non-empty splits back to itself, so leading and inner empty pieces are kept |
| Formatter.FormatActualBusinessHours | src/main/java/com/example/calculator/web/rest/BusinessHoursCalculatorResource.java:126-136 | the buffer loop yields, in order, each split piece followed by `"\n\n"`; the output has no `_`; its length is the pieces' total length plus 2 per piece |
| Formatter.RenderAppend | src/main/java/com/example/calculator/web/rest/BusinessHoursCalculatorResource.java:131-133 | rendering a concatenation of piece lists is the concatenation of their renderings |
| Formatter.RenderLength | src/main/java/com/example/calculator/web/rest/BusinessHoursCalculatorResource.java:131-133 | rendered length is the sum of the piece lengths plus 2 per piece |
| Formatter.RenderNoSeparator | src/main/java/com/example/calculator/web/rest/BusinessHoursCalculatorResource.java:131-133 | `_`-free pieces render to a `_`-free string |
| Formatter.FormatWithoutSeparator | src/main/java/com/example/calculator/web/rest/BusinessHoursCalculatorResource.java:127-133 | a string without `_` formats to itself followed by `"\n\n"` |
| Formatter.FormatTrailingSeparator | src/main/java/com/example/calculator/web/rest/BusinessHoursCalculatorResource.java:127-133 | for a non-empty string, a trailing `_` does not change the display |
| Formatter.FormatLeadingSeparator | src/main/java/com/example/calculator/web/rest/BusinessHoursCalculatorResource.java:127-133 | a leading `_` adds one `"\n\n"` in front, when the rest is not only `_` |
| Formatter.FormatOnlySeparators | src/main/java/com/example/calculator/web/rest/BusinessHoursCalculatorResource.java:127-133 | a non-empty string of only `_` formats to `""` |
| Formatter.FormatTwoSegments | src/main/java/com/example/calculator/web/rest/BusinessHoursCalculatorResource.java:127-133 | `a_b` with `_`-free `a` and non-empty `_`-free `b` formats to `a\n\nb\n\n` |
| Formatter.FormatThreeSegments | src/main/java/com/example/calculator/web/rest/BusinessHoursCalculatorResource.java:127-133 | `a_b_c` with `_`-free pieces and non-empty `c` formats to `a\n\nb\n\nc\n\n`, even when `b` is empty |
| Formatter.ExampleWithoutSeparator | src/main/java/com/example/calculator/web/rest/BusinessHoursCalculatorResource.java:127-133 | `""` formats to `"\n\n"`, and `"Mon-Fri 9-17"` to `"Mon-Fri 9-17\n\n"` |
| Formatter.ExampleTrailingSeparator | src/main/java/com/example/calculator/web/rest/BusinessHoursCalculatorResource.java:127-133 | `"a_"` formats to `"a\n\n"` |
| Formatter.ExampleLeadingSeparator | src/main/java/com/example/calculator/web/rest/BusinessHoursCalculatorResource.java:127-133 | `"_a"` formats to `"\n\na\n\n"` |
| Formatter.ExampleOnlySeparators | src/main/java/com/example/calculator/web/rest/BusinessHoursCalculatorResource.java:127-133 | `"___"` formats to `""` |
| Formatter.ExampleTwoSegments | src/main/java/com/example/calculator/web/rest/BusinessHoursCalculatorResource.java:127-133 | `"Mon-Fri 9-17_Sat 9-12"` formats to `"Mon-Fri 9-17\n\nSat 9-12\n\n"` |
| Formatter.ExampleInnerEmptyPiece | src/main/java/com/example/calculator/web/rest/BusinessHoursCalculatorResource.java:127-133 | `"a__b"` formats to `"a\n\n\n\nb\n\n"`, keeping the inner empty piece |
| Calculators.Lookup | src/main/java/com/example/calculator/web/rest/BusinessHoursCalculatorResource.java:150-155 | finds a record exactly when some stored record has that id; the one found is stored and has that id |
| Calculators.LookupFindsStored | src/main/java/com/example/calculator/web/rest/BusinessHoursCalculatorResource.java:150-155 | in a well-formed store, the record found under an id is the record stored under it |
| Calculators.FreshId | src/main/java/com/example/calculator/web/rest/BusinessHoursCalculatorResource.java:73 | the id given to a new record is larger than every stored id |
| Calculators.Upsert | src/main/java/com/example/calculator/web/rest/BusinessHoursCalculatorResource.java:97 | after saving a record with an id, that id finds exactly that record, every other id finds what it found before, and nothing else is added |
| Calculators.Without | src/main/java/com/example/calculator/web/rest/BusinessHoursCalculatorResource.java:170 | after deleting an id, it finds nothing, every other id finds what it found before, and only stored records remain |
| Calculators.CreateRejectsId | src/main/java/com/example/calculator/web/rest/BusinessHoursCalculatorResource.java:60-62 | a create with an id gets the `idexists` bad request under any collaborators, and the store is unchanged |
| Calculators.CreateRejectsBadStart | src/main/java/com/example/calculator/web/rest/BusinessHoursCalculatorResource.java:64-68 | a create without id whose start does not parse fails with "Wrong format of the starting datetime: " followed by the value, under any deadline engine, and nothing is saved |
| Calculators.CreateSaves | src/main/java/com/example/calculator/web/rest/BusinessHoursCalculatorResource.java:70-76 | a valid create answers Created with a record holding a fresh id, the engine's deadline and business hours and the client's start and interval; the store gains exactly that record at the end and stays well formed |
| Calculators.CreateKeepsWellFormed | src/main/java/com/example/calculator/web/rest/BusinessHoursCalculatorResource.java:58-77 | every create leaves the store well formed (ids present and distinct) |
| Calculators.UpdateWithoutIdIsCreate | src/main/java/com/example/calculator/web/rest/BusinessHoursCalculatorResource.java:94-96 | an update without an id answers and stores exactly as a create |
| Calculators.UpdateWithIdStoresAsGiven | src/main/java/com/example/calculator/web/rest/BusinessHoursCalculatorResource.java:97-100 | an update with an id answers Ok with the record as given under any collaborators; that id now finds it, and other ids are unaffected |
| Calculators.UpsertKeepsWellFormed | src/main/java/com/example/calculator/web/rest/BusinessHoursCalculatorResource.java:97 | saving a record with an id keeps ids distinct |
| Calculators.SaveKeepsWellFormed | src/main/java/com/example/calculator/web/rest/BusinessHoursCalculatorResource.java:73 | saving any record, with or without id, keeps the stored ids present and distinct |
| Calculators.UpdateKeepsWellFormed | src/main/java/com/example/calculator/web/rest/BusinessHoursCalculatorResource.java:92-101 | every update leaves the store well formed |
| Calculators.WithoutKeepsWellFormed | src/main/java/com/example/calculator/web/rest/BusinessHoursCalculatorResource.java:170 | deleting keeps the store well formed |
| CalculatorResource.BusinessHoursCalculatorResource.constructor | src/main/java/com/example/calculator/web/rest/BusinessHoursCalculatorResource.java:44-45 | the resource starts with the injected collaborators and an empty, well-formed store |
| CalculatorResource.BusinessHoursCalculatorResource.Save | src/main/java/com/example/calculator/web/rest/BusinessHoursCalculatorResource.java:73 | the store field becomes the store after `Save`, the saved record is returned, and the store stays well formed |
| CalculatorResource.BusinessHoursCalculatorResource.Create | src/main/java/com/example/calculator/web/rest/BusinessHoursCalculatorResource.java:58-77 | the answer and the new store are those of `CreateOutcome`: id check, then format check, then computed fields and save; the store stays well formed |
| CalculatorResource.BusinessHoursCalculatorResource.Update | src/main/java/com/example/calculator/web/rest/BusinessHoursCalculatorResource.java:92-101 | the answer and the new store are those of `UpdateOutcome`; the store stays well formed |
| CalculatorResource.BusinessHoursCalculatorResource.GetAll | src/main/java/com/example/calculator/web/rest/BusinessHoursCalculatorResource.java:112-124 | returns one entry per stored record, in store order, each with its business hours replaced by the formatted form and every other field kept |
| CalculatorResource.BusinessHoursCalculatorResource.Get | src/main/java/com/example/calculator/web/rest/BusinessHoursCalculatorResource.java:148-156 | in a well-formed store, returns a record exactly when one with that id is stored, and then it is that stored record (otherwise not found) |
| CalculatorResource.BusinessHoursCalculatorResource.Delete | src/main/java/com/example/calculator/web/rest/BusinessHoursCalculatorResource.java:168-172 | the store becomes the store without that id, and stays well formed |

## Left out

- HTTP transport is not modelled: status codes beyond the four `Response` kinds, `HeaderUtil` alerts, the `Location` URI, metrics, logging and the validation annotations. Delete always succeeds and returns nothing.
- The code of `calculateDeadline` and `prepareBusinessHoursData` is not part of this model. `BusinessHoursCalculatorService` is not available, so the two are uninterpreted fields of `Engine`. The same holds for the domain class `BusinessHoursCalculator`, so the field types are chosen here (interval `int`, pickup time `string`). So "the deadline lies at or after the start" is not stated.
- The exact `LocalDateTime.parse` rules for `yyyy-MM-dd H:mm` (resolver behaviour, digit widths) are left out. They are library behaviour, modelled as the predicate `Engine.startParses`.
- The store's id policy, durability and not-found handling on delete are left out. The fresh id is the larger of 1 and one more than the largest stored id, and ids may be reused after a delete.
- Null handling is left out: every string is non-null. A null starting date-time or a null stored business-hours string would raise a `NullPointerException` in the source.
- Aliasing is left out. In the source, create writes the computed fields into the request object, and the list writes the formatted string into the entities `findAll` returned. The model works on values, so the stored records keep the unformatted string.

# Column utilities of a tabular UI component, modelled in Dafny

The modelled code is a small helper library for a table or grid component, in
the single file `atanas_group_a.js`. It holds:

- `COLUMN_TYPE`, the closed set of ten column type tags
  (`text`, `number`, `boolean`, `date`, `time`, `timespan`, `checkbox`,
  `status`, `enum`, `currency`);
- `cellTypeIsTextOrEnum(cell)`, which reads a cell's `cell-type` attribute and
  tells whether it is `text` or `enum`;
- `getDefaultTypeWidth(type)`, the default pixel width of a column type
  (80, 90, 130, 20, with 44 for every other value);
- `inlineStyle(el)`, called with a column configuration as `this`. It replaces
  a falsy or `"auto"` width with the type's default width, in place. It then
  derives a `minWidth`/`maxWidth` style from the width and the `scaled` flag
  and writes both properties onto `el.style` when an element is passed;
- `distinct(array, selector)`, which removes duplicates. It keeps the first
  occurrence of each value, or of each selector key, in input order. A
  selector that throws aborts the call.

Files and modules:

- `wrappers.dfy` (`Wrappers`): `Option` for `null`/`undefined`, and `Result`
  for a call that either returns a value or throws an error with a message.
- `column_types.dfy` (`ColumnTypes`): the `ColumnType` datatype, its tags,
  the classifier and the width table, as functions with lemmas.
- `inline_style.dfy` (`InlineStyle`): the `Width` datatype covering
  `undefined`, `null`, numbers and strings. It holds the decimal rendering
  used by the template literal `${width}px` and the `ColumnConfig` class,
  whose `InlineStyle` method overwrites `width` and writes a `StyleSurface`
  object in place.
- `distinct.dfy` (`Distinct`): the two branches of `distinct` as the methods
  `Distinct` (no selector) and `DistinctBy` (selector), each a loop proved
  against a specification function (`Dedup`, `DedupBy`). `DedupBy` is
  further related to `FirstIndices`, a reference definition over input
  positions.

What the proofs show:

- `getDefaultTypeWidth` never returns a width that is not positive.
- As a result, after lines 80-81 of `inlineStyle` the width is never loosely
  equal to `null`. Lines 84-85 hold a branch that returns `{}` for a width
  loosely equal to `null`; that branch is never taken, so a configuration
  with `width: null` gets the type's default width and a non-empty style.
  The model keeps the branch in `StyleFor` and in `ColumnConfig.InlineStyle`,
  and the lemmas `NullWidthGetsDefault` and `ResolvedStyleNeverEmpty` prove
  it dead.

## Model

| member | source | states |
|---|---|---|
| `ColumnTypes.Tag` | atanas_group_a.js:13-24 | the ten tag strings of `COLUMN_TYPE`; each names exactly its own member, so the tags are pairwise distinct |
| `ColumnTypes.ParseInvertsTag` | atanas_group_a.js:13-24 | a string names a `COLUMN_TYPE` member exactly when it is that member's tag; unknown strings name none |
| `ColumnTypes.CellTypeIsTextOrEnum` | atanas_group_a.js:31-34 | true exactly when the attribute is present and names the `text` or the `enum` member |
| `ColumnTypes.CellTypeIsTextOrEnumOnTags` | atanas_group_a.js:31-34 | over all ten tags, true only for `text` and `enum`; false for a missing attribute and for every unknown string |
| `ColumnTypes.DefaultTypeWidth` | atanas_group_a.js:41-58 | every column type, known, unknown or missing, gets a positive width, one of 20, 44, 80, 90, 130 |
| `ColumnTypes.DefaultTypeWidthTable` | atanas_group_a.js:41-58 | both directions of the table: 80 exactly for time, timespan and checkbox; 90 for number and currency; 130 for date; 20 for status; 44 for everything else, missing types included |
| `InlineStyle.NatText` | atanas_group_a.js:87-91 | a non-negative number's decimal text has at least one digit, only digits, and a leading zero only for 0 |
| `InlineStyle.NatTextRoundTrip` | atanas_group_a.js:87-91 | reading back the decimal text of a number gives the number |
| `InlineStyle.CanonicalDigitsRoundTrip` | atanas_group_a.js:87-91 | every digit string without a leading zero is the decimal text of its own value |
| `InlineStyle.IntText` | atanas_group_a.js:87-91 | an integer's text reads back as the integer: a minus sign exactly when negative, then digits whose value is the magnitude |
| `InlineStyle.WidthText` | atanas_group_a.js:87-91 | the function defines the text `${width}` of `undefined`, `null` and a string; its contract covers numbers, whose text reads back as the number |
| `InlineStyle.PxReadsBack` | atanas_group_a.js:87-91 | the CSS length `${width}px` of a numeric width is a text that reads back as the number, sign included, followed by the unit |
| `InlineStyle.ResolvedWidth` | atanas_group_a.js:80-81 | the width is replaced exactly when it is falsy (undefined, null, 0, empty string) or `"auto"`, and then by a positive number; the result is never falsy, `"auto"` or loosely null |
| `InlineStyle.ResolvedWidthIdempotent` | atanas_group_a.js:80-81 | resolving an already resolved width leaves it unchanged |
| `InlineStyle.StyleFor` | atanas_group_a.js:83-93 | no minimum exactly for a width loosely equal to null; a maximum exactly for a non-null unscaled width, and then equal to the minimum |
| `InlineStyle.ResolvedStyleNeverEmpty` | atanas_group_a.js:80-93 | after resolution the style always has `minWidth` = width + `px`, and `maxWidth` equal to it exactly when not scaled |
| `InlineStyle.NullWidthGetsDefault` | atanas_group_a.js:80-85 | a `null` width becomes the type's default width, and the style is not empty |
| `InlineStyle.ColumnConfig.InlineStyle` | atanas_group_a.js:79-101 | the new width is the resolved old width; the returned style has `minWidth` and, unless scaled, an equal `maxWidth`; a given element's two style properties become the returned ones, `maxWidth` cleared when scaled; nothing else changes |
| `InlineStyle.StatusColumnExample` | atanas_group_a.js:79-101 | a status column without width gets width 20 and style `20px`/`20px` |
| `InlineStyle.ScaledColumnExample` | atanas_group_a.js:79-101 | a scaled column of width 100 keeps its width and gets only `minWidth` `100px` |
| `Distinct.Dedup` | atanas_group_a.js:124-126 | the branch without a selector (append when `indexOf` finds nothing): the result holds exactly the input's items and is no longer than the input |
| `Distinct.DedupBy` | atanas_group_a.js:115-123 | the kept items are input items, never more than the input |
| `Distinct.FirstIndices` | atanas_group_a.js:103-107 | the reference selection: strictly increasing positions, exactly those whose key no earlier item has |
| `Distinct.DedupByKeys` | atanas_group_a.js:115-123 | a key is among the kept items' keys exactly when it is among the input's keys: every input key is represented |
| `Distinct.DedupByKeysDistinct` | atanas_group_a.js:115-123 | no two kept items share a key |
| `Distinct.DedupByFirstOccurrences` | atanas_group_a.js:115-123 | the kept items are the input items at `FirstIndices`, in that order: a subsequence of first occurrences |
| `Distinct.DedupByOfDistinctKeys` | atanas_group_a.js:115-123 | an input whose keys are already distinct is returned unchanged |
| `Distinct.DedupByIdempotent` | atanas_group_a.js:103-107 | deduplicating twice by the same selector equals deduplicating once |
| `Distinct.DedupByProperties` | atanas_group_a.js:103-123 | the selector branch's promises together: distinct keys, all keys represented, first occurrences in order, idempotence |
| `Distinct.DedupIsDedupByIdentity` | atanas_group_a.js:115-126 | membership in the result (the `indexOf` test) and keys under the identity selector decide alike |
| `Distinct.DedupProperties` | atanas_group_a.js:110-127 | without a selector: no duplicates, same members as the input, first occurrences in input order, no longer than the input, idempotent |
| `Distinct.Distinct` | atanas_group_a.js:110-129 | the loop without a selector returns `Dedup` of the input: no duplicates, every input item, first occurrences in order, empty for empty input |
| `Distinct.DedupExample` | atanas_group_a.js:110-127 | `[1, 2, 2, 3, 1]` becomes `[1, 2, 3]` |
| `Distinct.DedupByExample` | atanas_group_a.js:115-123 | with the selector "first component", `[(1,a), (2,b), (1,c)]` becomes `[(1,a), (2,b)]` |
| `Distinct.FirstFailure` | atanas_group_a.js:114-132 | the message with which the loop stops: when present, it is the error of some input item's selector call |
| `Distinct.DistinctByIdempotent` | atanas_group_a.js:103-123 | a second call with the same selector on a successful result cannot throw and returns that result unchanged |
| `Distinct.FirstFailureMeaning` | atanas_group_a.js:114-132 | no failure exactly when the selector succeeds on every item; otherwise the message is that of the earliest failing item |
| `Distinct.FirstFailureOfPrefix` | atanas_group_a.js:115-132 | a failure in a prefix is the failure of the whole input: the loop stops there |
| `Distinct.DistinctBy` | atanas_group_a.js:110-133 | fails, with the message of the first failing selector call and no partial result, exactly when some call fails; otherwise returns `DedupBy` of the input, with distinct keys and first occurrences in order |

## Left out

- `round` (atanas_group_a.js:66-71) is not modelled: it depends on floating-point numbers, on building a string with an exponent and on `Math.round`.
- `cell.getAttribute('cell-type')` is abstracted to an optional string: `None` stands for a missing attribute.
- `el.style` is abstracted to an object with two optional string properties. Assigning `undefined` clears a property there. The conversions a browser's style declaration applies to assigned values are not modelled.
- `InlineStyle.ColumnConfig.InlineStyle`: "`maxWidth` cleared when scaled" holds for that plain object only. In a browser, assigning `undefined` to `el.style.maxWidth` yields the string `"undefined"`, which is not a valid CSS value and is ignored, so an earlier `maxWidth` would stay.
- Inputs outside the typed signatures are not modelled. `distinct` only reads `array.length` and `array[i]` (line 115). A `null` or `undefined` `array` throws there, and line 131 rethrows that as a plain `Error` with the same message. A string is deduplicated character by character. A number or a plain object has no `length`, so the loop never runs and the result is empty. A truthy `selector` that is not a function throws only when the array is non-empty. A `type` that is not a string falls through to the 44 default.
- `Width` covers `undefined`, `null`, integers and strings. Fractional numbers, `NaN`, booleans and objects as widths are not modelled.
- The decimal text of a number does not model the exponent notation JavaScript uses for magnitudes of 10^21 and above.
- `scaled` is a boolean; the truthiness of other values in that field is not modelled.
- The optional `selector` becomes two methods: `Distinct` when no selector is passed and `DistinctBy` when one is.
- Equality is Dafny value equality. JavaScript's strict equality in `indexOf`, the `Map`'s SameValueZero, `NaN`, `-0` and reference identity of objects are not modelled.
- The `Map` of seen keys is a set of keys: the values it stores are always `undefined` and never read.
- A throwing selector is a selector that returns `Failure` with the error's message. Only the message of the rethrown `Error` is kept. A thrown value without a `message` is not modelled.
- The implicit `this` of `inlineStyle` is an explicit `ColumnConfig` object, the receiver of the method.

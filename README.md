# Paint equivalence grouping, modelled in Dafny

The paints endpoint of paintmatcher reads the rows of a spreadsheet (one
paint per row: a colour code `hex`, a paint `name` and the paint `range`)
and republishes them grouped by colour: a list of
`{hex, equivalents: [{name, range}, ...]}`. The logic lives in the
`transform(rows)` function of `src/routes/api/paints/+server.js`. This
project models that function and proves what it promises.

- `JsStrings.dfy`: the three JavaScript string operations it uses.
  `Trim` strips the ECMAScript WhiteSpace and LineTerminator code points
  from both ends. `ToLower` lower-cases the ASCII letters. `RemoveFirst`
  is `replace` with a one-character string pattern, which removes the
  first occurrence only.
- `RowNormalization.dfy`: a row with possibly absent cells (`Row`); the
  colour key `NormHex` (first `#` removed, then lower-cased, no trimming);
  and `Normalize`, which skips a row when any of the three normalised
  values is absent or empty (JavaScript falsiness of `string | undefined`).
- `Grouping.dfy`: the result stated without the loop. `Keys` lists the
  distinct keys of the surviving rows in first-seen order. `EntriesOf`
  lists the entries of one key in row order. `Keys` and `EntriesOf` are
  left folds over the normalised rows; `Grouped` pairs each key with its
  entries. Each row's effect can be read off directly (`DroppedRowChangesNothing`,
  `NewKeyAddsGroup`, `KnownKeyAppendsEntry`). The lemmas prove the
  promised properties of the result.
- `PaintsServer.dfy`: the loop itself. `BuildMap` fills an
  insertion-ordered map from key to group, as the JavaScript `Map` is
  filled. `Transform` lists the map's values in insertion order. Both are
  proved against `Grouped`.

`replace('#', '')` removes the first `#` wherever it stands, not only a
leading one, so `a#b` becomes `ab` (`RemoveFirstSplices`).

## Model

| member | source | states |
|---|---|---|
| `JsStrings.IsWhitespace` | src/routes/api/paints/+server.js:6-7 | the ECMAScript WhiteSpace and LineTerminator code points that `trim()` strips; `TrimStart`, `TrimEnd`, `Trim` and `TrimIsSlice` state what is stripped in its terms |
| `JsStrings.TrimStart` | src/routes/api/paints/+server.js:6-7 | the result is the suffix of the input left after its leading whitespace, and it does not start with whitespace |
| `JsStrings.TrimEnd` | src/routes/api/paints/+server.js:6-7 | the result is the prefix of the input left before its trailing whitespace, and it does not end with whitespace |
| `JsStrings.Trim` | src/routes/api/paints/+server.js:6-7 | `trim()` yields a string with no whitespace at either end, and it is empty exactly when the input is all whitespace |
| `JsStrings.TrimIsSlice` | src/routes/api/paints/+server.js:6-7 | the trimmed string is a slice of the input with only whitespace before and after it |
| `JsStrings.TrimKeepsTrimmed` | src/routes/api/paints/+server.js:6-7 | a non-empty string without surrounding whitespace is unchanged by `trim()` |
| `JsStrings.TrimIdempotent` | src/routes/api/paints/+server.js:6-7 | trimming twice is trimming once |
| `JsStrings.ToLower` | src/routes/api/paints/+server.js:5 | `toLowerCase()` keeps the length, leaves no upper-case letter, keeps every other character and moves `A`-`Z` to `a`-`z` |
| `JsStrings.FirstIndexOf` | src/routes/api/paints/+server.js:5 | the index `replace` looks for: an occurrence of the character with none before it |
| `JsStrings.RemoveFirst` | src/routes/api/paints/+server.js:5 | `replace('#', '')` with a one-character string pattern; never lengthens the string; what it removes is stated by `RemoveFirstSplices` and `RemoveFirstCount` |
| `JsStrings.RemoveFirstSplices` | src/routes/api/paints/+server.js:5 | `replace('#', '')` leaves a string without `#` unchanged and otherwise splices out exactly the first `#`, wherever it stands |
| `JsStrings.RemoveFirstCount` | src/routes/api/paints/+server.js:5 | `replace('#', '')` removes one `#` when there is one and nothing else (as a multiset) |
| `JsStrings.ToLowerKeepsFirstHash` | src/routes/api/paints/+server.js:5 | lower-casing neither adds nor removes a `#` and keeps the first one where it stands |
| `JsStrings.RemoveFirstHashCommutesWithLower` | src/routes/api/paints/+server.js:5 | removing the first `#` and lower-casing commute |
| `RowNormalization.NormHex` | src/routes/api/paints/+server.js:5 | the key has no upper-case letter, is one shorter than the cell exactly when the cell holds a `#`, and is empty exactly when the cell is `""` or `"#"` |
| `RowNormalization.NormHexLowersFirst` | src/routes/api/paints/+server.js:5 | the key is the lower-cased cell with its first `#` removed |
| `RowNormalization.NormHexIgnoresCase` | src/routes/api/paints/+server.js:5 | cells equal up to letter case get the same key |
| `RowNormalization.NormHexIgnoresLeadingHash` | src/routes/api/paints/+server.js:5 | a `#` put in front of a cell without `#` does not change its key |
| `RowNormalization.NormHexWithoutHash` | src/routes/api/paints/+server.js:5 | a cell without `#` is only lower-cased |
| `RowNormalization.NormHexOfHashed` | src/routes/api/paints/+server.js:5 | a `#` followed by a `#`-free rest gives the lower-cased rest |
| `RowNormalization.NormHexKeepsNormal` | src/routes/api/paints/+server.js:5 | a key that is already lower-case and free of `#` is its own key |
| `RowNormalization.Normalize` | src/routes/api/paints/+server.js:5-9 | normalises the three cells and skips a row with a falsy value; its contract is stated by `NormalizeSurvives` and `NormalizeClean` |
| `RowNormalization.NormalizeSurvives` | src/routes/api/paints/+server.js:5-9 | a row survives exactly when all three cells are present, the colour cell is neither `""` nor `"#"`, and name and range each hold a non-whitespace character; a survivor carries the normalised colour and the trimmed name and range of its own cells |
| `RowNormalization.NormalizeClean` | src/routes/api/paints/+server.js:5-9 | a survivor has a non-empty lower-case key and a trimmed, non-empty name and range |
| `RowNormalization.NormHexHashedExample` | src/routes/api/paints/+server.js:5 | the colour cell `#ABC123` gives the key `abc123` |
| `RowNormalization.NormHexPlainExample` | src/routes/api/paints/+server.js:5 | the colour cell `abc123` gives the key `abc123` |
| `RowNormalization.NormHexSpacedExample` | src/routes/api/paints/+server.js:5 | the colour cell `" #FF"` gives `" ff"`: the colour is not trimmed |
| `RowNormalization.SkippedExamples` | src/routes/api/paints/+server.js:5-9 | rows with an empty, `#`-only or absent colour, or with an all-whitespace name, are skipped |
| `RowNormalization.NormalizeCleanRow` | src/routes/api/paints/+server.js:5-9 | a row whose name and range are already trimmed and whose colour gives a non-empty key survives with exactly those values |
| `RowNormalization.WorkedExampleFirstRow` | src/routes/api/paints/+server.js:5-9 | the row `#ABC123`/`Red X`/`Set A` normalises to the item `abc123` with entry `Red X`/`Set A` |
| `RowNormalization.WorkedExampleSecondRow` | src/routes/api/paints/+server.js:5-9 | the row `abc123`/`Red Y`/`Set B` normalises to the item `abc123` with entry `Red Y`/`Set B` |
| `Grouping.NormalizedExtends` | src/routes/api/paints/+server.js:4-9 | normalising one more row appends that row's result after the results of the rows before it |
| `Grouping.NormalizedAllClean` | src/routes/api/paints/+server.js:4-9 | every row that survives normalisation is clean |
| `Grouping.FoldStep` | src/routes/api/paints/+server.js:11-21 | one more row adds its key at the end if it is new, and appends its entry to its own key only |
| `Grouping.KeysDistinct` | src/routes/api/paints/+server.js:11-16 | no key is listed twice |
| `Grouping.KeyOfSurvivingRow` | src/routes/api/paints/+server.js:9-16 | the key of every surviving row is listed |
| `Grouping.SurvivingRowOfKey` | src/routes/api/paints/+server.js:9-16 | every listed key is the key of some surviving row |
| `Grouping.KeysAreValidHexes` | src/routes/api/paints/+server.js:9-16 | the listed keys are exactly the keys of the surviving rows |
| `Grouping.EntriesOfEmpty` | src/routes/api/paints/+server.js:11-21 | a key has entries exactly when it is listed, so no group is empty |
| `Grouping.EntryOfSurvivingRow` | src/routes/api/paints/+server.js:18-21 | the entry of every surviving row is among the entries of its own key |
| `Grouping.SurvivingRowOfEntry` | src/routes/api/paints/+server.js:18-21 | every entry of a key comes from a surviving row with that key |
| `Grouping.EntriesOfMembers` | src/routes/api/paints/+server.js:18-21 | the entries of a key are exactly the entries of the surviving rows with that key |
| `Grouping.KeysInFirstSeenOrder` | src/routes/api/paints/+server.js:11-16 | when key `i` is listed before key `j`, every row with key `j` is preceded by a row with key `i` |
| `Grouping.GroupsInFirstSeenOrder` | src/routes/api/paints/+server.js:11-24 | the groups come out in the order their keys first occur among the surviving rows |
| `Grouping.GroupKeysDistinct` | src/routes/api/paints/+server.js:11-16 | the groups' `hex` values are pairwise distinct |
| `Grouping.GroupKeysAreValidHexes` | src/routes/api/paints/+server.js:9-16 | each group's `hex` is the key of some surviving row, and each surviving row's key has a group |
| `Grouping.GroupsWellFormed` | src/routes/api/paints/+server.js:5-21 | every group has a non-empty lower-case `hex` and at least one equivalent; every equivalent has trimmed, non-empty name and range and comes from a surviving row with that `hex` |
| `Grouping.DroppedRowChangesNothing` | src/routes/api/paints/+server.js:9 | a skipped row leaves the result unchanged and creates no group |
| `Grouping.NewKeyAddsGroup` | src/routes/api/paints/+server.js:11-21 | a surviving row with a new key adds one group at the end, holding just its entry |
| `Grouping.KnownKeyAppendsEntry` | src/routes/api/paints/+server.js:18-21 | a surviving row with a known key appends its entry to the end of that group and changes no other group |
| `Grouping.EntriesAccountedFor` | src/routes/api/paints/+server.js:18-21 | the equivalents of all groups together are, as a multiset, the entries of the surviving rows: none lost, none merged, as many as surviving rows |
| `PaintsServer.AddItem` | src/routes/api/paints/+server.js:11-21 | adding one surviving row to a map that matches the rows so far gives a map that matches the rows including it: a new key is set at the end with an empty group, then the entry is pushed onto its own key's group |
| `PaintsServer.BuildMap` | src/routes/api/paints/+server.js:2-22 | the map's insertion order is the first-seen key order, and under each key the map holds a non-empty group whose `hex` is that key and whose equivalents are that key's entries in row order |
| `PaintsServer.Transform` | src/routes/api/paints/+server.js:1-25 | `transform(rows)` returns exactly the grouping `Grouped` of the normalised rows |
| `PaintsServer.WorkedExampleGrouped` | src/routes/api/paints/+server.js:11-24 | two rows with one key followed by a skipped row give one group with both entries in row order |
| `PaintsServer.WorkedExample` | src/routes/api/paints/+server.js:1-25 | `#ABC123`/`Red X`/`Set A`, `abc123`/`Red Y`/`Set B` and an empty colour give one `abc123` group with `Red X` then `Red Y` |

## Left out

- `GET` (src/routes/api/paints/+server.js:27-42): the fetch of the sheet, JSON decoding, `setHeaders` and the `Response` are I/O. The rows it decodes are the input of `Transform`.
- The `cache-control` header value: it is a constant string with no logic.
- Non-string cells (numbers, objects): `replace` and `trim` would throw on them. A cell is a string or absent; `null` and `undefined` are both the absent case.
- A `null` or `undefined` row, or `rows` that is not iterable: the JavaScript throws. The model's input is a sequence of rows. A primitive row (number, string, boolean) has no `hex`, `name` or `range`, so it is `Row(None, None, None)` and is skipped.
- `JsStrings.ToLower`: only `A`-`Z` are lower-cased. The full Unicode case mapping of `toLowerCase` is not modelled. Characters are Unicode scalar values, not UTF-16 code units. `NormHexIgnoresCase`, `NormHexLowersFirst` and `RemoveFirstHashCommutesWithLower` hold for this per-character lower-casing only: the context-sensitive Final_Sigma rule of `toLowerCase` lower-cases `"ΑΣ#Β"` to `"ας#β"`, yet its key (`"ασβ"`, since the `#` is removed before lower-casing) differs from the key of `"ας#β"` (`"αςβ"`).
- `PaintsServer.BuildMap`: the group objects are values. In the source the same object sits in the map and in the returned array, and `push` mutates it in place. Only the resulting contents are modelled, not the object identity.

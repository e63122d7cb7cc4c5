# Infinite Fusion graphics: sprite identifiers, sheet positions, catalog and fusion counts

This project is a Dafny model of the logic at the centre of the `infinite-fusion-graphics`
scripts. The model covers four things:

- **Sprite identifiers.** A sprite id such as `25`, `25.6` or `25.6b` is read into a
  base id, a head id, a body id and alt letters. The alt letters, read in base 26,
  give a sheet cell (`database/database.js`, `scripts/main.js`, `scripts/custom.js`).
- **Sheet positions.** A cell number is turned into the pixel corner of a 288×288 tile
  on a base sheet (10 columns), a custom sheet (20 columns) or an autogen sheet (up to
  10 columns). The model also covers which autogen tiles are cut at all: a tile whose
  row starts below the sheet is skipped, and a tile reaching past the right or bottom
  edge makes the image library fail, which ends the sheet (`scripts/autogen.js`).
- **Catalog load.** The credits file becomes an insertion-ordered map. That map is
  completed with the sprite manifest. The result is written as `images` and
  `image_artists` rows, and the dex CSV records become `dex_entry` rows
  (`database/database.js`). Every SQL insert is modelled as a row appended to a
  returned table.
- **Fusion counts.** For each species id 1 to 501, the report counts the distinct base
  ids that have the species as head and as body (`database/totalFusions.js`).

JavaScript semantics are written out wherever they matter:

- `%` truncates toward zero (`Grid.JsRemainder`).
- `parseInt` reads leading white space, a sign and leading digits, and gives NaN when
  there are none (`Decimal.ParseInt`, `JsValues.Num`).
- `split`, `indexOf`, `trim` and the first-occurrence `replace` are modelled in `Text`.
- A `Map` keeps insertion order (`OrderedMaps`).

Modules, one per file:

| file | module | models |
|---|---|---|
| values.dfy | JsValues | `undefined`/absent values, numbers that may be NaN |
| text.dfy | Text | the string operations the scripts use |
| decimal.dfy | Decimal | `toString` and `parseInt` on integers |
| sprite_ids.dfy | SpriteIds | `getBaseId` and the alt/main type rule |
| letters.dfy | Letters | `lettersToIndex` and its inverse |
| grid.dfy | Grid | cell number ↔ tile corner |
| ordered_maps.dfy | OrderedMaps | `Map.get` / `Map.set` |
| catalog.dfy | Catalog | `txtToMap`, `allSprites`, `insertImages`, `insertDexEntries` |
| sprites.dfy | Sprites | `processSpriteId`, shared by `main.js` and `custom.js` |
| main_script.dfy | MainScript | `main.js`: paths, autogen tiles, `getPosition` |
| grouping.dfy | Grouping | the `reduce` that batches sprites by a key |
| custom_script.dfy | CustomScript | `custom.js`: filters, batches, `getPosition` |
| autogen_script.dfy | AutogenScript | `autogen.js`: columns, skipping, tiles |
| fusion_totals.dfy | FusionTotals | `totalFusions.js`: head/body filters and counts |

The fusion queries are looser than an all-numeric reading of "head.body":

- The head filter only requires a digit right after `<id>.`.
- The body filter only requires some digit before `.<id>`.

So `12x.34` is counted as a body of 34, and `1.2.3` as a head of 1 and a body of 3. The
system's documentation describes the counts as all-numeric "head.body" pairs. Where the
two disagree, the model follows the queries as written. `FusionTotals.StrictMatch` states
the all-numeric reading.
`FusionTotals.StrictImpliesMatch`, `FusionTotals.LooseBodyMatch` and
`FusionTotals.TwoDotsMatch` relate the two readings.

## Model

| member | source | states |
|---|---|---|
| Text.Trim | database/database.js:14 | trimming gives a slice of the line with only white space before and after it; the result is "" exactly when the line is all JavaScript white space, and otherwise neither starts nor ends with white space |
| Text.Split | database/database.js:12-15 | `split` gives at least one piece, no piece contains the separator, each cut is at the leftmost separator of what remains, and joining the pieces with the separator gives the input back |
| Text.SplitPieces | database/database.js:15 | piece `n` of a split exists exactly when the string has `n` separators, and is the text after the `n`-th separator up to the next one |
| Text.ReplaceFirst | database/database.js:136-137 | a string-pattern `replace` changes only the leftmost occurrence, keeping the text before and after it |
| Text.IndexOfChar | scripts/main.js:86-88 | a one-character `indexOf` finds the first position holding the character, and finds none exactly when it is absent |
| Decimal.NatToString | scripts/main.js:197 | `bodyId.toString()` is a non-empty digit string without a leading zero |
| Decimal.NatToStringValue | scripts/main.js:197 | reading the decimal text of a number back gives the number |
| Decimal.NatToStringInjective | scripts/autogen.js:49 | different body ids have different decimal texts |
| Decimal.ParseInt | scripts/main.js:48 | `parseInt` of an all-digit string is its value; an empty string gives NaN; without a '-' the value is never negative |
| Decimal.ParseIntOfNatToString | scripts/main.js:76 | `parseInt(bodyId.toString())` is the body id again |
| Decimal.NumberedNameInjective | scripts/autogen.js:49 | file names that differ only in the number between a fixed prefix and suffix are different exactly when the numbers are |
| SpriteIds.TrailingLetterCount | database/database.js:26 | the count is the maximal run of ASCII letters at the end of the id |
| SpriteIds.GetBaseId | database/database.js:26 | the base id plus the stripped letters is the sprite id; what is stripped is all letters; the base id does not end in a letter |
| SpriteIds.GetBaseIdUnique | database/database.js:26 | any prefix with those three properties is the base id |
| SpriteIds.GetBaseIdIdempotent | database/database.js:26 | stripping twice is stripping once |
| SpriteIds.HasLetter | database/database.js:18 | the test is true exactly when some character is an ASCII letter |
| SpriteIds.ImageTypeOf | database/database.js:18 | a sprite is "alt" exactly when its id contains a letter anywhere |
| SpriteIds.MainIdIsOwnBase | database/database.js:18-26 | a main sprite's base id is its own id |
| SpriteIds.ImageTypeExamples | database/database.js:18 | "25" and "25.6" are main; "25a" and "5a.3" are alt |
| Letters.LettersToIndex | scripts/main.js:12-20 | a letter string gives a non-negative number, and a non-empty one at least 1 |
| Letters.ComputeLettersToIndex | scripts/main.js:12-20 | the loop computes the base-26 value `lettersToIndex` defines |
| Letters.IndexToLetters | scripts/main.js:12-20 | the inverse gives lower-case letters, empty exactly for 0 |
| Letters.AppendLetter | scripts/main.js:16-18 | one more letter multiplies by 26 and adds the letter's value |
| Letters.IndexToLettersRoundTrip | scripts/main.js:12-20 | `lettersToIndex` of the inverse is the number again |
| Letters.LettersToIndexRoundTrip | scripts/main.js:12-20 | on lower-case letter strings, the inverse of `lettersToIndex` is the string again |
| Letters.LettersToIndexIgnoresCase | scripts/main.js:14 | lower-casing first does not change the value |
| Letters.LettersToIndexInjective | scripts/custom.js:23-31 | two letter strings have the same value exactly when they agree up to case |
| Letters.LettersToIndexExamples | scripts/custom.js:23-31 | "" is 0, "a" and "A" are 1, "j" is 10, "z" is 26, "aa" is 27 |
| Grid.JsRemainder | scripts/main.js:43 | the remainder truncates toward zero: the quotient times the divisor plus the remainder is the dividend |
| Grid.CellPosition | scripts/main.js:40-59 | corners are multiples of 288; for a cell ≥ 0, x lies inside the sheet's width and the corner maps back to the cell |
| Grid.CellPositionInjective | scripts/main.js:40-59 | different cells have different corners |
| Grid.RowMonotone | scripts/autogen.js:40-42 | the row never decreases as the cell number grows |
| OrderedMaps.FindKey | database/database.js:168 | the position found is the first entry with the key, and none is found exactly when the key is absent |
| OrderedMaps.Get | database/database.js:168 | `has`/`get` find a value exactly when the key is present |
| OrderedMaps.GetEntry | database/database.js:168 | with distinct keys, each entry is found by its own key |
| OrderedMaps.Put | database/database.js:19 | `set` maps the key to the value and leaves other keys alone; a present key keeps its place and a new key comes last; distinct keys stay distinct |
| Catalog.CreditRowOf | database/database.js:15-19 | the id is the text before the line's first ',' and holds no ','; a line without ',' is all id, with no artists and no comments; a line with one has an artists field; the artists are field 1 of the split, the text between the first and the second ','; the comments are field 3, the text after the third ',' up to any fourth; the stored type is computed from the id, whatever the third column says |
| Catalog.SplitField | database/database.js:15-17 | reading field `n` of `line.split(",")` gives the text after the `n`-th ',' up to the next one, and undefined when the line has fewer commas |
| Catalog.NonBlank | database/database.js:14 | the lines kept are exactly the ones that are not all white space |
| Catalog.NonBlankOne | database/database.js:14 | on one line the filter keeps the line exactly when it is not all white space |
| Catalog.NonBlankAppend | database/database.js:14 | the filter of a concatenation is the concatenation of the filters, so lines are kept in file order |
| Catalog.SetAllKeys | database/database.js:17-20 | setting rows one by one leaves one entry per distinct id, for exactly the ids of the rows |
| Catalog.SetAllKeyedById | database/database.js:19 | every entry is stored under its own sprite id |
| Catalog.SetAllLastWins | database/database.js:17-20 | the entry for an id holds the last row with that id |
| Catalog.TxtToMapLastLineWins | database/database.js:10-23 | `txtToMap` keeps one entry per distinct first field: the last line with it, typed from the id |
| Catalog.ManifestIds | database/database.js:162-164 | one id per line of the sprites file, blank lines included; each is its line with the first ".png" taken out, or the line itself when it has none |
| Catalog.Synthesized | database/database.js:167-169 | a synthesized row carries the manifest id, the type computed from it, and empty artists and comments |
| Catalog.SynthesizedCredit | database/database.js:110-116 | a synthesized sprite gets one artist row, the placeholder "Coming Soon (WIP)", and an empty comment in its image row |
| Catalog.AddMissingKeepsCredits | database/database.js:166-171 | merging the manifest never overwrites an entry from the credits |
| Catalog.AddMissingKeys | database/database.js:166-171 | after the merge the keys are exactly the credit ids and the manifest ids, with the credit ids kept in front in their order |
| Catalog.AddMissingWellFormed | database/database.js:166-171 | the merge keeps keys distinct, and each entry under its own id and typed from it |
| Catalog.AddMissingSynthesizes | database/database.js:168-169 | every manifest id the credits lack gets the synthesized row |
| Catalog.AllSpritesDistinct | database/database.js:150-179 | the rows `allSprites` returns have pairwise distinct ids, each typed from its id |
| Catalog.EmptyManifestLineKept | database/database.js:162-171 | an empty sprites file still contributes a sprite with the empty id |
| Catalog.ImageRowBase | database/database.js:107-110 | an image row's base id followed by the trailing letters of its sprite id is the sprite id; those letters are all letters, the base id ends in no letter, and a main sprite is its own base |
| Catalog.ArtistName | database/database.js:115 | an artist name is never empty: the trimmed piece, or "Coming Soon (WIP)" for a blank one |
| Catalog.ArtistRowsSpec | database/database.js:113-116 | no artist rows for an absent field; otherwise one per " & " piece, in order, no piece holding " & ", and the pieces join back to the field; an empty field gives one placeholder row |
| Catalog.InsertImages | database/database.js:104-121 | the loop with its processed-id set writes the same tables as the row-by-row definition |
| Catalog.ImageIdsAppend | database/database.js:110-111 | writing an image row adds exactly its id to the processed ids |
| Catalog.LoadImagesOnePerId | database/database.js:105-111 | the image rows have pairwise distinct ids, and they are exactly the ids of the input |
| Catalog.LoadImagesBaseIds | database/database.js:107 | every image row's base id is `getBaseId` of its sprite id |
| Catalog.NewIdIsFirst | database/database.js:109-111 | a row whose id was not seen is the first row with its id, and its image row is written from it |
| Catalog.LoadImagesFirstWins | database/database.js:109-111 | each image row comes from the first input row with its id |
| Catalog.LoadImagesWritesFirst | database/database.js:109-111 | the first input row with each id is written |
| Catalog.LoadImagesStep | database/database.js:109-119 | a repeated id adds neither an image nor an artist row; a new id adds exactly its image row and its artist rows |
| Catalog.LoadImagesDistinct | database/database.js:106-116 | on rows with distinct ids, every row is written, in order |
| Catalog.CatalogLoadWritesEverySprite | database/database.js:189-191 | `insertImages(db, allSprites())` writes one image row per row `allSprites` returns, in the same order |
| Catalog.SanitizeEntry | database/database.js:137 | only the first '#' becomes '_'; the length and every other character are kept |
| Catalog.DexSpriteIdStripsSuffix | database/database.js:136 | an id without ".png", plus ".png", gives back the id |
| Catalog.DexOnlyFirstHashReplaced | database/database.js:137 | a second '#' in an entry survives |
| Catalog.DexOnlyFirstSuffixRemoved | database/database.js:136 | a second ".png" in a sprite name survives |
| Catalog.InsertDexEntries | database/database.js:134-141 | one dex row per record, in order, numbered from 1, with the sprite and entry rewritten |
| Sprites.CellAt | scripts/main.js:48-52 | a NaN cell gives NaN coordinates; a cell ≥ 0 gives a corner that maps back to it |
| Sprites.HeadOf | scripts/main.js:86-87 | the head is the text before the first '.', or the whole base id when there is none |
| Sprites.BodyOf | scripts/main.js:88 | the body is the text between the first '.' and the next one, or "" when there is no '.' |
| Sprites.AltLetterOf | scripts/main.js:91-94 | the alt letters are the lower-cased trailing letter run of the sprite id |
| Sprites.Identify | scripts/main.js:80-146 | the category rule: an alt sprite is custom when its body is non-empty, a main sprite when its base id has a '.'; alt letters come only from alt rows; also the input and output paths for each category |
| Sprites.SingleDotParts | scripts/main.js:100 | a base id with exactly one '.' is head, '.', body |
| Sprites.OutputNameRoundTrip | scripts/main.js:113-122 | for a catalog row with lower-case letters and at most one '.', not in last position, the output file is the sprite id plus ".png" |
| Sprites.DotBeforeAltLetterLosesDot | scripts/main.js:84-117 | "5.a" has an empty body, so it is a base sprite named "5a.png" |
| Sprites.OneLetterIndex | scripts/main.js:12-20 | one lower-case letter has the value 1 for 'a' up to 26 for 'z' |
| Sprites.IndexIsOneLess | scripts/main.js:125-135 | the `index` field is `lettersToIndex(alt) - 1` for one alt letter, and `bodyId - 1` for a fusion without alt letters |
| MainScript.ProcessSpriteId | scripts/main.js:67-147 | an autogen input gives an autogen sprite with its paths and index `bodyId - 1`; a catalog row goes through the shared rule |
| MainScript.GetPosition | scripts/main.js:36-64 | a base sprite sits at cell `lettersToIndex(alt)` of a 10-wide sheet, a custom one at cell `bodyId` of a 20-wide sheet, an autogen one at cell `bodyId` of a 10-wide sheet; NaN exactly when the body does not parse |
| MainScript.AutogenJobs | scripts/main.js:193-198 | an autogen sheet gives 501 tiles of its head; the k-th (from 0) has a body id that `parseInt` reads as k + 1, and no two share a body id |
| MainScript.AutogenJobPlacement | scripts/main.js:69-78 | tile k (from 0) is body k + 1, has index k, and sits at cell k + 1 |
| MainScript.AutogenOutputsDistinct | scripts/main.js:74 | different tiles of one sheet go to different files |
| MainScript.BaseSheetLayout | scripts/main.js:40-45 | no alt letter is cell 0, "a" is (288, 0), "j" is (0, 288) |
| CustomScript.ProcessSpriteId | scripts/custom.js:58-114 | the script only yields base or custom sprites |
| CustomScript.GetPosition | scripts/custom.js:34-55 | it agrees with `main.js` on base and custom sprites and gives `null` for autogen |
| CustomScript.AgreesWithMainScript | scripts/custom.js:58-114 | same category, head, body, alt letters, input path, index, output file name and position as `main.js`; only the output root differs |
| CustomScript.Processed | scripts/custom.js:196 | one description per catalog row, in order; none is autogen; a row is described as custom exactly when the shared custom rule holds for it; its head is the head of its base id and its alt letters are lower-case letters |
| CustomScript.FiltersPartition | scripts/custom.js:198-203 | the base and custom filters together are a permutation of the described rows |
| CustomScript.ExtractsEverySpriteOnce | scripts/custom.js:196-209 | walking the base batches and then the custom batches extracts every described sprite exactly once |
| CustomScript.SheetKeyInjective | scripts/custom.js:160 | two sprites share a batch key exactly when they share head id and alt letters, for any head id |
| CustomScript.ProcessedShaped | scripts/custom.js:85-87 | every described row has lower-case alt letters and the input sheet of its category |
| CustomScript.CustomBatchReadsOneSheet | scripts/custom.js:157-172 | all sprites of a custom batch are custom and share head id, alt letters and input sheet |
| CustomScript.BaseBatchReadsOneSheet | scripts/custom.js:139-154 | all sprites of a base batch are base sprites of the batch's head id and share one input sheet |
| Grouping.Select | scripts/custom.js:198-203 | the filter keeps exactly the elements with the key, and no more than the input |
| Grouping.SelectOne | scripts/custom.js:198-203 | on one element the filter keeps it exactly when its key matches |
| Grouping.SelectAppend | scripts/custom.js:198-203 | the filter of a concatenation is the concatenation of the filters, so the kept elements stay in input order |
| Grouping.GroupOf | scripts/custom.js:142 | a missing key reads as an empty group |
| Grouping.GroupBy | scripts/custom.js:140-145 | the batch keys are distinct |
| Grouping.GroupByMembers | scripts/custom.js:140-145 | each batch is exactly the elements with its key, in input order |
| Grouping.GroupByKeys | scripts/custom.js:140-145 | a key has a batch exactly when some element has that key |
| Grouping.ConcatPush | scripts/custom.js:143 | pushing onto one batch adds one element to the walk |
| Grouping.PushPermutes | scripts/custom.js:141-144 | one step of the `reduce` adds exactly the pushed element |
| Grouping.GroupByPermutes | scripts/custom.js:147-153 | walking every batch visits a permutation of the input |
| AutogenScript.Columns | scripts/autogen.js:34 | the column count is at most 10, 0 exactly for an empty sheet, and otherwise the number of 288-pixel tiles across the width |
| AutogenScript.TileFor | scripts/autogen.js:40-49 | a tile sits at the cell of its body id, on the 288-pixel grid, within `columns` cells of the left edge, and is written to `<head>/<head>.<body>.png` under the autogen output directory |
| AutogenScript.TileStartsInSheet | scripts/autogen.js:34-42 | with the column count computed from the sheet's width, every tile's left edge lies inside the sheet |
| AutogenScript.RunUpTo | scripts/autogen.js:30-63 | no more tiles than bodies, and every tile written lies wholly inside the sheet |
| AutogenScript.SkipIsFinal | scripts/autogen.js:42-47 | once a body is skipped, every later body is skipped |
| AutogenScript.TilesContiguous | scripts/autogen.js:30-63 | the written bodies are 1, 2, ..., k without a gap, each at its own cell; without a failure every extracted body is written; after a failure the next body was extracted but did not fit |
| AutogenScript.ContiguousStep | scripts/autogen.js:39-61 | an extracted next body that fits continues the run |
| AutogenScript.FailedIsFinal | scripts/autogen.js:30-65 | once an extract has failed, later bodies write nothing |
| AutogenScript.TilesPrefix | scripts/autogen.js:39-61 | later bodies only append tiles |
| AutogenScript.FitsNoFailure | scripts/autogen.js:39-63 | when every extracted body fits, no extract fails |
| AutogenScript.TilesComplete | scripts/autogen.js:39-61 | an extracted body is written, as tile b - 1, when it and every body before it fit |
| AutogenScript.OverhangEndsSheet | scripts/autogen.js:52-63 | a body whose tile reaches past the right or bottom edge is not written, and neither is any later body |
| AutogenScript.AlignedFits | scripts/autogen.js:33-44 | on a sheet whose height is a whole number of tiles, and whose width is too or spans ten tiles, every extracted body fits |
| AutogenScript.AlignedSheetComplete | scripts/autogen.js:30-63 | on such a sheet nothing fails and every extracted body is written at its place |
| AutogenScript.NarrowSheetStopsAtSixthBody | scripts/autogen.js:34-63 | a 2000 by 2880 sheet yields bodies 1 to 5 only: body 6 reaches past the right edge |
| AutogenScript.ShortSheetStopsAtSixtiethBody | scripts/autogen.js:39-63 | a 2880 by 2000 sheet yields bodies 1 to 59 only: body 60 reaches past the bottom edge |
| AutogenScript.NoColumnsNoTiles | scripts/autogen.js:34-46 | with no columns nothing is extracted and nothing fails |
| AutogenScript.EmptySheetYieldsNothing | scripts/autogen.js:34-46 | a sheet of width 0 yields no tile |
| AutogenScript.TileOutputsDistinct | scripts/autogen.js:49 | different body ids are written to different files |
| AutogenScript.TilesOutputsDistinct | scripts/autogen.js:27-49 | no two tiles of one sheet are written to the same file |
| AutogenScript.ProcessSheet | scripts/autogen.js:26-66 | the loop with its `try` writes the tiles defined above, tile i being body i + 1, wholly inside the sheet |
| AutogenScript.WideSheetAgreesWithMainScript | scripts/autogen.js:34-42 | on a sheet at least ten tiles wide, each tile sits where `main.js` cuts the same body, with the same file name |
| FusionTotals.BaseIds | database/totalFusions.js:22 | the distinct base ids are those of the table's rows; there are never more of them than rows, and none only for an empty table |
| FusionTotals.BaseIdsAppend | database/totalFusions.js:22 | one more row adds its base id and nothing else |
| FusionTotals.FusionsShape | database/totalFusions.js:21-33 | the base ids one query counts for an id are distinct base ids of the table, each holding a '.', none counted by that query for another id, and no more of them than rows |
| FusionTotals.FusionsDisjoint | database/totalFusions.js:19-33 | one query's sets for two different ids share no base id |
| FusionTotals.Results | database/totalFusions.js:19-44 | there is exactly one entry for every id 1 to 501 |
| FusionTotals.ComputeResults | database/totalFusions.js:16-45 | the loop fills in the same entries |
| FusionTotals.HeadMatchUnique | database/totalFusions.js:24-25 | a base id passes the head filter for at most one id |
| FusionTotals.BodyMatchUnique | database/totalFusions.js:31-32 | a base id passes the body filter for at most one id |
| FusionTotals.MatchUnique | database/totalFusions.js:24-32 | each query counts a base id for at most one id |
| FusionTotals.NoDotNotCounted | database/totalFusions.js:24-32 | a base id without '.' is counted by neither query |
| FusionTotals.FusionHeadMatches | database/totalFusions.js:24-25 | "h.k" passes the head filter for h |
| FusionTotals.FusionBodyMatches | database/totalFusions.js:31-32 | "h.k" passes the body filter for k |
| FusionTotals.FusionCountedOnce | database/totalFusions.js:21-33 | "h.k" is a head fusion of h alone and a body fusion of k alone |
| FusionTotals.DuplicatesCountOnce | database/totalFusions.js:22 | another row with a base id already present changes no total |
| FusionTotals.SameBaseIdsSameResults | database/totalFusions.js:19-44 | two tables with the same set of base ids give the same report |
| FusionTotals.EmptyCatalogCountsNothing | database/totalFusions.js:35-38 | an empty table gives head = body = 0 for every id |
| FusionTotals.CountedSize | database/totalFusions.js:19-33 | the per-id sets are disjoint, so their union is as large as the sum of the counts, and it holds only base ids of the table |
| FusionTotals.CountsBounded | database/totalFusions.js:19-44 | over ids 1 to 501, one query's counts add up to at most the number of distinct base ids |
| FusionTotals.StrictImpliesMatch | database/totalFusions.js:24-32 | the queries count every all-numeric fusion |
| FusionTotals.LooseBodyMatch | database/totalFusions.js:28-33 | the body query counts "12x.34" as a body of 34, which the all-numeric reading rejects |
| FusionTotals.TwoDotsMatch | database/totalFusions.js:21-33 | the queries count "1.2.3" as a head of 1 and as a body of 3, which the all-numeric reading rejects |

## Left out

- SQLite itself is not modelled: the schema, indexes, `PRAGMA`, `VACUUM`, prepared statements, transactions, commit/rollback and error logging. Inserts are rows appended to returned tables, the `LIKE`/`GLOB` filters are string predicates, and `COUNT(DISTINCT …)` is a set size.
- All file and image I/O is left out: `fs` reads and writes, `mkdirSync` (including the 501 numbered directories), `readdirSync` and its order, JSON loading and writing, and every `sharp` call. Sheet width and height are parameters of `AutogenScript`, and file contents are string parameters of `Catalog`.
- The `headId` of an autogen sheet is a parameter. `path.basename(file, ".png")` and the `.png` filter on directory listings are not modelled.
- `path.join` normalization is not modelled: paths are kept as directory segments plus a file name (`Sprites.FilePath`).
- `csv-parse` is a foreign library: dex records enter already parsed. The extra `trim` of each field (database/database.js:204-208) is left out because `csv-parse` has already trimmed them.
- `data.js` (HTTP fetch and HTML scraping into a global object) is not part of this model.
- `async`/`await` is modelled as plain sequential loops. `console` output, `try`/`catch` logging and the `main()` entry points are left out.
- JavaScript enumerates an object's integer-like keys before its other keys. The model lists batches in first-appearance order instead. The properties proved about the batches (membership, per-batch order, permutation) do not depend on the order of batches.
- `toLowerCase` is modelled for ASCII letters only. The alt letters it is applied to are ASCII letters by construction.
- `Decimal.ParseInt` reads radix 10 only. It does not model the `0x` prefix that `parseInt(bodyId)` without a radix would accept (scripts/main.js:131), or digit strings beyond 2^53, where doubles lose precision.
- `Math.ceil`, `Math.floor` and `%` are modelled exactly on integers. Sheet sizes are whole numbers of pixels. With no columns, the row `Infinity` skips every body, and that is modelled as skipping.
- The `default: return null` of `main.js`'s `getPosition` cannot be reached, because `Sprites.Category` has exactly the three types the scripts produce. `custom.js`'s `null` for autogen is modelled.
- `custom.js` repeats `lettersToIndex` and the non-autogen parts of `processSpriteId` and `getPosition`. `lettersToIndex` and the shared part of `processSpriteId` are defined once here (`Letters.LettersToIndex`, `Sprites.Identify`, with one `Roots` value per script). `getPosition` is defined twice, because `custom.js` has no autogen case and gives `null` for one (`MainScript.GetPosition`, `CustomScript.GetPosition`).
- The image library's check of an extract area is modelled as the fit rule of `AutogenScript.Fits` only. Writing into a head directory that `createDirectories` did not make (heads outside 1 to 501) would also fail, but the file system is not modelled.

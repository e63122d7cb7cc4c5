/** `scripts/custom.js`: the faster variant of `scripts/main.js` for catalogued sprites.
    It describes every row with the shared rule, keeps base and custom sprites apart,
    batches base sprites by head id and custom sprites by head id and alt letters, and
    writes under `./Data`. */
module CustomScript {
  import opened JsValues
  import opened Text
  import opened Grid
  import opened OrderedMaps
  import opened Grouping
  import opened Catalog
  import opened Sprites
  import MainScript

  /** The script's `PATHS`. */
  const Paths := Roots(
    "./GrameGraphics/CustomBattlers/spritesheets/spritesheets_base",
    "./GrameGraphics/CustomBattlers/spritesheets/spritesheets_custom",
    "./GrameGraphics/Battlers/spritesheets_autogen",
    "./Data/base",
    "./Data/custom",
    "./Data/autogen")

  /** `processSpriteId`: the shared rule with this script's directories. */
  function ProcessSpriteId(row: ImageRow): (info: SpriteInfo)
    ensures info.category != Autogen
  {
    Identify(row, Paths)
  }

  /** `getPosition`: as in `scripts/main.js` for base and custom sprites; this script has
      no autogen case and answers `null`. */
  function GetPosition(info: SpriteInfo): (p: Position)
    ensures info.category == Autogen ==> p == Null
    ensures info.category != Autogen ==> p == MainScript.GetPosition(info)
  {
    match info.category
    case Base => At(CellPosition(Letters.LettersToIndex(info.altLetter), ColumnsBase))
    case Custom => CellAt(Decimal.ParseInt(info.bodyId), ColumnsCustom)
    case Autogen => Null
  }

  /** The two scripts describe a catalog row alike, except that this one writes under
      `./Data` where `scripts/main.js` writes under `./Graphics`. */
  lemma AgreesWithMainScript(row: ImageRow)
    ensures ProcessSpriteId(row).category == MainScript.ProcessSpriteId(MainScript.Listed(row)).category
    ensures ProcessSpriteId(row).(outputPath := FilePath([], ""))
         == MainScript.ProcessSpriteId(MainScript.Listed(row)).(outputPath := FilePath([], ""))
    ensures ProcessSpriteId(row).outputPath.name == MainScript.ProcessSpriteId(MainScript.Listed(row)).outputPath.name
    ensures ProcessSpriteId(row).outputPath.dirs[1..] == MainScript.ProcessSpriteId(MainScript.Listed(row)).outputPath.dirs[1..]
    ensures ProcessSpriteId(row).outputPath.dirs[0] == (if IsCustomRow(row) then "./Data/custom" else "./Data/base")
    ensures GetPosition(ProcessSpriteId(row)) == MainScript.GetPosition(MainScript.ProcessSpriteId(MainScript.Listed(row)))
  {
  }

  /** `sprites.map(processSpriteId)`: one description per row, in order. None is an
      autogen sprite, a row is custom exactly when `IsCustomRow` says so, the head comes
      from the row's base id, and the alt letters are lower case. */
  function Processed(rows: seq<ImageRow>): (infos: seq<SpriteInfo>)
    ensures |infos| == |rows|
    ensures forall i :: 0 <= i < |rows| ==> infos[i] == ProcessSpriteId(rows[i])
    ensures forall i :: 0 <= i < |rows| ==>
              && infos[i].category != Autogen
              && (infos[i].category == Custom <==> IsCustomRow(rows[i]))
              && infos[i].headId == HeadOf(rows[i].baseId)
              && AllLowerLetters(infos[i].altLetter)
  {
    seq(|rows|, i requires 0 <= i < |rows| => ProcessSpriteId(rows[i]))
  }

  function CategoryOf(info: SpriteInfo): Category { info.category }

  /** `processedSprites.filter(sprite => sprite.type === 'base')`. */
  function BaseSprites(infos: seq<SpriteInfo>): seq<SpriteInfo> {
    Select(infos, CategoryOf, Base)
  }

  /** `processedSprites.filter(sprite => sprite.type === 'custom')`. */
  function CustomSprites(infos: seq<SpriteInfo>): seq<SpriteInfo> {
    Select(infos, CategoryOf, Custom)
  }

  /** The batch key of `processBaseSprites`. */
  function HeadKey(info: SpriteInfo): string { info.headId }

  /** The batch key of `processCustomSprites`: `${headId}-${altLetter}`. */
  function SheetKey(info: SpriteInfo): string { info.headId + "-" + info.altLetter }

  /** The order in which the script extracts: the base batches one after the other, then
      the custom batches. */
  function ExtractionOrder(rows: seq<ImageRow>): seq<SpriteInfo> {
    var infos := Processed(rows);
    Concat(ValuesOf(GroupBy(BaseSprites(infos), HeadKey)))
      + Concat(ValuesOf(GroupBy(CustomSprites(infos), SheetKey)))
  }

  /** With no autogen sprite in the input, the two filters split it: every sprite goes to
      exactly one of them. */
  lemma {:induction false} FiltersPartition(infos: seq<SpriteInfo>)
    requires forall i :: 0 <= i < |infos| ==> infos[i].category != Autogen
    ensures multiset(BaseSprites(infos)) + multiset(CustomSprites(infos)) == multiset(infos)
    decreases |infos|
  {
    if |infos| > 0 {
      var prefix := infos[..|infos| - 1];
      assert infos == prefix + [infos[|infos| - 1]];
      FiltersPartition(prefix);
    }
  }

  /** Every catalogued sprite is extracted exactly once: the extraction order is a
      permutation of the described rows. */
  lemma ExtractsEverySpriteOnce(rows: seq<ImageRow>)
    ensures multiset(ExtractionOrder(rows)) == multiset(Processed(rows))
  {
    var infos := Processed(rows);
    FiltersPartition(infos);
    GroupByPermutes(BaseSprites(infos), HeadKey);
    GroupByPermutes(CustomSprites(infos), SheetKey);
  }

  /** Alt letters contain no '-', so the sheet key determines head id and alt letters
      whatever the head id holds. */
  lemma SheetKeyInjective(a: SpriteInfo, b: SpriteInfo)
    requires AllLowerLetters(a.altLetter) && AllLowerLetters(b.altLetter)
    ensures SheetKey(a) == SheetKey(b) <==> a.headId == b.headId && a.altLetter == b.altLetter
  {
    if SheetKey(a) == SheetKey(b) {
      var ka := SheetKey(a);
      SeparatorTailLength(a.headId, a.altLetter, b.headId, b.altLetter, '-');
      assert a.altLetter == ka[|ka| - |a.altLetter|..];
      assert b.altLetter == ka[|ka| - |b.altLetter|..];
      assert a.headId == ka[..|a.headId|];
      assert b.headId == ka[..|b.headId|];
    }
  }

  /** What every described row satisfies: alt letters are lower case, and the input sheet
      is determined by category, head id and alt letters. */
  ghost predicate SheetShaped(info: SpriteInfo) {
    AllLowerLetters(info.altLetter)
    && (info.category == Custom ==>
          info.inputPath == FilePath([Paths.inputCustom, info.headId], info.headId + info.altLetter + ".png"))
    && (info.category == Base ==> info.inputPath == FilePath([Paths.inputBase], info.headId + ".png"))
  }

  lemma ProcessedShaped(rows: seq<ImageRow>, info: SpriteInfo)
    requires info in Processed(rows)
    ensures SheetShaped(info)
  {
  }

  /** Each custom batch reads a single input sheet: all its sprites are custom and share
      head id, alt letters and input path. */
  lemma CustomBatchReadsOneSheet(rows: seq<ImageRow>, k: string, i: nat, j: nat)
    ensures var g := GroupOf(GroupBy(CustomSprites(Processed(rows)), SheetKey), k);
            i < |g| && j < |g| ==>
              g[i].category == Custom && g[i].inputPath == g[j].inputPath
              && g[i].headId == g[j].headId && g[i].altLetter == g[j].altLetter
  {
    var customs := CustomSprites(Processed(rows));
    GroupByMembers(customs, SheetKey, k);
    var g := Select(customs, SheetKey, k);
    if i < |g| && j < |g| {
      assert g[i] in customs && g[j] in customs;
      ProcessedShaped(rows, g[i]);
      ProcessedShaped(rows, g[j]);
      SheetKeyInjective(g[i], g[j]);
    }
  }

  /** Each base batch reads a single input sheet: all its sprites are base sprites of one
      head id. */
  lemma BaseBatchReadsOneSheet(rows: seq<ImageRow>, k: string, i: nat, j: nat)
    ensures var g := GroupOf(GroupBy(BaseSprites(Processed(rows)), HeadKey), k);
            i < |g| && j < |g| ==>
              g[i].category == Base && g[i].headId == k && g[i].inputPath == g[j].inputPath
  {
    var bases := BaseSprites(Processed(rows));
    GroupByMembers(bases, HeadKey, k);
    var g := Select(bases, HeadKey, k);
    if i < |g| && j < |g| {
      assert g[i] in bases && g[j] in bases;
      ProcessedShaped(rows, g[i]);
      ProcessedShaped(rows, g[j]);
    }
  }
}

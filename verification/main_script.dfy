/** `scripts/main.js`: describes every catalogued sprite and every autogen tile, finds
    its corner on the input sheet, and writes under `./Graphics`. */
module MainScript {
  import opened JsValues
  import opened Text
  import opened Decimal
  import opened Letters
  import opened Grid
  import opened Catalog
  import opened Sprites

  /** The script's `PATHS`. */
  const Paths := Roots(
    "./GrameGraphics/CustomBattlers/spritesheets/spritesheets_base",
    "./GrameGraphics/CustomBattlers/spritesheets/spritesheets_custom",
    "./GrameGraphics/Battlers/spritesheets_autogen",
    "./Graphics/base",
    "./Graphics/custom",
    "./Graphics/autogen")

  /** Highest body id of an autogen sheet. */
  const AutogenBodies: nat := 501

  /** What `processSpriteId` receives: a catalog row, or an autogen tile given by head and
      body id. */
  datatype SpriteSource = Listed(row: ImageRow) | AutogenTile(headId: string, bodyId: string)

  /** `processSpriteId`: autogen tiles are named `<head>.<body>.png` under the head's
      directory, read from `<head>.png`, with index body - 1; catalog rows go through the
      shared rule. */
  function ProcessSpriteId(source: SpriteSource): (info: SpriteInfo)
    ensures source.Listed? ==> info == Identify(source.row, Paths)
    ensures info.category == Autogen <==> source.AutogenTile?
    ensures source.AutogenTile? ==>
              info.headId == source.headId && info.bodyId == source.bodyId && info.altLetter == ""
              && info.inputPath == FilePath([Paths.inputAutogen], source.headId + ".png")
              && info.outputPath == FilePath([Paths.outputAutogen, source.headId], source.headId + "." + source.bodyId + ".png")
              && info.index == ParseInt(source.bodyId).Minus(1)
  {
    match source
    case Listed(row) => Identify(row, Paths)
    case AutogenTile(head, body) =>
      SpriteInfo(
        Autogen, head, body, "",
        FilePath([Paths.inputAutogen], head + ".png"),
        FilePath([Paths.outputAutogen, head], head + "." + body + ".png"),
        ParseInt(body).Minus(1))
  }

  /** `getPosition`: a base sprite sits at cell `lettersToIndex(altLetter)` of a 10-wide
      sheet, a custom one at cell `bodyId` of a 20-wide sheet, an autogen one at cell
      `bodyId` of a 10-wide sheet. */
  function GetPosition(info: SpriteInfo): (p: Position)
    ensures p != Null
    ensures p.At? ==> p.corner.x % SpriteSize == 0 && p.corner.y % SpriteSize == 0
    ensures info.category == Base && AllLetters(info.altLetter) ==>
              p.At? && CellIndex(p.corner, ColumnsBase) == LettersToIndex(info.altLetter)
    ensures info.category != Base ==> (p == NotANumber <==> ParseInt(info.bodyId).NaN?)
    ensures info.category == Custom && AllDigits(info.bodyId) && info.bodyId != "" ==>
              p.At? && CellIndex(p.corner, ColumnsCustom) == DigitsValue(info.bodyId)
    ensures info.category == Autogen && AllDigits(info.bodyId) && info.bodyId != "" ==>
              p.At? && CellIndex(p.corner, ColumnsAutogen) == DigitsValue(info.bodyId)
  {
    match info.category
    case Base => At(CellPosition(LettersToIndex(info.altLetter), ColumnsBase))
    case Custom => CellAt(ParseInt(info.bodyId), ColumnsCustom)
    case Autogen => CellAt(ParseInt(info.bodyId), ColumnsAutogen)
  }

  /** The tiles `processAutogenSprites` extracts from one autogen sheet: body ids 1 to
      501, in order. Every job is a tile of the given head, the k-th body id reads back as
      k + 1, and no body id repeats. */
  function AutogenJobs(headId: string): (jobs: seq<SpriteSource>)
    ensures |jobs| == AutogenBodies
    ensures forall k :: 0 <= k < |jobs| ==> jobs[k] == AutogenTile(headId, NatToString(k + 1))
    ensures forall k :: 0 <= k < |jobs| ==>
              jobs[k].AutogenTile? && jobs[k].headId == headId && ParseInt(jobs[k].bodyId) == Finite(k + 1)
    ensures forall j, k :: 0 <= j < k < |jobs| ==> jobs[j].bodyId != jobs[k].bodyId
  {
    var jobs := seq(AutogenBodies, k requires 0 <= k => AutogenTile(headId, NatToString(k + 1)));
    NumberedTiles(headId, jobs);
    jobs
  }

  /** Tiles numbered 1, 2, ... read back as those numbers and so are all different. */
  lemma NumberedTiles(headId: string, jobs: seq<SpriteSource>)
    requires forall k :: 0 <= k < |jobs| ==> jobs[k] == AutogenTile(headId, NatToString(k + 1))
    ensures forall k :: 0 <= k < |jobs| ==>
              jobs[k].AutogenTile? && jobs[k].headId == headId && ParseInt(jobs[k].bodyId) == Finite(k + 1)
    ensures forall j, k :: 0 <= j < k < |jobs| ==> jobs[j].bodyId != jobs[k].bodyId
  {
    DecimalTextsParse();
  }

  lemma DecimalTextsParse()
    ensures forall n: nat :: ParseInt(NatToString(n)) == Finite(n)
  {
    forall n: nat ensures ParseInt(NatToString(n)) == Finite(n) {
      ParseIntOfNatToString(n);
    }
  }

  /** Tile k of an autogen sheet (0-based) is body k + 1: its index is k and its corner is
      cell k + 1 of the 10-wide sheet, so body 10 opens the second row and cell 0 is
      never read. */
  lemma AutogenJobPlacement(headId: string, k: nat)
    requires k < AutogenBodies
    ensures AutogenJobs(headId)[k] == AutogenTile(headId, NatToString(k + 1))
    ensures ProcessSpriteId(AutogenTile(headId, NatToString(k + 1))).index == Finite(k)
    ensures GetPosition(ProcessSpriteId(AutogenTile(headId, NatToString(k + 1)))) == At(CellPosition(k + 1, ColumnsAutogen))
    ensures ProcessSpriteId(AutogenTile(headId, NatToString(k + 1))).outputPath.name == headId + "." + NatToString(k + 1) + ".png"
  {
    var body := NatToString(k + 1);
    var info := ProcessSpriteId(AutogenTile(headId, body));
    assert info.index == ParseInt(body).Minus(1);
    ParseIntOfNatToString(k + 1);
    assert ParseInt(body) == Finite(k + 1);
  }

  /** Different tiles of one autogen sheet are written to different files. */
  lemma AutogenOutputsDistinct(headId: string, j: nat, k: nat)
    requires j < k < AutogenBodies
    ensures ProcessSpriteId(AutogenJobs(headId)[j]).outputPath != ProcessSpriteId(AutogenJobs(headId)[k]).outputPath
  {
    var a := headId + "." + NatToString(j + 1) + ".png";
    var b := headId + "." + NatToString(k + 1) + ".png";
    NumberedNameInjective(headId + ".", j + 1, k + 1, ".png");
    assert ProcessSpriteId(AutogenJobs(headId)[j]).outputPath.name == a;
    assert ProcessSpriteId(AutogenJobs(headId)[k]).outputPath.name == b;
  }

  /** The base sheet is ten cells wide: no alt letter is cell 0, "a" cell 1 and "j" the
      first cell of the second row. */
  lemma BaseSheetLayout(info: SpriteInfo)
    requires info.category == Base
    ensures info.altLetter == "" ==> GetPosition(info) == At(Point(0, 0))
    ensures info.altLetter == "a" ==> GetPosition(info) == At(Point(288, 0))
    ensures info.altLetter == "j" ==> GetPosition(info) == At(Point(0, 288))
  {
    LettersToIndexExamples();
  }
}

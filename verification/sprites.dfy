/** The sprite-description logic shared by `scripts/main.js` and `scripts/custom.js`:
    `processSpriteId` splits a catalog row's `base_id` into head and body, takes the alt
    letters from the end of `sprite_id`, decides between the base and custom sheets, and
    names the input sheet and the output file. The two scripts carry identical copies of
    this logic and differ only in their output directories (`Roots`). */
module Sprites {
  import opened JsValues
  import opened Text
  import opened Decimal
  import opened SpriteIds
  import opened Letters
  import opened Grid
  import opened Catalog

  /** The three sprite sheets a sprite can come from. */
  datatype Category = Base | Custom | Autogen

  /** A path as the segments given to `path.join`: directories, then the file name. */
  datatype FilePath = FilePath(dirs: seq<string>, name: string)

  /** The object `processSpriteId` returns. `index` is the script's own 0-based cell
      number; `getPosition` does not use it. */
  datatype SpriteInfo = SpriteInfo(
    category: Category,
    headId: string,
    bodyId: string,
    altLetter: string,
    inputPath: FilePath,
    outputPath: FilePath,
    index: Num)

  /** A script's `PATHS` table. */
  datatype Roots = Roots(
    inputBase: string, inputCustom: string, inputAutogen: string,
    outputBase: string, outputCustom: string, outputAutogen: string)

  /** What `getPosition` returns: a tile corner, a corner whose coordinates are NaN
      (the body id did not parse), or `null`. */
  datatype Position = At(corner: Point) | NotANumber | Null

  /** The corner of cell `n` on a sheet `columns` wide; a NaN cell number gives NaN
      coordinates, which the scripts pass on unchecked. */
  function CellAt(n: Num, columns: nat): (p: Position)
    requires columns > 0
    ensures p != Null
    ensures p == NotANumber <==> n.NaN?
    ensures n.Finite? && n.value >= 0 ==> p.At? && CellIndex(p.corner, columns) == n.value
  {
    match n
    case NaN => NotANumber
    case Finite(v) => At(CellPosition(v, columns))
  }

  /** `base_id.split('.')[0]`: the text before the first '.', or the whole id. */
  function HeadOf(baseId: string): (h: string)
    ensures '.' !in h
    ensures '.' !in baseId ==> h == baseId
    ensures '.' in baseId ==> |h| < |baseId| && baseId[..|h| + 1] == h + "."
  {
    IndexOfChar(baseId, '.');
    Split(baseId, ".")[0]
  }

  /** `base_id.split('.')[1] || ''`: the text between the first '.' and the next one (or
      the end), and "" when there is no '.'. */
  function BodyOf(baseId: string): (b: string)
    ensures '.' !in b
    ensures '.' !in baseId ==> b == ""
    ensures '.' in baseId ==> b == HeadOf(baseId[|HeadOf(baseId)| + 1..])
  {
    IndexOfChar(baseId, '.');
    var parts := Split(baseId, ".");
    if |parts| > 1 then
      assert '.' in baseId && parts[1] == HeadOf(baseId[|HeadOf(baseId)| + 1..]);
      parts[1]
    else ""
  }

  /** `sprite_id.match(/[a-z]+$/i)[0].toLowerCase()`, or "" when there is no match. */
  function AltLetterOf(spriteId: string): (a: string)
    ensures AllLowerLetters(a)
    ensures |a| == TrailingLetterCount(spriteId)
    ensures AllLowerLetters(AltSuffix(spriteId)) ==> a == AltSuffix(spriteId)
    ensures forall i :: 0 <= i < |a| ==> a[i] == LowerChar(spriteId[|spriteId| - |a| + i])
  {
    Lower(AltSuffix(spriteId))
  }

  /** The output file name: `${headId}.${bodyId}${altLetter}.png` for a custom sprite,
      `${headId}${altLetter}.png` for a base one. */
  function OutputName(custom: bool, headId: string, bodyId: string, altLetter: string): string {
    if custom then headId + "." + bodyId + altLetter + ".png" else headId + altLetter + ".png"
  }

  /** The `index` field: the first alt letter counted from 'a' = 0, else the body id
      minus one, else 0. */
  function SheetIndex(altLetter: string, bodyId: string): Num {
    if altLetter != "" then Finite(altLetter[0] as int - 'a' as int)
    else if bodyId != "" then ParseInt(bodyId).Minus(1)
    else Finite(0)
  }

  /** Whether a catalog row is a custom fusion: an alt row is custom when its body part is
      non-empty, a main row when its base id contains a '.'. */
  predicate IsCustomRow(row: ImageRow) {
    if row.imageType == Alt then BodyOf(row.baseId) != "" else '.' in row.baseId
  }

  /** The non-autogen branch of `processSpriteId`. The category is custom or base by the
      rule of `IsCustomRow`; head and body come from `base_id`; the alt letters from the
      end of `sprite_id`, for alt rows only. */
  function Identify(row: ImageRow, roots: Roots): (info: SpriteInfo)
    ensures info.category != Autogen
    ensures info.category == Custom <==> IsCustomRow(row)
    ensures row.imageType == Main ==> (info.category == Custom <==> '.' in row.baseId)
    ensures info.headId == HeadOf(row.baseId) && info.bodyId == BodyOf(row.baseId)
    ensures info.altLetter == (if row.imageType == Alt then AltLetterOf(row.spriteId) else "")
    ensures AllLowerLetters(info.altLetter)
    ensures info.outputPath.name == OutputName(info.category == Custom, info.headId, info.bodyId, info.altLetter)
    ensures info.category == Custom ==>
              info.inputPath == FilePath([roots.inputCustom, info.headId], info.headId + info.altLetter + ".png")
              && info.outputPath.dirs == [roots.outputCustom, info.headId]
    ensures info.category == Base ==>
              info.inputPath == FilePath([roots.inputBase], info.headId + ".png")
              && info.outputPath.dirs == [roots.outputBase]
    ensures info.index == SheetIndex(info.altLetter, info.bodyId)
  {
    var head := HeadOf(row.baseId);
    var body := BodyOf(row.baseId);
    var alt := if row.imageType == Alt then AltLetterOf(row.spriteId) else "";
    var custom := IsCustomRow(row);
    SpriteInfo(
      if custom then Custom else Base,
      head,
      body,
      alt,
      if custom then FilePath([roots.inputCustom, head], head + alt + ".png") else FilePath([roots.inputBase], head + ".png"),
      if custom then FilePath([roots.outputCustom, head], OutputName(true, head, body, alt))
      else FilePath([roots.outputBase], OutputName(false, head, body, alt)),
      SheetIndex(alt, body))
  }

  /** A base id with a '.' is its head, the '.', and what follows; with at most one '.',
      what follows is the body. */
  lemma SingleDotParts(baseId: string)
    requires '.' in baseId
    requires forall i, j :: 0 <= i < j < |baseId| && baseId[i] == '.' ==> baseId[j] != '.'
    ensures baseId == HeadOf(baseId) + "." + BodyOf(baseId)
  {
    var h := HeadOf(baseId);
    var rest := baseId[|h| + 1..];
    assert '.' !in rest by {
      forall k | 0 <= k < |rest| ensures rest[k] != '.' {
        assert rest[k] == baseId[|h| + 1 + k];
        assert baseId[|h|] == '.';
      }
    }
    assert baseId == baseId[..|h| + 1] + rest;
  }

  /** Output names round-trip: for a catalog row whose base id is derived from its sprite
      id, whose type is the one computed from the id, whose trailing letters are lower
      case, and whose base id has at most one '.', not in last position, the output file
      is the sprite id plus ".png". */
  lemma OutputNameRoundTrip(row: ImageRow, roots: Roots)
    requires row.baseId == GetBaseId(row.spriteId)
    requires row.imageType == ImageTypeOf(row.spriteId)
    requires AllLowerLetters(AltSuffix(row.spriteId))
    requires forall i, j :: 0 <= i < j < |row.baseId| && row.baseId[i] == '.' ==> row.baseId[j] != '.'
    requires |row.baseId| > 0 ==> row.baseId[|row.baseId| - 1] != '.'
    ensures Identify(row, roots).outputPath.name == row.spriteId + ".png"
  {
    var b := row.baseId;
    if row.imageType == Main {
      MainIdIsOwnBase(row.spriteId);
      assert AltSuffix(row.spriteId) == "";
      if '.' in b {
        SingleDotParts(b);
      }
    } else {
      if '.' in b {
        SingleDotParts(b);
        assert BodyOf(b) != "";
      }
    }
  }

  /** Why the round trip needs its last condition: the alt sprite "5.a" has base id "5.",
      an empty body, so it is treated as a base sprite named "5a.png". */
  lemma DotBeforeAltLetterLosesDot(roots: Roots)
    ensures var info := Identify(ImageRow("5.a", "5.", Alt, None), roots);
            info.category == Base && info.outputPath.name == "5a.png"
  {
    var row := ImageRow("5.a", "5.", Alt, None);
    assert "5."[1] == '.';
    assert HeadOf("5.") == "5" by {
      assert "5."[..2] == "5" + ".";
    }
    assert "5."[2..] == "";
    assert BodyOf("5.") == "";
    assert AltSuffix("5.a") == "a" by {
      assert "5.a"[2] == 'a' && "5.a"[..2] == "5.";
      assert !IsAsciiLetter("5.a"[..2][1]);
    }
    assert AltLetterOf("5.a") == "a";
    assert !IsCustomRow(row);
    var info := Identify(row, roots);
    assert info.altLetter == "a" && info.headId == "5";
  }


  /** A single lower-case letter counts from 1 at 'a'. */
  lemma OneLetterIndex(c: char)
    requires IsLowerLetter(c)
    ensures LettersToIndex([c]) == c as int - 'a' as int + 1
  {
    assert [c][..0] == "";
  }

  /** The `index` field is 0-based where the cell the position uses is 1-based: for one
      alt letter it is `lettersToIndex(altLetter) - 1`, and for a fusion without alt
      letters it is `bodyId - 1`. */
  lemma IndexIsOneLess(altLetter: string, bodyId: string)
    ensures |altLetter| == 1 && AllLowerLetters(altLetter) ==>
              SheetIndex(altLetter, bodyId) == Finite(LettersToIndex(altLetter) - 1)
    ensures altLetter == "" && |bodyId| > 0 && AllDigits(bodyId) ==>
              SheetIndex(altLetter, bodyId) == Finite(DigitsValue(bodyId) - 1)
  {
    if |altLetter| == 1 && AllLowerLetters(altLetter) {
      var c := altLetter[0];
      assert altLetter == [c];
      OneLetterIndex(c);
    }
    if altLetter == "" && |bodyId| > 0 && AllDigits(bodyId) {
      assert ParseInt(bodyId) == Finite(DigitsValue(bodyId));
    }
  }
}

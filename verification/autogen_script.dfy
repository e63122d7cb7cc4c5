/** `scripts/autogen.js`: cuts every autogen sheet into the tiles of bodies 1 to 501.
    Unlike `scripts/main.js` it reads the sheet's size first: the number of columns comes
    from the width (at most ten), and a body whose row starts at or below the bottom edge
    is skipped. A body whose tile reaches past the right or bottom edge makes the extract
    fail, and the `catch` around the loop ends the sheet there. The sheet's width and
    height are parameters; reading and writing images is not modelled. */
module AutogenScript {
  import opened JsValues
  import opened Decimal
  import opened Grid
  import opened Sprites
  import MainScript

  const InputAutogen := "./GrameGraphics/Battlers/spritesheets_autogen"
  const OutputAutogen := "./Data/autogen"

  /** Highest body id on a sheet. */
  const LastBody: nat := 501

  /** One extracted tile: its body id, its corner on the sheet, and where it is written. */
  datatype Tile = Tile(bodyId: nat, corner: Point, outputPath: FilePath)

  /** Where the loop over one sheet stands: the tiles written so far, and whether an
      extract failed, which sends control to the `catch` and ends the sheet. */
  datatype Run = Run(tiles: seq<Tile>, failed: bool)

  /** `Math.min(COLUMNS_AUTOGEN, Math.ceil(width / SPRITE_SIZE))`: the number of tiles
      across, never more than ten; an empty sheet has none. */
  function Columns(width: nat): (c: nat)
    ensures c <= ColumnsAutogen
    ensures c == 0 <==> width == 0
    ensures 0 < c < ColumnsAutogen ==> (c - 1) * SpriteSize < width <= c * SpriteSize
    ensures c == ColumnsAutogen <==> width > (ColumnsAutogen - 1) * SpriteSize
  {
    var across := (width + SpriteSize - 1) / SpriteSize;
    if across < ColumnsAutogen then across else ColumnsAutogen
  }

  /** Whether body `b` is extracted: its row must start above the bottom edge. With no
      columns the row is `Infinity` and every body is skipped. */
  predicate Extracted(b: nat, columns: nat, height: nat) {
    columns > 0 && CellPosition(b, columns).y < height
  }

  /** Whether the 288 by 288 area of body `b` lies inside the sheet. The image library
      rejects an extract area that reaches past the right or the bottom edge; the error
      reaches the `catch` around the loop and ends the sheet. */
  predicate Fits(b: nat, columns: nat, width: nat, height: nat) {
    columns > 0
    && CellPosition(b, columns).x + SpriteSize <= width
    && CellPosition(b, columns).y + SpriteSize <= height
  }

  /** The tile of body `b`: cell `b` of the sheet, written to `<head>/<head>.<b>.png`. */
  function TileFor(headId: string, b: nat, columns: nat): (t: Tile)
    requires columns > 0
    ensures t.bodyId == b && CellIndex(t.corner, columns) == b
    ensures 0 <= t.corner.x < columns * SpriteSize && 0 <= t.corner.y
    ensures t.corner.x % SpriteSize == 0 && t.corner.y % SpriteSize == 0
    ensures t.outputPath.dirs == [OutputAutogen, headId]
    ensures t.outputPath.name == headId + "." + NatToString(b) + ".png"
  {
    Tile(b, CellPosition(b, columns), FilePath([OutputAutogen, headId], headId + "." + NatToString(b) + ".png"))
  }

  /** With the column count the script computes from the sheet's width, every tile starts
      left of the right edge: its left column is a pixel of the sheet. */
  lemma TileStartsInSheet(headId: string, b: nat, width: nat)
    requires width > 0
    ensures TileFor(headId, b, Columns(width)).corner.x < width
  {
    var c := Columns(width);
    var x := TileFor(headId, b, c).corner.x;
    assert x == JsRemainder(b, c) * SpriteSize;
    assert JsRemainder(b, c) <= c - 1;
    assert x <= (c - 1) * SpriteSize;
  }

  /** Where `processSheet` stands after bodies 1 to `n`: the tiles written, in order, and
      whether an extract failed. A skipped body writes nothing; after a failure nothing
      more is written. Every tile written lies inside the sheet. */
  function RunUpTo(headId: string, n: nat, columns: nat, width: nat, height: nat): (r: Run)
    ensures |r.tiles| <= n
    ensures forall i :: 0 <= i < |r.tiles| ==>
              r.tiles[i].corner.x + SpriteSize <= width && r.tiles[i].corner.y + SpriteSize <= height
    decreases n
  {
    if n == 0 then Run([], false)
    else
      var r := RunUpTo(headId, n - 1, columns, width, height);
      if r.failed || !Extracted(n, columns, height) then r
      else if Fits(n, columns, width, height) then Run(r.tiles + [TileFor(headId, n, columns)], false)
      else Run(r.tiles, true)
  }

  /** `processSheet` on a sheet of the given size: the tiles it writes. */
  function Tiles(headId: string, width: nat, height: nat): seq<Tile> {
    RunUpTo(headId, LastBody, Columns(width), width, height).tiles
  }

  /** Once a body is skipped, every later body is skipped too: rows only grow with the
      body id. */
  lemma SkipIsFinal(b: nat, later: nat, columns: nat, height: nat)
    requires b <= later && Extracted(later, columns, height)
    ensures Extracted(b, columns, height)
  {
    RowMonotone(b, later, columns);
  }

  /** Body `b` is extracted, fits, and `t` is its tile. */
  ghost predicate Placed(t: Tile, b: nat, headId: string, columns: nat, width: nat, height: nat) {
    Extracted(b, columns, height) && Fits(b, columns, width, height) && t == TileFor(headId, b, columns)
  }

  /** Tile i is body i + 1, at its cell, and that body is extracted and fits. */
  ghost predicate Contiguous(ts: seq<Tile>, headId: string, columns: nat, width: nat, height: nat) {
    forall i :: 0 <= i < |ts| ==> Placed(ts[i], i + 1, headId, columns, width, height)
  }

  /** The written bodies are 1, 2, ..., k without a gap, each at its cell. When no extract
      failed and body `n` is extracted, all of 1 to `n` are written; when one failed, it
      is the body right after the last one written, and it did not fit. */
  lemma {:induction false} TilesContiguous(headId: string, n: nat, columns: nat, width: nat, height: nat)
    ensures var r := RunUpTo(headId, n, columns, width, height);
            && Contiguous(r.tiles, headId, columns, width, height)
            && (!r.failed && Extracted(n, columns, height) ==> |r.tiles| == n)
            && (r.failed ==> |r.tiles| < n && Extracted(|r.tiles| + 1, columns, height)
                             && !Fits(|r.tiles| + 1, columns, width, height))
    decreases n
  {
    if n > 0 {
      var prev := RunUpTo(headId, n - 1, columns, width, height);
      TilesContiguous(headId, n - 1, columns, width, height);
      if prev.failed || !Extracted(n, columns, height) {
        assert RunUpTo(headId, n, columns, width, height) == prev;
      } else {
        if n - 1 > 0 {
          SkipIsFinal(n - 1, n, columns, height);
        }
        assert |prev.tiles| == n - 1;
        if Fits(n, columns, width, height) {
          ContiguousStep(prev.tiles, headId, n, columns, width, height);
          assert RunUpTo(headId, n, columns, width, height) == Run(prev.tiles + [TileFor(headId, n, columns)], false);
        } else {
          assert RunUpTo(headId, n, columns, width, height) == Run(prev.tiles, true);
        }
      }
    }
  }

  lemma ContiguousStep(prev: seq<Tile>, headId: string, n: nat, columns: nat, width: nat, height: nat)
    requires Contiguous(prev, headId, columns, width, height)
    requires |prev| + 1 == n && Extracted(n, columns, height) && Fits(n, columns, width, height)
    ensures Contiguous(prev + [TileFor(headId, n, columns)], headId, columns, width, height)
  {
    var t := TileFor(headId, n, columns);
    var ts := prev + [t];
    assert Placed(t, n, headId, columns, width, height);
    assert forall i :: 0 <= i < |prev| ==> ts[i] == prev[i];
    assert ts[|prev|] == t;
    forall i | 0 <= i < |ts| ensures Placed(ts[i], i + 1, headId, columns, width, height) {
      if i < |prev| {
        assert Placed(prev[i], i + 1, headId, columns, width, height);
      }
    }
  }

  /** A failed run stays as it is: after the `catch` nothing more is written. */
  lemma {:induction false} FailedIsFinal(headId: string, m: nat, n: nat, columns: nat, width: nat, height: nat)
    requires m <= n && RunUpTo(headId, m, columns, width, height).failed
    ensures RunUpTo(headId, n, columns, width, height) == RunUpTo(headId, m, columns, width, height)
    decreases n
  {
    if m < n {
      FailedIsFinal(headId, m, n - 1, columns, width, height);
    }
  }

  /** Later bodies only append tiles. */
  lemma {:induction false} TilesPrefix(headId: string, m: nat, n: nat, columns: nat, width: nat, height: nat)
    requires m <= n
    ensures RunUpTo(headId, m, columns, width, height).tiles <= RunUpTo(headId, n, columns, width, height).tiles
    decreases n
  {
    if m < n {
      TilesPrefix(headId, m, n - 1, columns, width, height);
    }
  }

  /** With every extracted body up to `n` fitting, no extract fails. */
  lemma {:induction false} FitsNoFailure(headId: string, n: nat, columns: nat, width: nat, height: nat)
    requires forall b :: 1 <= b <= n && Extracted(b, columns, height) ==> Fits(b, columns, width, height)
    ensures !RunUpTo(headId, n, columns, width, height).failed
    decreases n
  {
    if n > 0 {
      FitsNoFailure(headId, n - 1, columns, width, height);
    }
  }

  /** No body is left out before the first failure: when bodies 1 to `b` all fit, an
      extracted body `b` has its tile. */
  lemma TilesComplete(headId: string, n: nat, columns: nat, width: nat, height: nat, b: nat)
    requires 1 <= b <= n && Extracted(b, columns, height)
    requires forall c :: 1 <= c <= b ==> Fits(c, columns, width, height)
    ensures b <= |RunUpTo(headId, n, columns, width, height).tiles|
    ensures RunUpTo(headId, n, columns, width, height).tiles[b - 1] == TileFor(headId, b, columns)
  {
    FitsNoFailure(headId, b, columns, width, height);
    TilesContiguous(headId, b, columns, width, height);
    TilesPrefix(headId, b, n, columns, width, height);
    assert Placed(RunUpTo(headId, b, columns, width, height).tiles[b - 1], b, headId, columns, width, height);
  }

  /** A body whose area reaches past an edge ends the sheet: neither it nor any later body
      has a tile. */
  lemma OverhangEndsSheet(headId: string, n: nat, columns: nat, width: nat, height: nat, b: nat)
    requires 1 <= b
    ensures !Fits(b, columns, width, height) ==> |RunUpTo(headId, n, columns, width, height).tiles| < b
  {
    var ts := RunUpTo(headId, n, columns, width, height).tiles;
    TilesContiguous(headId, n, columns, width, height);
    if b <= |ts| {
      assert Placed(ts[b - 1], b, headId, columns, width, height);
    }
  }

  /** A tile edge and a sheet edge that are both whole tiles leave room for the tile. */
  lemma WholeTileBelow(a: int, e: int)
    requires a % SpriteSize == 0 && e % SpriteSize == 0 && a < e
    ensures a + SpriteSize <= e
  {
    assert a == SpriteSize * (a / SpriteSize);
    assert e == SpriteSize * (e / SpriteSize);
  }

  /** On a sheet whose height is a whole number of tiles and whose width is too (or
      reaches ten tiles), every extracted body fits. */
  lemma AlignedFits(b: nat, width: nat, height: nat)
    requires height % SpriteSize == 0
    requires width % SpriteSize == 0 || width >= ColumnsAutogen * SpriteSize
    ensures Extracted(b, Columns(width), height) ==> Fits(b, Columns(width), width, height)
  {
    var c := Columns(width);
    if Extracted(b, c, height) {
      var p := CellPosition(b, c);
      WholeTileBelow(p.y, height);
      WholeTileBelow(p.x, c * SpriteSize);
      if width % SpriteSize == 0 && c < ColumnsAutogen {
        WholeTileBelow((c - 1) * SpriteSize, width);
      }
    }
  }

  /** On such an aligned sheet no extract fails, and every extracted body has its tile. */
  lemma AlignedSheetComplete(headId: string, width: nat, height: nat, b: nat)
    requires height % SpriteSize == 0
    requires width % SpriteSize == 0 || width >= ColumnsAutogen * SpriteSize
    requires 1 <= b <= LastBody && Extracted(b, Columns(width), height)
    ensures !RunUpTo(headId, LastBody, Columns(width), width, height).failed
    ensures b <= |Tiles(headId, width, height)| && Tiles(headId, width, height)[b - 1] == TileFor(headId, b, Columns(width))
  {
    forall c | 1 <= c <= LastBody ensures Extracted(c, Columns(width), height) ==> Fits(c, Columns(width), width, height) {
      AlignedFits(c, width, height);
    }
    FitsNoFailure(headId, LastBody, Columns(width), width, height);
    forall c | 1 <= c <= b ensures Fits(c, Columns(width), width, height) {
      SkipIsFinal(c, b, Columns(width), height);
      AlignedFits(c, width, height);
    }
    TilesComplete(headId, LastBody, Columns(width), width, height, b);
  }

  /** A sheet 2000 wide and 2880 high has seven columns; body 6 starts at x = 1728 and
      would reach x = 2016, so the sheet ends after body 5. */
  lemma NarrowSheetStopsAtSixthBody(headId: string)
    ensures |Tiles(headId, 2000, 2880)| == 5
  {
    assert Columns(2000) == 7;
    forall b | 1 <= b <= 5 ensures Fits(b, 7, 2000, 2880) {
      assert CellPosition(b, 7) == Point(b * SpriteSize, 0);
    }
    FitsNoFailure(headId, 5, 7, 2000, 2880);
    TilesContiguous(headId, 5, 7, 2000, 2880);
    assert CellPosition(6, 7) == Point(1728, 0);
    assert RunUpTo(headId, 6, 7, 2000, 2880).failed;
    FailedIsFinal(headId, 6, LastBody, 7, 2000, 2880);
  }

  /** A sheet 2880 wide and 2000 high has ten columns; body 60 opens the seventh row at
      y = 1728, which would reach y = 2016, so the sheet ends after body 59. */
  lemma ShortSheetStopsAtSixtiethBody(headId: string)
    ensures |Tiles(headId, 2880, 2000)| == 59
  {
    assert Columns(2880) == 10;
    forall b | 1 <= b <= 59 ensures Fits(b, 10, 2880, 2000) {
      assert b % 10 <= 9 && b / 10 <= 5;
    }
    FitsNoFailure(headId, 59, 10, 2880, 2000);
    TilesContiguous(headId, 59, 10, 2880, 2000);
    assert CellPosition(60, 10) == Point(0, 1728);
    assert RunUpTo(headId, 60, 10, 2880, 2000).failed;
    FailedIsFinal(headId, 60, LastBody, 10, 2880, 2000);
  }

  /** With no columns nothing is extracted. */
  lemma {:induction false} NoColumnsNoTiles(headId: string, n: nat, width: nat, height: nat)
    ensures RunUpTo(headId, n, 0, width, height) == Run([], false)
    decreases n
  {
    if n > 0 {
      NoColumnsNoTiles(headId, n - 1, width, height);
    }
  }

  /** A sheet of width 0 yields no tile. */
  lemma EmptySheetYieldsNothing(headId: string, height: nat)
    ensures Tiles(headId, 0, height) == []
  {
    NoColumnsNoTiles(headId, LastBody, 0, height);
  }

  /** Different bodies are written to different files. */
  lemma TileOutputsDistinct(headId: string, b1: nat, b2: nat, columns: nat)
    requires columns > 0 && b1 != b2
    ensures TileFor(headId, b1, columns).outputPath != TileFor(headId, b2, columns).outputPath
  {
    NumberedNameInjective(headId + ".", b1, b2, ".png");
  }

  /** No two tiles of one sheet overwrite each other's file. */
  lemma TilesOutputsDistinct(headId: string, width: nat, height: nat, i: nat, j: nat)
    requires i < j < |Tiles(headId, width, height)|
    ensures Tiles(headId, width, height)[i].outputPath != Tiles(headId, width, height)[j].outputPath
  {
    var ts := Tiles(headId, width, height);
    TilesContiguous(headId, LastBody, Columns(width), width, height);
    assert Placed(ts[i], i + 1, headId, Columns(width), width, height);
    assert Placed(ts[j], j + 1, headId, Columns(width), width, height);
    TileOutputsDistinct(headId, i + 1, j + 1, Columns(width));
  }

  /** The loop of `processSheet`, with the `try` around it: an extract that fails leaves
      the loop. */
  method ProcessSheet(headId: string, width: nat, height: nat) returns (tiles: seq<Tile>)
    ensures tiles == Tiles(headId, width, height)
    ensures forall i :: 0 <= i < |tiles| ==>
              tiles[i].bodyId == i + 1
              && tiles[i].corner.x + SpriteSize <= width && tiles[i].corner.y + SpriteSize <= height
  {
    var columns := Columns(width);
    tiles := [];
    var failed := false;
    var bodyId := 1;
    while bodyId <= LastBody && !failed
      invariant 1 <= bodyId <= LastBody + 1
      invariant Run(tiles, failed) == RunUpTo(headId, bodyId - 1, columns, width, height)
    {
      ghost var next := RunUpTo(headId, bodyId, columns, width, height);
      if columns > 0 {
        var p := CellPosition(bodyId, columns);
        if p.y < height {
          if p.x + SpriteSize <= width && p.y + SpriteSize <= height {
            tiles := tiles + [Tile(bodyId, p, FilePath([OutputAutogen, headId], headId + "." + NatToString(bodyId) + ".png"))];
          } else {
            failed := true;
          }
        }
      }
      assert next == Run(tiles, failed);
      bodyId := bodyId + 1;
    }
    if failed {
      FailedIsFinal(headId, bodyId - 1, LastBody, columns, width, height);
    }
    TilesContiguous(headId, LastBody, columns, width, height);
    forall i | 0 <= i < |tiles| ensures tiles[i].bodyId == i + 1 {
      assert Placed(tiles[i], i + 1, headId, columns, width, height);
    }
  }

  /** On a sheet at least ten tiles wide, every tile sits where `scripts/main.js` cuts the
      same body and carries the same file name. */
  lemma WideSheetAgreesWithMainScript(headId: string, width: nat, height: nat, i: nat)
    requires width > (ColumnsAutogen - 1) * SpriteSize
    requires i < |Tiles(headId, width, height)|
    ensures Tiles(headId, width, height)[i].corner
         == MainScript.GetPosition(MainScript.ProcessSpriteId(MainScript.AutogenTile(headId, NatToString(i + 1)))).corner
    ensures Tiles(headId, width, height)[i].outputPath.name
         == MainScript.ProcessSpriteId(MainScript.AutogenTile(headId, NatToString(i + 1))).outputPath.name
  {
    TilesContiguous(headId, LastBody, Columns(width), width, height);
    assert Placed(Tiles(headId, width, height)[i], i + 1, headId, Columns(width), width, height);
    MainScript.AutogenJobPlacement(headId, i);
  }
}

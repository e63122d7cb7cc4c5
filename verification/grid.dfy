/** Spritesheet grid arithmetic shared by the three scripts: square tiles of 288 units,
    filled row by row, with JavaScript's truncating `%` and `Math.floor` of the quotient. */
module Grid {

  /** `SPRITE_SIZE`: the side of one tile. */
  const SpriteSize: nat := 288

  /** Column counts `COLUMNS_BASE`, `COLUMNS_CUSTOM` and `COLUMNS_AUTOGEN`. */
  const ColumnsBase: nat := 10
  const ColumnsCustom: nat := 20
  const ColumnsAutogen: nat := 10

  /** The top-left corner of a tile. */
  datatype Point = Point(x: int, y: int)

  /** JavaScript's `a % b` for a positive divisor: the sign follows the dividend. */
  function JsRemainder(a: int, b: int): (r: int)
    requires b > 0
    ensures a >= 0 ==> r == a % b
    ensures -b < r < b
    ensures a == (if a >= 0 then a / b else -((-a) / b)) * b + r
  {
    if a >= 0 then a % b else -((-a) % b)
  }

  /** The corner of cell `index` in a grid of `columns` columns:
      `x = (index % columns) * 288`, `y = Math.floor(index / columns) * 288`.
      For a cell index that is not negative, the corner lies in the grid's width, both
      coordinates are whole tiles, and the cell index can be read back from the corner. */
  function CellPosition(index: int, columns: nat): (p: Point)
    requires columns > 0
    ensures p.x % SpriteSize == 0 && p.y % SpriteSize == 0
    ensures index >= 0 ==> 0 <= p.x < columns * SpriteSize && 0 <= p.y
    ensures index >= 0 ==> CellIndex(p, columns) == index
  {
    Point(JsRemainder(index, columns) * SpriteSize, (index / columns) * SpriteSize)
  }

  /** The cell a corner belongs to: row times columns plus column. */
  function CellIndex(p: Point, columns: nat): int {
    (p.y / SpriteSize) * columns + p.x / SpriteSize
  }

  /** Distinct non-negative cells have distinct corners. */
  lemma CellPositionInjective(i: nat, j: nat, columns: nat)
    requires columns > 0
    requires CellPosition(i, columns) == CellPosition(j, columns)
    ensures i == j
  {
    assert CellIndex(CellPosition(i, columns), columns) == i;
  }

  /** The row only grows with the cell index. */
  lemma RowMonotone(i: nat, j: nat, columns: nat)
    requires columns > 0 && i <= j
    ensures CellPosition(i, columns).y <= CellPosition(j, columns).y
  {
    var d := i / columns - j / columns;
    assert columns * d == (i - i % columns) - (j - j % columns);
    if d >= 1 {
      MulAtLeast(columns, d);
    }
  }

  lemma MulAtLeast(c: nat, x: int)
    requires x >= 1
    ensures c * x >= c
  {
    assert c * x == c * (x - 1) + c;
  }
}

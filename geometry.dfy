/** Grid geometry of the text renderer: a canvas of `height` x `width` pixels
    divided into square cells of `FontSize` pixels. Row and column counts are
    real-valued and never floored, exactly as the renderer computes them. */
module Geometry {

  import opened Random

  /** Pixel edge of one glyph cell (the renderer's font size). */
  const FontSize: nat := 24

  /** Number of rows, `height / 24`, as a real number. */
  function RowCount(height: nat): real
  {
    height as real / FontSize as real
  }

  /** Number of columns, `width / 24`, as a real number. */
  function ColumnCount(width: nat): real
  {
    width as real / FontSize as real
  }

  /** `floor(r * column_count)`: the column a random draw `r` selects. */
  function RandomColumn(width: nat, r: real): int
  {
    (r * ColumnCount(width)).Floor
  }

  /** A column that lies on the canvas: an integer in [0, column_count). */
  predicate IsValidColumn(width: nat, x: int)
  {
    0 <= x && (x as real) < ColumnCount(width)
  }

  /** The strict bottom test: a row is past the bottom when it exceeds `row_count`. */
  predicate ReachedBottom(height: nat, row: int)
  {
    (row as real) > RowCount(height)
  }

  /** The real-valued bottom test agrees with the integer test `row * 24 > height`. */
  lemma ReachedBottomIff(height: nat, row: int)
    ensures ReachedBottom(height, row) <==> row * FontSize > height
  {
    var h := height as real;
    assert RowCount(height) * 24.0 == h;
    assert (row * FontSize) as real == (row as real) * 24.0;
  }

  /** A column is valid exactly when it is a cell index that starts inside the
      canvas, `0 <= x` and `x * 24 < width`. */
  lemma ValidColumnIff(width: nat, x: int)
    ensures IsValidColumn(width, x) <==> 0 <= x && x * FontSize < width
  {
    assert ColumnCount(width) * 24.0 == width as real;
    assert (x * FontSize) as real == (x as real) * 24.0;
  }

  /** Every draw in [0, 1) selects a valid column as soon as the canvas has
      any width at all (in particular whenever `width >= 24`). */
  lemma RandomColumnValid(width: nat, r: real)
    requires IsUnitDraw(r)
    requires width > 0
    ensures IsValidColumn(width, RandomColumn(width, r))
    ensures 0 <= RandomColumn(width, r) && RandomColumn(width, r) * FontSize < width
  {
    var cc := ColumnCount(width);
    assert cc > 0.0;
    assert 0.0 <= r * cc by { MulNonNegative(r, cc); }
    assert r * cc < cc by { MulBelowOne(r, cc); }
    ValidColumnIff(width, RandomColumn(width, r));
  }

  /** With no width the column count is 0 and no column is valid, which is
      why `RandomColumnValid` needs a positive width. */
  lemma NoValidColumnOnEmptyCanvas(x: int)
    ensures !IsValidColumn(0, x)
  {
  }

  lemma MulNonNegative(a: real, b: real)
    requires 0.0 <= a && 0.0 <= b
    ensures 0.0 <= a * b
  {
  }

  lemma MulBelowOne(r: real, c: real)
    requires 0.0 <= r < 1.0 && c > 0.0
    ensures r * c < c
  {
    assert c - r * c == (1.0 - r) * c;
  }

  /** When the height is a whole number of rows, the last row `row_count` is
      not yet past the bottom and the next one is: the boundary is strict. */
  lemma BottomBoundary(height: nat)
    requires height % FontSize == 0
    ensures !ReachedBottom(height, height / FontSize)
    ensures ReachedBottom(height, height / FontSize + 1)
  {
    ReachedBottomIff(height, height / FontSize);
    ReachedBottomIff(height, height / FontSize + 1);
  }

  /** A 256-pixel canvas has 10.67 rows: row 10 is still on it, row 11 is past it. */
  lemma BottomOf256()
    ensures RowCount(256) == 256.0 / 24.0
    ensures !ReachedBottom(256, 10) && ReachedBottom(256, 11)
  {
    ReachedBottomIff(256, 10);
    ReachedBottomIff(256, 11);
  }
}

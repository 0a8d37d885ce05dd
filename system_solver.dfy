/**
 * The earlier copy of the matrix reader kept in system_solver.cpp. Its `Matrix`
 * constructor, `index` and `get_field` repeat those of matrix.cpp word for word
 * and are modelled once, by `DenseMatrix.Matrix`. Its reader differs from
 * matrix.cpp's: after the `width` values of each row it clears the stream's
 * error state and discards the rest of that input line, so each row is read
 * from a line of its own.
 *
 * The input is modelled as lines: `lines[y]` is the sequence of values on the
 * line that row `y` reads.
 */
module LegacyMatrixCreator {
  import opened Wrappers
  import opened DenseMatrix

  /** Every line that a row is read from holds at least `width` values. */
  predicate LinesFit(lines: seq<seq<real>>, width: int, rows: int) {
    rows <= |lines| && forall y :: 0 <= y < rows ==> |lines[y]| >= width
  }

  /** The first `width` values of each of the lines `0 .. rows-1`, laid end to end. */
  function KeptValues(lines: seq<seq<real>>, width: nat, rows: nat): (kept: seq<real>)
    requires LinesFit(lines, width, rows)
    ensures |kept| == width * rows
  {
    if rows == 0 then [] else KeptValues(lines, width, rows - 1) + lines[rows - 1][..width]
  }

  /** The values of all lines, laid end to end: the stream as a reader that ignores line breaks sees it. */
  function Flatten(lines: seq<seq<real>>): (flat: seq<real>) {
    if lines == [] then [] else Flatten(lines[..|lines| - 1]) + lines[|lines| - 1]
  }

  /** The value kept at position `y * width + x` is the `x`-th value on line `y`. */
  lemma {:induction false} KeptCell(lines: seq<seq<real>>, width: nat, rows: nat, x: int, y: int)
    requires LinesFit(lines, width, rows)
    requires 0 <= x < width && 0 <= y < rows
    ensures 0 <= y * width + x < |KeptValues(lines, width, rows)|
    ensures KeptValues(lines, width, rows)[y * width + x] == lines[y][x]
  {
    var prefix := KeptValues(lines, width, rows - 1);
    assert |prefix| == width * (rows - 1);
    if y < rows - 1 {
      KeptCell(lines, width, rows - 1, x, y);
    } else {
      assert y * width + x == |prefix| + x;
    }
  }

  /**
   * When every line holds exactly `width` values, discarding the rest of each
   * line discards nothing: the cells kept are the whole stream of values, as
   * matrix.cpp's reader would store them.
   */
  lemma {:induction false} ExactLinesKeepEverything(lines: seq<seq<real>>, width: nat, rows: nat)
    requires rows <= |lines| && forall y :: 0 <= y < rows ==> |lines[y]| == width
    ensures KeptValues(lines, width, rows) == Flatten(lines[..rows])
  {
    if rows > 0 {
      ExactLinesKeepEverything(lines, width, rows - 1);
      assert lines[..rows][..rows - 1] == lines[..rows - 1];
      assert lines[rows - 1][..width] == lines[rows - 1];
    }
  }

  /**
   * A surplus value on a line is where the two readers part: with lines
   * `[1, 2, 9]` and `[3, 4]` and a 2 x 2 matrix, this reader keeps `1, 2, 3, 4`
   * while a reader that ignores line breaks stores `1, 2, 9, 3`.
   */
  lemma SurplusValueIsDiscarded()
    ensures KeptValues([[1.0, 2.0, 9.0], [3.0, 4.0]], 2, 2) == [1.0, 2.0, 3.0, 4.0]
    ensures Flatten([[1.0, 2.0, 9.0], [3.0, 4.0]])[..4] == [1.0, 2.0, 9.0, 3.0]
  {
    var lines := [[1.0, 2.0, 9.0], [3.0, 4.0]];
    assert KeptValues(lines, 2, 1) == [1.0, 2.0];
    assert lines[..1] == [[1.0, 2.0, 9.0]];
    assert Flatten(lines[..1][..0]) == [];
    assert Flatten(lines[..1]) == [1.0, 2.0, 9.0];
  }

  /**
   * `parse_from_cmd_line` of system_solver.cpp: reads the width and the height,
   * then, for each row, `width` values from that row's line.
   */
  method ParseFromCmdLine(width: int, height: int, lines: seq<seq<real>>) returns (r: Result<Matrix, ParseError>)
    requires LinesFit(lines, width, height)
    ensures r.Err? <==> width * height < 0
    ensures r.Err? ==> r.error == BadArrayNewLength
    ensures r.Ok? ==> fresh(r.value) && r.value.Valid() && r.value.width == width && r.value.height == height
    ensures r.Ok? && width >= 0 && height >= 0 ==> r.value.data[..] == KeptValues(lines, width, height)
  {
    var alloc := NewMatrix(width, height);
    if alloc.Err? {
      return Err(alloc.error);
    }
    var matrix := alloc.value;
    if height > 0 {
      matrix.WidthNonNegative();
    }
    var y := 0;
    while y < height
      invariant 0 <= y && (height >= 0 ==> y <= height)
      invariant height > 0 ==> width >= 0
      invariant height > 0 ==> width * y <= matrix.data.Length
      invariant height > 0 ==> matrix.data[..width * y] == KeptValues(lines, width, y)
    {
      var x := 0;
      while x < width
        invariant 0 <= x <= width
        invariant width * y + x <= matrix.data.Length
        invariant matrix.data[..width * y + x] == KeptValues(lines, width, y) + lines[y][..x]
      {
        matrix.IndexInBounds(x, y);
        assert matrix.Index(x, y) == width * y + x;
        matrix.data[matrix.Index(x, y)] := lines[y][x];
        assert lines[y][..x + 1] == lines[y][..x] + [lines[y][x]];
        x := x + 1;
      }
      // the stream's error state is cleared and the rest of line `y` is discarded
      assert width * y + width == width * (y + 1);
      y := y + 1;
    }
    if width >= 0 && height > 0 {
      assert matrix.data[..width * height] == matrix.data[..];
    }
    return Ok(matrix);
  }

  /** In a matrix read this way, the cell in column `x`, row `y` is the `x`-th value on line `y`. */
  lemma ParsedCell(m: Matrix, lines: seq<seq<real>>, x: int, y: int)
    requires m.Valid() && m.width >= 0 && m.height >= 0 && LinesFit(lines, m.width, m.height)
    requires m.data[..] == KeptValues(lines, m.width, m.height)
    requires m.InBounds(x, y)
    ensures m.GetField(x, y) == lines[y][x]
  {
    KeptCell(lines, m.width, m.height, x, y);
    m.IndexInBounds(x, y);
    assert m.Index(x, y) == y * m.width + x;
  }
}

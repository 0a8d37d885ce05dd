/**
 * Dense matrix storage of matrix.cpp: a `width` x `height` grid of cells kept in
 * one flat buffer of `width * height` cells, addressed row-major as
 * `x + width * y`, together with the two readers of `MatrixCreator`.
 *
 * A cell holds a `double` in the source; cells are only copied, never computed
 * on, so they are modelled as `real`.
 */
module DenseMatrix {
  import opened Wrappers

  /** Multiplication by a non-negative factor is monotonic. */
  lemma MulMonotonic(a: int, b: int, c: int)
    requires 0 <= a && b <= c
    ensures a * b <= a * c
  {
    assert a * c - a * b == a * (c - b);
  }

  /** A row-major position decodes back to its column and row by `%` and `/`. */
  lemma RowMajorDecode(x: int, w: int, y: int)
    requires 0 <= x < w
    ensures (x + w * y) % w == x && (x + w * y) / w == y
  {
    var i := x + w * y;
    var q, r := i / w, i % w;
    assert w * q + r == i && 0 <= r < w;
    assert w * (y - q) == r - x;
    if y < q {
      MulMonotonic(w, 1, q - y);
      assert false;
    } else if q < y {
      MulMonotonic(w, 1, y - q);
      assert false;
    }
  }

  class Matrix {
    const width: int
    const height: int
    const data: array<real>

    /** The buffer holds exactly `width * height` cells. */
    predicate Valid() {
      data.Length == width * height
    }

    /** Success path of `Matrix(width, height)`: see `NewMatrix` for the failing one. */
    constructor (width: int, height: int)
      requires width * height >= 0
      ensures this.width == width && this.height == height
      ensures Valid() && fresh(data)
    {
      this.width := width;
      this.height := height;
      data := new real[width * height];
    }

    /** (x, y) is a cell of the grid. */
    predicate InBounds(x: int, y: int) {
      0 <= x < width && 0 <= y < height
    }

    /** Buffer position of the cell in column `x`, row `y`. */
    function Index(x: int, y: int): (i: int)
      ensures 0 <= x < width ==> i % width == x && i / width == y
    {
      if 0 <= x < width then (RowMajorDecode(x, width, y); x + width * y) else x + width * y
    }

    /** A grid with at least one row has a non-negative width. */
    lemma WidthNonNegative()
      requires Valid() && height > 0
      ensures width >= 0
    {
      if width < 0 {
        MulMonotonic(height, width, -1);
      }
    }

    /** A grid with at least one column has a non-negative height. */
    lemma HeightNonNegative()
      requires Valid() && width > 0
      ensures height >= 0
    {
      if height < 0 {
        MulMonotonic(width, height, -1);
      }
    }

    /** Every cell of the grid is addressed inside the buffer. */
    lemma IndexInBounds(x: int, y: int)
      requires Valid() && InBounds(x, y)
      ensures 0 <= Index(x, y) < data.Length
    {
      WidthNonNegative();
      MulMonotonic(width, 0, y);
      MulMonotonic(width, y, height - 1);
      assert width * (height - 1) == width * height - width;
    }

    /** Distinct cells of the grid have distinct buffer positions. */
    lemma IndexInjective(x1: int, y1: int, x2: int, y2: int)
      requires InBounds(x1, y1) && InBounds(x2, y2)
      requires Index(x1, y1) == Index(x2, y2)
      ensures x1 == x2 && y1 == y2
    {
      assert x1 - x2 == width * (y2 - y1);
      if y1 < y2 {
        MulMonotonic(width, 1, y2 - y1);
        assert false;
      } else if y2 < y1 {
        MulMonotonic(width, 1, y1 - y2);
        assert false;
      }
    }

    /** Every buffer position is the position of some cell of the grid. */
    lemma IndexCovers(i: int)
      requires Valid() && width >= 0 && 0 <= i < data.Length
      ensures width > 0 && InBounds(i % width, i / width)
      ensures Index(i % width, i / width) == i
    {
      if width == 0 {
        assert false;
      }
      var x, y := i % width, i / width;
      assert i == width * y + x;
      if y >= height {
        MulMonotonic(width, height, y);
        assert false;
      }
    }

    /** `get_field`: the value of the cell in column `x`, row `y`. */
    function GetField(x: int, y: int): (v: real)
      reads data
      requires Valid() && InBounds(x, y)
      ensures 0 <= y * width + x < data.Length && v == data[y * width + x]
    {
      IndexInBounds(x, y);
      data[Index(x, y)]
    }

    /**
     * Reading cell `(i % width, i / width)` returns buffer cell `i`: together with
     * `IndexInjective`, every buffer cell is read at exactly one cell of the grid.
     */
    lemma GetFieldReadsBuffer(i: int)
      requires Valid() && width >= 0 && 0 <= i < data.Length
      ensures width > 0 && InBounds(i % width, i / width)
      ensures GetField(i % width, i / width) == data[i]
    {
      IndexCovers(i);
    }

    /** Row `y` occupies the buffer positions `y * width` up to `y * width + width`. */
    lemma RowInBounds(y: int)
      requires Valid() && 0 <= y < height
      ensures 0 <= width && 0 <= width * y && width * y + width <= data.Length
    {
      WidthNonNegative();
      MulMonotonic(width, 0, y);
      MulMonotonic(width, y + 1, height);
    }

    /** `get_row`: the cells of row `y`, left to right. */
    method GetRow(y: int) returns (row: seq<real>)
      requires Valid() && (width == 0 || 0 <= y < height)
      ensures |row| == width
      ensures forall x :: 0 <= x < width ==> row[x] == GetField(x, y)
      ensures 0 <= width * y && width * y + width <= data.Length
      ensures row == data[width * y .. width * y + width]
    {
      if width == 0 {
        return [];
      }
      RowInBounds(y);
      var start := width * y;
      row := [];
      var x := 0;
      while x < width
        invariant 0 <= x <= width
        invariant row == data[start .. start + x]
      {
        assert GetField(x, y) == data[start + x];
        row := row + [GetField(x, y)];
        x := x + 1;
      }
    }

    /** `get_column`: the cells of column `x`, top to bottom. */
    method GetColumn(x: int) returns (column: seq<real>)
      requires Valid() && (height == 0 || 0 <= x < width)
      ensures |column| == height
      ensures forall y :: 0 <= y < height ==> column[y] == GetField(x, y)
    {
      if height == 0 {
        return [];
      }
      HeightNonNegative();
      column := [];
      var y := 0;
      while y < height
        invariant 0 <= y <= height
        invariant |column| == y
        invariant forall k :: 0 <= k < y ==> column[k] == GetField(x, k)
      {
        column := column + [GetField(x, y)];
        y := y + 1;
      }
    }

    /** The rows `0 .. k-1`, concatenated top to bottom. */
    ghost function RowsUpTo(k: int): seq<real>
      reads data
      requires Valid() && 0 <= k <= height
      decreases k
    {
      if k == 0 then [] else (RowInBounds(k - 1); RowsUpTo(k - 1) + data[width * (k - 1) .. width * (k - 1) + width])
    }

    /** Row-major layout: the rows, laid end to end, are exactly the buffer. */
    lemma {:induction false} RowsTileBuffer(k: int)
      requires Valid() && 0 <= k <= height
      ensures k > 0 ==> RowsUpTo(k) == data[..width * k]
      ensures k == height && height > 0 ==> RowsUpTo(k) == data[..]
    {
      if k > 0 {
        RowInBounds(k - 1);
        if k > 1 {
          RowsTileBuffer(k - 1);
        } else {
          assert RowsUpTo(0) == [];
        }
        assert width * (k - 1) + width == width * k;
        if k == height {
          assert data[..width * k] == data[..];
        }
      }
    }
  }

  /** Errors the readers raise. */
  datatype ParseError =
    | DomainError(message: string)  // `std::domain_error` thrown by `parse_from_txt_file`
    | BadArrayNewLength             // `new double[n]` with a negative `n`

  const LoadFailedMessage: string := "Failed to load matrix from file."

  /**
   * `Matrix matrix(width, height)`, including its failure: the buffer of
   * `width * height` cells cannot be allocated when that product is negative.
   */
  method NewMatrix(width: int, height: int) returns (r: Result<Matrix, ParseError>)
    ensures r.Err? <==> width * height < 0
    ensures r.Err? ==> r.error == BadArrayNewLength
    ensures r.Ok? ==> r.value.Valid() && r.value.width == width && r.value.height == height
    ensures r.Ok? ==> fresh(r.value) && fresh(r.value.data)
  {
    if width * height < 0 {
      return Err(BadArrayNewLength);
    }
    var m := new Matrix(width, height);
    return Ok(m);
  }

  /**
   * Number of cells the nested fill loops write: `width * height` when both
   * dimensions are non-negative, and none otherwise (one loop never runs, even
   * when the product of two negative dimensions allocated a buffer).
   */
  function CellsWritten(width: int, height: int): nat {
    if width >= 0 && height >= 0 then width * height else 0
  }

  /** The matrix has the dimensions read and its cells hold `values` in row-major order. */
  ghost predicate FilledFrom(m: Matrix, width: int, height: int, values: seq<real>)
    reads m.data
  {
    var n := CellsWritten(width, height);
    && m.Valid() && m.width == width && m.height == height
    && n <= |values| && n <= m.data.Length
    && m.data[..n] == values[..n]
  }

  /** In a filled matrix, the cell in column `x`, row `y` holds the `(y * width + x)`-th value read. */
  lemma FilledCell(m: Matrix, width: int, height: int, values: seq<real>, x: int, y: int)
    requires FilledFrom(m, width, height, values) && m.InBounds(x, y)
    ensures 0 <= y * width + x < |values|
    ensures m.GetField(x, y) == values[y * width + x]
  {
    m.IndexInBounds(x, y);
    m.WidthNonNegative();
    assert m.Index(x, y) == y * width + x;
    assert m.data[..CellsWritten(width, height)][m.Index(x, y)] == m.data[m.Index(x, y)];
  }

  /**
   * The fill loop of both readers: for each row `y`, for each column `x`, the
   * next value read from the stream is stored at `index(x, y)`. `values[k]` is
   * the value the `k`-th extraction yields. The ghost result lists the buffer
   * positions in the order they are written.
   */
  method ReadCells(m: Matrix, values: seq<real>) returns (ghost written: seq<int>)
    requires m.Valid()
    requires |values| >= CellsWritten(m.width, m.height)
    modifies m.data
    ensures FilledFrom(m, m.width, m.height, values)
    ensures m.data[CellsWritten(m.width, m.height)..] == old(m.data[CellsWritten(m.width, m.height)..])
    ensures written == seq(CellsWritten(m.width, m.height), i => i)
  {
    if m.height > 0 {
      m.WidthNonNegative();
    }
    ghost var n := CellsWritten(m.width, m.height);
    if m.width >= 0 && m.height >= 0 {
      MulMonotonic(m.width, 0, m.height);
    }
    var next := 0;  // number of values consumed so far
    written := [];
    var y := 0;
    while y < m.height
      invariant 0 <= y && (m.height >= 0 ==> y <= m.height)
      invariant m.height > 0 ==> m.width >= 0
      invariant next == m.width * y && 0 <= next <= n
      invariant m.data[..next] == values[..next]
      invariant m.data[next..] == old(m.data[next..])
      invariant written == seq(next, i => i)
    {
      var x := 0;
      while x < m.width
        invariant 0 <= x <= m.width
        invariant next == m.width * y + x && next <= n
        invariant m.data[..next] == values[..next]
        invariant m.data[next..] == old(m.data[next..])
        invariant written == seq(next, i => i)
      {
        m.IndexInBounds(x, y);
        assert next == m.Index(x, y) < n;
        var d := values[next];
        m.data[m.Index(x, y)] := d;
        written := written + [m.Index(x, y)];
        next := next + 1;
        x := x + 1;
      }
      MulMonotonic(m.width, y + 1, m.height);
      y := y + 1;
    }
    assert next == n;
  }

  /**
   * `parse_from_cmd_line`: reads the width, then the height, then the cells row by
   * row. `width` and `height` are the two integers read; `values` the cells read.
   */
  method ParseFromCmdLine(width: int, height: int, values: seq<real>)
    returns (r: Result<Matrix, ParseError>, ghost written: seq<int>)
    requires |values| >= CellsWritten(width, height)
    ensures r.Err? <==> width * height < 0
    ensures r.Err? ==> r.error == BadArrayNewLength && written == []
    ensures r.Ok? ==> fresh(r.value) && FilledFrom(r.value, width, height, values)
    ensures r.Ok? ==> written == seq(CellsWritten(width, height), i => i)
  {
    written := [];
    var alloc := NewMatrix(width, height);
    if alloc.Err? {
      return Err(alloc.error), written;
    }
    var matrix := alloc.value;
    written := ReadCells(matrix, values);
    return Ok(matrix), written;
  }

  /**
   * `parse_from_txt_file`: `header` is the width and height read from the first
   * line, or `None` when the file or that line could not be read as two integers;
   * `values` are the cells read from the following lines.
   */
  method ParseFromTxtFile(header: Option<(int, int)>, values: seq<real>)
    returns (r: Result<Matrix, ParseError>, ghost written: seq<int>)
    requires header.Some? ==> |values| >= CellsWritten(header.value.0, header.value.1)
    ensures header.None? ==> r == Err(DomainError(LoadFailedMessage))
    ensures header.Some? ==> (r.Err? <==> header.value.0 * header.value.1 < 0)
    ensures header.Some? && r.Err? ==> r.error == BadArrayNewLength
    ensures r.Err? ==> written == []
    ensures r.Ok? ==> header.Some? && fresh(r.value) && FilledFrom(r.value, header.value.0, header.value.1, values)
    ensures r.Ok? ==> written == seq(CellsWritten(header.value.0, header.value.1), i => i)
  {
    written := [];
    if header.None? {
      return Err(DomainError(LoadFailedMessage)), written;
    }
    var (width, height) := header.value;
    var alloc := NewMatrix(width, height);
    if alloc.Err? {
      return Err(alloc.error), written;
    }
    var matrix := alloc.value;
    written := ReadCells(matrix, values);
    return Ok(matrix), written;
  }
}

# Linear system solver: matrix storage, matrix readers and command interpreter

This project models the parts of the linear-system-solver program that hold
logic: the dense matrix that stores an augmented linear system, the readers
that fill it from the user's input, and the command interpreter that turns a
typed line into a command.

- `matrix.dfy`, module `DenseMatrix` (matrix.cpp). `Matrix` is a `width` x
  `height` grid of cells. The cells live in one flat buffer of `width * height`
  cells, and cell `(x, y)` sits at position `x + width * y` (row-major). The
  class keeps the source's `int` dimensions and a buffer `array<real>`. A cell
  is a `double` in the source. It is a `real` here, because cells are only
  copied. The lemmas about the buffer state three facts: every cell lies
  inside the buffer, distinct cells get distinct positions, and every position
  belongs to a cell. `GetRow` and `GetColumn` are the append loops of
  `get_row` and `get_column`. `NewMatrix` is `Matrix matrix(width, height)`,
  failure included: `new double[n]` throws `std::bad_array_new_length` when
  `n < 0`. `ReadCells` is the nested fill loop that both readers run.
  `ParseFromCmdLine` and `ParseFromTxtFile` are the two readers. The values
  that the stream extractions yield are passed in as a sequence, in the order
  they are read.
- `system_solver.dfy`, module `LegacyMatrixCreator` (system_solver.cpp). This
  file holds an earlier copy of the matrix code. Its constructor, `index` and
  `get_field` are the same, word for word, as matrix.cpp's, so they are
  modelled once, by `DenseMatrix.Matrix`. Its reader is different: after each
  row it clears the stream's error state and discards the rest of the input
  line. So each row reads the first `width` values of a line of its own. The
  input is modelled as lines of values. The lemmas state: which value each
  cell keeps; that the reader agrees with one that ignores line breaks when
  every line holds exactly `width` values; and, on a concrete input, that the
  two readers disagree once a line carries a surplus value.
- `command.dfy`, module `Commands` (command.hpp, command.cpp). It models the
  `Command` enumeration, the alias table `command_list` and the help table
  `command_descriptions`. It models the two lookups, which return
  `UNKNOWN` or `""` when the key is missing. It models `get_command`:
  `std::ws` skips the leading whitespace, with blank lines, and `getline`
  reads up to the next line break. The line is then looked up exactly as typed.
- `wrappers.dfy`, module `Wrappers`: the `Option` and `Result` types that the
  readers use for a header that could not be read and for thrown exceptions.

The matrix dimensions are read with the source's `int` type. Their product
decides what happens:

- A negative product is the `std::bad_array_new_length` case.
- Two negative dimensions give a positive product. The buffer is then
  allocated, but neither fill loop runs, so no cell is written.
  `DenseMatrix.CellsWritten` states this case as written. The readers promise
  only that the first `CellsWritten(width, height)` cells hold the values
  read.

## Model

| member | source | states |
|---|---|---|
| `DenseMatrix.Matrix.constructor` | matrix.cpp:11-13 | the new matrix keeps the given width and height and owns a fresh buffer of exactly `width * height` cells |
| `DenseMatrix.NewMatrix` | matrix.cpp:11-13 | building a matrix fails with `BadArrayNewLength` exactly when `width * height` is negative; otherwise it gives a fresh matrix with those dimensions and a buffer of `width * height` cells |
| `DenseMatrix.Matrix.Index` | matrix.cpp:15-17 | for a column `0 <= x < width`, `index(x, y)` decodes back to `x` by `% width` and to `y` by `/ width` (row-major position) |
| `DenseMatrix.Matrix.IndexInBounds` | matrix.cpp:15-17 | for `0 <= x < width` and `0 <= y < height`, `index(x, y)` is a position of the `width * height` buffer |
| `DenseMatrix.Matrix.IndexInjective` | matrix.cpp:15-17 | two cells of the grid with the same `index` are the same cell |
| `DenseMatrix.Matrix.IndexCovers` | matrix.cpp:11-17 | for `width >= 0`, every buffer position `i` is `index(i % width, i / width)` of a cell inside the grid, so the allocated buffer is covered exactly by the grid's cells |
| `DenseMatrix.Matrix.WidthNonNegative` | matrix.cpp:11-12 | a matrix whose buffer size is `width * height` and that has at least one row has a non-negative width |
| `DenseMatrix.Matrix.HeightNonNegative` | matrix.cpp:11-12 | a matrix whose buffer size is `width * height` and that has at least one column has a non-negative height |
| `DenseMatrix.Matrix.GetField` | matrix.cpp:19-21 | for a cell inside the grid, `get_field(x, y)` is buffer cell `y * width + x`, which lies inside the buffer |
| `DenseMatrix.Matrix.GetFieldReadsBuffer` | matrix.cpp:19-21 | `get_field` at cell `(i % width, i / width)` returns buffer cell `i`, for every buffer position |
| `DenseMatrix.Matrix.RowInBounds` | matrix.cpp:23-30 | row `y` occupies buffer positions `width * y` up to `width * y + width`, all inside the buffer |
| `DenseMatrix.Matrix.GetRow` | matrix.cpp:23-30 | for a row `0 <= y < height`, or any `y` when `width == 0`: the row has `width` elements, its `x`-th is `get_field(x, y)`, and it is the buffer slice from `width * y` to `width * y + width` |
| `DenseMatrix.Matrix.GetColumn` | matrix.cpp:32-39 | for a column `0 <= x < width`, or any `x` when `height == 0`: the column has `height` elements and its `y`-th is `get_field(x, y)` |
| `DenseMatrix.Matrix.RowsTileBuffer` | matrix.cpp:23-30 | the rows `0 .. height-1`, laid end to end, are exactly the buffer (row-major layout) |
| `DenseMatrix.ReadCells` | matrix.cpp:65-72 | after the nested `y`/`x` loops, the first `CellsWritten` buffer cells equal the values read, in read order; every later cell is unchanged; the positions written are `0, 1, ...` in order, each exactly once |
| `DenseMatrix.FilledCell` | matrix.cpp:93-101 | in a filled matrix, `get_field(x, y)` is the `(y * width + x)`-th value read |
| `DenseMatrix.ParseFromCmdLine` | matrix.cpp:55-75 | fails with `BadArrayNewLength` exactly when `width * height < 0`; otherwise returns a fresh matrix of the dimensions read, whose cells hold the values read in row-major order, and the positions written are `0, 1, ...`, each exactly once |
| `DenseMatrix.ParseFromTxtFile` | matrix.cpp:77-104 | fails with the domain error "Failed to load matrix from file." when the header's width and height cannot be read; otherwise behaves like the command-line reader on the header's dimensions, writing positions `0, 1, ...` each exactly once |
| `LegacyMatrixCreator.KeptValues` | system_solver.cpp:32-41 | the values kept from `rows` lines, `width` from each, number exactly `width * rows` |
| `LegacyMatrixCreator.KeptCell` | system_solver.cpp:32-38 | the value kept at position `y * width + x` is the `x`-th value on line `y` |
| `LegacyMatrixCreator.ExactLinesKeepEverything` | system_solver.cpp:39-40 | when every line holds exactly `width` values, discarding the rest of each line discards nothing: the cells kept are all values of those lines, in order |
| `LegacyMatrixCreator.SurplusValueIsDiscarded` | system_solver.cpp:39-40 | with lines `[1, 2, 9]` and `[3, 4]` and a 2 x 2 matrix, this reader keeps `1, 2, 3, 4`, while reading the same values without regard to lines stores `1, 2, 9, 3` |
| `LegacyMatrixCreator.ParseFromCmdLine` | system_solver.cpp:22-44 | fails with `BadArrayNewLength` exactly when `width * height < 0`; otherwise returns a fresh matrix of the dimensions read whose buffer is the first `width` values of each of the first `height` lines |
| `LegacyMatrixCreator.ParsedCell` | system_solver.cpp:32-38 | in a matrix read this way, `get_field(x, y)` is the `x`-th value on line `y` |
| `Commands.AllCommands` | command.hpp:14-20 | the command enumeration has exactly five distinct values |
| `Commands.AllCommandsComplete` | command.hpp:14-20 | every command is one of `QUIT`, `HELP`, `CMD_INPUT`, `TXT_INPUT`, `UNKNOWN` |
| `Commands.CommandList` | command.hpp:27-32 | the alias table's keys are exactly `"q"`, `"h"`, `"cmd"`, `"txt"`; no alias maps to `UNKNOWN`; distinct aliases map to distinct commands |
| `Commands.CommandDescriptions` | command.hpp:34-39 | the help table has an entry for every command except `UNKNOWN`, and every entry is non-empty |
| `Commands.StrToCommand` | command.cpp:29-35 | `"q"`, `"h"`, `"cmd"` and `"txt"`, and only they, give `QUIT`, `HELP`, `CMD_INPUT` and `TXT_INPUT`; every other string gives `UNKNOWN`, with no failure |
| `Commands.GetCommandHelp` | command.cpp:37-43 | returns the table's description when the command has one, and the result is `""` exactly for `UNKNOWN` |
| `Commands.AliasesAreDistinct` | command.hpp:27-32 | two strings that give the same known command are the same alias |
| `Commands.EveryCommandHasAlias` | command.hpp:27-32 | every command other than `UNKNOWN` is reached from some alias |
| `Commands.KnownAliasHasHelp` | command.cpp:29-43 | the command of every alias has a non-empty help text |
| `Commands.SkipWhitespace` | command.cpp:13 | what is left after `std::ws` is no longer than the input and is empty or starts with a non-whitespace character |
| `Commands.SkipWhitespaceIsSuffix` | command.cpp:13 | skipping whitespace leaves a suffix of the input |
| `Commands.SkippedAreSpaces` | command.cpp:13 | every character skipped is whitespace |
| `Commands.ReadLine` | command.cpp:15 | the line `std::getline` reads is a prefix of the input |
| `Commands.ReadLineIsFirstLine` | command.cpp:15 | the line read has no line break and ends at the input's end or just before its first line break |
| `Commands.ReadLineStopsAtBreak` | command.cpp:15 | for a line without a line break, reading `line + "\n" + rest`, or `line` alone, gives exactly `line` |
| `Commands.GetCommand` | command.cpp:11-17 | the command read is `UNKNOWN` exactly when the first line after leading whitespace is no alias, and always on an exhausted input |
| `Commands.LeadingWhitespaceIgnored` | command.cpp:13-16 | whitespace, blank lines included, in front of the input never changes the command read |
| `Commands.LineMatchedExactly` | command.cpp:13-16 | a line that does not start with whitespace gives the lookup of the whole line, whatever follows its line break |
| `Commands.AliasWithTrailingTextRejected` | command.cpp:13-16 | an alias followed by more characters on its line, a trailing space for one, gives `UNKNOWN` |
| `Commands.IndentedAliasRecognised` | command.cpp:13-16 | `"  q"` gives `QUIT` |
| `Commands.BlankLinesSkipped` | command.cpp:13-16 | `"\n\t h\nq"` gives `HELP`: blank lines are skipped and only the first non-blank line is read |
| `Commands.TrailingSpaceRejected` | command.cpp:13-16 | `"q "` gives `UNKNOWN` |
| `Commands.UpperCaseRejected` | command.cpp:13-16 | `"Q"` gives `UNKNOWN`: matching is case-sensitive |
| `Commands.EmptyInputRejected` | command.cpp:13-16 | an exhausted input reads as the empty line and gives `UNKNOWN` |

## Left out

- `SystemSolver::solve`, which command.cpp:53 calls, is not part of this model. No file here defines it, so there is no decomposition, rank analysis or back-substitution to model.
- Printing (`operator<<` at matrix.cpp:41-53, `print_help` at command.cpp:19-27, the prompts in the readers and in `get_command`) is output formatting only.
- `Commands.GetCommand`: models a healthy input stream. A stream already in a failed state, such as `std::cin` after a bad number in a matrix reader that never calls `clear()`, makes `std::ws` and `std::getline` read nothing, so `get_command` gives `UNKNOWN` whatever the input holds. That state is not modelled.
- `process_command` (command.cpp:45-66) and the loop in main.cpp only dispatch, print and catch exceptions. They are not modelled.
- `FileReader` (utils.cpp: directory listing, opening a file, the retry loop of `choose_file`) is file-system input and output. `ParseFromTxtFile` receives its outcome as the optional header.
- Stream input is abstracted. The readers receive the integers and values that the extractions yield, in order. A failed extraction and what it leaves in its target are not modelled.
- `DenseMatrix.ParseFromTxtFile`: its "the cells hold the values read" is true of the abstraction only, not of the text file. The file reader at matrix.cpp:93-101 appends every later line to the header's `stringstream` and reads on from it. After a header line such as `3 2` with nothing behind it, that stream is at its end. The append at matrix.cpp:95 then writes nothing, every extraction at matrix.cpp:98 fails, and the cells are left undefined. The same happens after any line whose last number is read at the stream's end. Only lines that end in whitespace keep the stream readable, and they are then appended without a line break between them. The stream states that make this happen are not modelled.
- `DenseMatrix.ParseFromCmdLine`, `DenseMatrix.ParseFromTxtFile`, `DenseMatrix.ReadCells`: require at least as many values as the loops read, since the value sequence stands for what the extractions yield.
- `LegacyMatrixCreator.ParseFromCmdLine`: requires every row's line to hold at least `width` values. A short line, where the extractions continue on the next line before `ignore` discards the rest of that one, is not modelled.
- `DenseMatrix.Matrix.constructor`: requires `width * height >= 0`. The negative case, where `new double[n]` throws, is modelled by `DenseMatrix.NewMatrix` and by the readers, which return `BadArrayNewLength` before constructing.
- 32-bit `int` overflow of `width * height` and of `x + width * y`, and the conversion of `index`'s result to `size_t`, are not modelled. Dimensions and positions are unbounded integers.
- `DenseMatrix.Matrix.GetField`: requires a cell inside the grid. Outside it, `get_field` reads outside the buffer, which is undefined behaviour.
- `DenseMatrix.Matrix.GetRow`: requires `0 <= y < height` unless `width == 0`. With `width == 0` every `y` gives the empty row, and the model allows that call. A row outside the grid otherwise reads outside the buffer, which is undefined behaviour. When `width` is negative, `row.reserve(width)` at matrix.cpp:25 throws `std::length_error`; the precondition excludes a negative width, so that exception is not modelled.
- `DenseMatrix.Matrix.GetColumn`: requires `0 <= x < width` unless `height == 0`. With `height == 0` every `x` gives the empty column. A column outside the grid otherwise reads outside the buffer. When `height` is negative, `column.reserve(height)` at matrix.cpp:34 throws `std::length_error`; that exception is not modelled.
- Cells that no loop writes are uninitialised `double`s in the source. In the model they are left as allocated, and no contract speaks of their value.
- Memory management is not modelled: the raw buffer has no destructor or copy constructor, so copies of a `Matrix` share it and buffers leak.
- The duplicate declarations of `struct Matrix` in matrix.hpp and system_solver.hpp, and the mismatched `process_command` declaration at command.hpp:68, are build-level issues, not behaviour.

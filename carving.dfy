/**
 * Removing one seam: `carveVerticalSeam` and `carveHorizontalSeam`.
 *
 * Each carver fills an energy buffer, accumulates it in place into the
 * cumulative-energy grid while recording parents in `ptr`, picks the first
 * minimum of the last line, and copies every pixel but the seam's into a
 * fresh buffer, following the parents back line by line. The functions here
 * state what the result is; the methods follow the carvers' loops and are
 * proved to produce it.
 */
module Carving {
  import opened Grid
  import opened Energy
  import opened SeamFinder

  // ---------------------------------------------------------------------------
  // What a carve produces

  /** The vertical seam: one column per row, found over the energy rows. */
  function VerticalSeam(data: seq<Byte>, width: nat, height: nat): (seam: seq<nat>)
    requires IsPixelBuffer(data, width, height) && width >= 2 && height >= 2
    ensures |seam| == height
    ensures IsPath(seam, width)
  {
    SeamIsPath(EnergyRows(data, width, height), width);
    Seam(EnergyRows(data, width, height), width)
  }

  /** The horizontal seam: one row per column, found over the energy columns. */
  function HorizontalSeam(data: seq<Byte>, width: nat, height: nat): (seam: seq<nat>)
    requires IsPixelBuffer(data, width, height) && width >= 2 && height >= 2
    ensures |seam| == width
    ensures IsPath(seam, height)
  {
    SeamIsPath(EnergyColumns(data, width, height), height);
    Seam(EnergyColumns(data, width, height), height)
  }

  /** Pixel (r, c) of the image left when pixel `seam[r]` is skipped in each row `r`. */
  function WithoutVerticalSeam(data: seq<Byte>, width: nat, height: nat, seam: seq<nat>)
    : (g: seq<seq<seq<Byte>>>)
    requires IsPixelBuffer(data, width, height) && width >= 1
    requires |seam| == height && forall r :: 0 <= r < height ==> seam[r] < width
    ensures |g| == height && IsPixelGrid(g, width - 1)
  {
    seq(height, r requires 0 <= r < height =>
      seq(width - 1, c requires 0 <= c < width - 1 => Pixel(data, width, height, r, Skip(c, seam[r]))))
  }

  /** Pixel (r, c) of the image left when pixel `seam[c]` is skipped in each column `c`. */
  function WithoutHorizontalSeam(data: seq<Byte>, width: nat, height: nat, seam: seq<nat>)
    : (g: seq<seq<seq<Byte>>>)
    requires IsPixelBuffer(data, width, height) && height >= 1
    requires |seam| == width && forall c :: 0 <= c < width ==> seam[c] < height
    ensures |g| == height - 1 && IsPixelGrid(g, width)
  {
    seq(height - 1, r requires 0 <= r < height - 1 =>
      seq(width, c requires 0 <= c < width => Pixel(data, width, height, Skip(r, seam[c]), c)))
  }

  /** The buffer `carveVerticalSeam` returns. */
  function CarvedVertically(data: seq<Byte>, width: nat, height: nat): (out: seq<Byte>)
    requires IsPixelBuffer(data, width, height) && width >= 2 && height >= 2
  {
    Encode(WithoutVerticalSeam(data, width, height, VerticalSeam(data, width, height)), width - 1)
  }

  /** The buffer `carveHorizontalSeam` returns. */
  function CarvedHorizontally(data: seq<Byte>, width: nat, height: nat): (out: seq<Byte>)
    requires IsPixelBuffer(data, width, height) && width >= 2 && height >= 2
  {
    Encode(WithoutHorizontalSeam(data, width, height, HorizontalSeam(data, width, height)), width)
  }

  // ---------------------------------------------------------------------------
  // Properties of a carve

  /**
   * Removing a vertical seam leaves a buffer one pixel narrower whose every row
   * is the input row without its seam pixel, the others kept in order.
   */
  lemma VerticalRemovalKeepsRows(data: seq<Byte>, width: nat, height: nat, seam: seq<nat>, newWidth: nat)
    requires IsPixelBuffer(data, width, height) && width >= 1 && newWidth == width - 1
    requires |seam| == height && forall r :: 0 <= r < height ==> seam[r] < width
    ensures var out := Encode(WithoutVerticalSeam(data, width, height, seam), newWidth);
      && IsPixelBuffer(out, newWidth, height)
      && forall r :: 0 <= r < height ==>
           Pixels(out, newWidth, height)[r] == Remove(Pixels(data, width, height)[r], seam[r])
  {
    var g := WithoutVerticalSeam(data, width, height, seam);
    EncodeDecode(g, newWidth);
    forall r | 0 <= r < height
      ensures g[r] == Remove(Pixels(data, width, height)[r], seam[r])
    {
      RowWithoutSeam(data, width, height, seam, r);
    }
  }

  lemma RowWithoutSeam(data: seq<Byte>, width: nat, height: nat, seam: seq<nat>, r: nat)
    requires IsPixelBuffer(data, width, height) && width >= 1
    requires |seam| == height && forall r :: 0 <= r < height ==> seam[r] < width
    requires r < height
    ensures WithoutVerticalSeam(data, width, height, seam)[r] == Remove(Pixels(data, width, height)[r], seam[r])
  {
    var g := WithoutVerticalSeam(data, width, height, seam);
    var row := Pixels(data, width, height)[r];
    forall c | 0 <= c < width - 1
      ensures g[r][c] == Remove(row, seam[r])[c]
    {
      RemoveAt(row, seam[r], c);
    }
  }

  /**
   * Removing a horizontal seam leaves a buffer one pixel shorter whose every
   * column is the input column without its seam pixel, the others kept in order.
   */
  lemma HorizontalRemovalKeepsColumns(data: seq<Byte>, width: nat, height: nat, seam: seq<nat>, newHeight: nat)
    requires IsPixelBuffer(data, width, height) && height >= 1 && newHeight == height - 1
    requires |seam| == width && forall c :: 0 <= c < width ==> seam[c] < height
    ensures var out := Encode(WithoutHorizontalSeam(data, width, height, seam), width);
      && IsPixelBuffer(out, width, newHeight)
      && forall c :: 0 <= c < width ==>
           Column(Pixels(out, width, newHeight), width, c)
             == Remove(Column(Pixels(data, width, height), width, c), seam[c])
  {
    var g := WithoutHorizontalSeam(data, width, height, seam);
    EncodeDecode(g, width);
    var image := Pixels(data, width, height);
    forall c | 0 <= c < width
      ensures Column(g, width, c) == Remove(Column(image, width, c), seam[c])
    {
      ColumnWithoutSeam(data, width, height, seam, c);
    }
  }

  lemma ColumnWithoutSeam(data: seq<Byte>, width: nat, height: nat, seam: seq<nat>, c: nat)
    requires IsPixelBuffer(data, width, height) && height >= 1
    requires |seam| == width && forall c :: 0 <= c < width ==> seam[c] < height
    requires c < width
    ensures Column(WithoutHorizontalSeam(data, width, height, seam), width, c)
         == Remove(Column(Pixels(data, width, height), width, c), seam[c])
  {
    var g := WithoutHorizontalSeam(data, width, height, seam);
    var column := Column(Pixels(data, width, height), width, c);
    var kept := Column(g, width, c);
    forall r | 0 <= r < height - 1
      ensures kept[r] == Remove(column, seam[c])[r]
    {
      RemoveAt(column, seam[c], r);
      assert kept[r] == g[r][c] == Pixel(data, width, height, Skip(r, seam[c]), c);
      assert column[Skip(r, seam[c])] == Pixels(data, width, height)[Skip(r, seam[c])][c];
    }
  }

  /** In a single-colour image every energy is zero, so both seams run along the first line. */
  lemma UniformSeams(data: seq<Byte>, width: nat, height: nat, colour: seq<Byte>)
    requires IsPixelBuffer(data, width, height) && width >= 2 && height >= 2
    requires Uniform(data, width, height, colour)
    ensures VerticalSeam(data, width, height) == seq(height, r => 0)
    ensures HorizontalSeam(data, width, height) == seq(width, c => 0)
  {
    UniformEnergyIsZero(data, width, height, colour);
    var rows := EnergyRows(data, width, height);
    var cols := EnergyColumns(data, width, height);
    assert AllZero(rows);
    assert AllZero(cols);
    ZeroEnergySeam(rows, width);
    ZeroEnergySeam(cols, height);
  }

  /** What `carveVerticalSeam` returns: `newWidth` pixels per row, each row without its seam pixel. */
  lemma CarvedVerticallyKeepsRows(data: seq<Byte>, width: nat, height: nat, output: seq<Byte>, newWidth: nat)
    requires IsPixelBuffer(data, width, height) && width >= 2 && height >= 2
    requires output == CarvedVertically(data, width, height) && newWidth == width - 1
    ensures IsPixelBuffer(output, newWidth, height)
    ensures forall r :: 0 <= r < height ==>
              Pixels(output, newWidth, height)[r]
                == Remove(Pixels(data, width, height)[r], VerticalSeam(data, width, height)[r])
  {
    VerticalRemovalKeepsRows(data, width, height, VerticalSeam(data, width, height), newWidth);
  }

  /** What `carveHorizontalSeam` returns: `newHeight` rows, each column without its seam pixel. */
  lemma CarvedHorizontallyKeepsColumns(data: seq<Byte>, width: nat, height: nat, output: seq<Byte>,
                                       newHeight: nat)
    requires IsPixelBuffer(data, width, height) && width >= 2 && height >= 2
    requires output == CarvedHorizontally(data, width, height) && newHeight == height - 1
    ensures IsPixelBuffer(output, width, newHeight)
    ensures forall c :: 0 <= c < width ==>
              Column(Pixels(output, width, newHeight), width, c)
                == Remove(Column(Pixels(data, width, height), width, c), HorizontalSeam(data, width, height)[c])
  {
    HorizontalRemovalKeepsColumns(data, width, height, HorizontalSeam(data, width, height), newHeight);
  }

  // ---------------------------------------------------------------------------
  // The carvers

  /**
   * `carveVerticalSeam`: the image one column narrower, every row losing the
   * pixel the minimum-energy vertical seam passes through.
   */
  method CarveVerticalSeam(data: seq<Byte>, width: nat, height: nat) returns (output: seq<Byte>, newWidth: nat)
    requires IsPixelBuffer(data, width, height) && width >= 2 && height >= 2
    ensures newWidth == width - 1
    ensures output == CarvedVertically(data, width, height)
    ensures IsPixelBuffer(output, newWidth, height)
    ensures forall r :: 0 <= r < height ==>
              Pixels(output, newWidth, height)[r]
                == Remove(Pixels(data, width, height)[r], VerticalSeam(data, width, height)[r])
  {
    ghost var lines := EnergyRows(data, width, height);
    var energy, ptr := VerticalAccumulation(data, width, height);
    var tail := VerticalTail(energy, width, height, lines);
    ghost var seam := Seam(lines, width);
    assert seam == VerticalSeam(data, width, height);
    SeamTracesParents(lines, width);
    output := BuildVertical(data, width, height, ptr, tail, ParentRows(lines, width), seam);
    newWidth := width - 1;
    CarvedVerticallyKeepsRows(data, width, height, output, newWidth);
  }

  /**
   * `carveHorizontalSeam`: the image one row shorter, every column losing the
   * pixel the minimum-energy horizontal seam passes through.
   */
  method CarveHorizontalSeam(data: seq<Byte>, width: nat, height: nat) returns (output: seq<Byte>, newHeight: nat)
    requires IsPixelBuffer(data, width, height) && width >= 2 && height >= 2
    ensures newHeight == height - 1
    ensures output == CarvedHorizontally(data, width, height)
    ensures IsPixelBuffer(output, width, newHeight)
    ensures forall c :: 0 <= c < width ==>
              Column(Pixels(output, width, newHeight), width, c)
                == Remove(Column(Pixels(data, width, height), width, c), HorizontalSeam(data, width, height)[c])
  {
    ghost var lines := EnergyColumns(data, width, height);
    var energy, ptr := HorizontalAccumulation(data, width, height);
    var tail := HorizontalTail(energy, width, height, lines);
    ghost var seam := Seam(lines, height);
    assert seam == HorizontalSeam(data, width, height);
    SeamTracesParents(lines, height);
    output := BuildHorizontal(data, width, height, ptr, tail, ParentRows(lines, height), seam);
    newHeight := height - 1;
    CarvedHorizontallyKeepsColumns(data, width, height, output, newHeight);
  }

  // ---------------------------------------------------------------------------
  // The carvers' phases

  /** The energy and parent buffers of `carveVerticalSeam` once its accumulation loop ends. */
  method VerticalAccumulation(data: seq<Byte>, width: nat, height: nat) returns (energy: array<int>, ptr: array<int>)
    requires IsPixelBuffer(data, width, height) && width >= 2 && height >= 2
    ensures energy[..] == Flatten(CumulativeRows(EnergyRows(data, width, height), width))
    ensures ptr[..] == Flatten(ParentRows(EnergyRows(data, width, height), width))
  {
    energy := NewBuffer(height, width);
    ptr := NewBuffer(height, width);
    FillEnergy(data, width, height, energy, Filled(height, width, 0));
    AccumulateVertical(energy, ptr, width, height, EnergyRows(data, width, height));
  }

  /** The energy and parent buffers of `carveHorizontalSeam` once its accumulation loop ends. */
  method HorizontalAccumulation(data: seq<Byte>, width: nat, height: nat) returns (energy: array<int>, ptr: array<int>)
    requires IsPixelBuffer(data, width, height) && width >= 2 && height >= 2
    ensures energy[..] == Flatten(Transpose(CumulativeRows(EnergyColumns(data, width, height), height), height))
    ensures ptr[..] == Flatten(Transpose(ParentRows(EnergyColumns(data, width, height), height), height))
  {
    energy := NewBuffer(height, width);
    ptr := NewBuffer(height, width);
    FillEnergy(data, width, height, energy, Filled(height, width, 0));
    EnergyColumnsAreTransposed(data, width, height);
    AccumulateHorizontal(energy, ptr, width, height, EnergyColumns(data, width, height));
  }

  /**
   * The `lastRow`/`mindex` step of `carveVerticalSeam`: the first column of
   * least cumulative energy in the bottom row, where the seam ends.
   */
  method VerticalTail(energy: array<int>, width: nat, height: nat, ghost lines: seq<seq<int>>) returns (tail: nat)
    requires IsLines(lines, width) && |lines| == height && width >= 1 && height >= 1
    requires energy[..] == Flatten(CumulativeRows(lines, width))
    ensures tail == Seam(lines, width)[height - 1]
  {
    var lastRowOffset := (height - 1) * width;
    FlattenRow(CumulativeRows(lines, width), width, height - 1);
    var lastRow := energy[lastRowOffset .. lastRowOffset + width];
    assert lastRow[..width] == lastRow == Cumulative(lines, width, height - 1);
    tail := MinIndex(lastRow, width);
    SeamTracesParents(lines, width);
  }

  /**
   * The `endCol`/`mindex` step of `carveHorizontalSeam`: the first row of
   * least cumulative energy in the last column, where the seam ends.
   */
  method HorizontalTail(energy: array<int>, width: nat, height: nat, ghost lines: seq<seq<int>>) returns (tail: nat)
    requires IsLines(lines, height) && |lines| == width && width >= 1 && height >= 1
    requires energy[..] == Flatten(Transpose(CumulativeRows(lines, height), height))
    ensures tail == Seam(lines, height)[width - 1]
  {
    var endCol := LastColumn(energy, width, height, CumulativeRows(lines, height));
    assert endCol[..height] == endCol == Cumulative(lines, height, width - 1);
    tail := MinIndex(endCol, height);
    SeamTracesParents(lines, height);
  }

  /**
   * The `endCol` loop of `carveHorizontalSeam`: the last entry of every row of
   * the row-major buffer, that is the last line of `cum` when its lines are columns.
   */
  method LastColumn(energy: array<int>, width: nat, height: nat, ghost cum: seq<seq<int>>)
    returns (endCol: seq<int>)
    requires width >= 1 && |cum| == width && Rectangular(cum, height)
    requires energy[..] == Flatten(Transpose(cum, height))
    ensures endCol == cum[width - 1]
  {
    var lastCol := width - 1;
    var column := new int[height];
    var r := 0;
    while r < height
      invariant 0 <= r <= height
      invariant forall i :: 0 <= i < r ==> column[i] == cum[lastCol][i]
    {
      FlattenAt(Transpose(cum, height), width, r, lastCol);
      TransposeAt(cum, height, r, lastCol);
      column[r] := energy[r * width + lastCol];
      r := r + 1;
    }
    endCol := column[..];
  }

  /** Copies the pixel (row, col) of the input image to cell (r, c) of the output. */
  method CopyPixelAt(data: seq<Byte>, width: nat, height: nat, row: nat, col: nat,
                     output: array<Byte>, outWidth: nat, r: nat, c: nat, ghost g: seq<seq<seq<Byte>>>)
    returns (ghost g': seq<seq<seq<Byte>>>)
    requires IsPixelBuffer(data, width, height) && row < height && col < width
    requires IsPixelGrid(g, outWidth) && r < |g| && c < outWidth && output[..] == Encode(g, outWidth)
    modifies output
    ensures g' == g[r := g[r][c := Pixel(data, width, height, row, col)]]
    ensures IsPixelGrid(g', outWidth) && output[..] == Encode(g', outWidth)
  {
    CellIndex(width, height, row, col);
    var src := (row * width + col) * Channels;
    g' := CopyPixel(data, src, output, outWidth, r, c, g);
  }

  /**
   * Copies the four bytes of one pixel of `data` to cell (r, c) of the output,
   * as each step of the output loops does; `g` is the grid the output encodes.
   */
  method CopyPixel(data: seq<Byte>, src: nat, output: array<Byte>, width: nat, r: nat, c: nat,
                   ghost g: seq<seq<seq<Byte>>>)
    returns (ghost g': seq<seq<seq<Byte>>>)
    requires src + Channels <= |data|
    requires IsPixelGrid(g, width) && r < |g| && c < width && output[..] == Encode(g, width)
    modifies output
    ensures g' == g[r := g[r][c := data[src..src + Channels]]]
    ensures IsPixelGrid(g', width) && output[..] == Encode(g', width)
  {
    g' := g[r := g[r][c := data[src..src + Channels]]];
    EncodeUpdate(g, width, r, c, data[src..src + Channels]);
    var dst := (r * width + c) * Channels;
    output[dst] := data[src];
    output[dst + 1] := data[src + 1];
    output[dst + 2] := data[src + 2];
    output[dst + 3] := data[src + 3];
  }

  /**
   * The energy buffer, line by line, once the first `done` lines have been
   * accumulated: those hold their cumulative energy, the rest still their
   * own energy.
   */
  ghost function Accumulated(lines: seq<seq<int>>, n: nat, done: nat): (grid: seq<seq<int>>)
    requires IsLines(lines, n)
    ensures |grid| == |lines| && Rectangular(grid, n)
  {
    seq(|lines|, k requires 0 <= k < |lines| => if k < done then Cumulative(lines, n, k) else lines[k])
  }

  /** The parent buffer, line by line, once the first `done` lines have been accumulated. */
  ghost function Recorded(lines: seq<seq<int>>, n: nat, done: nat): (grid: seq<seq<int>>)
    requires IsLines(lines, n)
    ensures |grid| == |lines| && Rectangular(grid, n)
  {
    var parents := ParentRows(lines, n);
    seq(|lines|, k requires 0 <= k < |lines| => if k < done then parents[k] else seq(n, i => 0))
  }

  /** Line 0 needs no accumulation: its cumulative energy is its energy and its parents stay 0. */
  lemma AccumulationStarts(lines: seq<seq<int>>, n: nat)
    requires IsLines(lines, n)
    ensures Accumulated(lines, n, 1) == lines
    ensures Recorded(lines, n, 1) == Filled(|lines|, n, 0)
  {
    if |lines| > 0 {
      assert Accumulated(lines, n, 1)[0] == Cumulative(lines, n, 0) == lines[0];
      assert Recorded(lines, n, 1)[0] == ParentRows(lines, n)[0] == Filled(|lines|, n, 0)[0];
    }
  }

  /** Accumulating line `done` moves both buffers one line on. */
  lemma AccumulationStep(lines: seq<seq<int>>, n: nat, done: nat)
    requires IsLines(lines, n) && done < |lines|
    ensures Accumulated(lines, n, done)[done := Cumulative(lines, n, done)] == Accumulated(lines, n, done + 1)
    ensures Recorded(lines, n, done)[done := ParentRows(lines, n)[done]] == Recorded(lines, n, done + 1)
  {
  }

  /** The line to accumulate next still holds its energy; the one before it is cumulative. */
  lemma AccumulationFrontier(lines: seq<seq<int>>, n: nat, done: nat)
    requires IsLines(lines, n) && 1 <= done < |lines|
    ensures Accumulated(lines, n, done)[done - 1] == Cumulative(lines, n, done - 1)
    ensures Accumulated(lines, n, done)[done] == lines[done]
  {
  }

  /** Once every line is accumulated the buffers hold the cumulative and parent grids. */
  lemma AccumulationEnds(lines: seq<seq<int>>, n: nat)
    requires IsLines(lines, n)
    ensures Accumulated(lines, n, |lines|) == CumulativeRows(lines, n)
    ensures Recorded(lines, n, |lines|) == ParentRows(lines, n)
  {
  }

  /**
   * The top-to-bottom accumulation: row by row, each entry gains the smallest
   * of its up to three upper neighbours and `ptr` records which one it was.
   */
  method AccumulateVertical(energy: array<int>, ptr: array<int>, width: nat, height: nat,
                            ghost lines: seq<seq<int>>)
    requires IsLines(lines, width) && |lines| == height && energy != ptr
    requires energy[..] == Flatten(lines) && ptr[..] == Flatten(Filled(height, width, 0))
    modifies energy, ptr
    ensures energy[..] == Flatten(CumulativeRows(lines, width))
    ensures ptr[..] == Flatten(ParentRows(lines, width))
  {
    AccumulationStarts(lines, width);
    var row := 1;
    while row < height
      invariant 1 <= row <= height
      invariant energy[..] == Flatten(Accumulated(lines, width, row))
      invariant ptr[..] == Flatten(Recorded(lines, width, row))
    {
      AdvanceRow(energy, ptr, width, height, row, lines);
      row := row + 1;
    }
    assert row == |lines|;
    AccumulationEnds(lines, width);
  }

  /** Accumulating row `row` moves both buffers from `row` accumulated rows to `row + 1`. */
  method AdvanceRow(energy: array<int>, ptr: array<int>, width: nat, height: nat, row: nat,
                    ghost lines: seq<seq<int>>)
    requires IsLines(lines, width) && |lines| == height && 1 <= row < height && energy != ptr
    requires energy[..] == Flatten(Accumulated(lines, width, row))
    requires ptr[..] == Flatten(Recorded(lines, width, row))
    modifies energy, ptr
    ensures energy[..] == Flatten(Accumulated(lines, width, row + 1))
    ensures ptr[..] == Flatten(Recorded(lines, width, row + 1))
  {
    AccumulationFrontier(lines, width, row);
    AccumulateVerticalRow(energy, ptr, width, height, row, lines,
                          Accumulated(lines, width, row), Recorded(lines, width, row));
    AccumulationStep(lines, width, row);
  }

  /** One row of the top-to-bottom accumulation, left to right. */
  method AccumulateVerticalRow(energy: array<int>, ptr: array<int>, width: nat, height: nat, row: nat,
                               ghost lines: seq<seq<int>>, ghost a: seq<seq<int>>, ghost b: seq<seq<int>>)
    requires IsLines(lines, width) && |lines| == height && 1 <= row < height && energy != ptr
    requires |a| == height && Rectangular(a, width) && energy[..] == Flatten(a)
    requires |b| == height && Rectangular(b, width) && ptr[..] == Flatten(b)
    requires a[row - 1] == Cumulative(lines, width, row - 1) && a[row] == lines[row]
    modifies energy, ptr
    ensures energy[..] == Flatten(a[row := Cumulative(lines, width, row)])
    ensures ptr[..] == Flatten(b[row := ParentRows(lines, width)[row]])
  {
    PrefixStarts(lines, width, row, b[row]);
    assert a[row := CumPrefix(lines, width, row, 0)] == a;
    assert b[row := ParentPrefix(lines, width, row, 0, b[row])] == b;
    var col := 0;
    while col < width
      invariant 0 <= col <= width
      invariant energy[..] == Flatten(a[row := CumPrefix(lines, width, row, col)])
      invariant ptr[..] == Flatten(b[row := ParentPrefix(lines, width, row, col, b[row])])
    {
      ghost var cum := CumPrefix(lines, width, row, col);
      ghost var parents := ParentPrefix(lines, width, row, col, b[row]);
      var min, parent := ChooseParentAbove(energy, width, height, row, col, a[row := cum], Cumulative(lines, width, row - 1));
      StoreCellInRow(energy, ptr, width, height, row, col, min, parent, a, cum, b, parents);
      PrefixStep(lines, width, row, col, b[row], min, parent);
      col := col + 1;
    }
    assert col == width;
    PrefixEnds(lines, width, row, b[row]);
  }

  /** `StoreCell` with line `row` of the two buffers being `cum` and `parents`. */
  method StoreCellInRow(energy: array<int>, ptr: array<int>, width: nat, height: nat, row: nat, col: nat,
                        min: int, parent: nat, ghost a: seq<seq<int>>, ghost cum: seq<int>,
                        ghost b: seq<seq<int>>, ghost parents: seq<int>)
    requires row < height && col < width && energy != ptr && |cum| == width && |parents| == width
    requires |a| == height && Rectangular(a, width) && energy[..] == Flatten(a[row := cum])
    requires |b| == height && Rectangular(b, width) && ptr[..] == Flatten(b[row := parents])
    modifies energy, ptr
    ensures energy[..] == Flatten(a[row := cum[col := cum[col] + min]])
    ensures ptr[..] == Flatten(b[row := parents[col := parent]])
  {
    ghost var a': seq<seq<int>>, b': seq<seq<int>> := a[row := cum], b[row := parents];
    ghost var e, p := StoreCell(energy, ptr, width, height, row, col, min, parent, a', b');
    assert a'[row := a'[row][col := cum[col] + min]] == a[row := cum[col := cum[col] + min]];
    assert b'[row := b'[row][col := parent]] == b[row := parents[col := parent]];
  }

  /**
   * The inner step of the top-to-bottom accumulation: the parent of (row, col)
   * among the up to three entries above it, which hold `prev`, and that
   * parent's cumulative energy.
   */
  method ChooseParentAbove(energy: array<int>, width: nat, height: nat, row: nat, col: nat,
                           ghost e: seq<seq<int>>, ghost prev: seq<int>)
    returns (min: int, parent: nat)
    requires 1 <= row < height && col < width
    requires |e| == height && Rectangular(e, width) && energy[..] == Flatten(e) && e[row - 1] == prev
    ensures parent == Predecessor(prev, col) && min == prev[parent]
  {
    FlattenAt(e, width, row - 1, col);
    min := energy[(row - 1) * width + col];
    parent := col;
    if col >= 1 {
      FlattenAt(e, width, row - 1, col - 1);
    }
    if col >= 1 && energy[(row - 1) * width + (col - 1)] < min {
      min := energy[(row - 1) * width + (col - 1)];
      parent := col - 1;
    }
    if col + 1 < width {
      FlattenAt(e, width, row - 1, col + 1);
    }
    if col + 1 < width && energy[(row - 1) * width + (col + 1)] < min {
      min := energy[(row - 1) * width + (col + 1)];
      parent := col + 1;
    }
  }

  /**
   * The left-to-right accumulation: column by column, each entry gains the
   * smallest of its up to three left neighbours and `ptr` records which row
   * it came from. `lines` are the energy columns; the buffers stay row-major.
   */
  method AccumulateHorizontal(energy: array<int>, ptr: array<int>, width: nat, height: nat,
                              ghost lines: seq<seq<int>>)
    requires IsLines(lines, height) && |lines| == width && energy != ptr
    requires energy[..] == Flatten(Transpose(lines, height))
    requires ptr[..] == Flatten(Filled(height, width, 0))
    modifies energy, ptr
    ensures energy[..] == Flatten(Transpose(CumulativeRows(lines, height), height))
    ensures ptr[..] == Flatten(Transpose(ParentRows(lines, height), height))
  {
    AccumulationStarts(lines, height);
    TransposeFilled(height, width, 0);
    var col := 1;
    while col < width
      invariant 1 <= col <= width
      invariant energy[..] == Flatten(Transpose(Accumulated(lines, height, col), height))
      invariant ptr[..] == Flatten(Transpose(Recorded(lines, height, col), height))
    {
      AdvanceColumn(energy, ptr, width, height, col, lines);
      col := col + 1;
    }
    assert col == |lines|;
    AccumulationEnds(lines, height);
  }

  /** Cumulative line `k` while its first `done` entries have been accumulated. */
  ghost function CumPrefix(lines: seq<seq<int>>, n: nat, k: nat, done: nat): (line: seq<int>)
    requires IsLines(lines, n) && k < |lines|
    ensures |line| == n
  {
    seq(n, i requires 0 <= i < n => if i < done then CumAt(lines, n, k, i) else lines[k][i])
  }

  /** Parent line `k >= 1` while its first `done` entries have been recorded over `rest`. */
  ghost function ParentPrefix(lines: seq<seq<int>>, n: nat, k: nat, done: nat, rest: seq<int>): (line: seq<int>)
    requires IsLines(lines, n) && 1 <= k < |lines| && |rest| == n
    ensures |line| == n
  {
    seq(n, i requires 0 <= i < n => if i < done then ParentAt(lines, n, k, i) else rest[i])
  }

  /** Accumulating column `col` moves both buffers from `col` accumulated columns to `col + 1`. */
  method AdvanceColumn(energy: array<int>, ptr: array<int>, width: nat, height: nat, col: nat,
                       ghost lines: seq<seq<int>>)
    requires IsLines(lines, height) && |lines| == width && 1 <= col < width && energy != ptr
    requires energy[..] == Flatten(Transpose(Accumulated(lines, height, col), height))
    requires ptr[..] == Flatten(Transpose(Recorded(lines, height, col), height))
    modifies energy, ptr
    ensures energy[..] == Flatten(Transpose(Accumulated(lines, height, col + 1), height))
    ensures ptr[..] == Flatten(Transpose(Recorded(lines, height, col + 1), height))
  {
    AccumulationFrontier(lines, height, col);
    AccumulateHorizontalColumn(energy, ptr, width, height, col, lines,
                               Accumulated(lines, height, col), Recorded(lines, height, col));
    AccumulationStep(lines, height, col);
  }

  /**
   * One column of the left-to-right accumulation, top to bottom; `a` and `b`
   * are the two buffers read column by column.
   */
  method AccumulateHorizontalColumn(energy: array<int>, ptr: array<int>, width: nat, height: nat, col: nat,
                                    ghost lines: seq<seq<int>>, ghost a: seq<seq<int>>, ghost b: seq<seq<int>>)
    requires IsLines(lines, height) && |lines| == width && 1 <= col < width && energy != ptr
    requires |a| == width && Rectangular(a, height) && energy[..] == Flatten(Transpose(a, height))
    requires |b| == width && Rectangular(b, height) && ptr[..] == Flatten(Transpose(b, height))
    requires a[col - 1] == Cumulative(lines, height, col - 1) && a[col] == lines[col]
    modifies energy, ptr
    ensures energy[..] == Flatten(Transpose(a[col := Cumulative(lines, height, col)], height))
    ensures ptr[..] == Flatten(Transpose(b[col := ParentRows(lines, height)[col]], height))
  {
    PrefixStarts(lines, height, col, b[col]);
    assert a[col := CumPrefix(lines, height, col, 0)] == a;
    assert b[col := ParentPrefix(lines, height, col, 0, b[col])] == b;
    var row := 0;
    while row < height
      invariant 0 <= row <= height
      invariant energy[..] == Flatten(Transpose(a[col := CumPrefix(lines, height, col, row)], height))
      invariant ptr[..] == Flatten(Transpose(b[col := ParentPrefix(lines, height, col, row, b[col])], height))
    {
      ghost var cum := CumPrefix(lines, height, col, row);
      ghost var parents := ParentPrefix(lines, height, col, row, b[col]);
      var min, parent := ChooseParentLeft(energy, width, height, row, col, a[col := cum], Cumulative(lines, height, col - 1));
      StoreCellTransposed(energy, ptr, width, height, row, col, min, parent, a, cum, b, parents);
      PrefixStep(lines, height, col, row, b[col], min, parent);
      row := row + 1;
    }
    assert row == height;
    PrefixEnds(lines, height, col, b[col]);
  }

  /** Before the first entry of line `k` is accumulated, both lines are as they were. */
  lemma PrefixStarts(lines: seq<seq<int>>, n: nat, k: nat, rest: seq<int>)
    requires IsLines(lines, n) && 1 <= k < |lines| && |rest| == n
    ensures CumPrefix(lines, n, k, 0) == lines[k]
    ensures ParentPrefix(lines, n, k, 0, rest) == rest
  {
  }

  /** Accumulating entry `done` of line `k` moves both lines one entry on. */
  lemma PrefixStep(lines: seq<seq<int>>, n: nat, k: nat, done: nat, rest: seq<int>, min: int, parent: nat)
    requires IsLines(lines, n) && 1 <= k < |lines| && |rest| == n && done < n
    requires parent == Predecessor(Cumulative(lines, n, k - 1), done) && min == Cumulative(lines, n, k - 1)[parent]
    ensures CumPrefix(lines, n, k, done)[done := CumPrefix(lines, n, k, done)[done] + min]
            == CumPrefix(lines, n, k, done + 1)
    ensures ParentPrefix(lines, n, k, done, rest)[done := parent] == ParentPrefix(lines, n, k, done + 1, rest)
  {
    ParentIsPredecessor(lines, n, k, done);
  }

  /** Once every entry of line `k` is accumulated, the lines are cumulative line `k` and its parents. */
  lemma PrefixEnds(lines: seq<seq<int>>, n: nat, k: nat, rest: seq<int>)
    requires IsLines(lines, n) && 1 <= k < |lines| && |rest| == n
    ensures CumPrefix(lines, n, k, n) == Cumulative(lines, n, k)
    ensures ParentPrefix(lines, n, k, n, rest) == ParentRows(lines, n)[k]
  {
  }

  /**
   * The inner step of the left-to-right accumulation: the parent of (row, col)
   * among the up to three entries left of it, which hold `prev`, and that
   * parent's cumulative energy.
   */
  method ChooseParentLeft(energy: array<int>, width: nat, height: nat, row: nat, col: nat,
                          ghost a: seq<seq<int>>, ghost prev: seq<int>)
    returns (min: int, parent: nat)
    requires 1 <= col < width && row < height
    requires |a| == width && Rectangular(a, height) && energy[..] == Flatten(Transpose(a, height))
    requires a[col - 1] == prev
    ensures parent == Predecessor(prev, row) && min == prev[parent]
  {
    FlattenTransposeAt(a, height, width, row, col - 1);
    min := energy[row * width + (col - 1)];
    parent := row;
    if row >= 1 {
      FlattenTransposeAt(a, height, width, row - 1, col - 1);
    }
    if row >= 1 && energy[(row - 1) * width + (col - 1)] < min {
      min := energy[(row - 1) * width + (col - 1)];
      parent := row - 1;
    }
    if row + 1 < height {
      FlattenTransposeAt(a, height, width, row + 1, col - 1);
    }
    if row + 1 < height && energy[(row + 1) * width + (col - 1)] < min {
      min := energy[(row + 1) * width + (col - 1)];
      parent := row + 1;
    }
  }

  /**
   * `StoreCell` with both buffers read column by column, line `col` of them
   * being `cum` and `parents`.
   */
  method StoreCellTransposed(energy: array<int>, ptr: array<int>, width: nat, height: nat, row: nat, col: nat,
                             min: int, parent: nat, ghost a: seq<seq<int>>, ghost cum: seq<int>,
                             ghost b: seq<seq<int>>, ghost parents: seq<int>)
    requires row < height && col < width && energy != ptr && |cum| == height && |parents| == height
    requires |a| == width && Rectangular(a, height) && energy[..] == Flatten(Transpose(a[col := cum], height))
    requires |b| == width && Rectangular(b, height) && ptr[..] == Flatten(Transpose(b[col := parents], height))
    modifies energy, ptr
    ensures energy[..] == Flatten(Transpose(a[col := cum[row := cum[row] + min]], height))
    ensures ptr[..] == Flatten(Transpose(b[col := parents[row := parent]], height))
  {
    ghost var a': seq<seq<int>>, b': seq<seq<int>> := a[col := cum], b[col := parents];
    TransposeAt(a', height, row, col);
    ghost var e, p := StoreCell(energy, ptr, width, height, row, col, min, parent,
                                Transpose(a', height), Transpose(b', height));
    TransposeCellUpdate(a', height, col, row, cum[row] + min);
    TransposeCellUpdate<int>(b', height, col, row, parent);
    assert a'[col := a'[col][row := cum[row] + min]] == a[col := cum[row := cum[row] + min]];
    assert b'[col := b'[col][row := parent]] == b[col := parents[row := parent]];
  }

  /**
   * The update both accumulations end each step with: the cell gains the
   * parent's cumulative energy and `ptr` records the parent.
   */
  method StoreCell(energy: array<int>, ptr: array<int>, width: nat, height: nat, row: nat, col: nat,
                   min: int, parent: nat, ghost e0: seq<seq<int>>, ghost p0: seq<seq<int>>)
    returns (ghost e: seq<seq<int>>, ghost p: seq<seq<int>>)
    requires row < height && col < width && energy != ptr
    requires |e0| == height && Rectangular(e0, width) && energy[..] == Flatten(e0)
    requires |p0| == height && Rectangular(p0, width) && ptr[..] == Flatten(p0)
    modifies energy, ptr
    ensures e == e0[row := e0[row][col := e0[row][col] + min]]
    ensures p == p0[row := p0[row][col := parent]]
    ensures |e| == height && Rectangular(e, width) && energy[..] == Flatten(e)
    ensures |p| == height && Rectangular(p, width) && ptr[..] == Flatten(p)
  {
    var k := row * width + col;
    FlattenAt(e0, width, row, col);
    FlattenUpdate(e0, width, row, col, e0[row][col] + min);
    FlattenUpdate(p0, width, row, col, parent);
    e := e0[row := e0[row][col := e0[row][col] + min]];
    p := p0[row := p0[row][col := parent]];
    energy[k] := energy[k] + min;
    ptr[k] := parent;
  }

  /** A grid that agrees pixel by pixel with the image without the vertical seam is that image. */
  lemma WithoutVerticalSeamByPixels(data: seq<Byte>, width: nat, height: nat, seam: seq<nat>,
                                    g: seq<seq<seq<Byte>>>)
    requires IsPixelBuffer(data, width, height) && width >= 1
    requires |seam| == height && forall r :: 0 <= r < height ==> seam[r] < width
    requires |g| == height && IsPixelGrid(g, width - 1)
    requires forall r, c {:trigger g[r][c]} :: 0 <= r < height && 0 <= c < width - 1 ==>
               g[r][c] == Pixel(data, width, height, r, Skip(c, seam[r]))
    ensures g == WithoutVerticalSeam(data, width, height, seam)
  {
    var spec := WithoutVerticalSeam(data, width, height, seam);
    forall r | 0 <= r < height
      ensures g[r] == spec[r]
    {
      assert |g[r]| == width - 1;
    }
  }

  /** A grid that agrees pixel by pixel with the image without the horizontal seam is that image. */
  lemma WithoutHorizontalSeamByPixels(data: seq<Byte>, width: nat, height: nat, seam: seq<nat>,
                                      g: seq<seq<seq<Byte>>>)
    requires IsPixelBuffer(data, width, height) && height >= 1
    requires |seam| == width && forall c :: 0 <= c < width ==> seam[c] < height
    requires |g| == height - 1 && IsPixelGrid(g, width)
    requires forall r, c {:trigger g[r][c]} :: 0 <= r < height - 1 && 0 <= c < width ==>
               g[r][c] == Pixel(data, width, height, Skip(r, seam[c]), c)
    ensures g == WithoutHorizontalSeam(data, width, height, seam)
  {
    var spec := WithoutHorizontalSeam(data, width, height, seam);
    forall r | 0 <= r < height - 1
      ensures g[r] == spec[r]
    {
      assert |g[r]| == width;
    }
  }

  /** A zero-filled pixel buffer for a `width` by `height` image, and the grid it encodes. */
  method NewImage(height: nat, width: nat) returns (out: array<Byte>, ghost g: seq<seq<seq<Byte>>>)
    ensures fresh(out)
    ensures |g| == height && IsPixelGrid(g, width) && out[..] == Encode(g, width)
    ensures g == Filled(height, width, Blank)
  {
    out := new Byte[width * height * Channels](_ => 0);
    g := Filled(height, width, Blank);
    EncodeZero(height, width);
    assert out[..] == Encode(g, width);
  }

  /**
   * The output loop of `carveVerticalSeam`: from the bottom row up, every pixel
   * of the row but the seam's, then on to the seam pixel's parent.
   */
  method BuildVertical(data: seq<Byte>, width: nat, height: nat, ptr: array<int>, tail: nat,
                       ghost parents: seq<seq<int>>, ghost seam: seq<nat>)
    returns (output: seq<Byte>)
    requires IsPixelBuffer(data, width, height) && width >= 1 && height >= 1
    requires Traces(seam, parents, width) && |seam| == height && ptr[..] == Flatten(parents)
    requires tail == seam[height - 1]
    ensures output == Encode(WithoutVerticalSeam(data, width, height, seam), width - 1)
  {
    var newWidth := width - 1;
    var out, g := NewImage(height, newWidth);
    var row: int := height - 1;
    var t: int := tail;
    while row >= 0
      invariant -1 <= row < height
      invariant |g| == height && IsPixelGrid(g, newWidth) && out[..] == Encode(g, newWidth)
      invariant forall r, c {:trigger g[r][c]} :: row < r < height && 0 <= c < newWidth ==>
                  g[r][c] == Pixel(data, width, height, r, Skip(c, seam[r]))
      invariant row >= 0 ==> t == seam[row]
    {
      g := CopyRowWithoutSeam(data, width, height, row, t, out, g);
      t := TailAbove(ptr, width, row, t, parents);
      row := row - 1;
    }
    WithoutVerticalSeamByPixels(data, width, height, seam, g);
    output := out[..];
  }

  /** Copies row `row` into the output, skipping the pixel in column `t`. */
  method CopyRowWithoutSeam(data: seq<Byte>, width: nat, height: nat, row: nat, t: nat,
                            out: array<Byte>, ghost g0: seq<seq<seq<Byte>>>)
    returns (ghost g: seq<seq<seq<Byte>>>)
    requires IsPixelBuffer(data, width, height) && width >= 1 && row < height && t < width
    requires |g0| == height && IsPixelGrid(g0, width - 1) && out[..] == Encode(g0, width - 1)
    modifies out
    ensures |g| == height && IsPixelGrid(g, width - 1) && out[..] == Encode(g, width - 1)
    ensures forall r :: 0 <= r < height && r != row ==> g[r] == g0[r]
    ensures |g[row]| == width - 1
    ensures forall c {:trigger g[row][c]} :: 0 <= c < width - 1 ==>
              g[row][c] == Pixel(data, width, height, row, Skip(c, t))
  {
    var newWidth := width - 1;
    g := g0;
    var imagePtr := 0;
    var col := 0;
    while col < newWidth
      invariant 0 <= col <= newWidth
      invariant imagePtr == if col <= t then col else col + 1
      invariant |g| == height && IsPixelGrid(g, newWidth) && out[..] == Encode(g, newWidth)
      invariant forall r :: 0 <= r < height && r != row ==> g[r] == g0[r]
      invariant forall c {:trigger g[row][c]} :: 0 <= c < col ==>
                  g[row][c] == Pixel(data, width, height, row, Skip(c, t))
    {
      if imagePtr == t {
        imagePtr := imagePtr + 1;
      }
      g := CopyPixelAt(data, width, height, row, imagePtr, out, newWidth, row, col, g);
      imagePtr := imagePtr + 1;
      col := col + 1;
    }
  }

  /**
   * The output loop of `carveHorizontalSeam`: from the rightmost column
   * leftwards, every pixel of the column but the seam's, then on to the seam
   * pixel's parent.
   */
  method BuildHorizontal(data: seq<Byte>, width: nat, height: nat, ptr: array<int>, tail: nat,
                         ghost parents: seq<seq<int>>, ghost seam: seq<nat>)
    returns (output: seq<Byte>)
    requires IsPixelBuffer(data, width, height) && width >= 1 && height >= 1
    requires Traces(seam, parents, height) && |seam| == width
    requires ptr[..] == Flatten(Transpose(parents, height))
    requires tail == seam[width - 1]
    ensures output == Encode(WithoutHorizontalSeam(data, width, height, seam), width)
  {
    var newHeight := height - 1;
    var out, g := NewImage(newHeight, width);
    var lastCol := width - 1;
    var col: int := lastCol;
    var t: int := tail;
    while col >= 0
      invariant -1 <= col < width
      invariant |g| == newHeight && IsPixelGrid(g, width) && out[..] == Encode(g, width)
      invariant forall r, c {:trigger g[r][c]} :: 0 <= r < newHeight && col < c < width ==>
                  g[r][c] == Pixel(data, width, height, Skip(r, seam[c]), c)
      invariant col >= 0 ==> t == seam[col]
    {
      g := CopyColumnWithoutSeam(data, width, height, col, t, out, g);
      t := TailLeft(ptr, width, height, col, t, parents);
      col := col - 1;
    }
    WithoutHorizontalSeamByPixels(data, width, height, seam, g);
    output := out[..];
  }

  /** Copies column `col` into the output, skipping the pixel in row `t`. */
  method CopyColumnWithoutSeam(data: seq<Byte>, width: nat, height: nat, col: nat, t: nat,
                               out: array<Byte>, ghost g0: seq<seq<seq<Byte>>>)
    returns (ghost g: seq<seq<seq<Byte>>>)
    requires IsPixelBuffer(data, width, height) && height >= 1 && col < width && t < height
    requires |g0| == height - 1 && IsPixelGrid(g0, width) && out[..] == Encode(g0, width)
    modifies out
    ensures |g| == height - 1 && IsPixelGrid(g, width) && out[..] == Encode(g, width)
    ensures forall r :: 0 <= r < height - 1 ==> g[r] == g0[r][col := g[r][col]]
    ensures forall r {:trigger g[r][col]} :: 0 <= r < height - 1 ==>
              g[r][col] == Pixel(data, width, height, Skip(r, t), col)
  {
    var newHeight := height - 1;
    g := g0;
    var imagePtr := 0;
    var r := 0;
    while r < newHeight
      invariant 0 <= r <= newHeight
      invariant imagePtr == if r <= t then r else r + 1
      invariant |g| == newHeight && IsPixelGrid(g, width) && out[..] == Encode(g, width)
      invariant forall i {:trigger g[i]} :: 0 <= i < newHeight ==> g[i] == g0[i][col := g[i][col]]
      invariant forall i {:trigger g[i][col]} :: 0 <= i < r ==>
                  g[i][col] == Pixel(data, width, height, Skip(i, t), col)
    {
      if imagePtr == t {
        imagePtr := imagePtr + 1;
      }
      assert imagePtr == Skip(r, t);
      g := CopyPixelAt(data, width, height, imagePtr, col, out, width, r, col, g);
      imagePtr := imagePtr + 1;
      r := r + 1;
    }
  }

  /** `tail = ptr[row * width + tail]`: the parent recorded for column `t` of row `row`. */
  method TailAbove(ptr: array<int>, width: nat, row: nat, t: nat, ghost parents: seq<seq<int>>)
    returns (next: int)
    requires Rectangular(parents, width) && row < |parents| && t < width
    requires ptr[..] == Flatten(parents)
    ensures next == parents[row][t]
  {
    FlattenAt(parents, width, row, t);
    next := ptr[row * width + t];
  }

  /**
   * `tail = ptr[tail * width + col]`: the parent recorded for row `t` of
   * column `col`, the columns being the lines of `parents`.
   */
  method TailLeft(ptr: array<int>, width: nat, height: nat, col: nat, t: nat, ghost parents: seq<seq<int>>)
    returns (next: int)
    requires Rectangular(parents, height) && |parents| == width && col < width && t < height
    requires ptr[..] == Flatten(Transpose(parents, height))
    ensures next == parents[col][t]
  {
    FlattenAt(Transpose(parents, height), width, t, col);
    TransposeAt(parents, height, t, col);
    next := ptr[t * width + col];
  }
}

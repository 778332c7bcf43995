/**
 * The energy field: a gradient magnitude per pixel, computed from the R, G and
 * B channels of the pixel buffer (`pixelEnergy` and `calcEnergy`).
 */
module Energy {
  import opened Grid

  /** The largest difference between two channel values. */
  const MaxChannelDelta: int := 255

  /** The largest energy of one pixel: two gradients of three squared channel differences. */
  const MaxEnergy: int := 2 * 3 * MaxChannelDelta * MaxChannelDelta

  function Square(x: int): (s: nat)
    ensures -MaxChannelDelta <= x <= MaxChannelDelta ==> s <= MaxChannelDelta * MaxChannelDelta
  {
    SquareBound(x);
    x * x
  }

  lemma SquareBound(x: int)
    ensures x * x >= 0
    ensures -MaxChannelDelta <= x <= MaxChannelDelta ==> x * x <= MaxChannelDelta * MaxChannelDelta
  {
    var y := if x < 0 then -x else x;
    assert x * x == y * y;
    if y <= MaxChannelDelta {
      assert y * y <= MaxChannelDelta * y;
    }
  }

  /** Start of the pixel in row `row`, column `col` of the flat buffer. */
  function Offset(width: nat, height: nat, row: nat, col: nat): (i: nat)
    requires row < height && col < width
    ensures i + Channels <= width * height * Channels
  {
    CellIndex(width, height, row, col);
    (row * width + col) * Channels
  }

  /** Sum of the squared R, G and B differences of the pixels starting at `i` and `j`. */
  function ColourDistance(data: seq<Byte>, i: nat, j: nat): (d: nat)
    requires i + Channels <= |data| && j + Channels <= |data|
    ensures d <= 3 * MaxChannelDelta * MaxChannelDelta
  {
    Square(data[i] as int - data[j]) + Square(data[i + 1] as int - data[j + 1]) + Square(data[i + 2] as int - data[j + 2])
  }

  /**
   * The energy of one pixel: the colour distance between its vertical
   * neighbours plus that between its horizontal neighbours. On the first row
   * the pixel itself is compared with the one below, on the last row with the
   * one above; columns follow the same rule.
   */
  function PixelEnergy(data: seq<Byte>, width: nat, height: nat, row: nat, col: nat): (e: nat)
    requires IsPixelBuffer(data, width, height) && width >= 2 && height >= 2
    requires row < height && col < width
    ensures e <= MaxEnergy
  {
    var (v1, v2) :=
      if row == 0 then (Offset(width, height, row, col), Offset(width, height, row + 1, col))
      else if row == height - 1 then (Offset(width, height, row, col), Offset(width, height, row - 1, col))
      else (Offset(width, height, row - 1, col), Offset(width, height, row + 1, col));
    var energyX := ColourDistance(data, v1, v2);
    var (h1, h2) :=
      if col == 0 then (Offset(width, height, row, col), Offset(width, height, row, col + 1))
      else if col == width - 1 then (Offset(width, height, row, col), Offset(width, height, row, col - 1))
      else (Offset(width, height, row, col - 1), Offset(width, height, row, col + 1));
    var energyY := ColourDistance(data, h1, h2);
    energyX + energyY
  }

  /** The energy grid, row by row. */
  function EnergyRows(data: seq<Byte>, width: nat, height: nat): (grid: seq<seq<int>>)
    requires IsPixelBuffer(data, width, height) && width >= 2 && height >= 2
    ensures |grid| == height && Rectangular(grid, width)
  {
    seq(height, r requires 0 <= r < height =>
      seq(width, c requires 0 <= c < width => PixelEnergy(data, width, height, r, c)))
  }

  /** The energy grid, column by column. */
  function EnergyColumns(data: seq<Byte>, width: nat, height: nat): (grid: seq<seq<int>>)
    requires IsPixelBuffer(data, width, height) && width >= 2 && height >= 2
    ensures |grid| == width && Rectangular(grid, height)
  {
    seq(width, c requires 0 <= c < width =>
      seq(height, r requires 0 <= r < height => PixelEnergy(data, width, height, r, c)))
  }

  /** The column-by-column grid holds the same energies as the row-by-row one. */
  lemma EnergyColumnsAreTransposed(data: seq<Byte>, width: nat, height: nat)
    requires IsPixelBuffer(data, width, height) && width >= 2 && height >= 2
    ensures EnergyRows(data, width, height) == Transpose(EnergyColumns(data, width, height), height)
  {
    var rows := EnergyRows(data, width, height);
    var cols := EnergyColumns(data, width, height);
    var t := Transpose(cols, height);
    forall r | 0 <= r < height
      ensures rows[r] == t[r]
    {
      assert t[r] == Column(cols, height, r);
    }
  }

  // ---------------------------------------------------------------------------
  // A reference reading of the energy, on pixels rather than byte offsets

  /**
   * The two lines compared at line `i` of `n`: the line and the next one on
   * the first line, the line and the previous one on the last line, and the
   * two neighbours elsewhere.
   */
  function Neighbours(i: nat, n: nat): (pair: (nat, nat))
    requires i < n && n >= 2
    ensures pair.0 < n && pair.1 < n
  {
    if i == 0 then (i, i + 1) else if i == n - 1 then (i, i - 1) else (i - 1, i + 1)
  }

  /** The R, G and B bytes of a pixel; its alpha byte is not part of it. */
  function Colour(p: seq<Byte>): seq<Byte>
    requires |p| == Channels
  {
    p[..3]
  }

  function Distance(p: seq<Byte>, q: seq<Byte>): nat
    requires |p| == Channels && |q| == Channels
  {
    Square(p[0] as int - q[0]) + Square(p[1] as int - q[1]) + Square(p[2] as int - q[2])
  }

  /**
   * The energy is the colour distance of the vertical neighbour pair of the
   * pixel's column plus that of the horizontal neighbour pair of its row.
   */
  lemma PixelEnergyByNeighbours(data: seq<Byte>, width: nat, height: nat, row: nat, col: nat)
    requires IsPixelBuffer(data, width, height) && width >= 2 && height >= 2
    requires row < height && col < width
    ensures var a, b := Neighbours(row, height).0, Neighbours(row, height).1;
            var l, r := Neighbours(col, width).0, Neighbours(col, width).1;
            PixelEnergy(data, width, height, row, col)
              == Distance(Pixel(data, width, height, a, col), Pixel(data, width, height, b, col))
               + Distance(Pixel(data, width, height, row, l), Pixel(data, width, height, row, r))
  {
    var a, b := Neighbours(row, height).0, Neighbours(row, height).1;
    var l, r := Neighbours(col, width).0, Neighbours(col, width).1;
    PixelEnergyByOffsets(data, width, height, row, col);
    DistanceAtOffsets(data, width, height, a, col, b, col);
    DistanceAtOffsets(data, width, height, row, l, row, r);
  }

  /** The offsets `PixelEnergy` compares are those of the neighbour pairs. */
  lemma PixelEnergyByOffsets(data: seq<Byte>, width: nat, height: nat, row: nat, col: nat)
    requires IsPixelBuffer(data, width, height) && width >= 2 && height >= 2
    requires row < height && col < width
    ensures var a, b := Neighbours(row, height).0, Neighbours(row, height).1;
            var l, r := Neighbours(col, width).0, Neighbours(col, width).1;
            PixelEnergy(data, width, height, row, col)
              == ColourDistance(data, Offset(width, height, a, col), Offset(width, height, b, col))
               + ColourDistance(data, Offset(width, height, row, l), Offset(width, height, row, r))
  {
  }

  /** The colour distance of two offsets is the distance of the two pixels there. */
  lemma DistanceAtOffsets(data: seq<Byte>, width: nat, height: nat, r1: nat, c1: nat, r2: nat, c2: nat)
    requires IsPixelBuffer(data, width, height)
    requires r1 < height && c1 < width && r2 < height && c2 < width
    ensures ColourDistance(data, Offset(width, height, r1, c1), Offset(width, height, r2, c2))
         == Distance(Pixel(data, width, height, r1, c1), Pixel(data, width, height, r2, c2))
  {
    var p, q := Pixel(data, width, height, r1, c1), Pixel(data, width, height, r2, c2);
    var i, j := Offset(width, height, r1, c1), Offset(width, height, r2, c2);
    assert p[0] == data[i] && p[1] == data[i + 1] && p[2] == data[i + 2];
    assert q[0] == data[j] && q[1] == data[j + 1] && q[2] == data[j + 2];
  }

  /**
   * The energy of a pixel depends on nothing but the colours (not the alpha)
   * of its two vertical and two horizontal neighbours as `Neighbours` picks them.
   */
  lemma EnergyIsLocal(data: seq<Byte>, other: seq<Byte>, width: nat, height: nat, row: nat, col: nat)
    requires IsPixelBuffer(data, width, height) && IsPixelBuffer(other, width, height)
    requires width >= 2 && height >= 2 && row < height && col < width
    requires var a, b := Neighbours(row, height).0, Neighbours(row, height).1;
             && Colour(Pixel(data, width, height, a, col)) == Colour(Pixel(other, width, height, a, col))
             && Colour(Pixel(data, width, height, b, col)) == Colour(Pixel(other, width, height, b, col))
    requires var l, r := Neighbours(col, width).0, Neighbours(col, width).1;
             && Colour(Pixel(data, width, height, row, l)) == Colour(Pixel(other, width, height, row, l))
             && Colour(Pixel(data, width, height, row, r)) == Colour(Pixel(other, width, height, row, r))
    ensures PixelEnergy(data, width, height, row, col) == PixelEnergy(other, width, height, row, col)
  {
    PixelEnergyByNeighbours(data, width, height, row, col);
    PixelEnergyByNeighbours(other, width, height, row, col);
    var a, b := Neighbours(row, height).0, Neighbours(row, height).1;
    var l, r := Neighbours(col, width).0, Neighbours(col, width).1;
    DistanceOfColours(Pixel(data, width, height, a, col), Pixel(data, width, height, b, col),
                      Pixel(other, width, height, a, col), Pixel(other, width, height, b, col));
    DistanceOfColours(Pixel(data, width, height, row, l), Pixel(data, width, height, row, r),
                      Pixel(other, width, height, row, l), Pixel(other, width, height, row, r));
  }

  lemma DistanceOfColours(p: seq<Byte>, q: seq<Byte>, p': seq<Byte>, q': seq<Byte>)
    requires |p| == Channels && |q| == Channels && |p'| == Channels && |q'| == Channels
    requires Colour(p) == Colour(p') && Colour(q) == Colour(q')
    ensures Distance(p, q) == Distance(p', q')
  {
    ColourEqual(p, p');
    ColourEqual(q, q');
  }

  lemma ColourEqual(p: seq<Byte>, q: seq<Byte>)
    requires |p| == Channels && |q| == Channels && Colour(p) == Colour(q)
    ensures p[0] == q[0] && p[1] == q[1] && p[2] == q[2]
  {
    assert p[0] == Colour(p)[0] && p[1] == Colour(p)[1] && p[2] == Colour(p)[2];
  }

  /** Two buffers that differ only in alpha bytes (offset 3 of a pixel) have the same energy grid. */
  lemma EnergyIgnoresAlpha(data: seq<Byte>, other: seq<Byte>, width: nat, height: nat)
    requires IsPixelBuffer(data, width, height) && IsPixelBuffer(other, width, height)
    requires width >= 2 && height >= 2
    requires forall i :: 0 <= i < |data| && i % Channels != 3 ==> data[i] == other[i]
    ensures EnergyRows(data, width, height) == EnergyRows(other, width, height)
  {
    forall row: nat, col: nat | row < height && col < width
      ensures Colour(Pixel(data, width, height, row, col)) == Colour(Pixel(other, width, height, row, col))
    {
      ColourIgnoresAlpha(data, other, width, height, row, col);
    }
    forall row: nat | row < height
      ensures EnergyRows(data, width, height)[row] == EnergyRows(other, width, height)[row]
    {
      forall col: nat | col < width
        ensures PixelEnergy(data, width, height, row, col) == PixelEnergy(other, width, height, row, col)
      {
        EnergyIsLocal(data, other, width, height, row, col);
      }
    }
  }

  /** One pixel of two buffers that differ only in alpha bytes has the same colour in both. */
  lemma ColourIgnoresAlpha(data: seq<Byte>, other: seq<Byte>, width: nat, height: nat, row: nat, col: nat)
    requires IsPixelBuffer(data, width, height) && IsPixelBuffer(other, width, height)
    requires row < height && col < width
    requires forall i :: 0 <= i < |data| && i % Channels != 3 ==> data[i] == other[i]
    ensures Colour(Pixel(data, width, height, row, col)) == Colour(Pixel(other, width, height, row, col))
  {
    CellIndex(width, height, row, col);
    var base := (row * width + col) * Channels;
    ChannelOffsets(row * width + col);
    var p, q := Pixel(data, width, height, row, col), Pixel(other, width, height, row, col);
    assert p[0] == data[base] && p[1] == data[base + 1] && p[2] == data[base + 2];
    assert q[0] == other[base] && q[1] == other[base + 1] && q[2] == other[base + 2];
    assert Colour(p) == [p[0], p[1], p[2]] && Colour(q) == [q[0], q[1], q[2]];
  }

  /** The first three bytes of a pixel are not at alpha offsets. */
  lemma ChannelOffsets(t: nat)
    ensures (t * Channels) % Channels == 0
    ensures (t * Channels + 1) % Channels == 1
    ensures (t * Channels + 2) % Channels == 2
  {
  }

  /** Every pixel of `data` has the colour `colour`. */
  predicate Uniform(data: seq<Byte>, width: nat, height: nat, colour: seq<Byte>)
    requires IsPixelBuffer(data, width, height)
  {
    forall row: nat, col: nat :: row < height && col < width ==>
      Colour(Pixel(data, width, height, row, col)) == colour
  }

  /** An image of one colour has zero energy everywhere. */
  lemma UniformEnergyIsZero(data: seq<Byte>, width: nat, height: nat, colour: seq<Byte>)
    requires IsPixelBuffer(data, width, height) && width >= 2 && height >= 2
    requires Uniform(data, width, height, colour)
    ensures EnergyRows(data, width, height) == Filled(height, width, 0)
    ensures EnergyColumns(data, width, height) == Filled(width, height, 0)
  {
    forall row: nat, col: nat | row < height && col < width
      ensures PixelEnergy(data, width, height, row, col) == 0
    {
      UniformPixelEnergy(data, width, height, colour, row, col);
    }
    forall row: nat | row < height
      ensures EnergyRows(data, width, height)[row] == Filled(height, width, 0)[row]
    {
    }
    forall col: nat | col < width
      ensures EnergyColumns(data, width, height)[col] == Filled(width, height, 0)[col]
    {
    }
  }

  lemma UniformPixelEnergy(data: seq<Byte>, width: nat, height: nat, colour: seq<Byte>, row: nat, col: nat)
    requires IsPixelBuffer(data, width, height) && width >= 2 && height >= 2
    requires Uniform(data, width, height, colour) && row < height && col < width
    ensures PixelEnergy(data, width, height, row, col) == 0
  {
    PixelEnergyByNeighbours(data, width, height, row, col);
    var a, b := Neighbours(row, height).0, Neighbours(row, height).1;
    var l, r := Neighbours(col, width).0, Neighbours(col, width).1;
    var pa, pb := Pixel(data, width, height, a, col), Pixel(data, width, height, b, col);
    var pl, pr := Pixel(data, width, height, row, l), Pixel(data, width, height, row, r);
    assert Colour(pa) == colour == Colour(pb);
    assert Colour(pl) == colour == Colour(pr);
    SameColourDistance(pa, pb);
    SameColourDistance(pl, pr);
  }

  lemma SameColourDistance(p: seq<Byte>, q: seq<Byte>)
    requires |p| == Channels && |q| == Channels && Colour(p) == Colour(q)
    ensures Distance(p, q) == 0
  {
    ColourEqual(p, q);
  }

  // ---------------------------------------------------------------------------
  // calcEnergy

  /** Fills `energy` with the energy grid, row by row, as `calcEnergy` and both carvers do. */
  method FillEnergy(data: seq<Byte>, width: nat, height: nat, energy: array<int>, ghost e0: seq<seq<int>>)
    requires IsPixelBuffer(data, width, height) && width >= 2 && height >= 2
    requires |e0| == height && Rectangular(e0, width) && energy[..] == Flatten(e0)
    modifies energy
    ensures energy[..] == Flatten(EnergyRows(data, width, height))
    ensures forall i :: 0 <= i < energy.Length ==> 0 <= energy[i] <= MaxEnergy
  {
    ghost var grid := EnergyRows(data, width, height);
    ghost var e := e0;
    var row := 0;
    while row < height
      invariant 0 <= row <= height
      invariant |e| == height && Rectangular(e, width) && energy[..] == Flatten(e)
      invariant forall r :: 0 <= r < row ==> e[r] == grid[r]
    {
      e := FillEnergyRow(data, width, height, energy, row, e);
      row := row + 1;
    }
    assert e == grid;
    EnergyWithin(data, width, height);
  }

  /** One row of `calcEnergy`'s loop, left to right. */
  method FillEnergyRow(data: seq<Byte>, width: nat, height: nat, energy: array<int>, row: nat,
                       ghost e0: seq<seq<int>>)
    returns (ghost e: seq<seq<int>>)
    requires IsPixelBuffer(data, width, height) && width >= 2 && height >= 2 && row < height
    requires |e0| == height && Rectangular(e0, width) && energy[..] == Flatten(e0)
    modifies energy
    ensures e == e0[row := EnergyRows(data, width, height)[row]]
    ensures |e| == height && Rectangular(e, width) && energy[..] == Flatten(e)
  {
    e := e0;
    var col := 0;
    while col < width
      invariant 0 <= col <= width
      invariant |e| == height && Rectangular(e, width) && energy[..] == Flatten(e)
      invariant e == e0[row := e[row]]
      invariant forall c {:trigger e[row][c]} :: 0 <= c < col ==> e[row][c] == EnergyRows(data, width, height)[row][c]
    {
      var v := PixelEnergy(data, width, height, row, col);
      FlattenUpdate(e, width, row, col, v);
      energy[row * width + col] := v;
      e := e[row := e[row][col := v]];
      col := col + 1;
    }
    assert e[row] == EnergyRows(data, width, height)[row];
  }

  /** Every entry of the flat energy grid lies between 0 and `MaxEnergy`. */
  lemma EnergyWithin(data: seq<Byte>, width: nat, height: nat)
    requires IsPixelBuffer(data, width, height) && width >= 2 && height >= 2
    ensures forall i :: 0 <= i < |Flatten(EnergyRows(data, width, height))| ==>
              0 <= Flatten(EnergyRows(data, width, height))[i] <= MaxEnergy
  {
    var grid := EnergyRows(data, width, height);
    forall r, c | 0 <= r < |grid| && 0 <= c < |grid[r]|
      ensures 0 <= grid[r][c] <= MaxEnergy
    {
      assert grid[r][c] == PixelEnergy(data, width, height, r, c);
    }
    FlattenWithin(grid, 0, MaxEnergy);
  }

  /** `calcEnergy`: one energy value per pixel, each between 0 and `MaxEnergy`. */
  method CalcEnergy(data: seq<Byte>, width: nat, height: nat) returns (energy: seq<int>)
    requires IsPixelBuffer(data, width, height) && width >= 2 && height >= 2
    ensures |energy| == width * height
    ensures forall i :: 0 <= i < |energy| ==> 0 <= energy[i] <= MaxEnergy
    ensures energy == Flatten(EnergyRows(data, width, height))
  {
    var buffer := NewBuffer(height, width);
    FillEnergy(data, width, height, buffer, Filled(height, width, 0));
    energy := buffer[..];
  }
}

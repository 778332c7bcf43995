/**
 * Flat row-major buffers and the grids they encode.
 *
 * A pixel buffer holds `width * height` pixels of four bytes each (R, G, B, A),
 * row after row; an energy or parent buffer holds one number per pixel in the
 * same order. The lemmas here turn the index arithmetic `row * width + col`
 * into statements about rows, so that the other modules never reason about
 * products of variables.
 */
module Grid {

  /** One channel of a Uint8ClampedArray. */
  type Byte = x: int | 0 <= x < 256

  /** Bytes per pixel: R, G, B and A. */
  const Channels: nat := 4

  /** A buffer of `width * height` four-byte pixels. */
  predicate IsPixelBuffer(data: seq<Byte>, width: nat, height: nat)
  {
    |data| == width * height * Channels
  }

  /** Every row of `rows` has exactly `width` entries. */
  predicate Rectangular<T>(rows: seq<seq<T>>, width: nat)
  {
    forall r :: 0 <= r < |rows| ==> |rows[r]| == width
  }

  /** The rows of a grid laid end to end, as a flat row-major buffer holds them. */
  function Flatten<T>(rows: seq<seq<T>>): seq<T>
  {
    if |rows| == 0 then [] else rows[0] + Flatten(rows[1..])
  }

  /** A grid with every entry equal to `x`. */
  function Filled<T>(height: nat, width: nat, x: T): (rows: seq<seq<T>>)
    ensures |rows| == height && Rectangular(rows, width)
  {
    seq(height, r => seq(width, c => x))
  }

  /** The position of cell (row, col) in the flat buffer lies inside the buffer. */
  lemma CellIndex(width: nat, height: nat, row: nat, col: nat)
    requires row < height && col < width
    ensures row * width + col < width * height
    ensures (row * width + col) * Channels + Channels <= width * height * Channels
  {
    assert row * width + col < (row + 1) * width;
    assert (row + 1) * width <= height * width by {
      MulMonotone(row + 1, height, width);
    }
  }

  lemma MulMonotone(a: nat, b: nat, k: nat)
    requires a <= b
    ensures a * k <= b * k
  {
  }

  lemma RowOffset(r: nat, width: nat, c: nat)
    requires r >= 1
    ensures r * width + c == width + ((r - 1) * width + c)
  {
  }

  lemma {:induction false} FlattenLength<T>(rows: seq<seq<T>>, width: nat)
    requires Rectangular(rows, width)
    ensures |Flatten(rows)| == |rows| * width
  {
    if |rows| > 0 {
      FlattenLength(rows[1..], width);
    }
  }

  /** Cell (r, c) of the grid sits at `r * width + c` in the flat buffer. */
  lemma {:induction false} FlattenAt<T>(rows: seq<seq<T>>, width: nat, r: nat, c: nat)
    requires Rectangular(rows, width) && r < |rows| && c < width
    ensures |Flatten(rows)| == |rows| * width
    ensures r * width + c < |Flatten(rows)|
    ensures Flatten(rows)[r * width + c] == rows[r][c]
  {
    FlattenLength(rows, width);
    CellIndex(width, |rows|, r, c);
    if r > 0 {
      FlattenAt(rows[1..], width, r - 1, c);
      RowOffset(r, width, c);
    }
  }

  /** Writing one cell of the flat buffer is writing that cell of its row. */
  lemma {:induction false} FlattenUpdate<T>(rows: seq<seq<T>>, width: nat, r: nat, c: nat, v: T)
    requires Rectangular(rows, width) && r < |rows| && c < width
    ensures r * width + c < |Flatten(rows)|
    ensures Rectangular(rows[r := rows[r][c := v]], width)
    ensures Flatten(rows)[r * width + c := v] == Flatten(rows[r := rows[r][c := v]])
  {
    FlattenLength(rows, width);
    CellIndex(width, |rows|, r, c);
    var updated := rows[r := rows[r][c := v]];
    if r == 0 {
      assert updated[1..] == rows[1..];
      assert Flatten(updated) == rows[0][c := v] + Flatten(rows[1..]);
    } else {
      FlattenUpdate(rows[1..], width, r - 1, c, v);
      assert updated[1..] == rows[1..][r - 1 := rows[1..][r - 1][c := v]];
      RowOffset(r, width, c);
      FlattenLength(rows[1..], width);
    }
  }

  /** A flat buffer of `height * width` copies of `x` is the filled grid. */
  lemma {:induction false} FlattenFilled<T>(height: nat, width: nat, x: T)
    ensures Flatten(Filled(height, width, x)) == seq(height * width, i => x)
  {
    var rows := Filled(height, width, x);
    FlattenLength(rows, width);
    if height > 0 {
      assert rows[1..] == Filled(height - 1, width, x);
      FlattenFilled(height - 1, width, x);
      assert height * width == width + (height - 1) * width;
    }
  }

  /** A fresh zero-filled buffer of `height * width` entries, as a new typed array is. */
  method NewBuffer(height: nat, width: nat) returns (buffer: array<int>)
    ensures fresh(buffer) && buffer.Length == height * width
    ensures buffer[..] == Flatten(Filled(height, width, 0))
  {
    buffer := new int[height * width](_ => 0);
    FlattenFilled(height, width, 0);
    assert buffer[..] == seq(height * width, i => 0);
  }

  /** When every entry of the grid lies in `lo..hi`, so does every entry of the flat buffer. */
  lemma {:induction false} FlattenWithin(rows: seq<seq<int>>, lo: int, hi: int)
    requires forall r, c :: 0 <= r < |rows| && 0 <= c < |rows[r]| ==> lo <= rows[r][c] <= hi
    ensures forall i :: 0 <= i < |Flatten(rows)| ==> lo <= Flatten(rows)[i] <= hi
  {
    if |rows| > 0 {
      FlattenWithin(rows[1..], lo, hi);
      assert Flatten(rows) == rows[0] + Flatten(rows[1..]);
    }
  }

  /** Row `r` of the grid is the slice `r * width .. r * width + width` of the flat buffer. */
  lemma {:induction false} FlattenRow<T>(rows: seq<seq<T>>, width: nat, r: nat)
    requires Rectangular(rows, width) && r < |rows|
    ensures |Flatten(rows)| == |rows| * width
    ensures r * width + width <= |Flatten(rows)|
    ensures Flatten(rows)[r * width .. r * width + width] == rows[r]
  {
    FlattenLength(rows, width);
    assert r * width + width == (r + 1) * width;
    MulMonotone(r + 1, |rows|, width);
    if r > 0 {
      FlattenRow(rows[1..], width, r - 1);
      assert r * width == width + (r - 1) * width;
    }
  }

  /** Replacing row `r` of the grid replaces its slice of the flat buffer. */
  lemma {:induction false} FlattenReplaceRow<T>(rows: seq<seq<T>>, width: nat, r: nat, row: seq<T>)
    requires Rectangular(rows, width) && r < |rows| && |row| == width
    ensures r * width + width <= |Flatten(rows)|
    ensures Rectangular(rows[r := row], width)
    ensures Flatten(rows[r := row])
         == Flatten(rows)[..r * width] + row + Flatten(rows)[r * width + width..]
  {
    FlattenLength(rows, width);
    assert r * width + width == (r + 1) * width;
    MulMonotone(r + 1, |rows|, width);
    var updated := rows[r := row];
    if r == 0 {
      assert updated[1..] == rows[1..];
      assert Flatten(rows) == rows[0] + Flatten(rows[1..]);
      assert Flatten(rows)[width..] == Flatten(rows[1..]);
    } else {
      FlattenReplaceRow(rows[1..], width, r - 1, row);
      assert updated[1..] == rows[1..][r - 1 := row];
      assert r * width == width + (r - 1) * width;
      var tail := Flatten(rows[1..]);
      assert Flatten(rows) == rows[0] + tail;
      assert Flatten(rows)[..r * width] == rows[0] + tail[..(r - 1) * width];
      assert Flatten(rows)[r * width + width..] == tail[(r - 1) * width + width..];
    }
  }

  /** The four bytes of the pixel in row `row`, column `col`. */
  function Pixel(data: seq<Byte>, width: nat, height: nat, row: nat, col: nat): (p: seq<Byte>)
    requires IsPixelBuffer(data, width, height) && row < height && col < width
    ensures |p| == Channels
  {
    CellIndex(width, height, row, col);
    data[(row * width + col) * Channels .. (row * width + col) * Channels + Channels]
  }

  /** The buffer seen as rows of pixels. */
  function Pixels(data: seq<Byte>, width: nat, height: nat): (img: seq<seq<seq<Byte>>>)
    requires IsPixelBuffer(data, width, height)
    ensures |img| == height && Rectangular(img, width)
  {
    seq(height, r =>
      seq(width, c => if 0 <= r < height && 0 <= c < width then Pixel(data, width, height, r, c) else []))
  }

  /** A grid of `width`-wide rows of four-byte pixels. */
  predicate IsPixelGrid(g: seq<seq<seq<Byte>>>, width: nat)
  {
    && Rectangular(g, width)
    && forall r, c :: 0 <= r < |g| && 0 <= c < |g[r]| ==> |g[r][c]| == Channels
  }

  /** The byte buffer holding a pixel grid, row-major, four bytes per pixel. */
  function Encode(g: seq<seq<seq<Byte>>>, width: nat): (data: seq<Byte>)
    requires IsPixelGrid(g, width)
  {
    Flatten(Flatten(g))
  }

  lemma {:induction false} FlattenPixelGrid(g: seq<seq<seq<Byte>>>, width: nat)
    requires IsPixelGrid(g, width)
    ensures Rectangular(Flatten(g), Channels)
    ensures |Flatten(g)| == |g| * width
  {
    FlattenLength(g, width);
    if |g| > 0 {
      FlattenPixelGrid(g[1..], width);
      var tail := Flatten(g[1..]);
      assert Flatten(g) == g[0] + tail;
      forall i | 0 <= i < |Flatten(g)|
        ensures |Flatten(g)[i]| == Channels
      {
        if i < |g[0]| {
          assert Flatten(g)[i] == g[0][i];
        } else {
          assert Flatten(g)[i] == tail[i - |g[0]|];
        }
      }
    }
  }

  /** An encoded grid of `height` rows is a pixel buffer of that size. */
  lemma EncodeLength(g: seq<seq<seq<Byte>>>, width: nat)
    requires IsPixelGrid(g, width)
    ensures IsPixelBuffer(Encode(g, width), width, |g|)
  {
    FlattenPixelGrid(g, width);
    FlattenLength(Flatten(g), Channels);
  }

  /** Reading an encoded grid back pixel by pixel gives the grid. */
  lemma EncodeDecode(g: seq<seq<seq<Byte>>>, width: nat)
    requires IsPixelGrid(g, width)
    ensures IsPixelBuffer(Encode(g, width), width, |g|)
    ensures Pixels(Encode(g, width), width, |g|) == g
  {
    EncodeLength(g, width);
    var data := Encode(g, width);
    var height := |g|;
    forall r | 0 <= r < height
      ensures Pixels(data, width, height)[r] == g[r]
    {
      forall c | 0 <= c < width
        ensures Pixels(data, width, height)[r][c] == g[r][c]
      {
        EncodedPixel(g, width, r, c);
      }
    }
  }

  /** Pixel (r, c) of an encoded grid is entry (r, c) of the grid. */
  lemma EncodedPixel(g: seq<seq<seq<Byte>>>, width: nat, r: nat, c: nat)
    requires IsPixelGrid(g, width) && r < |g| && c < width
    ensures IsPixelBuffer(Encode(g, width), width, |g|)
    ensures Pixel(Encode(g, width), width, |g|, r, c) == g[r][c]
  {
    EncodeLength(g, width);
    FlattenPixelGrid(g, width);
    CellIndex(width, |g|, r, c);
    FlattenRow(Flatten(g), Channels, r * width + c);
    FlattenAt(g, width, r, c);
  }

  /** Writing the four bytes of pixel (r, c) of an encoded grid is writing that pixel of the grid. */
  lemma EncodeUpdate(g: seq<seq<seq<Byte>>>, width: nat, r: nat, c: nat, p: seq<Byte>)
    requires IsPixelGrid(g, width) && r < |g| && c < width && |p| == Channels
    ensures (r * width + c) * Channels + Channels <= |Encode(g, width)|
    ensures IsPixelGrid(g[r := g[r][c := p]], width)
    ensures Encode(g[r := g[r][c := p]], width)
         == Encode(g, width)[..(r * width + c) * Channels] + p
          + Encode(g, width)[(r * width + c) * Channels + Channels..]
  {
    var updated := g[r := g[r][c := p]];
    FlattenPixelGrid(g, width);
    FlattenUpdate(g, width, r, c, p);
    CellIndex(width, |g|, r, c);
    FlattenReplaceRow(Flatten(g), Channels, r * width + c, p);
    assert Flatten(g)[r * width + c := p] == Flatten(updated);
  }

  /** A pixel with all four bytes zero, as a fresh Uint8ClampedArray holds. */
  const Blank: seq<Byte> := [0, 0, 0, 0]

  /** When every entry of every row is `x`, so is every entry of the flat buffer. */
  lemma {:induction false} FlattenConstant<T>(rows: seq<seq<T>>, x: T)
    requires forall r, c :: 0 <= r < |rows| && 0 <= c < |rows[r]| ==> rows[r][c] == x
    ensures forall j :: 0 <= j < |Flatten(rows)| ==> Flatten(rows)[j] == x
  {
    if |rows| > 0 {
      FlattenConstant(rows[1..], x);
      assert Flatten(rows) == rows[0] + Flatten(rows[1..]);
    }
  }

  /** The encoding of an all-zero grid is an all-zero buffer. */
  lemma EncodeZero(height: nat, width: nat)
    ensures IsPixelGrid(Filled(height, width, Blank), width)
    ensures |Encode(Filled(height, width, Blank), width)| == height * width * Channels
    ensures forall j :: 0 <= j < |Encode(Filled(height, width, Blank), width)| ==>
              Encode(Filled(height, width, Blank), width)[j] == 0
  {
    var zero := Blank;
    var g := Filled(height, width, zero);
    assert forall r, c :: 0 <= r < |g| && 0 <= c < |g[r]| ==> g[r][c] == zero;
    EncodeLength(g, width);
    FlattenConstant(g, zero);
    FlattenConstant(Flatten(g), 0 as Byte);
  }

  /** Column `col` of a grid, top to bottom. */
  function Column<T>(rows: seq<seq<T>>, width: nat, col: nat): (column: seq<T>)
    requires Rectangular(rows, width) && col < width
    ensures |column| == |rows|
  {
    seq(|rows|, r requires 0 <= r < |rows| => rows[r][col])
  }

  /** The grid read column by column: entry `i` of line `k` is `grid[k][i]`. */
  function Transpose<T>(grid: seq<seq<T>>, n: nat): (lines: seq<seq<T>>)
    requires Rectangular(grid, n)
    ensures |lines| == n && Rectangular(lines, |grid|)
  {
    seq(n, i requires 0 <= i < n => Column(grid, n, i))
  }

  /** Entry `k` of line `i` of the transpose is entry `i` of row `k`. */
  lemma TransposeAt<T>(grid: seq<seq<T>>, n: nat, i: nat, k: nat)
    requires Rectangular(grid, n) && i < n && k < |grid|
    ensures |Transpose(grid, n)[i]| == |grid| && Transpose(grid, n)[i][k] == grid[k][i]
  {
    assert Transpose(grid, n)[i] == Column(grid, n, i);
  }

  /**
   * A row-major grid whose entries are those of the transpose of `lines`,
   * except that column `k` reads `line`, is the transpose of `lines` with
   * line `k` replaced.
   */
  lemma TransposeReplace<T>(lines: seq<seq<T>>, n: nat, k: nat, line: seq<T>, e: seq<seq<T>>)
    requires Rectangular(lines, n) && k < |lines| && |line| == n
    requires |e| == n && Rectangular(e, |lines|)
    requires forall i, j {:trigger e[i][j]} :: 0 <= i < n && 0 <= j < |lines| ==>
               e[i][j] == if j == k then line[i] else lines[j][i]
    ensures e == Transpose(lines[k := line], n)
  {
    var t := Transpose(lines[k := line], n);
    forall i | 0 <= i < n
      ensures e[i] == t[i]
    {
      forall j | 0 <= j < |lines|
        ensures e[i][j] == t[i][j]
      {
        TransposeAt(lines[k := line], n, i, j);
      }
    }
  }

  /** Changing one entry of the transpose changes the same entry of the grid. */
  lemma TransposeCellUpdate<T>(lines: seq<seq<T>>, n: nat, k: nat, i: nat, v: T)
    requires Rectangular(lines, n) && k < |lines| && i < n
    ensures Transpose(lines, n)[i := Transpose(lines, n)[i][k := v]] == Transpose(lines[k := lines[k][i := v]], n)
  {
    var t := Transpose(lines, n);
    TransposeAt(lines, n, i, k);
    var e := t[i := t[i][k := v]];
    forall i', j | 0 <= i' < n && 0 <= j < |lines|
      ensures e[i'][j] == if j == k then lines[k][i := v][i'] else lines[j][i']
    {
      TransposeAt(lines, n, i', j);
    }
    TransposeReplace(lines, n, k, lines[k][i := v], e);
  }

  /** Entry (r, c) of the flat row-major buffer of the transpose of `lines`. */
  lemma FlattenTransposeAt<T>(lines: seq<seq<T>>, n: nat, width: nat, r: nat, c: nat)
    requires Rectangular(lines, n) && |lines| == width && r < n && c < width
    ensures r * width + c < |Flatten(Transpose(lines, n))|
    ensures Flatten(Transpose(lines, n))[r * width + c] == lines[c][r]
  {
    FlattenAt(Transpose(lines, n), width, r, c);
    TransposeAt(lines, n, r, c);
  }

  /** The transpose of a filled grid is the filled grid of the other shape. */
  lemma TransposeFilled<T>(height: nat, width: nat, x: T)
    ensures Transpose(Filled(width, height, x), height) == Filled(height, width, x)
  {
    var t := Transpose(Filled(width, height, x), height);
    forall i | 0 <= i < height
      ensures t[i] == Filled(height, width, x)[i]
    {
      forall j | 0 <= j < width
        ensures t[i][j] == x
      {
        TransposeAt(Filled(width, height, x), height, i, j);
      }
    }
  }

  /** `s` without its entry at position `i`, the others kept in order. */
  function Remove<T>(s: seq<T>, i: nat): (t: seq<T>)
    requires i < |s|
    ensures |t| == |s| - 1
  {
    s[..i] + s[i + 1..]
  }

  /**
   * The position in the source line of the `i`-th kept entry when the entry
   * at `removed` is skipped: the `imagePtr` of the carving loops.
   */
  function Skip(i: nat, removed: nat): (j: nat)
  {
    if i < removed then i else i + 1
  }

  lemma RemoveAt<T>(s: seq<T>, removed: nat, i: nat)
    requires removed < |s| && i < |s| - 1
    ensures Remove(s, removed)[i] == s[Skip(i, removed)]
  {
  }
}

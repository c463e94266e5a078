/** The chip icon pattern (src/identicon.hpp): a 32-bit integer hash fills a
    Size x Size bit grid whose columns are mirrored left to right. */
module Identicon {

  const RowFactor: nat := 92837111
  const ColFactor: nat := 689287499

  /** The `hash` lambda: xor, shift, add and multiply, all modulo 2^32. */
  function Hash(x: bv32): bv32 {
    var x1 := (x ^ 61) ^ (x >> 16);
    var x2 := x1 + (x1 << 3);
    var x3 := x2 ^ (x2 >> 4);
    var x4 := x3 * 0x27d4eb2d;
    x4 ^ (x4 >> 15)
  }

  /** A few values of `hash`, as test vectors. */
  lemma HashVectors()
    ensures Hash(0) == 0xc0a9496a && Hash(1) == 0x27922c9d && Hash(42) == 0x572f8d19
  {
  }

  /** A `size_t` product reduced to the 32 bits `hash` receives. */
  function Wrap(n: nat): bv32 {
    (n % 0x1_0000_0000) as bv32
  }

  /** The number of columns computed; the rest are mirror images. */
  function Half(size: nat): nat {
    size / 2 + size % 2
  }

  /** The value computed for row `row`, column `col`: bit `col % 16` of the
      hash of the seed salted with the row and the column. */
  function Bit(seed: bv32, row: nat, col: nat): bool {
    var h := Hash(seed ^ Wrap(row * RowFactor) ^ Wrap(col * ColFactor));
    (h >> (col % 16)) & 1 == 1
  }

  /** The computed column whose value lands in column `col`. */
  function Source(size: nat, col: nat): nat
    requires col < size
  {
    if col < Half(size) then col else size - 1 - col
  }

  /** The cell the generator leaves at (`row`, `col`). */
  function Pixel(size: nat, seed: bv32, row: nat, col: nat): bool
    requires col < size
  {
    Bit(seed, row, Source(size, col))
  }

  /** Every column is written: the column it takes its value from is one
      of the computed ones, and is the column itself or its mirror. */
  lemma EveryColumnWritten(size: nat, col: nat)
    requires col < size
    ensures Source(size, col) < Half(size)
    ensures Source(size, col) == col || Source(size, col) == size - 1 - col
  {
  }

  /** The grid is mirrored left to right, and a computed column holds the
      hash bit of its own index. */
  lemma {:induction false} PixelMirrored(size: nat, seed: bv32, row: nat, col: nat)
    requires col < size
    ensures Pixel(size, seed, row, col) == Pixel(size, seed, row, size - 1 - col)
    ensures col < Half(size) ==> Pixel(size, seed, row, col) == Bit(seed, row, col)
  {
    assert Source(size, col) == Source(size, size - 1 - col);
  }

  /** For the 5 x 5 icons the program draws, the row and column products
      fit in 32 bits, so no salt is truncated. */
  lemma FiveByFiveFits(row: nat, col: nat)
    requires row < 5 && col < Half(5)
    ensures row * RowFactor < 0x1_0000_0000 && col * ColFactor < 0x1_0000_0000
  {
    if row == 4 {
    } else if row == 3 {
    } else if row == 2 {
    } else if row == 1 {
    }
    if col == 2 {
    } else if col == 1 {
    }
  }

  /** The columns that take their value from computed column `col` are
      `col` and its mirror. */
  lemma MirrorPair(size: nat, col: nat, c: nat)
    requires col < Half(size) && c < size
    ensures Source(size, c) == col <==> c == col || c == size - 1 - col
  {
  }

  /** One pass of the outer loop of `generateIdenticon`: row `row` of the
      grid gets its computed columns and their mirrors; no other row changes. */
  method FillRow(grid: array2<bool>, size: nat, seed: bv32, row: nat)
    requires grid.Length0 == size && grid.Length1 == size && row < size
    modifies grid
    ensures forall c :: 0 <= c < size ==> grid[row, c] == Pixel(size, seed, row, c)
    ensures forall r, c :: 0 <= r < size && r != row && 0 <= c < size ==> grid[r, c] == old(grid[r, c])
  {
    var half := Half(size);
    var col := 0;
    while col < half
      invariant 0 <= col <= half
      invariant forall r, c :: 0 <= r < size && r != row && 0 <= c < size ==> grid[r, c] == old(grid[r, c])
      invariant forall c :: 0 <= c < size && Source(size, c) < col ==> grid[row, c] == Pixel(size, seed, row, c)
    {
      var value := Bit(seed, row, col);
      MirrorPair(size, col, col);
      MirrorPair(size, col, size - col - 1);
      label Before:
      grid[row, col] := value;
      grid[row, size - col - 1] := value;
      forall c | 0 <= c < size && Source(size, c) < col + 1
        ensures grid[row, c] == Pixel(size, seed, row, c)
      {
        MirrorPair(size, col, c);
        if c == col || c == size - col - 1 {
          assert grid[row, c] == value;
        } else {
          assert grid[row, c] == old@Before(grid[row, c]);
        }
      }
      col := col + 1;
    }
    forall c | 0 <= c < size
      ensures grid[row, c] == Pixel(size, seed, row, c)
    {
      EveryColumnWritten(size, c);
    }
  }

  /** `generateIdenticon<Size>(seed)`: fills the grid row by row, writing
      each computed column and its mirror. The result depends on `seed`
      (and `size`) alone. */
  method GenerateIdenticon(size: nat, seed: bv32) returns (grid: array2<bool>)
    ensures fresh(grid) && grid.Length0 == size && grid.Length1 == size
    ensures forall r, c :: 0 <= r < size && 0 <= c < size ==> grid[r, c] == Pixel(size, seed, r, c)
    ensures forall r, c :: 0 <= r < size && 0 <= c < size ==> grid[r, c] == grid[r, size - 1 - c]
    ensures forall r, c :: 0 <= r < size && 0 <= c < Half(size) ==> grid[r, c] == Bit(seed, r, c)
  {
    grid := new bool[size, size];
    var row := 0;
    while row < size
      invariant 0 <= row <= size
      invariant forall r, c :: 0 <= r < row && 0 <= c < size ==> grid[r, c] == Pixel(size, seed, r, c)
    {
      FillRow(grid, size, seed, row);
      row := row + 1;
    }
    forall r, c | 0 <= r < size && 0 <= c < size
      ensures grid[r, c] == grid[r, size - 1 - c]
      ensures c < Half(size) ==> grid[r, c] == Bit(seed, r, c)
    {
      PixelMirrored(size, seed, r, c);
    }
  }
}

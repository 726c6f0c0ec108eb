/**
  `_compress` / `_decompress`: the occupancy grid as a bit stream, cell
  `(x, y)` at bit `y * tilesX + x`, eight bits to a byte, least significant
  bit first.
*/
module BitPacker {
  import opened TileGrid

  /** Bit `j` of byte `b`: `(b & (1 << j)) != 0`. */
  predicate BitOf(b: bv8, j: nat)
    requires j < 8
  {
    b & (1 << j) != 0
  }

  /** Bit `k` of a byte stream. */
  predicate StreamBit(bytes: seq<bv8>, k: nat)
    requires k < 8 * |bytes|
  {
    BitOf(bytes[k / 8], k % 8)
  }

  /** A byte is determined by its eight bits. */
  lemma BitsDetermineByte(a: bv8, b: bv8)
    requires forall j :: 0 <= j < 8 ==> BitOf(a, j) == BitOf(b, j)
    ensures a == b
  {
    assert BitOf(a, 0) == BitOf(b, 0) && BitOf(a, 1) == BitOf(b, 1);
    assert BitOf(a, 2) == BitOf(b, 2) && BitOf(a, 3) == BitOf(b, 3);
    assert BitOf(a, 4) == BitOf(b, 4) && BitOf(a, 5) == BitOf(b, 5);
    assert BitOf(a, 6) == BitOf(b, 6) && BitOf(a, 7) == BitOf(b, 7);
  }

  /** Shifting a byte left by one and or-ing in a low bit. */
  lemma ShiftInBit(c: bv8, low: bool, j: nat)
    requires j < 8
    ensures BitOf((c << 1) | (if low then 1 else 0), j) == if j == 0 then low else BitOf(c, j - 1)
  {
  }

  /** Up to eight bits packed into one byte, bit `j` of the byte from `bits[j]`,
      the unused high bits zero. */
  function Byte(bits: seq<bool>): (b: bv8)
    requires |bits| <= 8
    ensures forall j :: 0 <= j < 8 ==> BitOf(b, j) == (j < |bits| && bits[j])
    decreases |bits|
  {
    if |bits| == 0 then 0
    else
      var rest := Byte(bits[1..]);
      var b := (rest << 1) | (if bits[0] then 1 else 0);
      assert forall j :: 0 <= j < 8 ==> BitOf(b, j) == (j < |bits| && bits[j]) by {
        forall j | 0 <= j < 8
          ensures BitOf(b, j) == if j == 0 then bits[0] else BitOf(rest, j - 1)
        {
          ShiftInBit(rest, bits[0], j);
        }
      }
      b
  }

  /** The stream position of cell `(x, y)` in a grid `w` cells wide: `x` past
      the start of row `y`, each earlier row taking `w` bits. */
  function BitIndex(w: nat, x: nat, y: nat): nat
    decreases y
  {
    if y == 0 then x else BitIndex(w, x, y - 1) + w
  }

  /** The position is the row-major index `y * w + x`. */
  lemma {:induction false} BitIndexIsRowMajor(w: nat, x: nat, y: nat)
    ensures BitIndex(w, x, y) == y * w + x
    decreases y
  {
    if y > 0 {
      BitIndexIsRowMajor(w, x, y - 1);
      MulSucc(y - 1, w);
    }
  }

  /** A cell's position is its row's start plus `x`. */
  lemma {:induction false} BitIndexShift(w: nat, x: nat, y: nat)
    ensures BitIndex(w, x, y) == BitIndex(w, 0, y) + x
    decreases y
  {
    if y > 0 {
      BitIndexShift(w, x, y - 1);
    }
  }

  /** Rows before row `y` end before row `y` starts. */
  lemma {:induction false} BitIndexMonotone(w: nat, y: nat, y': nat)
    requires y <= y'
    ensures BitIndex(w, 0, y) + (y' - y) * w == BitIndex(w, 0, y')
    decreases y' - y
  {
    if y < y' {
      BitIndexMonotone(w, y, y' - 1);
      MulSucc(y' - 1 - y, w);
    }
  }

  /** Cell `(x, y)` of a `w` × `h` grid has a position below `w * h`. */
  lemma BitIndexInRange(w: nat, h: nat, x: nat, y: nat)
    requires x < w && y < h
    ensures 0 <= BitIndex(w, x, y) < BitIndex(w, 0, h) == w * h
  {
    BitIndexShift(w, x, y);
    BitIndexMonotone(w, y + 1, h);
    BitIndexIsRowMajor(w, 0, h);
    assert (h - (y + 1)) * w >= 0;
  }

  /** Every position below `w * h` is that of a cell. */
  lemma {:induction false} CellOfBitIndex(w: nat, h: nat, k: int) returns (x: nat, y: nat)
    requires 0 <= k < BitIndex(w, 0, h)
    ensures x < w && y < h && BitIndex(w, x, y) == k
    decreases h
  {
    assert h > 0;
    if k < BitIndex(w, 0, h - 1) {
      x, y := CellOfBitIndex(w, h - 1, k);
    } else {
      x, y := k - BitIndex(w, 0, h - 1), h - 1;
      BitIndexShift(w, x, y);
    }
  }

  /** The occupancy of rows `0 .. rows - 1`, row after row, each row in
      column order: the order of the loops in `_compress` and `_decompress`. */
  function Flatten(g: seq<seq<bool>>, w: nat, rows: nat): (bits: seq<bool>)
    requires |g| == w && forall x :: 0 <= x < w ==> rows <= |g[x]|
    ensures |bits| == BitIndex(w, 0, rows)
    ensures forall x: nat, y: nat :: x < w && y < rows ==>
              BitIndex(w, x, y) < |bits| && bits[BitIndex(w, x, y)] == g[x][y]
    decreases rows
  {
    if rows == 0 then []
    else
      var prefix := Flatten(g, w, rows - 1);
      var row := seq(w, x requires 0 <= x < w => g[x][rows - 1]);
      var bits := prefix + row;
      forall x: nat, y: nat | x < w && y < rows
        ensures BitIndex(w, x, y) < |bits| && bits[BitIndex(w, x, y)] == g[x][y]
      {
        BitIndexShift(w, x, y);
        if y < rows - 1 {
          BitIndexMonotone(w, y + 1, rows - 1);
          assert (rows - 1 - (y + 1)) * w >= 0;
        }
      }
      bits
  }

  /** A bit stream packed eight bits to a byte, least significant bit first;
      the high bits of a partial last byte are zero. */
  function Pack(bits: seq<bool>): (bytes: seq<bv8>)
    ensures |bytes| == (|bits| + 7) / 8
    ensures forall k :: 0 <= k < 8 * |bytes| ==> StreamBit(bytes, k) == (k < |bits| && bits[k])
    decreases |bits|
  {
    if |bits| <= 8 then
      if |bits| == 0 then [] else [Byte(bits)]
    else
      var rest := Pack(bits[8..]);
      var bytes := [Byte(bits[..8])] + rest;
      forall k | 0 <= k < 8 * |bytes|
        ensures StreamBit(bytes, k) == (k < |bits| && bits[k])
      {
        if k >= 8 {
          assert k / 8 == (k - 8) / 8 + 1 && k % 8 == (k - 8) % 8;
          assert StreamBit(bytes, k) == StreamBit(rest, k - 8);
          assert StreamBit(rest, k - 8) == (k - 8 < |bits[8..]| && bits[8..][k - 8]);
        } else {
          assert StreamBit(bytes, k) == BitOf(Byte(bits[..8]), k);
        }
      }
      bytes
  }

  /** `_compress(tiles, tilesX, tilesY)` */
  function Compress(g: seq<seq<bool>>, w: nat, h: nat): (bytes: seq<bv8>)
    requires IsGrid(g, w, h)
    ensures |bytes| == (w * h + 7) / 8
    ensures forall x: nat, y: nat :: x < w && y < h ==>
              BitIndex(w, x, y) < 8 * |bytes| && StreamBit(bytes, BitIndex(w, x, y)) == g[x][y]
    ensures forall k :: w * h <= k < 8 * |bytes| ==> !StreamBit(bytes, k)
  {
    var bits := Flatten(g, w, h);
    BitIndexIsRowMajor(w, 0, h);
    var n := w * h;
    assert |bits| == n;
    var bytes := Pack(bits);
    assert 8 * |bytes| >= n;
    forall x: nat, y: nat | x < w && y < h
      ensures BitIndex(w, x, y) < 8 * |bytes| && StreamBit(bytes, BitIndex(w, x, y)) == g[x][y]
    {
      assert bits[BitIndex(w, x, y)] == g[x][y];
    }
    bytes
  }

  /** `_decompress(bytes, tilesX, tilesY)`, for a buffer long enough that no
      read falls off its end: cell `(x, y)` is read from its stream position. */
  function Decompress(bytes: seq<bv8>, w: nat, h: nat): (g: seq<seq<bool>>)
    requires |bytes| >= (w * h + 7) / 8
    ensures IsGrid(g, w, h)
  {
    seq(w, x requires 0 <= x < w =>
      seq(h, y requires 0 <= y < h =>
        BitIndexInRange(w, h, x, y);
        StreamBit(bytes, BitIndex(w, x, y))))
  }

  /** Decompressing reads cell `(x, y)` back from its stream position. */
  lemma DecompressReadsBit(bytes: seq<bv8>, w: nat, h: nat, x: nat, y: nat)
    requires |bytes| >= (w * h + 7) / 8 && x < w && y < h
    ensures BitIndex(w, x, y) < 8 * |bytes|
    ensures Decompress(bytes, w, h)[x][y] == StreamBit(bytes, BitIndex(w, x, y))
  {
    BitIndexInRange(w, h, x, y);
  }

  /** Bytes past the grid's bits are never read. */
  lemma DecompressIgnoresExtra(bytes: seq<bv8>, extra: seq<bv8>, w: nat, h: nat)
    requires |bytes| >= (w * h + 7) / 8
    ensures Decompress(bytes + extra, w, h) == Decompress(bytes, w, h)
  {
    var g, g' := Decompress(bytes + extra, w, h), Decompress(bytes, w, h);
    forall x | 0 <= x < w
      ensures g[x] == g'[x]
    {
      forall y | 0 <= y < h
        ensures g[x][y] == g'[x][y]
      {
        DecompressReadsBit(bytes + extra, w, h, x, y);
        DecompressReadsBit(bytes, w, h, x, y);
      }
    }
  }

  /** `_decompress(_compress(g)) == g`. */
  lemma DecompressCompress(g: seq<seq<bool>>, w: nat, h: nat)
    requires IsGrid(g, w, h)
    ensures Decompress(Compress(g, w, h), w, h) == g
  {
    var g' := Decompress(Compress(g, w, h), w, h);
    forall x | 0 <= x < w
      ensures g'[x] == g[x]
    {
      forall y | 0 <= y < h
        ensures g'[x][y] == g[x][y]
      {
        DecompressReadsBit(Compress(g, w, h), w, h, x, y);
      }
    }
  }

  /** Re-packing an unpacked buffer gives back each of its bits. */
  lemma CompressDecompressBit(bytes: seq<bv8>, w: nat, h: nat, k: int)
    requires |bytes| == (w * h + 7) / 8 && 0 <= k < 8 * |bytes|
    requires forall k :: w * h <= k < 8 * |bytes| ==> !StreamBit(bytes, k)
    ensures StreamBit(Compress(Decompress(bytes, w, h), w, h), k) == StreamBit(bytes, k)
  {
    var g := Decompress(bytes, w, h);
    var bytes' := Compress(g, w, h);
    if k < w * h {
      BitIndexIsRowMajor(w, 0, h);
      var x, y := CellOfBitIndex(w, h, k);
      DecompressReadsBit(bytes, w, h, x, y);
      assert StreamBit(bytes', BitIndex(w, x, y)) == g[x][y];
    } else {
      assert !StreamBit(bytes', k);
    }
  }

  /** The other way round: a buffer of exactly the packed length whose unused
      high bits are zero is reproduced by `_compress(_decompress(bytes))`. */
  lemma CompressDecompress(bytes: seq<bv8>, w: nat, h: nat)
    requires |bytes| == (w * h + 7) / 8
    requires forall k :: w * h <= k < 8 * |bytes| ==> !StreamBit(bytes, k)
    ensures Compress(Decompress(bytes, w, h), w, h) == bytes
  {
    var bytes' := Compress(Decompress(bytes, w, h), w, h);
    forall i | 0 <= i < |bytes|
      ensures bytes'[i] == bytes[i]
    {
      forall j | 0 <= j < 8
        ensures BitOf(bytes'[i], j) == BitOf(bytes[i], j)
      {
        var k := 8 * i + j;
        assert k / 8 == i && k % 8 == j;
        CompressDecompressBit(bytes, w, h, k);
      }
      BitsDetermineByte(bytes'[i], bytes[i]);
    }
  }
}

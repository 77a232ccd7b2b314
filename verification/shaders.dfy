/** The WGSL compute kernels of src/shaders.ts, and the per-cell dispatch that
    runs them. A dispatch over a width x height grid runs one invocation per
    cell (x, y); each invocation of these kernels stores into the buffer cell
    x + y * width and nowhere else, so no two invocations write the same cell
    and the parallel dispatch has the same effect as the row-by-row loop that
    RowMajorPass runs. */
module Shaders {
  import opened Words

  /** The buffer cell that the invocation for grid cell (x, y) addresses:
      `x + y * width` evaluated in wrapping u32 arithmetic. */
  function CellIndex(x: int, y: int, width: int): (r: u32)
    ensures 0 <= x + y * width < WORD_SPACE ==> r == x + y * width
    ensures (r - (x + y * width)) % WORD_SPACE == 0
  {
    Wrap(x + y * width)
  }

  /** A width x height grid fits a buffer of n u32 cells: every cell index is
      inside the buffer and representable as a u32. */
  predicate GridFits(width: nat, height: nat, n: nat)
  {
    width * height <= n <= WORD_SPACE
  }

  /** A workgroup count `dispatch` (on the host) accepts: its arguments are u32, and any
      other number makes the call throw a TypeError. */
  predicate DispatchAccepts(width: nat, height: nat)
  {
    width < WORD_SPACE && height < WORD_SPACE
  }

  /** Row-major cell numbering: cell (x, y) sits at x + y * width, below
      width * height, and the number gives back its column and row. */
  lemma CellIndexInGrid(x: nat, y: nat, width: nat, height: nat)
    requires x < width && y < height && width * height <= WORD_SPACE
    ensures CellIndex(x, y, width) == x + y * width < width * height
    ensures (x + y * width) % width == x && (x + y * width) / width == y
  {
    calc {
      x + y * width;
    <  width + y * width;
    == (y + 1) * width;
    <= { assert y + 1 <= height; } height * width;
    }
    DivModUnique(x + y * width, width, y, x);
  }

  /** Euclidean division is unique. */
  lemma DivModUnique(n: nat, d: nat, q: nat, r: nat)
    requires 0 <= r < d && n == q * d + r
    ensures n / d == q && n % d == r
  {
    var q', r' := n / d, n % d;
    assert n == q' * d + r';
    if q' < q {
      MulStrict(q', q, d);
    } else if q < q' {
      MulStrict(q, q', d);
    }
  }

  /** A larger factor adds at least one more d. */
  lemma MulStrict(a: nat, b: nat, d: nat)
    requires a < b
    ensures a * d + d <= b * d
  {
    assert b * d == a * d + (b - a) * d;
    MulMonotone(1, b - a, d);
  }

  lemma MulMonotone(a: nat, b: nat, d: nat)
    requires a <= b
    ensures a * d <= b * d
  {
    assert b * d == a * d + (b - a) * d;
  }

  /** Distinct grid cells address distinct buffer cells. */
  lemma CellIndexInjective(x1: nat, y1: nat, x2: nat, y2: nat, width: nat, height: nat)
    requires x1 < width && y1 < height && x2 < width && y2 < height
    requires width * height <= WORD_SPACE
    requires CellIndex(x1, y1, width) == CellIndex(x2, y2, width)
    ensures x1 == x2 && y1 == y2
  {
    CellIndexInGrid(x1, y1, width, height);
    CellIndexInGrid(x2, y2, width, height);
  }

  /** Every buffer cell below width * height is addressed by the grid cell
      (i % width, i / width). */
  lemma CellIndexOnto(i: nat, width: nat, height: nat)
    requires i < width * height <= WORD_SPACE
    ensures 0 < width && i % width < width && i / width < height
    ensures CellIndex(i % width, i / width, width) == i
  {
    assert i == i % width + (i / width) * width;
    if i / width >= height {
      MulMonotone(height, i / width, width);
    }
  }

  // ---------------------------------------------------------------- invert

  /** shader_invert's per-cell value: 4294967295u - v. */
  function InvertCell(v: u32): (r: u32)
    ensures r + v == U32_MAX
  {
    U32_MAX - v
  }

  /** Complementing a u32 complements each of its four packed bytes. */
  lemma InvertPerByte(b0: byte, b1: byte, b2: byte, b3: byte)
    ensures InvertCell(WordOf(b0, b1, b2, b3)) == WordOf(0xFF - b0, 0xFF - b1, 0xFF - b2, 0xFF - b3)
  {
  }

  // ------------------------------------------------------------ laplace 3x3

  /** Cells outside the one-cell band along the four edges of the grid. */
  predicate Interior(x: int, y: int, width: int, height: int)
  {
    x > 0 && y > 0 && x < width - 1 && y < height - 1
  }

  /** Each of the nine cells around an interior cell lies inside the grid. */
  lemma NeighbourInBounds(x: nat, y: nat, width: nat, height: nat, dx: int, dy: int)
    requires Interior(x, y, width, height) && width * height <= WORD_SPACE
    requires -1 <= dx <= 1 && -1 <= dy <= 1
    ensures 0 <= x + dx < width && 0 <= y + dy < height
    ensures CellIndex(x + dx, y + dy, width) == (x + dx) + (y + dy) * width < width * height
  {
    CellIndexInGrid(x + dx, y + dy, width, height);
  }

  /** The input value at offset (dx, dy) from an interior cell. */
  function Neighbour(input: seq<u32>, x: nat, y: nat, width: nat, height: nat, dx: int, dy: int): u32
    requires Interior(x, y, width, height) && GridFits(width, height, |input|)
    requires -1 <= dx <= 1 && -1 <= dy <= 1
  {
    NeighbourInBounds(x, y, width, height, dx, dy);
    input[CellIndex(x + dx, y + dy, width)]
  }

  /** laplace_3x3's per-cell value. Interior cells get the 3x3 weighted sum in
      wrapping u32 arithmetic (corner weights 0, edge weights -1, centre 4),
      so only the centre and its four edge neighbours contribute; cells in the
      boundary band get 0. */
  function LaplaceCell(input: seq<u32>, x: nat, y: nat, width: nat, height: nat): (r: u32)
    requires x < width && y < height && GridFits(width, height, |input|)
    ensures !Interior(x, y, width, height) ==> r == 0
    ensures Interior(x, y, width, height) ==>
      r == Wrap(4 * Neighbour(input, x, y, width, height, 0, 0)
                - Neighbour(input, x, y, width, height, 0, -1)
                - Neighbour(input, x, y, width, height, -1, 0)
                - Neighbour(input, x, y, width, height, 1, 0)
                - Neighbour(input, x, y, width, height, 0, 1))
  {
    if Interior(x, y, width, height) then
      Wrap(- 0 * Neighbour(input, x, y, width, height, -1, -1)
           - 1 * Neighbour(input, x, y, width, height, 0, -1)
           - 0 * Neighbour(input, x, y, width, height, 1, -1)
           - 1 * Neighbour(input, x, y, width, height, -1, 0)
           + 4 * Neighbour(input, x, y, width, height, 0, 0)
           - 1 * Neighbour(input, x, y, width, height, 1, 0)
           - 0 * Neighbour(input, x, y, width, height, -1, 1)
           - 1 * Neighbour(input, x, y, width, height, 0, 1)
           - 0 * Neighbour(input, x, y, width, height, 1, 1))
    else
      0
  }

  /** On an image whose cells all hold the same value, every Laplace output is 0. */
  lemma LaplaceOfConstant(input: seq<u32>, c: u32, x: nat, y: nat, width: nat, height: nat)
    requires x < width && y < height && GridFits(width, height, |input|)
    requires forall i :: 0 <= i < |input| ==> input[i] == c
    ensures LaplaceCell(input, x, y, width, height) == 0
  {
    if Interior(x, y, width, height) {
      NeighbourInBounds(x, y, width, height, 0, 0);
      NeighbourInBounds(x, y, width, height, 0, -1);
      NeighbourInBounds(x, y, width, height, -1, 0);
      NeighbourInBounds(x, y, width, height, 1, 0);
      NeighbourInBounds(x, y, width, height, 0, 1);
    }
  }

  // -------------------------------------------------------------- dispatch

  /** The kernel a compute pass runs. Invert and Laplace3x3 are the two WGSL
      programs of src/shaders.ts; RowMajorCopy is the identity shader of
      src/index.ts with its index corrected to x + y * width (see IdentityPass
      in module Index for the shader as written). */
  datatype Kernel = Invert | Laplace3x3 | RowMajorCopy

  /** The value kernel k stores for grid cell (x, y). */
  function CellValue(k: Kernel, input: seq<u32>, x: nat, y: nat, width: nat, height: nat): u32
    requires x < width && y < height && GridFits(width, height, |input|)
  {
    CellIndexInGrid(x, y, width, height);
    match k
    case Invert => InvertCell(input[CellIndex(x, y, width)])
    case Laplace3x3 => LaplaceCell(input, x, y, width, height)
    case RowMajorCopy => input[CellIndex(x, y, width)]
  }

  /** The output buffer after one dispatch of k over the grid: cells below
      width * height hold what their invocation stored, the rest keep what
      the buffer held before. */
  function PassResult(k: Kernel, input: seq<u32>, width: nat, height: nat, before: seq<u32>): (after: seq<u32>)
    requires |before| == |input| && GridFits(width, height, |input|)
    ensures |after| == |before|
  {
    seq(|before|, i requires 0 <= i < |before| =>
      if i < width * height then
        CellIndexOnto(i, width, height);
        CellValue(k, input, i % width, i / width, width, height)
      else
        before[i])
  }

  /** Grid cell (x, y)'s slot of the pass result holds the value its invocation stores. */
  lemma PassResultAt(k: Kernel, input: seq<u32>, width: nat, height: nat, before: seq<u32>, x: nat, y: nat)
    requires |before| == |input| && GridFits(width, height, |input|)
    requires x < width && y < height
    ensures CellIndex(x, y, width) == x + y * width < width * height
    ensures PassResult(k, input, width, height, before)[x + y * width] == CellValue(k, input, x, y, width, height)
  {
    CellIndexInGrid(x, y, width, height);
  }

  /** One compute pass: `dispatch(width, height)` of kernel k reading input and
      writing output, run cell by cell in row-major order. */
  method RowMajorPass(k: Kernel, input: array<u32>, output: array<u32>, width: nat, height: nat)
    requires input != output
    requires input.Length == output.Length && GridFits(width, height, input.Length)
    modifies output
    ensures output[..] == PassResult(k, input[..], width, height, old(output[..]))
  {
    ghost var before, src := output[..], input[..];
    ghost var target := PassResult(k, src, width, height, before);
    var y, rowStart := 0, 0;
    while y < height
      invariant 0 <= y <= height && rowStart == y * width
      invariant input[..] == src
      invariant forall i :: 0 <= i < output.Length ==>
        output[i] == if i < rowStart then target[i] else before[i]
    {
      var x := 0;
      while x < width
        invariant 0 <= x <= width
        invariant input[..] == src
        invariant forall i :: 0 <= i < output.Length ==>
          output[i] == if i < rowStart + x then target[i] else before[i]
      {
        PassResultAt(k, src, width, height, before, x, y);
        var index := CellIndex(x, y, width);
        assert index == rowStart + x;
        output[index] := CellValue(k, input[..], x, y, width, height);
        x := x + 1;
      }
      assert (y + 1) * width == y * width + width;
      y, rowStart := y + 1, rowStart + width;
    }
    forall i | 0 <= i < output.Length
      ensures output[i] == target[i]
    {
      if i >= rowStart {
        assert rowStart == width * height;
      }
    }
    assert output[..] == target;
  }

  /** After an invert pass every cell of the grid holds the complement of its input. */
  lemma InvertPassAt(input: seq<u32>, width: nat, height: nat, before: seq<u32>, i: nat)
    requires |before| == |input| && GridFits(width, height, |input|)
    requires i < width * height
    ensures PassResult(Invert, input, width, height, before)[i] == InvertCell(input[i])
  {
    CellIndexOnto(i, width, height);
  }

  /** Two invert passes over a grid that covers the whole buffer give back the input. */
  lemma InvertPassTwice(input: seq<u32>, width: nat, height: nat, before1: seq<u32>, before2: seq<u32>)
    requires |before1| == |input| == |before2| && width * height == |input| <= WORD_SPACE
    ensures PassResult(Invert, PassResult(Invert, input, width, height, before1), width, height, before2) == input
  {
    var once := PassResult(Invert, input, width, height, before1);
    var twice := PassResult(Invert, once, width, height, before2);
    forall i | 0 <= i < |input|
      ensures twice[i] == input[i]
    {
      InvertPassAt(input, width, height, before1, i);
      InvertPassAt(once, width, height, before2, i);
    }
  }

  /** After a Laplace pass every grid cell holds its LaplaceCell value:
      0 in the boundary band, the weighted sum inside. */
  lemma LaplacePassAt(input: seq<u32>, x: nat, y: nat, width: nat, height: nat, before: seq<u32>)
    requires |before| == |input| && GridFits(width, height, |input|)
    requires x < width && y < height
    ensures x + y * width < |input|
    ensures PassResult(Laplace3x3, input, width, height, before)[x + y * width] == LaplaceCell(input, x, y, width, height)
  {
    PassResultAt(Laplace3x3, input, width, height, before, x, y);
  }

  /** The corrected identity pass copies every cell of a grid that covers the buffer. */
  lemma RowMajorCopyIsIdentity(input: seq<u32>, width: nat, height: nat, before: seq<u32>)
    requires |before| == |input| && width * height == |input| <= WORD_SPACE
    ensures PassResult(RowMajorCopy, input, width, height, before) == input
  {
    var after := PassResult(RowMajorCopy, input, width, height, before);
    forall i | 0 <= i < |input|
      ensures after[i] == input[i]
    {
      CellIndexOnto(i, width, height);
    }
  }

  /** The 2 x 2 invert example: 0x00000000, 0xFFFFFFFF, 0x11223344, 0xAABBCCDD
      become 0xFFFFFFFF, 0x00000000, 0xEEDDCCBB, 0x55443322. */
  lemma InvertExample(before: seq<u32>)
    requires |before| == 4
    ensures PassResult(Invert, [0x0000_0000, 0xFFFF_FFFF, 0x1122_3344, 0xAABB_CCDD], 2, 2, before)
         == [0xFFFF_FFFF, 0x0000_0000, 0xEEDD_CCBB, 0x5544_3322]
  {
    var input: seq<u32> := [0x0000_0000, 0xFFFF_FFFF, 0x1122_3344, 0xAABB_CCDD];
    InvertPassAt(input, 2, 2, before, 0);
    InvertPassAt(input, 2, 2, before, 1);
    InvertPassAt(input, 2, 2, before, 2);
    InvertPassAt(input, 2, 2, before, 3);
  }
}

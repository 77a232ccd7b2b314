/** The host side of src/index.ts: padArray, the identity compute pass its
    processImage dispatches, and the read-back that strips the padding again.
    The GPU sees the padded byte buffer as u32 cells (module Words). */
module Index {
  import opened Words
  import Shaders

  // ---------------------------------------------------------------- padding

  /** The pad count padArray returns: 4 - len % 4, where 4 stands for "no padding". */
  function PadCount(len: nat): (pad: int)
    ensures 1 <= pad <= 4
    ensures pad == 4 <==> len % 4 == 0
    ensures (len + pad) % 4 == 0
  {
    4 - len % 4
  }

  function Zeros(n: nat): (z: seq<byte>)
    ensures |z| == n && forall i :: 0 <= i < n ==> z[i] == 0
  {
    seq(n, _ => 0)
  }

  /** The array padArray returns: the input bytes, followed by pad zero bytes
      unless pad is 4. */
  function Padded(bytes: seq<byte>): (padded: seq<byte>)
    ensures PadCount(|bytes|) != 4 ==> |padded| == |bytes| + PadCount(|bytes|)
    ensures PadCount(|bytes|) == 4 ==> padded == bytes
    ensures |padded| % 4 == 0
    ensures padded[..|bytes|] == bytes
    ensures forall i :: |bytes| <= i < |padded| ==> padded[i] == 0
  {
    var pad := PadCount(|bytes|);
    if pad != 4 then bytes + Zeros(pad) else bytes
  }

  /** padArray: copies the bytes into a fresh array and pushes zeros onto it
      until its length is a multiple of 4. */
  method PadArray(bytes: seq<byte>) returns (pad: int, inputArray: seq<byte>)
    ensures pad == PadCount(|bytes|)
    ensures inputArray == Padded(bytes)
  {
    inputArray := bytes;
    pad := 4 - |inputArray| % 4;
    if pad != 4 {
      for i := 0 to pad
        invariant inputArray == bytes + Zeros(i)
      {
        assert Zeros(i + 1) == Zeros(i) + [0];
        inputArray := inputArray + [0];
      }
    }
  }

  /** `buf.slice(0, end)` on an ArrayBuffer: a negative end counts back from
      the end of the buffer, and the end is clamped to 0 .. |buf|. */
  function SliceTo(buf: seq<byte>, end: int): (r: seq<byte>)
    ensures 0 <= end <= |buf| ==> |r| == end
    ensures end > |buf| ==> r == buf
    ensures end < 0 ==> |r| == if |buf| + end < 0 then 0 else |buf| + end
    ensures r == buf[..|r|]
  {
    var stop := if end < 0 then (if |buf| + end < 0 then 0 else |buf| + end)
                else if end <= |buf| then end else |buf|;
    buf[..stop]
  }

  /** The read-back branch of processImage: drop pad trailing bytes of the
      mapped read buffer unless pad is 4. */
  function Strip(copy: seq<byte>, pad: int): (r: seq<byte>)
    ensures |r| <= |copy| && r == copy[..|r|]
    ensures pad == 4 ==> r == copy
    ensures pad != 4 && 0 <= pad <= |copy| ==> |r| == |copy| - pad
  {
    if pad != 4 then SliceTo(copy, |copy| - pad) else copy
  }

  /** Stripping undoes padding: the read-back of an unchanged padded buffer is
      the original bytes. */
  lemma StripPadded(bytes: seq<byte>)
    ensures Strip(Padded(bytes), PadCount(|bytes|)) == bytes
  {
    var padded := Padded(bytes);
    if PadCount(|bytes|) != 4 {
      assert |padded| - PadCount(|bytes|) == |bytes|;
    }
  }

  /** Stripping a buffer of the padded length leaves exactly as many bytes as
      the original bytes had. */
  lemma StripLength(bytes: seq<byte>, copy: seq<byte>)
    requires |copy| == |Padded(bytes)|
    ensures |Strip(copy, PadCount(|bytes|))| == |bytes|
  {
  }

  // -------------------------------------------------------- identity shader

  /** The cell the inline shader of index.ts reads and writes for grid cell
      (x, y): global_id.x + global_id.y, in u32 arithmetic (no row stride). */
  function IdentityIndex(x: int, y: int): (r: u32)
    ensures 0 <= x + y < WORD_SPACE ==> r == x + y
    ensures (r - (x + y)) % WORD_SPACE == 0
  {
    Wrap(x + y)
  }

  /** The number of leading cells a width x height dispatch of that shader
      writes: the sums x + y cover 0 .. width + height - 2. */
  function IdentityReach(width: nat, height: nat): nat
  {
    if width == 0 || height == 0 then 0 else width + height - 1
  }

  /** Every grid cell writes a cell below the reach. */
  lemma IdentityWithinReach(x: nat, y: nat, width: nat, height: nat)
    requires x < width && y < height
    ensures x + y < IdentityReach(width, height)
  {
  }

  /** Every cell below the reach is written by some grid cell. */
  lemma IdentityReachedBy(i: nat, width: nat, height: nat) returns (x: nat, y: nat)
    requires i < IdentityReach(width, height)
    ensures x < width && y < height && x + y == i
  {
    x := if i < width then i else width - 1;
    y := i - x;
  }

  /** The result buffer after the identity dispatch: cells below the reach
      hold the input cell with the same number, the rest keep what the buffer
      held before. */
  function IdentityResult(input: seq<u32>, width: nat, height: nat, before: seq<u32>): (after: seq<u32>)
    requires |input| == |before|
    ensures |after| == |before|
  {
    seq(|before|, i requires 0 <= i < |before| =>
      if i < IdentityReach(width, height) then input[i] else before[i])
  }

  /** How far the identity dispatch has got after row y's first x cells:
      rows 0 .. y-1 reach width + y - 1, and row y adds cell x + y - 1. */
  function RowReach(width: nat, x: nat, y: nat): nat
  {
    if y == 0 then x
    else if width == 0 then 0
    else if width + y - 1 < x + y then x + y else width + y - 1
  }

  /** The dispatch of the inline shader of index.ts, run cell by cell: every
      invocation copies input cell x + y to output cell x + y. */
  method IdentityPass(input: array<u32>, output: array<u32>, width: nat, height: nat)
    requires input != output
    requires input.Length == output.Length
    requires IdentityReach(width, height) <= output.Length <= WORD_SPACE
    modifies output
    ensures output[..] == IdentityResult(input[..], width, height, old(output[..]))
  {
    ghost var before := output[..];
    var y := 0;
    while y < height
      invariant 0 <= y <= height
      invariant forall i :: 0 <= i < output.Length ==>
        output[i] == if i < IdentityReach(width, y) then input[i] else before[i]
    {
      var x := 0;
      while x < width
        invariant 0 <= x <= width
        invariant forall i :: 0 <= i < output.Length ==>
          output[i] == if i < RowReach(width, x, y) then input[i] else before[i]
      {
        var index := IdentityIndex(x, y);
        output[index] := input[index];
        x := x + 1;
      }
      y := y + 1;
    }
    assert output[..] == IdentityResult(input[..], width, height, before);
  }

  /** The identity dispatch is not a copy: on any grid of at least 2 x 2
      cells that covers the buffer, the last cell is never written, so it
      keeps the old content of the result buffer instead of the input's. */
  lemma IdentityMissesLastCell(input: seq<u32>, width: nat, height: nat, before: seq<u32>)
    requires width >= 2 && height >= 2
    requires |input| == |before| == width * height
    requires input[width * height - 1] != before[width * height - 1]
    ensures IdentityReach(width, height) < width * height
    ensures IdentityResult(input, width, height, before) != input
  {
    Shaders.MulMonotone(1, width - 1, height - 1);
    assert (width - 1) * (height - 1) == width * height - width - height + 1;
    var last := width * height - 1;
    assert IdentityReach(width, height) <= last;
    var after := IdentityResult(input, width, height, before);
    assert after[last] == before[last];
  }

  /** The 2 x 2 example: the cell at index 3 keeps its old value. */
  lemma IdentityExample()
    ensures IdentityResult([1, 2, 3, 4], 2, 2, [0, 0, 0, 0]) == [1, 2, 3, 0]
  {
    var after := IdentityResult([1, 2, 3, 4], 2, 2, [0, 0, 0, 0]);
    assert IdentityReach(2, 2) == 3;
    assert after[0] == 1 && after[1] == 2 && after[2] == 3 && after[3] == 0;
  }

  // ----------------------------------------------------------- processImage

  /** Byte sizes of the three buffers processImage creates, and of the
      copy from the result buffer into the read buffer. */
  datatype BufferSizes = BufferSizes(input: nat, result: nat, read: nat, copy: nat)

  /** The promise processImage returns: it never settles when no device is
      obtained or when the callback that encodes the pass throws, and
      otherwise resolves with the stripped read-back. */
  datatype Outcome = Pending | Resolved(buffers: BufferSizes, data: seq<byte>)

  /** processImage of index.ts. `device` says whether a device was obtained;
      `resultInit` is what the fresh result buffer holds before the pass.
      A `dispatch` that throws does so inside the device callback, so
      `resolve` is never called and the promise stays pending. */
  method ProcessImage(bytes: seq<byte>, width: nat, height: nat, device: bool, resultInit: seq<u32>)
    returns (r: Outcome)
    requires device && Shaders.DispatchAccepts(width, height) ==> |resultInit| == |Padded(bytes)| / 4
    requires device && Shaders.DispatchAccepts(width, height) ==> IdentityReach(width, height) <= |resultInit| <= WORD_SPACE
    ensures r.Pending? <==> !device || !Shaders.DispatchAccepts(width, height)
    ensures r.Resolved? ==> r.buffers == BufferSizes(|Padded(bytes)|, |Padded(bytes)|, |Padded(bytes)|, |Padded(bytes)|)
    ensures r.Resolved? ==>
      r.data == Strip(ToBytes(IdentityResult(ToWords(Padded(bytes)), width, height, resultInit)), PadCount(|bytes|))
    ensures r.Resolved? ==> |r.data| == |bytes|
  {
    if !device {
      return Pending;
    }
    var pad, inputArray := PadArray(bytes);
    if !Shaders.DispatchAccepts(width, height) {
      return Pending;
    }
    var words := ToWords(inputArray);
    var gpuInputBuffer := new u32[|words|](i requires 0 <= i < |words| => words[i]);
    var gpuResultBuffer := new u32[|resultInit|](i requires 0 <= i < |resultInit| => resultInit[i]);
    assert gpuInputBuffer[..] == words && gpuResultBuffer[..] == resultInit;
    IdentityPass(gpuInputBuffer, gpuResultBuffer, width, height);
    var sizes := BufferSizes(|inputArray|, |inputArray|, |inputArray|, |inputArray|);
    var copyArrayBuffer := ToBytes(gpuResultBuffer[..]);
    StripLength(bytes, copyArrayBuffer);
    r := Resolved(sizes, Strip(copyArrayBuffer, pad));
  }

  /** Decoded RGBA data of width x height x 4 bytes needs no padding, and the
      identity dispatch over it stays inside the result buffer. */
  lemma DecodedImageFits(bytes: seq<byte>, width: nat, height: nat)
    requires |bytes| == 4 * (width * height) && width * height <= WORD_SPACE
    ensures |Padded(bytes)| / 4 == width * height
    ensures IdentityReach(width, height) <= width * height
  {
    assert Padded(bytes) == bytes;
    if width > 0 && height > 0 {
      Shaders.MulMonotone(0, width - 1, height - 1);
      assert (width - 1) * (height - 1) == width * height - width - height + 1;
    }
  }

  /** With the row stride restored (kernel RowMajorCopy), the identity
      pipeline returns exactly the input bytes of a width x height RGBA image. */
  lemma CorrectedRoundTrip(bytes: seq<byte>, width: nat, height: nat, resultInit: seq<u32>)
    requires |bytes| == 4 * (width * height) && width * height <= WORD_SPACE
    requires |resultInit| == width * height
    ensures |resultInit| == |Padded(bytes)| / 4
    ensures Strip(ToBytes(Shaders.PassResult(Shaders.RowMajorCopy, ToWords(Padded(bytes)), width, height, resultInit)),
                  PadCount(|bytes|)) == bytes
  {
    assert Padded(bytes) == bytes;
    Shaders.RowMajorCopyIsIdentity(ToWords(bytes), width, height, resultInit);
    ToBytesToWords(bytes);
  }
}

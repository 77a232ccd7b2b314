/** src/compute.ts: the CPU invert processImageCpu, and the GPU processImage
    that uploads the image with its dimensions record, runs shader_invert
    over a width x height grid and reads the whole result buffer back. */
module Compute {
  import opened Words
  import Shaders

  // ------------------------------------------------------------------- CPU

  /** Every byte replaced by 0xFF minus it. */
  function Complement(s: seq<byte>): seq<byte>
  {
    seq(|s|, i requires 0 <= i < |s| => 0xFF - s[i])
  }

  /** Complementing twice gives back the original bytes. */
  lemma ComplementTwice(s: seq<byte>)
    ensures Complement(Complement(s)) == s
  {
    var twice := Complement(Complement(s));
    forall i | 0 <= i < |s|
      ensures twice[i] == s[i]
    {
    }
  }

  /** processImageCpu: writes 0xFF - b for every byte b of the input into a
      new array of the same length; width and height are not used. The
      input array is only read. */
  method ProcessImageCpu(bytes: array<byte>, width: int, height: int) returns (result: array<byte>)
    ensures fresh(result)
    ensures result.Length == bytes.Length
    ensures forall i :: 0 <= i < bytes.Length ==> result[i] as int + bytes[i] as int == 0xFF
    ensures result[..] == Complement(bytes[..])
  {
    result := new byte[bytes.Length];
    for i := 0 to bytes.Length
      invariant forall j :: 0 <= j < i ==> result[j] == 0xFF - bytes[j]
    {
      var tmp := bytes[i];
      result[i] := 0xFF - tmp;
    }
    assert result[..] == Complement(bytes[..]);
  }

  // ------------------------------------------------------------------- GPU

  /** `new Int32Array([width, height])`: the dimensions record, two int32
      values that shader_invert reads back as the u32 pair size. */
  function SizeArray(width: nat, height: nat): (sizes: seq<int>)
    ensures |sizes| == 2
    ensures forall i :: 0 <= i < |sizes| ==> -0x8000_0000 <= sizes[i] < 0x8000_0000
    ensures width < 0x8000_0000 && height < 0x8000_0000 ==> sizes == [width, height]
    ensures AsU32(sizes[0]) == width % WORD_SPACE && AsU32(sizes[1]) == height % WORD_SPACE
  {
    Int32AsU32(width);
    Int32AsU32(height);
    [ToInt32(width), ToInt32(height)]
  }

  /** The byte length of an Int32Array. */
  function Int32ByteLength(values: seq<int>): nat
  {
    4 * |values|
  }

  /** What processImage hands the device: the dimensions record, the byte
      sizes of the dimensions, input, result and read buffers, and the byte
      count of the copy from the result buffer into the read buffer. */
  datatype Buffers = Buffers(sizeArray: seq<int>, widthHeight: nat, input: nat, result: nat, read: nat, copy: nat)

  /** The promise processImage returns: rejected when no device is obtained
      or when the promise's executor throws, else resolved with the read
      buffer's bytes. */
  datatype Outcome = Rejected | Resolved(buffers: Buffers, data: seq<byte>)

  /** processImage of compute.ts. `device` says whether a device was
      obtained; `resultInit` is what the fresh result buffer holds before the
      pass (cells past width * height are not written by shader_invert).
      A `dispatch` that throws does so inside the promise's executor, which
      rejects the promise. */
  method ProcessImage(bytes: seq<byte>, width: nat, height: nat, device: bool, resultInit: seq<u32>)
    returns (r: Outcome)
    requires device && Shaders.DispatchAccepts(width, height) ==> |bytes| % 4 == 0 && |resultInit| == |bytes| / 4
    requires device && Shaders.DispatchAccepts(width, height) ==> Shaders.GridFits(width, height, |bytes| / 4)
    ensures r.Rejected? <==> !device || !Shaders.DispatchAccepts(width, height)
    ensures r.Resolved? ==>
      r.buffers == Buffers(SizeArray(width, height), 8, |bytes|, |bytes|, |bytes|, |bytes|)
    ensures r.Resolved? ==>
      r.data == ToBytes(Shaders.PassResult(Shaders.Invert, ToWords(bytes), width, height, resultInit))
    ensures r.Resolved? ==> |r.data| == |bytes|
  {
    if !device {
      return Rejected;
    }
    var sizeArray := SizeArray(width, height);
    if !Shaders.DispatchAccepts(width, height) {
      return Rejected;
    }
    var words := ToWords(bytes);
    var gpuInputBuffer := new u32[|words|](i requires 0 <= i < |words| => words[i]);
    var gpuResultBuffer := new u32[|resultInit|](i requires 0 <= i < |resultInit| => resultInit[i]);
    assert gpuInputBuffer[..] == words && gpuResultBuffer[..] == resultInit;
    // the row stride the shader reads from the dimensions record
    var rowWidth := AsU32(sizeArray[0]);
    Shaders.RowMajorPass(Shaders.Invert, gpuInputBuffer, gpuResultBuffer, rowWidth, height);
    var buffers := Buffers(sizeArray, Int32ByteLength(sizeArray), |bytes|, |bytes|, |bytes|, |bytes|);
    r := Resolved(buffers, ToBytes(gpuResultBuffer[..]));
  }

  /** For a width x height RGBA image the GPU invert agrees byte for byte
      with processImageCpu. */
  lemma GpuInvertIsComplement(bytes: seq<byte>, width: nat, height: nat, resultInit: seq<u32>)
    requires |bytes| == 4 * (width * height) && width * height <= WORD_SPACE
    requires |resultInit| == width * height
    ensures ToBytes(Shaders.PassResult(Shaders.Invert, ToWords(bytes), width, height, resultInit)) == Complement(bytes)
  {
    var ws := ToWords(bytes);
    var cs := ToWords(Complement(bytes));
    var after := Shaders.PassResult(Shaders.Invert, ws, width, height, resultInit);
    forall k | 0 <= k < |ws|
      ensures after[k] == cs[k]
    {
      Shaders.InvertPassAt(ws, width, height, resultInit, k);
      ToWordsAt(bytes, k);
      ToWordsAt(Complement(bytes), k);
      Shaders.InvertPerByte(bytes[4 * k], bytes[4 * k + 1], bytes[4 * k + 2], bytes[4 * k + 3]);
    }
    assert after == cs;
    ToBytesToWords(Complement(bytes));
  }
}

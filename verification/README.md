# webgpu-computing-jpeg, modelled in Dafny

The repository is a browser page that decodes a JPEG, runs one WebGPU compute
pass over the decoded RGBA bytes and reads the result back. This project
models the computational core of that page and proves properties about it:

- **Padding** (`src/index.ts`). `padArray` pushes zero bytes until the length
  is a multiple of 4 and returns the pad count, where 4 means "no padding".
  The read-back callback slices those bytes off again. `Index.PadArray` is the
  loop. `Index.Padded` and `Index.Strip` are its specification and the slice.
  `Index.StripPadded` is the round trip.
- **The identity pipeline of `src/index.ts`**. Its inline shader copies cell
  `global_id.x + global_id.y` over a `width × height` dispatch. It is
  modelled exactly as written (`Index.IdentityPass`, `Index.ProcessImage`).
- **`src/compute.ts`**. `processImageCpu` is a loop that writes `0xFF - b` into
  a new array (`Compute.ProcessImageCpu`). The GPU `processImage` builds the
  `Int32Array` dimensions record and buffers of `array.length` bytes, runs
  `shader_invert` and returns the whole read buffer. It rejects when no device
  is obtained or `dispatch` throws (`Compute.ProcessImage`).
- **The WGSL kernels of `src/shaders.ts`**. Each kernel is a per-cell rule:
  `Shaders.InvertCell` and `Shaders.LaplaceCell`, with the row-major index
  `Shaders.CellIndex`. A dispatch is the nested row-by-row loop
  `Shaders.RowMajorPass`. That loop is equivalent to the parallel dispatch
  because every invocation stores only into its own cell `x + y * width`.
  `CellIndexInjective` and `CellIndexOnto` prove this.

Storage buffers are byte runs. WGSL sees them as little-endian u32 cells
(`Words.ToWords` and `Words.ToBytes`, which are mutual inverses). All u32
arithmetic is written out modulo 2^32 (`Words.Wrap`). `Int32Array` stores
values through ECMAScript's ToInt32 (`Words.ToInt32`).

Three behaviours of the source worth stating plainly:

- `laplace_3x3` writes `0` in its one-cell boundary band.
- Each pipeline runs one compute pass.
- With no device, or a width or height that is not a u32 (then `dispatch`
  throws), `index.ts`'s promise never settles (`Index.Outcome.Pending`).
  `compute.ts`'s promise rejects (`Compute.Outcome.Rejected`).

## Model

| member | source | states |
|---|---|---|
| Index.PadCount | src/index.ts:203-204 | the pad count is in 1..4, it is 4 exactly when the length is already a multiple of 4, and length + pad is a multiple of 4 |
| Index.Padded | src/index.ts:199-213 | the padded array has a length that is a multiple of 4, keeps the input as a prefix, and every appended byte is 0; its length is len + pad when pad != 4, and it is the input itself when pad == 4 |
| Index.PadArray | src/index.ts:199-213 | the push loop returns pad = PadCount(len) and exactly the padded array |
| Index.SliceTo | src/index.ts:188 | ArrayBuffer.slice(0, end) returns a prefix; its length is end when 0 <= end <= len; a negative end counts back from the end and is clamped at 0; an end past len keeps everything |
| Index.Strip | src/index.ts:187-191 | the read-back is always a prefix of the mapped bytes; with pad == 4 it is all of them, and otherwise it drops exactly pad trailing bytes when the buffer has that many (round trip in `Index.StripPadded`, length in `Index.StripLength`) |
| Index.StripPadded | src/index.ts:187-191 | stripping `pad` bytes from the padded array (or keeping all of it when pad == 4) gives back exactly the original bytes |
| Index.StripLength | src/index.ts:187-191 | the stripped read-back of any buffer of the padded length has the original length |
| Index.IdentityIndex | src/index.ts:232 | the inline shader's cell for grid cell (x, y) is x + y whenever that is a u32, with no row stride, and x + y modulo 2^32 otherwise |
| Index.IdentityWithinReach | src/index.ts:232 | every grid cell (x, y) writes a cell below width + height - 1 |
| Index.IdentityReachedBy | src/index.ts:232 | every cell below width + height - 1 is written by some grid cell (x, y) with x + y equal to it |
| Index.IdentityPass | src/index.ts:232 | the dispatch of the inline shader leaves cells 0 .. width+height-2 equal to the input cell with the same index, and every other cell unchanged |
| Index.IdentityMissesLastCell | src/index.ts:232 | on any grid of at least 2 × 2 cells that covers the buffer, the last cell is never written, so the pass is not a copy |
| Index.IdentityExample | src/index.ts:232 | on a 2 × 2 grid over [1, 2, 3, 4] with a zeroed result buffer the result is [1, 2, 3, 0] |
| Index.ProcessImage | src/index.ts:72-197 | no device, or a width or height `dispatch` refuses (not a u32, src/index.ts:159), means the promise never settles, because the throw happens inside the device callback and `resolve` is never called; otherwise the input, result and read buffers and the copy are all the padded length, and the data is the stripped byte view of the identity pass over the padded words, with the input's length |
| Index.DecodedImageFits | src/index.ts:49 | for decoded RGBA data of width × height × 4 bytes, the padded buffer has width × height u32 cells and the identity dispatch's indices stay inside it, so `Index.ProcessImage`'s requires hold at its call site |
| Index.CorrectedRoundTrip | src/index.ts:232 | with the row stride restored, the pad / pass / strip pipeline returns exactly the input bytes of any width × height RGBA image |
| Compute.ComplementTwice | src/compute.ts:154-157 | complementing every byte twice gives back the original bytes |
| Compute.ProcessImageCpu | src/compute.ts:149-160 | the result is a freshly allocated array of the same length, and result[i] = 0xFF - array[i] for every i (the sum of the two is 0xFF, so the value stays in 0..255); the input is not modified |
| Compute.SizeArray | src/compute.ts:22-29 | the dimensions record holds two int32 values (8 bytes); it is exactly [width, height] when both fit int32, and read as u32 it gives width and height modulo 2^32 |
| Compute.ProcessImage | src/compute.ts:12-147 | no device (src/compute.ts:15-16), or a width or height `dispatch` refuses (not a u32, src/compute.ts:124, thrown inside the promise's executor), means rejection; otherwise the record is SizeArray(width, height) of 8 bytes, the input, result and read buffers and the copy are all array.length, and the data is the byte view of the invert pass, with the input's length |
| Compute.GpuInvertIsComplement | src/compute.ts:154-157 | for a width × height RGBA image, the GPU invert pipeline's bytes equal processImageCpu's complement byte for byte |
| Words.ToWords | src/shaders.ts:6-8 | the u32 view of a storage buffer has one cell per four bytes; cell k is given by `Words.ToWordsAt`, and `Words.ToBytesToWords` and `Words.ToWordsToBytes` show it is the inverse of `Words.ToBytes` |
| Words.ToBytes | src/shaders.ts:6-8 | the byte view of u32 cells has four bytes per cell, each cell split little-endian (`Words.BytesOfWordOf`), and it is the inverse of `Words.ToWords` |
| Words.ToBytesToWords | src/shaders.ts:6-8 | viewing a byte buffer as u32 cells and back gives the same bytes |
| Words.ToWordsToBytes | src/shaders.ts:6-8 | viewing u32 cells as bytes and back gives the same cells |
| Words.ToWordsAt | src/shaders.ts:6-8 | u32 cell k is the little-endian word of bytes 4k .. 4k+3 |
| Words.BytesOfWordOf | src/shaders.ts:6-8 | splitting a packed word gives back its four bytes |
| Words.ToInt32 | src/compute.ts:22 | an Int32Array element is in int32 range, congruent to the stored number modulo 2^32, and equal to it when it fits |
| Words.AsU32 | src/compute.ts:22 | shader_invert reads an int32 of the dimensions record as the u32 congruent to it modulo 2^32 (`widthHeight.size.x`, src/shaders.ts:16); with `Words.Int32AsU32` that u32 is the dimension modulo 2^32 |
| Words.Wrap | src/shaders.ts:16 | wrapping u32 arithmetic is congruent to the exact result modulo 2^32, and is the exact result when that is a u32 |
| Shaders.CellIndex | src/shaders.ts:16 | shader_invert's `index` for grid cell (x, y) is x + y * width whenever that is a u32, and x + y * width modulo 2^32 otherwise |
| Shaders.CellIndexInGrid | src/shaders.ts:16 | for x < W and y < H the index x + y*W is below W*H, with no wrap, and it gives back x as index % W and y as index / W |
| Shaders.CellIndexInjective | src/shaders.ts:16 | distinct grid cells have distinct indices |
| Shaders.CellIndexOnto | src/shaders.ts:16 | every index below W*H is the index of the grid cell (i % W, i / W); with injectivity, the invert pass writes each cell 0..W*H-1 exactly once |
| Shaders.InvertCell | src/shaders.ts:17 | output + input = 4294967295, so the subtraction never underflows and applying it twice gives back the input |
| Shaders.InvertPerByte | src/shaders.ts:17 | the u32 complement of a packed word is the word of the four complemented bytes, e.g. 0x11223344 becomes 0xEEDDCCBB |
| Shaders.NeighbourInBounds | src/shaders.ts:40-50 | for an interior cell, each of the nine neighbour indices is computed without wrap and lies in 0 .. W*H-1 |
| Shaders.LaplaceCell | src/shaders.ts:36-59 | boundary-band cells (x = 0, y = 0, x = W-1 or y = H-1) get 0; interior cells get (4·centre − up − left − right − down) mod 2^32, so the diagonal weights contribute nothing |
| Shaders.LaplaceOfConstant | src/shaders.ts:52-54 | on an image where every cell has the same value, every Laplace output is 0 |
| Shaders.RowMajorPass | src/compute.ts:119-125 | a dispatch of any kernel over the grid leaves the output buffer equal to PassResult: each cell below W*H holds its invocation's value, the other cells are unchanged, and the input is not modified |
| Shaders.PassResultAt | src/shaders.ts:16-17 | cell x + y*W of a pass result is the value the invocation for (x, y) stores |
| Shaders.InvertPassAt | src/shaders.ts:17 | after an invert pass, every cell i < W*H holds 4294967295 - input[i] |
| Shaders.InvertPassTwice | src/shaders.ts:17 | two invert passes over a grid that covers the buffer give back the input |
| Shaders.LaplacePassAt | src/shaders.ts:56-58 | after a Laplace pass, cell x + y*W holds LaplaceCell of (x, y) |
| Shaders.RowMajorCopyIsIdentity | src/index.ts:232 | the identity shader with index x + y*W copies every cell of a grid that covers the buffer |
| Shaders.InvertExample | src/shaders.ts:17 | the 2 × 2 image [0x00000000, 0xFFFFFFFF, 0x11223344, 0xAABBCCDD] inverts to [0xFFFFFFFF, 0x00000000, 0xEEDDCCBB, 0x55443322] |

## Left out

- The DOM, the file input, FileReader, the image elements and `console.log` are UI and I/O (src/index.ts:5-61).
- JPEG decoding and encoding belong to `jpeg-js`, which is not part of this model.
- Adapter and device acquisition is a boolean parameter `device` of each `ProcessImage`. Buffer creation, bind groups, pipelines, command encoders, `queue.submit` and `mapAsync` are kept only as the byte sizes they receive and the data they carry.
- Promises and async control flow are outcomes (`Pending`, `Rejected`, `Resolved`). The parallel dispatch is the sequential loop, which is valid because invocations store into distinct cells. The identity shader is the exception: several of its cells store the same value into the same cell, so the order does not matter there either.
- WebGPU zero-fills new buffers, and the model does not assume this. The result buffer's prior contents are the parameter `resultInit`, and the cells a pass does not write keep those contents.
- Index.IdentityPass: requires every index it touches (below width + height - 1) to lie inside the buffer. WGSL's clamping of out-of-bounds accesses is not modelled. Index.ProcessImage inherits this requirement. For a decoded image of width × height × 4 bytes it always holds (`Index.DecodedImageFits`).
- Shaders.RowMajorPass: requires width × height ≤ buffer cells ≤ 2^32, so indices stay in bounds and never wrap. Compute.ProcessImage inherits this requirement. It also requires a byte length that is a multiple of 4 (WebGPU refuses other sizes for these buffers) (`dispatch`'s argument type is u32; a width or height outside it is the rejecting path of Compute.ProcessImage).
- Index.ProcessImage, Compute.ProcessImage: every WebGPU call is assumed to pass validation. Device limits (`maxStorageBufferBindingSize`, `maxBufferSize`, `maxComputeWorkgroupsPerDimension`) are not modelled. A real device rejects an image beyond them (a 6000 × 6000 photo is 144,000,000 bytes, above the default 128 MiB binding limit; a width above 65535 exceeds the default workgroup count). The source then reads back unwritten, zero-filled data or never settles, where the model resolves with the pass result.
- Compute.ProcessImageCpu: the Promise it returns is not modelled, and neither are its unused width and height arguments. That the input is unmodified follows from the method's empty modifies frame and is not a separate postcondition.
- `laplace_3x3` declares its size as `vec2<f32>` and converts it with `u32(...)`. The model takes width and height as naturals. No pipeline in the repository binds this kernel.
- `laplace_3x3` writes `- u32(0u) * w00` with a leading minus. WGSL defines unary `-` only for signed-integer and floating-point types, so the shader compiler would reject the kernel as written (src/shaders.ts:52). The model gives the expression its evident arithmetic meaning, subtracting 0. No pipeline binds this kernel, so this has no runtime effect.
- The repository runs each kernel in a single pass and has no size validation; the model adds neither.

## Findings

| source | as written | input that shows it | evidently intended | confidence | as-written member | corrected member |
|---|---|---|---|---|---|---|
| src/index.ts:232 | the identity shader indexes `global_id.x + global_id.y`, so a width × height dispatch writes only cells 0 .. width+height-2 | a 2 × 2 image with words [1, 2, 3, 4] and a zeroed result buffer gives [1, 2, 3, 0] | index `x + y * width`, so that the pass copies the whole image and the pipeline returns its input | medium, not executed | Index.IdentityMissesLastCell | Index.CorrectedRoundTrip |

`Index.ProcessImage` models the file as written. `Index.CorrectedRoundTrip`
proves that the same pad / pass / strip pipeline with the corrected kernel
(`Shaders.RowMajorCopy`, run by `Shaders.RowMajorPass`) returns exactly its
input.

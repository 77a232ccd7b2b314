/** Machine words shared by the host code and the WGSL kernels: bytes of a
    Uint8Array, u32 cells of a storage buffer, and the Int32Array that holds
    the image dimensions. A storage buffer is one run of bytes; WGSL reads
    every u32 cell from four consecutive bytes, least significant first. */
module Words {

  type byte = x: int | 0 <= x < 0x100
  type u32 = x: int | 0 <= x < 0x1_0000_0000

  /** Number of distinct u32 values; u32 arithmetic in WGSL wraps modulo this. */
  const WORD_SPACE: nat := 0x1_0000_0000
  const U32_MAX: u32 := 0xFFFF_FFFF

  /** The u32 that WGSL's wrapping +, - and * produce for the exact result n. */
  function Wrap(n: int): (r: u32)
    ensures 0 <= n < WORD_SPACE ==> r == n
    ensures (r - n) % WORD_SPACE == 0
  {
    n % WORD_SPACE
  }

  /** The u32 cell stored in the four bytes b0 b1 b2 b3 (little-endian). */
  function WordOf(b0: byte, b1: byte, b2: byte, b3: byte): u32
  {
    b0 + 0x100 * b1 + 0x1_0000 * b2 + 0x100_0000 * b3
  }

  /** The four bytes that hold the u32 cell w, least significant first. */
  function BytesOf(w: u32): (bs: seq<byte>)
    ensures |bs| == 4
    ensures WordOf(bs[0], bs[1], bs[2], bs[3]) == w
  {
    var b0 := w % 0x100;
    var r0 := w / 0x100;
    var b1 := r0 % 0x100;
    var r1 := r0 / 0x100;
    var b2 := r1 % 0x100;
    var b3 := r1 / 0x100;
    assert w == b0 + 0x100 * (b1 + 0x100 * (b2 + 0x100 * b3));
    [b0, b1, b2, b3]
  }

  /** Splitting a word back into bytes gives the bytes it was made of. */
  lemma BytesOfWordOf(b0: byte, b1: byte, b2: byte, b3: byte)
    ensures BytesOf(WordOf(b0, b1, b2, b3)) == [b0, b1, b2, b3]
  {
    var w := WordOf(b0, b1, b2, b3);
    assert w == b0 + 0x100 * (b1 + 0x100 * (b2 + 0x100 * b3));
    assert w % 0x100 == b0 && w / 0x100 == b1 + 0x100 * (b2 + 0x100 * b3);
    var r0 := w / 0x100;
    assert r0 % 0x100 == b1 && r0 / 0x100 == b2 + 0x100 * b3;
    var r1 := r0 / 0x100;
    assert r1 % 0x100 == b2 && r1 / 0x100 == b3;
  }

  /** The u32 view of a byte buffer whose length is a multiple of 4. */
  function ToWords(bs: seq<byte>): (ws: seq<u32>)
    requires |bs| % 4 == 0
    ensures |ws| == |bs| / 4
  {
    if |bs| == 0 then [] else [WordOf(bs[0], bs[1], bs[2], bs[3])] + ToWords(bs[4..])
  }

  /** The byte view of a buffer of u32 cells. */
  function ToBytes(ws: seq<u32>): (bs: seq<byte>)
    ensures |bs| == 4 * |ws|
  {
    if |ws| == 0 then [] else BytesOf(ws[0]) + ToBytes(ws[1..])
  }

  /** Cell k of the u32 view is made of bytes 4k .. 4k+3. */
  lemma {:induction false} ToWordsAt(bs: seq<byte>, k: nat)
    requires |bs| % 4 == 0 && k < |bs| / 4
    ensures ToWords(bs)[k] == WordOf(bs[4 * k], bs[4 * k + 1], bs[4 * k + 2], bs[4 * k + 3])
  {
    if k > 0 {
      ToWordsAt(bs[4..], k - 1);
    }
  }

  /** Viewing bytes as words and back loses nothing. */
  lemma {:induction false} ToBytesToWords(bs: seq<byte>)
    requires |bs| % 4 == 0
    ensures ToBytes(ToWords(bs)) == bs
  {
    if |bs| > 0 {
      ToBytesToWords(bs[4..]);
      BytesOfWordOf(bs[0], bs[1], bs[2], bs[3]);
      assert ToWords(bs)[1..] == ToWords(bs[4..]);
      assert bs == bs[..4] + bs[4..];
    }
  }

  /** Viewing words as bytes and back loses nothing. */
  lemma {:induction false} ToWordsToBytes(ws: seq<u32>)
    ensures ToWords(ToBytes(ws)) == ws
  {
    if |ws| > 0 {
      ToWordsToBytes(ws[1..]);
      var bs := ToBytes(ws);
      assert bs[4..] == ToBytes(ws[1..]);
      assert ws == [ws[0]] + ws[1..];
    }
  }

  /** The value `new Int32Array([n])` stores for a whole number n (ToInt32 of ECMAScript). */
  function ToInt32(n: int): (r: int)
    ensures -0x8000_0000 <= r < 0x8000_0000
    ensures (r - n) % WORD_SPACE == 0
    ensures -0x8000_0000 <= n < 0x8000_0000 ==> r == n
  {
    var m := n % WORD_SPACE;
    if m >= 0x8000_0000 then m - WORD_SPACE else m
  }

  /** The u32 that WGSL reads from the four bytes holding the int32 value v:
      the one u32 congruent to v modulo 2^32. */
  function AsU32(v: int): (r: u32)
    requires -0x8000_0000 <= v < 0x8000_0000
    ensures (r - v) % WORD_SPACE == 0
  {
    if v < 0 then v + WORD_SPACE else v
  }

  /** An int32 dimension read back as u32 is the dimension modulo 2^32. */
  lemma Int32AsU32(n: nat)
    ensures AsU32(ToInt32(n)) == n % WORD_SPACE
  {
  }
}

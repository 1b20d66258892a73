/**
 * Fixed-width machine integers and their byte encodings.
 *
 * The crate is built for wasm, a little-endian target, so a native-order cast of
 * `u32` words to bytes (`bytemuck::cast_slice`) is the little-endian encoding, and
 * `u32::from_be` / `u32::to_be` are both the byte swap.
 */
module Words {

  type uint8 = x: int | 0 <= x < 0x100
  type uint16 = x: int | 0 <= x < 0x1_0000
  type uint32 = x: int | 0 <= x < 0x1_0000_0000

  /** Bytes per `u32` word (`WORD_SIZE`). */
  const WORD_SIZE: nat := 4

  /** `u32::to_le_bytes`. */
  function LE4(w: uint32): (r: seq<uint8>)
    ensures |r| == WORD_SIZE
  {
    [w % 0x100, (w / 0x100) % 0x100, (w / 0x1_0000) % 0x100, w / 0x100_0000]
  }

  /** `u32::to_be_bytes`. */
  function BE4(w: uint32): (r: seq<uint8>)
    ensures |r| == WORD_SIZE
    ensures r == [LE4(w)[3], LE4(w)[2], LE4(w)[1], LE4(w)[0]]
  {
    [w / 0x100_0000, (w / 0x1_0000) % 0x100, (w / 0x100) % 0x100, w % 0x100]
  }

  /** `u32::from_le_bytes`: the word whose little-endian encoding is `b`. */
  function FromLE4(b: seq<uint8>): (w: uint32)
    requires |b| == WORD_SIZE
    ensures LE4(w) == b
  {
    var hi: int := b[1] as int + 0x100 * (b[2] as int + 0x100 * b[3] as int);
    DivModByte(hi, b[0]);
    DivModByte(b[2] as int + 0x100 * b[3] as int, b[1]);
    DivModByte(b[3], b[2]);
    b[0] as int + 0x100 * hi
  }

  /** `(lo + 256 * hi)` splits back into `lo` and `hi`. */
  lemma DivModByte(hi: nat, lo: uint8)
    ensures (lo + 0x100 * hi) % 0x100 == lo
    ensures (lo + 0x100 * hi) / 0x100 == hi
  {
  }

  /** The little-endian encoding of a word loses nothing. */
  lemma {:induction false} FromLE4LE4(w: uint32)
    ensures FromLE4(LE4(w)) == w
  {
    var b := LE4(w);
    assert w == b[0] + 0x100 * (w / 0x100);
    assert w / 0x100 == b[1] + 0x100 * (w / 0x1_0000);
    assert w / 0x1_0000 == b[2] as int + 0x100 * b[3] as int;
  }

  lemma LE4Injective(v: uint32, w: uint32)
    requires LE4(v) == LE4(w)
    ensures v == w
  {
    FromLE4LE4(v);
    FromLE4LE4(w);
  }

  /**
   * Reverse the byte order of a word. On a little-endian target this is what
   * both `u32::from_be` and `u32::to_be` do.
   */
  function SwapBytes(w: uint32): (r: uint32)
    ensures LE4(r) == BE4(w)
  {
    FromLE4(BE4(w))
  }

  /**
   * The value of `b` read as a big-endian number: what shifting each byte in
   * from the right (`word <<= 8; word |= byte`) builds.
   */
  function BEValue(b: seq<uint8>): (r: nat)
    ensures |b| <= 1 ==> r < 0x100
    ensures |b| <= 2 ==> r < 0x1_0000
    ensures |b| <= 3 ==> r < 0x100_0000
    ensures |b| == 4 ==> r < 0x1_0000_0000
    decreases |b|
  {
    if b == [] then 0 else BEValue(b[..|b| - 1]) * 0x100 + b[|b| - 1]
  }

  /** Four bytes assembled big-endian come back out of `u32::to_be_bytes`. */
  lemma {:induction false} BE4BEValue(b: seq<uint8>)
    requires |b| == 4
    ensures BE4(BEValue(b)) == b
  {
    assert b[..3][..2] == b[..2] && b[..2][..1] == b[..1] && b[..1][..0] == [];
    assert BEValue(b[..1]) == b[0];
    assert BEValue(b[..2]) == b[0] as int * 0x100 + b[1];
    assert BEValue(b[..3]) == (b[0] as int * 0x100 + b[1]) * 0x100 + b[2];
    var v := BEValue(b);
    assert v == ((b[0] as int * 0x100 + b[1]) * 0x100 + b[2]) * 0x100 + b[3];
    DivModByte(((b[0] as int * 0x100 + b[1]) * 0x100 + b[2]), b[3]);
    DivModByte(b[0] as int * 0x100 + b[1], b[2]);
    DivModByte(b[0], b[1]);
  }

  /** `word << 8` on a `u32`: the bits shifted out are dropped. */
  function Shl8(w: uint32): (r: uint32)
    ensures r % 0x100 == 0
    ensures w < 0x100_0000 ==> r == w * 0x100
  {
    (w * 0x100) % 0x1_0000_0000
  }

  /**
   * `word | byte` for a word whose low byte is clear (as it is after `<<= 8`):
   * the bits do not overlap, so the bitwise or is the sum.
   */
  function OrLowByte(w: uint32, b: uint8): (r: uint32)
    requires w % 0x100 == 0
    ensures r % 0x100 == b && r / 0x100 == w / 0x100
  {
    w + b
  }

  /** `u16::to_le_bytes`. */
  function LE2(h: uint16): (r: seq<uint8>)
    ensures |r| == 2
  {
    [h % 0x100, h / 0x100]
  }

  lemma LE2Injective(g: uint16, h: uint16)
    requires LE2(g) == LE2(h)
    ensures g == h
  {
    assert g == LE2(g)[0] as int + 0x100 * LE2(g)[1] as int;
    assert h == LE2(h)[0] as int + 0x100 * LE2(h)[1] as int;
  }

  /**
   * The native (little-endian) byte view of a slice of words, as
   * `bytemuck::cast_slice` and `iter().flat_map(|x| x.to_le_bytes())` give it.
   */
  function WordsToLE(ws: seq<uint32>): (r: seq<uint8>)
    ensures |r| == 4 * |ws|
    decreases |ws|
  {
    if ws == [] then [] else WordsToLE(ws[..|ws| - 1]) + LE4(ws[|ws| - 1])
  }

  /** Word `i` occupies bytes `4 * i` to `4 * i + 4` of the byte view. */
  lemma {:induction false} WordsToLEAt(ws: seq<uint32>, i: nat)
    requires i < |ws|
    ensures WordsToLE(ws)[4 * i .. 4 * i + 4] == LE4(ws[i])
    decreases |ws|
  {
    var n := |ws| - 1;
    var front := WordsToLE(ws[..n]);
    assert WordsToLE(ws) == front + LE4(ws[n]);
    if i < n {
      WordsToLEAt(ws[..n], i);
      assert WordsToLE(ws)[4 * i .. 4 * i + 4] == front[4 * i .. 4 * i + 4];
    }
  }

  /** Every word sits in its four-byte chunk of the byte view. */
  lemma WordsToLEChunked(ws: seq<uint32>)
    ensures forall i :: 0 <= i < |ws| ==> WordsToLE(ws)[4 * i .. 4 * i + 4] == LE4(ws[i])
  {
    forall i | 0 <= i < |ws|
      ensures WordsToLE(ws)[4 * i .. 4 * i + 4] == LE4(ws[i])
    {
      WordsToLEAt(ws, i);
    }
  }

  /** Appending a word appends its four little-endian bytes. */
  lemma WordsToLEAppend(ws: seq<uint32>, w: uint32)
    ensures WordsToLE(ws + [w]) == WordsToLE(ws) + LE4(w)
  {
    assert (ws + [w])[..|ws|] == ws;
  }

  /** Byte sequences that agree chunk by chunk with the words are their byte view. */
  lemma {:induction false} WordsToLEChunks(ws: seq<uint32>, bs: seq<uint8>)
    requires |bs| == 4 * |ws|
    requires forall i :: 0 <= i < |ws| ==> bs[4 * i .. 4 * i + 4] == LE4(ws[i])
    ensures WordsToLE(ws) == bs
    decreases |ws|
  {
    if ws != [] {
      var n := |ws| - 1;
      var front := bs[..4 * n];
      forall i | 0 <= i < n
        ensures front[4 * i .. 4 * i + 4] == LE4(ws[..n][i])
      {
        assert front[4 * i .. 4 * i + 4] == bs[4 * i .. 4 * i + 4];
      }
      WordsToLEChunks(ws[..n], front);
      assert bs == front + bs[4 * n ..];
      assert bs[4 * n ..] == LE4(ws[n]);
    }
  }

  /** The byte view of a word slice determines the words. */
  lemma WordsToLEInjective(vs: seq<uint32>, ws: seq<uint32>)
    requires WordsToLE(vs) == WordsToLE(ws)
    ensures vs == ws
  {
    assert |vs| == |ws|;
    forall i | 0 <= i < |vs|
      ensures vs[i] == ws[i]
    {
      WordsToLEAt(vs, i);
      WordsToLEAt(ws, i);
      LE4Injective(vs[i], ws[i]);
    }
  }

  /** Big-endian bytes of a slice of words (how FIPS 180-4 writes hash values out). */
  function WordsToBE(ws: seq<uint32>): (r: seq<uint8>)
    ensures |r| == 4 * |ws|
    decreases |ws|
  {
    if ws == [] then [] else WordsToBE(ws[..|ws| - 1]) + BE4(ws[|ws| - 1])
  }

  /** Casting byte-swapped words to native bytes gives the big-endian bytes of the originals. */
  lemma {:induction false} WordsToLESwapped(vs: seq<uint32>, ws: seq<uint32>)
    requires |vs| == |ws|
    requires forall i :: 0 <= i < |ws| ==> vs[i] == SwapBytes(ws[i])
    ensures WordsToLE(vs) == WordsToBE(ws)
  {
    if ws != [] {
      var n := |ws| - 1;
      WordsToLESwapped(vs[..n], ws[..n]);
      assert vs == vs[..n] + [vs[n]];
      WordsToLEAppend(vs[..n], vs[n]);
    }
  }
}

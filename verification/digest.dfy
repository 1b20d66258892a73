/**
 * The `Digest` value type: eight `u32` words, with a 32-byte view.
 */
module Digests {
  import opened Words

  /** Words in a digest (`DIGEST_WORDS`). */
  const DIGEST_WORDS: nat := 8
  /** Bytes in a digest (`DIGEST_BYTES = DIGEST_WORDS * WORD_SIZE`). */
  const DIGEST_BYTES: nat := DIGEST_WORDS * WORD_SIZE

  type DigestWords = s: seq<uint32> | |s| == 8 witness [0, 0, 0, 0, 0, 0, 0, 0]

  datatype Digest = Digest(words: DigestWords)

  /** `Digest::ZERO`: the digest of all zeroes. */
  const ZERO: Digest := Digest([0, 0, 0, 0, 0, 0, 0, 0])

  /** `Digest::new`. */
  function New(data: DigestWords): (d: Digest)
    ensures AsWords(d) == data
  {
    Digest(data)
  }

  /** `Digest::as_words`. */
  function AsWords(d: Digest): DigestWords
  {
    d.words
  }

  /**
   * `Digest::as_bytes` (and `AsRef<[u8; 32]>`): the words cast to bytes in
   * native, that is little-endian, order.
   */
  function AsBytes(d: Digest): (r: seq<uint8>)
    ensures |r| == DIGEST_BYTES
    ensures forall i :: 0 <= i < 8 ==> r[4 * i .. 4 * i + 4] == LE4(d.words[i])
  {
    WordsToLEChunked(d.words);
    WordsToLE(d.words)
  }

  /** Two digests with the same bytes are the same digest. */
  lemma AsBytesInjective(a: Digest, b: Digest)
    requires AsBytes(a) == AsBytes(b)
    ensures a == b
  {
    WordsToLEInjective(a.words, b.words);
  }

  lemma ZeroBytes()
    ensures AsBytes(ZERO) == seq(32, _ => 0)
  {
    WordsToLEChunks(ZERO.words, seq(32, _ => 0));
  }

  /**
   * `Digest::from_bytes`: read each group of four bytes as a big-endian word
   * and convert it with `u32::from_be`, so that the byte view of the result is
   * the input.
   */
  method FromBytes(bytes: seq<uint8>) returns (d: Digest)
    requires |bytes| == DIGEST_BYTES
    ensures AsBytes(d) == bytes
    ensures forall i :: 0 <= i < 8 ==> d.words[i] == FromLE4(bytes[4 * i .. 4 * i + 4])
  {
    var digest := new uint32[DIGEST_WORDS](_ => 0);
    var i := 0;
    while i < DIGEST_WORDS
      invariant 0 <= i <= DIGEST_WORDS
      invariant forall k :: 0 <= k < i ==> LE4(digest[k]) == bytes[4 * k .. 4 * k + 4]
    {
      ghost var chunk := bytes[4 * i .. 4 * i + 4];
      var j := 0;
      var word: uint32 := 0;
      while j < WORD_SIZE
        invariant 0 <= j <= WORD_SIZE
        invariant word == BEValue(chunk[..j])
      {
        assert chunk[..j + 1][..j] == chunk[..j];
        assert chunk[j] == bytes[4 * i + j];
        word := Shl8(word);
        word := OrLowByte(word, bytes[4 * i + j]);
        j := j + 1;
      }
      assert chunk[..4] == chunk;
      BE4BEValue(chunk);
      word := SwapBytes(word);
      digest[i] := word;
      i := i + 1;
    }
    d := Digest(digest[..]);
    WordsToLEChunks(d.words, bytes);
    forall i | 0 <= i < 8
      ensures d.words[i] == FromLE4(bytes[4 * i .. 4 * i + 4])
    {
      FromLE4LE4(d.words[i]);
    }
  }

  /** The initial hash value H(0) of SHA-256, section 5.3.3 of FIPS 180-4. */
  const SHA256_H0: seq<uint32> :=
    [0x6a09e667, 0xbb67ae85, 0x3c6ef372, 0xa54ff53a, 0x510e527f, 0x9b05688c, 0x1f83d9ab, 0x5be0cd19]

  /** `SHA256_INIT`: each word of H(0) passed through `u32::to_be`. */
  const SHA256_INIT: Digest := Digest([
    SwapBytes(0x6a09e667),
    SwapBytes(0xbb67ae85),
    SwapBytes(0x3c6ef372),
    SwapBytes(0xa54ff53a),
    SwapBytes(0x510e527f),
    SwapBytes(0x9b05688c),
    SwapBytes(0x1f83d9ab),
    SwapBytes(0x5be0cd19)
  ])

  /** The byte view of `SHA256_INIT` is H(0) written out big-endian, as FIPS 180-4 does. */
  lemma Sha256InitBytes()
    ensures AsBytes(SHA256_INIT) == WordsToBE(SHA256_H0)
  {
    WordsToLESwapped(SHA256_INIT.words, SHA256_H0);
  }
}

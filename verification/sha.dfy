/**
 * The SHA-256 capability the hashing code is written against (the `Sha256`
 * trait). Its primitive operations are supplied from outside and are kept
 * uninterpreted: nothing here assumes they are injective or collision resistant.
 */
module Sha {
  import opened Words
  import opened Digests

  /** Words in one 512-bit compression block (`BLOCK_WORDS`). */
  const BLOCK_WORDS: nat := DIGEST_WORDS * 2

  type BlockWords = s: seq<uint32> | |s| == 16 witness [0, 0, 0, 0, 0, 0, 0, 0, 0, 0, 0, 0, 0, 0, 0, 0]

  /** `Block`: sixteen words. */
  datatype Block = Block(words: BlockWords)

  /**
   * One implementation of the trait: its required methods as total functions.
   * - hashBytes: SHA-256 of a byte string with the FIPS 180-4 padding and trailer;
   * - compress: one compression step from a state over a block given as two halves;
   * - compressSlice: Merkle-Damgard iteration of the compression over whole blocks;
   * - hashRawDataSlice: hash of raw data padded to a block, without the trailer.
   */
  datatype Sha256 = Sha256(
    hashBytes: seq<uint8> -> Digest,
    compress: (Digest, Digest, Digest) -> Digest,
    compressSlice: (Digest, seq<Block>) -> Digest,
    hashRawDataSlice: seq<uint8> -> Digest)

  /** `Sha256::hash_words` (default method): hash the native byte view of the words. */
  function HashWords(sha: Sha256, words: seq<uint32>): Digest
  {
    sha.hashBytes(WordsToLE(words))
  }

  /** `hash_words` hashes exactly the little-endian bytes of the words, in order. */
  lemma HashWordsHashesLEBytes(sha: Sha256, words: seq<uint32>, bytes: seq<uint8>)
    requires |bytes| == 4 * |words|
    requires forall i :: 0 <= i < |words| ==> bytes[4 * i .. 4 * i + 4] == LE4(words[i])
    ensures HashWords(sha, words) == sha.hashBytes(bytes)
  {
    WordsToLEChunks(words, bytes);
  }

  /** Hashing the words of a digest is hashing its byte view. */
  lemma HashWordsOfDigest(sha: Sha256, d: Digest)
    ensures HashWords(sha, AsWords(d)) == sha.hashBytes(AsBytes(d))
  {
  }

  /**
   * `Sha256::hash_pair` (default method): one compression of the block `a ‖ b`
   * from the SHA-256 initial state.
   */
  function HashPair(sha: Sha256, a: Digest, b: Digest): Digest
  {
    sha.compress(SHA256_INIT, a, b)
  }

  /**
   * The state `hash_pair` starts from is the one digest whose bytes are the
   * SHA-256 initial hash value H(0) written big-endian.
   */
  lemma HashPairStartsFromH0(sha: Sha256, state: Digest, a: Digest, b: Digest)
    requires AsBytes(state) == WordsToBE(SHA256_H0)
    ensures HashPair(sha, a, b) == sha.compress(state, a, b)
  {
    Sha256InitBytes();
    AsBytesInjective(state, SHA256_INIT);
  }
}

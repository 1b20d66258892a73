/**
 * Tagged, domain-separated hashing of structures and lists
 * (`tagged_struct`, `tagged_list`, `tagged_iter`, `tagged_list_cons`).
 */
module Tagged {
  import opened Words
  import opened Digests
  import opened Sha

  /** UTF-8 encoding of one Unicode scalar value. */
  function Utf8Char(c: char): (r: seq<uint8>)
    ensures 1 <= |r| <= 4
    ensures c as int < 0x80 ==> r == [c as int]
  {
    var n := c as int;
    if n < 0x80 then [n]
    else if n < 0x800 then [0xC0 + n / 0x40, 0x80 + n % 0x40]
    else if n < 0x1_0000 then [0xE0 + n / 0x1000, 0x80 + (n / 0x40) % 0x40, 0x80 + n % 0x40]
    else [0xF0 + n / 0x4_0000, 0x80 + (n / 0x1000) % 0x40, 0x80 + (n / 0x40) % 0x40, 0x80 + n % 0x40]
  }

  /** `str::as_bytes`: the UTF-8 bytes of a string. */
  function Utf8(s: string): (r: seq<uint8>)
    ensures (forall i :: 0 <= i < |s| ==> s[i] as int < 0x80) ==>
              |r| == |s| && forall i :: 0 <= i < |s| ==> r[i] == s[i] as int
    decreases |s|
  {
    if s == [] then [] else Utf8(s[..|s| - 1]) + Utf8Char(s[|s| - 1])
  }

  /** The bytes of a sequence of digests, one 32-byte view after another. */
  function DigestsBytes(ds: seq<Digest>): (r: seq<uint8>)
    ensures |r| == DIGEST_BYTES * |ds|
    decreases |ds|
  {
    if ds == [] then [] else DigestsBytes(ds[..|ds| - 1]) + AsBytes(ds[|ds| - 1])
  }

  /** Digest `i` occupies bytes `32 * i` to `32 * i + 32`. */
  lemma {:induction false} DigestsBytesAt(ds: seq<Digest>, i: nat)
    requires i < |ds|
    ensures DigestsBytes(ds)[32 * i .. 32 * i + 32] == AsBytes(ds[i])
    decreases |ds|
  {
    var n := |ds| - 1;
    var front := DigestsBytes(ds[..n]);
    assert DigestsBytes(ds) == front + AsBytes(ds[n]);
    if i < n {
      DigestsBytesAt(ds[..n], i);
      assert DigestsBytes(ds)[32 * i .. 32 * i + 32] == front[32 * i .. 32 * i + 32];
    }
  }

  lemma DigestsBytesAppend(ds: seq<Digest>, d: Digest)
    ensures DigestsBytes(ds + [d]) == DigestsBytes(ds) + AsBytes(d)
  {
    assert (ds + [d])[..|ds|] == ds;
  }

  /** The concatenated bytes determine the digests. */
  lemma DigestsBytesInjective(a: seq<Digest>, b: seq<Digest>)
    requires DigestsBytes(a) == DigestsBytes(b)
    ensures a == b
  {
    assert |a| == |b|;
    forall i | 0 <= i < |a|
      ensures a[i] == b[i]
    {
      DigestsBytesAt(a, i);
      DigestsBytesAt(b, i);
      AsBytesInjective(a[i], b[i]);
    }
  }

  /** Largest child count the two-byte count field holds. */
  const MAX_CHILDREN: nat := 0xFFFF

  /**
   * The exact byte string `tagged_struct` hashes:
   * H(tag) ‖ children ‖ little-endian data words ‖ little-endian u16 child count.
   */
  function TaggedStructPreimage(sha: Sha256, tag: string, down: seq<Digest>, data: seq<uint32>): (r: seq<uint8>)
    requires |down| <= MAX_CHILDREN
    ensures |r| == DIGEST_BYTES * (|down| + 1) + 4 * |data| + 2
  {
    AsBytes(sha.hashBytes(Utf8(tag))) + DigestsBytes(down) + WordsToLE(data) + LE2(|down|)
  }

  /**
   * `tagged_struct`: the digest of a structure with the given tag, child
   * digests and data words. More than 65535 children is a programming error
   * in the source (`expect` panics), so it is a precondition here.
   */
  function TaggedStruct(sha: Sha256, tag: string, down: seq<Digest>, data: seq<uint32>): Digest
    requires |down| <= MAX_CHILDREN
  {
    sha.hashBytes(TaggedStructPreimage(sha, tag, down, data))
  }

  /** Child `i` sits right after the tag digest and the children before it. */
  lemma TaggedStructChildAt(sha: Sha256, tag: string, down: seq<Digest>, data: seq<uint32>, i: nat)
    requires |down| <= MAX_CHILDREN && i < |down|
    ensures TaggedStructPreimage(sha, tag, down, data)[32 + 32 * i .. 64 + 32 * i] == AsBytes(down[i])
  {
    var t, c, w, k := AsBytes(sha.hashBytes(Utf8(tag))), DigestsBytes(down), WordsToLE(data), LE2(|down|);
    var r := t + c + w + k;
    assert r == TaggedStructPreimage(sha, tag, down, data);
    SecondPartSlice(t, c, w, k, 32 * i, 32 * i + 32);
    DigestsBytesAt(down, i);
  }

  /** Data word `j` sits after all the children and the data words before it. */
  lemma TaggedStructWordAt(sha: Sha256, tag: string, down: seq<Digest>, data: seq<uint32>, j: nat)
    requires |down| <= MAX_CHILDREN && j < |data|
    ensures var n := |down|;
      TaggedStructPreimage(sha, tag, down, data)[32 + 32 * n + 4 * j .. 36 + 32 * n + 4 * j] == LE4(data[j])
  {
    var n := |down|;
    var t, c, w, k := AsBytes(sha.hashBytes(Utf8(tag))), DigestsBytes(down), WordsToLE(data), LE2(n);
    var r := t + c + w + k;
    assert r == TaggedStructPreimage(sha, tag, down, data);
    ThirdPartSlice(t, c, w, k, 4 * j, 4 * j + 4);
    WordsToLEAt(data, j);
  }

  /** Where each part sits in the preimage of `tagged_struct`. */
  lemma TaggedStructLayout(sha: Sha256, tag: string, down: seq<Digest>, data: seq<uint32>)
    requires |down| <= MAX_CHILDREN
    ensures var r, n, m := TaggedStructPreimage(sha, tag, down, data), |down|, |data|;
      && r[..32] == AsBytes(sha.hashBytes(Utf8(tag)))
      && (forall i :: 0 <= i < n ==> r[32 + 32 * i .. 64 + 32 * i] == AsBytes(down[i]))
      && (forall j :: 0 <= j < m ==> r[32 + 32 * n + 4 * j .. 36 + 32 * n + 4 * j] == LE4(data[j]))
      && r[32 + 32 * n + 4 * m ..] == LE2(n)
  {
    var t, c, w, k := AsBytes(sha.hashBytes(Utf8(tag))), DigestsBytes(down), WordsToLE(data), LE2(|down|);
    ConcatParts(t, c, w, k);
    forall i | 0 <= i < |down| {
      TaggedStructChildAt(sha, tag, down, data, i);
    }
    forall j | 0 <= j < |data| {
      TaggedStructWordAt(sha, tag, down, data, j);
    }
  }

  lemma AppendAssoc(a: seq<uint8>, b: seq<uint8>, c: seq<uint8>)
    ensures (a + b) + c == a + (b + c)
  {
  }

  lemma SecondPartSlice(t: seq<uint8>, c: seq<uint8>, w: seq<uint8>, k: seq<uint8>, i: nat, j: nat)
    requires i <= j <= |c|
    ensures (t + c + w + k)[|t| + i .. |t| + j] == c[i .. j]
  {
    assert t + c + w + k == t + (c + w + k);
    assert (c + w + k)[i .. j] == c[i .. j];
  }

  lemma ThirdPartSlice(t: seq<uint8>, c: seq<uint8>, w: seq<uint8>, k: seq<uint8>, i: nat, j: nat)
    requires i <= j <= |w|
    ensures (t + c + w + k)[|t| + |c| + i .. |t| + |c| + j] == w[i .. j]
  {
    assert t + c + w + k == (t + c) + (w + k);
    assert (w + k)[i .. j] == w[i .. j];
  }

  /** The four parts of a concatenation can be cut back out of it. */
  lemma ConcatParts(t: seq<uint8>, c: seq<uint8>, w: seq<uint8>, k: seq<uint8>)
    ensures var r := t + c + w + k;
      && r[..|t|] == t
      && r[|t| .. |t| + |c|] == c
      && r[|t| + |c| .. |t| + |c| + |w|] == w
      && r[|t| + |c| + |w| ..] == k
  {
  }

  /**
   * The preimage of `tagged_struct` determines the tag digest, the children
   * (with their order and number) and the data words, and is determined by them.
   */
  lemma TaggedStructPreimageInjective(
    sha: Sha256,
    tag1: string, down1: seq<Digest>, data1: seq<uint32>,
    tag2: string, down2: seq<Digest>, data2: seq<uint32>)
    requires |down1| <= MAX_CHILDREN && |down2| <= MAX_CHILDREN
    ensures TaggedStructPreimage(sha, tag1, down1, data1) == TaggedStructPreimage(sha, tag2, down2, data2)
        <==> sha.hashBytes(Utf8(tag1)) == sha.hashBytes(Utf8(tag2)) && down1 == down2 && data1 == data2
  {
    var h1, h2 := sha.hashBytes(Utf8(tag1)), sha.hashBytes(Utf8(tag2));
    var t1, c1, w1, k1 := AsBytes(h1), DigestsBytes(down1), WordsToLE(data1), LE2(|down1|);
    var t2, c2, w2, k2 := AsBytes(h2), DigestsBytes(down2), WordsToLE(data2), LE2(|down2|);
    var r1, r2 := t1 + c1 + w1 + k1, t2 + c2 + w2 + k2;
    assert r1 == TaggedStructPreimage(sha, tag1, down1, data1);
    assert r2 == TaggedStructPreimage(sha, tag2, down2, data2);
    if r1 == r2 {
      ConcatParts(t1, c1, w1, k1);
      ConcatParts(t2, c2, w2, k2);
      assert k1 == k2;
      LE2Injective(|down1|, |down2|);
      assert |c1| == |c2| && |w1| == |w2|;
      assert t1 == t2;
      AsBytesInjective(h1, h2);
      assert c1 == c2;
      DigestsBytesInjective(down1, down2);
      assert w1 == w2;
      WordsToLEInjective(data1, data2);
    }
  }

  /** Swapping two different children changes what `tagged_struct` hashes. */
  lemma TaggedStructOrderSensitive(sha: Sha256, tag: string, a: Digest, b: Digest)
    requires a != b
    ensures TaggedStructPreimage(sha, tag, [a, b], []) != TaggedStructPreimage(sha, tag, [b, a], [])
  {
    TaggedStructPreimageInjective(sha, tag, [a, b], [], tag, [b, a], []);
  }

  /**
   * `tagged_struct` as the source computes it: grow the buffer `all` with the
   * tag digest, each child and each data word, append the child count, hash.
   */
  method ComputeTaggedStruct(sha: Sha256, tag: string, down: seq<Digest>, data: seq<uint32>) returns (r: Digest)
    requires |down| <= MAX_CHILDREN
    ensures r == TaggedStruct(sha, tag, down, data)
  {
    var tagDigest := sha.hashBytes(Utf8(tag));
    ghost var head := AsBytes(tagDigest);
    var all: seq<uint8> := [];
    all := all + AsBytes(tagDigest);
    for i := 0 to |down|
      invariant all == head + DigestsBytes(down[..i])
    {
      DigestsBytesAppend(down[..i], down[i]);
      assert down[..i + 1] == down[..i] + [down[i]];
      AppendAssoc(head, DigestsBytes(down[..i]), AsBytes(down[i]));
      all := all + AsBytes(down[i]);
    }
    assert down[..|down|] == down;
    ghost var middle := head + DigestsBytes(down);
    for j := 0 to |data|
      invariant all == middle + WordsToLE(data[..j])
    {
      assert data[..j + 1] == data[..j] + [data[j]];
      WordsToLEAppend(data[..j], data[j]);
      AppendAssoc(middle, WordsToLE(data[..j]), LE4(data[j]));
      all := all + LE4(data[j]);
    }
    assert data[..|data|] == data;
    var downCount: uint16 := |down|;
    all := all + LE2(downCount);
    assert all == TaggedStructPreimage(sha, tag, down, data);
    r := sha.hashBytes(all);
  }

  /**
   * `rfold` over a sequence: start from `init` and combine with the elements
   * from the last one to the first.
   */
  function RFold<T, A>(xs: seq<T>, init: A, f: (A, T) -> A): A
    decreases |xs|
  {
    if xs == [] then init else RFold(xs[..|xs| - 1], f(init, xs[|xs| - 1]), f)
  }

  /** A right fold takes its first element last. */
  lemma {:induction false} RFoldCons<T, A>(h: T, t: seq<T>, init: A, f: (A, T) -> A)
    ensures RFold([h] + t, init, f) == f(RFold(t, init, f), h)
    decreases |t|
  {
    var ht := [h] + t;
    if t == [] {
      assert ht[..0] == [];
    } else {
      var n := |t| - 1;
      assert ht[..|ht| - 1] == [h] + t[..n];
      assert ht[|ht| - 1] == t[n];
      RFoldCons(h, t[..n], f(init, t[n]), f);
    }
  }

  /** `tagged_list_cons`: one cons cell, a structure with children head and tail. */
  function TaggedListCons(sha: Sha256, tag: string, head: Digest, tail: Digest): Digest
  {
    TaggedStruct(sha, tag, [head, tail], [])
  }

  /** The bytes hashed for a struct of two children and no words: tag digest, both children, count 2. */
  lemma TaggedPairBytes(sha: Sha256, tag: string, a: Digest, b: Digest)
    ensures TaggedStruct(sha, tag, [a, b], [])
         == sha.hashBytes(AsBytes(sha.hashBytes(Utf8(tag))) + AsBytes(a) + AsBytes(b) + [2, 0])
  {
    assert [a][..0] == [];
    DigestsBytesAppend([a], b);
    assert [a] + [b] == [a, b];
    var t := AsBytes(sha.hashBytes(Utf8(tag)));
    assert WordsToLE([]) == [];
    assert LE2(2) == [2, 0];
    assert TaggedStructPreimage(sha, tag, [a, b], []) == t + (AsBytes(a) + AsBytes(b)) + [] + [2, 0];
    AppendAssoc(t, AsBytes(a), AsBytes(b));
    assert t + (AsBytes(a) + AsBytes(b)) + [] + [2, 0] == t + AsBytes(a) + AsBytes(b) + [2, 0];
  }

  /** The bytes hashed for a cons cell: tag digest, head, tail, child count 2. */
  lemma TaggedListConsBytes(sha: Sha256, tag: string, head: Digest, tail: Digest)
    ensures TaggedListCons(sha, tag, head, tail)
         == sha.hashBytes(AsBytes(sha.hashBytes(Utf8(tag))) + AsBytes(head) + AsBytes(tail) + [2, 0])
  {
    TaggedPairBytes(sha, tag, head, tail);
  }

  /** `tagged_iter`: a right fold of cons cells seeded with `Digest::ZERO`. */
  function TaggedIter(sha: Sha256, tag: string, iter: seq<Digest>): Digest
  {
    RFold(iter, ZERO, (listDigest: Digest, elem: Digest) => TaggedListCons(sha, tag, elem, listDigest))
  }

  /** `tagged_list`: `tagged_iter` over the elements of a slice. */
  function TaggedList(sha: Sha256, tag: string, list: seq<Digest>): Digest
  {
    TaggedIter(sha, tag, list)
  }

  /** The empty list digests to `Digest::ZERO`, with no hashing at all. */
  lemma TaggedListNil(sha: Sha256, tag: string)
    ensures TaggedList(sha, tag, []) == ZERO
  {
  }

  /** A non-empty list digests to the cons cell of its head and its tail's digest. */
  lemma TaggedListConsUnfold(sha: Sha256, tag: string, head: Digest, tail: seq<Digest>)
    ensures TaggedList(sha, tag, [head] + tail)
         == TaggedStruct(sha, tag, [head, TaggedList(sha, tag, tail)], [])
  {
    RFoldCons(head, tail, ZERO, (listDigest: Digest, elem: Digest) => TaggedListCons(sha, tag, elem, listDigest));
  }
}

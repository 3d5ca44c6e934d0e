/** A trivially copyable value kept as an array of 64-bit words, the last one possibly partial. */
module AtomicPayloads {
  import opened Common

  const WORD_BYTES := 8

  /** The bytes of a value, in memory order. */
  type Item = seq<Byte>

  function WordCount(size: nat): nat {
    (size + 7) / 8
  }

  /** How many bytes of a `size`-byte value live in word `k`. */
  function ChunkLength(size: nat, k: nat): nat
    requires k < WordCount(size)
  {
    if 8 * k + 8 <= size then 8 else size - 8 * k
  }

  function Chunk(value: Item, k: nat): Item
    requires k < WordCount(|value|)
  {
    value[8 * k..8 * k + ChunkLength(|value|, k)]
  }

  /** Copying bytes into a zeroed word on a little-endian machine. */
  function WordFromBytes(bytes: seq<Byte>): nat {
    if bytes == [] then 0 else bytes[0] + 256 * WordFromBytes(bytes[1..])
  }

  /** Copying the first `n` bytes back out of a word. */
  function BytesFromWord(w: nat, n: nat): (bytes: seq<Byte>)
    ensures |bytes| == n
  {
    if n == 0 then [] else [w % 256] + BytesFromWord(w / 256, n - 1)
  }

  function Pow256(n: nat): nat {
    if n == 0 then 1 else 256 * Pow256(n - 1)
  }

  lemma {:induction false} WordBound(bytes: seq<Byte>)
    ensures WordFromBytes(bytes) < Pow256(|bytes|)
  {
    if bytes != [] {
      WordBound(bytes[1..]);
    }
  }

  lemma {:induction false} Pow256Monotone(m: nat, n: nat)
    requires m <= n
    ensures Pow256(m) <= Pow256(n)
    decreases n
  {
    if m < n {
      Pow256Monotone(m, n - 1);
    }
  }

  /** At most eight bytes always fit a 64-bit word. */
  lemma WordFits(bytes: seq<Byte>)
    requires |bytes| <= WORD_BYTES
    ensures WordFromBytes(bytes) < U64_SIZE
  {
    WordBound(bytes);
    Pow256Monotone(|bytes|, 8);
    assert Pow256(8) == 0x1_0000_0000 * Pow256(4);
    assert Pow256(4) == 0x1_0000_0000;
  }

  /** A word gives back exactly the bytes copied into it. */
  lemma {:induction false} BytesOfWordFromBytes(bytes: seq<Byte>)
    ensures BytesFromWord(WordFromBytes(bytes), |bytes|) == bytes
  {
    if bytes != [] {
      BytesOfWordFromBytes(bytes[1..]);
      assert WordFromBytes(bytes) % 256 == bytes[0];
      assert WordFromBytes(bytes) / 256 == WordFromBytes(bytes[1..]);
    }
  }

  function PackWord(value: Item, k: nat): Word
    requires k < WordCount(|value|)
  {
    WordFits(Chunk(value, k));
    WordFromBytes(Chunk(value, k))
  }

  /** All the words a store of `value` leaves behind. */
  function Pack(value: Item): (words: seq<Word>)
    ensures |words| == WordCount(|value|)
  {
    seq(WordCount(|value|), k requires 0 <= k < WordCount(|value|) => PackWord(value, k))
  }

  /** The bytes a load assembles from the first `k` words. */
  function UnpackPrefix(words: seq<Word>, size: nat, k: nat): (bytes: Item)
    requires |words| == WordCount(size) && k <= |words|
    ensures |bytes| == Min(8 * k, size)
  {
    if k == 0 then [] else UnpackPrefix(words, size, k - 1) + BytesFromWord(words[k - 1], ChunkLength(size, k - 1))
  }

  function Unpack(words: seq<Word>, size: nat): (bytes: Item)
    requires |words| == WordCount(size)
    ensures |bytes| == size
  {
    UnpackPrefix(words, size, WordCount(size))
  }

  lemma {:induction false} UnpackPackPrefix(value: Item, k: nat)
    requires k <= WordCount(|value|)
    ensures UnpackPrefix(Pack(value), |value|, k) == value[..Min(8 * k, |value|)]
  {
    if k > 0 {
      UnpackPackPrefix(value, k - 1);
      UnpackStep(value, k);
      ChunkFollows(value, k);
      hide Unpack, UnpackPrefix, Pack, Chunk;
    }
  }

  lemma ChunkFollows(value: Item, k: nat)
    requires 0 < k <= WordCount(|value|)
    ensures value[..Min(8 * k, |value|)] == value[..Min(8 * (k - 1), |value|)] + Chunk(value, k - 1)
  {
  }

  lemma UnpackStep(value: Item, k: nat)
    requires 0 < k <= WordCount(|value|)
    ensures UnpackPrefix(Pack(value), |value|, k) == UnpackPrefix(Pack(value), |value|, k - 1) + Chunk(value, k - 1)
  {
    BytesOfWordFromBytes(Chunk(value, k - 1));
    assert Pack(value)[k - 1] == WordFromBytes(Chunk(value, k - 1));
    assert |Chunk(value, k - 1)| == ChunkLength(|value|, k - 1);
    hide Pack, Chunk, WordFromBytes, BytesFromWord, ChunkLength;
  }

  /** A load after a store returns the value, whatever its size. */
  lemma UnpackPack(value: Item)
    ensures Unpack(Pack(value), |value|) == value
  {
    UnpackPackPrefix(value, WordCount(|value|));
  }

  /** The word array itself, stored and loaded one word at a time. */
  class AtomicPayload {
    const size: nat
    const words: array<Word>

    ghost predicate Valid() {
      words.Length == WordCount(size)
    }

    constructor (size: nat)
      ensures Valid() && this.size == size && fresh(words)
      ensures words[..] == seq(WordCount(size), _ => 0)
    {
      this.size := size;
      words := new Word[WordCount(size)](_ => 0);
    }

    method Store(value: Item)
      requires Valid() && |value| == size
      modifies words
      ensures words[..] == Pack(value)
    {
      var k := 0;
      while k < words.Length
        invariant 0 <= k <= words.Length
        invariant words[..k] == Pack(value)[..k]
      {
        var byteOffset := k * 8;
        var bytesToCopy := if byteOffset + 8 <= size then 8 else size - byteOffset;
        ghost var chunk := value[byteOffset..byteOffset + bytesToCopy];
        WordFits(chunk);
        words[k] := WordFromBytes(value[byteOffset..byteOffset + bytesToCopy]);
        assert words[k] == Pack(value)[k];
        k := k + 1;
      }
      assert words[..] == words[..words.Length];
    }

    method Load() returns (dst: Item)
      requires Valid()
      ensures dst == Unpack(words[..], size)
      ensures forall value: Item :: |value| == size && words[..] == Pack(value) ==> dst == value
    {
      dst := [];
      var k := 0;
      while k < words.Length
        invariant 0 <= k <= words.Length
        invariant dst == UnpackPrefix(words[..], size, k)
      {
        var byteOffset := k * 8;
        var bytesToCopy := if byteOffset + 8 <= size then 8 else size - byteOffset;
        dst := dst + BytesFromWord(words[k], bytesToCopy);
        k := k + 1;
      }
      forall value: Item | |value| == size && words[..] == Pack(value)
        ensures dst == value
      {
        UnpackPack(value);
      }
    }
  }
}

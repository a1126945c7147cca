/** The bit queue as a literal list of 64-bit words with a bit count, and back. */
module Words {
  import opened Bits
  import opened BitQueues

  /** The words that hold a bit string: full ones, then a short last one. */
  function Pack(bits: seq<bool>): (words: seq<nat>)
  {
    if |bits| >= 64 then [FromBits(bits[..64])] + Pack(bits[64..])
    else if |bits| > 0 then [FromBits(bits)]
    else []
  }

  /** Enough 64-bit words for the count. */
  predicate Loadable(words: seq<nat>, bitCount: nat)
  {
    bitCount == 0 ||
    (&& words != []
     && words[0] < Pow2(64)
     && (bitCount >= 64 ==> Loadable(words[1..], bitCount - 64)))
  }

  /** The first `bitCount` bits of the words. */
  function Unpack(words: seq<nat>, bitCount: nat): (bits: seq<bool>)
    requires Loadable(words, bitCount)
  {
    if bitCount >= 64 then ToBits(words[0], 64) + Unpack(words[1..], bitCount - 64)
    else if bitCount > 0 then ToBits(words[0], bitCount)
    else []
  }

  /** Packed words can be loaded, and give back the bits they were made from. */
  lemma {:induction false} UnpackPacked(bits: seq<bool>)
    ensures Loadable(Pack(bits), |bits|)
    ensures Unpack(Pack(bits), |bits|) == bits
    ensures |Pack(bits)| == (|bits| + 63) / 64
  {
    hide Pow2, ToBits, FromBits;
    if |bits| >= 64 {
      var head, rest := bits[..64], bits[64..];
      UnpackPacked(rest);
      ToFromBits(head);
      assert Pack(bits)[1..] == Pack(rest);
    } else if |bits| > 0 {
      ToFromBits(bits);
      Pow2Monotone(|bits|, 64);
    }
  }

  lemma {:induction false} UnpackedLength(words: seq<nat>, bitCount: nat)
    requires Loadable(words, bitCount)
    ensures |Unpack(words, bitCount)| == bitCount
    decreases bitCount
  {
    hide Pow2;
    if bitCount >= 64 {
      UnpackedLength(words[1..], bitCount - 64);
    }
  }

  /** Of what is loaded, bit `64 * i + k` is bit `k` of word `i`. */
  lemma {:induction false} UnpackedBit(words: seq<nat>, bitCount: nat, i: nat, k: nat)
    requires Loadable(words, bitCount) && k < 64 && 64 * i + k < bitCount
    ensures |Unpack(words, bitCount)| == bitCount
    ensures i < |words| && Unpack(words, bitCount)[64 * i + k] == Bit(words[i], k)
    decreases i
  {
    hide Pow2, Bit;
    UnpackedLength(words, bitCount);
    if i > 0 {
      UnpackedBit(words[1..], bitCount - 64, i - 1, k);
    }
  }

  /** Likewise, bit `k` of word `i` is bit `64 * i + k` of what was packed. */
  lemma PackedBit(bits: seq<bool>, i: nat, k: nat)
    requires k < 64 && 64 * i + k < |bits|
    ensures i < |Pack(bits)| && Bit(Pack(bits)[i], k) == bits[64 * i + k]
  {
    hide Pack, Unpack, Loadable, Bit;
    UnpackPacked(bits);
    UnpackedBit(Pack(bits), |bits|, i, k);
  }

  /** Takes the next value off the queue and writes it behind the others. */
  method WriteValue(bitQueue: BitQueue, bitCount: nat, written: seq<nat>) returns (words: seq<nat>)
    requires bitQueue.Valid()
    requires bitCount <= 64 && bitCount <= |bitQueue.Contents()|
    modifies bitQueue
    ensures bitQueue.Valid()
    ensures bitQueue.Contents() == old(bitQueue.Contents())[bitCount..]
    ensures words == written + [FromBits(old(bitQueue.Contents())[..bitCount])]
  {
    var value := bitQueue.TakeBits(bitCount);
    words := written + [value.value];
  }

  /** Drains a queue into words, as the code generator does. */
  method GenerateCountryData(bitQueue: BitQueue) returns (words: seq<nat>, bitCount: nat)
    requires bitQueue.Valid()
    modifies bitQueue
    ensures bitQueue.Valid() && bitQueue.Contents() == []
    ensures words == Pack(old(bitQueue.Contents()))
    ensures bitCount == |old(bitQueue.Contents())|
  {
    hide Pow2, FromBits, BitQueue.Valid, BitQueue.Contents;
    bitCount := bitQueue.Len();
    words := [];
    var len := bitQueue.Len();
    while len >= 64
      invariant bitQueue.Valid() && len == |bitQueue.Contents()|
      invariant Pack(old(bitQueue.Contents())) == words + Pack(bitQueue.Contents())
    {
      words := WriteValue(bitQueue, 64, words);
      len := bitQueue.Len();
    }
    var isEmpty := bitQueue.IsEmpty();
    if !isEmpty {
      var rest := bitQueue.Len();
      assert bitQueue.Contents()[..rest] == bitQueue.Contents();
      words := WriteValue(bitQueue, rest, words);
    }
  }

  /** Loads words into a fresh queue; the last of them may have bits beyond those that count. */
  method BitQueueFromCountryData(words: seq<nat>, bitCount: nat) returns (bitQueue: BitQueue)
    requires Loadable(words, bitCount)
    ensures fresh(bitQueue) && bitQueue.Valid()
    ensures bitQueue.Contents() == Unpack(words, bitCount)
  {
    bitQueue := new BitQueue();
    hide Pow2, ToBits, Shr, Or, Low, BitQueue.Valid, BitQueue.Contents, BitQueue.Stray;
    var data, count := words, bitCount;
    while count >= 64
      invariant fresh(bitQueue) && bitQueue.Clean()
      invariant Loadable(data, count)
      invariant Unpack(words, bitCount) == bitQueue.Contents() + Unpack(data, count)
      decreases count
    {
      bitQueue.AddBits(data[0], 64);
      data, count := data[1..], count - 64;
    }
    if count > 0 {
      bitQueue.AddBits(data[0], count);
    }
  }
}

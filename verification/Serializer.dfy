/** Writing country blocks into bit queues, one queue per IP version. */
module Serializer {
  import opened Bits
  import opened BitQueues
  import opened Addresses
  import opened BlockFormat
  import opened Tilings
  import opened Stream

  /** The records that one block adds: itself, preceded by a sentinel if it does not follow on directly. */
  function AddedRecords(v: Version, prevEnd: nat, start: nat, country: nat): (records: seq<Record>)
    requires prevEnd < v.Space()
  {
    var expected := PlusOneIp(v, prevEnd);
    (if start == expected then [] else [Record(expected, SENTINEL)]) + [Record(start, country)]
  }

  lemma {:induction false} DifferencesBitsSnoc(v: Version, ds: seq<Difference>, d: Difference)
    ensures DifferencesBits(v, ds + [d])
         == DifferencesBits(v, ds) + ToBits(d.index, v.IndexBits()) + ToBits(d.value, v.SegmentBits())
  {
    hide ToBits;
    if ds == [] {
      assert ds + [d] == [d];
      assert DifferencesBits(v, [d][1..]) == [];
    } else {
      assert (ds + [d])[1..] == ds[1..] + [d];
      DifferencesBitsSnoc(v, ds[1..], d);
    }
  }

  /** A stream of one record. */
  lemma EncodeOne(v: Version, prev: nat, record: Record)
    requires prev < v.Space() && record.start < v.Space() && record.start != prev
    requires record.country < COUNTRY_LIMIT
    ensures Encodable(v, prev, [record])
    ensures |IpsIntoDifferences(v, prev, record.start)| > 0
    ensures Encode(v, prev, [record]) == RecordBits(v, prev, record)
  {
    hide Pow2, RecordBits;
    HasDifferences(v, prev, record.start);
    assert [record][1..] == [];
    assert Encodable(v, record.start, []);
  }

  lemma NoDifferences(v: Version)
    ensures DifferencesBits(v, []) == []
  {
  }

  lemma NothingEncoded(v: Version, prev: nat)
    requires prev < v.Space()
    ensures Encodable(v, prev, []) && Encode(v, prev, []) == []
  {
  }

  /** Where the last block of a list ends; before the first one, where the address space ends. */
  function PrevEnd(v: Version, blocks: seq<Block>): (end: nat)
  {
    if blocks == [] then v.Max() else blocks[|blocks| - 1].end
  }

  /** Where the last block of a list starts; before the first one, the last address but one. */
  function PrevStart(v: Version, blocks: seq<Block>): (start: nat)
  {
    if blocks == [] then InitialStart(v) else blocks[|blocks| - 1].start
  }

  /** The first address after the blocks is where the serializer expects the next one to start. */
  lemma NextIsAfter(v: Version, blocks: seq<Block>, block: Block)
    requires WellFormed(v, blocks + [block])
    ensures WellFormed(v, blocks)
    ensures After(blocks, 0) <= block.start
    ensures After(blocks, 0) == PlusOneIp(v, PrevEnd(v, blocks)) != PrevStart(v, blocks)
  {
    hide Pow2;
    var all := blocks + [block];
    InitialIsNotFirst(v);
    assert forall i :: 0 <= i < |blocks| ==> all[i] == blocks[i];
    assert all[|blocks|] == block;
    assert blocks != [] ==> all[|blocks| - 1].end < all[|blocks|].start;
  }

  lemma RecordsOfOne(block: Block)
    ensures RecordsOf([block]) == [Record(block.start, block.country)]
  {
  }

  /** A gap and the block after it, as records. */
  lemma RecordsOfGap(v: Version, prevEnd: nat, block: Block)
    requires prevEnd < v.Space() && PlusOneIp(v, prevEnd) <= block.start
    ensures RecordsOf(GapBefore(PlusOneIp(v, prevEnd), block.start) + [block])
         == AddedRecords(v, prevEnd, block.start, block.country)
  {
  }

  /** Adding a block to the list adds exactly the serializer's records to the stream. */
  lemma RecordsAfterBlock(v: Version, blocks: seq<Block>, block: Block)
    requires WellFormed(v, blocks + [block])
    ensures WellFormed(v, blocks)
    ensures PlusOneIp(v, PrevEnd(v, blocks)) != PrevStart(v, blocks)
    ensures RecordsOf(GapFilled(blocks + [block], 0))
         == RecordsOf(GapFilled(blocks, 0)) + AddedRecords(v, PrevEnd(v, blocks), block.start, block.country)
    ensures LastStart(InitialStart(v), RecordsOf(GapFilled(blocks + [block], 0))) == block.start
  {
    hide Pow2, PlusOneIp, GapFilled, RecordsOf, GapBefore;
    NextIsAfter(v, blocks, block);
    GapFilledSnoc(blocks, block, 0);
    RecordsOfAppend(GapFilled(blocks, 0), GapBefore(After(blocks, 0), block.start) + [block]);
    RecordsOfGap(v, PrevEnd(v, blocks), block);
  }

  /** Finishing adds the record of the trailing gap, if there is one, and the stream is complete. */
  lemma RecordsAtEnd(v: Version, blocks: seq<Block>)
    requires WellFormed(v, blocks)
    ensures PrevEnd(v, blocks) != v.Max() ==>
              && PlusOneIp(v, PrevEnd(v, blocks)) != PrevStart(v, blocks)
              && RecordsOf(Tiling(v, blocks))
              == RecordsOf(GapFilled(blocks, 0))
               + AddedRecords(v, PrevEnd(v, blocks), PlusOneIp(v, PrevEnd(v, blocks)), SENTINEL)
    ensures PrevEnd(v, blocks) == v.Max() ==> RecordsOf(Tiling(v, blocks)) == RecordsOf(GapFilled(blocks, 0))
    ensures blocks == [] ==> RecordsOf(GapFilled(blocks, 0)) == []
  {
    hide Pow2, PlusOneIp, GapFilled, RecordsOf;
    if blocks == [] {
      NoBlocks(0);
      assert |RecordsOf([])| == 0;
    } else if PrevEnd(v, blocks) != v.Max() {
      var gap := GapBefore(After(blocks, 0), v.Space());
      RecordsOfAppend(GapFilled(blocks, 0), gap);
      RecordsOfOne(gap[0]);
      assert gap == [gap[0]];
    } else {
      assert GapFilled(blocks, 0) + [] == GapFilled(blocks, 0);
    }
  }

  class VersionedIpSerializer {
    const version: Version
    const bitQueue: BitQueue
    var prevStart: nat
    var prevEnd: nat
    var blockCount: nat

    ghost predicate Valid()
      reads this, bitQueue
    {
      && prevStart < version.Space()
      && prevEnd < version.Space()
      && bitQueue.Clean()
    }

    /** The serializer has been given `blocks`, and nothing else, since it was made. */
    ghost predicate Represents(blocks: seq<Block>)
      reads this, bitQueue
    {
      var tiles := GapFilled(blocks, 0);
      && Valid()
      && WellFormed(version, blocks)
      && prevEnd == PrevEnd(version, blocks)
      && prevStart == PrevStart(version, blocks) == LastStart(InitialStart(version), RecordsOf(tiles))
      && Encodable(version, InitialStart(version), RecordsOf(tiles))
      && bitQueue.Contents() == Encode(version, InitialStart(version), RecordsOf(tiles))
      && blockCount == |tiles|
    }

    constructor (version: Version)
      ensures this.version == version && Valid() && fresh(bitQueue)
      ensures Represents([])
    {
      hide Pow2, GapFilled, RecordsOf, Encode, Encodable, BitQueue.Valid, BitQueue.Contents, BitQueue.Stray;
      this.version := version;
      prevStart := InitialStart(version);
      prevEnd := version.Max();
      blockCount := 0;
      bitQueue := new BitQueue();
      NoBlocks(0);
      NothingEncoded(version, InitialStart(version));
    }

    /** Number of differences less one, the differences, the country. */
    method WriteRecord(start: nat, country: nat)
      requires Valid()
      requires start < version.Space() && country < COUNTRY_LIMIT
      requires |IpsIntoDifferences(version, prevStart, start)| > 0
      modifies bitQueue
      ensures Valid()
      ensures bitQueue.Contents() == old(bitQueue.Contents()) + RecordBits(version, prevStart, Record(start, country))
    {
      hide Pow2, ToBits, Shr, Or, Low, IpsIntoDifferences, DifferencesBits, BitQueue.Valid, BitQueue.Contents;
      hide BitQueue.Stray;
      var ds := IpsIntoDifferences(version, prevStart, start);
      DifferencesLeadToTarget(version, prevStart, start);
      IndexFieldFits(version, |ds| - 1);
      ghost var before := bitQueue.Contents();
      ghost var count := ToBits(|ds| - 1, version.IndexBits());
      bitQueue.AddBits(|ds| - 1, version.IndexBits());
      NoDifferences(version);
      for i := 0 to |ds|
        invariant bitQueue.Clean()
        invariant bitQueue.Contents() == before + (count + DifferencesBits(version, ds[..i]))
      {
        assert ValidDifference(version, ds[i]);
        IndexFieldFits(version, ds[i].index);
        bitQueue.AddBits(ds[i].index, version.IndexBits());
        bitQueue.AddBits(ds[i].value, version.SegmentBits());
        assert ds[..i + 1] == ds[..i] + [ds[i]];
        DifferencesBitsSnoc(version, ds[..i], ds[i]);
      }
      assert ds[..|ds|] == ds;
      CountryLimitIsPow2();
      bitQueue.AddBits(country, COUNTRY_BITS);
    }

    /**
    Adds one block, and a sentinel block before it if it does not follow on directly.
    The recursion is one deep: the sentinel does follow on directly. A record needs
    at least one difference, hence the condition on the previous block: with well-formed
    blocks, only one that was the whole address space violates it.
     */
    method AddIp(start: nat, end: nat, country: nat)
      requires Valid()
      requires start < version.Space() && end < version.Space() && country < COUNTRY_LIMIT
      requires PlusOneIp(version, prevEnd) != prevStart
      modifies this, bitQueue
      ensures Valid() && prevStart == start && prevEnd == end
      ensures var records := AddedRecords(version, old(prevEnd), start, country);
              && Encodable(version, old(prevStart), records)
              && bitQueue.Contents() == old(bitQueue.Contents()) + Encode(version, old(prevStart), records)
              && blockCount == old(blockCount) + |records|
      decreases if start == PlusOneIp(version, prevEnd) then 0 else 1
    {
      hide Pow2, PlusOneIp, MinusOneIp, Encode, Encodable, RecordBits, IpsIntoDifferences, BitQueue.Valid;
      hide BitQueue.Contents, BitQueue.Stray;
      ghost var oldStart := prevStart;
      var expectedStart := PlusOneIp(version, prevEnd);
      ghost var gap: seq<Record> := [];
      SentinelFits();
      NothingEncoded(version, prevStart);
      if start != expectedStart {
        AddIp(expectedStart, MinusOneIp(version, start), SENTINEL);
        gap := [Record(expectedStart, SENTINEL)];
        assert [] + gap == gap;
      }
      EncodeOne(version, prevStart, Record(start, country));
      EncodeAppend(version, oldStart, gap, [Record(start, country)]);
      WriteRecord(start, country);
      prevStart := start;
      prevEnd := end;
      blockCount := blockCount + 1;
    }

    /** One more block of a well-formed list. */
    method Add(block: Block, ghost blocks: seq<Block>)
      requires Represents(blocks)
      requires WellFormed(version, blocks + [block])
      modifies this, bitQueue
      ensures Represents(blocks + [block])
    {
      hide Pow2, PlusOneIp, AddedRecords, LastStart, Encode, Encodable, RecordsOf, GapFilled, BitQueue.Valid;
      hide BitQueue.Contents, BitQueue.Stray;
      assert (blocks + [block])[|blocks|] == block;
      RecordsAfterBlock(version, blocks, block);
      ghost var records := RecordsOf(GapFilled(blocks, 0));
      ghost var added := AddedRecords(version, prevEnd, block.start, block.country);
      AddIp(block.start, block.end, block.country);
      EncodeAppend(version, InitialStart(version), records, added);
    }

    /** Fills the trailing gap. */
    method Finish(ghost blocks: seq<Block>)
      requires Represents(blocks)
      modifies this, bitQueue
      ensures Valid()
      ensures bitQueue.Contents() == Serialized(version, blocks)
      ensures blockCount == |Tiling(version, blocks)|
    {
      hide Pow2, PlusOneIp, AddedRecords, LastStart, Encode, Encodable, RecordsOf, GapFilled, Tiling;
      hide BitQueue.Valid, BitQueue.Contents, BitQueue.Stray;
      RecordsAtEnd(version, blocks);
      ghost var records := RecordsOf(GapFilled(blocks, 0));
      if prevEnd != version.Max() {
        ghost var added := AddedRecords(version, prevEnd, PlusOneIp(version, prevEnd), SENTINEL);
        SentinelFits();
        AddIp(PlusOneIp(version, prevEnd), version.Max(), SENTINEL);
        EncodeAppend(version, InitialStart(version), records, added);
      } else {
        NothingEncoded(version, InitialStart(version));
      }
    }
  }

  function ProjectOne(v: Version, block: CountryBlock): (r: seq<Block>)
  {
    if block.ipRange.version == v then [Block(block.ipRange.start, block.ipRange.end, block.country.index)] else []
  }

  /** The blocks of one version, as the serializer of that version sees them. */
  function Project(v: Version, blocks: seq<CountryBlock>): (r: seq<Block>)
  {
    if blocks == [] then []
    else Project(v, blocks[..|blocks| - 1]) + ProjectOne(v, blocks[|blocks| - 1])
  }

  lemma ProjectSnoc(v: Version, blocks: seq<CountryBlock>, block: CountryBlock)
    ensures Project(v, blocks + [block]) == Project(v, blocks) + ProjectOne(v, block)
  {
  }

  /** A stream in which the blocks of each version on their own are well-formed. */
  predicate WellFormedStream(blocks: seq<CountryBlock>)
  {
    WellFormed(V4, Project(V4, blocks)) && WellFormed(V6, Project(V6, blocks))
  }

  /** Dropping blocks from the end keeps a list, and a stream, well-formed. */
  lemma WellFormedPrefix(v: Version, blocks: seq<Block>, more: seq<Block>)
    requires WellFormed(v, blocks + more)
    ensures WellFormed(v, blocks)
  {
    hide Pow2;
    var all := blocks + more;
    assert forall i :: 0 <= i < |blocks| ==> all[i] == blocks[i];
  }

  lemma {:induction false} WellFormedStreamPrefix(blocks: seq<CountryBlock>, n: nat)
    requires WellFormedStream(blocks) && n <= |blocks|
    ensures WellFormedStream(blocks[..n])
    decreases |blocks| - n
  {
    hide Pow2, WellFormed;
    if n == |blocks| {
      assert blocks[..n] == blocks;
    } else {
      WellFormedStreamPrefix(blocks, n + 1);
      assert blocks[..n + 1] == blocks[..n] + [blocks[n]];
      ProjectSnoc(V4, blocks[..n], blocks[n]);
      ProjectSnoc(V6, blocks[..n], blocks[n]);
      WellFormedPrefix(V4, Project(V4, blocks[..n]), ProjectOne(V4, blocks[n]));
      WellFormedPrefix(V6, Project(V6, blocks[..n]), ProjectOne(V6, blocks[n]));
    }
  }

  datatype FinalBitQueue = FinalBitQueue(bitQueue: BitQueue, blockCount: nat)

  class CountryBlockSerializer {
    const ipv4: VersionedIpSerializer
    const ipv6: VersionedIpSerializer

    ghost predicate Represents(blocks: seq<CountryBlock>)
      reads this, ipv4, ipv6, ipv4.bitQueue, ipv6.bitQueue
    {
      && ipv4 != ipv6 && ipv4.bitQueue != ipv6.bitQueue
      && ipv4.version == V4 && ipv6.version == V6
      && ipv4.Represents(Project(V4, blocks))
      && ipv6.Represents(Project(V6, blocks))
    }

    constructor ()
      ensures Represents([])
      ensures fresh(ipv4) && fresh(ipv6) && fresh(ipv4.bitQueue) && fresh(ipv6.bitQueue)
    {
      hide Pow2, VersionedIpSerializer.Valid, VersionedIpSerializer.Represents;
      ipv4 := new VersionedIpSerializer(V4);
      ipv6 := new VersionedIpSerializer(V6);
    }

    /** Hands the block to the serializer of its version. */
    method Add(block: CountryBlock, ghost blocks: seq<CountryBlock>)
      requires Represents(blocks)
      requires WellFormedStream(blocks + [block])
      modifies ipv4, ipv6, ipv4.bitQueue, ipv6.bitQueue
      ensures Represents(blocks + [block])
    {
      hide Pow2, WellFormed, VersionedIpSerializer.Represents;
      var range := block.ipRange;
      ProjectSnoc(V4, blocks, block);
      ProjectSnoc(V6, blocks, block);
      assert forall v :: Project(v, blocks) + [] == Project(v, blocks);
      if range.version == V4 {
        ipv4.Add(Block(range.start, range.end, block.country.index), Project(V4, blocks));
      } else {
        ipv6.Add(Block(range.start, range.end, block.country.index), Project(V6, blocks));
      }
    }

    /** Fills the trailing gaps and hands the queues over. */
    method Finish(ghost blocks: seq<CountryBlock>) returns (v4: FinalBitQueue, v6: FinalBitQueue)
      requires Represents(blocks)
      modifies ipv4, ipv6, ipv4.bitQueue, ipv6.bitQueue
      ensures WellFormedStream(blocks)
      ensures v4.bitQueue == ipv4.bitQueue != v6.bitQueue == ipv6.bitQueue
      ensures v4.bitQueue.Valid() && v4.bitQueue.Contents() == Serialized(V4, Project(V4, blocks))
      ensures v6.bitQueue.Valid() && v6.bitQueue.Contents() == Serialized(V6, Project(V6, blocks))
      ensures v4.blockCount == |Tiling(V4, Project(V4, blocks))|
      ensures v6.blockCount == |Tiling(V6, Project(V6, blocks))|
    {
      hide Pow2, WellFormed, Serialized, Tiling, BitQueue.Valid, BitQueue.Contents, BitQueue.Stray;
      assert WellFormedStream(blocks);
      ipv4.Finish(Project(V4, blocks));
      ipv6.Finish(Project(V6, blocks));
      v4 := FinalBitQueue(ipv4.bitQueue, ipv4.blockCount);
      v6 := FinalBitQueue(ipv6.bitQueue, ipv6.blockCount);
    }
  }

  /** A whole serializing run. */
  method Serialize(blocks: seq<CountryBlock>) returns (v4: FinalBitQueue, v6: FinalBitQueue)
    requires WellFormedStream(blocks)
    ensures fresh(v4.bitQueue) && fresh(v6.bitQueue) && v4.bitQueue != v6.bitQueue
    ensures v4.bitQueue.Valid() && v4.bitQueue.Contents() == Serialized(V4, Project(V4, blocks))
    ensures v6.bitQueue.Valid() && v6.bitQueue.Contents() == Serialized(V6, Project(V6, blocks))
    ensures v4.blockCount == |Tiling(V4, Project(V4, blocks))|
    ensures v6.blockCount == |Tiling(V6, Project(V6, blocks))|
  {
    hide Pow2, WellFormedStream, Serialized, Tiling, CountryBlockSerializer.Represents, BitQueue.Valid;
    hide BitQueue.Contents, BitQueue.Stray;
    var serializer := new CountryBlockSerializer();
    assert blocks[..0] == [];
    for i := 0 to |blocks|
      invariant fresh(serializer.ipv4) && fresh(serializer.ipv6)
      invariant fresh(serializer.ipv4.bitQueue) && fresh(serializer.ipv6.bitQueue)
      invariant serializer.Represents(blocks[..i])
    {
      WellFormedStreamPrefix(blocks, i + 1);
      assert blocks[..i + 1] == blocks[..i] + [blocks[i]];
      serializer.Add(blocks[i], blocks[..i]);
    }
    assert blocks[..|blocks|] == blocks;
    v4, v6 := serializer.Finish(blocks);
  }
}

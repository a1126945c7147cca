/** Reading country blocks back from a bit queue, one at a time. */
module Deserializer {
  import opened Options
  import opened Bits
  import opened BitQueues
  import opened Addresses
  import opened BlockFormat
  import opened Words
  import opened Stream

  /** Overwrites the segments that changed and puts the address together. */
  method NewStreamRecord(v: Version, differences: seq<Difference>, segments: seq<nat>, country: nat)
    returns (record: Record)
    requires |segments| == v.Segments() && ValidDifferences(v, differences)
    ensures record == Record(IpFromSegments(v, ApplyDifferences(segments, differences)), country)
  {
    hide Pow2, FromDigits, Digits;
    var changed := new nat[|segments|](i requires 0 <= i < |segments| => segments[i]);
    assert changed[..] == segments;
    for i := 0 to |differences|
      invariant ApplyDifferences(segments, differences) == ApplyDifferences(changed[..], differences[i..])
    {
      var d := differences[i];
      assert ValidDifference(v, d);
      ghost var before := changed[..];
      changed[d.index] := d.value;
      assert changed[..] == before[d.index := d.value];
      assert differences[i..][1..] == differences[i + 1..];
    }
    record := Record(IpFromSegments(v, changed[..]), country);
  }

  /** Makes `count` attempts to read a difference and keeps those that succeed. */
  method ReadDifferencesFrom(bitQueue: BitQueue, v: Version, count: nat) returns (differences: seq<Difference>)
    requires bitQueue.Valid()
    modifies bitQueue
    ensures bitQueue.Valid()
    ensures ReadDifferences(v, old(bitQueue.Contents()), count) == Reading(differences, bitQueue.Contents())
  {
    hide Pow2, FromBits, BitQueue.Valid, BitQueue.Contents;
    differences := [];
    for i := 0 to count
      invariant bitQueue.Valid()
      invariant ReadDifferences(v, old(bitQueue.Contents()), count).value
             == differences + ReadDifferences(v, bitQueue.Contents(), count - i).value
      invariant ReadDifferences(v, old(bitQueue.Contents()), count).rest
             == ReadDifferences(v, bitQueue.Contents(), count - i).rest
    {
      var index := bitQueue.TakeBits(v.IndexBits());
      if index.Some? {
        var value := bitQueue.TakeBits(v.SegmentBits());
        if value.Some? {
          differences := differences + [Difference(index.value, value.value)];
        }
      }
    }
    ghost var all := ReadDifferences(v, old(bitQueue.Contents()), count);
    assert all.value == differences && all.rest == bitQueue.Contents();
    assert all == Reading(all.value, all.rest);
  }

  /** Reads the next record, relative to where the previous one started. */
  method GetRecord(bitQueue: BitQueue, v: Version, prevStart: nat) returns (record: Option<Record>)
    requires bitQueue.Valid()
    modifies bitQueue
    ensures bitQueue.Valid()
    ensures ReadRecord(v, old(bitQueue.Contents()), prevStart) == Reading(record, bitQueue.Contents())
  {
    hide Pow2, FromBits, ReadDifferences, Digits, FromDigits, BitQueue.Valid, BitQueue.Contents;
    var segments := SegmentsOf(v, prevStart);
    var countLessOne := bitQueue.TakeBits(v.IndexBits());
    if countLessOne.None? {
      return None;
    }
    var differences := ReadDifferencesFrom(bitQueue, v, countLessOne.value + 1);
    if |differences| < countLessOne.value + 1 {
      return None;
    }
    var country := bitQueue.TakeBits(COUNTRY_BITS);
    if country.None? {
      return None;
    }
    var r := NewStreamRecord(v, differences, segments, country.value);
    record := Some(r);
  }

  /** A block as it is handed out: its country number looked up in the table. */
  function Resolve(v: Version, countries: seq<Country>, block: Block): (b: CountryBlock)
    requires block.country < |countries|
  {
    CountryBlock(IpRange(v, block.start, block.end), countries[block.country])
  }

  class CountryBlockDeserializer {
    const version: Version
    const countries: seq<Country>
    const bitQueue: BitQueue
    var prevRecord: Record
    var empty: bool

    ghost predicate Valid()
      reads this, bitQueue
    {
      bitQueue.Valid() && prevRecord.start < version.Space()
    }

    /** The blocks that are still to come. */
    ghost function Remaining(): (blocks: seq<Block>)
      requires Valid()
      reads this, bitQueue
    {
      if empty then [] else DecodeFrom(version, prevRecord, bitQueue.Contents())
    }

    /** Loads the words and reads the first record, which must be there. */
    constructor (version: Version, words: seq<nat>, bitCount: nat, countries: seq<Country>)
      requires Loadable(words, bitCount)
      requires Decode(version, Unpack(words, bitCount)).Some?
      ensures this.version == version && this.countries == countries
      ensures Valid() && fresh(bitQueue)
      ensures Some(Remaining()) == Decode(version, Unpack(words, bitCount))
    {
      hide Pow2, Unpack, Loadable, DecodeFrom, ReadRecord, BitQueue.Valid, BitQueue.Contents;
      var queue := BitQueueFromCountryData(words, bitCount);
      var first := GetRecord(queue, version, InitialStart(version));
      ReadRecordProgress(version, Unpack(words, bitCount), InitialStart(version));
      this.version := version;
      this.countries := countries;
      bitQueue := queue;
      prevRecord := first.value;
      empty := false;
    }

    /** Hands out the next block, if any is left; the country must be in the table. */
    method Next() returns (block: Option<CountryBlock>)
      requires Valid()
      requires Remaining() != [] ==> Remaining()[0].country < |countries|
      modifies this, bitQueue
      ensures Valid()
      ensures block.None? <==> old(Remaining()) == []
      ensures block.None? ==> Remaining() == []
      ensures block.Some? ==>
                && block.value == Resolve(version, countries, old(Remaining())[0])
                && Remaining() == old(Remaining())[1..]
    {
      hide Pow2, ReadRecord, MinusOneIp, BitQueue.Valid, BitQueue.Contents;
      if empty {
        return None;
      }
      ReadRecordProgress(version, bitQueue.Contents(), prevRecord.start);
      var nextRecord := GetRecord(bitQueue, version, prevRecord.start);
      match nextRecord {
        case Some(next) =>
          var prevBlock := CountryBlock(
            IpRange(version, prevRecord.start, MinusOneIp(version, next.start)),
            countries[prevRecord.country]);
          prevRecord := next;
          block := Some(prevBlock);
        case None =>
          empty := true;
          block := Some(CountryBlock(
            IpRange(version, prevRecord.start, version.Max()),
            countries[prevRecord.country]));
      }
    }
  }

  predicate InTable(blocks: seq<Block>, countries: seq<Country>)
  {
    forall i :: 0 <= i < |blocks| ==> blocks[i].country < |countries|
  }

  function ResolveAll(v: Version, countries: seq<Country>, blocks: seq<Block>): (r: seq<CountryBlock>)
    requires InTable(blocks, countries)
    ensures |r| == |blocks|
    ensures forall i :: 0 <= i < |blocks| ==> r[i] == Resolve(v, countries, blocks[i])
  {
    seq(|blocks|, i requires 0 <= i < |blocks| => Resolve(v, countries, blocks[i]))
  }

  /** Collects all the blocks of a family: the iterator ends, on any stream with known countries. */
  method CollectBlocks(v: Version, words: seq<nat>, bitCount: nat, countries: seq<Country>)
    returns (collected: seq<CountryBlock>)
    requires Loadable(words, bitCount)
    requires Decode(v, Unpack(words, bitCount)).Some?
    requires InTable(Decode(v, Unpack(words, bitCount)).value, countries)
    ensures collected == ResolveAll(v, countries, Decode(v, Unpack(words, bitCount)).value)
  {
    hide Pow2, Loadable, Unpack, Decode, CountryBlockDeserializer.Valid, CountryBlockDeserializer.Remaining;
    ghost var all := Decode(v, Unpack(words, bitCount)).value;
    var blocks := new CountryBlockDeserializer(v, words, bitCount, countries);
    collected := [];
    while true
      invariant blocks.Valid() && fresh(blocks) && fresh(blocks.bitQueue)
      invariant |collected| <= |all| && blocks.Remaining() == all[|collected|..]
      invariant forall i :: 0 <= i < |collected| ==> collected[i] == Resolve(v, countries, all[i])
      decreases |all| - |collected|
    {
      var block := blocks.Next();
      if block.None? {
        break;
      }
      collected := collected + [block.value];
    }
  }
}

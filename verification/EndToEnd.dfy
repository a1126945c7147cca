/**
From a list of country blocks through bits, words and bits again to the answer
for an address.
 */
module EndToEnd {
  import opened Options
  import opened Bits
  import opened BitQueues
  import opened Addresses
  import opened BlockFormat
  import opened Tilings
  import opened Words
  import opened Stream
  import opened CountryTables
  import opened Serializer
  import opened Deserializer
  import opened Finder

  /** Every block names a country by its number in the table, whose number 0 is the sentinel. */
  predicate CountriesKnown(blocks: seq<CountryBlock>, countries: Countries)
  {
    && countries.countries != []
    && countries.countries[0].iso3166 == ZZ
    && forall i :: 0 <= i < |blocks| ==> blocks[i].country.index < |countries.countries|
  }

  /** Serialized, packed, unpacked and decoded, a list comes back with its gaps filled. */
  lemma RoundTrip(v: Version, blocks: seq<Block>)
    requires WellFormed(v, blocks)
    ensures var bits := Serialized(v, blocks);
            && Loadable(Pack(bits), |bits|)
            && Decode(v, Unpack(Pack(bits), |bits|)) == if blocks == [] then None else Some(Tiling(v, blocks))
  {
    hide Pow2, Serialized, Pack, Unpack, Loadable, Decode, Tiling;
    UnpackPacked(Serialized(v, blocks));
    DecodeSerialized(v, blocks);
  }

  lemma {:induction false} GapFilledInTable(blocks: seq<Block>, countries: seq<Country>, cursor: nat)
    requires InTable(blocks, countries) && countries != []
    ensures InTable(GapFilled(blocks, cursor), countries)
    decreases |blocks|
  {
    if blocks != [] {
      GapFilledInTable(blocks[1..], countries, blocks[0].end + 1);
    }
  }

  lemma TilingInTable(v: Version, blocks: seq<Block>, countries: seq<Country>)
    requires InTable(blocks, countries) && countries != []
    ensures InTable(Tiling(v, blocks), countries)
  {
    hide Pow2, GapFilled;
    GapFilledInTable(blocks, countries, 0);
  }

  /** The projection holds exactly the blocks of its version. */
  lemma {:induction false} ProjectInTable(v: Version, blocks: seq<CountryBlock>, countries: seq<Country>)
    requires forall i :: 0 <= i < |blocks| ==> blocks[i].country.index < |countries|
    ensures InTable(Project(v, blocks), countries)
    decreases |blocks|
  {
    if blocks != [] {
      ProjectInTable(v, blocks[..|blocks| - 1], countries);
    }
  }

  lemma {:induction false} ProjectHolds(v: Version, blocks: seq<CountryBlock>, i: nat) returns (k: nat)
    requires i < |blocks| && blocks[i].ipRange.version == v
    ensures k < |Project(v, blocks)|
    ensures Project(v, blocks)[k] == Block(blocks[i].ipRange.start, blocks[i].ipRange.end, blocks[i].country.index)
    decreases |blocks|
  {
    var n := |blocks| - 1;
    if i == n {
      k := |Project(v, blocks[..n])|;
    } else {
      k := ProjectHolds(v, blocks[..n], i);
    }
  }

  lemma {:induction false} ProjectOnlyHolds(v: Version, blocks: seq<CountryBlock>, a: IpAddr)
    requires a.version == v
    requires forall i :: 0 <= i < |blocks| ==> !blocks[i].ipRange.Contains(a)
    ensures forall k :: 0 <= k < |Project(v, blocks)| ==> !Contains(Project(v, blocks)[k], a.ip)
    decreases |blocks|
  {
    if blocks != [] {
      ProjectOnlyHolds(v, blocks[..|blocks| - 1], a);
    }
  }

  /** The finder's list of one version is the decoded tiling of the input blocks of that version. */
  ghost predicate BuiltForVersion(finder: CountryCodeFinder, blocks: seq<CountryBlock>, v: Version)
  {
    var tiles := Tiling(v, Project(v, blocks));
    && Project(v, blocks) != []
    && InTable(tiles, finder.countries.countries)
    && finder.BlocksFor(v) == ResolveAll(v, finder.countries.countries, tiles)
  }

  ghost predicate BuiltFrom(finder: CountryCodeFinder, blocks: seq<CountryBlock>)
  {
    && finder.Valid()
    && CountriesKnown(blocks, finder.countries)
    && WellFormedStream(blocks)
    && BuiltForVersion(finder, blocks, V4)
    && BuiltForVersion(finder, blocks, V6)
  }

  /**
  Serializes both versions, writes the queues out as words, and builds a finder
  from the words. The block counts written out are those of the decoded lists.
   */
  method Build(blocks: seq<CountryBlock>, countries: Countries)
    returns (finder: CountryCodeFinder, blockCount4: nat, blockCount6: nat)
    requires WellFormedStream(blocks) && CountriesKnown(blocks, countries)
    requires Project(V4, blocks) != [] && Project(V6, blocks) != []
    ensures finder.countries == countries && BuiltFrom(finder, blocks)
    ensures blockCount4 == |finder.ipv4| && blockCount6 == |finder.ipv6|
  {
    hide Pow2, Pack, Unpack, Loadable, Decode, Serialized, Tiling, WellFormed, Project, InTable;
    hide CountryFromCode, BitQueue.Valid, BitQueue.Contents;
    var final4, final6 := Serialize(blocks);
    var words4, bitCount4 := GenerateCountryData(final4.bitQueue);
    var words6, bitCount6 := GenerateCountryData(final6.bitQueue);
    forall v ensures InTable(Tiling(v, Project(v, blocks)), countries.countries) {
      ProjectInTable(v, blocks, countries.countries);
      TilingInTable(v, Project(v, blocks), countries.countries);
    }
    RoundTrip(V4, Project(V4, blocks));
    RoundTrip(V6, Project(V6, blocks));
    var ipv4 := CollectBlocks(V4, words4, bitCount4, countries.countries);
    var ipv6 := CollectBlocks(V6, words6, bitCount6, countries.countries);
    finder := CountryCodeFinder(countries, ipv4, ipv6);
    blockCount4, blockCount6 := final4.blockCount, final6.blockCount;
  }

  /**
  The finder answers with the country of the block that contains the address, and
  with none if that is the sentinel or if no block contains it.
   */
  lemma FinderAnswers(finder: CountryCodeFinder, blocks: seq<CountryBlock>, a: IpAddr)
    requires BuiltFrom(finder, blocks) && a.Valid()
    ensures finder.Search(a).Some?
    ensures forall i :: 0 <= i < |blocks| && blocks[i].ipRange.Contains(a) ==>
              finder.FindCountry(a) == Reported(finder.countries.countries[blocks[i].country.index])
    ensures (forall i :: 0 <= i < |blocks| ==> !blocks[i].ipRange.Contains(a)) ==> finder.FindCountry(a) == None
  {
    hide Pow2, Tiling, WellFormed, Project, CountryAt, InTable, CountryFromCode, BinarySearch;
    var v := a.version;
    var projected := Project(v, blocks);
    assert BuiltForVersion(finder, blocks, v);
    TilingCovers(v, projected);
    FindInCover(finder, Tiling(v, projected), a);
    TilingMeaning(v, projected, a.ip);
    forall i | 0 <= i < |blocks| && blocks[i].ipRange.Contains(a)
      ensures finder.FindCountry(a) == Reported(finder.countries.countries[blocks[i].country.index])
    {
      var k := ProjectHolds(v, blocks, i);
      CountryOfContaining(v, projected, k, a.ip);
    }
    if forall i :: 0 <= i < |blocks| ==> !blocks[i].ipRange.Contains(a) {
      ProjectOnlyHolds(v, blocks, a);
      CountryOutside(projected, a.ip);
    }
  }
}

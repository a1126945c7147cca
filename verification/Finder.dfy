/** Finding the country of an address among decoded blocks. */
module Finder {
  import opened Options
  import opened Bits
  import opened Addresses
  import opened BlockFormat
  import opened Tilings
  import opened Stream
  import opened CountryTables
  import opened Deserializer

  predicate AllOfVersion(v: Version, blocks: seq<CountryBlock>)
  {
    forall i :: 0 <= i < |blocks| ==> blocks[i].ipRange.version == v
  }

  /** `binary_search_by` with the comparator `ordering_by_range`, on `blocks[lo..hi]`. */
  function BinarySearch(blocks: seq<CountryBlock>, a: IpAddr, lo: nat, hi: nat): (r: Option<nat>)
    requires AllOfVersion(a.version, blocks)
    requires lo <= hi <= |blocks|
    ensures r.Some? ==> lo <= r.value < hi && blocks[r.value].ipRange.Contains(a)
    decreases hi - lo
  {
    if lo == hi then None
    else
      var mid := lo + (hi - lo) / 2;
      match blocks[mid].ipRange.OrderingByRange(a)
      case Equal => Some(mid)
      case Greater => BinarySearch(blocks, a, lo, mid)
      case Less => BinarySearch(blocks, a, mid + 1, hi)
  }

  /** The sentinel is reported as no country. */
  function Reported(country: Country): (r: Option<Country>)
  {
    if country.iso3166 == ZZ then None else Some(country)
  }

  datatype CountryCodeFinder =
    CountryCodeFinder(countries: Countries, ipv4: seq<CountryBlock>, ipv6: seq<CountryBlock>)
  {
    /** The blocks are filed under their versions. */
    predicate Valid()
    {
      AllOfVersion(V4, ipv4) && AllOfVersion(V6, ipv6)
    }

    function BlocksFor(v: Version): (blocks: seq<CountryBlock>)
    {
      if v == V4 then ipv4 else ipv6
    }

    function Search(a: IpAddr): (r: Option<nat>)
      requires Valid()
    {
      BinarySearch(BlocksFor(a.version), a, 0, |BlocksFor(a.version)|)
    }

    /** Where no block is found, the sentinel has to be in the table. */
    predicate CanAnswer(a: IpAddr)
      requires Valid()
    {
      Search(a).None? ==> CountryFromCode(countries, ZZ).Ok?
    }

    function FindCountry(a: IpAddr): (r: Option<Country>)
      requires Valid() && CanAnswer(a)
    {
      match Search(a)
      case Some(i) => Reported(BlocksFor(a.version)[i].country)
      case None => Reported(CountryFromCode(countries, ZZ).country)
    }
  }

  /** The first block that contains the address, by looking at one after the other. */
  function LinearScan(blocks: seq<CountryBlock>, a: IpAddr, from: nat): (r: Option<nat>)
    requires from <= |blocks|
    decreases |blocks| - from
  {
    if from == |blocks| then None
    else if blocks[from].ipRange.Contains(a) then Some(from)
    else LinearScan(blocks, a, from + 1)
  }

  /** Ranges in ascending order without overlap. */
  predicate Ascending(blocks: seq<CountryBlock>)
  {
    && (forall i :: 0 <= i < |blocks| ==> blocks[i].ipRange.start <= blocks[i].ipRange.end)
    && (forall i, j :: 0 <= i < j < |blocks| ==> blocks[i].ipRange.end < blocks[j].ipRange.start)
  }

  lemma {:induction false} SearchMisses(blocks: seq<CountryBlock>, a: IpAddr, lo: nat, hi: nat)
    requires AllOfVersion(a.version, blocks) && Ascending(blocks)
    requires lo <= hi <= |blocks|
    ensures BinarySearch(blocks, a, lo, hi).None? ==>
              forall i :: lo <= i < hi ==> !blocks[i].ipRange.Contains(a)
    decreases hi - lo
  {
    if lo < hi {
      var mid := lo + (hi - lo) / 2;
      SearchMisses(blocks, a, lo, mid);
      SearchMisses(blocks, a, mid + 1, hi);
    }
  }

  lemma {:induction false} ScanFindsFirst(blocks: seq<CountryBlock>, a: IpAddr, from: nat)
    requires from <= |blocks|
    ensures match LinearScan(blocks, a, from)
            case Some(k) => from <= k < |blocks| && blocks[k].ipRange.Contains(a)
            case None => forall i :: from <= i < |blocks| ==> !blocks[i].ipRange.Contains(a)
    decreases |blocks| - from
  {
    if from < |blocks| {
      ScanFindsFirst(blocks, a, from + 1);
    }
  }

  /** On ascending ranges the binary search finds what a linear scan with `contains` finds. */
  lemma SearchAgreesWithScan(blocks: seq<CountryBlock>, a: IpAddr)
    requires AllOfVersion(a.version, blocks) && Ascending(blocks)
    ensures BinarySearch(blocks, a, 0, |blocks|) == LinearScan(blocks, a, 0)
  {
    SearchMisses(blocks, a, 0, |blocks|);
    ScanFindsFirst(blocks, a, 0);
  }

  lemma SentinelListed(c: Countries, pairs: seq<Pair>)
    requires IsTableOf(c, pairs)
    ensures ToAsciiUppercase(ZZ) == ZZ && exists k :: k in c.countries && k.iso3166 == ZZ
  {
    hide PairsOf, SortByCode, WithoutSentinel, IndexByIso3166, AtMost;
    assert c.countries[0] in c.countries;
  }

  /**
  With ascending ranges, gaps or not, and any table, the answer is the country of the
  block around the address unless its code is "ZZ", and none where there is no block.
   */
  lemma FindMeansContain(finder: CountryCodeFinder, pairs: seq<Pair>, a: IpAddr)
    requires finder.Valid() && Ascending(finder.BlocksFor(a.version)) && IsTableOf(finder.countries, pairs)
    ensures finder.CanAnswer(a)
    ensures forall i :: 0 <= i < |finder.BlocksFor(a.version)| ==>
              var block := finder.BlocksFor(a.version)[i];
              block.ipRange.start <= a.ip <= block.ipRange.end ==>
                finder.FindCountry(a) == if block.country.iso3166 == "ZZ" then None else Some(block.country)
    ensures (forall i :: 0 <= i < |finder.BlocksFor(a.version)| ==>
               !finder.BlocksFor(a.version)[i].ipRange.Contains(a)) ==> finder.FindCountry(a) == None
  {
    hide CountryFromCode, IsTableOf, BinarySearch;
    var blocks := finder.BlocksFor(a.version);
    SearchMisses(blocks, a, 0, |blocks|);
    CodeLookup(finder.countries, pairs, ZZ);
    SentinelListed(finder.countries, pairs);
    assert forall i :: 0 <= i < |blocks| && blocks[i].ipRange.start <= a.ip <= blocks[i].ipRange.end ==>
        blocks[i].ipRange.Contains(a);
  }

  // ----- decoded blocks -----

  lemma {:induction false} CoverIsAscending(v: Version, tiles: seq<Block>, from: nat)
    requires Covers(v, tiles, from)
    ensures forall i :: 0 <= i < |tiles| ==> from <= tiles[i].start <= tiles[i].end < v.Space()
    ensures forall i, j :: 0 <= i < j < |tiles| ==> tiles[i].end < tiles[j].start
    ensures forall i :: 0 <= i < |tiles| ==> tiles[i].country < COUNTRY_LIMIT
    decreases |tiles|
  {
    hide Pow2;
    if |tiles| > 1 {
      CoverIsAscending(v, tiles[1..], tiles[0].end + 1);
      assert forall i :: 0 < i < |tiles| ==> tiles[i] == tiles[1..][i - 1];
    }
  }

  /** Every address from the start of a cover on is in one of its blocks, which tells its country. */
  lemma {:induction false} CoverHasEvery(v: Version, tiles: seq<Block>, from: nat, ip: nat) returns (k: nat)
    requires Covers(v, tiles, from) && from <= ip < v.Space()
    ensures k < |tiles| && Contains(tiles[k], ip)
    ensures CountryAt(tiles, ip) == tiles[k].country
    decreases |tiles|
  {
    hide Pow2;
    if Contains(tiles[0], ip) {
      k := 0;
    } else {
      k := CoverHasEvery(v, tiles[1..], tiles[0].end + 1, ip);
      k := k + 1;
    }
  }

  /**
  Along a decoded list the comparator says Less up to some point, Equal once, and
  Greater from there on.
   */
  lemma ComparatorPattern(v: Version, tiles: seq<Block>, countries: seq<Country>, ip: nat) returns (k: nat)
    requires Covers(v, tiles, 0) && InTable(tiles, countries) && ip < v.Space()
    ensures k < |tiles|
    ensures forall i :: 0 <= i < |tiles| ==>
              ResolveAll(v, countries, tiles)[i].ipRange.OrderingByRange(IpAddr(v, ip))
              == if i < k then Less else if i == k then Equal else Greater
    ensures CountryAt(tiles, ip) == tiles[k].country
  {
    hide Pow2, Covers, CountryAt;
    CoverIsAscending(v, tiles, 0);
    k := CoverHasEvery(v, tiles, 0, ip);
    assert forall i :: 0 <= i < k ==> tiles[i].end < tiles[k].start;
    assert forall i :: k < i < |tiles| ==> tiles[k].end < tiles[i].start;
  }

  /** Searching a decoded cover reports the country that the cover assigns to the address. */
  lemma FindInCover(finder: CountryCodeFinder, tiles: seq<Block>, a: IpAddr)
    requires finder.Valid() && a.Valid()
    requires Covers(a.version, tiles, 0) && InTable(tiles, finder.countries.countries)
    requires finder.BlocksFor(a.version) == ResolveAll(a.version, finder.countries.countries, tiles)
    ensures CountryAt(tiles, a.ip) < |finder.countries.countries|
    ensures finder.Search(a).Some?
    ensures finder.FindCountry(a) == Reported(finder.countries.countries[CountryAt(tiles, a.ip)])
  {
    hide Pow2, Covers, CountryAt, CountryFromCode;
    var blocks := finder.BlocksFor(a.version);
    CoverIsAscending(a.version, tiles, 0);
    var k := ComparatorPattern(a.version, tiles, finder.countries.countries, a.ip);
    assert Ascending(blocks);
    assert blocks[k].ipRange.Contains(a);
    SearchMisses(blocks, a, 0, |blocks|);
    var i := BinarySearch(blocks, a, 0, |blocks|).value;
    assert blocks[i].ipRange.OrderingByRange(a) == Equal;
    assert i == k;
  }
}

/**
From the items of a country database to answers about addresses: collecting and
coalescing the ranges, making the table and the blocks, and building the finder.
 */
module Parser {
  import opened Options
  import opened Bits
  import opened Addresses
  import opened BlockFormat
  import opened Tilings
  import opened Stream
  import opened CountryTables
  import opened Serializer
  import opened Finder
  import opened EndToEnd
  import opened Coalescing

  datatype CountryInfo = CountryInfo(isoCode: Option<string>, name: Option<string>)

  datatype Item = Item(range: IpRange, country: Option<CountryInfo>)

  /** The code an item is filed under, the sentinel's if it has none. */
  function CodeOf(item: Item): (code: string)
  {
    if item.country.Some? && item.country.value.isoCode.Some? then item.country.value.isoCode.value else ZZ
  }

  /** The code and the name an item contributes to the table. */
  function PairFor(item: Item): (pair: Pair)
  {
    match item.country
    case Some(CountryInfo(Some(code), Some(name))) => (code, name)
    case Some(CountryInfo(Some(code), None)) => (code, "Unknown")
    case _ => (ZZ, "Sentinel")
  }

  function PairsFrom(items: seq<Item>): (pairs: set<Pair>)
  {
    set i | 0 <= i < |items| :: PairFor(items[i])
  }

  // ----- what items say, in their own fields -----

  predicate HasCode(item: Item, code: string)
  {
    item.country.Some? && item.country.value.isoCode == Some(code)
  }

  predicate Uncoded(item: Item)
  {
    item.country == None || item.country.value.isoCode == None
  }

  /** The name an item with a country gives it, for want of one "Unknown". */
  predicate GivesName(item: Item, name: string)
    requires item.country.Some?
  {
    item.country.value.name == Some(name) || (item.country.value.name == None && name == "Unknown")
  }

  /** The pairs of the table are the codes and names that items give, and one for items without a code. */
  ghost predicate ListsItems(pairs: set<Pair>, items: seq<Item>)
  {
    forall p :: p in pairs <==>
      || (exists i :: 0 <= i < |items| && HasCode(items[i], p.0) && GivesName(items[i], p.1))
      || (p == ("ZZ", "Sentinel") && exists i :: 0 <= i < |items| && Uncoded(items[i]))
  }

  lemma PairInFields(item: Item, p: Pair)
    ensures p == PairFor(item) <==>
              (HasCode(item, p.0) && GivesName(item, p.1)) || (Uncoded(item) && p == ("ZZ", "Sentinel"))
  {
  }

  lemma CodeInFields(item: Item)
    ensures Uncoded(item) ==> CodeOf(item) == "ZZ"
    ensures forall code :: HasCode(item, code) ==> CodeOf(item) == code
  {
  }

  lemma PairsInFields(items: seq<Item>)
    ensures ListsItems(PairsFrom(items), items)
  {
    hide PairFor, GivesName, Uncoded;
    forall p
      ensures p in PairsFrom(items) <==>
                || (exists i :: 0 <= i < |items| && HasCode(items[i], p.0) && GivesName(items[i], p.1))
                || (p == ("ZZ", "Sentinel") && exists i :: 0 <= i < |items| && Uncoded(items[i]))
    {
      forall i | 0 <= i < |items|
        ensures p == PairFor(items[i]) <==>
                  || (HasCode(items[i], p.0) && GivesName(items[i], p.1))
                  || (Uncoded(items[i]) && p == ("ZZ", "Sentinel"))
      {
        PairInFields(items[i], p);
      }
    }
  }

  // ----- ranges and blocks -----

  function CodedStream(items: seq<Item>): (stream: seq<CodedRange>)
    ensures |stream| == |items|
    ensures forall i :: 0 <= i < |items| ==> stream[i] == (CodeOf(items[i]), items[i].range)
  {
    seq(|items|, i requires 0 <= i < |items| => (CodeOf(items[i]), items[i].range))
  }

  /** What a database owes the parser. */
  predicate Parsable(items: seq<Item>)
  {
    AscendingRanges(CodedStream(items)) && Unmixed(CodedStream(items))
  }

  /** The country of a range, one called unknown if its code is not in the table. */
  function CountryFor(table: Countries, code: string): (country: Country)
  {
    match CountryFromCode(table, code)
    case Ok(country) => country
    case _ => Country(0, ZZ, "Unknown")
  }

  function MakeCountryBlocks(table: Countries, ranges: seq<CodedRange>): (blocks: seq<CountryBlock>)
    ensures |blocks| == |ranges|
    ensures forall i :: 0 <= i < |ranges| ==> blocks[i] == CountryBlock(ranges[i].1, CountryFor(table, ranges[i].0))
  {
    seq(|ranges|, i requires 0 <= i < |ranges| => CountryBlock(ranges[i].1, CountryFor(table, ranges[i].0)))
  }

  // ----- the blocks are fit for the serializer -----

  predicate BlocksAscending(blocks: seq<CountryBlock>)
  {
    && (forall i :: 0 <= i < |blocks| ==> blocks[i].ipRange.Valid() && blocks[i].country.index < COUNTRY_LIMIT)
    && (forall i, j :: 0 <= i < j < |blocks| && blocks[i].ipRange.version == blocks[j].ipRange.version ==>
          blocks[i].ipRange.end < blocks[j].ipRange.start)
  }

  predicate BlocksBefore(v: Version, blocks: seq<CountryBlock>, bound: nat)
  {
    forall i :: 0 <= i < |blocks| && blocks[i].ipRange.version == v ==> blocks[i].ipRange.end < bound
  }

  lemma {:induction false} ProjectBefore(v: Version, blocks: seq<CountryBlock>, bound: nat)
    requires BlocksBefore(v, blocks, bound)
    ensures forall k :: 0 <= k < |Project(v, blocks)| ==> Project(v, blocks)[k].end < bound
    decreases |blocks|
  {
    if blocks != [] {
      ProjectBefore(v, blocks[..|blocks| - 1], bound);
    }
  }

  lemma WellFormedSnoc(v: Version, blocks: seq<Block>, block: Block)
    requires WellFormed(v, blocks)
    requires block.start <= block.end < v.Space() && block.country < COUNTRY_LIMIT
    requires forall k :: 0 <= k < |blocks| ==> blocks[k].end < block.start
    ensures WellFormed(v, blocks + [block])
  {
  }

  lemma NoBlocksWellFormed(v: Version)
    ensures WellFormed(v, [])
  {
  }

  lemma {:induction false} ProjectWellFormed(v: Version, blocks: seq<CountryBlock>)
    requires BlocksAscending(blocks)
    ensures WellFormed(v, Project(v, blocks))
    decreases |blocks|
  {
    hide Pow2, WellFormed;
    if blocks == [] {
      NoBlocksWellFormed(v);
    } else {
      var n := |blocks| - 1;
      var init, last := blocks[..n], blocks[n].ipRange;
      ProjectWellFormed(v, init);
      if last.version == v {
        ProjectBefore(v, init, last.start);
        WellFormedSnoc(v, Project(v, init), Block(last.start, last.end, blocks[n].country.index));
      } else {
        assert Project(v, init) + [] == Project(v, init);
      }
    }
  }

  /** Every number a table lookup gives is in the table. */
  lemma CountryForInTable(table: Countries, pairs: seq<Pair>, code: string)
    requires IsTableOf(table, pairs)
    ensures CountryFor(table, code).index < |table.countries|
    ensures table.countries[CountryFor(table, code).index].iso3166 == CountryFor(table, code).iso3166
    ensures CountryFor(table, code).iso3166 != ZZ ==>
              table.countries[CountryFor(table, code).index] == CountryFor(table, code)
  {
  }

  lemma BlocksFit(table: Countries, pairs: seq<Pair>, ranges: seq<CodedRange>)
    requires IsTableOf(table, pairs) && |table.countries| <= COUNTRY_LIMIT
    requires AscendingRanges(ranges)
    ensures BlocksAscending(MakeCountryBlocks(table, ranges))
    ensures CountriesKnown(MakeCountryBlocks(table, ranges), table)
  {
  }

  /** A range of the stream survives in the collected list, possibly as part of a longer one. */
  lemma CollectedHolds(items: seq<Item>, i: nat, a: IpAddr) returns (k: nat)
    requires Parsable(items) && i < |items| && items[i].range.Contains(a)
    ensures k < |Coalesce(CodedStream(items))|
    ensures Coalesce(CodedStream(items))[k].1.Contains(a)
    ensures Coalesce(CodedStream(items))[k].0 == CodeOf(items[i])
  {
    hide Coalesce;
    var stream := CodedStream(items);
    assert stream[i].1.Contains(a) && stream[i].0 == CodeOf(items[i]);
    CoalesceMeaning(stream, a, CodeOf(items[i]));
    k :| 0 <= k < |Coalesce(stream)| && Coalesce(stream)[k].1.Contains(a) && Coalesce(stream)[k].0 == CodeOf(items[i]);
  }

  lemma CollectedOnlyHolds(items: seq<Item>, a: IpAddr)
    requires Parsable(items)
    requires forall i :: 0 <= i < |items| ==> !items[i].range.Contains(a)
    ensures forall k :: 0 <= k < |Coalesce(CodedStream(items))| ==> !Coalesce(CodedStream(items))[k].1.Contains(a)
  {
    hide Coalesce;
    var stream := CodedStream(items);
    var ranges := Coalesce(stream);
    forall k | 0 <= k < |ranges| ensures !ranges[k].1.Contains(a) {
      CoalesceMeaning(stream, a, ranges[k].0);
      assert !Maps(stream, a, ranges[k].0);
    }
  }

  lemma ProjectNotEmpty(items: seq<Item>, table: Countries, i: nat)
    requires Parsable(items) && i < |items|
    ensures Project(items[i].range.version, MakeCountryBlocks(table, Coalesce(CodedStream(items)))) != []
  {
    hide Coalesce, CountryFor, Project;
    var a := items[i].range.Start();
    assert CodedStream(items)[i].1.Valid();
    var k := CollectedHolds(items, i, a);
    var _ := ProjectHolds(a.version, MakeCountryBlocks(table, Coalesce(CodedStream(items))), k);
  }

  // ----- parsing -----

  predicate HasVersion(items: seq<Item>, v: Version)
  {
    exists i :: 0 <= i < |items| && items[i].range.version == v
  }

  /** The finder was made from the items and a table of the countries in them. */
  ghost predicate ParsedFrom(finder: CountryCodeFinder, items: seq<Item>, pairs: seq<Pair>)
  {
    && Parsable(items)
    && IsTableOf(finder.countries, pairs)
    && (forall p :: p in pairs <==> p in PairsFrom(items))
    && BuiltFrom(finder, MakeCountryBlocks(finder.countries, Coalesce(CodedStream(items))))
  }

  lemma NoPairs()
    ensures PairsFrom([]) == {}
  {
  }

  lemma PairsFromSnoc(items: seq<Item>, item: Item)
    ensures PairsFrom(items + [item]) == PairsFrom(items) + {PairFor(item)}
  {
    hide PairFor;
    var all := items + [item];
    assert all[|items|] == item;
    forall p | p in PairsFrom(items) ensures p in PairsFrom(all) {
      var k :| 0 <= k < |items| && PairFor(items[k]) == p;
      assert all[k] == items[k];
    }
  }

  /** Collects the coalesced ranges and the pairs of the table. */
  method ExtractData(items: seq<Item>) returns (ranges: seq<CodedRange>, pairs: set<Pair>)
    requires Parsable(items)
    ensures ranges == Coalesce(CodedStream(items))
    ensures pairs == PairsFrom(items) && ListsItems(pairs, items)
  {
    hide PairFor, PairsFrom, Coalesce, ListsItems;
    PairsInFields(items);
    AscendingIsComparable(CodedStream(items));
    ranges := CollectRanges(CodedStream(items));
    pairs := {};
    NoPairs();
    for i := 0 to |items|
      invariant pairs == PairsFrom(items[..i])
    {
      assert items[..i + 1] == items[..i] + [items[i]];
      PairsFromSnoc(items[..i], items[i]);
      pairs := pairs + {PairFor(items[i])};
    }
    assert items[..|items|] == items;
  }

  lemma TableSize(table: Countries, pairs: seq<Pair>)
    requires IsTableOf(table, pairs)
    ensures |table.countries| == |WithoutSentinel(pairs)| + 1
  {
    hide WithoutSentinel, SortByCode, IndexByIso3166, AtMost;
    var listed := PairsOf(table.countries[1..]);
    assert |listed| == |multiset(listed)| == |multiset(WithoutSentinel(pairs))| == |WithoutSentinel(pairs)|;
  }

  /**
  Parses a database and builds a finder. `order` is the order in which the set of
  pairs happens to be enumerated. The blocks are numbered with the table made from
  it; the finder has the table made from the list of countries that is written out.
   */
  method Parse(items: seq<Item>, order: seq<Pair>) returns (finder: CountryCodeFinder)
    requires Parsable(items) && HasVersion(items, V4) && HasVersion(items, V6)
    requires forall p :: p in order <==> p in PairsFrom(items)
    requires |WithoutSentinel(order)| < COUNTRY_LIMIT
    ensures ParsedFrom(finder, items, order)
  {
    hide Pow2, IndexByIso3166, AtMost, PairsFrom, PairsOf, Coalesce, Project, WithoutSentinel, SortByCode;
    hide CountryFor, CountryFromCode, CountriesKnown, BuiltFrom, Unmixed;
    var ranges, pairs := ExtractData(items);
    var table := New(order);
    TableSize(table, order);
    var blocks := MakeCountryBlocks(table, ranges);
    CoalesceAscending(CodedStream(items));
    BlocksFit(table, order, ranges);
    ProjectWellFormed(V4, blocks);
    ProjectWellFormed(V6, blocks);
    ghost var i4 :| 0 <= i4 < |items| && items[i4].range.version == V4;
    ghost var i6 :| 0 <= i6 < |items| && items[i6].range.version == V6;
    ProjectNotEmpty(items, table, i4);
    ProjectNotEmpty(items, table, i6);
    var count4, count6;
    var reloaded := New(PairsOf(table.countries));
    TableReloads(table, order, reloaded);
    finder, count4, count6 := Build(blocks, reloaded);
  }

  /** The answer for an address in a range with the given code. */
  function AnswerFor(table: Countries, code: string): (r: Option<Country>)
  {
    Reported(CountryFor(table, code))
  }

  /**
  The finder answers for each address with the country that the database gives for
  it, and with none if it gives none.
   */
  lemma ParsedAnswers(finder: CountryCodeFinder, items: seq<Item>, pairs: seq<Pair>, a: IpAddr)
    requires ParsedFrom(finder, items, pairs) && a.Valid()
    ensures finder.Valid() && finder.Search(a).Some?
    ensures forall i :: 0 <= i < |items| && items[i].range.Contains(a) ==>
              finder.FindCountry(a) == AnswerFor(finder.countries, CodeOf(items[i]))
    ensures (forall i :: 0 <= i < |items| ==> !items[i].range.Contains(a)) ==> finder.FindCountry(a) == None
  {
    hide Pow2, IsTableOf, PairsFrom, Coalesce, CountryFor, CountryFromCode, CountriesKnown, BuiltForVersion;
    hide WellFormedStream, BinarySearch, Parsable;
    var ranges := Coalesce(CodedStream(items));
    var blocks := MakeCountryBlocks(finder.countries, ranges);
    FinderAnswers(finder, blocks, a);
    forall i | 0 <= i < |items| && items[i].range.Contains(a)
      ensures finder.FindCountry(a) == AnswerFor(finder.countries, CodeOf(items[i]))
    {
      var k := CollectedHolds(items, i, a);
      assert blocks[k].ipRange.Contains(a);
      CountryForInTable(finder.countries, pairs, ranges[k].0);
    }
    if forall i :: 0 <= i < |items| ==> !items[i].range.Contains(a) {
      CollectedOnlyHolds(items, a);
      assert forall k :: 0 <= k < |blocks| ==> !blocks[k].ipRange.Contains(a);
    }
  }

  lemma KeptInTable(pairs: seq<Pair>, p: Pair)
    requires p in pairs && p.0 != ZZ
    ensures p in WithoutSentinel(pairs)
  {
  }

  /** The answer for a code is the last pair enumerated with that code in upper case, if there is one. */
  lemma AnswerIsLast(table: Countries, pairs: seq<Pair>, code: string)
    requires IsTableOf(table, pairs)
    ensures var upper := ToAsciiUppercase(code);
            var same := WithCode(pairs, upper);
            var answer := AnswerFor(table, code);
            if upper == ZZ || same == [] then answer == None
            else answer.Some? && PairOf(answer.value) == same[|same| - 1]
  {
    hide CountryFromCode, WithCode, WithoutSentinel, SortByCode, IndexByIso3166, AtMost, PairsOf;
    var upper := ToAsciiUppercase(code);
    var same := WithCode(pairs, upper);
    CodeLookup(table, pairs, code);
    if upper != ZZ && same != [] {
      WithCodeHolds(pairs, upper, same[0]);
      KeptInTable(pairs, same[0]);
      CodesListed(table, pairs, upper);
      var j :| 0 < j < |table.countries| && table.countries[j].iso3166 == upper;
      assert table.countries[j] in table.countries;
    }
    if upper != ZZ && CountryFromCode(table, code).Ok? {
      LookupGivesLast(table, pairs, code);
      WithCodeHolds(pairs, upper, same[|same| - 1]);
    }
  }

  /**
  The answer for an item has the item's code exactly if that code is in upper case;
  only the sentinel's code gives no country then.
   */
  lemma AnswerHasCode(finder: CountryCodeFinder, items: seq<Item>, pairs: seq<Pair>, i: nat)
    requires ParsedFrom(finder, items, pairs) && i < |items|
    ensures var code := CodeOf(items[i]);
            var answer := AnswerFor(finder.countries, code);
            if code == ZZ then answer == None
            else (answer.Some? && answer.value.iso3166 == code) <==> ToAsciiUppercase(code) == code
  {
    hide Coalesce, BuiltFrom, Parsable, IsTableOf, AnswerFor, WithCode;
    var code := CodeOf(items[i]);
    var same := WithCode(pairs, ToAsciiUppercase(code));
    AnswerIsLast(finder.countries, pairs, code);
    assert PairFor(items[i]) in PairsFrom(items);
    if code != ZZ {
      WithCodeHolds(pairs, code, PairFor(items[i]));
      if same != [] {
        WithCodeHolds(pairs, ToAsciiUppercase(code), same[|same| - 1]);
      }
    }
  }

  /**
  It has the item's name too exactly if no other pair with that code was enumerated
  later, so in any case if all the items with that code agree on the name.
   */
  lemma AnswerHasName(finder: CountryCodeFinder, items: seq<Item>, pairs: seq<Pair>, i: nat)
    requires ParsedFrom(finder, items, pairs) && i < |items|
    requires CodeOf(items[i]) != ZZ && ToAsciiUppercase(CodeOf(items[i])) == CodeOf(items[i])
    ensures var answer, same := AnswerFor(finder.countries, CodeOf(items[i])), WithCode(pairs, CodeOf(items[i]));
            && answer.Some? && same != []
            && (PairOf(answer.value) == PairFor(items[i]) <==> same[|same| - 1] == PairFor(items[i]))
            && ((forall j :: 0 <= j < |items| && CodeOf(items[j]) == CodeOf(items[i]) ==>
                   PairFor(items[j]) == PairFor(items[i])) ==>
                  PairOf(answer.value) == PairFor(items[i]))
  {
    hide Coalesce, BuiltFrom, Parsable, IsTableOf, AnswerFor, WithCode;
    var code := CodeOf(items[i]);
    var same := WithCode(pairs, code);
    AnswerIsLast(finder.countries, pairs, code);
    assert PairFor(items[i]) in PairsFrom(items);
    WithCodeHolds(pairs, code, PairFor(items[i]));
    WithCodeHolds(pairs, code, same[|same| - 1]);
    var j :| 0 <= j < |items| && PairFor(items[j]) == same[|same| - 1];
  }

  // ----- answers in the fields of the items -----

  /** The pairs with a code other than the sentinel's are those that items give for it. */
  lemma CodeListed(items: seq<Item>, pairs: seq<Pair>, code: string)
    requires forall p :: p in pairs <==> p in PairsFrom(items)
    requires code != ZZ
    ensures forall p :: p in WithCode(pairs, code) ==>
              p.0 == code && exists j :: 0 <= j < |items| && HasCode(items[j], code) && GivesName(items[j], p.1)
    ensures WithCode(pairs, code) != [] <==> exists j :: 0 <= j < |items| && HasCode(items[j], code)
  {
    hide WithCode, PairsFrom;
    var same := WithCode(pairs, code);
    PairsInFields(items);
    forall p ensures p in same <==> p in PairsFrom(items) && p.0 == code {
      WithCodeHolds(pairs, code, p);
    }
    if same != [] {
      assert same[0] in same;
    }
    if j :| 0 <= j < |items| && HasCode(items[j], code) {
      var name := items[j].country.value.name;
      var p := (code, if name.Some? then name.value else "Unknown");
      assert HasCode(items[j], p.0) && GivesName(items[j], p.1);
      assert p in PairsFrom(items);
      assert p in same;
    }
  }

  lemma SentinelIsUpper()
    ensures ToAsciiUppercase("ZZ") == "ZZ"
  {
  }

  /** An address in the range of an item without a code has no country. */
  lemma AnswerWithoutCode(finder: CountryCodeFinder, items: seq<Item>, pairs: seq<Pair>, a: IpAddr, i: nat)
    requires ParsedFrom(finder, items, pairs) && a.Valid() && i < |items| && Uncoded(items[i])
    requires items[i].range.version == a.version && items[i].range.start <= a.ip <= items[i].range.end
    ensures finder.Valid() && finder.Search(a).Some? && finder.FindCountry(a) == None
  {
    hide Coalesce, BuiltFrom, Parsable, IsTableOf, AnswerFor, WithCode, CountryCodeFinder.FindCountry;
    CodeInFields(items[i]);
    ParsedAnswers(finder, items, pairs, a);
    AnswerIsLast(finder.countries, pairs, ZZ);
    SentinelIsUpper();
  }

  /**
  An address in the range of an item with a code has the country with that code in
  upper case, under a name that some item gives that country. It has none if no item
  has the code in upper case, or if that is the sentinel's.
   */
  lemma AnswerForCode(
    finder: CountryCodeFinder, items: seq<Item>, pairs: seq<Pair>, a: IpAddr, i: nat, code: string)
    requires ParsedFrom(finder, items, pairs) && a.Valid() && i < |items| && HasCode(items[i], code)
    requires items[i].range.version == a.version && items[i].range.start <= a.ip <= items[i].range.end
    ensures finder.Valid() && finder.Search(a).Some?
    ensures var upper, answer := ToAsciiUppercase(code), finder.FindCountry(a);
            if upper == "ZZ" || !exists j :: 0 <= j < |items| && HasCode(items[j], upper) then answer == None
            else
              && answer.Some? && answer.value.iso3166 == upper
              && exists j :: 0 <= j < |items| && HasCode(items[j], upper) && GivesName(items[j], answer.value.name)
  {
    hide Coalesce, BuiltFrom, Parsable, IsTableOf, AnswerFor, WithCode, PairsFrom, CountryCodeFinder.FindCountry;
    var upper := ToAsciiUppercase(code);
    var same := WithCode(pairs, upper);
    CodeInFields(items[i]);
    ParsedAnswers(finder, items, pairs, a);
    AnswerIsLast(finder.countries, pairs, code);
    if upper != ZZ {
      CodeListed(items, pairs, upper);
      if same != [] {
        assert same[|same| - 1] in same;
      }
    }
  }

  /** If all items with an upper-case code agree on the name, or agree on giving none, the answer is that country. */
  lemma AnswerForAgreedName(
    finder: CountryCodeFinder, items: seq<Item>, pairs: seq<Pair>, a: IpAddr, i: nat, code: string,
    name: Option<string>)
    requires ParsedFrom(finder, items, pairs) && a.Valid() && i < |items| && HasCode(items[i], code)
    requires items[i].range.version == a.version && items[i].range.start <= a.ip <= items[i].range.end
    requires code != "ZZ" && ToAsciiUppercase(code) == code
    requires forall j :: 0 <= j < |items| && HasCode(items[j], code) ==> items[j].country.value.name == name
    ensures finder.Valid() && finder.Search(a).Some? && finder.FindCountry(a).Some?
    ensures finder.FindCountry(a).value.iso3166 == code
    ensures finder.FindCountry(a).value.name == if name == None then "Unknown" else name.value
  {
    hide ParsedFrom, CountryCodeFinder.FindCountry, CountryCodeFinder.Search;
    AnswerForCode(finder, items, pairs, a, i, code);
  }
}

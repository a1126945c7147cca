/** The table of countries, with lookup by number and by code. */
module CountryTables {
  import opened Options
  import opened Stream

  datatype Countries = Countries(countries: seq<Country>, indexByIso3166: map<string, nat>)

  type Pair = (string, string)

  const ZZ: string := "ZZ"
  const SENTINEL_COUNTRY: Country := Country(0, ZZ, "Sentinel")

  // ----- ordering by code -----

  /** Dictionary order on codes. */
  predicate AtMost(a: string, b: string)
  {
    a == [] || (b != [] && (a[0] < b[0] || (a[0] == b[0] && AtMost(a[1..], b[1..]))))
  }

  lemma {:induction false} AtMostTotal(a: string, b: string)
    ensures AtMost(a, b) || AtMost(b, a)
    decreases |a|
  {
    if a != [] && b != [] {
      AtMostTotal(a[1..], b[1..]);
    }
  }

  /** The first character in which two codes differ, where they are the same up to it. */
  predicate LessAt(a: string, b: string, k: nat)
  {
    k < |a| && k < |b| && a[..k] == b[..k] && a[k] < b[k]
  }

  lemma LessAtTail(a: string, b: string, k: nat)
    requires a != "" && b != "" && a[0] == b[0]
    ensures LessAt(a, b, k + 1) <==> LessAt(a[1..], b[1..], k)
  {
    if k + 1 < |a| && k + 1 < |b| {
      assert a[..k + 1] == [a[0]] + a[1..][..k] && b[..k + 1] == [b[0]] + b[1..][..k];
      assert a[1..][..k] == a[..k + 1][1..] && b[1..][..k] == b[..k + 1][1..];
    }
  }

  lemma NotLessAtFirst(a: string, b: string)
    requires a != "" && b != "" && a[0] == b[0]
    ensures !LessAt(a, b, 0)
  {
  }

  lemma LessAtShares(a: string, b: string, k: nat)
    requires LessAt(a, b, k)
    ensures k > 0 ==> a[0] == b[0]
  {
    if k > 0 {
      assert a[0] == a[..k][0];
    }
  }

  /** A code comes before another if it is a prefix of it, or has the lesser character where they first differ. */
  lemma {:induction false} AtMostIsDictionaryOrder(a: string, b: string)
    ensures AtMost(a, b) <==> a <= b || exists k: nat :: LessAt(a, b, k)
    decreases |a|
  {
    if a != "" && b != "" {
      if a[0] == b[0] {
        hide LessAt;
        AtMostIsDictionaryOrder(a[1..], b[1..]);
        assert a == [a[0]] + a[1..] && b == [b[0]] + b[1..];
        assert a <= b <==> a[1..] <= b[1..];
        if k: nat :| LessAt(a[1..], b[1..], k) {
          LessAtTail(a, b, k);
        }
        if k: nat :| LessAt(a, b, k) {
          NotLessAtFirst(a, b);
          LessAtTail(a, b, k - 1);
        }
      } else {
        if k: nat :| LessAt(a, b, k) {
          LessAtShares(a, b, k);
        }
        assert a[0] < b[0] ==> LessAt(a, b, 0);
      }
    }
  }

  lemma {:induction false} AtMostAntisymmetric(a: string, b: string)
    requires AtMost(a, b) && AtMost(b, a)
    ensures a == b
    decreases |a|
  {
    if a != "" && b != "" {
      AtMostAntisymmetric(a[1..], b[1..]);
      assert a == [a[0]] + a[1..] && b == [b[0]] + b[1..];
    }
  }

  lemma {:induction false} AtMostTransitive(a: string, b: string, c: string)
    requires AtMost(a, b) && AtMost(b, c)
    ensures AtMost(a, c)
    decreases |a|
  {
    if a != [] && a[0] == b[0] == c[0] {
      AtMostTransitive(a[1..], b[1..], c[1..]);
    }
  }

  predicate SortedByCode(pairs: seq<Pair>)
  {
    forall i, j :: 0 <= i < j < |pairs| ==> AtMost(pairs[i].0, pairs[j].0)
  }

  function Insert(pair: Pair, sorted: seq<Pair>): (r: seq<Pair>)
  {
    if sorted == [] || AtMost(pair.0, sorted[0].0) then [pair] + sorted
    else [sorted[0]] + Insert(pair, sorted[1..])
  }

  /** A stable sort by code. */
  function SortByCode(pairs: seq<Pair>): (r: seq<Pair>)
  {
    if pairs == [] then [] else Insert(pairs[0], SortByCode(pairs[1..]))
  }

  /** No code in the list comes before the given one. */
  predicate Floor(code: string, pairs: seq<Pair>)
  {
    forall i :: 0 <= i < |pairs| ==> AtMost(code, pairs[i].0)
  }

  lemma SortedCons(head: Pair, tail: seq<Pair>)
    requires SortedByCode(tail) && Floor(head.0, tail)
    ensures SortedByCode([head] + tail)
  {
  }

  lemma {:induction false} InsertKeepsFloor(code: string, pair: Pair, sorted: seq<Pair>)
    requires Floor(code, sorted) && AtMost(code, pair.0)
    ensures Floor(code, Insert(pair, sorted))
    decreases |sorted|
  {
    if sorted != [] && !AtMost(pair.0, sorted[0].0) {
      InsertKeepsFloor(code, pair, sorted[1..]);
    }
  }

  lemma {:induction false} InsertPermutes(pair: Pair, sorted: seq<Pair>)
    ensures multiset(Insert(pair, sorted)) == multiset(sorted) + multiset{pair}
    decreases |sorted|
  {
    if sorted != [] {
      assert sorted == [sorted[0]] + sorted[1..];
      InsertPermutes(pair, sorted[1..]);
    }
  }

  lemma {:induction false} InsertSorts(pair: Pair, sorted: seq<Pair>)
    requires SortedByCode(sorted)
    ensures SortedByCode(Insert(pair, sorted))
    decreases |sorted|
  {
    hide AtMost;
    if sorted != [] {
      var head, tail := sorted[0], sorted[1..];
      assert Floor(head.0, tail);
      if AtMost(pair.0, head.0) {
        forall i | 0 <= i < |sorted| ensures AtMost(pair.0, sorted[i].0) {
          if i > 0 {
            AtMostTransitive(pair.0, head.0, sorted[i].0);
          }
        }
        SortedCons(pair, sorted);
      } else {
        AtMostTotal(pair.0, head.0);
        InsertSorts(pair, tail);
        InsertKeepsFloor(head.0, pair, tail);
        SortedCons(head, Insert(pair, tail));
      }
    }
  }

  /** The pairs with the given code, in order. */
  function WithCode(pairs: seq<Pair>, code: string): (r: seq<Pair>)
  {
    if pairs == [] then []
    else (if pairs[0].0 == code then [pairs[0]] else []) + WithCode(pairs[1..], code)
  }

  lemma {:induction false} WithCodeHolds(pairs: seq<Pair>, code: string, p: Pair)
    ensures p in WithCode(pairs, code) <==> p in pairs && p.0 == code
  {
    if pairs != [] {
      WithCodeHolds(pairs[1..], code, p);
      assert p in pairs <==> p == pairs[0] || p in pairs[1..];
    }
  }

  lemma {:induction false} InsertIsStable(pair: Pair, sorted: seq<Pair>, code: string)
    ensures WithCode(Insert(pair, sorted), code) == WithCode([pair] + sorted, code)
    decreases |sorted|
  {
    hide AtMost;
    if sorted != [] && !AtMost(pair.0, sorted[0].0) {
      AtMostTotal(pair.0, pair.0);
      InsertIsStable(pair, sorted[1..], code);
      assert ([pair] + sorted)[1..] == sorted;
      assert ([pair] + sorted[1..])[1..] == sorted[1..];
    }
  }

  /** The result is sorted, a permutation, and pairs with the same code keep their order. */
  lemma {:induction false} SortByCodeSorts(pairs: seq<Pair>)
    ensures SortedByCode(SortByCode(pairs))
    ensures multiset(SortByCode(pairs)) == multiset(pairs)
    ensures forall code :: WithCode(SortByCode(pairs), code) == WithCode(pairs, code)
  {
    hide AtMost, Insert;
    if pairs != [] {
      SortByCodeSorts(pairs[1..]);
      InsertSorts(pairs[0], SortByCode(pairs[1..]));
      InsertPermutes(pairs[0], SortByCode(pairs[1..]));
      assert pairs == [pairs[0]] + pairs[1..];
      forall code ensures WithCode(SortByCode(pairs), code) == WithCode(pairs, code) {
        var rest := SortByCode(pairs[1..]);
        InsertIsStable(pairs[0], rest, code);
        assert ([pairs[0]] + rest)[1..] == rest;
      }
    }
  }

  /** Sorting what is sorted changes nothing. */
  lemma {:induction false} SortedStays(pairs: seq<Pair>)
    requires SortedByCode(pairs)
    ensures SortByCode(pairs) == pairs
  {
    hide AtMost;
    if pairs != [] {
      SortedStays(pairs[1..]);
      assert |pairs| > 1 ==> AtMost(pairs[0].0, pairs[1].0);
    }
  }

  // ----- building a table -----

  /** Codes to numbers; a later country overrides an earlier one with the same code. */
  function IndexByIso3166(countries: seq<Country>): (m: map<string, nat>)
  {
    if countries == [] then map[]
    else
      var last := countries[|countries| - 1];
      IndexByIso3166(countries[..|countries| - 1])[last.iso3166 := last.index]
  }

  method OldNew(countries: seq<Country>) returns (c: Countries)
    ensures c == Countries(countries, IndexByIso3166(countries))
  {
    var index: map<string, nat> := map[];
    for i := 0 to |countries|
      invariant index == IndexByIso3166(countries[..i])
    {
      assert countries[..i + 1][..i] == countries[..i];
      index := index[countries[i].iso3166 := countries[i].index];
    }
    assert countries[..|countries|] == countries;
    c := Countries(countries, index);
  }

  /** The pairs without the first one that is coded "ZZ". */
  function WithoutSentinel(pairs: seq<Pair>): (r: seq<Pair>)
  {
    if pairs == [] then []
    else if pairs[0].0 == ZZ then pairs[1..]
    else [pairs[0]] + WithoutSentinel(pairs[1..])
  }

  function SentinelCount(pairs: seq<Pair>): (n: nat)
  {
    if pairs == [] then 0 else (if pairs[0].0 == ZZ then 1 else 0) + SentinelCount(pairs[1..])
  }

  function PairOf(country: Country): (p: Pair)
  {
    (country.iso3166, country.name)
  }

  function PairsOf(countries: seq<Country>): (pairs: seq<Pair>)
    ensures |pairs| == |countries|
    ensures forall i :: 0 <= i < |pairs| ==> pairs[i] == PairOf(countries[i])
  {
    if countries == [] then [] else [PairOf(countries[0])] + PairsOf(countries[1..])
  }

  /** What a table made from the given pairs looks like. */
  ghost predicate IsTableOf(c: Countries, pairs: seq<Pair>)
  {
    && c.countries != []
    && c.countries[0] == SENTINEL_COUNTRY
    && (forall i :: 0 <= i < |c.countries| ==> c.countries[i].index == i)
    && (forall i, j :: 1 <= i < j < |c.countries| ==> AtMost(c.countries[i].iso3166, c.countries[j].iso3166))
    && PairsOf(c.countries[1..]) == SortByCode(WithoutSentinel(pairs))
    && multiset(PairsOf(c.countries[1..])) == multiset(WithoutSentinel(pairs))
    && c.indexByIso3166 == IndexByIso3166(c.countries)
  }

  /** Numbers the countries from 1 up. */
  method Number(pairs: seq<Pair>) returns (countries: seq<Country>)
    ensures |countries| == |pairs|
    ensures forall k :: 0 <= k < |pairs| ==> countries[k] == Country(k + 1, pairs[k].0, pairs[k].1)
  {
    countries := [];
    for i := 0 to |pairs|
      invariant |countries| == i
      invariant forall k :: 0 <= k < i ==> countries[k] == Country(k + 1, pairs[k].0, pairs[k].1)
    {
      countries := countries + [Country(i + 1, pairs[i].0, pairs[i].1)];
    }
  }

  method FindSentinel(pairs: seq<Pair>) returns (index: nat)
    ensures index <= |pairs|
    ensures forall i :: 0 <= i < index ==> pairs[i].0 != ZZ
    ensures index < |pairs| ==> pairs[index].0 == ZZ
    ensures (if index < |pairs| then pairs[..index] + pairs[index + 1..] else pairs) == WithoutSentinel(pairs)
  {
    index := 0;
    assert pairs[0..] == pairs;
    while index < |pairs| && pairs[index].0 != ZZ
      invariant index <= |pairs|
      invariant forall i :: 0 <= i < index ==> pairs[i].0 != ZZ
      invariant WithoutSentinel(pairs) == pairs[..index] + WithoutSentinel(pairs[index..])
    {
      assert pairs[index..][1..] == pairs[index + 1..];
      assert pairs[..index + 1] == pairs[..index] + [pairs[index]];
      index := index + 1;
    }
    assert index < |pairs| ==> WithoutSentinel(pairs[index..]) == pairs[index + 1..];
    assert index == |pairs| ==> pairs[..index] + [] == pairs;
  }

  /** Finds the sentinel, takes it out, sorts the rest, numbers it, and puts a sentinel in front. */
  method New(pairs: seq<Pair>) returns (c: Countries)
    ensures IsTableOf(c, pairs)
  {
    hide AtMost, Insert, SortByCode, IndexByIso3166, WithoutSentinel, PairsOf;
    var rest := pairs;
    var index := FindSentinel(pairs);
    if index < |pairs| {
      rest := rest[..index] + rest[index + 1..];
    }
    SortByCodeSorts(rest);
    rest := SortByCode(rest);
    var countries := Number(rest);
    assert ([SENTINEL_COUNTRY] + countries)[1..] == countries;
    assert PairsOf(countries) == rest;
    c := OldNew([SENTINEL_COUNTRY] + countries);
  }

  /** Of two countries behind the sentinel, the one with the lesser code in dictionary order has the lesser number. */
  lemma TableIsAlphabetical(c: Countries, pairs: seq<Pair>, i: nat, j: nat)
    requires IsTableOf(c, pairs) && 0 < i < |c.countries| && 0 < j < |c.countries|
    requires var a, b := c.countries[i].iso3166, c.countries[j].iso3166;
             a != b && (a <= b || exists k: nat :: LessAt(a, b, k))
    ensures i < j && c.countries[i].index < c.countries[j].index
  {
    hide AtMost, SortByCode, IndexByIso3166, WithoutSentinel;
    AtMostIsDictionaryOrder(c.countries[i].iso3166, c.countries[j].iso3166);
    if j < i {
      AtMostAntisymmetric(c.countries[i].iso3166, c.countries[j].iso3166);
    }
  }

  /** A table that is written out pair by pair and built again from the pairs is the same table. */
  lemma TableReloads(c: Countries, pairs: seq<Pair>, reloaded: Countries)
    requires IsTableOf(c, pairs)
    requires IsTableOf(reloaded, PairsOf(c.countries))
    ensures reloaded == c
  {
    hide AtMost, SortByCode, IndexByIso3166;
    var listed := PairsOf(c.countries[1..]);
    assert PairsOf(c.countries) == [PairOf(c.countries[0])] + listed;
    assert WithoutSentinel(PairsOf(c.countries)) == listed;
    SortedStays(listed);
    assert PairsOf(reloaded.countries[1..]) == listed;
    assert |reloaded.countries| == |c.countries|;
    forall i | 0 < i < |c.countries| ensures reloaded.countries[i] == c.countries[i] {
      assert PairsOf(reloaded.countries[1..])[i - 1] == PairOf(reloaded.countries[i]);
      assert listed[i - 1] == PairOf(c.countries[i]);
    }
    assert reloaded.countries == c.countries;
  }

  // ----- lookup -----

  /** `Panic` stands for the lookup's complaint that its two halves disagree. */
  datatype Lookup = Ok(country: Country) | Err | Panic

  function UpperChar(c: char): (u: char)
  {
    if 'a' <= c <= 'z' then (c as int - 32) as char else c
  }

  function ToAsciiUppercase(s: string): (u: string)
  {
    seq(|s|, i requires 0 <= i < |s| => UpperChar(s[i]))
  }

  const LOWER: string := "abcdefghijklmnopqrstuvwxyz"
  const UPPER: string := "ABCDEFGHIJKLMNOPQRSTUVWXYZ"

  lemma UpperCharInAlphabet(c: char)
    ensures forall k :: 0 <= k < 26 ==> LOWER[k] == 'a' + k as char && UPPER[k] == 'A' + k as char
    ensures 'a' <= c <= 'z' ==> c == LOWER[c as int - 97] && UpperChar(c) == UPPER[c as int - 97]
    ensures c !in LOWER ==> UpperChar(c) == c
  {
  }

  /** Upper-casing replaces each letter of the lower-case alphabet by its partner and leaves all else alone. */
  lemma UppercaseInAlphabet(s: string, i: nat)
    requires i < |s|
    ensures |ToAsciiUppercase(s)| == |s|
    ensures forall k :: 0 <= k < 26 && s[i] == LOWER[k] ==> ToAsciiUppercase(s)[i] == UPPER[k]
    ensures s[i] !in LOWER ==> ToAsciiUppercase(s)[i] == s[i]
  {
    UpperCharInAlphabet(s[i]);
  }

  function CountryFromIndex(c: Countries, index: nat): (r: Option<Country>)
  {
    if index < |c.countries| then Some(c.countries[index]) else None
  }

  function CountryFromCode(c: Countries, iso3166: string): (r: Lookup)
  {
    var code := ToAsciiUppercase(iso3166);
    if code !in c.indexByIso3166 then Err
    else match CountryFromIndex(c, c.indexByIso3166[code])
      case Some(country) => Ok(country)
      case None => Panic
  }

  /** The index holds exactly the codes of the table, each with the number of its last country. */
  lemma {:induction false} IndexHolds(countries: seq<Country>, code: string)
    ensures code in IndexByIso3166(countries) <==> exists i :: 0 <= i < |countries| && countries[i].iso3166 == code
    ensures code in IndexByIso3166(countries) ==>
              exists i :: && 0 <= i < |countries| && countries[i].iso3166 == code
                          && IndexByIso3166(countries)[code] == countries[i].index
                          && forall j :: i < j < |countries| ==> countries[j].iso3166 != code
    decreases |countries|
  {
    if countries != [] {
      var n := |countries| - 1;
      var init := countries[..n];
      IndexHolds(init, code);
      if countries[n].iso3166 != code && code in IndexByIso3166(countries) {
        var i :| && 0 <= i < |init| && init[i].iso3166 == code
                 && IndexByIso3166(init)[code] == init[i].index
                 && forall j :: i < j < |init| ==> init[j].iso3166 != code;
        assert countries[i].iso3166 == code;
      }
      if i :| 0 <= i < |countries| && countries[i].iso3166 == code {
        assert i == n || init[i].iso3166 == code;
      }
    }
  }

  /** Lookup by code finds the last country with the upper-cased code, fails if there is none, and never panics. */
  lemma CodeLookup(c: Countries, pairs: seq<Pair>, query: string)
    requires IsTableOf(c, pairs)
    ensures !CountryFromCode(c, query).Panic?
    ensures CountryFromCode(c, query).Err? <==> forall k :: k in c.countries ==> k.iso3166 != ToAsciiUppercase(query)
    ensures CountryFromCode(c, query).Ok? ==>
              var k := CountryFromCode(c, query).country;
              && k.index < |c.countries| && c.countries[k.index] == k
              && k.iso3166 == ToAsciiUppercase(query)
              && forall j :: k.index < j < |c.countries| ==> c.countries[j].iso3166 != k.iso3166
  {
    IndexHolds(c.countries, ToAsciiUppercase(query));
  }

  /** A country is found by its own code exactly if that is upper-case and no later country has it too. */
  lemma FoundByOwnCode(c: Countries, pairs: seq<Pair>, i: nat)
    requires IsTableOf(c, pairs) && i < |c.countries|
    ensures CountryFromCode(c, c.countries[i].iso3166) == Ok(c.countries[i]) <==>
              && ToAsciiUppercase(c.countries[i].iso3166) == c.countries[i].iso3166
              && forall j :: i < j < |c.countries| ==> c.countries[j].iso3166 != c.countries[i].iso3166
  {
    CodeLookup(c, pairs, c.countries[i].iso3166);
  }

  /** No pair but a sentinel is lost or duplicated. */
  lemma {:induction false} OthersKept(pairs: seq<Pair>, p: Pair)
    requires p.0 != ZZ
    ensures multiset(WithoutSentinel(pairs))[p] == multiset(pairs)[p]
  {
    if pairs != [] {
      assert pairs == [pairs[0]] + pairs[1..];
      OthersKept(pairs[1..], p);
    }
  }

  lemma {:induction false} SentinelsCounted(pairs: seq<Pair>)
    ensures (exists p :: p in pairs && p.0 == ZZ) <==> SentinelCount(pairs) > 0
  {
    if pairs != [] {
      SentinelsCounted(pairs[1..]);
      assert forall p :: p in pairs <==> p == pairs[0] || p in pairs[1..];
    }
  }

  lemma {:induction false} SentinelsLeft(pairs: seq<Pair>)
    ensures (exists p :: p in WithoutSentinel(pairs) && p.0 == ZZ) <==> SentinelCount(pairs) > 1
  {
    if pairs != [] {
      SentinelsLeft(pairs[1..]);
      if pairs[0].0 == ZZ {
        SentinelsCounted(pairs[1..]);
      } else {
        var rest := WithoutSentinel(pairs[1..]);
        assert forall p :: p in WithoutSentinel(pairs) <==> p == pairs[0] || p in rest;
      }
    }
  }

  /** The codes behind the sentinel are those of the pairs it was taken out of. */
  lemma CodesListed(c: Countries, pairs: seq<Pair>, code: string)
    requires IsTableOf(c, pairs)
    ensures (exists j :: 0 < j < |c.countries| && c.countries[j].iso3166 == code)
       <==> (exists p :: p in WithoutSentinel(pairs) && p.0 == code)
  {
    hide WithoutSentinel, IndexByIso3166, AtMost, PairsOf;
    var listed, kept := PairsOf(c.countries[1..]), WithoutSentinel(pairs);
    if p :| p in kept && p.0 == code {
      assert p in multiset(kept);
      assert p in listed;
      var i :| 0 <= i < |listed| && listed[i] == p;
      assert c.countries[i + 1].iso3166 == code;
    }
    if j :| 0 < j < |c.countries| && c.countries[j].iso3166 == code {
      assert listed[j - 1] == PairOf(c.countries[j]);
      assert listed[j - 1] in multiset(listed);
      assert listed[j - 1] in kept;
    }
  }

  /** "ZZ" is looked up as the sentinel exactly if the pairs had no more than one sentinel. */
  lemma SentinelLookup(c: Countries, pairs: seq<Pair>)
    requires IsTableOf(c, pairs)
    ensures CountryFromCode(c, ZZ) == Ok(SENTINEL_COUNTRY) <==> SentinelCount(pairs) <= 1
  {
    hide CountryFromCode, WithoutSentinel, SentinelCount, IndexByIso3166, AtMost, PairsOf;
    assert ToAsciiUppercase(ZZ) == ZZ;
    FoundByOwnCode(c, pairs, 0);
    SentinelsLeft(pairs);
    CodesListed(c, pairs, ZZ);
  }

  lemma {:induction false} WithCodeOfOthers(pairs: seq<Pair>, code: string)
    requires code != ZZ
    ensures WithCode(WithoutSentinel(pairs), code) == WithCode(pairs, code)
  {
    if pairs != [] && pairs[0].0 != ZZ {
      WithCodeOfOthers(pairs[1..], code);
      assert WithoutSentinel(pairs)[1..] == WithoutSentinel(pairs[1..]);
    }
  }

  lemma {:induction false} NoneWithCode(pairs: seq<Pair>, code: string)
    requires forall j :: 0 <= j < |pairs| ==> pairs[j].0 != code
    ensures WithCode(pairs, code) == []
  {
    if pairs != [] {
      NoneWithCode(pairs[1..], code);
    }
  }

  /** The last pair with a code is the last of the pairs with that code. */
  lemma {:induction false} LastWithCode(pairs: seq<Pair>, i: nat)
    requires i < |pairs|
    requires forall j :: i < j < |pairs| ==> pairs[j].0 != pairs[i].0
    ensures var same := WithCode(pairs, pairs[i].0); same != [] && same[|same| - 1] == pairs[i]
  {
    var code := pairs[i].0;
    if i > 0 {
      LastWithCode(pairs[1..], i - 1);
    } else {
      NoneWithCode(pairs[1..], code);
    }
  }

  /** Of several pairs with the same code, lookup gives the one that came last when the table was made. */
  lemma LookupGivesLast(c: Countries, pairs: seq<Pair>, query: string)
    requires IsTableOf(c, pairs)
    requires CountryFromCode(c, query).Ok? && ToAsciiUppercase(query) != ZZ
    ensures var same := WithCode(pairs, ToAsciiUppercase(query));
            same != [] && PairOf(CountryFromCode(c, query).country) == same[|same| - 1]
  {
    hide CountryFromCode, WithoutSentinel, IndexByIso3166, AtMost, SortByCode, WithCode;
    CodeLookup(c, pairs, query);
    var code, k := ToAsciiUppercase(query), CountryFromCode(c, query).country;
    var listed := PairsOf(c.countries[1..]);
    assert forall j :: 0 < j < |c.countries| ==> listed[j - 1] == PairOf(c.countries[j]);
    LastWithCode(listed, k.index - 1);
    SortByCodeSorts(WithoutSentinel(pairs));
    WithCodeOfOthers(pairs, code);
  }
}

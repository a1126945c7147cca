/**
The compressed format of country blocks, on values: what the bits of a record are,
how a reader takes a record apart again, and which blocks a stream of records
stands for. The classes of `Serializer` and `Deserializer` are proved against these
definitions.
 */
module BlockFormat {
  import opened Options
  import opened Bits
  import opened Addresses

  const COUNTRY_BITS: nat := 9
  const COUNTRY_LIMIT: nat := 512

  /** Country numbers below the limit are those that fit their field. */
  lemma CountryLimitIsPow2()
    ensures COUNTRY_LIMIT == Pow2(COUNTRY_BITS)
  {
  }

  datatype Difference = Difference(index: nat, value: nat)

  datatype Record = Record(start: nat, country: nat)

  datatype Block = Block(start: nat, end: nat, country: nat)

  // ----- differences between addresses -----

  predicate ValidDifference(v: Version, d: Difference)
  {
    d.index < v.Segments() && d.value < Pow2(v.SegmentBits())
  }

  predicate ValidDifferences(v: Version, ds: seq<Difference>)
  {
    forall i :: 0 <= i < |ds| ==> ValidDifference(v, ds[i])
  }

  function DifferencesFrom(from: seq<nat>, to: seq<nat>, i: nat): (ds: seq<Difference>)
    requires |from| == |to| && i <= |from|
    decreases |from| - i
  {
    if i == |from| then []
    else if to[i] == from[i] then DifferencesFrom(from, to, i + 1)
    else [Difference(i, to[i])] + DifferencesFrom(from, to, i + 1)
  }

  /** The segments in which `to` differs from `from`, with their new values. */
  function IpsIntoDifferences(v: Version, from: nat, to: nat): (ds: seq<Difference>)
  {
    DifferencesFrom(SegmentsOf(v, from), SegmentsOf(v, to), 0)
  }

  /** Overwrites segments one difference after the other; the last one wins. */
  function ApplyDifferences(segments: seq<nat>, ds: seq<Difference>): (r: seq<nat>)
    requires forall i :: 0 <= i < |ds| ==> ds[i].index < |segments|
    ensures |r| == |segments|
    decreases |ds|
  {
    if ds == [] then segments
    else ApplyDifferences(segments[ds[0].index := ds[0].value], ds[1..])
  }

  lemma {:induction false} DifferencesAreValid(v: Version, from: seq<nat>, to: seq<nat>, i: nat)
    requires |from| == |to| == v.Segments() && i <= |from|
    requires ValidSegments(v, to)
    ensures ValidDifferences(v, DifferencesFrom(from, to, i))
    ensures |DifferencesFrom(from, to, i)| <= v.Segments() - i
    ensures |DifferencesFrom(from, to, i)| > 0 <==> from[i..] != to[i..]
    decreases |from| - i
  {
    hide Pow2;
    if i < |from| {
      DifferencesAreValid(v, from, to, i + 1);
      assert from[i..] == [from[i]] + from[i + 1..] && to[i..] == [to[i]] + to[i + 1..];
    }
  }

  lemma {:induction false} ApplyUndoesDifferences(v: Version, segments: seq<nat>, from: seq<nat>, to: seq<nat>, i: nat)
    requires |from| == |to| == |segments| == v.Segments() && i <= |from|
    requires ValidSegments(v, to)
    requires segments[..i] == to[..i] && segments[i..] == from[i..]
    ensures ValidDifferences(v, DifferencesFrom(from, to, i))
    ensures ApplyDifferences(segments, DifferencesFrom(from, to, i)) == to
    decreases |from| - i
  {
    hide Pow2;
    DifferencesAreValid(v, from, to, i);
    if i < |from| {
      var next := segments[i := to[i]];
      assert segments[i] == segments[i..][0] == from[i];
      assert next[..i + 1] == segments[..i] + [to[i]] == to[..i + 1];
      assert next[i + 1..] == segments[i..][1..] == from[i + 1..];
      ApplyUndoesDifferences(v, next, from, to, i + 1);
      if to[i] == from[i] {
        assert next == segments;
      } else {
        assert DifferencesFrom(from, to, i)[1..] == DifferencesFrom(from, to, i + 1);
      }
    }
  }

  lemma {:induction false} ApplyKeepsSegmentsValid(v: Version, segments: seq<nat>, ds: seq<Difference>)
    requires ValidSegments(v, segments)
    requires ValidDifferences(v, ds)
    ensures ValidSegments(v, ApplyDifferences(segments, ds))
    decreases |ds|
  {
    hide Pow2;
    if ds != [] {
      ApplyKeepsSegmentsValid(v, segments[ds[0].index := ds[0].value], ds[1..]);
    }
  }

  /** Differences exist, fit their fields, and lead from the one address to the other. */
  lemma DifferencesLeadToTarget(v: Version, from: nat, to: nat)
    requires from < v.Space() && to < v.Space()
    ensures ValidDifferences(v, IpsIntoDifferences(v, from, to))
    ensures |IpsIntoDifferences(v, from, to)| <= v.Segments()
    ensures |IpsIntoDifferences(v, from, to)| > 0 <==> from != to
    ensures IpFromSegments(v, ApplyDifferences(SegmentsOf(v, from), IpsIntoDifferences(v, from, to))) == to
  {
    hide Pow2, Digits, FromDigits;
    var f, t := SegmentsOf(v, from), SegmentsOf(v, to);
    DifferencesAreValid(v, f, t, 0);
    ApplyUndoesDifferences(v, f, f, t, 0);
    SegmentsBijection(v, from, f);
    SegmentsBijection(v, to, t);
    assert f[0..] == f && t[0..] == t;
  }

  lemma HasDifferences(v: Version, from: nat, to: nat)
    requires from < v.Space() && to < v.Space() && from != to
    ensures |IpsIntoDifferences(v, from, to)| > 0
  {
    DifferencesLeadToTarget(v, from, to);
  }

  // ----- bits of a record -----

  function DifferencesBits(v: Version, ds: seq<Difference>): (bits: seq<bool>)
  {
    if ds == [] then []
    else ToBits(ds[0].index, v.IndexBits()) + ToBits(ds[0].value, v.SegmentBits()) + DifferencesBits(v, ds[1..])
  }

  /** Number of differences less one, the differences, the country. */
  function RecordBits(v: Version, prev: nat, record: Record): (bits: seq<bool>)
    requires |IpsIntoDifferences(v, prev, record.start)| > 0
  {
    var ds := IpsIntoDifferences(v, prev, record.start);
    ToBits(|ds| - 1, v.IndexBits()) + DifferencesBits(v, ds) + ToBits(record.country, COUNTRY_BITS)
  }

  // ----- reading a record -----

  datatype Reading<+T> = Reading(value: T, rest: seq<bool>)

  function TakeFrom(bits: seq<bool>, n: nat): (r: Reading<Option<nat>>)
  {
    if n > |bits| then Reading(None, bits) else Reading(Some(FromBits(bits[..n])), bits[n..])
  }

  lemma IndexFits(v: Version, bits: seq<bool>)
    requires |bits| >= v.IndexBits()
    ensures FromBits(bits[..v.IndexBits()]) < v.Segments()
  {
  }

  /** Tries `count` times to read a difference; attempts that run out of bits are skipped over. */
  function ReadDifferences(v: Version, bits: seq<bool>, count: nat): (r: Reading<seq<Difference>>)
    ensures |r.rest| <= |bits|
    ensures ValidDifferences(v, r.value)
    decreases count
  {
    if count == 0 then Reading([], bits)
    else
      var index := TakeFrom(bits, v.IndexBits());
      if index.value.None? then ReadDifferences(v, index.rest, count - 1)
      else
        var value := TakeFrom(index.rest, v.SegmentBits());
        if value.value.None? then ReadDifferences(v, value.rest, count - 1)
        else
          var more := ReadDifferences(v, value.rest, count - 1);
          IndexFits(v, bits);
          Reading([Difference(index.value.value, value.value.value)] + more.value, more.rest)
  }

  function ReadRecord(v: Version, bits: seq<bool>, prev: nat): (r: Reading<Option<Record>>)
  {
    var count := TakeFrom(bits, v.IndexBits());
    if count.value.None? then Reading(None, count.rest)
    else
      var ds := ReadDifferences(v, count.rest, count.value.value + 1);
      if |ds.value| < count.value.value + 1 then Reading(None, ds.rest)
      else
        var country := TakeFrom(ds.rest, COUNTRY_BITS);
        if country.value.None? then Reading(None, country.rest)
        else
          var segments := ApplyDifferences(SegmentsOf(v, prev), ds.value);
          Reading(Some(Record(IpFromSegments(v, segments), country.value.value)), country.rest)
  }

  /** Bits of one difference, and of the shortest and the longest record. */
  function DifferenceSize(v: Version): (n: nat) { if v.V4? then 10 else 19 }
  function MinRecordSize(v: Version): (n: nat) { if v.V4? then 21 else 31 }
  function MaxRecordSize(v: Version): (n: nat) { if v.V4? then 51 else 164 }

  /** All differences are read exactly if there are bits enough for all of them. */
  lemma {:induction false} ReadDifferencesCount(v: Version, bits: seq<bool>, count: nat)
    ensures |ReadDifferences(v, bits, count).value| <= count
    ensures |ReadDifferences(v, bits, count).value| == count <==> DifferenceSize(v) * count <= |bits|
    ensures DifferenceSize(v) * count <= |bits| ==>
              |ReadDifferences(v, bits, count).rest| == |bits| - DifferenceSize(v) * count
    decreases count
  {
    hide FromBits;
    if count > 0 {
      var index := TakeFrom(bits, v.IndexBits());
      if index.value.None? {
        ReadDifferencesCount(v, index.rest, count - 1);
      } else {
        var value := TakeFrom(index.rest, v.SegmentBits());
        ReadDifferencesCount(v, value.rest, count - 1);
      }
    }
  }

  /** A record that is read is a real address, and takes a bounded number of bits off the stream. */
  lemma ReadRecordProgress(v: Version, bits: seq<bool>, prev: nat)
    requires prev < v.Space()
    ensures var r := ReadRecord(v, bits, prev);
            r.value.Some? ==>
              && r.value.value.start < v.Space()
              && r.value.value.country < COUNTRY_LIMIT
              && MinRecordSize(v) <= |bits| - |r.rest| <= MaxRecordSize(v)
  {
    hide Pow2, Digits, FromDigits, FromBits, ReadDifferences;
    CountryLimitIsPow2();
    var count := TakeFrom(bits, v.IndexBits());
    if count.value.Some? {
      IndexFits(v, bits);
      var n := count.value.value + 1;
      ReadDifferencesCount(v, count.rest, n);
      SegmentsBijection(v, prev, SegmentsOf(v, prev));
      var ds := ReadDifferences(v, count.rest, n).value;
      ApplyKeepsSegmentsValid(v, SegmentsOf(v, prev), ds);
      SegmentsBijection(v, prev, ApplyDifferences(SegmentsOf(v, prev), ds));
    }
  }

  // ----- a record read back -----

  lemma TakeFromEncoded(d: nat, n: nat, tail: seq<bool>)
    requires d < Pow2(n)
    ensures TakeFrom(ToBits(d, n) + tail, n) == Reading(Some(d), tail)
  {
    hide ToBits, FromBits, Pow2;
    FromToBits(d, n);
    assert (ToBits(d, n) + tail)[..n] == ToBits(d, n);
    assert (ToBits(d, n) + tail)[n..] == tail;
  }

  lemma IndexFieldFits(v: Version, i: nat)
    requires i < v.Segments()
    ensures i < Pow2(v.IndexBits())
  {
  }

  lemma {:induction false} ReadEncodedDifferences(v: Version, ds: seq<Difference>, tail: seq<bool>)
    requires ValidDifferences(v, ds)
    ensures ReadDifferences(v, DifferencesBits(v, ds) + tail, |ds|) == Reading(ds, tail)
  {
    hide ToBits, FromBits, Pow2, TakeFrom;
    if ds == [] {
      assert DifferencesBits(v, ds) + tail == tail;
    } else {
      var d, more := ds[0], DifferencesBits(v, ds[1..]) + tail;
      var value := ToBits(d.value, v.SegmentBits()) + more;
      assert DifferencesBits(v, ds) + tail == ToBits(d.index, v.IndexBits()) + value;
      IndexFieldFits(v, d.index);
      TakeFromEncoded(d.index, v.IndexBits(), value);
      TakeFromEncoded(d.value, v.SegmentBits(), more);
      ReadEncodedDifferences(v, ds[1..], tail);
      assert [Difference(d.index, d.value)] + ds[1..] == ds;
    }
  }

  /** Reading one record from its bits and any tail gives the record and leaves exactly the tail. */
  lemma ReadEncodedRecord(v: Version, prev: nat, record: Record, tail: seq<bool>)
    requires prev < v.Space() && record.start < v.Space() && prev != record.start
    requires record.country < COUNTRY_LIMIT
    ensures |IpsIntoDifferences(v, prev, record.start)| > 0
    ensures ReadRecord(v, RecordBits(v, prev, record) + tail, prev) == Reading(Some(record), tail)
  {
    hide ToBits, FromBits, Pow2, TakeFrom, Digits, FromDigits, ReadDifferences, IpsIntoDifferences;
    hide ApplyDifferences, DifferencesBits;
    CountryLimitIsPow2();
    DifferencesLeadToTarget(v, prev, record.start);
    var ds := IpsIntoDifferences(v, prev, record.start);
    var country := ToBits(record.country, COUNTRY_BITS) + tail;
    var body := DifferencesBits(v, ds) + country;
    assert RecordBits(v, prev, record) + tail == ToBits(|ds| - 1, v.IndexBits()) + body;
    IndexFieldFits(v, |ds| - 1);
    TakeFromEncoded(|ds| - 1, v.IndexBits(), body);
    ReadEncodedDifferences(v, ds, country);
    TakeFromEncoded(record.country, COUNTRY_BITS, tail);
  }

  // ----- streams of records -----

  /** Each record starts at a real address other than where the one before it started. */
  predicate Encodable(v: Version, prev: nat, records: seq<Record>)
    decreases |records|
  {
    records == [] ||
    (&& records[0].start < v.Space()
     && records[0].start != prev
     && records[0].country < COUNTRY_LIMIT
     && Encodable(v, records[0].start, records[1..]))
  }

  function Encode(v: Version, prev: nat, records: seq<Record>): (bits: seq<bool>)
    requires prev < v.Space() && Encodable(v, prev, records)
    decreases |records|
  {
    if records == [] then []
    else
      HasDifferences(v, prev, records[0].start);
      RecordBits(v, prev, records[0]) + Encode(v, records[0].start, records[1..])
  }

  /** The start the next record is compared with. */
  function LastStart(prev: nat, records: seq<Record>): (start: nat)
  {
    if records == [] then prev else records[|records| - 1].start
  }

  lemma Reassociate<T>(a: seq<T>, b: seq<T>, c: seq<T>)
    ensures (a + b) + c == a + (b + c)
  {
  }

  lemma {:induction false} EncodeAppend(v: Version, prev: nat, first: seq<Record>, more: seq<Record>)
    requires prev < v.Space() && Encodable(v, prev, first)
    requires Encodable(v, LastStart(prev, first), more)
    ensures Encodable(v, prev, first + more)
    ensures LastStart(prev, first) < v.Space()
    ensures Encode(v, prev, first + more) == Encode(v, prev, first) + Encode(v, LastStart(prev, first), more)
    decreases |first|
  {
    hide Pow2, RecordBits, IpsIntoDifferences;
    if first == [] {
      assert first + more == more;
    } else {
      var rest := first[1..];
      assert (first + more)[1..] == rest + more && (first + more)[0] == first[0];
      assert LastStart(prev, first) == LastStart(first[0].start, rest);
      EncodeAppend(v, first[0].start, rest, more);
      HasDifferences(v, prev, first[0].start);
      Reassociate(
        RecordBits(v, prev, first[0]), Encode(v, first[0].start, rest), Encode(v, LastStart(prev, first), more));
    }
  }

  lemma {:induction false} DifferencesBitsLength(v: Version, ds: seq<Difference>)
    ensures |DifferencesBits(v, ds)| == DifferenceSize(v) * |ds|
  {
    if ds != [] {
      DifferencesBitsLength(v, ds[1..]);
    }
  }

  /** Every record of an encoded stream costs between 21 and 51 bits (31 and 164 for version 6). */
  lemma {:induction false} EncodeLength(v: Version, prev: nat, records: seq<Record>)
    requires prev < v.Space() && Encodable(v, prev, records)
    ensures MinRecordSize(v) * |records| <= |Encode(v, prev, records)| <= MaxRecordSize(v) * |records|
    decreases |records|
  {
    hide Pow2, IpsIntoDifferences;
    if records != [] {
      DifferencesLeadToTarget(v, prev, records[0].start);
      DifferencesBitsLength(v, IpsIntoDifferences(v, prev, records[0].start));
      EncodeLength(v, records[0].start, records[1..]);
    }
  }

  // ----- blocks a stream stands for -----

  /** The blocks still to come after `record` has been read and `bits` remain. */
  function DecodeFrom(v: Version, record: Record, bits: seq<bool>): (blocks: seq<Block>)
    requires record.start < v.Space()
    ensures blocks != []
    decreases |bits|
  {
    var next := ReadRecord(v, bits, record.start);
    ReadRecordProgress(v, bits, record.start);
    if next.value.None? then [Block(record.start, v.Max(), record.country)]
    else
      [Block(record.start, MinusOneIp(v, next.value.value.start), record.country)]
      + DecodeFrom(v, next.value.value, next.rest)
  }

  /** The address the first record is compared with: the last but one. */
  function InitialStart(v: Version): (ip: nat)
    ensures ip < v.Max()
  {
    v.Max() - 1
  }

  /** The blocks of a whole stream, or nothing if not even one record can be read. */
  function Decode(v: Version, bits: seq<bool>): (blocks: Option<seq<Block>>)
  {
    var first := ReadRecord(v, bits, InitialStart(v));
    ReadRecordProgress(v, bits, InitialStart(v));
    if first.value.None? then None else Some(DecodeFrom(v, first.value.value, first.rest))
  }

  /** Each record's block reaches to just before the next record's start, the last one to the end. */
  function BlocksOf(v: Version, records: seq<Record>): (blocks: seq<Block>)
    requires forall r :: r in records ==> r.start < v.Space()
    ensures |blocks| == |records|
  {
    if records == [] then []
    else if |records| == 1 then [Block(records[0].start, v.Max(), records[0].country)]
    else
      [Block(records[0].start, MinusOneIp(v, records[1].start), records[0].country)] + BlocksOf(v, records[1..])
  }

  lemma {:induction false} EncodableInSpace(v: Version, prev: nat, records: seq<Record>)
    requires Encodable(v, prev, records)
    ensures forall r :: r in records ==> r.start < v.Space()
    decreases |records|
  {
    hide Pow2;
    if records != [] {
      EncodableInSpace(v, records[0].start, records[1..]);
    }
  }

  /** Decoding stops at the first bits that do not hold a whole record. */
  lemma {:induction false} DecodeFromEncoded(v: Version, prev: nat, records: seq<Record>, junk: seq<bool>)
    requires prev < v.Space() && records != [] && Encodable(v, prev, records)
    requires ReadRecord(v, junk, LastStart(prev, records)).value.None?
    ensures forall r :: r in records ==> r.start < v.Space()
    ensures DecodeFrom(v, records[0], Encode(v, records[0].start, records[1..]) + junk) == BlocksOf(v, records)
    decreases |records|
  {
    hide Pow2, RecordBits, IpsIntoDifferences, MinusOneIp, ReadRecord;
    EncodableInSpace(v, prev, records);
    var rest := records[1..];
    var start := records[0].start;
    if rest == [] {
      assert [] + junk == junk;
    } else {
      var tail := Encode(v, rest[0].start, rest[1..]);
      ReadEncodedRecord(v, start, rest[0], tail + junk);
      Reassociate(RecordBits(v, start, rest[0]), tail, junk);
      assert LastStart(prev, records) == LastStart(start, rest);
      DecodeFromEncoded(v, start, rest, junk);
    }
  }

  lemma NothingToRead(v: Version, prev: nat)
    ensures ReadRecord(v, [], prev) == Reading(None, [])
  {
  }

  lemma DecodeEncodedThen(v: Version, records: seq<Record>, junk: seq<bool>)
    requires records != [] && Encodable(v, InitialStart(v), records)
    requires ReadRecord(v, junk, LastStart(InitialStart(v), records)).value.None?
    ensures forall r :: r in records ==> r.start < v.Space()
    ensures Decode(v, Encode(v, InitialStart(v), records) + junk) == Some(BlocksOf(v, records))
  {
    hide Pow2, RecordBits, IpsIntoDifferences, MinusOneIp, ReadRecord;
    var tail := Encode(v, records[0].start, records[1..]);
    DecodeFromEncoded(v, InitialStart(v), records, junk);
    ReadEncodedRecord(v, InitialStart(v), records[0], tail + junk);
    Reassociate(RecordBits(v, InitialStart(v), records[0]), tail, junk);
  }

  /** Decoding an encoded stream gives one block per record. */
  lemma DecodeEncoded(v: Version, records: seq<Record>)
    requires records != [] && Encodable(v, InitialStart(v), records)
    ensures forall r :: r in records ==> r.start < v.Space()
    ensures Decode(v, Encode(v, InitialStart(v), records)) == Some(BlocksOf(v, records))
  {
    hide Pow2, Encode, Encodable, Decode, ReadRecord, BlocksOf;
    NothingToRead(v, LastStart(InitialStart(v), records));
    DecodeEncodedThen(v, records, []);
    assert Encode(v, InitialStart(v), records) + [] == Encode(v, InitialStart(v), records);
  }

  /** A record that has been cut short cannot be read. */
  lemma CutRecordIsUnreadable(v: Version, prev: nat, record: Record, cut: nat)
    requires prev < v.Space() && record.start < v.Space() && prev != record.start
    requires |IpsIntoDifferences(v, prev, record.start)| > 0
    requires cut < |RecordBits(v, prev, record)|
    ensures ReadRecord(v, RecordBits(v, prev, record)[..cut], prev).value.None?
  {
    hide ToBits, FromBits, Pow2, Digits, FromDigits, ReadDifferences, IpsIntoDifferences, ApplyDifferences;
    hide DifferencesBits;
    var ds := IpsIntoDifferences(v, prev, record.start);
    var bits := RecordBits(v, prev, record)[..cut];
    DifferencesLeadToTarget(v, prev, record.start);
    DifferencesBitsLength(v, ds);
    if cut >= v.IndexBits() {
      IndexFieldFits(v, |ds| - 1);
      FromToBits(|ds| - 1, v.IndexBits());
      assert bits[..v.IndexBits()] == ToBits(|ds| - 1, v.IndexBits());
      ReadDifferencesCount(v, bits[v.IndexBits()..], |ds|);
    }
  }

  lemma {:induction false} EncodableSplit(v: Version, prev: nat, first: seq<Record>, more: seq<Record>)
    requires Encodable(v, prev, first + more)
    ensures Encodable(v, prev, first) && Encodable(v, LastStart(prev, first), more)
    decreases |first|
  {
    hide Pow2;
    if first == [] {
      assert first + more == more;
    } else {
      assert (first + more)[1..] == first[1..] + more && (first + more)[0] == first[0];
      EncodableSplit(v, first[0].start, first[1..], more);
      assert LastStart(prev, first) == LastStart(first[0].start, first[1..]);
    }
  }

  /** A stream cut in the middle of a record, but not of the first, decodes to the records before the cut. */
  lemma DecodeTruncated(v: Version, records: seq<Record>, next: Record, all: seq<Record>, cut: nat)
    requires records != [] && all == records + [next] && Encodable(v, InitialStart(v), all)
    ensures Encodable(v, InitialStart(v), records) && forall r :: r in records ==> r.start < v.Space()
    ensures var done, bits := Encode(v, InitialStart(v), records), Encode(v, InitialStart(v), all);
            |done| <= cut < |bits| ==> Decode(v, bits[..cut]) == Some(BlocksOf(v, records))
  {
    hide Pow2, RecordBits, IpsIntoDifferences, ReadRecord, Decode;
    var init := InitialStart(v);
    EncodableSplit(v, init, records, [next]);
    var prev := LastStart(init, records);
    EncodeAppend(v, init, records, [next]);
    EncodableInSpace(v, init, records);
    HasDifferences(v, prev, next.start);
    var done, last := Encode(v, init, records), RecordBits(v, prev, next);
    assert Encode(v, prev, [next]) == last + [] == last;
    if |done| <= cut < |done + last| {
      CutRecordIsUnreadable(v, prev, next, cut - |done|);
      DecodeEncodedThen(v, records, last[..cut - |done|]);
      assert (done + last)[..cut] == done + last[..cut - |done|];
    }
  }

  /** On any bits whatever, the blocks are no more than the bits can hold records. */
  lemma {:induction false} DecodeFromLength(v: Version, record: Record, bits: seq<bool>)
    requires record.start < v.Space()
    ensures MinRecordSize(v) * (|DecodeFrom(v, record, bits)| - 1) <= |bits|
    decreases |bits|
  {
    hide Pow2, MinusOneIp, ReadRecord;
    ReadRecordProgress(v, bits, record.start);
    var next := ReadRecord(v, bits, record.start);
    if next.value.Some? {
      DecodeFromLength(v, next.value.value, next.rest);
    }
  }

  lemma DecodeLength(v: Version, bits: seq<bool>)
    ensures Decode(v, bits).Some? ==> MinRecordSize(v) * |Decode(v, bits).value| <= |bits|
  {
    hide Pow2, MinusOneIp, ReadRecord;
    var first := ReadRecord(v, bits, InitialStart(v));
    ReadRecordProgress(v, bits, InitialStart(v));
    if first.value.Some? {
      DecodeFromLength(v, first.value.value, first.rest);
    }
  }
}

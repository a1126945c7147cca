/**
What a record looks like, bit by bit: which segments it names, where each of its
fields is, how long it is, and what any record that can be read means.
 */
module RecordLayout {
  import opened Bits
  import opened Addresses
  import opened BlockFormat
  import opened Options
  import opened Tilings

  // ----- which segments a record names -----

  predicate AscendingIndices(ds: seq<Difference>)
  {
    forall i, j :: 0 <= i < j < |ds| ==> ds[i].index < ds[j].index
  }

  /** The positions from `i` on in which two lists differ. */
  function Changed(from: seq<nat>, to: seq<nat>, i: nat): (positions: set<nat>)
    requires |from| == |to|
  {
    set k | i <= k < |from| && from[k] != to[k]
  }

  /** Every difference is about a segment that differs, and has its new value. */
  lemma {:induction false} DifferencesOnlyNameChanges(from: seq<nat>, to: seq<nat>, i: nat)
    requires |from| == |to| && i <= |from|
    ensures var ds := DifferencesFrom(from, to, i);
            && AscendingIndices(ds)
            && (forall j :: 0 <= j < |ds| ==> i <= ds[j].index < |from|)
            && (forall j :: 0 <= j < |ds| ==> from[ds[j].index] != to[ds[j].index] == ds[j].value)
    decreases |from| - i
  {
    if i < |from| {
      DifferencesOnlyNameChanges(from, to, i + 1);
    }
  }

  predicate Named(ds: seq<Difference>, k: nat)
  {
    exists j :: 0 <= j < |ds| && ds[j].index == k
  }

  lemma NamedCons(d: Difference, rest: seq<Difference>, k: nat)
    ensures Named([d] + rest, k) <==> d.index == k || Named(rest, k)
  {
    var ds := [d] + rest;
    assert ds[0] == d;
    if j :| 0 <= j < |rest| && rest[j].index == k {
      assert ds[j + 1] == rest[j];
    }
  }

  /** Every segment that differs is named. */
  lemma {:induction false} DifferencesNameAllChanges(from: seq<nat>, to: seq<nat>, i: nat, k: nat)
    requires |from| == |to| && i <= k < |from| && from[k] != to[k]
    ensures Named(DifferencesFrom(from, to, i), k)
    decreases |from| - i
  {
    hide Named;
    if i < k {
      DifferencesNameAllChanges(from, to, i + 1, k);
    }
    NamedCons(Difference(i, to[i]), DifferencesFrom(from, to, i + 1), k);
  }

  lemma {:induction false} DifferencesCountChanges(from: seq<nat>, to: seq<nat>, i: nat)
    requires |from| == |to| && i <= |from|
    ensures |DifferencesFrom(from, to, i)| == |Changed(from, to, i)|
    decreases |from| - i
  {
    if i < |from| {
      DifferencesCountChanges(from, to, i + 1);
      var later := Changed(from, to, i + 1);
      assert Changed(from, to, i) == if from[i] == to[i] then later else {i} + later;
    }
  }

  /**
  The differences name exactly the segments that differ, each with the value it has
  in the target, in ascending order.
   */
  lemma DifferencesAreExact(v: Version, from: nat, to: nat)
    ensures var ds, f, t := IpsIntoDifferences(v, from, to), SegmentsOf(v, from), SegmentsOf(v, to);
            && AscendingIndices(ds)
            && (forall k :: 0 <= k < v.Segments() ==> (f[k] != t[k] <==> Named(ds, k)))
            && (forall j :: 0 <= j < |ds| ==> ds[j].index < v.Segments() && ds[j].value == t[ds[j].index])
            && |ds| == |Changed(f, t, 0)|
  {
    hide Pow2, Digits, DifferencesFrom, Changed;
    var ds, f, t := IpsIntoDifferences(v, from, to), SegmentsOf(v, from), SegmentsOf(v, to);
    DifferencesOnlyNameChanges(f, t, 0);
    DifferencesCountChanges(f, t, 0);
    forall k | 0 <= k < v.Segments() && f[k] != t[k] ensures Named(ds, k) {
      DifferencesNameAllChanges(f, t, 0, k);
    }
  }

  /** A record takes 11 bits and 10 for each changed segment; for version 6, 12 and 19. */
  lemma RecordLength(v: Version, prev: nat, record: Record)
    requires |IpsIntoDifferences(v, prev, record.start)| > 0
    ensures var n := |Changed(SegmentsOf(v, prev), SegmentsOf(v, record.start), 0)|;
            |RecordBits(v, prev, record)| == if v == V4 then 11 + 10 * n else 12 + 19 * n
  {
    hide Pow2, Digits, ToBits, IpsIntoDifferences, Changed;
    DifferencesAreExact(v, prev, record.start);
    DifferencesBitsLength(v, IpsIntoDifferences(v, prev, record.start));
  }

  // ----- where the fields are -----

  /** The number in the `n` bits from `at` on. */
  function Field(bits: seq<bool>, at: nat, n: nat): (x: nat)
    requires at + n <= |bits|
  {
    FromBits(bits[at..at + n])
  }

  lemma FieldOf(before: seq<bool>, x: nat, n: nat, after: seq<bool>)
    requires x < Pow2(n)
    ensures Field(before + ToBits(x, n) + after, |before|, n) == x
  {
    hide Pow2, ToBits, FromBits;
    var bits := before + ToBits(x, n) + after;
    assert bits[|before|..|before| + n] == ToBits(x, n);
    FromToBits(x, n);
  }

  /** The differences up to one, that one, and the others. */
  lemma {:induction false} DifferencesBitsAround(v: Version, ds: seq<Difference>, j: nat)
    requires j < |ds|
    ensures DifferencesBits(v, ds)
         == DifferencesBits(v, ds[..j]) + ToBits(ds[j].index, v.IndexBits())
            + ToBits(ds[j].value, v.SegmentBits()) + DifferencesBits(v, ds[j + 1..])
    decreases j
  {
    hide ToBits;
    if j == 0 {
      assert DifferencesBits(v, ds[..0]) == [];
    } else {
      DifferencesBitsAround(v, ds[1..], j - 1);
      assert ds[1..][..j - 1] == ds[..j][1..] && ds[1..][j..] == ds[j + 1..];
    }
  }

  /**
  A record is the number of its differences less one, then each difference as the
  number of a segment and its value, then the country.
   */
  lemma RecordFields(v: Version, prev: nat, record: Record, j: nat)
    requires prev < v.Space() && record.start < v.Space() && record.country < 512
    requires j < |IpsIntoDifferences(v, prev, record.start)|
    ensures var ds, bits := IpsIntoDifferences(v, prev, record.start), RecordBits(v, prev, record);
            if v == V4 then
              && |bits| == 11 + 10 * |ds|
              && Field(bits, 0, 2) == |ds| - 1
              && Field(bits, 2 + 10 * j, 2) == ds[j].index
              && Field(bits, 4 + 10 * j, 8) == ds[j].value
              && Field(bits, 2 + 10 * |ds|, 9) == record.country
            else
              && |bits| == 12 + 19 * |ds|
              && Field(bits, 0, 3) == |ds| - 1
              && Field(bits, 3 + 19 * j, 3) == ds[j].index
              && Field(bits, 6 + 19 * j, 16) == ds[j].value
              && Field(bits, 3 + 19 * |ds|, 9) == record.country
  {
    hide Pow2, ToBits, Field, DifferencesBits, IpsIntoDifferences;
    var ds, bits := IpsIntoDifferences(v, prev, record.start), RecordBits(v, prev, record);
    var count, country := ToBits(|ds| - 1, v.IndexBits()), ToBits(record.country, 9);
    var all, first, rest := DifferencesBits(v, ds), DifferencesBits(v, ds[..j]), DifferencesBits(v, ds[j + 1..]);
    var index, value := ToBits(ds[j].index, v.IndexBits()), ToBits(ds[j].value, v.SegmentBits());
    CountryLimitIsPow2();
    DifferencesLeadToTarget(v, prev, record.start);
    IndexFieldFits(v, |ds| - 1);
    IndexFieldFits(v, ds[j].index);
    DifferencesBitsLength(v, ds);
    DifferencesBitsLength(v, ds[..j]);
    DifferencesBitsAround(v, ds, j);
    assert bits == [] + count + (all + country);
    FieldOf([], |ds| - 1, v.IndexBits(), all + country);
    assert bits == (count + first) + index + (value + rest + country);
    FieldOf(count + first, ds[j].index, v.IndexBits(), value + rest + country);
    assert bits == (count + first + index) + value + (rest + country);
    FieldOf(count + first + index, ds[j].value, v.SegmentBits(), rest + country);
    assert bits == (count + all) + country + [];
    FieldOf(count + all, record.country, 9, []);
  }

  // ----- reading any record -----

  /** Applied differences overwrite exactly the segments they name; of several for one segment the last counts. */
  lemma {:induction false} ApplyAt(segments: seq<nat>, ds: seq<Difference>, k: nat)
    requires k < |segments| && forall j :: 0 <= j < |ds| ==> ds[j].index < |segments|
    ensures !Named(ds, k) ==> ApplyDifferences(segments, ds)[k] == segments[k]
    ensures forall j :: 0 <= j < |ds| && ds[j].index == k && !Named(ds[j + 1..], k) ==>
              ApplyDifferences(segments, ds)[k] == ds[j].value
    decreases |ds|
  {
    if ds != [] {
      var d, rest := ds[0], ds[1..];
      assert ds == [d] + rest;
      NamedCons(d, rest, k);
      ApplyAt(segments[d.index := d.value], rest, k);
      forall j | 0 <= j < |ds| && ds[j].index == k && !Named(ds[j + 1..], k)
        ensures ApplyDifferences(segments, ds)[k] == ds[j].value
      {
        if j > 0 {
          assert rest[j - 1] == ds[j] && rest[j..] == ds[j + 1..];
        }
      }
    }
  }

  /** Any record can be read, also one that no address difference gives: with segments named twice or in any order. */
  lemma ReadAnyRecord(v: Version, prev: nat, ds: seq<Difference>, country: nat, tail: seq<bool>)
    requires prev < v.Space() && country < 512
    requires 0 < |ds| <= v.Segments() && ValidDifferences(v, ds)
    ensures var bits := ToBits(|ds| - 1, v.IndexBits()) + DifferencesBits(v, ds) + ToBits(country, 9) + tail;
            var start := IpFromSegments(v, ApplyDifferences(SegmentsOf(v, prev), ds));
            ReadRecord(v, bits, prev) == Reading(Some(Record(start, country)), tail)
  {
    hide ToBits, FromBits, Pow2, TakeFrom, Digits, FromDigits, ReadDifferences, ApplyDifferences, DifferencesBits;
    var last := ToBits(country, 9) + tail;
    var body := DifferencesBits(v, ds) + last;
    assert ToBits(|ds| - 1, v.IndexBits()) + DifferencesBits(v, ds) + ToBits(country, 9) + tail
        == ToBits(|ds| - 1, v.IndexBits()) + body;
    CountryLimitIsPow2();
    IndexFieldFits(v, |ds| - 1);
    TakeFromEncoded(|ds| - 1, v.IndexBits(), body);
    ReadEncodedDifferences(v, ds, last);
    TakeFromEncoded(country, 9, tail);
  }

  // ----- the first record of a stream -----

  /** The first record is compared with 255.255.255.254, or ffff:ffff:ffff:ffff:ffff:ffff:ffff:fffe. */
  lemma InitialSegments(v: Version)
    ensures SegmentsOf(v, InitialStart(v))
         == if v == V4 then [255, 255, 255, 254]
            else [0xffff, 0xffff, 0xffff, 0xffff, 0xffff, 0xffff, 0xffff, 0xfffe]
  {
    hide Pow2, Digits;
    if v == V4 {
      DottedQuad(255, 255, 255, 254);
    } else {
      EightSegments([0xffff, 0xffff, 0xffff, 0xffff, 0xffff, 0xffff, 0xffff, 0xfffe]);
    }
  }

  lemma {:induction false} ZeroShifted(w: nat)
    ensures Shr(0, w) == 0 && Low(0, w) == 0
  {
    if w > 0 {
      ZeroShifted(w - 1);
    }
  }

  lemma {:induction false} ZeroDigits(w: nat, n: nat)
    ensures forall k :: 0 <= k < n ==> Digits(0, w, n)[k] == 0
  {
    if n > 0 {
      ZeroShifted(w);
      ZeroDigits(w, n - 1);
    }
  }

  lemma AllChanged(v: Version)
    ensures |Changed(SegmentsOf(v, InitialStart(v)), SegmentsOf(v, 0), 0)| == v.Segments()
  {
    hide Pow2, Digits;
    InitialSegments(v);
    ZeroDigits(v.SegmentBits(), v.Segments());
    var changed := Changed(SegmentsOf(v, InitialStart(v)), SegmentsOf(v, 0), 0);
    if v == V4 {
      assert changed == {0, 1, 2, 3};
    } else {
      assert changed == {0, 1, 2, 3, 4, 5, 6, 7};
    }
  }

  /** What is serialized starts with a record for address 0 that names every segment. */
  lemma FirstRecordNamesAll(v: Version, blocks: seq<Block>)
    requires WellFormed(v, blocks) && blocks != []
    ensures var first := Record(0, Tiling(v, blocks)[0].country);
            && |IpsIntoDifferences(v, InitialStart(v), 0)| == v.Segments()
            && RecordBits(v, InitialStart(v), first) <= Serialized(v, blocks)
            && |RecordBits(v, InitialStart(v), first)| == if v == V4 then 51 else 164
  {
    hide Pow2, Digits, Tiling, RecordBits, IpsIntoDifferences;
    TilingCovers(v, blocks);
    CoverAsRecords(v, Tiling(v, blocks), 0, InitialStart(v));
    InitialSegments(v);
    ZeroDigits(v.SegmentBits(), v.Segments());
    DifferencesAreExact(v, InitialStart(v), 0);
    AllChanged(v);
    RecordLength(v, InitialStart(v), Record(0, Tiling(v, blocks)[0].country));
  }
}

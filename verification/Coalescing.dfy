/** Merging adjacent ranges of the same country while they are being collected. */
module Coalescing {
  import opened Addresses
  import opened Stream

  type CodedRange = (string, IpRange)

  /** Whether some range gives the address this code. */
  predicate Maps(ranges: seq<CodedRange>, a: IpAddr, code: string)
  {
    exists i :: 0 <= i < |ranges| && ranges[i].1.Contains(a) && ranges[i].0 == code
  }

  lemma MapsSnoc(ranges: seq<CodedRange>, last: CodedRange, a: IpAddr, code: string)
    ensures Maps(ranges + [last], a, code) <==> Maps(ranges, a, code) || (last.1.Contains(a) && last.0 == code)
  {
    var all := ranges + [last];
    assert all[|ranges|] == last;
    if i :| 0 <= i < |ranges| && ranges[i].1.Contains(a) && ranges[i].0 == code {
      assert all[i] == ranges[i];
    }
  }

  /** Real ranges, ascending and disjoint within each version. */
  predicate AscendingRanges(ranges: seq<CodedRange>)
  {
    && (forall i :: 0 <= i < |ranges| ==> ranges[i].1.Valid())
    && (forall i, j :: 0 <= i < j < |ranges| && ranges[i].1.version == ranges[j].1.version ==>
          ranges[i].1.end < ranges[j].1.start)
  }

  /** Ranges that follow each other with the same code are of the same version. */
  predicate Unmixed(ranges: seq<CodedRange>)
  {
    forall i :: 0 < i < |ranges| && ranges[i - 1].0 == ranges[i].0 ==> ranges[i - 1].1.version == ranges[i].1.version
  }

  /** The two ranges should have been one. */
  predicate Mergeable(first: CodedRange, second: CodedRange)
  {
    && first.0 == second.0
    && first.1.version == second.1.version
    && second.1.start == first.1.end + 1
  }

  /** No two neighbours with the same code and version are left of which one ends right before the other starts. */
  predicate Coalesced(ranges: seq<CodedRange>)
  {
    forall i :: 0 < i < |ranges| && ranges[i - 1].0 == ranges[i].0 && ranges[i - 1].1.version == ranges[i].1.version ==>
      ranges[i - 1].1.end + 1 != ranges[i].1.start
  }

  /** The collected list once one more range has been added or merged in. */
  function Step(ranges: seq<CodedRange>, next: CodedRange): (r: seq<CodedRange>)
  {
    if ranges != [] && Mergeable(ranges[|ranges| - 1], next) then
      ranges[..|ranges| - 1] + [(next.0, IpRange(next.1.version, ranges[|ranges| - 1].1.start, next.1.end))]
    else
      ranges + [next]
  }

  /** What has been collected after the whole stream. */
  function Coalesce(stream: seq<CodedRange>): (r: seq<CodedRange>)
  {
    if stream == [] then [] else Step(Coalesce(stream[..|stream| - 1]), stream[|stream| - 1])
  }

  /** The last range collected ends where the last range of the stream ends. */
  lemma LastCollected(stream: seq<CodedRange>)
    requires stream != []
    ensures Coalesce(stream) != []
    ensures var last, collected := stream[|stream| - 1], Coalesce(stream)[|Coalesce(stream)| - 1];
            collected.0 == last.0 && collected.1.version == last.1.version && collected.1.end == last.1.end
  {
  }

  class RangeCollector {
    var codedRanges: seq<CodedRange>

    constructor ()
      ensures codedRanges == []
    {
      codedRanges := [];
    }

    /**
    Merges the range into the last one collected, or adds it. Ranges with the same
    code must be of the same version to be compared at all, and nothing follows the
    last address.
     */
    method AddOrCoalesce(code: string, range: IpRange)
      requires codedRanges != [] && codedRanges[|codedRanges| - 1].0 == code ==>
                 && codedRanges[|codedRanges| - 1].1.version == range.version
                 && codedRanges[|codedRanges| - 1].1.end < range.version.Max()
      modifies this
      ensures codedRanges == Step(old(codedRanges), (code, range))
    {
      if |codedRanges| > 0 {
        var (lastCode, lastRange) := codedRanges[|codedRanges| - 1];
        if lastCode == code && AreConsecutive(lastRange.End(), range.Start()) {
          codedRanges := codedRanges[..|codedRanges| - 1];
          codedRanges := codedRanges + [(code, IpRange(range.version, lastRange.start, range.end))];
          return;
        }
      }
      codedRanges := codedRanges + [(code, range)];
    }
  }

  /** Ranges that follow each other with the same code can be compared: one version, and not at its end yet. */
  predicate Comparable(ranges: seq<CodedRange>)
  {
    forall i :: 0 < i < |ranges| && ranges[i - 1].0 == ranges[i].0 ==>
      && ranges[i - 1].1.version == ranges[i].1.version
      && ranges[i - 1].1.end < ranges[i].1.version.Max()
  }

  lemma AscendingIsComparable(ranges: seq<CodedRange>)
    requires AscendingRanges(ranges) && Unmixed(ranges)
    ensures Comparable(ranges)
  {
  }

  /** Collects a whole stream. */
  method CollectRanges(stream: seq<CodedRange>) returns (ranges: seq<CodedRange>)
    requires Comparable(stream)
    ensures ranges == Coalesce(stream)
  {
    var collector := new RangeCollector();
    assert stream[..0] == [];
    for i := 0 to |stream|
      invariant fresh(collector)
      invariant collector.codedRanges == Coalesce(stream[..i])
    {
      assert stream[..i + 1][..i] == stream[..i];
      if i > 0 {
        LastCollected(stream[..i]);
        assert stream[..i][i - 1] == stream[i - 1];
      }
      collector.AddOrCoalesce(stream[i].0, stream[i].1);
    }
    assert stream[..|stream|] == stream;
    ranges := collector.codedRanges;
  }

  lemma PrefixAscending(stream: seq<CodedRange>, n: nat)
    requires AscendingRanges(stream) && n <= |stream|
    ensures AscendingRanges(stream[..n])
  {
  }

  lemma MergedContains(first: IpRange, second: IpRange, a: IpAddr)
    requires first.Valid() && second.Valid()
    requires first.version == second.version && second.start == first.end + 1
    ensures IpRange(second.version, first.start, second.end).Contains(a) <==> first.Contains(a) || second.Contains(a)
  {
  }

  /** Coalescing gives every address the codes it had before, and no others. */
  lemma {:induction false} CoalesceMeaning(stream: seq<CodedRange>, a: IpAddr, code: string)
    requires forall i :: 0 <= i < |stream| ==> stream[i].1.Valid()
    ensures Maps(Coalesce(stream), a, code) <==> Maps(stream, a, code)
    ensures forall i :: 0 <= i < |Coalesce(stream)| ==> Coalesce(stream)[i].1.Valid()
    decreases |stream|
  {
    hide Maps, IpRange.Contains;
    if stream != [] {
      var init, next := stream[..|stream| - 1], stream[|stream| - 1];
      var ranges := Coalesce(init);
      CoalesceMeaning(init, a, code);
      assert stream == init + [next];
      MapsSnoc(init, next, a, code);
      if ranges != [] && Mergeable(ranges[|ranges| - 1], next) {
        var before, last := ranges[..|ranges| - 1], ranges[|ranges| - 1];
        var merged := (next.0, IpRange(next.1.version, last.1.start, next.1.end));
        assert ranges == before + [last];
        MapsSnoc(before, last, a, code);
        MapsSnoc(before, merged, a, code);
        MergedContains(last.1, next.1, a);
      } else {
        MapsSnoc(ranges, next, a, code);
      }
    }
  }

  /** Every range of the version ends before the bound. */
  predicate AllBefore(ranges: seq<CodedRange>, v: Version, bound: nat)
  {
    forall i :: 0 <= i < |ranges| && ranges[i].1.version == v ==> ranges[i].1.end < bound
  }

  lemma {:induction false} CoalesceStaysBefore(stream: seq<CodedRange>, v: Version, bound: nat)
    requires AllBefore(stream, v, bound)
    ensures AllBefore(Coalesce(stream), v, bound)
    decreases |stream|
  {
    if stream != [] {
      CoalesceStaysBefore(stream[..|stream| - 1], v, bound);
    }
  }

  lemma StepAscending(ranges: seq<CodedRange>, next: CodedRange)
    requires AscendingRanges(ranges) && next.1.Valid()
    requires AllBefore(ranges, next.1.version, next.1.start)
    ensures AscendingRanges(Step(ranges, next))
  {
  }

  /** A coalesced list is ascending and disjoint like the stream. */
  lemma {:induction false} CoalesceAscending(stream: seq<CodedRange>)
    requires AscendingRanges(stream)
    ensures AscendingRanges(Coalesce(stream))
    decreases |stream|
  {
    hide Step, Version.Space;
    if stream != [] {
      var n := |stream| - 1;
      PrefixAscending(stream, n);
      CoalesceAscending(stream[..n]);
      CoalesceStaysBefore(stream[..n], stream[n].1.version, stream[n].1.start);
      StepAscending(Coalesce(stream[..n]), stream[n]);
    }
  }

  /** No neighbours that should have been one survive. */
  lemma {:induction false} CoalesceIsCoalesced(stream: seq<CodedRange>)
    ensures Coalesced(Coalesce(stream))
    decreases |stream|
  {
    if stream != [] {
      CoalesceIsCoalesced(stream[..|stream| - 1]);
    }
  }

  /** The one range lies within the other, which has the same code and version. */
  predicate Within(inner: CodedRange, outer: CodedRange)
  {
    && outer.0 == inner.0
    && outer.1.version == inner.1.version
    && outer.1.start <= inner.1.start
    && inner.1.end <= outer.1.end
  }

  lemma WithinTransitive(a: CodedRange, b: CodedRange, c: CodedRange)
    requires Within(a, b) && Within(b, c)
    ensures Within(a, c)
  {
  }

  /** What was collected stays within what is collected, at the same place. */
  lemma StepKeeps(ranges: seq<CodedRange>, next: CodedRange, k: nat)
    requires next.1.Valid() && k < |ranges|
    ensures k < |Step(ranges, next)| && Within(ranges[k], Step(ranges, next)[k])
  {
  }

  lemma StepEndsWith(ranges: seq<CodedRange>, next: CodedRange)
    requires ranges != [] ==> ranges[|ranges| - 1].1.start <= ranges[|ranges| - 1].1.end
    ensures var r := Step(ranges, next); r != [] && Within(next, r[|r| - 1])
  {
  }

  /** The last range of the stream lies within the last one collected. */
  lemma {:induction false} LastWithin(stream: seq<CodedRange>)
    requires stream != [] && forall i :: 0 <= i < |stream| ==> stream[i].1.Valid()
    ensures Coalesce(stream) != []
    ensures Within(stream[|stream| - 1], Coalesce(stream)[|Coalesce(stream)| - 1])
    decreases |stream|
  {
    hide Step, Version.Space;
    var init, next := stream[..|stream| - 1], stream[|stream| - 1];
    if init != [] {
      LastWithin(init);
      assert init[|init| - 1].1.Valid();
    }
    StepEndsWith(Coalesce(init), next);
  }

  /** Neighbours of the stream that should be one range are in one range of the result. */
  lemma {:induction false} NeighboursMerge(stream: seq<CodedRange>, i: nat) returns (k: nat)
    requires forall i :: 0 <= i < |stream| ==> stream[i].1.Valid()
    requires 0 < i < |stream|
    requires stream[i - 1].0 == stream[i].0 && stream[i - 1].1.version == stream[i].1.version
    requires stream[i - 1].1.end + 1 == stream[i].1.start
    ensures k < |Coalesce(stream)|
    ensures Within(stream[i - 1], Coalesce(stream)[k]) && Within(stream[i], Coalesce(stream)[k])
    decreases |stream|
  {
    hide Within;
    var init, next := stream[..|stream| - 1], stream[|stream| - 1];
    var ranges := Coalesce(init);
    if i < |stream| - 1 {
      k := NeighboursMerge(init, i);
      StepKeeps(ranges, next, k);
      WithinTransitive(stream[i - 1], ranges[k], Coalesce(stream)[k]);
      WithinTransitive(stream[i], ranges[k], Coalesce(stream)[k]);
    } else {
      k := |ranges| - 1;
      LastCollected(init);
      LastWithin(init);
      LastWithin(stream);
      StepKeeps(ranges, next, k);
      WithinTransitive(stream[i - 1], ranges[k], Coalesce(stream)[k]);
      assert Mergeable(ranges[k], next);
    }
  }

  /** Coalescing what is already coalesced changes nothing. */
  lemma {:induction false} CoalesceIdempotent(ranges: seq<CodedRange>)
    requires Coalesced(ranges)
    ensures Coalesce(ranges) == ranges
    decreases |ranges|
  {
    if ranges != [] {
      var init := ranges[..|ranges| - 1];
      CoalesceIdempotent(init);
      assert ranges == init + [ranges[|ranges| - 1]];
    }
  }
}

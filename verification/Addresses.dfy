/**
IP addresses of both versions. An address is the integer it stands for; its
segments and its octets are that integer's digits, most significant first.
 */
module Addresses {
  import opened Bits

  datatype Version = V4 | V6 {
    function Segments(): (n: nat) { if V4? then 4 else 8 }
    function SegmentBits(): (n: nat) { if V4? then 8 else 16 }
    function IndexBits(): (n: nat) { if V4? then 2 else 3 }
    function Octets(): (n: nat) { if V4? then 4 else 16 }
    function AddressBits(): (n: nat) { if V4? then 32 else 128 }
    function Space(): (n: nat) { if V4? then 0x1_0000_0000 else 0x1_0000_0000_0000_0000_0000_0000_0000_0000 }
    function Max(): (ip: nat) { Space() - 1 }
  }

  lemma SpaceIsPow2(v: Version)
    ensures v.Space() == Pow2(v.AddressBits())
  {
    hide Pow2;
    Pow2Values();
    Pow2Sum(8, 8);
    Pow2Sum(16, 16);
    Pow2Sum(32, 32);
    Pow2Sum(64, 64);
  }

  /** The `n` low-order digits of `x`, `w` bits each, most significant first. */
  function Digits(x: nat, w: nat, n: nat): (s: seq<nat>)
    ensures |s| == n
    ensures forall i :: 0 <= i < n ==> s[i] < Pow2(w)
    decreases n
  {
    if n == 0 then [] else Digits(Shr(x, w), w, n - 1) + [Low(x, w)]
  }

  /** The integer with the given digits: shift by a digit, or in the next one. */
  function FromDigits(s: seq<nat>, w: nat): (x: nat)
  {
    if s == [] then 0 else Or(Shl(FromDigits(s[..|s| - 1], w), w), s[|s| - 1])
  }

  /** Appending a digit and taking it off again. */
  lemma AppendDigit(x: nat, d: nat, w: nat)
    requires d < Pow2(w)
    ensures Shr(Or(Shl(x, w), d), w) == x
    ensures Low(Or(Shl(x, w), d), w) == d
  {
    hide Pow2, Bit, Shl, Shr, Low, Or;
    var y := Or(Shl(x, w), d);
    forall i: nat ensures Bit(Shr(y, w), i) == Bit(x, i) {
      ShrBit(y, w, i);
      OrBit(Shl(x, w), d, i + w);
      ShlBit(x, w, i + w);
      FitsBit(d, w, i + w);
    }
    SameBits(Shr(y, w), x);
    forall i: nat ensures Bit(Low(y, w), i) == Bit(d, i) {
      LowBit(y, w, i);
      OrBit(Shl(x, w), d, i);
      ShlBit(x, w, i);
      if w <= i {
        FitsBit(d, w, i);
      }
    }
    SameBits(Low(y, w), d);
  }

  /** Splitting off the last digit and putting it back. */
  lemma SplitDigit(x: nat, w: nat)
    ensures Or(Shl(Shr(x, w), w), Low(x, w)) == x
  {
    hide Pow2, Bit, Shl, Shr, Low, Or;
    var y := Or(Shl(Shr(x, w), w), Low(x, w));
    forall i: nat ensures Bit(y, i) == Bit(x, i) {
      OrBit(Shl(Shr(x, w), w), Low(x, w), i);
      ShlBit(Shr(x, w), w, i);
      LowBit(x, w, i);
      if w <= i {
        ShrBit(x, w, i - w);
      }
    }
    SameBits(y, x);
  }

  /** An integer is recovered from its digits. */
  lemma {:induction false} FromDigitsOfDigits(x: nat, w: nat, n: nat)
    requires x < Pow2(w * n)
    ensures FromDigits(Digits(x, w, n), w) == x
    decreases n
  {
    hide Pow2, Shl, Shr, Low, Or;
    if n == 0 {
      assert w * n == 0;
      Pow2Values();
    } else {
      assert w * n == w + w * (n - 1);
      ShrFits(x, w, w * (n - 1));
      FromDigitsOfDigits(Shr(x, w), w, n - 1);
      SplitDigit(x, w);
      var s := Digits(x, w, n);
      assert s[..|s| - 1] == Digits(Shr(x, w), w, n - 1);
    }
  }

  /** Digits are recovered from the integer they make. */
  lemma {:induction false} DigitsOfFromDigits(s: seq<nat>, w: nat)
    requires forall i :: 0 <= i < |s| ==> s[i] < Pow2(w)
    ensures Digits(FromDigits(s, w), w, |s|) == s
  {
    hide Pow2, Shl, Shr, Low, Or;
    if s != [] {
      var init, last := s[..|s| - 1], s[|s| - 1];
      DigitsOfFromDigits(init, w);
      AppendDigit(FromDigits(init, w), last, w);
      assert s == init + [last];
    }
  }

  lemma OrShlFits(x: nat, d: nat, w: nat, m: nat)
    requires x < Pow2(m) && d < Pow2(w)
    ensures Or(Shl(x, w), d) < Pow2(w + m)
  {
    hide Pow2, Bit, Shl, Or;
    ShlFits(x, w, m);
    forall i: nat | w + m <= i ensures !Bit(Or(Shl(x, w), d), i) {
      OrBit(Shl(x, w), d, i);
      FitsBit(Shl(x, w), w + m, i);
      FitsBit(d, w, i);
    }
    BitsFit(Or(Shl(x, w), d), w + m);
  }

  /** The integer that digits make fits in as many bits as they have. */
  lemma {:induction false} FromDigitsFits(s: seq<nat>, w: nat)
    requires forall i :: 0 <= i < |s| ==> s[i] < Pow2(w)
    ensures FromDigits(s, w) < Pow2(w * |s|)
  {
    hide Pow2, Shl, Shr, Low, Or;
    if s == [] {
      assert w * |s| == 0;
      Pow2Values();
    } else {
      var init, last := s[..|s| - 1], s[|s| - 1];
      FromDigitsFits(init, w);
      assert w * |s| == w + w * |init|;
      OrShlFits(FromDigits(init, w), last, w, w * |init|);
    }
  }

  lemma {:induction false} ShlPositive(x: nat, w: nat)
    ensures Shl(x, w) == 0 ==> x == 0
  {
    if w > 0 {
      ShlPositive(x, w - 1);
    }
  }

  lemma {:induction false} ShiftedOrIsSum(x: nat, d: nat, w: nat)
    requires d < Pow2(w)
    ensures Or(Shl(x, w), d) == x * Pow2(w) + d
    decreases w
  {
    if w == 0 {
      OrZero(x);
    } else {
      var y := Shl(x, w - 1);
      Halve(0, y);
      ShiftedOrIsSum(x, d / 2, w - 1);
      assert x * Pow2(w) == 2 * (x * Pow2(w - 1));
      if Shl(x, w) == 0 && d == 0 {
        ShlPositive(x, w);
      }
    }
  }

  /** Digits are positional: each further one multiplies what stands before it by the base. */
  lemma DigitsArePositional(s: seq<nat>, d: nat, w: nat)
    requires d < Pow2(w)
    ensures FromDigits(s + [d], w) == FromDigits(s, w) * Pow2(w) + d
  {
    hide Pow2, Shl, Or;
    assert (s + [d])[..|s|] == s;
    ShiftedOrIsSum(FromDigits(s, w), d, w);
  }

  // ----- segments and octets of an address -----

  function SegmentsOf(v: Version, ip: nat): (segments: seq<nat>)
  {
    Digits(ip, v.SegmentBits(), v.Segments())
  }

  function IpFromSegments(v: Version, segments: seq<nat>): (ip: nat)
  {
    FromDigits(segments, v.SegmentBits())
  }

  function OctetsOf(v: Version, ip: nat): (octets: seq<nat>)
  {
    Digits(ip, 8, v.Octets())
  }

  predicate ValidSegments(v: Version, segments: seq<nat>)
  {
    && |segments| == v.Segments()
    && forall i :: 0 <= i < |segments| ==> segments[i] < Pow2(v.SegmentBits())
  }

  /** Segment arrays and addresses correspond one to one. */
  lemma SegmentsBijection(v: Version, ip: nat, segments: seq<nat>)
    requires ip < v.Space() && ValidSegments(v, segments)
    ensures ValidSegments(v, SegmentsOf(v, ip))
    ensures IpFromSegments(v, SegmentsOf(v, ip)) == ip
    ensures IpFromSegments(v, segments) < v.Space()
    ensures SegmentsOf(v, IpFromSegments(v, segments)) == segments
  {
    hide Pow2, Digits, FromDigits;
    SpaceIsPow2(v);
    FromDigitsOfDigits(ip, v.SegmentBits(), v.Segments());
    DigitsOfFromDigits(segments, v.SegmentBits());
    FromDigitsFits(segments, v.SegmentBits());
  }

  lemma EmptyDigits(w: nat)
    ensures FromDigits([], w) == 0
  {
  }

  /** The segments of a version-4 address are what its dotted notation shows. */
  lemma DottedQuad(a: nat, b: nat, c: nat, d: nat)
    requires a < 256 && b < 256 && c < 256 && d < 256
    ensures SegmentsOf(V4, ((a * 256 + b) * 256 + c) * 256 + d) == [a, b, c, d]
  {
    hide Pow2, Digits, FromDigits;
    Pow2Values();
    EmptyDigits(8);
    DigitsArePositional([], a, 8);
    DigitsArePositional([a], b, 8);
    DigitsArePositional([a, b], c, 8);
    DigitsArePositional([a, b, c], d, 8);
    assert [] + [a] == [a] && [a] + [b] == [a, b] && [a, b] + [c] == [a, b, c] && [a, b, c] + [d] == [a, b, c, d];
    DigitsOfFromDigits([a, b, c, d], 8);
  }

  lemma DigitAppended(s: seq<nat>, i: nat)
    requires i < |s| && s[i] < 0x10000
    ensures FromDigits(s[..i + 1], 16) == FromDigits(s[..i], 16) * 0x10000 + s[i]
  {
    hide Pow2, FromDigits;
    Pow2Values();
    Pow2Sum(8, 8);
    assert s[..i + 1] == s[..i] + [s[i]];
    DigitsArePositional(s[..i], s[i], 16);
  }

  lemma FourDigitsAppended(s: seq<nat>, i: nat)
    requires i + 4 <= |s| && forall k :: i <= k < i + 4 ==> s[k] < 0x10000
    ensures FromDigits(s[..i + 4], 16)
         == (((FromDigits(s[..i], 16) * 0x10000 + s[i]) * 0x10000 + s[i + 1]) * 0x10000 + s[i + 2]) * 0x10000 + s[i + 3]
  {
    hide FromDigits;
    DigitAppended(s, i);
    DigitAppended(s, i + 1);
    DigitAppended(s, i + 2);
    DigitAppended(s, i + 3);
  }

  /** The segments of a version-6 address are the eight groups its notation shows. */
  lemma EightSegments(s: seq<nat>)
    requires |s| == 8 && forall k :: 0 <= k < 8 ==> s[k] < 0x10000
    ensures var hi := ((s[0] * 0x10000 + s[1]) * 0x10000 + s[2]) * 0x10000 + s[3];
            SegmentsOf(V6, (((hi * 0x10000 + s[4]) * 0x10000 + s[5]) * 0x10000 + s[6]) * 0x10000 + s[7]) == s
  {
    hide Pow2, Digits, FromDigits;
    EmptyDigits(16);
    FourDigitsAppended(s, 0);
    FourDigitsAppended(s, 4);
    assert s[..0] == [] && s[..8] == s;
    Pow2Values();
    Pow2Sum(8, 8);
    DigitsOfFromDigits(s, 16);
  }

  /** Two addresses differ exactly if they differ in some segment. */
  lemma DifferentSegments(v: Version, a: nat, b: nat)
    requires a < v.Space() && b < v.Space()
    ensures a != b <==> exists i :: 0 <= i < v.Segments() && SegmentsOf(v, a)[i] != SegmentsOf(v, b)[i]
  {
    hide Pow2, Digits, FromDigits;
    SpaceIsPow2(v);
    FromDigitsOfDigits(a, v.SegmentBits(), v.Segments());
    FromDigitsOfDigits(b, v.SegmentBits(), v.Segments());
    assert SegmentsOf(v, a) == SegmentsOf(v, b) ==> a == b;
  }

  /** One step of the fold loses nothing as long as the octets fit in the width. */
  lemma FoldOctet(sofar: seq<nat>, octet: nat, width: nat)
    requires forall i :: 0 <= i < |sofar| ==> sofar[i] < Pow2(8)
    requires 8 * |sofar| + 8 <= width
    ensures Or(Low(Shl(FromDigits(sofar, 8), 8), width), octet) == FromDigits(sofar + [octet], 8)
  {
    hide Pow2, Digits, Shl, Low, Or;
    FromDigitsFits(sofar, 8);
    ShlFits(FromDigits(sofar, 8), 8, 8 * |sofar|);
    Pow2Monotone(8 + 8 * |sofar|, width);
    LowOfFitting(Shl(FromDigits(sofar, 8), 8), width);
    assert (sofar + [octet])[..|sofar|] == sofar;
  }

  /** Folds the octets of an address into an integer of the address's width. */
  method IntegerFromIp(v: Version, ip: nat) returns (bitData: nat)
    requires ip < v.Space()
    ensures bitData == ip
  {
    hide Pow2, Digits, FromDigits, Shl, Low, Or;
    SpaceIsPow2(v);
    var octets := OctetsOf(v, ip);
    bitData := 0;
    EmptyDigits(8);
    assert octets[..0] == [];
    for i := 0 to |octets|
      invariant bitData == FromDigits(octets[..i], 8)
    {
      assert octets[..i + 1] == octets[..i] + [octets[i]];
      FoldOctet(octets[..i], octets[i], v.AddressBits());
      bitData := Low(Shl(bitData, 8), v.AddressBits());
      bitData := Or(bitData, octets[i]);
    }
    assert octets[..|octets|] == octets;
    FromDigitsOfDigits(ip, 8, v.Octets());
  }

  lemma AddOne(v: Version, ip: nat)
    requires ip < v.Space()
    ensures Low(FromDigits(OctetsOf(v, ip), 8) + 1, v.AddressBits()) == if ip == v.Max() then 0 else ip + 1
  {
    hide Pow2, Digits, FromDigits, Low;
    SpaceIsPow2(v);
    FromDigitsOfDigits(ip, 8, v.Octets());
    if ip == v.Max() {
      LowWithCarry(0, v.AddressBits());
    } else {
      LowOfFitting(ip + 1, v.AddressBits());
    }
  }

  lemma SubtractOne(v: Version, ip: nat)
    requires ip < v.Space()
    ensures Low(FromDigits(OctetsOf(v, ip), 8) + v.Max(), v.AddressBits()) == if ip == 0 then v.Max() else ip - 1
  {
    hide Pow2, Digits, FromDigits, Low;
    SpaceIsPow2(v);
    FromDigitsOfDigits(ip, 8, v.Octets());
    if ip == 0 {
      LowOfFitting(v.Max(), v.AddressBits());
    } else {
      LowWithCarry(ip - 1, v.AddressBits());
    }
  }

  /** The next address, `overflowing_add(1)` on the integer folded from the octets. */
  function PlusOneIp(v: Version, ip: nat): (next: nat)
    requires ip < v.Space()
    ensures next == if ip == v.Max() then 0 else ip + 1
  {
    AddOne(v, ip);
    Low(FromDigits(OctetsOf(v, ip), 8) + 1, v.AddressBits())
  }

  /** The previous address, `overflowing_sub(1)` likewise: subtracting one adds all ones. */
  function MinusOneIp(v: Version, ip: nat): (prev: nat)
    requires ip < v.Space()
    ensures prev == if ip == 0 then v.Max() else ip - 1
  {
    SubtractOne(v, ip);
    Low(FromDigits(OctetsOf(v, ip), 8) + v.Max(), v.AddressBits())
  }

  /** Stepping forward and stepping back undo each other, also across the wrap-around. */
  lemma StepsAreInverse(v: Version, ip: nat)
    requires ip < v.Space()
    ensures MinusOneIp(v, PlusOneIp(v, ip)) == ip
    ensures PlusOneIp(v, MinusOneIp(v, ip)) == ip
  {
  }
}

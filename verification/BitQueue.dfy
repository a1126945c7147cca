/**
The bit queue: a FIFO of bits stored in a deque of bytes.

The front byte keeps its live bits at the low-order end, with `frontBlank` blank
bits above them; the back byte likewise, with `backBlank` blank bits above. All
bytes between the two are full. `Contents` is the abstract value, the first bit
being the next one to come out.

Data is or-ed into the back byte without being masked, so the blank bits of that
byte need not be zero. They are called `Stray` here: they are no part of the
contents, but come out in the bits that are added next.
 */
module BitQueues {
  import opened Options
  import opened Bits

  function Min(a: int, b: int): (m: int)
  {
    if a < b then a else b
  }

  /** The bits of every byte behind the front one; only the last of them may be partial. */
  function RestBits(bytes: seq<Byte>, backBlank: nat): (s: seq<bool>)
    requires backBlank <= 8
  {
    if |bytes| == 0 then []
    else if |bytes| == 1 then ToBits(bytes[0], 8 - backBlank)
    else ToBits(bytes[0], 8) + RestBits(bytes[1..], backBlank)
  }

  /** The live bits of a whole deque, in order. */
  function QueueBits(bytes: seq<Byte>, frontBlank: nat, backBlank: nat): (s: seq<bool>)
    requires bytes != [] && frontBlank <= 8 && backBlank <= 8
  {
    ToBits(bytes[0], 8 - frontBlank) + RestBits(bytes[1..], backBlank)
  }

  lemma {:induction false} RestBitsLength(bytes: seq<Byte>, backBlank: nat)
    requires backBlank <= 8
    ensures |RestBits(bytes, backBlank)| == if bytes == [] then 0 else 8 * |bytes| - backBlank
  {
    if |bytes| > 1 {
      RestBitsLength(bytes[1..], backBlank);
    }
  }

  lemma QueueBitsLength(bytes: seq<Byte>, frontBlank: nat, backBlank: nat)
    requires bytes != [] && frontBlank <= 8 && backBlank <= 8
    requires |bytes| == 1 ==> backBlank == 0
    ensures |QueueBits(bytes, frontBlank, backBlank)| == 8 * |bytes| - frontBlank - backBlank
  {
    RestBitsLength(bytes[1..], backBlank);
  }

  /** Shrinking at the front: a full first byte comes off, whatever follows it. */
  lemma RestBitsCons(bytes: seq<Byte>, backBlank: nat)
    requires backBlank <= 8
    requires |bytes| > 1 || (|bytes| == 1 && backBlank == 0)
    ensures RestBits(bytes, backBlank) == ToBits(bytes[0], 8) + RestBits(bytes[1..], backBlank)
    ensures RestBits(bytes, backBlank) == QueueBits(bytes, 0, backBlank)
  {
  }

  /** A front byte that is used up contributes nothing. */
  lemma SpentFront(bytes: seq<Byte>, front: Byte, backBlank: nat)
    requires backBlank <= 8
    ensures QueueBits([front] + bytes, 8, backBlank) == RestBits(bytes, backBlank)
  {
  }

  /** Growing at the back: a new back byte follows bytes that are all full. */
  lemma {:induction false} RestBitsSnoc(bytes: seq<Byte>, back: Byte, backBlank: nat)
    requires backBlank <= 8
    ensures RestBits(bytes + [back], backBlank) == RestBits(bytes, 0) + ToBits(back, 8 - backBlank)
  {
    if |bytes| == 0 {
      assert bytes + [back] == [back];
    } else {
      RestBitsSnoc(bytes[1..], back, backBlank);
      assert (bytes + [back])[1..] == bytes[1..] + [back];
      if |bytes| == 1 {
        assert RestBits(bytes[1..] + [back], backBlank) == ToBits(back, 8 - backBlank);
      }
    }
  }

  lemma QueueBitsSnoc(bytes: seq<Byte>, back: Byte, frontBlank: nat, backBlank: nat)
    requires bytes != [] && frontBlank <= 8 && backBlank <= 8
    ensures QueueBits(bytes + [back], frontBlank, backBlank)
         == QueueBits(bytes, frontBlank, 0) + ToBits(back, 8 - backBlank)
  {
    RestBitsSnoc(bytes[1..], back, backBlank);
    assert (bytes + [back])[1..] == bytes[1..] + [back];
  }

  /** What `|=`-ing shifted data into a byte does to each of its bits. */
  lemma PlacedBit(back: Byte, full: nat, data: nat, i: nat)
    requires full < 8
    ensures Bit(Or(back, AsByte(Shl64(data, full))), i)
         == if i < full then Bit(back, i) else i < 8 && Bit(Or(data, Shr(back, full)), i - full)
  {
    hide Pow2, Bit, Low, Shl, Shr, Or;
    OrBit(back, AsByte(Shl64(data, full)), i);
    LowBit(Shl64(data, full), 8, i);
    LowBit(Shl(data, full), 64, i);
    ShlBit(data, full, i);
    if 8 <= i {
      Pow2Values();
      FitsBit(back, 8, i);
    }
    if full <= i {
      OrBit(data, Shr(back, full), i - full);
      ShrBit(back, full, i - full);
    }
  }

  /** Behind the live bits of the byte come those of the data, or-ed with what was astray there. */
  lemma PlaceBehind(back: Byte, full: nat, data: nat, added: nat)
    requires full < 8 && full + added <= 8
    ensures var r, behind := Or(back, AsByte(Shl64(data, full))), Or(data, Shr(back, full));
            && r < 256
            && ToBits(r, full + added) == ToBits(back, full) + ToBits(behind, added)
            && Shr(r, full + added) == Low(Shr(behind, added), 8 - full - added)
  {
    hide Pow2, Bit, Low, Shl, Shr, Or, Shl64, AsByte;
    var r, behind := Or(back, AsByte(Shl64(data, full))), Or(data, Shr(back, full));
    forall i: nat ensures Bit(r, i) == if i < full then Bit(back, i) else i < 8 && Bit(behind, i - full) {
      PlacedBit(back, full, data, i);
    }
    Pow2Values();
    BitsFit(r, 8);
    var left := 8 - full - added;
    forall i: nat ensures Bit(Shr(r, full + added), i) == Bit(Low(Shr(behind, added), left), i) {
      ShrBit(r, full + added, i);
      LowBit(Shr(behind, added), left, i);
      ShrBit(behind, added, i);
    }
    SameBits(Shr(r, full + added), Low(Shr(behind, added), left));
  }

  /** Past the bits that were astray, or-ing them in makes no difference. */
  lemma PastStray(data: nat, stray: nat, room: nat, k: nat)
    requires stray < Pow2(room) && room <= k
    ensures Shr(Or(data, stray), k) == Shr(data, k)
  {
    hide Pow2, Shr, Or;
    OrShr(data, stray, k);
    ShrGone(stray, room, k);
    OrZero(Shr(data, k));
  }

  /** Or-ing the same data in again makes no difference. */
  lemma PlacedTwice(data: nat, stray: nat, k: nat, room: nat)
    ensures var behind := Shr(Or(data, stray), k);
            Low(Or(Shr(data, k), Low(behind, room)), room) == Low(behind, room)
  {
    hide Bit, Low, Shr, Or;
    var behind := Shr(Or(data, stray), k);
    var again := Or(Shr(data, k), Low(behind, room));
    forall i: nat ensures Bit(Low(again, room), i) == Bit(Low(behind, room), i) {
      LowBit(again, room, i);
      LowBit(behind, room, i);
      OrBit(Shr(data, k), Low(behind, room), i);
      ShrBit(data, k, i);
      ShrBit(Or(data, stray), k, i);
      OrBit(data, stray, i + k);
    }
    SameBits(Low(again, room), Low(behind, room));
  }

  /** What masking `taken` bits off the low end of a byte and shifting the rest down yields. */
  lemma TakeLowBits(byte: Byte, live: nat, taken: nat)
    requires taken <= live <= 8
    ensures And(byte, AsByte(LowOrderOnes(taken))) < Pow2(taken)
    ensures ToBits(And(byte, AsByte(LowOrderOnes(taken))), taken) + ToBits(Shr(byte, taken), live - taken)
         == ToBits(byte, live)
    ensures Shr(byte, taken) < 256 && Shr(Shr(byte, taken), live - taken) == Shr(byte, live)
    ensures byte < Pow2(live) ==> Shr(byte, taken) < Pow2(live - taken)
  {
    hide Pow2, ToBits, Low, Shl, Shr, And, LowOrderOnes;
    LowOrderOnesAreOnes(taken);
    Pow2Monotone(taken, 8);
    LowOfFitting(Pow2(taken) - 1, 8);
    AndOnes(byte, taken);
    LowBits(byte, taken);
    SplitBits(byte, taken, live - taken);
    ShrShr(byte, taken, live - taken);
    Pow2Values();
    ShrFits(byte, taken, 8 - taken);
    Pow2Monotone(8 - taken, 8);
    if byte < Pow2(live) {
      ShrFits(byte, taken, live - taken);
    }
  }

  /** Accumulating a chunk taken from the queue above the `k` bits taken before it. */
  lemma Accumulate(sofar: nat, k: nat, chunk: nat, m: nat)
    requires sofar < Pow2(k) && chunk < Pow2(m)
    requires k < 64 && k + m <= 64
    ensures Or(sofar, Shl64(chunk, k)) < Pow2(k + m)
    ensures ToBits(Or(sofar, Shl64(chunk, k)), k + m) == ToBits(sofar, k) + ToBits(chunk, m)
  {
    JoinBits(sofar, k, chunk, m);
    ShlFits(chunk, k, m);
    Pow2Monotone(k + m, 64);
    LowOfFitting(Shl(chunk, k), 64);
  }

  /** A chunk taken off the front of what remains extends the part gathered so far. */
  lemma Gather(all: seq<bool>, sofar: nat, k: nat, chunk: nat, m: nat, rest: seq<bool>)
    requires sofar < Pow2(k) && chunk < Pow2(m)
    requires k < 64 && k + m <= 64
    requires all == ToBits(sofar, k) + (ToBits(chunk, m) + rest)
    ensures Or(sofar, Shl64(chunk, k)) < Pow2(k + m)
    ensures all == ToBits(Or(sofar, Shl64(chunk, k)), k + m) + rest
  {
    hide *;
    Accumulate(sofar, k, chunk, m);
  }

  /** The byte peeled off the low end of the data that is being added. */
  lemma NextByte(data: nat, done: nat)
    ensures ToBits(data, done + 8) == ToBits(data, done) + ToBits(AsByte(And(Shr(data, done), LowOrderOnes(8))), 8)
    ensures Shr(Shr(data, done), 8) == Shr(data, done + 8)
  {
    hide Pow2, Low, Shl, Shr, And, LowOrderOnes;
    var d := Shr(data, done);
    LowOrderOnesAreOnes(8);
    AndOnes(d, 8);
    LowOfFitting(Low(d, 8), 8);
    LowBits(d, 8);
    SplitBits(data, done, 8);
    ShrShr(data, done, 8);
  }

  /** The bits astray fit in the room there is for them; in a full byte there is none. */
  lemma StrayFits(back: Byte, blank: nat)
    requires blank <= 8
    ensures Shr(back, 8 - blank) < Pow2(blank)
    ensures blank == 0 ==> Shr(back, 8 - blank) == 0
  {
    hide Pow2, Shr;
    Pow2Values();
    ShrFits(back, 8 - blank, blank);
  }

  /** Where nothing was astray, the data is added as it is, and nothing goes astray if it fits. */
  lemma CleanAdd(data: nat, count: nat, room: nat)
    ensures Or(data, 0) == data
    ensures data < Pow2(count) ==> Low(Shr(data, count), room) == 0
  {
    hide Pow2, Shr, Or;
    OrZero(data);
    if data < Pow2(count) {
      ShrGone(data, count, count);
      LowOfFitting(0, room);
    }
  }

  class BitQueue {
    var backBlank: nat
    var byteQueue: seq<Byte>
    var frontBlank: nat

    /**
    The deque never becomes empty. It can shrink to a single byte, but only to an
    entirely consumed front byte behind which there is nothing left.
     */
    ghost predicate Valid()
      reads this
    {
      && frontBlank <= 8
      && backBlank <= 8
      && |byteQueue| >= 1
      && (|byteQueue| == 1 ==> frontBlank == 8 && backBlank == 0)
      && byteQueue[0] < Pow2(8 - frontBlank)
    }

    ghost function Contents(): (s: seq<bool>)
      requires Valid()
      reads this
    {
      QueueBits(byteQueue, frontBlank, backBlank)
    }

    /** What is in the blank bits of the back byte. */
    ghost function Stray(): (bits: nat)
      requires Valid()
      reads this
    {
      Shr(byteQueue[|byteQueue| - 1], 8 - backBlank)
    }

    /** Nothing is astray. */
    ghost predicate Clean()
      reads this
    {
      Valid() && Stray() == 0
    }

    constructor ()
      ensures Clean()
      ensures Contents() == []
    {
      ShrGone(0, 0, 0);
      backBlank := 8;
      byteQueue := [0, 0];
      frontBlank := 8;
    }

    method Len() returns (n: nat)
      requires Valid()
      ensures n == |Contents()|
    {
      QueueBitsLength(byteQueue, frontBlank, backBlank);
      n := |byteQueue| * 8 - backBlank - frontBlank;
    }

    method IsEmpty() returns (b: bool)
      requires Valid()
      ensures b <==> Contents() == []
    {
      var n := Len();
      b := n == 0;
    }

    /** `push_back(0)`, once the back byte is full. */
    method PushEmptyBack()
      requires Valid() && backBlank == 0
      modifies this
      ensures Clean() && backBlank == 8 && |byteQueue| >= 2
      ensures Contents() == old(Contents())
    {
      hide Pow2, Shr;
      QueueBitsSnoc(byteQueue, 0, frontBlank, 8);
      ShrZero(0);
      byteQueue := byteQueue + [0];
      backBlank := 8;
    }

    function BackFull(): (n: int)
      reads this
    {
      8 - backBlank
    }

    method AddSomeBackBits(bitData: nat, bitCount: nat) returns (bitsToAdd: nat)
      requires Valid()
      modifies this
      ensures Valid() && 0 < backBlank <= 8
      ensures var room := if old(backBlank) == 0 then 8 else old(backBlank);
              var behind := Or(bitData, old(Stray()));
              && bitsToAdd == Min(bitCount, room) <= 8
              && old(Stray()) < Pow2(room)
              && Contents() == old(Contents()) + ToBits(behind, bitsToAdd)
              && (bitsToAdd < room ==>
                    backBlank == room - bitsToAdd && Stray() == Low(Shr(behind, bitsToAdd), backBlank))
              && (bitsToAdd == room ==> backBlank == 8 && |byteQueue| >= 2 && Clean())
    {
      hide Pow2, ToBits, QueueBits, Shl, Shr, Low, Or, And, Shl64, LowOrderOnes, AsByte;
      StrayFits(byteQueue[|byteQueue| - 1], backBlank);
      if backBlank == 0 {
        PushEmptyBack();
      }
      bitsToAdd := Min(bitCount, backBlank);
      var full := BackFull();
      var last := |byteQueue| - 1;
      ghost var others, bits, back := byteQueue[..last], Contents(), byteQueue[last];
      assert byteQueue == others + [back];
      PlaceBehind(back, full, bitData, bitsToAdd);
      QueueBitsSnoc(others, back, frontBlank, backBlank);
      byteQueue := byteQueue[last := Or(byteQueue[last], AsByte(Shl64(bitData, full)))];
      backBlank := backBlank - bitsToAdd;
      assert byteQueue == others + [byteQueue[last]];
      QueueBitsSnoc(others, byteQueue[last], frontBlank, backBlank);
      assert Contents() == bits + ToBits(Or(bitData, Shr(back, full)), bitsToAdd);
      if backBlank == 0 {
        PushEmptyBack();
      }
    }

    method AddBackBytes(bitData: nat, bitCount: nat) returns (bitsAdded: nat)
      requires Valid()
      requires bitCount <= 64
      requires bitCount >= 8 ==> (backBlank == 8 || backBlank == 0) && |byteQueue| >= 2
      modifies this
      ensures Valid()
      ensures bitsAdded <= bitCount < bitsAdded + 8
      ensures bitsAdded > 0 ==> backBlank == 0 && Clean()
      ensures bitsAdded == 0 ==> unchanged(this)
      ensures Contents() == old(Contents()) + ToBits(bitData, bitsAdded)
    {
      hide Pow2, ToBits, QueueBits, Shl, Shr, Low, Or, And, Shl64, LowOrderOnes, AsByte;
      if bitCount < 8 {
        return 0;
      }
      ghost var bits := Contents();
      Pow2Values();
      if backBlank == 8 {
        assert byteQueue == byteQueue[..|byteQueue| - 1] + [byteQueue[|byteQueue| - 1]];
        QueueBitsSnoc(byteQueue[..|byteQueue| - 1], byteQueue[|byteQueue| - 1], frontBlank, 8);
        byteQueue := byteQueue[..|byteQueue| - 1];
        backBlank := 0;
      }
      var data, count := bitData, bitCount;
      ShrZero(bitData);
      while count >= 8
        invariant count <= bitCount
        invariant data == Shr(bitData, bitCount - count)
        invariant |byteQueue| >= 1 && backBlank == 0 && frontBlank <= 8
        invariant |byteQueue| == 1 ==> count == bitCount
        invariant byteQueue[0] < Pow2(8 - frontBlank)
        invariant QueueBits(byteQueue, frontBlank, 0) == bits + ToBits(bitData, bitCount - count)
      {
        var nextByte := AsByte(And(data, LowOrderOnes(8)));
        NextByte(bitData, bitCount - count);
        QueueBitsSnoc(byteQueue, nextByte, frontBlank, 0);
        byteQueue := byteQueue + [nextByte];
        data := Shr64(data, 8);
        count := count - 8;
      }
      bitsAdded := bitCount - count;
      StrayFits(byteQueue[|byteQueue| - 1], 0);
    }

    /**
    Appends the `bitCount` low-order bits of `bitData`, or-ed with what was astray. The
    bits of `bitData` above those go astray themselves, as far as there is room for them.
     */
    method AddBits(bitData: nat, bitCount: nat)
      requires Valid()
      requires bitCount <= 64
      modifies this
      ensures Valid() && 0 < backBlank <= 8
      ensures Contents() == old(Contents()) + ToBits(Or(bitData, old(Stray())), bitCount)
      ensures Stray() == Low(Shr(Or(bitData, old(Stray())), bitCount), backBlank)
      ensures old(Clean()) ==> Contents() == old(Contents()) + ToBits(bitData, bitCount)
      ensures old(Clean()) && bitData < Pow2(bitCount) ==> Clean()
    {
      hide Valid, Contents, Stray, Pow2, ToBits, Shr, Or, Low;
      ghost var stray := Stray();
      ghost var all := Or(bitData, stray);
      ghost var room := if backBlank == 0 then 8 else backBlank;
      var data, count := bitData, bitCount;
      var initialBitsAdded := AddSomeBackBits(data, count);
      SplitBits(all, initialBitsAdded, count - initialBitsAdded);
      data, count := Shr64(data, initialBitsAdded), count - initialBitsAdded;
      var byteBitsAdded := AddBackBytes(data, count);
      ghost var data', count' := data, count;
      data, count := Shr64(data, byteBitsAdded), count - byteBitsAdded;
      ghost var stray' := Stray();
      var finalBitsAdded := AddSomeBackBits(data, count);
      if initialBitsAdded < room {
        ShrZero(Shr(bitData, bitCount));
        ShrZero(Or(data, stray'));
        PlacedTwice(bitData, stray, bitCount, backBlank);
      } else {
        PastStray(bitData, stray, room, initialBitsAdded);
        OrZero(data);
        SplitBits(data', byteBitsAdded, count' - byteBitsAdded);
        ShrShr(data', byteBitsAdded, finalBitsAdded);
        ShrShr(all, initialBitsAdded, count');
      }
      data, count := Shr64(data, finalBitsAdded), count - finalBitsAdded;
      assert count == 0;
      CleanAdd(bitData, bitCount, backBlank);
    }

    function FrontFull(): (n: int)
      reads this
    {
      8 - frontBlank
    }

    /** `pop_front()`, once the front byte is used up and at least two more follow. */
    method PopSpentFront()
      requires Valid() && frontBlank == 8 && |byteQueue| > 2
      modifies this
      ensures Valid() && frontBlank == 0
      ensures |byteQueue| >= 2
      ensures Contents() == old(Contents()) && Stray() == old(Stray())
    {
      hide Pow2, ToBits, RestBits, QueueBits, Shr;
      Pow2Values();
      assert byteQueue == [byteQueue[0]] + byteQueue[1..];
      SpentFront(byteQueue[1..], byteQueue[0], backBlank);
      RestBitsCons(byteQueue[1..], backBlank);
      byteQueue := byteQueue[1..];
      frontBlank := 0;
    }

    method TakeSomeFrontBits(bitCount: nat) returns (bitData: nat, bitsToTake: nat)
      requires Valid()
      modifies this
      ensures Valid()
      ensures bitsToTake <= bitCount && bitsToTake <= 8
      ensures bitData < Pow2(bitsToTake)
      ensures old(Contents()) == ToBits(bitData, bitsToTake) + Contents()
      ensures bitsToTake < bitCount ==> (frontBlank == 8 && |byteQueue| <= 2) || (frontBlank == 0 && |byteQueue| >= 2)
      ensures old(frontBlank) == 0 && bitCount < 8 ==> bitsToTake == bitCount
      ensures old(frontBlank) == 8 && |old(byteQueue)| <= 2 ==> bitsToTake == 0 && unchanged(this)
      ensures Stray() == old(Stray())
    {
      hide Pow2, ToBits, RestBits, Shl, Shr, Low, Or, And, Shl64, LowOrderOnes, AsByte;
      if FrontFull() == 0 && |byteQueue| > 2 {
        PopSpentFront();
      }
      Pow2Values();
      bitsToTake := Min(bitCount, FrontFull());
      if bitsToTake == 0 {
        return 0, 0;
      }
      var front := byteQueue[0];
      TakeLowBits(front, FrontFull(), bitsToTake);
      bitData := And(front, AsByte(LowOrderOnes(bitsToTake)));
      byteQueue := byteQueue[0 := if bitsToTake < 8 then Shr8(front, bitsToTake) else 0];
      frontBlank := frontBlank + bitsToTake;
      if frontBlank == 8 && |byteQueue| > 2 {
        PopSpentFront();
      }
    }

    method TakeFrontBytes(bitCount: nat) returns (bitData: nat, bitsTaken: nat)
      requires Valid()
      requires bitCount <= 64
      requires bitCount <= |Contents()|
      requires bitCount >= 8 ==> frontBlank == 8 || frontBlank == 0
      modifies this
      ensures Valid()
      ensures bitsTaken <= bitCount < bitsTaken + 8
      ensures bitData < Pow2(bitsTaken)
      ensures old(Contents()) == ToBits(bitData, bitsTaken) + Contents()
      ensures Stray() == old(Stray())
      ensures bitsTaken == 0 ==> unchanged(this)
      ensures bitsTaken > 0 ==> (frontBlank == 8 && |byteQueue| <= 2) || (frontBlank == 0 && |byteQueue| >= 2)
    {
      hide Pow2, ToBits, RestBits, QueueBits, Shl, Shr, Low, Or, And, Shl64, LowOrderOnes, AsByte;
      Pow2Values();
      if bitCount < 8 {
        return 0, 0;
      }
      ghost var all := Contents();
      QueueBitsLength(byteQueue, frontBlank, backBlank);
      if frontBlank == 8 {
        assert byteQueue == [byteQueue[0]] + byteQueue[1..];
        SpentFront(byteQueue[1..], byteQueue[0], backBlank);
        byteQueue := byteQueue[1..];
        frontBlank := 0;
      } else {
        RestBitsCons(byteQueue, backBlank);
      }
      var count := bitCount;
      bitData := 0;
      while count >= 8
        invariant count <= bitCount <= |all|
        invariant frontBlank == 0 && backBlank == old(backBlank) <= 8
        invariant byteQueue != [] ==> byteQueue[|byteQueue| - 1] == old(byteQueue[|byteQueue| - 1])
        invariant byteQueue == [] ==> backBlank == 0
        invariant bitData < Pow2(bitCount - count)
        invariant all == ToBits(bitData, bitCount - count) + RestBits(byteQueue, backBlank)
      {
        RestBitsLength(byteQueue, backBlank);
        var byte := byteQueue[0];
        ghost var done := bitCount - count;
        RestBitsCons(byteQueue, backBlank);
        Gather(all, bitData, done, byte, 8, RestBits(byteQueue[1..], backBlank));
        bitData := Or(bitData, Shl64(byte, bitCount - count));
        byteQueue := byteQueue[1..];
        count := count - 8;
      }
      if |byteQueue| < 2 {
        SpentFront(byteQueue, 0, backBlank);
        StrayFits(old(byteQueue[|byteQueue| - 1]), backBlank);
        StrayFits(0, backBlank);
        byteQueue := [0] + byteQueue;
        frontBlank := 8;
      } else {
        RestBitsCons(byteQueue, backBlank);
      }
      bitsTaken := bitCount - count;
    }

    method TakeSomeBackBits(bitCount: nat) returns (bitData: nat, bitsToTake: nat)
      requires Valid()
      requires bitCount < 8
      requires bitCount > 0 ==> frontBlank == 8 && |byteQueue| <= 2
      requires bitCount <= |Contents()|
      modifies this
      ensures Valid()
      ensures bitsToTake == bitCount
      ensures bitData < Pow2(bitsToTake)
      ensures old(Contents()) == ToBits(bitData, bitsToTake) + Contents()
      ensures Stray() == old(Stray()) || Stray() == 0
    {
      hide Pow2, ToBits, RestBits, QueueBits, Shl, Shr, Low, Or, And, Shl64, LowOrderOnes, AsByte;
      Pow2Values();
      QueueBitsLength(byteQueue, frontBlank, backBlank);
      bitsToTake := Min(bitCount, BackFull());
      var remainingBits := BackFull() - bitsToTake;
      var mask := LowOrderOnes(bitsToTake);
      var last := |byteQueue| - 1;
      ghost var back, full := byteQueue[last], BackFull();
      TakeLowBits(back, full, bitsToTake);
      if bitsToTake == 0 {
        ShrZero(back);
      } else {
        assert byteQueue == [byteQueue[0]] + [back];
        QueueBitsSnoc([byteQueue[0]], back, 8, backBlank);
        QueueBitsLength([byteQueue[0]], 8, 0);
        QueueBitsSnoc([byteQueue[0]], Shr(back, bitsToTake), 8, backBlank + bitsToTake);
      }
      bitData := if remainingBits < 8 then And(byteQueue[last], AsByte(mask)) else 0;
      byteQueue := byteQueue[last := Shr8(byteQueue[last], bitsToTake)];
      backBlank := backBlank + bitsToTake;
      assert bitsToTake == 0 ==> byteQueue == old(byteQueue);
      assert bitsToTake > 0 ==> byteQueue == [byteQueue[0]] + [Shr(back, bitsToTake)];
      assert old(Contents()) == ToBits(bitData, bitsToTake) + Contents();
      if backBlank == 8 && |byteQueue| > 2 {
        assert byteQueue == byteQueue[..last] + [byteQueue[last]];
        QueueBitsSnoc(byteQueue[..last], byteQueue[last], frontBlank, 8);
        byteQueue := byteQueue[..last];
        backBlank := 0;
        StrayFits(byteQueue[|byteQueue| - 1], 0);
      }
    }

    /** Removes the first `bitCount` bits and returns them as a number, if there are that many. */
    method TakeBits(bitCount: nat) returns (r: Option<nat>)
      requires Valid()
      requires bitCount <= 64
      modifies this
      ensures Valid()
      ensures r.None? <==> bitCount > |old(Contents())|
      ensures r.None? ==> unchanged(this)
      ensures r.Some? ==> r.value == FromBits(old(Contents())[..bitCount]) < Pow2(bitCount)
      ensures r.Some? ==> Contents() == old(Contents())[bitCount..]
      ensures Stray() == old(Stray()) || Stray() == 0
    {
      hide *;
      var len := Len();
      if bitCount > len {
        return None;
      }
      ghost var all, stray := Contents(), Stray();
      var bitData, bitPosition, remaining := 0, 0, bitCount;
      Pow2Values();
      assert all == ToBits(bitData, bitPosition) + all;

      var initialData, initialCount := TakeSomeFrontBits(remaining);
      Gather(all, bitData, bitPosition, initialData, initialCount, Contents());
      bitData := Or(bitData, Shl64(initialData, bitPosition));
      bitPosition, remaining := bitPosition + initialCount, remaining - initialCount;

      var byteData, byteCount := TakeFrontBytes(remaining);
      assert Stray() == stray;
      Gather(all, bitData, bitPosition, byteData, byteCount, Contents());
      bitData := Or(bitData, Shl64(byteData, bitPosition));
      bitPosition, remaining := bitPosition + byteCount, remaining - byteCount;

      var frontData, frontCount := TakeSomeFrontBits(remaining);
      assert Stray() == stray;
      if frontCount > 0 {
        Gather(all, bitData, bitPosition, frontData, frontCount, Contents());
        bitData := Or(bitData, Shl64(frontData, bitPosition));
        bitPosition := bitPosition + frontCount;
      }
      remaining := remaining - frontCount;

      var backData, backCount := TakeSomeBackBits(remaining);
      assert Stray() == stray || Stray() == 0;
      if backCount > 0 {
        Gather(all, bitData, bitPosition, backData, backCount, Contents());
        bitData := Or(bitData, Shl64(backData, bitPosition));
        bitPosition := bitPosition + backCount;
      }
      remaining := remaining - backCount;
      assert bitPosition == bitCount;
      FromToBits(bitData, bitCount);
      r := Some(bitData);
    }
  }

  /** One bit of 3 with nothing astray, then one bit of 0 with the other bit of 3 astray. */
  lemma LeakedBits(room: nat)
    requires room > 0
    ensures FromBits([] + ToBits(Or(3, 0), 1) + ToBits(Or(0, Low(Shr(Or(3, 0), 1), room)), 1)) == 3
  {
  }

  /** Data above the bits announced comes out in the bits added next: one bit of 3 and one of 0 make 3. */
  method DirtyDataLeaks() returns (r: Option<nat>)
    ensures r == Some(3)
  {
    hide *;
    var queue := new BitQueue();
    queue.AddBits(3, 1);
    LeakedBits(queue.backBlank);
    queue.AddBits(0, 1);
    ghost var bits := queue.Contents();
    assert bits[..2] == bits;
    r := queue.TakeBits(2);
  }
}

/** Whole runs of the bit queue against a plain sequence of bits. */
module QueueRuns {
  import opened Options
  import opened Bits
  import opened BitQueues

  datatype Call = Add(data: nat, count: nat) | Take(count: nat)

  /** What callers owe the queue: at most 64 bits a call, and no data above the bits announced. */
  predicate Legal(call: Call)
  {
    call.count <= 64 && (call.Add? ==> call.data < Pow2(call.count))
  }

  /** The results of the `Take` calls on a plain FIFO that starts out holding `bits`. */
  function Fifo(calls: seq<Call>, bits: seq<bool>): (results: seq<Option<nat>>)
  {
    if calls == [] then []
    else match calls[0]
      case Add(data, count) => Fifo(calls[1..], bits + ToBits(data, count))
      case Take(count) =>
        if count > |bits| then [None] + Fifo(calls[1..], bits)
        else [Some(FromBits(bits[..count]))] + Fifo(calls[1..], bits[count..])
  }

  /** No run of legal calls can be told apart from a run on a plain FIFO. */
  method Run(calls: seq<Call>) returns (results: seq<Option<nat>>)
    requires forall call :: call in calls ==> Legal(call)
    ensures results == Fifo(calls, [])
  {
    hide ToBits, FromBits, Pow2, Shr, Or, Low;
    var queue := new BitQueue();
    results := [];
    for i := 0 to |calls|
      invariant fresh(queue) && queue.Clean()
      invariant Fifo(calls, []) == results + Fifo(calls[i..], queue.Contents())
    {
      hide BitQueue.Valid, BitQueue.Contents, BitQueue.Stray;
      assert Legal(calls[i]);
      assert calls[i..][1..] == calls[i + 1..];
      match calls[i] {
        case Add(data, count) =>
          queue.AddBits(data, count);
        case Take(count) =>
          var r := queue.TakeBits(count);
          results := results + [r];
      }
    }
  }
}

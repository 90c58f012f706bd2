/** The pair of a packet number and a 16-bit mask in a generic NACK (section 6.2.1 of RFC 4585):
    which numbers it asks for, and how many. */
module NackBitmask {
  import opened SeqArithmetic
  import opened Words

  function PopCount(mask: nat): nat {
    if mask == 0 then 0 else mask % 2 + PopCount(mask / 2)
  }

  /** The numbers still to be visited, in order, when the loop stands at `current`. */
  function RequestedFrom(requested: bool, mask: nat, current: Seq16): seq<Seq16>
    decreases mask, requested
  {
    if !requested && mask == 0 then []
    else (if requested then [current] else [])
         + RequestedFrom(mask % 2 == 1, mask / 2, Next16(current))
  }

  /** The numbers a NACK pair asks for. */
  function Requested(number: Seq16, mask: nat): seq<Seq16> {
    RequestedFrom(true, mask, number)
  }

  /** Numbers at increasing distances past the start, from `low` to 16. */
  ghost predicate AscendingFrom(numbers: seq<Seq16>, start: Seq16, low: nat) {
    && (forall k | 0 <= k < |numbers| :: low <= Sub16(numbers[k], start) <= 16)
    && (forall j, k | 0 <= j < k < |numbers| :: Sub16(numbers[j], start) < Sub16(numbers[k], start))
  }

  lemma ConsAscending(head: Seq16, rest: seq<Seq16>, start: Seq16)
    requires Sub16(head, start) <= 16 && AscendingFrom(rest, start, Sub16(head, start) + 1)
    ensures AscendingFrom([head] + rest, start, Sub16(head, start))
  {
  }

  lemma RequestedSplits(requested: bool, mask: nat, current: Seq16)
    ensures var rest := RequestedFrom(mask % 2 == 1, mask / 2, Next16(current));
            RequestedFrom(requested, mask, current)
            == if requested then [current] + rest else if mask != 0 then rest else []
  {
    var rest := RequestedFrom(mask % 2 == 1, mask / 2, Next16(current));
    assert [] + rest == rest;
  }

  lemma HalfMask(mask: nat, width: nat)
    requires mask < Pow2(width) && width > 0
    ensures mask / 2 < Pow2(width - 1)
  {
  }

  lemma NothingRequested(current: Seq16, start: Seq16, low: nat)
    ensures RequestedFrom(false, 0, current) == [] && AscendingFrom([], start, low)
  {
  }

  lemma LaterAscends(numbers: seq<Seq16>, start: Seq16, low: nat)
    requires AscendingFrom(numbers, start, low + 1)
    ensures AscendingFrom(numbers, start, low)
  {
  }

  /** From step i on, every visited number lies at least i past the start, in increasing order. */
  lemma {:induction false} RequestedAscends(requested: bool, mask: nat, current: Seq16, start: Seq16)
    requires Sub16(current, start) <= 16 && mask < Pow2(16 - Sub16(current, start))
    ensures AscendingFrom(RequestedFrom(requested, mask, current), start, Sub16(current, start))
    decreases mask, requested
  {
    RequestedSplits(requested, mask, current);
    if requested || mask != 0 {
      var rest := RequestedFrom(mask % 2 == 1, mask / 2, Next16(current));
      hide RequestedFrom, AscendingFrom;
      if Sub16(current, start) < 16 {
        HalfMask(mask, 16 - Sub16(current, start));
        hide Pow2;
        RequestedAscends(mask % 2 == 1, mask / 2, Next16(current), start);
      } else {
        NothingRequested(Next16(current), start, 17);
      }
      hide Pow2;
      assert AscendingFrom(rest, start, Sub16(current, start) + 1);
      if requested {
        ConsAscending(current, rest, start);
      } else {
        LaterAscends(rest, start, Sub16(current, start));
      }
    } else {
      NothingRequested(current, start, Sub16(current, start));
    }
  }

  lemma PowOf16()
    ensures Pow2(16) == 0x1_0000
  {
    assert Pow2(4) == 16;
    assert Pow2(8) == 256 by { assert Pow2(6) == 64; }
    assert Pow2(12) == 4096 by { assert Pow2(10) == 1024; }
    assert Pow2(14) == 16384;
  }

  lemma {:induction false} NoBitBeyond(mask: nat, k: nat, width: nat)
    requires mask < Pow2(width) && width <= k
    ensures !Bit(mask, k)
  {
    if width > 0 {
      NoBitBeyond(mask / 2, k - 1, width - 1);
    } else if k > 0 {
      NoBitBeyond(mask / 2, k - 1, 0);
    }
  }

  lemma {:induction false} RequestedMember(mask: nat, current: Seq16, start: Seq16, n: Seq16)
    requires Sub16(current, start) <= 16 && mask < Pow2(16 - Sub16(current, start))
    ensures n in RequestedFrom(mask % 2 == 1, mask / 2, Next16(current))
            <==> Sub16(current, start) < Sub16(n, start)
                 && Bit(mask, Sub16(n, start) - Sub16(current, start) - 1)
  {
    var i, d, next := Sub16(current, start), Sub16(n, start), Next16(current);
    assert n == next <==> d == i + 1;
    if i == 16 {
      if d > i {
        NoBitBeyond(0, d - i - 1, 0);
      }
    } else if mask / 2 != 0 {
      RequestedMember(mask / 2, next, start, n);
    } else if d > i + 1 {
      NoBitBeyond(0, d - i - 2, 0);
    }
  }

  /** Exactly the pair's number and the numbers 1 + k past it for the set bits k. */
  lemma RequestedExactly(number: Seq16, mask: nat, n: Seq16)
    requires mask < 0x1_0000
    ensures n in Requested(number, mask) <==> n == number || Bit(mask, Sub16(Sub16(n, number), 1))
  {
    PowOf16();
    RequestedMember(mask, number, number, n);
    assert Requested(number, mask) == [number] + RequestedFrom(mask % 2 == 1, mask / 2, Next16(number));
  }

  lemma {:induction false} RequestedLength(requested: bool, mask: nat, current: Seq16, width: nat)
    requires mask < Pow2(width)
    ensures |RequestedFrom(requested, mask, current)| <= width + 1
    decreases mask, requested
  {
    if (requested || mask != 0) && width > 0 {
      RequestedLength(mask % 2 == 1, mask / 2, Next16(current), width - 1);
    }
  }

  /** A pair asks for at most 17 numbers, none of them twice. */
  lemma RequestedIsBrief(number: Seq16, mask: Seq16)
    ensures var r := Requested(number, mask);
            |r| <= 17 && forall j, k | 0 <= j < k < |r| :: r[j] != r[k]
  {
    PowOf16();
    RequestedLength(true, mask, number, 16);
    RequestedAscends(true, mask, number, number);
  }

  lemma NextRequested(requested: bool, mask: nat, current: Seq16, all: seq<Seq16>, k: nat)
    requires requested && k <= |all| && RequestedFrom(requested, mask, current) == all[k..]
    ensures k < |all| && all[k] == current
    ensures RequestedFrom(mask % 2 == 1, mask / 2, Next16(current)) == all[k + 1..]
  {
    assert all[k..] == [current] + RequestedFrom(mask % 2 == 1, mask / 2, Next16(current));
    assert all[k..][0] == current;
    assert all[k..][1..] == all[k + 1..];
  }

  lemma SkipUnrequested(requested: bool, mask: nat, current: Seq16)
    requires !requested && mask != 0
    ensures RequestedFrom(requested, mask, current) == RequestedFrom(mask % 2 == 1, mask / 2, Next16(current))
  {
  }

  // ---------------------------------------------------------------- counting

  lemma {:induction false} CountFrom(requested: bool, mask: nat, current: Seq16)
    ensures |RequestedFrom(requested, mask, current)| == PopCount(mask) + if requested then 1 else 0
    decreases mask, requested
  {
    if requested || mask != 0 {
      CountFrom(mask % 2 == 1, mask / 2, Next16(current));
    }
  }

  /** The two bytes of a mask swapped, as a little-endian host holds it before `ntohs`. */
  function ByteSwap(mask: nat): nat
    requires mask < 0x1_0000
  {
    mask % 256 * 256 + mask / 256
  }

  /** `CountRequestedPackets`, which counts the bits of the mask in network byte order. */
  function CountRequestedPackets(networkMask: nat): nat {
    PopCount(networkMask) + 1
  }

  function ShiftLeft(value: nat, width: nat): nat {
    if width == 0 then value else 2 * ShiftLeft(value, width - 1)
  }

  lemma {:induction false} PopCountSplits(high: nat, low: nat, width: nat)
    requires low < Pow2(width)
    ensures PopCount(ShiftLeft(high, width) + low) == PopCount(high) + PopCount(low)
  {
    if width > 0 {
      var mask := ShiftLeft(high, width) + low;
      assert mask / 2 == ShiftLeft(high, width - 1) + low / 2 && mask % 2 == low % 2;
      PopCountSplits(high, low / 2, width - 1);
    }
  }

  lemma ShiftLeftByte(value: nat)
    ensures Pow2(8) == 256 && ShiftLeft(value, 8) == value * 256
  {
    assert ShiftLeft(value, 1) == value * 2 && Pow2(1) == 2;
    assert ShiftLeft(value, 3) == value * 8 && Pow2(3) == 8;
    assert ShiftLeft(value, 5) == value * 32 && Pow2(5) == 32;
    assert ShiftLeft(value, 7) == value * 128 && Pow2(7) == 128;
  }

  /** The loop visits as many numbers as `CountRequestedPackets` announces, whatever the byte
      order the count was taken in. */
  lemma CountIsByteOrderBlind(number: Seq16, mask: nat)
    requires mask < 0x1_0000
    ensures |Requested(number, mask)| == CountRequestedPackets(ByteSwap(mask))
  {
    hide PopCount, ShiftLeft, Pow2, RequestedFrom;
    CountFrom(true, mask, number);
    ShiftLeftByte(mask / 256);
    ShiftLeftByte(mask % 256);
    PopCountSplits(mask / 256, mask % 256, 8);
    PopCountSplits(mask % 256, mask / 256, 8);
  }
}

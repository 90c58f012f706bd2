/** The two SHA-1 implementations on streams of octets. */
module Sha1Digest {
  import opened Sha1
  import opened Sha1Schedule

  // ---------------------------------------------------------------- ws_sha1.cpp

  /** The four octets of a 32-bit number. */
  function SplitWord(n: nat): (r: seq<Octet>)
    requires n < 0x1_0000_0000
    ensures |r| == 4
  {
    [Low(n / 0x100_0000), Low(n / 0x1_0000), Low(n / 0x100), Low(n)]
  }

  /** The k lowest octets of a number, the highest first. */
  function BigEndian(n: nat, k: nat): seq<Octet> {
    if k == 0 then [] else BigEndian(n / 0x100, k - 1) + [Low(n)]
  }

  lemma QuarterShifts(n: nat)
    ensures n / 0x100 / 0x100 == n / 0x1_0000 && n / 0x1_0000 / 0x100 == n / 0x100_0000
    ensures n / 0x100_0000 / 0x100 == n / 0x1_0000_0000
  {
  }

  lemma FourOctets(n: nat)
    ensures BigEndian(n, 4) == [Low(n / 0x100_0000), Low(n / 0x1_0000), Low(n / 0x100), Low(n)]
  {
    hide Low;
    QuarterShifts(n);
    assert BigEndian(n / 0x100_0000, 1) == [Low(n / 0x100_0000)];
    assert BigEndian(n / 0x1_0000, 2) == [Low(n / 0x100_0000), Low(n / 0x1_0000)];
    assert BigEndian(n / 0x100, 3) == [Low(n / 0x100_0000), Low(n / 0x1_0000), Low(n / 0x100)];
  }

  lemma LastFour(n: nat, k: nat)
    ensures BigEndian(n, k + 4)
         == BigEndian(n / 0x1_0000_0000, k)
            + [Low(n / 0x100_0000), Low(n / 0x1_0000), Low(n / 0x100), Low(n)]
  {
    hide Low;
    QuarterShifts(n);
    assert BigEndian(n / 0x100_0000, k + 1) == BigEndian(n / 0x1_0000_0000, k) + [Low(n / 0x100_0000)];
    assert BigEndian(n / 0x1_0000, k + 2) == BigEndian(n / 0x100_0000, k + 1) + [Low(n / 0x1_0000)];
    assert BigEndian(n / 0x100, k + 3) == BigEndian(n / 0x1_0000, k + 2) + [Low(n / 0x100)];
  }

  lemma OctetsAppend(n: nat, k: nat)
    ensures BigEndian(n, k + 4) == BigEndian(n / 0x1_0000_0000, k) + BigEndian(n, 4)
  {
    hide Low, BigEndian;
    LastFour(n, k);
    FourOctets(n);
  }

  lemma HighOctets(n: nat)
    ensures n / 0x100_0000_0000_0000 == n / 0x1_0000_0000 / 0x100_0000
    ensures n / 0x1_0000_0000_0000 == n / 0x1_0000_0000 / 0x1_0000
    ensures n / 0x100_0000_0000 == n / 0x1_0000_0000 / 0x100
  {
  }

  /** Both ways of writing a length write its octets, the highest first. */
  lemma LengthsAreBigEndian(n: nat)
    ensures n < 0x1_0000_0000 ==> SplitWord(n) == BigEndian(n, 4)
    ensures n < 0x1_0000_0000_0000_0000 ==> Octets64(n) == BigEndian(n, 8)
  {
    hide Low, BigEndian;
    FourOctets(n);
    FourOctets(n / 0x1_0000_0000);
    OctetsAppend(n, 4);
    HighOctets(n);
  }

  lemma BlockBits(nblocks: nat) returns (high: nat, low: nat)
    requires nblocks < 0x1_0000_0000
    ensures nblocks == high * 0x400_0000 + low && high < 64 && low < 0x400_0000
    ensures nblocks / 0x400_0000 == high && nblocks * 64 % 0x1_0000_0000 == low * 64
    ensures high * 8 % 0x1_0000_0000 == high * 8
  {
    high, low := nblocks / 0x400_0000, nblocks % 0x400_0000;
    assert nblocks * 64 == high * 0x1_0000_0000 + low * 64;
  }

  lemma OctetBits(octets: nat) returns (high: nat, low: nat)
    requires octets < 0x1_0000_0000
    ensures octets * 8 == high * 0x1_0000_0000 + low && high < 8 && low < 0x1_0000_0000
    ensures octets / 0x2000_0000 == high && octets * 8 % 0x1_0000_0000 == low
    ensures octets % 0x1_0000_0000 == octets
  {
    high := octets / 0x2000_0000;
    low := octets % 0x2000_0000 * 8;
  }

  /** The number of bits in two 32-bit words, from the blocks and the octets counted. */
  method CountBits(nblocks: nat, count: nat) returns (msb: nat, lsb: nat)
    requires nblocks < 0x1_0000_0000 && count < 64
    ensures msb * 0x1_0000_0000 + lsb == 8 * (64 * nblocks + count)
    ensures msb < 0x1_0000_0000 && lsb < 0x1_0000_0000
  {
    ghost var blocksHigh, blocksLow := BlockBits(nblocks);
    ghost var octetsHigh, octetsLow := OctetBits(blocksLow * 64 + count);
    lsb := nblocks * 64 % 0x1_0000_0000;
    msb := nblocks / 0x400_0000;
    var t := lsb;
    lsb := (lsb + count) % 0x1_0000_0000;
    assert lsb == blocksLow * 64 + count;
    msb := msb + if lsb < t then 1 else 0;
    assert msb == blocksHigh;
    t := lsb;
    lsb := lsb * 8 % 0x1_0000_0000;
    // The three lowest bits are free after the shift.
    msb := msb * 8 % 0x1_0000_0000 + t / 0x2000_0000;
  }

  lemma LowAdds(k: nat, x: nat)
    ensures Low(k * 0x100 + x) == Low(x)
  {
    hide AsOctet;
    assert (k * 0x100 + x) % 256 == x % 256;
  }

  lemma LowOctets(high: nat, low: nat)
    requires low < 0x1_0000_0000
    ensures var n := high * 0x1_0000_0000 + low;
            && Low(n / 0x100_0000) == Low(low / 0x100_0000) && Low(n / 0x1_0000) == Low(low / 0x1_0000)
            && Low(n / 0x100) == Low(low / 0x100) && Low(n) == Low(low)
  {
    hide Low;
    var n := high * 0x1_0000_0000 + low;
    assert n / 0x100_0000 == high * 0x100 + low / 0x100_0000;
    LowAdds(high, low / 0x100_0000);
    assert n / 0x1_0000 == high * 0x1_0000 + low / 0x1_0000;
    LowAdds(high * 0x100, low / 0x1_0000);
    assert n / 0x100 == high * 0x100_0000 + low / 0x100;
    LowAdds(high * 0x1_0000, low / 0x100);
    LowAdds(high * 0x100_0000, low);
  }

  lemma OctetsOfHalves(high: nat, low: nat)
    requires high < 0x1_0000_0000 && low < 0x1_0000_0000
    ensures high * 0x1_0000_0000 + low < 0x1_0000_0000_0000_0000
    ensures SplitWord(high) + SplitWord(low) == Octets64(high * 0x1_0000_0000 + low)
  {
    var n := high * 0x1_0000_0000 + low;
    assert n / 0x1_0000_0000 == high && n % 0x1_0000_0000 == low;
    HighOctets(n);
    LowOctets(high, low);
  }

  lemma LengthWords(length: nat, nblocks: nat, count: nat)
    requires length == 64 * nblocks + count && length < 0x40_0000_0000
    ensures nblocks < 0x1_0000_0000
    ensures forall msb: nat, lsb: nat | msb < 0x1_0000_0000 && lsb < 0x1_0000_0000
              && msb * 0x1_0000_0000 + lsb == 8 * length ::
              SplitWord(msb) + SplitWord(lsb) == Octets64(8 * length)
  {
    forall msb: nat, lsb: nat | msb < 0x1_0000_0000 && lsb < 0x1_0000_0000
      && msb * 0x1_0000_0000 + lsb == 8 * length
      ensures SplitWord(msb) + SplitWord(lsb) == Octets64(8 * length)
    {
      OctetsOfHalves(msb, lsb);
    }
  }

  function OctetsOf(w: Word): (r: seq<Octet>)
    ensures |r| == 4
  {
    [(w >> 24) as Octet, ((w >> 16) & 0xff) as Octet, ((w >> 8) & 0xff) as Octet, (w & 0xff) as Octet]
  }

  /** The digest as octets, the highest of a word first. */
  function HashOctets(h: Registers): (r: seq<Octet>)
    ensures |r| == 20
  {
    OctetsOf(h.a) + OctetsOf(h.b) + OctetsOf(h.c) + OctetsOf(h.d) + OctetsOf(h.e)
  }

  /** One more block from the message into the hash value. */
  lemma BlockAbsorbed(h: Registers, message: seq<Octet>, n: nat)
    requires |message| >= 64 * n + 64
    ensures Absorb(h, message[..64 * (n + 1)])
         == Compress(Absorb(h, message[..64 * n]), message[64 * n..64 * n + 64])
  {
    hide Absorb, Compress;
    var a, b := message[..64 * n], message[64 * n..64 * n + 64];
    assert message[..64 * (n + 1)] == a + b;
    AbsorbAppends(h, a, b);
    AbsorbBlock(Absorb(h, a), b);
  }

  /** The last block, with the padding and the length in it, completes the digest. */
  lemma Sealed(message: seq<Octet>, padded: seq<Octet>, length: seq<Octet>, nblocks: nat)
    requires |message| < 0x40_0000_0000 && length == Octets64(8 * |message|)
    requires padded == message + [0x80] + Zeros(ZeroCount(|message|)) && |padded| == 64 * nblocks + 56
    ensures Compress(Absorb(INITIAL, padded[..64 * nblocks]), padded[64 * nblocks..] + length) == Digest(message)
  {
    hide Absorb, Compress;
    var all := padded + length;
    assert all == message + Padding(|message|);
    BlockAbsorbed(INITIAL, all, nblocks);
    assert all[..64 * nblocks] == padded[..64 * nblocks];
    assert all[64 * nblocks..64 * nblocks + 64] == padded[64 * nblocks..] + length;
    assert all[..64 * (nblocks + 1)] == all;
  }

  lemma ZeroMore(m: seq<Octet>, n: nat)
    ensures m + Zeros(n) + [0] == m + Zeros(n + 1)
  {
  }

  lemma Taken(message: seq<Octet>, rest: seq<Octet>, from: nat)
    requires |rest| > 0 && from <= |message|
    ensures message + rest == message + [rest[0]] + rest[1..]
    ensures (message + [rest[0]])[..from] == message[..from]
    ensures (message + [rest[0]])[from..] == message[from..] + [rest[0]]
  {
  }

  lemma BlockTaken(message: seq<Octet>, rest: seq<Octet>, from: nat)
    requires |rest| >= 64 && from == |message|
    ensures message + rest == message + rest[..64] + rest[64..]
    ensures (message + rest[..64])[..from] == message[..from]
    ensures (message + rest[..64])[from..from + 64] == rest[..64]
    ensures (message + rest[..64])[from + 64..] == []
  {
  }

  /** `SHA1_CONTEXT`. */
  class Sha1Context {
    var bFinal: bool
    var h: Registers
    var nblocks: nat
    var count: nat
    const buf: array<Octet>

    /** What has been written since the last reset. */
    ghost var message: seq<Octet>

    ghost predicate Valid()
      reads this, buf
    {
      && buf.Length == 64 && count <= 64
      && (!bFinal ==> Absorbing())
    }

    /** Whole blocks are in the hash value, the rest is in the buffer. */
    ghost predicate Absorbing()
      reads this, buf
    {
      && buf.Length == 64 && count <= 64 && |message| == 64 * nblocks + count
      && h == Absorb(INITIAL, message[..64 * nblocks])
      && buf[..count] == message[64 * nblocks..]
    }

    constructor ()
      ensures Valid() && !bFinal && message == [] && fresh(buf)
    {
      buf := new Octet[64](_ => 0);
      bFinal, h, nblocks, count, message := false, INITIAL, 0, 0, [];
    }

    method Reset()
      requires buf.Length == 64
      modifies this, buf
      ensures Absorbing() && !bFinal && message == [] && count == 0
    {
      bFinal, h, nblocks, count, message := false, INITIAL, 0, 0, [];
      forall k | 0 <= k < 64 {
        buf[k] := 0;
      }
    }

    /** `hash1_transform`. */
    method Transform(data: seq<Octet>)
      requires |data| == 64
      modifies this`h
      ensures h == Compress(old(h), data)
    {
      var r := Rotate80(WsSha1, h, data);
      h := Plus(h, r);
    }

    /** `hash1_write` with nothing to write: empties a full buffer. */
    method Flush()
      requires Absorbing()
      modifies this`h, this`nblocks, this`count
      ensures Absorbing() && count < 64
      ensures if old(count) == 64 then count == 0 && nblocks == old(nblocks) + 1
              else count == old(count) && nblocks == old(nblocks) && h == old(h)
    {
      if count == 64 {
        hide Absorb, Compress;
        BlockAbsorbed(INITIAL, message, nblocks);
        assert message[64 * nblocks..] == message[64 * nblocks..64 * nblocks + 64];
        assert message[64 * (nblocks + 1)..] == [];
        assert buf[..] == buf[..64];
        Transform(buf[..]);
        count := 0;
        nblocks := nblocks + 1;
      }
    }

    /** Copies octets into the buffer until it is full or there are no more. */
    method Fill(data: seq<Octet>) returns (rest: seq<Octet>)
      requires Absorbing()
      modifies this`count, this`message, buf
      ensures Absorbing() && message + rest == old(message) + data
      ensures |rest| == 0 || count == 64
      ensures count == if old(count) + |data| < 64 then old(count) + |data| else 64
    {
      hide Absorb;
      rest := data;
      while |rest| > 0 && count < 64
        invariant Absorbing() && message + rest == old(message) + data
        invariant count + |rest| == old(count) + |data|
        decreases |rest|
      {
        Taken(message, rest, 64 * nblocks);
        buf[count] := rest[0];
        count := count + 1;
        message := message + [rest[0]];
        rest := rest[1..];
      }
    }

    /** Hashes whole blocks straight from the data. */
    method TakeBlocks(data: seq<Octet>) returns (rest: seq<Octet>)
      requires Absorbing() && count == 0
      modifies this`h, this`nblocks, this`message
      ensures Absorbing() && count == 0 && message + rest == old(message) + data && |rest| < 64
    {
      hide Absorb, Compress;
      rest := data;
      while |rest| >= 64
        invariant Absorbing() && count == 0 && message + rest == old(message) + data
        decreases |rest|
      {
        ghost var block := rest[..64];
        BlockAbsorbed(INITIAL, message + block, nblocks);
        BlockTaken(message, rest, 64 * nblocks);
        Transform(rest[..64]);
        nblocks := nblocks + 1;
        message := message + block;
        rest := rest[64..];
      }
    }

    /** `hash1_write`. */
    method Write(data: seq<Octet>)
      requires Valid()
      modifies this, buf
      ensures Valid() && !bFinal
      ensures message == (if old(bFinal) then [] else old(message)) + data
    {
      if bFinal {
        Reset();
      }
      hide Absorb;
      ghost var before := message;
      Flush();
      var rest := data;
      if count > 0 {
        rest := Fill(rest);
        Flush();
        if |rest| == 0 {
          assert message + rest == message;
          return;
        }
      }
      rest := TakeBlocks(rest);
      rest := Fill(rest);
      assert rest == [] && message + rest == message;
    }

    /** Puts the pad character and zeros up to a place in the buffer. */
    method PadTo(limit: nat)
      requires Absorbing() && count < limit <= 64
      modifies this`count, this`message, buf
      ensures Absorbing() && count == limit
      ensures message == old(message) + [0x80] + Zeros(limit - old(count) - 1)
    {
      ghost var m, c := message + [0x80], count + 1;
      assert m == m + Zeros(0);
      hide Absorb, Zeros;
      Put(0x80);
      while count < limit
        invariant Absorbing() && c <= count <= limit && message == m + Zeros(count - c)
      {
        ZeroMore(m, count - c);
        Put(0);
      }
    }

    method Put(x: Octet)
      requires Absorbing() && count < 64
      modifies this`count, this`message, buf
      ensures Absorbing() && count == old(count) + 1 && message == old(message) + [x]
    {
      hide Absorb;
      Taken(message, [x], 64 * nblocks);
      buf[count] := x;
      count := count + 1;
      message := message + [x];
    }

    /** The padding up to the length, which is to fill the last eight octets of the buffer. */
    method PadBlock() returns (ghost padded: seq<Octet>)
      requires Absorbing() && count < 64
      modifies this`h, this`nblocks, this`count, this`message, buf
      ensures padded == old(message) + [0x80] + Zeros(ZeroCount(|old(message)|))
      ensures |padded| == 64 * nblocks + 56 && h == Absorb(INITIAL, padded[..64 * nblocks])
      ensures buf[..56] == padded[64 * nblocks..] && count <= 64
    {
      hide Absorb;
      assert |message| % 64 == count;
      if count < 56 {
        PadTo(56);
        padded := message;
      } else {
        ghost var m, c := message, count;
        PadTo(64);
        Flush();
        forall k | 0 <= k < 56 {
          buf[k] := 0;
        }
        padded := message + Zeros(56);
        assert padded == m + [0x80] + Zeros(119 - c);
        assert padded[..64 * nblocks] == message[..64 * nblocks];
        assert buf[..56] == Zeros(56) == padded[64 * nblocks..];
      }
    }

    /** `hash1_final`: the digest, in the hash value and as octets at the start of the buffer; after a
        digest that of the empty message. */
    method Final()
      requires Valid() && (!bFinal ==> |message| < 0x40_0000_0000)
      modifies this, buf
      ensures Valid() && bFinal && message == if old(bFinal) then [] else old(message)
      ensures h == Digest(message) && buf[..20] == HashOctets(h)
    {
      if bFinal {
        Reset();
      }
      Finish();
    }

    method Finish()
      requires Valid() && !bFinal && |message| < 0x40_0000_0000
      modifies this, buf
      ensures Valid() && bFinal && message == old(message)
      ensures h == Digest(message) && buf[..20] == HashOctets(h)
    {
      hide Absorb, Compress, HashOctets, SplitWord, Octets64;
      ghost var m := message;
      Flush();
      LengthWords(|m|, nblocks, count);
      var msb, lsb := CountBits(nblocks, count);
      ghost var padded := PadBlock();
      CopyIn(56, SplitWord(msb) + SplitWord(lsb));
      Sealed(m, padded, SplitWord(msb) + SplitWord(lsb), nblocks);
      assert buf[..] == buf[..56] + buf[56..64];
      Transform(buf[..]);
      CopyIn(0, HashOctets(h));
      bFinal := true;
      message := m;
    }

    /** Writes octets into the buffer at a place. */
    method CopyIn(at: nat, octets: seq<Octet>)
      requires buf.Length == 64 && at + |octets| <= 64
      modifies buf
      ensures buf[at..at + |octets|] == octets && buf[..at] == old(buf[..at])
    {
      for k := 0 to |octets|
        invariant buf[..at] == old(buf[..at])
        invariant forall j | 0 <= j < k :: buf[at + j] == octets[j]
      {
        buf[at + k] := octets[k];
      }
    }
  }

  // ---------------------------------------------------------------- sha1.hpp

  lemma ZerosToGo(m: seq<Octet>, length: nat, n: nat)
    requires |m| == length + 1 && n <= ZeroCount(length)
    ensures |m + Zeros(n)| % 64 == 56 <==> n == ZeroCount(length)
  {
  }

  lemma PaddedInFull(message: seq<Octet>, octets: seq<Octet>)
    requires |message| < 0x2000_0000_0000_0000
    requires octets == message + [0x80] + Zeros(ZeroCount(|message|)) + Octets64(8 * |message|)
    ensures octets == message + Padding(|message|) && octets[..|octets| - 0] == octets
  {
    hide Octets64, Zeros;
  }

  lemma LongHasEight(n: nat)
    requires n < 0x1_0000_0000_0000_0000
    ensures |Octets64(n)| == 8
  {
  }

  lemma OctetTaken(h: Registers, octets: seq<Octet>, i: nat, x: Octet)
    requires i < 64 && |octets| % 64 == i
    ensures (octets + [x])[..|octets| - i] == octets[..|octets| - i]
    ensures (octets + [x])[|octets| - i..] == octets[|octets| - i..] + [x]
    ensures i == 63 ==>
              Absorb(h, octets + [x])
              == Compress(Absorb(h, octets[..|octets| - i]), octets[|octets| - i..] + [x])
  {
    hide Absorb, Compress;
    if i == 63 {
      BlockAbsorbed(h, octets + [x], |octets| / 64);
      assert (octets + [x])[..|octets| + 1] == octets + [x];
      assert (octets + [x])[|octets| - i..|octets| - i + 64] == octets[|octets| - i..] + [x];
    }
  }

  class Sha1Stream {
    var state: Registers
    const buf: array<Octet>
    var i: nat
    var nBits: nat

    /** All octets taken in, those of the padding included. */
    ghost var octets: seq<Octet>

    ghost predicate Valid()
      reads this`state, this`i, this`octets, buf
    {
      && buf.Length == 64 && i < 64 && |octets| % 64 == i
      && state == Absorb(INITIAL, octets[..|octets| - i])
      && buf[..i] == octets[|octets| - i..]
    }

    /** Nothing but the message has been taken in. */
    ghost predicate Counting()
      reads this`nBits, this`octets
    {
      nBits == 8 * |octets|
    }

    constructor ()
      ensures Valid() && Counting() && octets == [] && fresh(buf)
    {
      buf := new Octet[64](_ => 0);
      state, i, nBits, octets := INITIAL, 0, 0, [];
    }

    method ProcessBlock(block: seq<Octet>)
      requires |block| == 64
      modifies this`state
      ensures state == Compress(old(state), block)
    {
      var r := Rotate80(Sha1Hpp, state, block);
      state := Plus(state, r);
    }

    method AddByteDontCountBits(x: Octet)
      requires Valid()
      modifies this`state, this`i, this`octets, buf
      ensures Valid() && octets == old(octets) + [x]
    {
      hide Absorb, Compress;
      OctetTaken(INITIAL, octets, i, x);
      buf[i] := x;
      i := i + 1;
      octets := octets + [x];
      if i >= 64 {
        i := 0;
        assert buf[..] == buf[..64] == octets[|octets| - 64..];
        ProcessBlock(buf[..]);
        assert octets[|octets| - 0..] == [] && octets[..|octets| - 0] == octets;
      }
    }

    method AddByte(x: Octet)
      requires Valid() && Counting() && |octets| + 1 < 0x2000_0000_0000_0000
      modifies this`state, this`i, this`octets, this`nBits, buf
      ensures Valid() && Counting() && octets == old(octets) + [x]
    {
      hide Valid;
      AddByteDontCountBits(x);
      nBits := (nBits + 8) % 0x1_0000_0000_0000_0000;
    }

    /** `add` of a run of octets: up to a whole block, by whole blocks, and the rest. */
    method Add(data: seq<Octet>)
      requires Valid() && Counting() && |octets| + |data| < 0x2000_0000_0000_0000
      modifies this`state, this`i, this`octets, this`nBits, buf
      ensures Valid() && Counting() && octets == old(octets) + data
    {
      hide Absorb, Compress;
      var rest := data;
      while |rest| > 0 && i % 64 != 0
        invariant Valid() && Counting() && octets + rest == old(octets) + data
        decreases |rest|
      {
        Taken(octets, rest, 0);
        AddByte(rest[0]);
        rest := rest[1..];
      }
      rest := AddBlocks(rest);
      while |rest| > 0
        invariant Valid() && Counting() && octets + rest == old(octets) + data
        decreases |rest|
      {
        Taken(octets, rest, 0);
        AddByte(rest[0]);
        rest := rest[1..];
      }
      assert octets + rest == octets;
    }

    method AddBlocks(data: seq<Octet>) returns (rest: seq<Octet>)
      requires Valid() && Counting() && |octets| + |data| < 0x2000_0000_0000_0000
      requires |data| > 0 ==> i == 0
      modifies this`state, this`octets, this`nBits
      ensures Valid() && Counting() && octets + rest == old(octets) + data
      ensures |rest| < 64
    {
      hide Absorb, Compress;
      rest := data;
      while |rest| >= 64
        invariant Valid() && Counting() && octets + rest == old(octets) + data
        invariant |data| > 0 ==> i == 0
        decreases |rest|
      {
        ghost var block := rest[..64];
        BlockTaken(octets, rest, |octets|);
        BlockAbsorbed(INITIAL, octets + block, |octets| / 64);
        assert octets[..|octets|] == octets && (octets + block)[..|octets| + 64] == octets + block;
        ProcessBlock(rest[..64]);
        nBits := (nBits + 512) % 0x1_0000_0000_0000_0000;
        octets := octets + block;
        rest := rest[64..];
      }
    }

    /** The digest is the state once the padding has gone through as well. */
    method Finalize()
      requires Valid() && Counting() && |octets| < 0x2000_0000_0000_0000
      modifies this`state, this`i, this`octets, buf
      ensures Valid() && i == 0
      ensures octets == old(octets) + Padding(|old(octets)|) && state == Digest(old(octets))
    {
      hide Absorb, Compress, Octets64, Zeros;
      ghost var m := octets;
      AddByteDontCountBits(0x80);
      AddZeros(|m|);
      AddLength(8 * |m|);
      PaddedInFull(m, octets);
    }

    /** Whether there are zeros to go shows in the place in the buffer. */
    lemma ZerosLeft(m: seq<Octet>, length: nat, n: nat)
      requires Valid() && octets == m + Zeros(n) && |m| == length + 1 && n <= ZeroCount(length)
      ensures i % 64 != 56 <==> n < ZeroCount(length)
      ensures n == ZeroCount(length) ==> i == 56
    {
      ZerosToGo(m, length, n);
      hide Zeros, ZeroCount;
    }

    /** Zeros up to where the length goes. */
    method AddZeros(ghost length: nat)
      requires Valid() && |octets| == length + 1
      modifies this`state, this`i, this`octets, buf
      ensures Valid() && i == 56 && octets == old(octets) + Zeros(ZeroCount(length))
    {
      ghost var m, n, target := octets, 0, ZeroCount(length);
      assert m == m + Zeros(0);
      hide Valid, Zeros, ZeroCount;
      ZerosLeft(m, length, 0);
      while i % 64 != 56
        invariant Valid() && octets == m + Zeros(n) && n <= target
        invariant (i % 64 != 56 <==> n < target) && (n == target ==> i == 56)
        decreases target - n
      {
        ZeroMore(m, n);
        AddByteDontCountBits(0x00);
        n := n + 1;
        ZerosLeft(m, length, n);
      }
    }

    /** The number of bits, the highest octet first. */
    method AddLength(ghost length: nat)
      requires Valid() && i == 56 && nBits == length < 0x1_0000_0000_0000_0000
      modifies this`state, this`i, this`octets, buf
      ensures Valid() && i == 0 && octets == old(octets) + Octets64(length)
    {
      hide Absorb, Low, Octets64;
      var shifted := Octets64(nBits);
      LongHasEight(nBits);
      for j := 0 to 8
        invariant Valid() && octets == old(octets) + shifted[..j]
        invariant i == if j < 8 then 56 + j else 0
      {
        AddByteDontCountBits(shifted[j]);
      }
    }
  }

  function Joined(pieces: seq<seq<Octet>>): seq<Octet> {
    if |pieces| == 0 then [] else pieces[0] + Joined(pieces[1..])
  }

  lemma JoinedSplits(pieces: seq<seq<Octet>>, k: nat)
    requires k < |pieces|
    ensures Joined(pieces[k..]) == pieces[k] + Joined(pieces[k + 1..])
  {
    assert pieces[k..][1..] == pieces[k + 1..];
  }

  lemma WholeJoined(pieces: seq<seq<Octet>>)
    ensures [] + Joined(pieces[0..]) == Joined(pieces)
  {
    assert pieces[0..] == pieces;
  }

  lemma NothingJoined(pieces: seq<seq<Octet>>)
    ensures Joined(pieces[|pieces|..]) == []
  {
  }

  /** A message written piece by piece. */
  method DigestByContext(pieces: seq<seq<Octet>>) returns (digest: Registers)
    requires |Joined(pieces)| < 0x40_0000_0000
    ensures digest == Digest(Joined(pieces))
  {
    hide Absorb, Compress, Digest, Joined;
    WholeJoined(pieces);
    var context := new Sha1Context();
    for k := 0 to |pieces|
      invariant fresh(context) && fresh(context.buf) && context.Valid() && !context.bFinal
      invariant context.message + Joined(pieces[k..]) == Joined(pieces)
    {
      JoinedSplits(pieces, k);
      context.Write(pieces[k]);
    }
    NothingJoined(pieces);
    assert context.message == Joined(pieces);
    context.Final();
    digest := context.h;
  }

  /** A message added piece by piece. */
  method DigestByStream(pieces: seq<seq<Octet>>) returns (digest: Registers)
    requires |Joined(pieces)| < 0x2000_0000_0000_0000
    ensures digest == Digest(Joined(pieces))
  {
    hide *;
    WholeJoined(pieces);
    var stream := new Sha1Stream();
    for k := 0 to |pieces|
      invariant fresh(stream) && fresh(stream.buf) && stream.Valid() && stream.Counting()
      invariant stream.octets + Joined(pieces[k..]) == Joined(pieces)
    {
      JoinedSplits(pieces, k);
      ghost var before, later := stream.octets, Joined(pieces[k + 1..]);
      assert |before| + |pieces[k]| + |later| == |Joined(pieces)|;
      stream.Add(pieces[k]);
      assert before + (pieces[k] + later) == stream.octets + later;
    }
    NothingJoined(pieces);
    assert stream.octets == Joined(pieces);
    stream.Finalize();
    digest := stream.state;
  }

  /** The digest's octets are its words, the highest octet first. */
  lemma OctetsAreTheWord(w: Word)
    ensures WordAt(OctetsOf(w), 0) == w
  {
  }
}

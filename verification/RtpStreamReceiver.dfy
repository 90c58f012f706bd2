/** A received stream: validation and counting, with the NACK generator behind it. */
module RtpStreamReceiver {
  import opened SeqArithmetic
  import opened Words
  import opened RtpStream
  import opened NackTracking
  import opened NackRuns
  import opened NackGenerator

  // ---------------------------------------------------------------- runs

  /** Reception of packets given by the numbers their sender counts with. */
  function Received(numbers: seq<int>): Reception {
    if |numbers| == 0 then NOTHING
    else Judge(Received(numbers[..|numbers| - 1]), Wrap16(numbers[|numbers| - 1])).0
  }

  function Highest(numbers: seq<int>): int
    requires |numbers| > 0
  {
    var n := numbers[|numbers| - 1];
    if |numbers| == 1 then n
    else
      var h := Highest(numbers[..|numbers| - 1]);
      if n > h then n else h
  }

  /** Every packet is less than 1500 behind and less than 3000 ahead of the highest before it. */
  predicate Gated(numbers: seq<int>) {
    forall k | 1 <= k < |numbers| ::
      Highest(numbers[..k]) - MAX_MISORDER < numbers[k] < Highest(numbers[..k]) + MAX_DROPOUT
  }

  lemma {:induction false} HighestIsHighest(numbers: seq<int>)
    requires |numbers| > 0
    ensures Highest(numbers) in numbers && forall n | n in numbers :: n <= Highest(numbers)
  {
    var n := |numbers|;
    if n > 1 {
      HighestIsHighest(numbers[..n - 1]);
      assert numbers == numbers[..n - 1] + [numbers[n - 1]];
    }
  }

  lemma Ahead(highest: int, r: int, n: int, shift: int)
    requires highest == r + shift && shift % SEQ_MOD == 0 && highest - MAX_MISORDER < n < highest + MAX_DROPOUT
    ensures Sub16(Wrap16(n), Wrap16(r)) == if n >= highest then n - highest else n - highest + SEQ_MOD
  {
    var k := shift / SEQ_MOD;
    assert r == highest - k * SEQ_MOD;
    assert Wrap16(r) == Wrap16(highest);
  }

  lemma WholeCycles(n: int)
    ensures (n - Wrap16(n)) % SEQ_MOD == 0
  {
  }

  /** As long as no packet is too early or too late, the stream's count is that of numbers that never
      wrap, across any number of wraps; only what the first number sets it to can be off. */
  lemma {:induction false} CountsAcrossWraps(numbers: seq<int>)
    requires |numbers| > 0 && Gated(numbers)
    ensures var r := Received(numbers);
            && r.started && r.first == Wrap16(numbers[0])
            && r.highest - r.first == Highest(numbers) - numbers[0] >= 0
            && r.excess == (if r.first == 0 then SEQ_MOD else 0)
            && r.discarded == 0
  {
    var n := |numbers|;
    WholeCycles(numbers[0]);
    hide Wrap16, Sub16;
    if n == 1 {
      assert Received(numbers[..0]) == NOTHING;
    } else {
      var before := numbers[..n - 1];
      forall k | 1 <= k < |before|
        ensures Highest(before[..k]) - MAX_MISORDER < before[k] < Highest(before[..k]) + MAX_DROPOUT
      {
        assert before[..k] == numbers[..k];
      }
      CountsAcrossWraps(before);
      var r := Received(before);
      Ahead(Highest(before), r.highest, numbers[n - 1], numbers[0] - r.first);
    }
  }

  /** The expected count by the stream's own account. */
  function Expected(r: Reception): Ts32 {
    Wrap32(r.highest - r.first + 1 + r.excess)
  }

  lemma CycleShows(x: int)
    ensures Wrap32(x + SEQ_MOD) != Wrap32(x)
  {
    var low := Wrap32(x);
    assert Wrap32(x + SEQ_MOD) == if low + SEQ_MOD < TS_MOD then low + SEQ_MOD else low + SEQ_MOD - TS_MOD;
  }

  lemma ExpectedShows(r: Reception, span: int)
    requires r.highest - r.first == span && r.excess == if r.first == 0 then SEQ_MOD else 0
    ensures Expected(r) == Wrap32(span + 1) <==> r.first != 0
  {
    CycleShows(span + 1);
  }

  /** The expected count is that of the sender's numbers exactly when the first of them is not 0 on
      the wire: a stream that starts at 0 is counted a whole cycle too long. */
  lemma ExpectedExactly(numbers: seq<int>)
    requires |numbers| > 0 && Gated(numbers)
    ensures var r := Received(numbers);
            Expected(r) == Wrap32(Highest(numbers) - numbers[0] + 1) <==> Wrap16(numbers[0]) != 0
  {
    hide Expected, Wrap32, Wrap16;
    CountsAcrossWraps(numbers);
    ExpectedShows(Received(numbers), Highest(numbers) - numbers[0]);
  }

  // ---------------------------------------------------------------- the receiver

  lemma Wrap32Adds(a: int, b: int)
    ensures Wrap32(Wrap32(a) + b) == Wrap32(a + b)
  {
  }

  /** An accepted packet is the newest by the stream's count exactly when it is by the circular
      comparator, and it is then near. */
  lemma JudgedNewest(r: Reception, number: Seq16)
    ensures r.started ==>
              var last, newest, verdict := Wrap16(r.highest), Wrap16(Judge(r, number).0.highest), Judge(r, number).1;
              && (verdict == Accepted ==> newest == if SeqLower(number, last) then last else number)
              && (verdict == Accepted && !SeqLower(number, last) ==> Sub16(number, last) <= MAX_JUMP)
              && (verdict == Resynced ==> newest == number)
    ensures !r.started ==> Judge(r, number).1 == Accepted && Wrap16(Judge(r, number).0.highest) == number
    ensures Judge(r, number).0.started
  {
    CyclesGrow(r.highest, r.excess, number);
  }

  class RtpStreamReceiver {
    const stream: RtpStream
    const nackGenerator: NackGenerator?

    constructor (useNack: bool, sendNackDelayMs: nat)
      ensures Valid() && stream.reception == NOTHING && fresh(stream)
      ensures if useNack then nackGenerator != null && fresh(nackGenerator) else nackGenerator == null
    {
      stream := new RtpStream();
      if useNack {
        nackGenerator := new NackGenerator(sendNackDelayMs);
      } else {
        nackGenerator := null;
      }
    }

    /** The generator's newest number is the stream's. */
    ghost predicate Valid()
      reads this, stream, nackGenerator
    {
      && stream.Valid()
      && (nackGenerator != null ==>
            && nackGenerator.Valid() && nackGenerator.started == stream.started
            && (stream.started ==> nackGenerator.lastSeq == stream.maxSeq))
    }

    /** `GetExpectedPackets`. */
    function GetExpectedPackets(): Ts32
      reads stream
    {
      Wrap32(Wrap32(stream.cycles + stream.maxSeq) - stream.baseSeq + 1)
    }

    /** The expected count is that of the numbers between first and highest, plus what the cycle count
        was off by when the stream last synchronised. */
    lemma ExpectedCounts()
      requires Valid() && stream.started
      ensures GetExpectedPackets() == Expected(stream.reception)
    {
      var r := stream.reception;
      Wrap32Adds(r.excess + Cycles(r.highest), Wrap16(r.highest));
      Wrap32Adds(r.excess + r.highest, 1 - r.first);
    }

    /** In every run of the receiver each request was right to be made, and at most the tenth. */
    lemma RequestsAreRight()
      requires Valid() && nackGenerator != null && !nackGenerator.atZero
      ensures Timely(nackGenerator.notes)
      ensures forall u :: TimesAsked(nackGenerator.notes, u) <= 10
    {
      nackGenerator.RequestsAreRight();
    }

    /** Whether the generator can follow a packet: a re-synchronisation must go forward, and not so far
        that numbers more than half a circle apart would be held in its ordered containers. */
    ghost predicate Followed(number: Seq16)
      reads stream, nackGenerator
    {
      nackGenerator == null || Judge(stream.reception, number).1 != Resynced
      || (!SeqLower(number, nackGenerator.lastSeq) && Sub16(number, nackGenerator.lastSeq) <= MAX_JUMP)
    }

    /** `ReceivePacket`, up to the transmission counter and the listener. */
    method ReceivePacket(number: Seq16, timestamp: Ts32, nowMs: nat)
      returns (ok: bool, found: bool, asked: seq<Seq16>, keyFrameRequired: bool)
      requires Valid() && Followed(number)
      requires nackGenerator != null ==> nackGenerator.clock <= nowMs
      modifies stream, nackGenerator
      ensures Valid()
      ensures var (next, verdict) := Judge(old(stream.reception), number);
              stream.reception == next && (ok <==> verdict != Discarded)
      ensures !ok || nackGenerator == null ==> !found && asked == [] && !keyFrameRequired
      ensures !ok && nackGenerator != null ==> unchanged(nackGenerator)
      ensures ok && nackGenerator != null ==>
                var g := nackGenerator;
                var o := Receive(old(g.tracker), old(g.NumberOf(number)), g.AtTime(nowMs));
                && g.tracker == o.next && g.clock == nowMs && found == o.found
                && asked == WrappedNumbers(o.asked) && keyFrameRequired == o.keyFrameRequired
                && g.notes == old(g.notes) + Step(old(g.tracker), Packet(old(g.NumberOf(number))), g.AtTime(nowMs)).1
    {
      found, asked, keyFrameRequired := false, [], false;
      JudgedNewest(stream.reception, number);
      hide Judge, Receive, Step, Kept, SeqLower, Sub16, Wrap16;
      ok := stream.ReceiveStreamPacket(number, timestamp, nowMs);
      if !ok {
        return;
      }
      if nackGenerator != null {
        found, asked, keyFrameRequired := nackGenerator.ReceivePacket(number, nowMs);
      }
    }
  }

  /** A re-synchronisation keeps the two newest numbers equal exactly when it goes forward. */
  lemma ResyncCouplesExactly(r: Reception, t: Tracker, number: Seq16, at: Moment)
    requires r.started && t.started && Wrap16(t.top) == Wrap16(r.highest)
    requires Judge(r, number).1 == Resynced
    ensures var last := Wrap16(t.top);
            var n := if SeqLower(number, last) then t.top - Sub16(last, number) else t.top + Sub16(number, last);
            Wrap16(Receive(t, n, at).next.top) == Wrap16(Judge(r, number).0.highest)
            <==> !SeqLower(number, last)
  {
    var last := Wrap16(t.top);
    if !SeqLower(number, last) {
      WrapAdd(t.top, Sub16(number, last));
    }
  }

  /** A run that parts them: packet 10000, then 5000, taken for a stray, and 5001, which confirms it. */
  lemma BackwardResyncParts(at: Moment)
    ensures var (r1, v1) := Judge(NOTHING, 10000);
            var (r2, v2) := Judge(r1, 5000);
            var (r3, v3) := Judge(r2, 5001);
            var t := Receive(Tracker(false, 0, [], []), 10000, at).next;
            && v1 == Accepted && v2 == Discarded && v3 == Resynced
            && r3.highest == 5001 && Receive(t, 5001, at).next.top == 10000
  {
    assert Wrap16(10000) == 10000;
  }
}

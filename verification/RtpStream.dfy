/** Validation and counting of received sequence numbers (Appendices A.1 and A.3 of RFC 3550). */
module RtpStream {
  import opened SeqArithmetic
  import opened Words

  const MAX_DROPOUT: nat := 3000
  const MAX_MISORDER: nat := 1500
  const NO_BAD_SEQ: nat := 65537

  datatype Verdict = Accepted | Resynced | Discarded

  /** Reception with numbers that never wrap: the first packet since the last synchronisation, the
      highest one, and what the cycle count was then beyond what it should have been. */
  datatype Reception =
    Reception(started: bool, first: Seq16, highest: int, excess: int, bad: nat, discarded: nat)

  const NOTHING := Reception(false, 0, 0, 0, 0, 0)

  /** The whole cycles below a number. */
  function Cycles(n: int): (c: int)
    ensures n >= 0 ==> c >= 0
    ensures c == n - Wrap16(n)
  {
    n / SEQ_MOD * SEQ_MOD
  }

  /** What becomes of a packet, as a matter of numbers that never wrap. */
  function Judge(r: Reception, number: Seq16): (Reception, Verdict) {
    var ahead := Sub16(number, Wrap16(r.highest));
    if !r.started then
      (Reception(true, number, number, if number == 0 then SEQ_MOD else 0, NO_BAD_SEQ, r.discarded), Accepted)
    else if ahead < MAX_DROPOUT then (r.(highest := r.highest + ahead), Accepted)
    else if ahead > SEQ_MOD - MAX_MISORDER then (r, Accepted)
    else if number == r.bad then
      (Reception(true, number, number, r.excess + Cycles(r.highest), NO_BAD_SEQ, r.discarded), Resynced)
    else (r.(bad := Next16(number), discarded := r.discarded + 1), Discarded)
  }

  /** The verdict on a packet by its true number, the one from 1499 below the highest up to 64036 above it:
      fewer than 3000 above is the next highest one, below is late, and everything else is a stray, discarded
      unless it comes right after the last stray. */
  lemma VerdictExactly(r: Reception, n: int)
    requires r.started && -1500 < n - r.highest <= 64036
    ensures var (next, verdict) := Judge(r, Wrap16(n));
            var ahead := n - r.highest;
            && (verdict == Accepted <==> ahead < 3000)
            && (verdict == Resynced <==> ahead >= 3000 && Wrap16(n) == r.bad)
            && (verdict == Accepted ==> next == r.(highest := if ahead >= 0 then n else r.highest))
            && (verdict == Resynced ==>
                  && next.first == next.highest == Wrap16(n)
                  && next.discarded == r.discarded && next.bad == 65537)
            && (verdict == Discarded ==>
                  && next == r.(bad := Wrap16(n + 1), discarded := r.discarded + 1)
                  && (ahead < 64036 ==> Judge(next, Wrap16(n + 1)).1 == Resynced))
  {
    var d := Sub16(Wrap16(n), Wrap16(r.highest));
    assert d == if n >= r.highest then n - r.highest else n - r.highest + 0x1_0000;
    assert Next16(Wrap16(n)) == Wrap16(n + 1);
    assert n >= r.highest ==> Sub16(Wrap16(n + 1), Wrap16(r.highest)) == (n + 1 - r.highest) % 0x1_0000;
  }

  predicate Sensible(r: Reception) {
    r.started ==> r.first - 1 <= r.highest
  }

  /** How the first packet is made to look like the successor of one before it. */
  function BeforeFirst(r: Reception, number: Seq16): Reception {
    Reception(true, number, number - 1, if number == 0 then SEQ_MOD else 0, NO_BAD_SEQ, r.discarded)
  }

  lemma FirstIsInOrder(r: Reception, number: Seq16)
    requires !r.started
    ensures Judge(BeforeFirst(r, number), number) == Judge(r, number)
    ensures var before := BeforeFirst(r, number);
            Wrap32(before.excess + Cycles(before.highest)) == 0 && Wrap16(before.highest) == Wrap16(number - 1)
  {
  }

  /** A wrap is seen as a lower number, and adds a cycle. */
  lemma CyclesGrow(highest: int, excess: int, number: Seq16)
    ensures var ahead := Sub16(number, Wrap16(highest));
            && Wrap16(highest + ahead) == number
            && Cycles(highest + ahead) == Cycles(highest) + (if number < Wrap16(highest) then SEQ_MOD else 0)
            && Wrap32(Wrap32(excess + Cycles(highest)) + SEQ_MOD) == Wrap32(excess + Cycles(highest) + SEQ_MOD)
            && Cycles(number) == 0
  {
  }

  class RtpStream {
    var started: bool
    var maxSeq: Seq16
    var cycles: Ts32
    var baseSeq: nat
    var badSeq: nat
    var maxPacketTs: Ts32
    var maxPacketMs: nat
    var packetsDiscarded: nat
    ghost var reception: Reception

    ghost predicate Valid()
      reads this
    {
      && Sensible(reception)
      && started == reception.started && packetsDiscarded == reception.discarded
      && badSeq == reception.bad
      && (!started ==> cycles == 0 && reception.excess == 0)
      && (started ==>
            && maxSeq == Wrap16(reception.highest) && baseSeq == reception.first
            && cycles == Wrap32(reception.excess + Cycles(reception.highest)))
    }

    constructor ()
      ensures Valid() && reception == NOTHING
    {
      started, maxSeq, cycles, baseSeq, badSeq := false, 0, 0, 0, 0;
      maxPacketTs, maxPacketMs, packetsDiscarded := 0, 0, 0;
      reception := NOTHING;
    }

    method InitSequence(number: Seq16)
      modifies this`baseSeq, this`maxSeq, this`badSeq
      ensures baseSeq == number && maxSeq == number && badSeq == NO_BAD_SEQ
    {
      baseSeq, maxSeq, badSeq := number, number, NO_BAD_SEQ;
    }

    /** `UpdateSequence` once a first packet has been seen. */
    method UpdateSequence(number: Seq16, timestamp: Ts32, nowMs: nat) returns (ok: bool)
      requires Valid() && started
      modifies this
      ensures Valid() && started
      ensures var (next, verdict) := Judge(old(reception), number);
              && reception == next && (ok <==> verdict != Discarded)
              && (if verdict == Resynced then maxPacketTs == timestamp && maxPacketMs == nowMs
                  else maxPacketTs == old(maxPacketTs) && maxPacketMs == old(maxPacketMs))
    {
      ghost var r := reception;
      CyclesGrow(r.highest, r.excess, number);
      reception := Judge(r, number).0;
      var udelta := Sub16(number, maxSeq);
      if udelta < MAX_DROPOUT {
        if number < maxSeq {
          cycles := Wrap32(cycles + SEQ_MOD);
        }
        maxSeq := number;
      } else if udelta <= SEQ_MOD - MAX_MISORDER {
        if number == badSeq {
          InitSequence(number);
          maxPacketTs, maxPacketMs := timestamp, nowMs;
        } else {
          badSeq := Wrap16(number + 1);
          packetsDiscarded := packetsDiscarded + 1;
          return false;
        }
      }
      ok := true;
    }

    /** `ReceiveStreamPacket`. */
    method ReceiveStreamPacket(number: Seq16, timestamp: Ts32, nowMs: nat) returns (ok: bool)
      requires Valid()
      modifies this
      ensures Valid() && started
      ensures var (next, verdict) := Judge(old(reception), number);
              && reception == next && (ok <==> verdict != Discarded)
              && (verdict == Resynced || !old(started) ==> maxPacketTs == timestamp && maxPacketMs == nowMs)
              && (verdict == Accepted && old(started) ==>
                    if TsHigher(timestamp, old(maxPacketTs)) then maxPacketTs == timestamp && maxPacketMs == nowMs
                    else maxPacketTs == old(maxPacketTs) && maxPacketMs == old(maxPacketMs))
    {
      if !started {
        FirstIsInOrder(reception, number);
        InitSequence(number);
        started := true;
        maxSeq := Wrap16(number - 1);
        maxPacketTs, maxPacketMs := timestamp, nowMs;
        reception := BeforeFirst(reception, number);
      }
      ok := UpdateSequence(number, timestamp, nowMs);
      if !ok {
        return;
      }
      if TsHigher(timestamp, maxPacketTs) {
        maxPacketTs, maxPacketMs := timestamp, nowMs;
      }
    }
  }
}

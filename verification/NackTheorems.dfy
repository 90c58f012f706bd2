/** What every run of the NACK generator keeps: bounds on its list, when it asks for a key frame, and
    how often and when it asks for a packet. */
module NackTheorems {
  import opened SeqArithmetic
  import opened NackTracking

  // ---------------------------------------------------------------- one batch

  /** An entry once it has been looked at for a batch. */
  function Updated(m: Missing, filter: NackFilter, at: Moment): Missing {
    if Due(m, filter, at) then m.(retries := m.retries + 1, sentAtMs := at.nowMs) else m
  }

  predicate Survives(m: Missing, filter: NackFilter, at: Moment) {
    Due(m, filter, at) ==> m.retries + 1 < MAX_NACK_RETRIES
  }

  /** Where an entry of the list after a batch comes from. */
  predicate Stems(x: Missing, missing: seq<Missing>, filter: NackFilter, at: Moment) {
    exists m | m in missing :: Survives(m, filter, at) && x == Updated(m, filter, at)
  }

  lemma TailAscends(missing: seq<Missing>)
    requires |missing| > 0 && Ascending(Numbers(missing))
    ensures Numbers(missing) == [missing[0].number] + Numbers(missing[1..])
    ensures Ascending(Numbers(missing[1..]))
    ensures forall u | u in Numbers(missing[1..]) :: missing[0].number < u
  {
    var tail := Numbers(missing[1..]);
    assert tail == Numbers(missing)[1..];
    forall u | u in tail ensures missing[0].number < u {
      var k :| 0 <= k < |tail| && tail[k] == u;
      assert Numbers(missing)[0] < Numbers(missing)[k + 1] == u;
    }
  }

  lemma PrependAscends(n: int, tail: seq<int>)
    requires Ascending(tail) && forall u | u in tail :: n < u
    ensures Ascending([n] + tail)
  {
    forall j | 0 <= j < |tail| ensures n < tail[j] {
      assert tail[j] in tail;
    }
  }

  lemma NumbersHold(missing: seq<Missing>, m: Missing)
    requires m in missing
    ensures m.number in Numbers(missing)
  {
    var k :| 0 <= k < |missing| && missing[k] == m;
    assert Numbers(missing)[k] == m.number;
  }

  /** A batch holds, in order, exactly the numbers that are due. */
  lemma {:induction false} BatchIsDue(missing: seq<Missing>, filter: NackFilter, at: Moment)
    requires Ascending(Numbers(missing))
    ensures var batch := Batch(missing, filter, at);
            && Ascending(batch)
            && (forall m | m in missing :: m.number in batch <==> Due(m, filter, at))
            && (forall u | u in batch :: u in Numbers(missing))
  {
    if |missing| > 0 {
      hide Due, Ascending;
      TailAscends(missing);
      BatchIsDue(missing[1..], filter, at);
      var first, tail := missing[0], Batch(missing[1..], filter, at);
      PrependAscends(first.number, tail);
      forall m | m in missing ensures m.number in Batch(missing, filter, at) <==> Due(m, filter, at) {
        if m in missing[1..] {
          NumbersHold(missing[1..], m);
        } else {
          assert m == first;
        }
      }
    }
  }

  /** The list after a batch holds exactly the entries that survive it, brought up to date. */
  lemma {:induction false} AfterBatchIsUpdated(missing: seq<Missing>, filter: NackFilter, at: Moment)
    requires Ascending(Numbers(missing))
    ensures var after := AfterBatch(missing, filter, at);
            && Ascending(Numbers(after)) && |after| <= |missing|
            && (forall u | u in Numbers(after) :: u in Numbers(missing))
            && (forall m | m in missing && Survives(m, filter, at) :: Updated(m, filter, at) in after)
            && (forall x | x in after :: Stems(x, missing, filter, at))
  {
    if |missing| > 0 {
      hide Due, Ascending;
      TailAscends(missing);
      AfterBatchIsUpdated(missing[1..], filter, at);
      var first, tail := missing[0], AfterBatch(missing[1..], filter, at);
      var after := AfterBatch(missing, filter, at);
      assert missing == [first] + missing[1..];
      assert after == (if Survives(first, filter, at) then [Updated(first, filter, at)] else []) + tail;
      assert Numbers(after) == (if Survives(first, filter, at) then [first.number] else []) + Numbers(tail);
      PrependAscends(first.number, Numbers(tail));
      forall x | x in after ensures Stems(x, missing, filter, at) {
        if x in tail {
          assert Stems(x, missing[1..], filter, at);
        } else {
          assert first in missing && x == Updated(first, filter, at);
        }
      }
    }
  }

  // ---------------------------------------------------------------- listing

  predicate Within(missing: seq<Missing>, low: int, end: int) {
    forall k | 0 <= k < |missing| :: low <= missing[k].number < end
  }

  /** An entry of the list is an old one as it was, or a skipped packet. */
  predicate OldOrNew(m: Missing, before: seq<Missing>, first: int, end: int, nowMs: nat) {
    m in before || (first <= m.number < end && m == Missing(m.number, nowMs, 0, 0))
  }

  lemma AppendNew(kept: seq<Missing>, first: int, end: int, nowMs: nat)
    requires first <= end && Ascending(Numbers(kept)) && forall k | 0 <= k < |kept| :: kept[k].number < first
    ensures Ascending(Numbers(kept + NewlyMissing(first, end, nowMs)))
    ensures forall m | m in kept + NewlyMissing(first, end, nowMs) :: OldOrNew(m, kept, first, end, nowMs)
  {
    var all := kept + NewlyMissing(first, end, nowMs);
    assert forall k | 0 <= k < |kept| :: Numbers(all)[k] == Numbers(kept)[k] == kept[k].number;
    assert forall k | |kept| <= k < |all| :: Numbers(all)[k] == first + (k - |kept|);
  }

  /** The key frames at hand when the list is extended: in order, the new packet's number last. */
  predicate FramesUpTo(keyFrames: seq<int>, number: int) {
    && Ascending(keyFrames) && |keyFrames| > 0 && keyFrames[|keyFrames| - 1] == number
    && forall k | 0 <= k < |keyFrames| :: number - MAX_PACKET_AGE <= keyFrames[k]
  }

  lemma DropKeepsBounds(missing: seq<Missing>, n: int, end: int)
    requires Ascending(Numbers(missing)) && forall k | 0 <= k < |missing| :: missing[k].number < end
    ensures var r := DropBelow(missing, n);
            && Ascending(Numbers(r)) && Within(r, n, end) && |r| <= |missing|
            && forall m | m in r :: m in missing
  {
    DropBelowKeeps(missing, n);
    var r := DropBelow(missing, n);
    forall k | 0 <= k < |r| ensures n <= r[k].number < end {
      assert r[k] in r && r[k] in missing;
    }
  }

  predicate Suffix(a: seq<int>, b: seq<int>) {
    |a| <= |b| && a == b[|b| - |a|..]
  }

  lemma ExtendedBy(kept: seq<Missing>, missing: seq<Missing>, first: int, end: int, nowMs: nat)
    requires first <= end <= first + MAX_NACK_PACKETS && Ascending(Numbers(kept))
    requires Within(kept, end - MAX_PACKET_AGE, first) && forall m | m in kept :: m in missing
    ensures var r := kept + NewlyMissing(first, end, nowMs);
            && Ascending(Numbers(r)) && Within(r, end - MAX_PACKET_AGE, end)
            && forall m | m in r :: OldOrNew(m, missing, first, end, nowMs)
  {
    AppendNew(kept, first, end, nowMs);
    forall m | m in kept + NewlyMissing(first, end, nowMs)
      ensures OldOrNew(m, missing, first, end, nowMs)
    {
      assert OldOrNew(m, kept, first, end, nowMs);
    }
  }

  /** Extending the list: it stays in order, recent and within 1000 entries, no entry changes, and a
      key frame is asked for exactly when the new gap alone is more than 1000 packets. */
  lemma ExtendedList(missing: seq<Missing>, keyFrames: seq<int>, first: int, end: int, nowMs: nat)
    requires first <= end && Ascending(Numbers(missing)) && FramesUpTo(keyFrames, end)
    requires forall k | 0 <= k < |missing| :: missing[k].number < first
    ensures var r := AddPackets(missing, keyFrames, first, end, nowMs);
            && (r.keyFrameRequired <==> end - first > MAX_NACK_PACKETS)
            && (r.keyFrameRequired ==> r.missing == [] && r.keyFrames == [])
            && Ascending(Numbers(r.missing)) && |r.missing| <= MAX_NACK_PACKETS
            && Within(r.missing, end - MAX_PACKET_AGE, end)
            && (forall m | m in r.missing :: OldOrNew(m, missing, first, end, nowMs))
            && Suffix(r.keyFrames, keyFrames)
  {
    hide DropBelow, Shrunk, NewlyMissing;
    var recent := DropBelow(missing, end - MAX_PACKET_AGE);
    var added := end - first;
    DropKeepsBounds(missing, end - MAX_PACKET_AGE, first);
    if |recent| + added <= MAX_NACK_PACKETS {
      assert keyFrames == keyFrames[0..];
      ExtendedBy(recent, missing, first, end, nowMs);
    } else {
      OverflowExactly(recent, keyFrames, added);
      ShrunkIsFirstFitting(recent, keyFrames, added);
      var i := FirstFitting(recent, keyFrames, added);
      assert [] == keyFrames[|keyFrames|..];
      if added <= MAX_NACK_PACKETS {
        var n := keyFrames[if i < |keyFrames| then i else i - 1];
        DropKeepsBounds(recent, n, first);
        ExtendedBy(DropBelow(recent, n), missing, first, end, nowMs);
      }
    }
  }

  // ---------------------------------------------------------------- one packet

  function FramesWith(keyFrames: seq<int>, number: int): seq<int> {
    var added := keyFrames + [number];
    added[FirstFrom(added, number - MAX_PACKET_AGE, 0)..]
  }

  lemma FramesReady(keyFrames: seq<int>, number: int)
    requires Ascending(keyFrames) && forall k | 0 <= k < |keyFrames| :: keyFrames[k] < number
    ensures FramesUpTo(FramesWith(keyFrames, number), number)
  {
    var added := keyFrames + [number];
    var i := FirstFrom(added, number - MAX_PACKET_AGE, 0);
    assert added[|keyFrames|] == number && i <= |keyFrames|;
    hide FirstFrom;
    assert Ascending(added);
    SuffixAscends(added, i);
    forall k | 0 <= k < |added| - i ensures number - MAX_PACKET_AGE <= added[i..][k] {
      assert k > 0 ==> added[i] < added[i + k];
    }
  }

  /** The list as a newer packet leaves it, before the batch that goes with it. */
  function Extended(t: Tracker, number: int, nowMs: nat): Listing
    requires t.top < number
  {
    AddPackets(t.missing, FramesWith(t.keyFrames, number), t.top + 1, number, nowMs)
  }

  lemma SuffixOfFrames(frames: seq<int>, rest: seq<int>, number: int)
    requires FramesUpTo(frames, number) && Suffix(rest, frames)
    ensures Ascending(rest) && forall k | 0 <= k < |rest| :: number - MAX_PACKET_AGE <= rest[k] <= number
  {
    SuffixAscends(frames, |frames| - |rest|);
    assert forall k | 0 <= k < |rest| :: rest[k] == frames[|frames| - |rest| + k];
  }

  lemma ExtendedIsSound(t: Tracker, number: int, nowMs: nat)
    requires Sound(t) && t.started && t.top < number
    ensures var r := Extended(t, number, nowMs);
            && Sound(Tracker(true, number, r.missing, r.keyFrames))
            && (r.keyFrameRequired <==> number - t.top - 1 > MAX_NACK_PACKETS)
            && (r.keyFrameRequired ==> r.missing == [])
            && (forall m | m in r.missing :: OldOrNew(m, t.missing, t.top + 1, number, nowMs))
  {
    hide AddPackets, FramesWith, OldOrNew, FramesUpTo, Suffix;
    var frames := FramesWith(t.keyFrames, number);
    FramesReady(t.keyFrames, number);
    ExtendedList(t.missing, frames, t.top + 1, number, nowMs);
    SuffixOfFrames(frames, Extended(t, number, nowMs).keyFrames, number);
  }

  lemma AfterBatchIsSound(t: Tracker, filter: NackFilter, at: Moment)
    requires Sound(t)
    ensures Sound(t.(missing := AfterBatch(t.missing, filter, at)))
  {
    AfterBatchIsUpdated(t.missing, filter, at);
    var after := AfterBatch(t.missing, filter, at);
    forall k | 0 <= k < |after| ensures t.top - MAX_PACKET_AGE <= after[k].number < t.top {
      NumbersHold(after, after[k]);
      var j :| 0 <= j < |t.missing| && Numbers(t.missing)[j] == after[k].number;
    }
  }

  lemma RemovedMember(missing: seq<Missing>, i: nat, m: Missing)
    requires i < |missing| && Ascending(Numbers(missing)) && m in missing
    ensures m in missing[..i] + missing[i + 1..] <==> m.number != missing[i].number
  {
    var r := missing[..i] + missing[i + 1..];
    var k :| 0 <= k < |missing| && missing[k] == m;
    assert Numbers(missing)[k] == m.number && Numbers(missing)[i] == missing[i].number;
    if k != i {
      assert r[if k < i then k else k - 1] == m;
    } else {
      forall j | 0 <= j < |r| ensures r[j] != m {
        assert Numbers(missing)[if j < i then j else j + 1] == r[j].number;
      }
    }
  }

  /** One entry taken out: the numbers stay in order, and exactly its number is gone. */
  lemma RemovedOne(missing: seq<Missing>, i: nat)
    requires i < |missing| && Ascending(Numbers(missing))
    ensures var r := missing[..i] + missing[i + 1..];
            && Ascending(Numbers(r)) && |r| == |missing| - 1
            && (forall m | m in r :: m in missing)
            && forall m | m in missing :: m in r <==> m.number != missing[i].number
  {
    var r := missing[..i] + missing[i + 1..];
    forall j, k | 0 <= j < k < |r| ensures Numbers(r)[j] < Numbers(r)[k] {
      var a, b := if j < i then j else j + 1, if k < i then k else k + 1;
      assert r[j] == missing[a] && r[k] == missing[b];
      assert Numbers(missing)[a] < Numbers(missing)[b];
    }
    forall m | m in missing ensures m in r <==> m.number != missing[i].number {
      RemovedMember(missing, i, m);
    }
  }

  lemma RemovedIsSound(t: Tracker, i: nat)
    requires Sound(t) && i < |t.missing|
    ensures Sound(t.(missing := t.missing[..i] + t.missing[i + 1..]))
    ensures forall m | m in t.missing :: m in t.missing[..i] + t.missing[i + 1..] <==> m.number != t.missing[i].number
  {
    RemovedOne(t.missing, i);
    hide Ascending, Numbers;
    var r := t.missing[..i] + t.missing[i + 1..];
    forall k | 0 <= k < |r| ensures t.top - MAX_PACKET_AGE <= r[k].number < t.top {
      assert r[k] in t.missing;
    }
  }

  /** In every state a run can reach, the list is in order, holds at most 1000 numbers, all of them
      lower than the highest and at most 10000 behind it; and a packet brings a request for a key
      frame exactly when it leaves a gap of more than 1000 packets. */
  lemma ReceiveKeepsSound(t: Tracker, number: int, at: Moment)
    requires Sound(t)
    ensures Sound(Receive(t, number, at).next)
    ensures Receive(t, number, at).keyFrameRequired
            <==> t.started && number - t.top - 1 > 1000
    ensures var next := Receive(t, number, at).next;
            |next.missing| <= 1000 && forall k | 0 <= k < |next.missing| ::
              next.top - 10000 <= next.missing[k].number < next.top
  {
    hide AddPackets, AfterBatch, Batch;
    if t.started && number < t.top {
      var i := FirstFrom(Numbers(t.missing), number, 0);
      if i < |t.missing| {
        RemovedIsSound(t, i);
      }
    } else if t.started && number > t.top {
      ExtendedIsSound(t, number, at.nowMs);
      var r := Extended(t, number, at.nowMs);
      AfterBatchIsSound(Tracker(true, number, r.missing, r.keyFrames), BySeq, at);
    }
  }
}

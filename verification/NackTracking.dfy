/** What the NACK generator keeps track of, on sequence numbers that never wrap. `NackGenerator` does
    the same on 16-bit numbers under the circular comparator. */
module NackTracking {
  import opened SeqArithmetic

  const MAX_PACKET_AGE: nat := 10000
  const MAX_NACK_PACKETS: nat := 1000
  const DEFAULT_RTT: nat := 100
  const MAX_NACK_RETRIES: nat := 10

  /** A packet that was skipped; sentAtMs is 0 until it is first asked for. */
  datatype Missing = Missing(number: int, createdAtMs: nat, sentAtMs: nat, retries: nat)

  datatype NackFilter = BySeq | ByTime

  datatype Tracker = Tracker(started: bool, top: int, missing: seq<Missing>, keyFrames: seq<int>)

  function Numbers(missing: seq<Missing>): (r: seq<int>)
    ensures |r| == |missing|
  {
    seq(|missing|, i requires 0 <= i < |missing| => missing[i].number)
  }

  /** `lower_bound`: the first place from i on whose number is not below n. */
  function FirstFrom(numbers: seq<int>, n: int, i: nat): (r: nat)
    requires i <= |numbers|
    ensures i <= r <= |numbers|
    ensures forall k | i <= k < r :: numbers[k] < n
    ensures r < |numbers| ==> numbers[r] >= n
    decreases |numbers| - i
  {
    if i == |numbers| || numbers[i] >= n then i else FirstFrom(numbers, n, i + 1)
  }

  function DropBelow(missing: seq<Missing>, n: int): seq<Missing> {
    missing[FirstFrom(Numbers(missing), n, 0)..]
  }

  // ---------------------------------------------------------------- listing

  /** `RemoveNackItemsUntilKeyFrame`: drops what is older than the first key frame that makes a
      difference, and the key frames that make none. */
  function UntilKeyFrame(missing: seq<Missing>, keyFrames: seq<int>): (r: (seq<Missing>, seq<int>, bool))
    ensures |r.1| <= |keyFrames|
    ensures if r.2 then |r.0| < |missing| else r.0 == missing
    decreases |keyFrames|
  {
    if |keyFrames| == 0 then (missing, [], false)
    else
      var kept := DropBelow(missing, keyFrames[0]);
      if |kept| < |missing| then (kept, keyFrames, true)
      else UntilKeyFrame(missing, keyFrames[1..])
  }

  /** The loop around it, until there is room or nothing more is found. */
  function Shrunk(missing: seq<Missing>, keyFrames: seq<int>, added: nat): (seq<Missing>, seq<int>)
    decreases |missing|
  {
    var (kept, frames, found) := UntilKeyFrame(missing, keyFrames);
    if found && |kept| + added > MAX_NACK_PACKETS then Shrunk(kept, frames, added) else (kept, frames)
  }

  function NewlyMissing(first: int, end: int, nowMs: nat): (r: seq<Missing>)
    requires first <= end
    ensures |r| == end - first
  {
    seq(end - first, i requires 0 <= i < end - first => Missing(first + i, nowMs, 0, 0))
  }

  datatype Listing = Listing(missing: seq<Missing>, keyFrames: seq<int>, keyFrameRequired: bool)

  /** `AddPacketsToNackList`. */
  function AddPackets(missing: seq<Missing>, keyFrames: seq<int>, first: int, end: int, nowMs: nat): Listing
    requires first <= end
  {
    var recent := DropBelow(missing, end - MAX_PACKET_AGE);
    var added := end - first;
    if |recent| + added <= MAX_NACK_PACKETS then
      Listing(recent + NewlyMissing(first, end, nowMs), keyFrames, false)
    else
      var (kept, frames) := Shrunk(recent, keyFrames, added);
      if |kept| + added > MAX_NACK_PACKETS then Listing([], frames, true)
      else Listing(kept + NewlyMissing(first, end, nowMs), frames, false)
  }

  // ---------------------------------------------------------------- asking

  /** The clock, the delay before a first request and the wait between requests. */
  datatype Moment = Moment(nowMs: nat, delayMs: nat, waitMs: nat)

  predicate Due(m: Missing, filter: NackFilter, at: Moment) {
    && !(at.delayMs > 0 && at.nowMs - m.createdAtMs < at.delayMs)
    && (m.sentAtMs == 0 || (filter == ByTime && at.nowMs - m.sentAtMs >= at.waitMs))
  }

  /** `GetNackBatch`: the numbers asked for, in order. */
  function Batch(missing: seq<Missing>, filter: NackFilter, at: Moment): seq<int> {
    if |missing| == 0 then []
    else
      (if Due(missing[0], filter, at) then [missing[0].number] else [])
      + Batch(missing[1..], filter, at)
  }

  /** What `GetNackBatch` keeps in the list. */
  function AfterBatch(missing: seq<Missing>, filter: NackFilter, at: Moment): seq<Missing> {
    if |missing| == 0 then []
    else
      var m := missing[0];
      (if !Due(m, filter, at) then [m]
       else if m.retries + 1 >= MAX_NACK_RETRIES then []
       else [m.(retries := m.retries + 1, sentAtMs := at.nowMs)])
      + AfterBatch(missing[1..], filter, at)
  }

  function WaitMs(rtt: nat): nat { if rtt > 0 then rtt else DEFAULT_RTT }

  // ---------------------------------------------------------------- packets

  datatype Outcome = Outcome(next: Tracker, found: bool, asked: seq<int>, keyFrameRequired: bool)

  /** `ReceivePacket` of a packet that was not recovered. */
  function Receive(t: Tracker, number: int, at: Moment): Outcome {
    if !t.started then
      Outcome(t.(started := true, top := number, keyFrames := t.keyFrames + [number]), false, [], false)
    else if number == t.top then Outcome(t, false, [], false)
    else if number < t.top then
      var i := FirstFrom(Numbers(t.missing), number, 0);
      if i < |t.missing| && t.missing[i].number == number then
        Outcome(t.(missing := t.missing[..i] + t.missing[i + 1..]), t.missing[i].retries != 0, [], false)
      else Outcome(t, false, [], false)
    else
      var added := t.keyFrames + [number];
      var frames := added[FirstFrom(added, number - MAX_PACKET_AGE, 0)..];
      var listing := AddPackets(t.missing, frames, t.top + 1, number, at.nowMs);
      Outcome(Tracker(true, number,
                      AfterBatch(listing.missing, BySeq, at), listing.keyFrames),
              false,
              Batch(listing.missing, BySeq, at),
              listing.keyFrameRequired)
  }

  /** `OnTimer`. */
  function Tick(t: Tracker, at: Moment): Outcome {
    Outcome(t.(missing := AfterBatch(t.missing, ByTime, at)), false,
            Batch(t.missing, ByTime, at), false)
  }

  // ---------------------------------------------------------------- the state between calls

  /** The list is in order, at most 10000 behind, at most 1000 long. */
  predicate Sound(t: Tracker) {
    && Ascending(Numbers(t.missing)) && Ascending(t.keyFrames)
    && (forall k | 0 <= k < |t.missing| :: t.top - MAX_PACKET_AGE <= t.missing[k].number < t.top)
    && (forall k | 0 <= k < |t.keyFrames| :: t.top - MAX_PACKET_AGE <= t.keyFrames[k] <= t.top)
    && |t.missing| <= MAX_NACK_PACKETS
    && (!t.started ==> |t.missing| == 0 && |t.keyFrames| == 0)
  }

  lemma SuffixAscends(numbers: seq<int>, i: nat)
    requires Ascending(numbers) && i <= |numbers|
    ensures Ascending(numbers[i..])
  {
  }

  /** Dropping keeps exactly the numbers not below n. */
  lemma DropBelowKeeps(missing: seq<Missing>, n: int)
    requires Ascending(Numbers(missing))
    ensures var r := DropBelow(missing, n);
            && Ascending(Numbers(r)) && |r| <= |missing|
            && (forall m | m in missing :: m in r <==> m.number >= n)
            && (forall m | m in r :: m in missing)
  {
    var numbers := Numbers(missing);
    var i := FirstFrom(numbers, n, 0);
    var r := DropBelow(missing, n);
    assert Numbers(r) == numbers[i..];
    forall j | 0 <= j < |r| ensures r[j].number >= n && r[j] in missing {
      assert r[j] == missing[i + j] && numbers[i + j] == r[j].number;
      assert j > 0 ==> numbers[i] < numbers[i + j];
    }
    forall m | m in missing && m.number >= n ensures m in r {
      var k :| 0 <= k < |missing| && missing[k] == m;
      assert numbers[k] == m.number;
      assert k >= i && r[k - i] == m;
    }
  }

  // ---------------------------------------------------------------- making room

  /** The first key frame that leaves room for the new entries. */
  function FirstFitting(missing: seq<Missing>, keyFrames: seq<int>, added: nat): (r: nat)
    ensures r <= |keyFrames|
    ensures forall k | 0 <= k < r :: |DropBelow(missing, keyFrames[k])| + added > MAX_NACK_PACKETS
    ensures r < |keyFrames| ==> |DropBelow(missing, keyFrames[r])| + added <= MAX_NACK_PACKETS
  {
    if |keyFrames| == 0 || |DropBelow(missing, keyFrames[0])| + added <= MAX_NACK_PACKETS then 0
    else 1 + FirstFitting(missing, keyFrames[1..], added)
  }

  lemma DropTwice(missing: seq<Missing>, a: int, b: int)
    requires Ascending(Numbers(missing)) && a <= b
    ensures DropBelow(DropBelow(missing, a), b) == DropBelow(missing, b)
  {
    var numbers := Numbers(missing);
    var i, j := FirstFrom(numbers, a, 0), FirstFrom(numbers, b, 0);
    var kept := missing[i..];
    assert i <= j;
    assert Numbers(kept) == numbers[i..];
    var k := FirstFrom(Numbers(kept), b, 0);
    assert k == j - i by {
      assert k < |kept| ==> numbers[i + k] >= b;
      assert forall x | 0 <= x < k :: numbers[i..][x] < b;
      assert forall x | i <= x < i + k :: numbers[x] == numbers[i..][x - i];
    }
    assert kept[k..] == missing[j..];
  }

  /** Dropping below two bounds is dropping below the higher one, so the search sees the same. */
  lemma {:induction false} FittingAfterDrop(missing: seq<Missing>, keyFrames: seq<int>, a: int, added: nat)
    requires Ascending(Numbers(missing)) && forall k | 0 <= k < |keyFrames| :: a <= keyFrames[k]
    ensures FirstFitting(DropBelow(missing, a), keyFrames, added) == FirstFitting(missing, keyFrames, added)
  {
    if |keyFrames| > 0 {
      DropTwice(missing, a, keyFrames[0]);
      FittingAfterDrop(missing, keyFrames[1..], a, added);
    }
  }

  lemma ShrunkOneRound(missing: seq<Missing>, keyFrames: seq<int>, added: nat)
    requires |keyFrames| > 0
    ensures var kept := DropBelow(missing, keyFrames[0]);
            && (|kept| == |missing| ==> kept == missing)
            && Shrunk(missing, keyFrames, added)
               == if |kept| == |missing| then Shrunk(missing, keyFrames[1..], added)
                  else if |kept| + added > MAX_NACK_PACKETS then Shrunk(kept, keyFrames, added)
                  else (kept, keyFrames)
  {
  }

  /** The nested loops drop up to the first key frame that leaves room, or, with none, up to the last. */
  lemma {:induction false} ShrunkIsFirstFitting(missing: seq<Missing>, keyFrames: seq<int>, added: nat)
    requires Ascending(Numbers(missing)) && Ascending(keyFrames) && |missing| + added > MAX_NACK_PACKETS
    ensures var i := FirstFitting(missing, keyFrames, added);
            Shrunk(missing, keyFrames, added)
            == if i < |keyFrames| then (DropBelow(missing, keyFrames[i]), keyFrames[i..])
               else (if i == 0 then missing else DropBelow(missing, keyFrames[i - 1]), [])
    decreases |missing|, |keyFrames|
  {
    hide DropBelow;
    if |keyFrames| > 0 {
      ShrunkOneRound(missing, keyFrames, added);
      var kept := DropBelow(missing, keyFrames[0]);
      DropBelowKeeps(missing, keyFrames[0]);
      var i := FirstFitting(missing, keyFrames, added);
      if |kept| == |missing| {
        SuffixAscends(keyFrames, 1);
        ShrunkIsFirstFitting(missing, keyFrames[1..], added);
        assert keyFrames[1..][i - 1..] == keyFrames[i..];
      } else if |kept| + added > MAX_NACK_PACKETS {
        ShrunkIsFirstFitting(kept, keyFrames, added);
        FittingAfterDrop(missing, keyFrames, keyFrames[0], added);
        DropTwice(missing, keyFrames[0], keyFrames[if i < |keyFrames| then i else i - 1]);
      }
    }
  }

  lemma DropAll(missing: seq<Missing>, n: int)
    requires forall k | 0 <= k < |missing| :: missing[k].number < n
    ensures DropBelow(missing, n) == []
  {
    assert forall k | 0 <= k < |missing| :: Numbers(missing)[k] < n;
  }

  /** The list overflows exactly when the new gap does not fit by itself. */
  lemma OverflowExactly(missing: seq<Missing>, keyFrames: seq<int>, added: nat)
    requires Ascending(Numbers(missing)) && Ascending(keyFrames) && |missing| + added > MAX_NACK_PACKETS
    requires |keyFrames| > 0 && forall k | 0 <= k < |missing| :: missing[k].number < keyFrames[|keyFrames| - 1]
    ensures |Shrunk(missing, keyFrames, added).0| + added > MAX_NACK_PACKETS <==> added > MAX_NACK_PACKETS
  {
    ShrunkIsFirstFitting(missing, keyFrames, added);
    DropAll(missing, keyFrames[|keyFrames| - 1]);
  }
}
